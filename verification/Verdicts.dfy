/**
  The verdicts along the runs of a program: what an assertion marked satisfied
  says about every state with which the program arrives at it.
 */
module Verdicts {
  import opened Syntax
  import opened Graph
  import opened Made
  import opened MadeRuns
  import opened Pipeline
  import opened Contraction
  import opened Rcp
  import opened Machine
  import opened Assertions
  import opened Analyzer
  import opened AnalysisSound
  import opened Verifier

  /** m is what the analysis computes before the n-th instruction of the block l. */
  ghost predicate ComputedAt(k: Blocks, pre: map<Label, MachineVal>, l: Label, n: nat, m: MachineVal) {
    l in k && l in pre && exists steps :: RunsFrom(k[l].insts, pre[l], steps) && n < |steps| && steps[n] == m
  }

  lemma ComputedDescribes(k: Blocks, pre: map<Label, MachineVal>, l: Label, n: nat, m: MachineVal, s: State)
    requires ComputedAt(k, pre, l, n, m) && DescribedAt(k, pre, l, n, s) && Sane(pre[l])
    ensures DescribesState(m, s) && Sane(m)
  {
    var insts := k[l].insts;
    var steps :| RunsFrom(insts, pre[l], steps) && n < |steps| && steps[n] == m;
    var steps' :| RunsFrom(insts, pre[l], steps') && n < |steps'| && DescribesState(steps'[n], s);
    assert insts[..|insts|] == insts;
    RunsUnique(insts, |insts|, pre[l], steps, steps', n);
    RunsSane(insts, pre[l], steps, n);
  }

  /** m is what the analysis computes at the place of slot i. */
  ghost predicate ComputedSlot(prog: InstructionSeq, h: Blocks, k: Blocks, y: Layout, pre: map<Label, MachineVal>, i: nat, m: MachineVal) {
    && Live(prog, i) && prog[i].name in h && Contracts(h, k, y)
    && ComputedAt(k, pre, y.homes[prog[i].name].block, Offset(h, k, y, prog[i].name), m)
  }

  lemma SlotDescribes(prog: InstructionSeq, h: Blocks, k: Blocks, y: Layout, pre: map<Label, MachineVal>, b: Visit<State>, m: MachineVal)
    requires DescribedSlot(prog, h, k, y, pre, b) && ComputedSlot(prog, h, k, y, pre, b.slot, m) && AllSane(pre)
    ensures DescribesState(m, b.state) && Sane(m)
  {
    var x := prog[b.slot].name;
    ComputedDescribes(k, pre, y.homes[x].block, Offset(h, k, y, x), m, b.state);
  }

  /** Before the slot, every state with which the program reaches it is described by the computed machine. */
  lemma ComputedHolds(prog: InstructionSeq, g: Blocks, h: Blocks, k: Blocks, y: Layout, keys: seq<Label>, order: seq<Label>,
                      pre: map<Label, MachineVal>, post: map<Label, MachineVal>, a: Visit<State>, b: Visit<State>, m: MachineVal)
    requires Verified(prog, g, h, k, y, keys, order, pre, post)
    requires Starts(prog, a) && Runs(Tagged(), prog, a, b)
    requires ComputedSlot(prog, h, k, y, pre, b.slot, m)
    ensures DescribesState(m, b.state) && Sane(m)
  {
    VerifierIsSound(prog, g, h, k, y, keys, order, pre, post, a, b);
    SlotDescribes(prog, h, k, y, pre, b, m);
  }

  /** A type constraint marked satisfied, its premise decided, is met by every state in which the program arrives there. */
  lemma VerdictHolds(prog: InstructionSeq, g: Blocks, h: Blocks, k: Blocks, y: Layout, keys: seq<Label>, order: seq<Label>,
                     pre: map<Label, MachineVal>, post: map<Label, MachineVal>, a: Visit<State>, b: Visit<State>,
                     m: MachineVal, c: TypeConstraint)
    requires Verified(prog, g, h, k, y, keys, order, pre, post)
    requires Starts(prog, a) && Runs(Tagged(), prog, a, b)
    requires ComputedSlot(prog, h, k, y, pre, b.slot, m)
    requires Readable(m, c) && Marked(m, c) && PremiseDecided(m, c)
    ensures Meets(b.state, c)
  {
    ComputedHolds(prog, g, h, k, y, keys, order, pre, post, a, b, m);
    MarkedMeets(m, c, b.state);
  }

  /** A linear constraint marked satisfied, with one bound in each of its types, is met by every state in which the program arrives there. */
  lemma LinearVerdictHolds(prog: InstructionSeq, g: Blocks, h: Blocks, k: Blocks, y: Layout, keys: seq<Label>, order: seq<Label>,
                           pre: map<Label, MachineVal>, post: map<Label, MachineVal>, a: Visit<State>, b: Visit<State>,
                           m: MachineVal, c: LinearConstraint)
    requires Verified(prog, g, h, k, y, keys, order, pre, post)
    requires Starts(prog, a) && Runs(Tagged(), prog, a, b)
    requires ComputedSlot(prog, h, k, y, pre, b.slot, m)
    requires LinearReadable(m, c) && LinearMarked(m, c) && OneBound(m, c)
    ensures LinearMet(c, b.state)
  {
    ComputedHolds(prog, g, h, k, y, keys, order, pre, post, a, b, m);
    LinearMarkedMeets(m, c, b.state);
  }
}
