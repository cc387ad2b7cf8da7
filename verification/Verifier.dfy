/**
  The whole run: the graph is prepared from the program and analysed, and the
  analysis speaks about every run of that program.
 */
module Verifier {
  import opened Syntax
  import opened Graph
  import opened Made
  import opened MadeRuns
  import opened CfgRuns
  import opened Contraction
  import opened CfgObject
  import opened Pipeline
  import opened Machine
  import opened Analyzer
  import opened Schedule
  import opened Solutions
  import opened Worklist
  import opened Coverage
  import opened AnalysisSound

  /** The facts that a finished analysis leaves behind. */
  ghost predicate Finished(g: Blocks, keys: seq<Label>, order: seq<Label>, pre: map<Label, MachineVal>, post: map<Label, MachineVal>) {
    && keys != [] && Mirrored(g) && Acyclic(g) && keys[0] in g
    && Complete(g, keys[0], order, pre, post)
  }

  /** A fresh analysis of the graph; it finishes unless some ready block meets an instruction that is refused. */
  method Analyze(g: Blocks, keys: seq<Label>) returns (ok: bool, analysis: Analysis, ghost order: seq<Label>)
    requires keys != [] && Mirrored(g) && Acyclic(g) && forall l :: l in g <==> l in keys
    ensures fresh(analysis)
    ensures ok ==> Finished(g, keys, order, analysis.pre, analysis.post)
    ensures ok <==> !GetsStuck(g, keys[0])
  {
    analysis := new Analysis(keys);
    ghost var rank :| Numbering(g, rank);
    assert keys[0] in keys;
    SameKeys(g, keys);
    ok, order := Worklist.Run(g, keys, analysis, rank);
  }

  /** The program has an instruction and does not fall off its end. */
  ghost predicate Analysable(prog: InstructionSeq) {
    FallsFrom(prog, |prog|, None) && exists i :: Live(prog, i)
  }

  /**
    Building, preparing and analysing a program that only jumps forward. The
    analysis finishes exactly when there is a graph to analyse and none of its
    blocks meets an instruction that is refused.
   */
  method Verify(prog: InstructionSeq)
    returns (ok: bool, cfg: Cfg, analysis: Analysis?, ghost g: Blocks, ghost h: Blocks, ghost order: seq<Label>)
    requires WellNamed(prog) && ForwardOnly(prog)
    ensures Analysable(prog) ==> Prepared(prog, g, h, cfg.graph) && Heads(prog, cfg.orderedLabels)
    ensures ok <==> Analysable(prog) && !GetsStuck(cfg.graph, cfg.orderedLabels[0])
    ensures ok ==> analysis != null && Finished(cfg.graph, cfg.orderedLabels, order, analysis.pre, analysis.post)
  {
    analysis, order := null, [];
    ok, cfg, g, h := Prepare(prog);
    if ok && cfg.orderedLabels != [] {
      ok, analysis, order := Analyze(cfg.graph, cfg.orderedLabels);
    } else {
      ok := false;
    }
  }

  lemma SameKeys(g: Blocks, keys: seq<Label>)
    requires forall l :: l in g <==> l in keys
    ensures g.Keys == Labels(keys)
  {}

  /** What the analysis computes at the place of x describes the state. */
  ghost predicate DescribedHome(h: Blocks, k: Blocks, y: Layout, pre: map<Label, MachineVal>, x: Label, s: State)
    requires Contracts(h, k, y) && x in h
  {
    DescribedAt(k, pre, y.homes[x].block, Offset(h, k, y, x), s)
  }

  lemma HomeIsSound(h: Blocks, k: Blocks, y: Layout, keys: seq<Label>, order: seq<Label>,
                    pre: map<Label, MachineVal>, post: map<Label, MachineVal>, s0: State, b: Arrival<State>)
    requires Contracts(h, k, y) && b.name in h && Finished(k, keys, order, pre, post) && NoStrayPredecessor(k, keys[0])
    requires Started(s0) && LeadsHome(Tagged(), h, k, y, At(keys[0], s0), b)
    ensures DescribedHome(h, k, y, pre, b.name, b.state)
  {
    var rank :| Numbering(k, rank);
    InsideIsSound(k, keys[0], rank, order, pre, post, s0, y.homes[b.name].block, Offset(h, k, y, b.name), b.state);
  }

  /** The program has been prepared and its graph analysed; y says where its instructions stand. No unreachable block feeds a reachable one. */
  ghost predicate Verified(prog: InstructionSeq, g: Blocks, h: Blocks, k: Blocks, y: Layout, keys: seq<Label>, order: seq<Label>,
                           pre: map<Label, MachineVal>, post: map<Label, MachineVal>) {
    && Prepared(prog, g, h, k) && Contracts(h, k, y) && Heads(prog, keys)
    && Finished(k, keys, order, pre, post) && NoStrayPredecessor(k, keys[0])
  }

  /** At the program's first instruction, in a state in which a program starts. */
  ghost predicate Starts(prog: InstructionSeq, a: Visit<State>) {
    First(prog, a.slot) && Started(a.state)
  }

  /** What the analysis computes at the place of the slot's instruction describes the state. */
  ghost predicate DescribedSlot(prog: InstructionSeq, h: Blocks, k: Blocks, y: Layout, pre: map<Label, MachineVal>, b: Visit<State>) {
    Live(prog, b.slot) && prog[b.slot].name in h && Contracts(h, k, y) && DescribedHome(h, k, y, pre, prog[b.slot].name, b.state)
  }

  /**
    The end of it all: every state with which the program reaches a slot is
    described by what the analysis computes there, namely by the pre of the
    block that holds the slot's instruction, run through the instructions
    before it.
   */
  lemma VerifierIsSound(prog: InstructionSeq, g: Blocks, h: Blocks, k: Blocks, y: Layout, keys: seq<Label>, order: seq<Label>,
                        pre: map<Label, MachineVal>, post: map<Label, MachineVal>, a: Visit<State>, b: Visit<State>)
    requires Verified(prog, g, h, k, y, keys, order, pre, post)
    requires Starts(prog, a) && Runs(Tagged(), prog, a, b)
    ensures DescribedSlot(prog, h, k, y, pre, b)
  {
    MadeFaithful(prog, g);
    ProgramToNondet(Tagged(), prog, g, h, a, b);
    ProgramIsContracted(Tagged(), prog, g, h, k, y, a, b);
    HomeIsSound(h, k, y, keys, order, pre, post, a.state, At(prog[b.slot].name, b.state));
  }
}
