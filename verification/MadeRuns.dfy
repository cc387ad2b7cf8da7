/**
  Runs of an instruction sequence, in which slots without an instruction are
  skipped, and runs of the graph built from it.
 */
module MadeRuns {
  import opened Syntax
  import opened Graph
  import opened CfgRuns
  import opened Made
  import Nondet

  datatype Visit<S> = In(slot: nat, state: S)

  /** j is the next slot after i that holds an instruction. */
  ghost predicate Falls(prog: InstructionSeq, i: nat, j: nat) {
    i < j && Live(prog, j) && forall m :: i < m < j ==> !Live(prog, m)
  }

  /** Control may pass from slot i to slot j in state t; a conditional jump falls when the reverse of its condition holds. */
  ghost predicate Passes<S(!new)>(M: Meaning<S>, prog: InstructionSeq, i: nat, t: S, j: nat)
    requires Live(prog, i)
  {
    match prog[i].ins
    case Exit => false
    case Jmp(cond, target) =>
      || ((cond.None? || M.holds(cond.value, t) || Falls(prog, i, j)) && Names(prog, j, target))
      || (cond.Some? && M.holds(ReverseCondition(cond.value), t) && Falls(prog, i, j))
    case _ => Falls(prog, i, j)
  }

  /** Where reversing is complementing, a conditional jump goes to its target when the condition holds and falls otherwise. */
  lemma PassesOne<S(!new)>(M: Meaning<S>, prog: InstructionSeq, i: nat, t: S, j: nat)
    requires Complementary(M) && Live(prog, i) && prog[i].ins.Jmp? && prog[i].ins.cond.Some?
    ensures Passes(M, prog, i, t, j) <==>
      if M.holds(prog[i].ins.cond.value, t) then Names(prog, j, prog[i].ins.target) else Falls(prog, i, j)
  {}

  ghost predicate ProgStep<S(!new)>(M: Meaning<S>, prog: InstructionSeq, a: Visit<S>, b: Visit<S>) {
    Live(prog, a.slot) && Live(prog, b.slot) && Effect(M, prog[a.slot].ins, a.state, b.state) && Passes(M, prog, a.slot, b.state, b.slot)
  }

  ghost predicate ProgRun<S(!new)>(M: Meaning<S>, prog: InstructionSeq, r: seq<Visit<S>>) {
    r != [] && Live(prog, r[0].slot) && (|r| > 1 ==> ProgStep(M, prog, r[0], r[1]) && ProgRun(M, prog, r[1..]))
  }

  /** A graph built successfully from a program whose labels are distinct and whose targets exist. */
  ghost predicate MadeFrom(prog: InstructionSeq, g: Blocks) {
    && DistinctNames(prog) && TargetsDefined(prog) && Mirrored(g)
    && MadeUpTo(prog, |prog|, g) && FallsFrom(prog, |prog|, None)
  }

  lemma {:induction false} FallsIffNext(prog: InstructionSeq, i: nat, j: nat)
    requires i < |prog|
    ensures Falls(prog, i, j) <==> NextLive(prog, i, |prog|) == Some(j)
    decreases |prog| - i
  {
    if i + 1 >= |prog| {
    } else {
      FallsIffNext(prog, i + 1, j);
      if !Live(prog, i + 1) {
        var n := i + 1;
        forall m | i < m < j && Falls(prog, n, j)
          ensures !Live(prog, m)
        {
          assert m == n || n < m < j;
        }
        assert Falls(prog, i, j) ==> j != n;
      }
    }
  }

  /** The block of a slot: its instruction, and its successors in order. */
  ghost predicate SlotAt(prog: InstructionSeq, g: Blocks, i: nat) {
    && i < |prog| && prog[i].name in g && g[prog[i].name].insts == [prog[i].ins]
    && g[prog[i].name].nextlist == Successors(prog, i, |prog|)
    && (HasFall(prog[i].ins) ==> NextLive(prog, i, |prog|).Some?)
  }

  ghost predicate HasSlot(prog: InstructionSeq, x: Label) {
    exists i: nat :: Names(prog, i, x)
  }

  /** Blocks and live slots correspond one to one. */
  ghost predicate Faithful(prog: InstructionSeq, g: Blocks) {
    && DistinctNames(prog)
    && (forall i: nat :: Live(prog, i) ==> SlotAt(prog, g, i))
    && (forall x :: x in g ==> HasSlot(prog, x))
  }

  lemma MadeFaithful(prog: InstructionSeq, g: Blocks)
    requires MadeFrom(prog, g)
    ensures Faithful(prog, g)
  {
    forall i: nat | Live(prog, i)
      ensures SlotAt(prog, g, i)
    {
      assert BlockMade(prog, |prog|, g, i);
      if NextLive(prog, i, |prog|).None? { MadeFalls(prog, i); }
    }
    forall x | x in g
      ensures HasSlot(prog, x)
    {
      MentionedHasSlot(prog, x);
    }
  }

  lemma MadeFalls(prog: InstructionSeq, i: nat)
    requires FallsFrom(prog, |prog|, None) && Live(prog, i) && NextLive(prog, i, |prog|).None?
    ensures !HasFall(prog[i].ins)
  {
    assert Pending(prog, |prog|, i);
  }

  lemma MentionedHasSlot(prog: InstructionSeq, x: Label)
    requires TargetsDefined(prog) && Mentioned(prog, |prog|, x)
    ensures HasSlot(prog, x)
  {}

  /** A conditional jump's successors are its target and then the slot it falls to. */
  lemma ConditionalSuccessors(prog: InstructionSeq, g: Blocks, i: nat, j: nat)
    requires Faithful(prog, g) && Live(prog, i) && prog[i].ins.Jmp? && prog[i].ins.cond.Some? && Falls(prog, i, j)
    ensures prog[i].name in g && g[prog[i].name].nextlist == [prog[i].ins.target, prog[j].name]
  {
    assert SlotAt(prog, g, i);
    FallsIffNext(prog, i, j);
  }

  lemma NamesUnique(prog: InstructionSeq, i: nat, j: nat)
    requires DistinctNames(prog) && Live(prog, i) && Live(prog, j)
    ensures prog[i].name == prog[j].name <==> i == j
  {}

  /** In state t the block of slot i chooses the label of slot j exactly when control passes from i to j. */
  lemma ChoosesIffPasses<S(!new)>(M: Meaning<S>, prog: InstructionSeq, g: Blocks, i: nat, t: S, j: nat)
    requires Faithful(prog, g) && Live(prog, i) && Live(prog, j)
    ensures prog[i].name in g
    ensures Chooses(M, g[prog[i].name], t, prog[j].name) <==> Passes(M, prog, i, t, j)
  {
    assert SlotAt(prog, g, i);
    var next := NextLive(prog, i, |prog|);
    FallsIffNext(prog, i, j);
    if next.Some? {
      NamesUnique(prog, j, next.value);
    }
  }

  lemma StepsAgree<S(!new)>(M: Meaning<S>, prog: InstructionSeq, g: Blocks, a: Visit<S>, b: Visit<S>)
    requires Faithful(prog, g) && Live(prog, a.slot) && Live(prog, b.slot)
    ensures DetStep(M, g, Arrives(prog, a), Arrives(prog, b)) <==> ProgStep(M, prog, a, b)
  {
    ChoosesIffPasses(M, prog, g, a.slot, b.state, b.slot);
    assert SlotAt(prog, g, a.slot);
    Nondet.ExecutesOne(M, prog[a.slot].ins, a.state, b.state);
  }

  function Arrives<S>(prog: InstructionSeq, a: Visit<S>): Arrival<S>
    requires Live(prog, a.slot)
  {
    At(prog[a.slot].name, a.state)
  }

  ghost predicate AllLive<S>(prog: InstructionSeq, r: seq<Visit<S>>) {
    forall i :: 0 <= i < |r| ==> Live(prog, r[i].slot)
  }

  function Arrivals<S>(prog: InstructionSeq, r: seq<Visit<S>>): (q: seq<Arrival<S>>)
    requires AllLive(prog, r)
    ensures |q| == |r| && forall i :: 0 <= i < |r| ==> q[i] == Arrives(prog, r[i])
  {
    seq(|r|, i requires 0 <= i < |r| => Arrives(prog, r[i]))
  }

  lemma ArrivalsAppend<S>(prog: InstructionSeq, r: seq<Visit<S>>, a: Visit<S>)
    requires AllLive(prog, r) && Live(prog, a.slot)
    ensures AllLive(prog, r + [a]) && Arrivals(prog, r + [a]) == Arrivals(prog, r) + [Arrives(prog, a)]
  {}

  /** The graph runs exactly as the instruction sequence does. */
  lemma {:induction false} RunsAgree<S(!new)>(M: Meaning<S>, prog: InstructionSeq, g: Blocks, r: seq<Visit<S>>)
    requires Faithful(prog, g) && AllLive(prog, r)
    ensures DetRun(M, g, Arrivals(prog, r)) <==> ProgRun(M, prog, r)
  {
    if r != [] { assert SlotAt(prog, g, r[0].slot); }
    if |r| <= 1 {
    } else {
      StepsAgree(M, prog, g, r[0], r[1]);
      RunsAgree(M, prog, g, r[1..]);
      assert Arrivals(prog, r)[1..] == Arrivals(prog, r[1..]);
    }
  }

  lemma {:induction false} DetRunInside<S(!new)>(M: Meaning<S>, g: Blocks, q: seq<Arrival<S>>, i: nat)
    requires DetRun(M, g, q) && i < |q|
    ensures q[i].name in g
  {
    if i == 0 {
    } else {
      DetRunInside(M, g, q[1..], i - 1);
    }
  }

  /** Every run of the graph is one of the instruction sequence. */
  lemma {:induction false} RunFound<S(!new)>(M: Meaning<S>, prog: InstructionSeq, g: Blocks, q: seq<Arrival<S>>) returns (r: seq<Visit<S>>)
    requires Faithful(prog, g) && DetRun(M, g, q)
    ensures AllLive(prog, r) && Arrivals(prog, r) == q && ProgRun(M, prog, r)
  {
    r := [];
    for k := 0 to |q|
      invariant |r| == k && AllLive(prog, r)
      invariant Arrivals(prog, r) == q[..k]
    {
      DetRunInside(M, g, q, k);
      assert HasSlot(prog, q[k].name);
      var i: nat :| Names(prog, i, q[k].name);
      ArrivalsAppend(prog, r, In(i, q[k].state));
      PrefixStep(q, k);
      r := r + [In(i, q[k].state)];
    }
    PrefixAll(q);
    RunsAgree(M, prog, g, r);
  }

  /** With plain labels the graph is fit for replacing its conditional jumps by assumptions. */
  lemma MadeIsTwoWay(prog: InstructionSeq, g: Blocks)
    requires Closed(g) && Faithful(prog, g) && forall i :: Live(prog, i) ==> Nondet.Plain(prog[i].name)
    ensures Nondet.Input(g)
  {}
}
