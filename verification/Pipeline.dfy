/**
  The passes in the order in which the program runs them: building the graph,
  replacing jumps by assumptions, and simplifying; and what the analysis may
  then rely on.
 */
module Pipeline {
  import opened Syntax
  import opened Graph
  import opened CfgRuns
  import opened Nondet
  import opened NondetEdges
  import opened Made
  import opened MadeRuns
  import opened Contraction
  import opened Simplified
  import opened CfgSteps
  import opened CfgObject

  /* ----- programs ----- */

  ghost predicate PlainNames(prog: InstructionSeq) {
    forall i :: Live(prog, i) ==> Plain(prog[i].name)
  }

  /** No conditional jump has its own fallthrough as target. */
  ghost predicate NoJumpToNext(prog: InstructionSeq) {
    forall i: nat, j: nat, x :: JumpsTo(prog, i, x) && HasFall(prog[i].ins) && Falls(prog, i, j) ==> prog[j].name != x
  }

  ghost predicate ForwardOnly(prog: InstructionSeq) {
    forall i: nat, j: nat, x :: JumpsTo(prog, i, x) && Names(prog, j, x) ==> i < j
  }

  ghost predicate WellNamed(prog: InstructionSeq) {
    DistinctNames(prog) && TargetsDefined(prog) && PlainNames(prog) && NoJumpToNext(prog)
  }

  /* ----- the first pass feeds the second ----- */

  lemma {:induction false} LiveNamesDistinct(prog: InstructionSeq, k: nat)
    requires k <= |prog| && DistinctNames(prog)
    ensures Distinct(LiveNames(prog, k))
  {
    if k == 0 {
    } else {
      LiveNamesDistinct(prog, k - 1);
      LiveNamesAre(prog, k - 1, prog[k - 1].name);
    }
  }

  lemma LabelsListed(prog: InstructionSeq, g: Blocks)
    requires MadeFrom(prog, g)
    ensures forall x :: x in g <==> x in LiveNames(prog, |prog|)
  {
    forall x
      ensures x in g <==> x in LiveNames(prog, |prog|)
    {
      LiveNamesAre(prog, |prog|, x);
      if x in g { MentionedHasSlot(prog, x); }
    }
  }

  lemma NoFallthroughJump(prog: InstructionSeq, g: Blocks)
    requires Faithful(prog, g) && NoJumpToNext(prog)
    ensures NoJumpToFallthrough(g)
  {
    forall x | x in g && |g[x].nextlist| == 2
      ensures g[x].nextlist[0] != g[x].nextlist[1]
    {
      assert HasSlot(prog, x);
      var i: nat :| Names(prog, i, x);
      assert SlotAt(prog, g, i);
      var j := NextLive(prog, i, |prog|).value;
      FallsIffNext(prog, i, j);
      assert JumpsTo(prog, i, g[x].nextlist[0]);
    }
  }

  /* ----- graphs without cycles ----- */

  ghost function SlotOf(prog: InstructionSeq, x: Label): nat
    requires HasSlot(prog, x)
  {
    var i: nat :| Names(prog, i, x);
    i
  }

  lemma ForwardNumbers(prog: InstructionSeq, g: Blocks)
    requires Faithful(prog, g) && Closed(g) && ForwardOnly(prog)
    ensures Acyclic(g)
  {
    var rank := map x | x in g :: SlotOf(prog, x);
    forall l, m | Edge(g, l, m) && m in g
      ensures rank[l] < rank[m]
    {
      var i, j := SlotOf(prog, l), SlotOf(prog, m);
      assert SlotAt(prog, g, i);
      if !JumpsTo(prog, i, m) {
        var next := NextLive(prog, i, |prog|).value;
        NamesUnique(prog, next, j);
      }
    }
    assert Numbering(g, rank);
  }

  /** The rank of a label of the new graph: twice the old rank, plus one for the blocks on the way out. */
  function NewRank(rank: map<Label, nat>, x: Label): nat {
    if x in rank then 2 * rank[x]
    else
      var owner := x[..FirstColonIn(x)];
      if owner in rank then 2 * rank[owner] + 1 else 0
  }

  function FirstColonIn(x: Label): (k: nat)
    ensures k <= |x|
  {
    if FirstColon(x) <= |x| then FirstColon(x) else 0
  }

  lemma MidRank(g: Blocks, rank: map<Label, nat>, x: Label, l: Label, first: bool)
    requires Input(g) && rank.Keys == g.Keys && MidOf(g, x, l, first)
    ensures NewRank(rank, x) == 2 * rank[l] + 1
  {
    BranchesTwo(g[l]);
    MidIsNew(g, x, l, first);
    FirstColonOfMid(l, g[l].nextlist[if first then 0 else 1]);
    assert x[..|l|] == l;
  }

  lemma NondetEdgeRank(g: Blocks, expand: bool, h: Blocks, rank: map<Label, nat>, x: Label, y: Label)
    requires Input(g) && IsNondet(g, expand, h) && rank.Keys == g.Keys && Numbering(g, rank)
    requires Edge(h, x, y) && y in h
    ensures NewRank(rank, x) < NewRank(rank, y)
  {
    if x in g {
      BranchesTwo(g[x]);
      assert h[x] == NewBlock(g, expand, x);
      if Branches(g[x]) {
        var first := y == Mid(x, g[x].nextlist[0]);
        MidRank(g, rank, y, x, first);
      } else {
        assert Edge(g, x, y);
      }
    } else {
      var l, first :| MidOf(g, x, l, first);
      BranchesTwo(g[l]);
      assert h[x] == MidBlock(g, l, first);
      MidRank(g, rank, x, l, first);
      assert Edge(g, l, y);
    }
  }

  lemma NondetNumbers(g: Blocks, expand: bool, h: Blocks)
    requires Input(g) && IsNondet(g, expand, h) && Acyclic(g)
    ensures Acyclic(h)
  {
    var any :| Numbering(g, any);
    var rank := map x | x in g :: any[x];
    assert Numbering(g, rank);
    var rank' := map x | x in h :: NewRank(rank, x);
    forall x, y | Edge(h, x, y) && y in h
      ensures rank'[x] < rank'[y]
    {
      NondetEdgeRank(g, expand, h, rank, x, y);
    }
    assert Numbering(h, rank');
  }

  /* ----- the whole pipeline ----- */

  /** What the passes have produced from the program: g, then h, then k. */
  ghost predicate Prepared(prog: InstructionSeq, g: Blocks, h: Blocks, k: Blocks) {
    MadeFrom(prog, g) && Input(g) && IsNondet(g, false, h) && Mirrored(h) && SimplifiedFrom(h, k)
  }

  lemma FirstPass(prog: InstructionSeq, g: Blocks)
    requires WellNamed(prog) && MadeFrom(prog, g)
    ensures Input(g) && NoJumpToFallthrough(g)
    ensures Distinct(LiveNames(prog, |prog|)) && forall l :: l in g <==> l in LiveNames(prog, |prog|)
  {
    MadeFaithful(prog, g);
    MadeIsTwoWay(prog, g);
    NoFallthroughJump(prog, g);
    LiveNamesDistinct(prog, |prog|);
    LabelsListed(prog, g);
  }

  lemma SecondPass(g: Blocks, h: Blocks, ls: seq<Label>)
    requires Input(g) && Mirrored(g) && NoJumpToFallthrough(g) && IsNondet(g, false, h)
    requires forall l :: l in g <==> l in ls
    ensures Mirrored(h) && forall x :: x in h <==> x in NondetLabels(g, ls)
  {
    MirroredIffNoJumpToFallthrough(g, false, h);
    forall x
      ensures x in h <==> x in NondetLabels(g, ls)
    {
      NondetLabelsAre(g, ls, x);
      if l, first :| MidOf(g, x, l, first) {
        assert l in ls;
      }
    }
  }

  lemma StaysAcyclic(prog: InstructionSeq, g: Blocks, h: Blocks, k: Blocks)
    requires Prepared(prog, g, h, k) && ForwardOnly(prog)
    ensures Acyclic(k)
  {
    MadeFaithful(prog, g);
    ForwardNumbers(prog, g);
    NondetNumbers(g, false, h);
    var rank :| Numbering(h, rank);
    assert Numbering(k, rank);
  }

  /* ----- the first label ----- */

  ghost predicate First(prog: InstructionSeq, i: nat) {
    Live(prog, i) && forall m :: 0 <= m < i ==> !Live(prog, m)
  }

  lemma {:induction false} FirstExists(prog: InstructionSeq, i: nat) returns (j: nat)
    requires Live(prog, i)
    ensures First(prog, j)
  {
    if m: nat :| m < i && Live(prog, m) {
      j := FirstExists(prog, m);
    } else {
      j := i;
    }
  }

  /** Where all jumps go forward, no slot leads to the first one. */
  lemma FirstFollowsNone(prog: InstructionSeq, i: nat, j: nat)
    requires DistinctNames(prog) && ForwardOnly(prog) && First(prog, i) && Live(prog, j)
    ensures prog[i].name !in Successors(prog, j, |prog|)
  {
    var x, next := prog[i].name, NextLive(prog, j, |prog|);
    assert Names(prog, i, x);
    assert !JumpsTo(prog, j, x);
    if next.Some? { NamesUnique(prog, next.value, i); }
  }

  lemma EdgeFromSlot(prog: InstructionSeq, g: Blocks, p: Label, x: Label) returns (j: nat)
    requires Faithful(prog, g) && Edge(g, p, x)
    ensures Live(prog, j) && x in Successors(prog, j, |prog|)
  {
    assert HasSlot(prog, p);
    j :| Names(prog, j, p);
    assert SlotAt(prog, g, j);
  }

  lemma FirstHasNoPredecessor(prog: InstructionSeq, g: Blocks, i: nat)
    requires Faithful(prog, g) && Mirrored(g) && ForwardOnly(prog) && First(prog, i)
    ensures prog[i].name in g && g[prog[i].name].prevlist == []
  {
    var x := prog[i].name;
    assert SlotAt(prog, g, i);
    if g[x].prevlist != [] {
      MirroredEdge(g, g[x].prevlist[0], x);
      var j := EdgeFromSlot(prog, g, g[x].prevlist[0], x);
      FirstFollowsNone(prog, i, j);
    }
  }

  lemma {:induction false} FirstListed(prog: InstructionSeq, i: nat, k: nat)
    requires First(prog, i) && k <= |prog|
    ensures if k <= i then LiveNames(prog, k) == [] else LiveNames(prog, k) != [] && LiveNames(prog, k)[0] == prog[i].name
  {
    if k == 0 {
    } else {
      FirstListed(prog, i, k - 1);
    }
  }

  lemma {:induction false} NondetFirst(g: Blocks, ls: seq<Label>)
    requires Input(g) && ls != [] && forall l :: l in ls ==> l in g
    ensures NondetLabels(g, ls) != [] && NondetLabels(g, ls)[0] == ls[0]
  {
    if |ls| == 1 {
      assert ls[..0] == [];
    } else {
      NondetFirst(g, ls[..|ls| - 1]);
    }
  }

  lemma PresentFirst(ls: seq<Label>, g: Blocks)
    requires ls != [] && ls[0] in g
    ensures Present(ls, g) != [] && Present(ls, g)[0] == ls[0]
  {}

  /** The labels begin with the program's first instruction; there are none when the program has none. */
  ghost predicate Heads(prog: InstructionSeq, ls: seq<Label>) {
    && (ls == [] <==> forall i :: !Live(prog, i))
    && forall i: nat :: First(prog, i) ==> ls != [] && ls[0] == prog[i].name
  }

  lemma FirstKept(prog: InstructionSeq, g: Blocks, h: Blocks, k: Blocks, i: nat)
    requires Prepared(prog, g, h, k) && ForwardOnly(prog) && First(prog, i)
    ensures prog[i].name in g && prog[i].name in k
  {
    MadeFaithful(prog, g);
    FirstHasNoPredecessor(prog, g, i);
    assert h[prog[i].name] == NewBlock(g, false, prog[i].name);
    EntrySurvives(h, k, prog[i].name);
  }

  lemma LabelsHead(prog: InstructionSeq, g: Blocks, names: seq<Label>, k: Blocks, i: nat)
    requires Input(g) && names == LiveNames(prog, |prog|) && (forall l :: l in names ==> l in g)
    requires First(prog, i) && prog[i].name in k
    ensures var ls := Present(NondetLabels(g, names), k); ls != [] && ls[0] == prog[i].name
  {
    FirstListed(prog, i, |prog|);
    NondetFirst(g, names);
    PresentFirst(NondetLabels(g, names), k);
  }

  lemma NoLabels(prog: InstructionSeq)
    requires forall i: nat :: !Live(prog, i)
    ensures LiveNames(prog, |prog|) == []
  {
    if LiveNames(prog, |prog|) != [] {
      LiveNamesAre(prog, |prog|, LiveNames(prog, |prog|)[0]);
    }
  }

  lemma SomeLabel(prog: InstructionSeq, ls: seq<Label>, i: nat)
    requires Live(prog, i) && forall j: nat :: First(prog, j) ==> ls != []
    ensures ls != []
  {
    var j := FirstExists(prog, i);
  }

  lemma FirstHeads(prog: InstructionSeq, g: Blocks, h: Blocks, k: Blocks, names: seq<Label>, i: nat)
    requires Prepared(prog, g, h, k) && ForwardOnly(prog) && First(prog, i)
    requires names == LiveNames(prog, |prog|) && forall l :: l in names ==> l in g
    ensures var ls := Present(NondetLabels(g, names), k); ls != [] && ls[0] == prog[i].name
  {
    FirstKept(prog, g, h, k, i);
    LabelsHead(prog, g, names, k, i);
  }

  lemma PreparedHeads(prog: InstructionSeq, g: Blocks, h: Blocks, k: Blocks, names: seq<Label>)
    requires Prepared(prog, g, h, k) && ForwardOnly(prog)
    requires names == LiveNames(prog, |prog|) && forall l :: l in names ==> l in g
    ensures Heads(prog, Present(NondetLabels(g, names), k))
  {
    var ls := Present(NondetLabels(g, names), k);
    forall i: nat | First(prog, i)
      ensures ls != [] && ls[0] == prog[i].name
    {
      FirstHeads(prog, g, h, k, names, i);
    }
    if i: nat :| Live(prog, i) {
      SomeLabel(prog, ls, i);
    } else {
      NoLabels(prog);
    }
  }

  /** Make, to_nondet and simplify: the graph that the analysis is given, for a program whose labels are in order. */
  method Prepare(prog: InstructionSeq) returns (ok: bool, cfg: Cfg, ghost g: Blocks, ghost h: Blocks)
    requires WellNamed(prog)
    ensures ok <==> FallsFrom(prog, |prog|, None)
    ensures ok ==> Prepared(prog, g, h, cfg.graph)
    ensures ok ==> forall l :: l in cfg.graph <==> l in cfg.orderedLabels
    ensures ok && ForwardOnly(prog) ==> Acyclic(cfg.graph) && Heads(prog, cfg.orderedLabels)
  {
    ok, cfg := Cfg.Make(prog);
    g, h := cfg.graph, cfg.graph;
    if !ok {
      return;
    }
    FirstPass(prog, g);
    cfg := cfg.ToNondet(false);
    h := cfg.graph;
    SecondPass(g, h, LiveNames(prog, |prog|));
    cfg.Simplify();
    if ForwardOnly(prog) {
      StaysAcyclic(prog, g, h, cfg.graph);
      PreparedHeads(prog, g, h, cfg.graph, LiveNames(prog, |prog|));
    }
  }

  /* ----- runs of the program in the final graph ----- */

  /** Some run of the program leads from a to b. */
  ghost predicate Runs<S(!new)>(M: Meaning<S>, prog: InstructionSeq, a: Visit<S>, b: Visit<S>) {
    exists r :: ProgRun(M, prog, r) && r[0] == a && r[|r| - 1] == b
  }

  lemma {:induction false} ProgRunLive<S(!new)>(M: Meaning<S>, prog: InstructionSeq, r: seq<Visit<S>>)
    requires ProgRun(M, prog, r)
    ensures AllLive(prog, r)
  {
    if |r| == 1 {
    } else {
      ProgRunLive(M, prog, r[1..]);
      assert r == [r[0]] + r[1..];
    }
  }

  lemma ProgramToNondet<S(!new)>(M: Meaning<S>, prog: InstructionSeq, g: Blocks, h: Blocks, a: Visit<S>, b: Visit<S>)
    requires Faithful(prog, g) && Input(g) && IsNondet(g, false, h) && Runs(M, prog, a, b)
    ensures Live(prog, a.slot) && Live(prog, b.slot) && Leads(M, h, Arrives(prog, a), Arrives(prog, b))
  {
    var r :| ProgRun(M, prog, r) && r[0] == a && r[|r| - 1] == b;
    ProgRunLive(M, prog, r);
    RunsAgree(M, prog, g, r);
    var q := Arrivals(prog, r);
    RunLeads(M, g, h, q);
  }

  lemma RunLeads<S(!new)>(M: Meaning<S>, g: Blocks, h: Blocks, q: seq<Arrival<S>>)
    requires Input(g) && IsNondet(g, false, h) && DetRun(M, g, q)
    ensures Leads(M, h, q[0], q[|q| - 1])
  {
    RunEmbeds(M, g, false, h, q);
    var e := Embed(g, q);
    assert FreeRun(M, h, e) && e[0] == q[0] && e[|e| - 1] == q[|q| - 1];
  }

  lemma ProgramFromNondet<S(!new)>(M: Meaning<S>, prog: InstructionSeq, g: Blocks, h: Blocks, a: Visit<S>, b: Visit<S>)
    requires Faithful(prog, g) && Input(g) && IsNondet(g, false, h) && Live(prog, a.slot) && Live(prog, b.slot)
    requires Leads(M, h, Arrives(prog, a), Arrives(prog, b))
    ensures Runs(M, prog, a, b)
  {
    var q :| FreeRun(M, h, q) && q[0] == Arrives(prog, a) && q[|q| - 1] == Arrives(prog, b);
    assert SlotAt(prog, g, a.slot) && SlotAt(prog, g, b.slot);
    RunProjects(M, g, false, h, q);
    var p := Project(g, q);
    EmbedEnds(g, p);
    var r := RunFound(M, prog, g, p);
    assert Arrives(prog, r[0]) == p[0] && Arrives(prog, r[|r| - 1]) == p[|p| - 1];
    NamesUnique(prog, r[0].slot, a.slot);
    NamesUnique(prog, r[|r| - 1].slot, b.slot);
    assert ProgRun(M, prog, r) && r[0] == a && r[|r| - 1] == b;
  }

  /**
    The program gets from a slot whose block is kept to another slot, with its
    states, exactly when the final graph gets there: to the block that holds
    the slot's instruction, and through the instructions before it.
   */
  lemma ProgramIsContracted<S(!new)>(M: Meaning<S>, prog: InstructionSeq, g: Blocks, h: Blocks, k: Blocks, y: Layout,
                                     a: Visit<S>, b: Visit<S>)
    requires Prepared(prog, g, h, k) && Contracts(h, k, y)
    requires Live(prog, a.slot) && Live(prog, b.slot) && prog[a.slot].name in k
    ensures prog[b.slot].name in h
    ensures Runs(M, prog, a, b) <==> LeadsHome(M, h, k, y, Arrives(prog, a), At(prog[b.slot].name, b.state))
  {
    MadeFaithful(prog, g);
    assert SlotAt(prog, g, b.slot);
    if Runs(M, prog, a, b) {
      ProgramToNondet(M, prog, g, h, a, b);
    }
    if Leads(M, h, Arrives(prog, a), Arrives(prog, b)) {
      ProgramFromNondet(M, prog, g, h, a, b);
    }
    SameArrivals(M, h, k, y, Arrives(prog, a), Arrives(prog, b));
  }

  lemma BodyOfOne(ins: Instruction)
    ensures Body(false, [ins]) == if ins.Jmp? then [] else [ins]
  {
    assert [ins][1..] == [];
    assert WithoutJumps([ins]) == if ins.Jmp? then [] else [ins];
  }

  lemma SlotInstruction(prog: InstructionSeq, g: Blocks, h: Blocks, i: nat)
    requires Faithful(prog, g) && Input(g) && IsNondet(g, false, h) && Live(prog, i)
    ensures prog[i].name in h && h[prog[i].name].insts == if prog[i].ins.Jmp? then [] else [prog[i].ins]
  {
    assert SlotAt(prog, g, i);
    BodyOfOne(prog[i].ins);
    assert h[prog[i].name] == NewBlock(g, false, prog[i].name);
  }

  lemma HomeHolds(h: Blocks, k: Blocks, y: Layout, x: Label)
    requires Contracts(h, k, y) && x in h && |h[x].insts| == 1
    ensures Stands(y, x) && var bb := k[y.homes[x].block];
            Offset(h, k, y, x) < |bb.insts| && bb.insts[Offset(h, k, y, x)] == h[x].insts[0]
  {
    HomeOf(h, k, y, x);
    GatheredPrefix(h, k, y.homes[x].block, y.chains[y.homes[x].block], y.homes[x].index);
  }

  /** What stands there is the slot's instruction, unless it is a jump, which is gone. */
  lemma SlotStands(prog: InstructionSeq, g: Blocks, h: Blocks, k: Blocks, y: Layout, i: nat)
    requires Prepared(prog, g, h, k) && Contracts(h, k, y) && Live(prog, i) && !prog[i].ins.Jmp?
    ensures var x := prog[i].name; x in h && Stands(y, x) && var bb := k[y.homes[x].block];
            Offset(h, k, y, x) < |bb.insts| && bb.insts[Offset(h, k, y, x)] == prog[i].ins
  {
    MadeFaithful(prog, g);
    SlotInstruction(prog, g, h, i);
    HomeHolds(h, k, y, prog[i].name);
  }
}
