/**
  What a sequence of merges keeps: edges, traces, instructions, and the blocks
  that cannot be merged.
 */
module Simplified {
  import opened Syntax
  import opened Graph
  import opened Chains
  import opened Contraction

  /* ----- edges ----- */

  lemma {:induction false} RenamedCount(s: seq<Label>, from: Label, to: Label, x: Label)
    requires from != to
    ensures Occurs(Renamed(s, from, to), x) ==
      if x == from then 0 else if x == to then Occurs(s, to) + Occurs(s, from) else Occurs(s, x)
  {
    if s == [] {
      assert Renamed(s, from, to) == [];
    } else {
      RenamedCount(s[1..], from, to, x);
      OccursCons(s, x);
      OccursCons(s, to);
      OccursCons(s, from);
      OccursCons(Renamed(s, from, to), x);
      assert Renamed(s, from, to)[1..] == Renamed(s[1..], from, to);
    }
  }

  /** The edges out of l, as both lists of the new graph count them. */
  lemma MergeMirrorsAt(g: Blocks, a: Label, b: Label, h: Blocks, l: Label, m: Label)
    requires MergeInput(g, a, b, h) && l in h && m in h
    ensures Occurs(h[l].nextlist, m) == Occurs(h[m].prevlist, l)
  {
    RenamedCount(g[m].prevlist, b, a, l);
    var from := if l == a then b else l;
    assert Occurs(g[from].nextlist, m) == Occurs(g[m].prevlist, from);
    assert Occurs(g[a].nextlist, m) == Occurs(g[m].prevlist, a);
  }

  lemma MergeCloses(g: Blocks, a: Label, b: Label, h: Blocks)
    requires MergeInput(g, a, b, h)
    ensures Closed(h)
  {
    OnlyPredecessor(g, a, b);
    assert a in h;
    forall l | l in h
      ensures forall m :: m in h[l].nextlist ==> m in h
      ensures forall p :: p in h[l].prevlist ==> p in h
    {}
  }

  lemma MergeMirrors(g: Blocks, a: Label, b: Label, h: Blocks)
    requires MergeInput(g, a, b, h)
    ensures Mirrored(h)
  {
    MergeCloses(g, a, b, h);
    forall l, m | l in h && m in h
      ensures Occurs(h[l].nextlist, m) == Occurs(h[m].prevlist, l)
    {
      MergeMirrorsAt(g, a, b, h, l, m);
    }
  }

  lemma MergeNumbers(g: Blocks, a: Label, b: Label, h: Blocks, rank: map<Label, nat>)
    requires MergeInput(g, a, b, h) && Numbering(g, rank)
    ensures Numbering(h, rank)
  {
    assert Edge(g, a, b);
    forall l, m | Edge(h, l, m) && m in h
      ensures rank[l] < rank[m]
    {
      assert l == a ==> Edge(g, b, m);
      assert l != a ==> Edge(g, l, m);
    }
  }

  /* ----- instructions ----- */

  function CountAt(g: Blocks, l: Label, ins: Instruction): nat {
    if l in g then multiset(g[l].insts)[ins] else 0
  }

  /** How often the instruction occurs in the listed blocks. */
  function Count(g: Blocks, ls: seq<Label>, ins: Instruction): nat {
    if ls == [] then 0 else CountAt(g, ls[0], ins) + Count(g, ls[1..], ins)
  }

  lemma MergeCountAt(g: Blocks, a: Label, b: Label, h: Blocks, x: Label, ins: Instruction)
    requires a in g && b in g && a != b && Merged(g, a, b, h)
    ensures CountAt(h, x, ins) == if x == a then CountAt(g, a, ins) + CountAt(g, b, ins) else if x == b then 0 else CountAt(g, x, ins)
  {}

  lemma {:induction false} MergeCounts(g: Blocks, a: Label, b: Label, h: Blocks, ls: seq<Label>, ins: Instruction)
    requires a in g && b in g && a != b && Merged(g, a, b, h) && Distinct(ls)
    ensures Count(h, ls, ins) + (if b in ls then CountAt(g, b, ins) else 0)
         == Count(g, ls, ins) + (if a in ls then CountAt(g, b, ins) else 0)
  {
    if ls == [] {
    } else {
      var x, rest := ls[0], ls[1..];
      assert ls == [x] + rest;
      MergeCounts(g, a, b, h, rest, ins);
      MergeCountAt(g, a, b, h, x, ins);
      assert x !in rest;
    }
  }

  /* ----- what is left to merge ----- */

  /** No successor can be merged into x. */
  ghost predicate Settled(g: Blocks, x: Label) {
    forall y :: !Mergeable(g, x, y)
  }

  lemma MergeSettles(g: Blocks, a: Label, b: Label, h: Blocks, x: Label)
    requires MergeInput(g, a, b, h) && x != a && Settled(g, x)
    ensures Settled(h, x)
  {
    forall y
      ensures !Mergeable(h, x, y)
    {
      assert !Mergeable(g, x, y);
      assert Mergeable(h, x, y) ==> Mergeable(g, x, y);
    }
  }

  /* ----- many merges ----- */

  /** Every instruction occurs as often as before. */
  ghost predicate KeepsInstructions(g: Blocks, h: Blocks) {
    forall ls, ins :: Distinct(ls) && Lists(ls, g) ==> Count(g, ls, ins) == Count(h, ls, ins)
  }

  ghost predicate Lists(ls: seq<Label>, g: Blocks) {
    forall l :: l in g ==> l in ls
  }

  ghost predicate KeepsTraces(g: Blocks, h: Blocks) {
    forall l :: l in h ==> SameTraces(g, h, l)
  }

  /** A block goes away only if it has exactly one predecessor entry, and no block's number of predecessor entries changes. */
  ghost predicate KeepsJoins(g: Blocks, h: Blocks) {
    && (forall l :: l in h ==> l in g && |h[l].prevlist| == |g[l].prevlist|)
    && (forall l :: l in g && |g[l].prevlist| != 1 ==> l in h)
  }

  ghost predicate KeepsNumberings(g: Blocks, h: Blocks) {
    forall rank :: Numbering(g, rank) ==> Numbering(h, rank)
  }

  /** h is what merging blocks of g may lead to. */
  ghost predicate SimplifiedFrom(g: Blocks, h: Blocks) {
    && Mirrored(g) && Mirrored(h) && Contracted(g, h)
    && KeepsTraces(g, h) && KeepsInstructions(g, h) && KeepsJoins(g, h) && KeepsNumberings(g, h)
  }

  lemma NothingMerged(g: Blocks)
    requires Mirrored(g)
    ensures SimplifiedFrom(g, g)
  {
    ContractsSelf(g);
  }

  lemma ContractedAfter(g: Blocks, h: Blocks, a: Label, b: Label, k: Blocks)
    requires Mirrored(g) && Contracted(g, h) && KeepsJoins(g, h) && MergeInput(h, a, b, k)
    ensures Contracted(g, k)
  {
    var y :| Contracts(g, h, y);
    MergeSplices(h, a, b, k);
    assert |g[b].prevlist| == 1;
    MergeContracts(g, h, y, a, b, k);
  }

  lemma TracesAfter(g: Blocks, h: Blocks, a: Label, b: Label, k: Blocks)
    requires KeepsTraces(g, h) && MergeInput(h, a, b, k)
    ensures KeepsTraces(g, k)
  {
    forall l | l in k
      ensures SameTraces(g, k, l)
    {
      MergeKeepsTraces(h, a, b, k, l);
      assert SameTraces(g, h, l);
    }
  }

  lemma InstructionsAfter(g: Blocks, h: Blocks, a: Label, b: Label, k: Blocks)
    requires KeepsInstructions(g, h) && KeepsJoins(g, h) && MergeInput(h, a, b, k)
    ensures KeepsInstructions(g, k)
  {
    forall ls, ins | Distinct(ls) && Lists(ls, g)
      ensures Count(g, ls, ins) == Count(k, ls, ins)
    {
      MergeCounts(h, a, b, k, ls, ins);
      assert a in ls && b in ls;
    }
  }

  /** One more merge. */
  lemma MergeAfter(g: Blocks, h: Blocks, a: Label, b: Label, k: Blocks)
    requires SimplifiedFrom(g, h) && MergeInput(h, a, b, k)
    ensures SimplifiedFrom(g, k)
  {
    MergeMirrors(h, a, b, k);
    ContractedAfter(g, h, a, b, k);
    TracesAfter(g, h, a, b, k);
    InstructionsAfter(g, h, a, b, k);
    forall rank | Numbering(g, rank)
      ensures Numbering(k, rank)
    {
      MergeNumbers(h, a, b, k, rank);
    }
  }

  ghost predicate StepAt<T(!new)>(R: (T, T) -> bool, s: seq<T>, i: nat)
    requires i + 1 < |s|
  {
    R(s[i], s[i + 1])
  }

  /** Each element is related to the next. */
  ghost predicate Along<T(!new)>(R: (T, T) -> bool, s: seq<T>) {
    s != [] && forall i: nat {:trigger StepAt(R, s, i)} :: i + 1 < |s| ==> StepAt(R, s, i)
  }

  lemma AlongSnoc<T(!new)>(R: (T, T) -> bool, s: seq<T>, x: T)
    requires Along(R, s) && R(s[|s| - 1], x)
    ensures Along(R, s + [x])
  {
    forall i: nat | i + 1 < |s + [x]|
      ensures StepAt(R, s + [x], i)
    {
      if i + 1 < |s| { assert StepAt(R, s, i); }
    }
  }

  /** What each step keeps, many steps keep. */
  lemma {:induction false} AlongKeeps<T(!new)>(R: (T, T) -> bool, kept: T -> bool, s: seq<T>, i: nat)
    requires Along(R, s) && kept(s[0]) && i < |s|
    requires forall x, y :: R(x, y) && kept(x) ==> kept(y)
    ensures kept(s[i])
    decreases i
  {
    if i == 0 {
    } else {
      AlongKeeps(R, kept, s, i - 1);
      assert StepAt(R, s, i - 1);
    }
  }

  ghost predicate OneMerge(g: Blocks, h: Blocks) {
    exists a, b :: MergeInput(g, a, b, h)
  }

  ghost function MergeSteps(): (Blocks, Blocks) -> bool {
    (g: Blocks, h: Blocks) => OneMerge(g, h)
  }

  /** The graphs lead from g to h, each by one merge from the one before. */
  ghost predicate Merging(g: Blocks, hs: seq<Blocks>, h: Blocks) {
    Along(MergeSteps(), hs) && hs[0] == g && hs[|hs| - 1] == h
  }

  lemma MergesOn(g: Blocks, hs: seq<Blocks>, h: Blocks, a: Label, b: Label, k: Blocks)
    requires Merging(g, hs, h) && MergeInput(h, a, b, k)
    ensures Merging(g, hs + [k], k)
  {
    assert OneMerge(h, k);
    StepOn(g, hs, h, k);
  }

  lemma StepOn(g: Blocks, hs: seq<Blocks>, h: Blocks, k: Blocks)
    requires Merging(g, hs, h) && OneMerge(h, k)
    ensures Merging(g, hs + [k], k)
  {
    AlongSnoc(MergeSteps(), hs, k);
  }

  lemma OneMergeKeeps(g: Blocks, h: Blocks, k: Blocks)
    requires SimplifiedFrom(g, h) && OneMerge(h, k)
    ensures SimplifiedFrom(g, k)
  {
    var a, b :| MergeInput(h, a, b, k);
    MergeAfter(g, h, a, b, k);
  }

  ghost function FromGraph(g: Blocks): Blocks -> bool {
    (h: Blocks) => SimplifiedFrom(g, h)
  }

  /** What any number of merges keeps. */
  lemma MergesKeep(g: Blocks, hs: seq<Blocks>, h: Blocks)
    requires Merging(g, hs, h) && Mirrored(g)
    ensures SimplifiedFrom(g, h)
  {
    NothingMerged(g);
    forall x, y | MergeSteps()(x, y) && FromGraph(g)(x)
      ensures FromGraph(g)(y)
    {
      OneMergeKeeps(g, x, y);
    }
    assert FromGraph(g)(h) by {
      AlongKeeps(MergeSteps(), FromGraph(g), hs, |hs| - 1);
    }
  }

  /** A block without predecessors, such as the entry, survives, and every trace from it is kept. */
  lemma EntrySurvives(g: Blocks, h: Blocks, entry: Label)
    requires SimplifiedFrom(g, h) && entry in g && g[entry].prevlist == []
    ensures entry in h && h[entry].prevlist == [] && SameTraces(g, h, entry)
  {}
}
