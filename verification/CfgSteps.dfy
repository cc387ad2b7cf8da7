/**
  The loops of the graph passes over instructions and labels, and the blocks
  that one label adds to the graph with assumptions.
 */
module CfgSteps {
  import opened Syntax
  import opened Graph
  import opened Nondet
  import opened Made
  import opened Chains
  import opened Simplified

  /** The listed labels that have a block. */
  function Present(ls: seq<Label>, g: Blocks): (r: seq<Label>)
    ensures forall l :: l in r <==> l in ls && l in g
  {
    if ls == [] then [] else (if ls[0] in g then [ls[0]] else []) + Present(ls[1..], g)
  }

  /** The labels of the live slots among the first k. */
  function LiveNames(prog: InstructionSeq, k: nat): (r: seq<Label>)
    requires k <= |prog|
  {
    if k == 0 then []
    else LiveNames(prog, k - 1) + if Live(prog, k - 1) then [prog[k - 1].name] else []
  }

  lemma {:induction false} LiveNamesAre(prog: InstructionSeq, k: nat, x: Label)
    requires k <= |prog|
    ensures x in LiveNames(prog, k) <==> NamedBefore(prog, k, x)
  {
    if k == 0 {
    } else {
      LiveNamesAre(prog, k - 1, x);
      assert NamedBefore(prog, k, x) <==> NamedBefore(prog, k - 1, x) || Names(prog, k - 1, x);
    }
  }

  /* ----- loops over instructions and labels ----- */

  lemma Regroup(a: seq<Instruction>, b: seq<Instruction>, c: seq<Instruction>)
    ensures a + (b + c) == (a + b) + c
  {}

  lemma Tail(s: seq<Instruction>, x: Instruction)
    requires s != []
    ensures (s + [x])[1..] == s[1..] + [x] && (s + [x])[0] == s[0]
  {}

  lemma {:induction false} ExpandLocksAppend(s: seq<Instruction>, x: Instruction)
    ensures ExpandLocks(s + [x]) == ExpandLocks(s) + ExpandLock(x)
  {
    if s == [] {
      assert s + [x] == [x] && [x][1..] == [];
    } else {
      Tail(s, x);
      ExpandLocksAppend(s[1..], x);
      Regroup(ExpandLock(s[0]), ExpandLocks(s[1..]), ExpandLock(x));
    }
  }

  lemma {:induction false} WithoutJumpsAppend(s: seq<Instruction>, x: Instruction)
    ensures WithoutJumps(s + [x]) == WithoutJumps(s) + if x.Jmp? then [] else [x]
  {
    if s == [] {
      assert s + [x] == [x] && [x][1..] == [];
    } else {
      Tail(s, x);
      WithoutJumpsAppend(s[1..], x);
      Regroup(if s[0].Jmp? then [] else [s[0]], WithoutJumps(s[1..]), if x.Jmp? then [] else [x]);
    }
  }

  method DoExpandLocks(insts: seq<Instruction>) returns (res: seq<Instruction>)
    ensures res == ExpandLocks(insts)
  {
    res := [];
    for i := 0 to |insts|
      invariant res == ExpandLocks(insts[..i])
    {
      ghost var before := res;
      var lock := ExpandLock(insts[i]);
      for j := 0 to |lock|
        invariant res == before + lock[..j]
      {
        res := res + [lock[j]];
      }
      PrefixAll(lock);
      ExpandLocksAppend(insts[..i], insts[i]);
      PrefixStep(insts, i);
    }
    PrefixAll(insts);
  }

  method KeptInstructions(insts: seq<Instruction>, expandLocks: bool) returns (res: seq<Instruction>)
    ensures res == Body(expandLocks, insts)
  {
    var source := insts;
    if expandLocks { source := DoExpandLocks(insts); }
    res := [];
    for i := 0 to |source|
      invariant res == WithoutJumps(source[..i])
    {
      WithoutJumpsAppend(source[..i], source[i]);
      assert source[..i + 1] == source[..i] + [source[i]];
      if !source[i].Jmp? { res := res + [source[i]]; }
    }
    assert source[..|source|] == source;
  }

  method NewPrevlist(g: Blocks, prevs: seq<Label>, l: Label) returns (res: seq<Label>)
    requires forall p :: p in prevs ==> p in g
    ensures res == PrevNames(g, prevs, l)
  {
    res := [];
    for i := 0 to |prevs|
      invariant |res| == i && forall k :: 0 <= k < i ==> res[k] == PrevName(g, prevs[k], l)
    {
      res := res + [PrevName(g, prevs[i], l)];
    }
  }

  /** Every entry equal to from becomes to. */
  method RenameAll(s: seq<Label>, from: Label, to: Label) returns (r: seq<Label>)
    ensures r == Renamed(s, from, to)
  {
    r := s;
    for k := 0 to |s|
      invariant |r| == |s| && r[k..] == s[k..]
      invariant forall i :: 0 <= i < k ==> r[i] == Renamed(s, from, to)[i]
    {
      if r[k] == from { r := r[k := to]; }
    }
  }

  /* ----- the blocks added for one label ----- */

  ghost predicate MidFrom(g: Blocks, done: seq<Label>, x: Label)
    requires Input(g)
  {
    exists l, first :: l in done && MidOf(g, x, l, first)
  }

  /** The new graph after the labels in done. */
  ghost predicate NondetUpTo(g: Blocks, expand: bool, done: seq<Label>, h: Blocks)
    requires Input(g)
  {
    && (forall x :: x in h <==> x in done || MidFrom(g, done, x))
    && (forall l :: l in done && l in g ==> h[l] == NewBlock(g, expand, l))
    && (forall x, l, first :: l in done && MidOf(g, x, l, first) ==> x in h && h[x] == MidBlock(g, l, first))
  }

  /** h' is h with the block of l and the blocks on its way out. */
  ghost predicate Added(g: Blocks, expand: bool, h: Blocks, l: Label, h': Blocks)
    requires Input(g) && l in g
  {
    && (forall x :: x in h' <==> x in h || x == l || MidOf(g, x, l, true) || MidOf(g, x, l, false))
    && h'[l] == NewBlock(g, expand, l)
    && (forall x, first :: MidOf(g, x, l, first) ==> x in h' && h'[x] == MidBlock(g, l, first))
    && (forall x :: x in h && x != l && !MidOf(g, x, l, true) && !MidOf(g, x, l, false) ==> h'[x] == h[x])
  }

  lemma MidsApart(g: Blocks, x: Label, l: Label, first: bool, l': Label, second: bool)
    requires Input(g) && MidOf(g, x, l, first) && MidOf(g, x, l', second)
    ensures l == l' && first == second
  {
    BranchesTwo(g[l]);
    BranchesTwo(g[l']);
    MidInjective(l, g[l].nextlist[if first then 0 else 1], l', g[l'].nextlist[if second then 0 else 1]);
  }

  lemma MidIsNew(g: Blocks, x: Label, l: Label, first: bool)
    requires Input(g) && MidOf(g, x, l, first)
    ensures x !in g
  {}

  lemma AddedKeys(g: Blocks, expand: bool, done: seq<Label>, h: Blocks, l: Label, h': Blocks)
    requires Input(g) && NondetUpTo(g, expand, done, h) && l in g && Added(g, expand, h, l, h')
    ensures forall x :: x in h' <==> x in done + [l] || MidFrom(g, done + [l], x)
  {}

  lemma AddedBlocks(g: Blocks, expand: bool, done: seq<Label>, h: Blocks, l: Label, h': Blocks)
    requires Input(g) && NondetUpTo(g, expand, done, h) && l in g && l !in done && Added(g, expand, h, l, h')
    ensures forall m :: m in done + [l] && m in g ==> m in h' && h'[m] == NewBlock(g, expand, m)
  {}

  lemma AddedMids(g: Blocks, expand: bool, done: seq<Label>, h: Blocks, l: Label, h': Blocks, x: Label, m: Label, first: bool)
    requires Input(g) && NondetUpTo(g, expand, done, h) && l in g && l !in done && Added(g, expand, h, l, h')
    requires m in done + [l] && MidOf(g, x, m, first)
    ensures x in h' && h'[x] == MidBlock(g, m, first)
  {
    if m != l {
      MidIsNew(g, x, m, first);
      if MidOf(g, x, l, true) { MidsApart(g, x, m, first, l, true); assert false; }
      if MidOf(g, x, l, false) { MidsApart(g, x, m, first, l, false); assert false; }
    }
  }

  lemma AddedUpTo(g: Blocks, expand: bool, done: seq<Label>, h: Blocks, l: Label, h': Blocks)
    requires Input(g) && NondetUpTo(g, expand, done, h) && l in g && l !in done && Added(g, expand, h, l, h')
    ensures NondetUpTo(g, expand, done + [l], h')
  {
    AddedKeys(g, expand, done, h, l, h');
    AddedBlocks(g, expand, done, h, l, h');
    forall x, m, first | m in done + [l] && MidOf(g, x, m, first)
      ensures x in h' && h'[x] == MidBlock(g, m, first)
    {
      AddedMids(g, expand, done, h, l, h', x, m, first);
    }
  }

  lemma UpToAll(g: Blocks, expand: bool, done: seq<Label>, h: Blocks)
    requires Input(g) && NondetUpTo(g, expand, done, h) && forall l :: l in g <==> l in done
    ensures IsNondet(g, expand, h)
  {}

  /* ----- the blocks on the way out of one label ----- */

  function Outgoing(g: Blocks, l: Label): seq<Label>
    requires Input(g) && l in g
  {
    if Branches(g[l]) then NextNames(g[l], l) else []
  }

  /** Each label followed by the labels of the blocks on its way out. */
  function NondetLabels(g: Blocks, ls: seq<Label>): seq<Label>
    requires Input(g) && forall l :: l in ls ==> l in g
  {
    if ls == [] then []
    else NondetLabels(g, ls[..|ls| - 1]) + ([ls[|ls| - 1]] + Outgoing(g, ls[|ls| - 1]))
  }

  lemma OutgoingAre(g: Blocks, l: Label, x: Label)
    requires Input(g) && l in g
    ensures x in Outgoing(g, l) <==> MidOf(g, x, l, true) || MidOf(g, x, l, false)
  {}

  /** The listed labels are those of the new graph. */
  lemma {:induction false} NondetLabelsAre(g: Blocks, ls: seq<Label>, x: Label)
    requires Input(g) && forall l :: l in ls ==> l in g
    ensures x in NondetLabels(g, ls) <==> x in ls || MidFrom(g, ls, x)
  {
    if ls == [] {
    } else {
      var init, l := ls[..|ls| - 1], ls[|ls| - 1];
      assert ls == init + [l];
      NondetLabelsAre(g, init, x);
      OutgoingAre(g, l, x);
      assert MidOf(g, x, l, true) || MidOf(g, x, l, false) ==> MidOf(g, x, l, MidOf(g, x, l, true));
    }
  }

  /** h' is h with the first k of the two blocks on the way out of l. */
  ghost predicate MidsUpTo(g: Blocks, h: Blocks, l: Label, k: nat, h': Blocks)
    requires Input(g)
  {
    && (forall x :: x in h' <==> x in h || (k >= 1 && MidOf(g, x, l, true)) || (k >= 2 && MidOf(g, x, l, false)))
    && (forall x :: k >= 1 && MidOf(g, x, l, true) ==> x in h' && h'[x] == MidBlock(g, l, true))
    && (forall x :: k >= 2 && MidOf(g, x, l, false) ==> x in h' && h'[x] == MidBlock(g, l, false))
    && (forall x :: x in h && !MidOf(g, x, l, true) && !MidOf(g, x, l, false) ==> x in h' && h'[x] == h[x])
  }

  lemma MidsStep(g: Blocks, h: Blocks, l: Label, k: nat, h1: Blocks, h2: Blocks)
    requires Input(g) && l in g && Branches(g[l]) && k < 2 && MidsUpTo(g, h, l, k, h1)
    requires |g[l].nextlist| == 2
    requires h2 == h1[Mid(l, g[l].nextlist[k]) := MidBlock(g, l, k == 0)]
    ensures MidsUpTo(g, h, l, k + 1, h2)
  {
    BranchesTwo(g[l]);
    var y := Mid(l, g[l].nextlist[k]);
    assert MidOf(g, y, l, k == 0);
    forall x
      ensures MidOf(g, x, l, k == 0) <==> x == y
      ensures !(MidOf(g, x, l, true) && MidOf(g, x, l, false))
    {
      if MidOf(g, x, l, true) && MidOf(g, x, l, false) { MidsApart(g, x, l, true, l, false); }
    }
  }

  lemma BlockAdded(g: Blocks, expand: bool, h: Blocks, l: Label, h1: Blocks, h2: Blocks)
    requires Input(g) && l in g && h2 == h1[l := NewBlock(g, expand, l)]
    requires if Branches(g[l]) then MidsUpTo(g, h, l, 2, h1) else h1 == h
    ensures Added(g, expand, h, l, h2)
  {}

  lemma FallsSome(prog: InstructionSeq, from: Option<Label>)
    requires FallsFrom(prog, |prog|, from)
    ensures from.None? <==> FallsFrom(prog, |prog|, None)
  {}

  /* ----- reconnecting after a merge ----- */

  /** The predecessors of the listed blocks are renamed, everything else is as it was. */
  ghost predicate Reconnected(g: Blocks, done: seq<Label>, from: Label, to: Label, h: Blocks) {
    && (forall x :: x in h <==> x in g)
    && forall x :: x in g ==> h[x] == if x in done then g[x].(prevlist := Renamed(g[x].prevlist, from, to)) else g[x]
  }

  lemma RenamedNone(s: seq<Label>, from: Label, to: Label)
    requires from !in s
    ensures Renamed(s, from, to) == s
  {}

  lemma ReconnectedStep(g: Blocks, done: seq<Label>, l: Label, from: Label, to: Label, h1: Blocks, h2: Blocks)
    requires Reconnected(g, done, from, to, h1) && Reconnected(h1, [l], from, to, h2) && l in g && from != to
    ensures Reconnected(g, done + [l], from, to, h2)
  {}

  /** g without b, with a extended by b: the state before reconnecting. */
  ghost predicate Joined(g: Blocks, a: Label, b: Label, h: Blocks)
    requires a in g && b in g
  {
    && (forall l :: l in h <==> l in g && l != b)
    && (forall l :: l in h && l != a ==> h[l] == g[l])
    && (a in h ==> h[a] == BasicBlock(g[a].insts + g[b].insts, g[b].nextlist, g[a].prevlist))
  }

  /** Taking b away after a was extended by it. */
  lemma JoinedWithout(g: Blocks, a: Label, b: Label, g1: Blocks, h: Blocks)
    requires a in g && b in g && a != b && h == g1 - {b}
    requires (forall l :: l in g1 <==> l in g) && (forall l :: l in g1 && l != a ==> g1[l] == g[l])
    requires g1[a] == BasicBlock(g[a].insts + g[b].insts, g[b].nextlist, g[a].prevlist)
    ensures Joined(g, a, b, h)
  {}

  lemma NextsStay(g: Blocks, a: Label, b: Label, h: Blocks)
    requires Mirrored(g) && Mergeable(g, a, b) && Joined(g, a, b, h)
    ensures forall l :: l in g[b].nextlist ==> l in h
  {
    OnlyPredecessor(g, a, b);
  }

  lemma ReconnectedAt(g: Blocks, a: Label, b: Label, j: Blocks, h: Blocks, l: Label)
    requires a in g && b in g && a != b && Joined(g, a, b, j) && Reconnected(j, g[b].nextlist, b, a, h) && l in h
    requires l in g && l !in g[b].nextlist ==> b !in g[l].prevlist
    ensures l in g && h[l] == MergedBlock(g, a, b, l)
  {
    if l !in g[b].nextlist { RenamedNone(g[l].prevlist, b, a); }
  }

  lemma ReconnectedMerges(g: Blocks, a: Label, b: Label, j: Blocks, h: Blocks)
    requires Mirrored(g) && Mergeable(g, a, b) && Joined(g, a, b, j) && Reconnected(j, g[b].nextlist, b, a, h)
    ensures Merged(g, a, b, h)
  {
    forall l | l in h
      ensures l in g && h[l] == MergedBlock(g, a, b, l)
    {
      MirroredEdge(g, b, l);
      ReconnectedAt(g, a, b, j, h, l);
    }
  }

  /* ----- the list of labels still to be simplified ----- */

  ghost predicate SettledBut(g: Blocks, labels: seq<Label>, rest: set<Label>) {
    forall l :: l in labels && l in g && l !in rest ==> Settled(g, l)
  }

  lemma MergeSettlesBut(g: Blocks, a: Label, b: Label, h: Blocks, labels: seq<Label>, rest: set<Label>)
    requires MergeInput(g, a, b, h) && SettledBut(g, labels, rest + {a})
    ensures SettledBut(h, labels, (rest - {b}) + {a})
  {
    forall l | l in labels && l in h && l !in (rest - {b}) + {a}
      ensures Settled(h, l)
    {
      MergeSettles(g, a, b, h, l);
    }
  }

  lemma KeysShrink(s: set<Label>, b: Label, t: set<Label>)
    requires b in s && forall l :: l in t <==> l in s && l != b
    ensures |t| < |s|
  {
    assert t == s - {b};
  }

  lemma MergeShrinks(g: Blocks, a: Label, b: Label, h: Blocks)
    requires MergeInput(g, a, b, h)
    ensures |h| < |g|
  {
    KeysShrink(g.Keys, b, h.Keys);
  }

  lemma FewerLabels(s: set<Label>, t: set<Label>)
    requires s <= t
    ensures |s| <= |t|
  {
    assert t == s + (t - s);
  }

  lemma SettledAll(g: Blocks, labels: seq<Label>, rest: set<Label>, l: Label)
    requires SettledBut(g, labels, rest + {l}) && Settled(g, l)
    ensures SettledBut(g, labels, rest)
  {}

  lemma SettledPick(g: Blocks, labels: seq<Label>, rest: set<Label>, l: Label)
    requires SettledBut(g, labels, rest) && l in rest
    ensures SettledBut(g, labels, (rest - {l}) + {l})
  {}

  lemma SettledDone(g: Blocks, labels: seq<Label>)
    requires SettledBut(g, labels, {})
    ensures forall l :: l in labels && l in g ==> Settled(g, l)
  {}

  /** One live slot of the sequence: what its block and its links lead to. */
  lemma SlotAdded(prog: InstructionSeq, k: nat, from: Option<Label>, g: Blocks, g1: Blocks, g2: Blocks, g3: Blocks)
    requires k < |prog| && Live(prog, k) && Mirrored(g) && FallsFrom(prog, k, from) && SlotDone(prog[k], from, g, g1, g2, g3)
    ensures Mirrored(g3)
    ensures FallsFrom(prog, k + 1, if HasFall(prog[k].ins) then Some(prog[k].name) else None)
    ensures DistinctNames(prog) && MadeUpTo(prog, k, g) ==> MadeUpTo(prog, k + 1, g3)
  {
    SlotMirrors(prog[k], from, g, g1, g2, g3);
    FallsNext(prog, k);
    if DistinctNames(prog) && MadeUpTo(prog, k, g) { MadeStep(prog, k, from, g, g1, g2, g3); }
  }

  lemma NothingMade(prog: InstructionSeq)
    ensures FallsFrom(prog, 0, None) && MadeUpTo(prog, 0, map[])
  {}
}
