/**
  The edges of the graph with assumptions: successor and predecessor lists
  still mirror each other exactly when no block jumps to its own fallthrough.
 */
module NondetEdges {
  import opened Syntax
  import opened Graph
  import opened Nondet

  /** No conditional jump goes where falling through would go. */
  predicate NoJumpToFallthrough(g: Blocks) {
    forall l | l in g :: |g[l].nextlist| == 2 ==> g[l].nextlist[0] != g[l].nextlist[1]
  }

  /* ----- counting ----- */

  lemma {:induction false} NamesCount(g: Blocks, prevs: seq<Label>, l: Label, x: Label, p: Label)
    requires forall q :: q in prevs ==> q in g && (PrevName(g, q, l) == x <==> q == p)
    ensures Occurs(PrevNames(g, prevs, l), x) == Occurs(prevs, p)
  {
    if prevs == [] {
    } else {
      NamesCount(g, prevs[1..], l, x, p);
      OccursCons(prevs, p);
      OccursCons(PrevNames(g, prevs, l), x);
      assert PrevNames(g, prevs, l)[1..] == PrevNames(g, prevs[1..], l);
    }
  }

  lemma NamesLack(g: Blocks, prevs: seq<Label>, l: Label, x: Label)
    requires forall q :: q in prevs ==> q in g && PrevName(g, q, l) != x
    ensures Occurs(PrevNames(g, prevs, l), x) == 0
  {}

  lemma PrevNameCases(g: Blocks, p: Label, l: Label)
    requires Input(g) && p in g
    ensures PrevName(g, p, l) == if Branches(g[p]) then Mid(p, l) else p
  {
    BranchesTwo(g[p]);
  }

  lemma TwoOccur(a: Label, b: Label, x: Label)
    ensures Occurs([a, b], x) == (if a == x then 1 else 0) + (if b == x then 1 else 0)
    ensures Occurs([a], x) == if a == x then 1 else 0
    ensures Occurs([], x) == 0
  {}

  /* ----- the four kinds of pairs ----- */

  lemma PrevOldCount(g: Blocks, l: Label, m: Label)
    requires Input(g) && l in g && m in g
    ensures Occurs(PrevNames(g, g[m].prevlist, m), l) == if Branches(g[l]) then 0 else Occurs(g[m].prevlist, l)
  {
    forall q | q in g[m].prevlist
      ensures PrevName(g, q, m) == (if Branches(g[q]) then Mid(q, m) else q) && Mid(q, m) != l
    {
      PrevNameCases(g, q, m);
      MidNotPlain(q, m);
    }
    if Branches(g[l]) {
      NamesLack(g, g[m].prevlist, m, l);
    } else {
      NamesCount(g, g[m].prevlist, m, l, l);
    }
  }

  lemma NextOldCount(g: Blocks, l: Label, m: Label)
    requires Input(g) && l in g && m in g
    ensures Occurs(NextNames(g[l], l), m) == if Branches(g[l]) then 0 else Occurs(Unique(g[l].nextlist), m)
  {}

  /** Between two old blocks the new lists agree unless the block branches or jumps to its own fallthrough. */
  lemma OldToOld(g: Blocks, expand: bool, h: Blocks, l: Label, m: Label)
    requires Input(g) && Mirrored(g) && IsNondet(g, expand, h) && l in g && m in g
    ensures Occurs(h[m].prevlist, l) == if Branches(g[l]) then 0 else Occurs(g[l].nextlist, m)
    ensures Occurs(h[l].nextlist, m) == if Branches(g[l]) then 0 else Occurs(Unique(g[l].nextlist), m)
  {
    PrevOldCount(g, l, m);
    NextOldCount(g, l, m);
    assert h[m] == NewBlock(g, expand, m) && h[l] == NewBlock(g, expand, l);
  }

  /** Into an assumption block there is one edge, from the block it belongs to. */
  lemma OldToMid(g: Blocks, expand: bool, h: Blocks, l: Label, x: Label, a: Label, first: bool)
    requires Input(g) && IsNondet(g, expand, h) && l in g && MidOf(g, x, a, first)
    ensures Occurs(h[x].prevlist, l) == (if l == a then 1 else 0) == Occurs(h[l].nextlist, x)
  {
    BranchesTwo(g[a]);
    BranchesTwo(g[l]);
    assert h[x] == MidBlock(g, a, first);
    TwoOccur(a, a, l);
    var b := g[a].nextlist[if first then 0 else 1];
    MidNotPlain(a, b);
    forall m | Mid(l, m) == x
      ensures l == a && m == b
    {
      MidInjective(l, m, a, b);
    }
    if Branches(g[l]) {
      TwoOccur(Mid(l, g[l].nextlist[0]), Mid(l, g[l].nextlist[1]), x);
      if l == a { MidInjectiveAt(a, g[a].nextlist[0], g[a].nextlist[1]); }
    } else {
      assert forall m :: m in h[l].nextlist ==> m in g;
      assert x !in multiset(h[l].nextlist);
    }
  }

  lemma MidInjectiveAt(a: Label, m: Label, n: Label)
    ensures Mid(a, m) == Mid(a, n) <==> m == n
  {
    if Mid(a, m) == Mid(a, n) {
      assert Mid(a, m)[|a| + 1..] == m && Mid(a, n)[|a| + 1..] == n;
    }
  }

  lemma PrevMidCount(g: Blocks, m: Label, a: Label, b: Label)
    requires Input(g) && m in g && a in g && b in g && Branches(g[a])
    ensures Occurs(PrevNames(g, g[m].prevlist, m), Mid(a, b)) == if m == b then Occurs(g[m].prevlist, a) else 0
  {
    var x := Mid(a, b);
    MidNotPlain(a, b);
    forall q | q in g[m].prevlist
      ensures PrevName(g, q, m) == x <==> q == a && m == b
    {
      PrevNameCases(g, q, m);
      if Mid(q, m) == Mid(a, b) { MidInjective(q, m, a, b); }
    }
    if m == b {
      NamesCount(g, g[m].prevlist, m, x, a);
    } else {
      NamesLack(g, g[m].prevlist, m, x);
    }
  }

  /** A branching block has one edge to each of its successors. */
  lemma OneEdgeEach(g: Blocks, a: Label, first: bool)
    requires Input(g) && Mirrored(g) && a in g && Branches(g[a])
    ensures |g[a].nextlist| == 2 && g[a].nextlist[if first then 0 else 1] in g
    ensures Occurs(g[g[a].nextlist[if first then 0 else 1]].prevlist, a) == 1
  {
    BranchesTwo(g[a]);
    var n := g[a].nextlist;
    var b := n[if first then 0 else 1];
    TwoOccur(n[0], n[1], b);
    assert n == [n[0], n[1]];
    assert Occurs(g[a].nextlist, b) == Occurs(g[b].prevlist, a);
  }

  /** Out of an assumption block there is one edge, to the successor it stands for. */
  lemma MidToOld(g: Blocks, expand: bool, h: Blocks, x: Label, a: Label, first: bool, m: Label)
    requires Input(g) && Mirrored(g) && IsNondet(g, expand, h) && MidOf(g, x, a, first) && m in g
    ensures Occurs(h[x].nextlist, m) == Occurs(h[m].prevlist, x)
  {
    OneEdgeEach(g, a, first);
    var b := g[a].nextlist[if first then 0 else 1];
    PrevMidCount(g, m, a, b);
    assert h[x].nextlist == [b] by { assert h[x] == MidBlock(g, a, first); }
    assert h[m] == NewBlock(g, expand, m);
    TwoOccur(b, b, m);
  }

  lemma MidToMid(g: Blocks, expand: bool, h: Blocks, x: Label, a: Label, first: bool, y: Label, b: Label, second: bool)
    requires Input(g) && IsNondet(g, expand, h) && MidOf(g, x, a, first) && MidOf(g, y, b, second)
    ensures Occurs(h[x].nextlist, y) == 0 == Occurs(h[y].prevlist, x)
  {
    BranchesTwo(g[a]);
    BranchesTwo(g[b]);
    MidNotPlain(a, g[a].nextlist[if first then 0 else 1]);
    MidNotPlain(b, g[b].nextlist[if second then 0 else 1]);
    assert h[x] == MidBlock(g, a, first) && h[y] == MidBlock(g, b, second);
    TwoOccur(g[a].nextlist[if first then 0 else 1], "", y);
    TwoOccur(b, "", x);
  }

  /* ----- the whole graph ----- */

  lemma NamesInside(g: Blocks, expand: bool, h: Blocks, l: Label)
    requires Input(g) && Mirrored(g) && IsNondet(g, expand, h) && l in g
    ensures forall m :: m in h[l].nextlist ==> m in h
    ensures forall p :: p in h[l].prevlist ==> p in h
  {
    BranchesTwo(g[l]);
    assert h[l] == NewBlock(g, expand, l);
    if Branches(g[l]) {
      assert MidOf(g, Mid(l, g[l].nextlist[0]), l, true) && MidOf(g, Mid(l, g[l].nextlist[1]), l, false);
    }
    forall p | p in g[l].prevlist
      ensures PrevName(g, p, l) in h
    {
      PrevNameInside(g, expand, h, p, l);
    }
  }

  lemma MidInside(g: Blocks, expand: bool, h: Blocks, p: Label, first: bool)
    requires Input(g) && IsNondet(g, expand, h) && p in g && Branches(g[p])
    ensures |g[p].nextlist| == 2 && Mid(p, g[p].nextlist[if first then 0 else 1]) in h
  {
    BranchesTwo(g[p]);
    assert MidOf(g, Mid(p, g[p].nextlist[if first then 0 else 1]), p, first);
  }

  lemma PrevNameInside(g: Blocks, expand: bool, h: Blocks, p: Label, l: Label)
    requires Input(g) && Mirrored(g) && IsNondet(g, expand, h) && l in g && p in g[l].prevlist
    ensures PrevName(g, p, l) in h
  {
    PrevNameCases(g, p, l);
    MirroredEdge(g, p, l);
    if Branches(g[p]) {
      BranchesTwo(g[p]);
      MidInside(g, expand, h, p, l == g[p].nextlist[0]);
    }
  }

  lemma NondetClosed(g: Blocks, expand: bool, h: Blocks)
    requires Input(g) && Mirrored(g) && IsNondet(g, expand, h)
    ensures Closed(h)
  {
    forall x | x in h
      ensures forall m :: m in h[x].nextlist ==> m in h
      ensures forall p :: p in h[x].prevlist ==> p in h
    {
      if x in g {
        NamesInside(g, expand, h, x);
      } else {
        var a, first :| MidOf(g, x, a, first);
        BranchesTwo(g[a]);
        assert h[x] == MidBlock(g, a, first);
      }
    }
  }

  lemma PairAgrees(g: Blocks, expand: bool, h: Blocks, x: Label, y: Label)
    requires Input(g) && Mirrored(g) && NoJumpToFallthrough(g) && IsNondet(g, expand, h) && x in h && y in h
    ensures Occurs(h[x].nextlist, y) == Occurs(h[y].prevlist, x)
  {
    if x in g && y in g {
      OldToOld(g, expand, h, x, y);
      BranchesTwo(g[x]);
    } else if x in g {
      var b, second :| MidOf(g, y, b, second);
      OldToMid(g, expand, h, x, y, b, second);
    } else if y in g {
      var a, first :| MidOf(g, x, a, first);
      MidToOld(g, expand, h, x, a, first, y);
    } else {
      var a, first :| MidOf(g, x, a, first);
      var b, second :| MidOf(g, y, b, second);
      MidToMid(g, expand, h, x, a, first, y, b, second);
    }
  }

  /** A block that jumps to its own fallthrough is listed twice before that successor but lists it only once. */
  lemma FallthroughBreaks(g: Blocks, expand: bool, h: Blocks, l: Label)
    requires Input(g) && Mirrored(g) && IsNondet(g, expand, h)
    requires l in g && |g[l].nextlist| == 2 && g[l].nextlist[0] == g[l].nextlist[1]
    ensures Occurs(h[l].nextlist, g[l].nextlist[0]) == 1 && Occurs(h[g[l].nextlist[0]].prevlist, l) == 2
  {
    var m := g[l].nextlist[0];
    OldToOld(g, expand, h, l, m);
    BranchesTwo(g[l]);
    assert g[l].nextlist == [m, m];
  }

  /** The new graph's edges mirror each other exactly when no block jumps to its own fallthrough. */
  lemma MirroredIffNoJumpToFallthrough(g: Blocks, expand: bool, h: Blocks)
    requires Input(g) && Mirrored(g) && IsNondet(g, expand, h)
    ensures Mirrored(h) <==> NoJumpToFallthrough(g)
  {
    NondetClosed(g, expand, h);
    if NoJumpToFallthrough(g) {
      forall x, y | x in h && y in h
        ensures Occurs(h[x].nextlist, y) == Occurs(h[y].prevlist, x)
      {
        PairAgrees(g, expand, h, x, y);
      }
    } else {
      var l :| l in g && |g[l].nextlist| == 2 && g[l].nextlist[0] == g[l].nextlist[1];
      FallthroughBreaks(g, expand, h, l);
      assert l in h && g[l].nextlist[0] in h;
    }
  }

  /* ----- what a jump to its own fallthrough does to the schedule ----- */

  /** How many edges lead from the listed blocks into m: what the worklist has counted after visiting them. */
  function Counted(h: Blocks, order: seq<Label>, m: Label): nat {
    if order == [] then 0
    else (if order[0] in h then Occurs(h[order[0]].nextlist, m) else 0) + Counted(h, order[1..], m)
  }

  /** How many entries of the list are among the labels. */
  function Listed(order: seq<Label>, s: seq<Label>): nat {
    if order == [] then 0 else Occurs(s, order[0]) + Listed(order[1..], s)
  }

  /** No block has more edges into an old one than are entered there. */
  lemma NoMoreEdges(g: Blocks, expand: bool, h: Blocks, x: Label, m: Label)
    requires Input(g) && Mirrored(g) && IsNondet(g, expand, h) && x in h && m in g
    ensures Occurs(h[x].nextlist, m) <= Occurs(h[m].prevlist, x)
  {
    if x in g {
      OldToOld(g, expand, h, x, m);
      BranchesTwo(g[x]);
      var n := g[x].nextlist;
      if |n| == 2 {
        assert n == [n[0], n[1]];
        TwoOccur(n[0], n[1], m);
      }
    } else {
      var a, first :| MidOf(g, x, a, first);
      MidToOld(g, expand, h, x, a, first, m);
    }
  }

  lemma {:induction false} CountedAtMost(h: Blocks, order: seq<Label>, m: Label, prevs: seq<Label>, l: Label)
    requires forall x :: x in h ==> Occurs(h[x].nextlist, m) <= Occurs(prevs, x)
    requires l in h ==> Occurs(h[l].nextlist, m) < Occurs(prevs, l)
    ensures Counted(h, order, m) <= Listed(order, prevs)
    ensures l in order && l in h ==> Counted(h, order, m) < Listed(order, prevs)
  {
    if order == [] {
    } else {
      CountedAtMost(h, order[1..], m, prevs, l);
      assert order == [order[0]] + order[1..];
    }
  }

  lemma {:induction false} RemoveAllOf(s: seq<Label>, x: Label) returns (r: seq<Label>)
    ensures |r| + Occurs(s, x) == |s| && x !in r && forall y :: y != x ==> Occurs(r, y) == Occurs(s, y)
    decreases s
  {
    if s == [] {
      r := [];
    } else {
      var rest := RemoveAllOf(s[1..], x);
      r := if s[0] == x then rest else [s[0]] + rest;
      forall y
        ensures Occurs(s, y) == (if s[0] == y then 1 else 0) + Occurs(s[1..], y)
      {
        OccursCons(s, y);
      }
    }
  }

  lemma {:induction false} ListedSame(order: seq<Label>, s: seq<Label>, r: seq<Label>)
    requires forall y :: y in order ==> Occurs(r, y) == Occurs(s, y)
    ensures Listed(order, r) == Listed(order, s)
  {
    if order == [] {
    } else {
      assert order == [order[0]] + order[1..];
      ListedSame(order[1..], s, r);
    }
  }

  /** Different labels have no more entries together than there are. */
  lemma {:induction false} ListedAtMost(order: seq<Label>, s: seq<Label>)
    requires Distinct(order)
    ensures Listed(order, s) <= |s|
  {
    if order == [] {
    } else {
      var r := RemoveAllOf(s, order[0]);
      ListedSame(order[1..], s, r);
      ListedAtMost(order[1..], r);
    }
  }

  /**
    A block that some block jumps and falls to is never counted full, whichever
    blocks have been visited: the worklist never comes to it.
   */
  lemma FallthroughNeverFull(g: Blocks, expand: bool, h: Blocks, l: Label, order: seq<Label>)
    requires Input(g) && Mirrored(g) && IsNondet(g, expand, h)
    requires l in g && |g[l].nextlist| == 2 && g[l].nextlist[0] == g[l].nextlist[1] && Distinct(order)
    ensures var m := g[l].nextlist[0]; m in h && Counted(h, order, m) < |h[m].prevlist|
  {
    var m := g[l].nextlist[0];
    FallthroughBreaks(g, expand, h, l);
    forall x | x in h
      ensures Occurs(h[x].nextlist, m) <= Occurs(h[m].prevlist, x)
    {
      NoMoreEdges(g, expand, h, x, m);
    }
    CountedAtMost(h, order, m, h[m].prevlist, l);
    if l in order {
      ListedAtMost(order, h[m].prevlist);
    } else {
      var r := RemoveAllOf(h[m].prevlist, l);
      ListedSame(order, h[m].prevlist, r);
      ListedAtMost(order, r);
    }
  }
}
