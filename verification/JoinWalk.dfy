/**
  The walk at the heart of the stack domain's in-place join: what one step
  does to the array, what every step keeps, and what is left at the end.
 */
module JoinWalk {
  import opened Rcp
  import opened Cells

  /** What cell c says about its bytes lo up to hi. */
  function PartOf(c: Cell, lo: int, hi: int): Rcp {
    if lo == c.offset && hi == c.End() then c.dom else Partial(c.dom)
  }

  predicate Overlap(a: Cell, b: Cell) {
    a.offset < b.End() && b.offset < a.End()
  }

  /** The cell that two overlapping cells have in common. */
  function MeetCell(a: Cell, b: Cell): Cell {
    var lo, hi := Max(a.offset, b.offset), Min(a.End(), b.End());
    Cell(lo, hi - lo, Join(PartOf(a, lo, hi), PartOf(b, lo, hi)))
  }

  predicate IsMeet(a: Cell, b: Cell, x: Cell) {
    x == MeetCell(a, b) || x == MeetCell(b, a)
  }

  /** R consists of exactly the common parts of overlapping cells of A and B. */
  ghost predicate Joined(A: seq<Cell>, B: seq<Cell>, R: seq<Cell>) {
    && Shaped(R)
    && (forall x :: x in R ==> exists a, b :: a in A && b in B && Overlap(a, b) && IsMeet(a, b, x))
    && (forall a, b :: a in A && b in B && Overlap(a, b) ==> MeetCell(a, b) in R || MeetCell(b, a) in R)
  }

  /* ----- the state of the walk ----- */

  /** No byte belongs to three cells: a third cell starts after one of the first two ended. */
  predicate NoTriple(s: seq<Cell>) {
    forall p, q, r :: 0 <= p < q < r < |s| ==> s[r].offset >= Min(s[p].End(), s[q].End())
  }

  /** The sorted array with the extra dead slot at its end. */
  predicate Input(s: seq<Cell>) {
    && |s| >= 1 && Dead(s[|s| - 1])
    && (forall i :: 0 <= i < |s| - 1 ==> Proper(s[i]))
    && SortedByOffset(s) && NoTriple(s)
  }

  /** c is cell o or what is left of its upper end. */
  predicate Remainder(o: Cell, c: Cell) {
    && c.End() == o.End() && o.offset <= c.offset <= o.End()
    && c.dom == if c.offset == o.offset then o.dom else Partial(o.dom)
  }

  /**
    At slot `it`: the slots to the right are untouched, the current slot is a
    remainder of input cell g, every other visited cell ended before it, and
    it never starts after the next cell.
   */
  ghost predicate Position(s: seq<Cell>, cells: seq<Cell>, it: nat, g: nat) {
    && |cells| == |s| && g <= it < |s|
    && (forall k :: it < k < |s| ==> cells[k] == s[k])
    && Remainder(s[g], cells[it])
    && (forall p :: 0 <= p <= it && p != g ==> s[p].End() <= cells[it].offset)
    && (it + 1 < |s| ==> cells[it].offset <= s[it + 1].offset)
  }

  ghost predicate FromPair(s: seq<Cell>, it: nat, c: Cell)
    requires it < |s|
  {
    exists p, q :: 0 <= p < q <= it && Overlap(s[p], s[q]) && c == MeetCell(s[p], s[q])
  }

  ghost predicate Finished(cells: seq<Cell>, it: nat, c: Cell)
    requires it < |cells|
  {
    exists k :: 0 <= k < it && cells[k] == c
  }

  /** The slots behind `it` are dead or hold an overlap of two visited cells... */
  ghost predicate OutputSound(s: seq<Cell>, cells: seq<Cell>, it: nat)
    requires it < |s| == |cells|
  {
    forall k :: 0 <= k < it ==> Dead(cells[k]) || FromPair(s, it, cells[k])
  }

  /** ... every overlap of two visited cells is there... */
  ghost predicate OutputComplete(s: seq<Cell>, cells: seq<Cell>, it: nat)
    requires it < |s| == |cells|
  {
    forall p, q :: 0 <= p < q <= it && Overlap(s[p], s[q]) ==> Finished(cells, it, MeetCell(s[p], s[q]))
  }

  /** ... and they are in order and end before the current slot starts. */
  predicate OutputOrdered(cells: seq<Cell>, it: nat)
    requires it < |cells|
  {
    && (forall k, l :: 0 <= k < l < it && !Dead(cells[k]) && !Dead(cells[l]) ==> cells[k].End() <= cells[l].offset)
    && (forall k :: 0 <= k < it ==> Dead(cells[k]) || (Proper(cells[k]) && cells[k].End() <= cells[it].offset))
  }

  ghost predicate Output(s: seq<Cell>, cells: seq<Cell>, it: nat) {
    it < |s| == |cells| && OutputSound(s, cells, it) && OutputComplete(s, cells, it) && OutputOrdered(cells, it)
  }

  predicate Skips(s: seq<Cell>, cells: seq<Cell>, it: nat)
    requires it + 1 < |s| == |cells|
  {
    cells[it].End() <= cells[it + 1].offset || cells[it].width == 0
  }

  lemma FinishedKeeps(cells: seq<Cell>, cells': seq<Cell>, it: nat, c: Cell)
    requires it + 1 < |cells| == |cells'| && cells'[..it] == cells[..it] && Finished(cells, it, c)
    ensures Finished(cells', it + 1, c)
  {}

  /** The output grows by one slot: the new overlaps must be the one put there. */
  lemma OutputGrows(s: seq<Cell>, cells: seq<Cell>, it: nat, cells': seq<Cell>)
    requires it + 1 < |s| == |cells| == |cells'| && cells'[..it] == cells[..it]
    requires OutputSound(s, cells, it) && OutputComplete(s, cells, it)
    requires Dead(cells'[it]) || FromPair(s, it + 1, cells'[it])
    requires forall p :: 0 <= p <= it && Overlap(s[p], s[it + 1]) ==> cells'[it] == MeetCell(s[p], s[it + 1])
    ensures OutputSound(s, cells', it + 1) && OutputComplete(s, cells', it + 1)
  {
    forall p, q | 0 <= p < q <= it + 1 && Overlap(s[p], s[q])
      ensures Finished(cells', it + 1, MeetCell(s[p], s[q]))
    {
      if q <= it {
        FinishedKeeps(cells, cells', it, MeetCell(s[p], s[q]));
      }
    }
    forall k | 0 <= k < it + 1
      ensures Dead(cells'[k]) || FromPair(s, it + 1, cells'[k])
    {
      if k < it {
        assert cells'[k] == cells'[..it][k] == cells[k];
        if FromPair(s, it, cells[k]) {
          var p, q :| 0 <= p < q <= it && Overlap(s[p], s[q]) && cells[k] == MeetCell(s[p], s[q]);
        }
      }
    }
  }

  /** Giving up a slot whose cell ended before the next one starts loses no overlap. */
  lemma SkipStep(s: seq<Cell>, cells: seq<Cell>, it: nat, g: nat, dead: Cell)
    requires Input(s) && Position(s, cells, it, g) && Output(s, cells, it)
    requires it + 1 < |s| && Skips(s, cells, it) && Dead(dead)
    ensures Position(s, cells[it := dead], it + 1, it + 1)
    ensures Output(s, cells[it := dead], it + 1)
  {
    var cells' := cells[it := dead];
    assert cells'[..it] == cells[..it];
    OutputGrows(s, cells, it, cells');
    SkipOrder(cells, it, cells');
  }

  lemma SkipOrder(cells: seq<Cell>, it: nat, cells': seq<Cell>)
    requires it + 1 < |cells| == |cells'| && cells'[..it] == cells[..it] && OutputOrdered(cells, it)
    requires Dead(cells'[it]) && cells[it].offset <= cells'[it + 1].offset
    ensures OutputOrdered(cells', it + 1)
  {}

  /** What the walk writes back: the joined middle, and the remainder for the next slot. */
  function MidAndRight(c: Cell, b: Cell): (Cell, Cell)
    requires c.offset <= b.offset <= c.End() && b.width >= 0
  {
    var (left, mid1, mid2, right) := SplitPair(c, b);
    (Cell(mid1.offset, mid1.width, Join(mid1.dom, mid2.dom)), right)
  }

  /** The joined middle is the overlap of the two input cells, and the remainder belongs to the one that ends last. */
  lemma SplitMiddle(o: Cell, c: Cell, b: Cell)
    requires Remainder(o, c) && c.offset <= b.offset < c.End() && b.width > 0
    ensures MidAndRight(c, b).0 == MeetCell(o, b)
    ensures Remainder(if b.End() < o.End() then o else b, MidAndRight(c, b).1)
    ensures MidAndRight(c, b).1.offset == MeetCell(o, b).End() == Min(o.End(), b.End()) > b.offset == MeetCell(o, b).offset
  {
  }

  lemma SplitOrder(cells: seq<Cell>, it: nat, cells': seq<Cell>)
    requires it + 1 < |cells| == |cells'| && cells'[..it] == cells[..it] && OutputOrdered(cells, it)
    requires Proper(cells'[it]) && cells[it].offset <= cells'[it].offset && cells'[it].End() <= cells'[it + 1].offset
    ensures OutputOrdered(cells', it + 1)
  {}

  lemma SplitReady(s: seq<Cell>, cells: seq<Cell>, it: nat, g: nat)
    requires Input(s) && Position(s, cells, it, g) && it + 1 < |s| && !Skips(s, cells, it)
    ensures it + 2 < |s| && cells[it + 1] == s[it + 1] && Proper(s[it + 1])
    ensures cells[it].offset <= s[it + 1].offset < cells[it].End()
  {}

  /** Splitting the current cell against the next one records their overlap and keeps the remainder. */
  lemma SplitStep(s: seq<Cell>, cells: seq<Cell>, it: nat, g: nat, cells': seq<Cell>) returns (g': nat)
    requires Input(s) && Position(s, cells, it, g) && Output(s, cells, it)
    requires it + 2 < |s| && !Skips(s, cells, it) && Proper(s[it + 1])
    requires cells[it].offset <= s[it + 1].offset < cells[it].End()
    requires cells' == cells[it := MidAndRight(cells[it], s[it + 1]).0][it + 1 := MidAndRight(cells[it], s[it + 1]).1]
    ensures Position(s, cells', it + 1, g') && Output(s, cells', it + 1) && !Dead(cells'[it])
  {
    var b := s[it + 1];
    SplitMiddle(s[g], cells[it], b);
    g' := if b.End() < s[g].End() then g else it + 1;
    assert cells'[..it] == cells[..it];
    SplitPosition(s, cells, it, g, cells', g');
    SplitGrows(s, cells, it, g, cells');
  }

  lemma SplitGrows(s: seq<Cell>, cells: seq<Cell>, it: nat, g: nat, cells': seq<Cell>)
    requires Input(s) && Position(s, cells, it, g) && Output(s, cells, it)
    requires it + 2 < |s| && !Skips(s, cells, it) && |cells'| == |s| && cells'[..it] == cells[..it]
    requires cells'[it] == MeetCell(s[g], s[it + 1])
    requires cells'[it].offset == s[it + 1].offset < cells'[it].End() == cells'[it + 1].offset <= s[it + 1].End()
    ensures Output(s, cells', it + 1) && !Dead(cells'[it])
  {
    SplitOrder(cells, it, cells');
    assert Overlap(s[g], s[it + 1]);
    assert FromPair(s, it + 1, cells'[it]);
    OutputGrows(s, cells, it, cells');
  }

  lemma SplitPosition(s: seq<Cell>, cells: seq<Cell>, it: nat, g: nat, cells': seq<Cell>, g': nat)
    requires Input(s) && Position(s, cells, it, g)
    requires it + 2 < |s| && !Skips(s, cells, it)
    requires |cells'| == |s| && forall k :: it + 1 < k < |s| ==> cells'[k] == cells[k]
    requires g' == if s[it + 1].End() < s[g].End() then g else it + 1
    requires Remainder(s[g'], cells'[it + 1])
    requires cells'[it + 1].offset == Min(s[g].End(), s[it + 1].End()) > s[it + 1].offset
    ensures Position(s, cells', it + 1, g')
  {}

  /** The loop invariant of the walk; toRemove counts the dead slots, the one at the end included. */
  ghost predicate WalkState(s: seq<Cell>, cells: seq<Cell>, it: nat, g: nat, toRemove: int) {
    && it < |s| == |cells| && Position(s, cells, it, g) && Output(s, cells, it)
    && toRemove == 1 + DeadCount(cells[..it])
  }

  lemma WalkStarts(s: seq<Cell>)
    requires Input(s)
    ensures WalkState(s, s, 0, 0, 1)
  {}

  lemma DeadCountGrows(cells: seq<Cell>, it: nat, cells': seq<Cell>)
    requires it < |cells| == |cells'| && cells'[..it] == cells[..it]
    ensures DeadCount(cells'[..it + 1]) == DeadCount(cells[..it]) + if Dead(cells'[it]) then 1 else 0
  {
    assert cells'[..it + 1] == cells'[..it] + [cells'[it]];
    DeadCountConcat(cells'[..it], [cells'[it]]);
  }

  lemma WalkSkips(s: seq<Cell>, cells: seq<Cell>, it: nat, g: nat, toRemove: int, dead: Cell)
    requires Input(s) && WalkState(s, cells, it, g, toRemove)
    requires it + 1 < |s| && Skips(s, cells, it) && Dead(dead)
    ensures WalkState(s, cells[it := dead], it + 1, it + 1, toRemove + 1)
  {
    SkipStep(s, cells, it, g, dead);
    assert cells[it := dead][..it] == cells[..it];
    DeadCountGrows(cells, it, cells[it := dead]);
  }

  lemma WalkSplits(s: seq<Cell>, cells: seq<Cell>, it: nat, g: nat, toRemove: int, cells': seq<Cell>) returns (g': nat)
    requires Input(s) && WalkState(s, cells, it, g, toRemove)
    requires it + 1 < |s| && !Skips(s, cells, it)
    requires cells[it].offset <= cells[it + 1].offset <= cells[it].End() && cells[it + 1].width >= 0
    requires cells' == cells[it := MidAndRight(cells[it], cells[it + 1]).0][it + 1 := MidAndRight(cells[it], cells[it + 1]).1]
    ensures WalkState(s, cells', it + 1, g', toRemove)
  {
    SplitReady(s, cells, it, g);
    g' := SplitStep(s, cells, it, g, cells');
    assert cells'[..it] == cells[..it];
    DeadCountGrows(cells, it, cells');
  }

  lemma WalkEnds(s: seq<Cell>, cells: seq<Cell>, it: nat, g: nat, toRemove: int)
    requires Input(s) && WalkState(s, cells, it, g, toRemove) && it == |s| - 1
    ensures Dead(cells[it]) && toRemove == DeadCount(cells)
  {
    assert cells == cells[..it + 1];
    DeadCountGrows(cells, it, cells);
  }

  /* ----- the end of the walk ----- */

  ghost predicate AllOverlaps(s: seq<Cell>, R: seq<Cell>)
    requires |s| >= 1
  {
    forall x :: (x in R) == FromPair(s, |s| - 1, x)
  }

  /** In the sorted array the dead slots are the last ones, as many as were given up. */
  lemma DeadAtEnd(cells: seq<Cell>, sorted: seq<Cell>)
    requires multiset(sorted) == multiset(cells) && SortedByOffset(sorted) && |cells| > 0
    requires forall i :: 0 <= i < |cells| ==> Dead(cells[i]) || Proper(cells[i])
    ensures DeadCount(cells) <= |sorted|
    ensures forall k :: 0 <= k < |sorted| - DeadCount(cells) ==> Proper(sorted[k])
    ensures forall x :: x in sorted[..|sorted| - DeadCount(cells)] <==> x in cells && !Dead(x)
  {
    assert |sorted| == |multiset(sorted)| == |multiset(cells)| == |cells|;
    forall i | 0 <= i < |sorted|
      ensures Dead(sorted[i]) || Proper(sorted[i])
    {
      SameMembers(sorted, cells, sorted[i]);
    }
    DeadCountPermutes(cells, sorted);
    var d := DeadCount(cells);
    DeadSuffix(sorted, 0);
    forall k | 0 <= k < |sorted|
      ensures Dead(sorted[k]) <==> k >= |sorted| - d
    {
      DeadSuffix(sorted, k);
    }
    var r := sorted[..|sorted| - d];
    forall x
      ensures x in r <==> x in cells && !Dead(x)
    {
      SameMembers(sorted, cells, x);
      if x in r { var k := OnePosition(r, x); assert sorted[k] == x; }
      if x in cells && !Dead(x) { var k := OnePosition(sorted, x); assert r[k] == x; }
    }
  }

  lemma OutputIsOverlaps(s: seq<Cell>, cells: seq<Cell>, r: seq<Cell>)
    requires |s| == |cells| >= 1 && Dead(cells[|s| - 1])
    requires OutputSound(s, cells, |s| - 1) && OutputComplete(s, cells, |s| - 1)
    requires forall x :: x in r <==> x in cells && !Dead(x)
    requires (forall i :: 0 <= i < |s| - 1 ==> Proper(s[i])) && Dead(s[|s| - 1])
    ensures AllOverlaps(s, r)
  {}

  /** Sorting and dropping as many slots as were given up leaves exactly the overlaps. */
  lemma Compaction(s: seq<Cell>, cells: seq<Cell>, sorted: seq<Cell>)
    requires Input(s) && Output(s, cells, |s| - 1) && Dead(cells[|s| - 1])
    requires multiset(sorted) == multiset(cells) && SortedByOffset(sorted)
    ensures DeadCount(cells) <= |sorted|
    ensures Shaped(sorted[..|sorted| - DeadCount(cells)])
    ensures AllOverlaps(s, sorted[..|sorted| - DeadCount(cells)])
  {
    var n := |s| - 1;
    DeadAtEnd(cells, sorted);
    var r := sorted[..|sorted| - DeadCount(cells)];
    OutputIsOverlaps(s, cells, r);
    CompactionShape(s, cells, sorted, r);
  }

  lemma CompactionShape(s: seq<Cell>, cells: seq<Cell>, sorted: seq<Cell>, r: seq<Cell>)
    requires |s| >= 1 && Output(s, cells, |s| - 1) && Dead(cells[|s| - 1])
    requires multiset(sorted) == multiset(cells) && SortedByOffset(sorted)
    requires |r| <= |sorted| && r == sorted[..|r|]
    requires forall i :: 0 <= i < |r| ==> Proper(r[i])
    ensures Shaped(r)
  {
    forall i, j | 0 <= i < j < |cells|
      ensures Dead(cells[i]) || Dead(cells[j]) || cells[i].End() <= cells[j].offset
    {}
    forall i, j | 0 <= i < j < |r|
      ensures Apart(r[i], r[j])
    {
      assert r[i] == sorted[i] && r[j] == sorted[j];
      SameMembers(sorted, cells, r[i]);
      SameMembers(sorted, cells, r[j]);
      if r[i] == r[j] {
        TwiceInside(sorted, i, j);
        var p, q := TwoPositions(cells, r[i]);
        assert false;
      }
      var p := OnePosition(cells, r[i]);
      var q := OnePosition(cells, r[j]);
    }
    SortedApartIsShaped(r);
  }

  /* ----- two shaped lists merged ----- */

  lemma {:induction false} ThriceInside(s: seq<Cell>, p: nat, q: nat, r: nat)
    requires p < q < r < |s| && s[p] == s[q] == s[r]
    ensures multiset(s)[s[p]] >= 3
  {
    TwiceInside(s[..r], p, q);
    assert s == s[..r] + s[r..];
    assert s[r] in s[r..];
    assert multiset(s) == multiset(s[..r]) + multiset(s[r..]);
    assert s[r] in multiset(s[r..]);
  }

  lemma ShapedApart(s: seq<Cell>, x: Cell, y: Cell)
    requires Shaped(s) && x in s && y in s && x != y
    ensures Apart(x, y)
  {}

  lemma ShapedOnce(s: seq<Cell>, x: Cell)
    requires Shaped(s)
    ensures multiset(s)[x] <= 1
  {
    NoCopies(s, x);
  }

  ghost predicate Merged(A: seq<Cell>, B: seq<Cell>, s: seq<Cell>) {
    Shaped(A) && Shaped(B) && multiset(s) == multiset(A) + multiset(B)
  }

  lemma MergedMember(A: seq<Cell>, B: seq<Cell>, s: seq<Cell>, x: Cell)
    requires Merged(A, B, s)
    ensures x in s <==> x in A || x in B
    ensures multiset(s)[x] >= 2 ==> x in A && x in B
    ensures multiset(s)[x] <= 2
  {
    ShapedOnce(A, x);
    ShapedOnce(B, x);
    assert x in s <==> x in multiset(s);
    assert x in A <==> x in multiset(A);
    assert x in B <==> x in multiset(B);
  }

  /** Two different slots that overlap hold a cell of A and a cell of B. */
  lemma SlotsCross(A: seq<Cell>, B: seq<Cell>, s: seq<Cell>, p: nat, q: nat)
    requires Merged(A, B, s) && p < q < |s| && !Apart(s[p], s[q])
    ensures (s[p] in A && s[q] in B) || (s[p] in B && s[q] in A)
  {
    MergedMember(A, B, s, s[p]);
    MergedMember(A, B, s, s[q]);
    if s[p] == s[q] {
      TwiceInside(s, p, q);
    } else {
      if s[p] in A && s[q] in A { ShapedApart(A, s[p], s[q]); }
      if s[p] in B && s[q] in B { ShapedApart(B, s[p], s[q]); }
    }
  }

  lemma TwoOfThreeApart(A: seq<Cell>, B: seq<Cell>, s: seq<Cell>, p: nat, q: nat, r: nat)
    requires Merged(A, B, s) && p < q < r < |s|
    ensures Apart(s[p], s[q]) || Apart(s[p], s[r]) || Apart(s[q], s[r])
  {
    if !Apart(s[p], s[q]) && !Apart(s[p], s[r]) && !Apart(s[q], s[r]) {
      MergedMember(A, B, s, s[p]);
      MergedMember(A, B, s, s[q]);
      MergedMember(A, B, s, s[r]);
      SameUnlessApart(A, B, s, p, q);
      SameUnlessApart(A, B, s, p, r);
      SameUnlessApart(A, B, s, q, r);
      if s[p] == s[q] == s[r] { ThriceInside(s, p, q, r); }
      assert false;
    }
  }

  lemma SameUnlessApart(A: seq<Cell>, B: seq<Cell>, s: seq<Cell>, p: nat, q: nat)
    requires Merged(A, B, s) && p < q < |s| && !Apart(s[p], s[q])
    ensures s[p] in A && s[q] in A ==> s[p] == s[q] && s[p] in B
    ensures s[p] in B && s[q] in B ==> s[p] == s[q] && s[p] in A
  {
    MergedMember(A, B, s, s[p]);
    if s[p] == s[q] {
      TwiceInside(s, p, q);
    } else {
      if s[p] in A && s[q] in A { ShapedApart(A, s[p], s[q]); }
      if s[p] in B && s[q] in B { ShapedApart(B, s[p], s[q]); }
    }
  }

  /** The sorted concatenation of two shaped lists, with the dead slot appended, is what the walk expects. */
  lemma MergedInput(A: seq<Cell>, B: seq<Cell>, s: seq<Cell>, dead: Cell)
    requires Merged(A, B, s) && SortedByOffset(s) && Dead(dead)
    ensures Input(s + [dead])
  {
    var t := s + [dead];
    forall i | 0 <= i < |s|
      ensures Proper(t[i]) && t[i] == s[i]
    {
      MergedMember(A, B, s, s[i]);
    }
    forall p, q, r | 0 <= p < q < r < |t|
      ensures t[r].offset >= Min(t[p].End(), t[q].End())
    {
      if r < |s| {
        TwoOfThreeApart(A, B, s, p, q, r);
        assert s[p].offset <= s[q].offset <= s[r].offset;
      }
    }
  }

  /** The overlaps of slots are the overlaps of cells of A with cells of B. */
  lemma PairsAreJoined(A: seq<Cell>, B: seq<Cell>, s: seq<Cell>, dead: Cell, R: seq<Cell>)
    requires Merged(A, B, s) && Dead(dead) && Shaped(R)
    requires AllOverlaps(s + [dead], R)
    ensures Joined(A, B, R)
  {
    var t := s + [dead];
    forall x | x in R
      ensures exists a, b :: a in A && b in B && Overlap(a, b) && IsMeet(a, b, x)
    {
      assert FromPair(t, |s|, x);
      var p, q :| 0 <= p < q <= |s| && Overlap(t[p], t[q]) && x == MeetCell(t[p], t[q]);
      MergedMember(A, B, s, s[p]);
      assert t[p] == s[p] && q < |s|;
      SlotsCross(A, B, s, p, q);
      if s[p] in A && s[q] in B {
        assert IsMeet(s[p], s[q], x);
      } else {
        assert IsMeet(s[q], s[p], x);
      }
    }
    forall a, b | a in A && b in B && Overlap(a, b)
      ensures MeetCell(a, b) in R || MeetCell(b, a) in R
    {
      var p, q := PairOfSlots(A, B, s, a, b);
      assert t[p] == s[p] && t[q] == s[q];
      assert FromPair(t, |s|, MeetCell(s[p], s[q]));
    }
  }

  lemma PairOfSlots(A: seq<Cell>, B: seq<Cell>, s: seq<Cell>, a: Cell, b: Cell) returns (p: nat, q: nat)
    requires Merged(A, B, s) && a in A && b in B
    ensures p < q < |s| && ((s[p] == a && s[q] == b) || (s[p] == b && s[q] == a))
  {
    MergedMember(A, B, s, a);
    MergedMember(A, B, s, b);
    if a == b {
      assert a in multiset(A) && a in multiset(B);
      p, q := TwoPositions(s, a);
    } else {
      p := OnePosition(s, a);
      q := OnePosition(s, b);
      if q < p { p, q := q, p; }
    }
  }

  /** The walked array, sorted and shortened by the counter, is the join of the two lists. */
  lemma WalkJoins(A: seq<Cell>, B: seq<Cell>, merged: seq<Cell>, dead: Cell, s: seq<Cell>, walked: seq<Cell>, g: nat, toRemove: int,
                  sorted: seq<Cell>)
    requires Merged(A, B, merged) && SortedByOffset(merged) && Dead(dead) && s == merged + [dead]
    requires WalkState(s, walked, |s| - 1, g, toRemove)
    requires multiset(sorted) == multiset(walked) && SortedByOffset(sorted)
    ensures 0 <= toRemove <= |sorted| && Joined(A, B, sorted[..|sorted| - toRemove])
  {
    MergedInput(A, B, merged, dead);
    WalkEnds(s, walked, |s| - 1, g, toRemove);
    Compaction(s, walked, sorted);
    PairsAreJoined(A, B, merged, dead, sorted[..|sorted| - toRemove]);
  }
}
