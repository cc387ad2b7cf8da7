/**
  The cells of the stack domain: splitting, ordering, and the list facts that
  the in-place store and join rely on.
 */
module Cells {
  import opened Syntax
  import opened Rcp

  const MAX_OFFSET: int := TWO63 - 1

  datatype Cell = Cell(offset: int, width: int, dom: Rcp) {
    function End(): int { offset + width }

    predicate Overlapping(o: int, w: int) {
      (offset <= o && offset + width > o) || (o <= offset && o + w > offset)
    }

    predicate Covers(k: int) { offset <= k < End() }
  }

  function Max(x: int, y: int): int { if x < y then y else x }

  function Min(x: int, y: int): int { if y < x then y else x }

  function FromRange(start: int, end: int, dom: Rcp): Cell {
    Cell(start, Max(0, end - start), dom)
  }

  /** The source asserts what is required here. */
  function SplitAt(c: Cell, upper: int): (r: (Cell, Cell))
    requires c.offset <= upper <= c.End()
    ensures r.0.width + r.1.width == c.width
  {
    (FromRange(c.offset, upper, if upper >= c.End() then c.dom else Partial(c.dom)),
     FromRange(upper, c.End(), if c.offset >= upper then c.dom else Partial(c.dom)))
  }

  /**
    Splitting two overlapping cells into left, the two middles and right. The
    comparator that should find the lower start compares a cell with itself, so
    the first argument always counts as the lower one.
   */
  function SplitPair(a: Cell, b: Cell): (Cell, Cell, Cell, Cell)
    requires a.offset <= b.offset <= a.End() && b.width >= 0
  {
    var (left, mid1) := SplitAt(a, b.offset);
    if b.End() < a.End() then
      var (mid2, right) := SplitAt(mid1, b.End());
      (left, mid2, b, right)
    else
      var (mid2, right) := SplitAt(b, a.End());
      (left, mid1, mid2, right)
  }

  /* ----- shape ----- */

  predicate Proper(c: Cell) {
    c.width > 0 && c.End() <= MAX_OFFSET
  }

  predicate Apart(a: Cell, b: Cell) {
    a.End() <= b.offset || b.End() <= a.offset
  }

  /** Sorted, pairwise disjoint, every cell of positive width. */
  predicate Shaped(s: seq<Cell>) {
    && (forall i :: 0 <= i < |s| ==> Proper(s[i]))
    && (forall i, j :: 0 <= i < j < |s| ==> s[i].End() <= s[j].offset)
  }

  predicate SortedByOffset(s: seq<Cell>) {
    forall i, j :: 0 <= i < j < |s| ==> s[i].offset <= s[j].offset
  }

  predicate PairwiseApart(s: seq<Cell>) {
    forall i, j :: 0 <= i < j < |s| ==> Apart(s[i], s[j])
  }

  ghost predicate Covered(s: seq<Cell>, k: int) {
    exists c :: c in s && c.Covers(k)
  }

  /** In a shaped list a byte belongs to one cell. */
  lemma OneCover(s: seq<Cell>, c: Cell, c': Cell, k: int)
    requires Shaped(s) && c in s && c' in s && c.Covers(k) && c'.Covers(k)
    ensures c == c'
  {}

  /* ----- sorting (std::sort: the order of cells with equal offsets is not specified) ----- */

  function InsertCell(s: seq<Cell>, c: Cell): seq<Cell> {
    if s == [] then [c]
    else if c.offset <= s[0].offset then [c] + s
    else [s[0]] + InsertCell(s[1..], c)
  }

  lemma {:induction false} InsertCellMembers(s: seq<Cell>, c: Cell)
    ensures multiset(InsertCell(s, c)) == multiset(s) + multiset{c}
  {
    if s == [] || c.offset <= s[0].offset {
    } else {
      assert s == [s[0]] + s[1..];
      InsertCellMembers(s[1..], c);
    }
  }

  lemma {:induction false} InsertCellSorted(s: seq<Cell>, c: Cell)
    requires SortedByOffset(s)
    ensures SortedByOffset(InsertCell(s, c))
  {
    if s == [] || c.offset <= s[0].offset {
    } else {
      InsertCellSorted(s[1..], c);
      InsertCellMembers(s[1..], c);
      var t := InsertCell(s[1..], c);
      forall j | 0 <= j < |t|
        ensures s[0].offset <= t[j].offset
      {
        assert t[j] in multiset(t);
        assert t[j] in s[1..] || t[j] == c;
      }
    }
  }

  method SortCells(s: seq<Cell>) returns (r: seq<Cell>)
    ensures SortedByOffset(r) && multiset(r) == multiset(s)
  {
    r := [];
    for i := 0 to |s|
      invariant SortedByOffset(r) && multiset(r) == multiset(s[..i])
    {
      InsertCellSorted(r, s[i]);
      InsertCellMembers(r, s[i]);
      r := InsertCell(r, s[i]);
      assert s[..i + 1] == s[..i] + [s[i]];
    }
    assert s[..|s|] == s;
  }

  lemma SameMembers(s: seq<Cell>, t: seq<Cell>, x: Cell)
    requires multiset(s) == multiset(t)
    ensures x in s <==> x in t
  {
    assert x in s <==> x in multiset(s);
    assert x in t <==> x in multiset(t);
  }

  lemma {:induction false} OnePosition(s: seq<Cell>, x: Cell) returns (i: nat)
    requires x in s
    ensures i < |s| && s[i] == x
  {
    i :| 0 <= i < |s| && s[i] == x;
  }

  lemma {:induction false} TwoPositions(s: seq<Cell>, x: Cell) returns (i: nat, j: nat)
    requires multiset(s)[x] >= 2
    ensures i < j < |s| && s[i] == s[j] == x
  {
    assert s == [s[0]] + s[1..];
    if s[0] == x {
      assert x in multiset(s[1..]);
      var k := OnePosition(s[1..], x);
      i, j := 0, k + 1;
    } else {
      i, j := TwoPositions(s[1..], x);
      i, j := i + 1, j + 1;
    }
  }

  lemma TwiceInside(s: seq<Cell>, i: nat, j: nat)
    requires i < j < |s| && s[i] == s[j]
    ensures multiset(s)[s[i]] >= 2
  {
    assert s == s[..j] + s[j..];
    assert s[i] in s[..j] && s[i] in s[j..];
    assert multiset(s) == multiset(s[..j]) + multiset(s[j..]);
    assert s[i] in multiset(s[..j]) && s[i] in multiset(s[j..]);
  }

  lemma NoCopies(s: seq<Cell>, x: Cell)
    requires PairwiseApart(s) && forall i :: 0 <= i < |s| ==> s[i].width > 0
    ensures multiset(s)[x] <= 1
  {
    if multiset(s)[x] >= 2 {
      var p, q := TwoPositions(s, x);
      assert false;
    }
  }

  /** Rearranging a list keeps its cells pairwise apart. */
  lemma ApartAfterSort(s: seq<Cell>, t: seq<Cell>)
    requires multiset(s) == multiset(t) && PairwiseApart(s)
    requires forall i :: 0 <= i < |s| ==> s[i].width > 0
    ensures PairwiseApart(t)
  {
    forall i, j | 0 <= i < j < |t|
      ensures Apart(t[i], t[j])
    {
      NoCopies(s, t[i]);
      if t[i] == t[j] {
        TwiceInside(t, i, j);
        assert false;
      }
      SameMembers(s, t, t[i]);
      SameMembers(s, t, t[j]);
      var p := OnePosition(s, t[i]);
      var q := OnePosition(s, t[j]);
      assert Apart(s[p], s[q]) || Apart(s[q], s[p]);
    }
  }

  lemma SortedApartIsShaped(s: seq<Cell>)
    requires SortedByOffset(s) && PairwiseApart(s) && forall i :: 0 <= i < |s| ==> Proper(s[i])
    ensures Shaped(s)
  {}

  /* ----- erasing ----- */

  /** erase(remove(begin, end, p), end): all copies of p go. */
  function RemoveAll(s: seq<Cell>, p: Cell): seq<Cell> {
    if s == [] then [] else (if s[0] == p then [] else [s[0]]) + RemoveAll(s[1..], p)
  }

  lemma {:induction false} RemoveAllMembers(s: seq<Cell>, p: Cell, x: Cell)
    ensures x in RemoveAll(s, p) <==> x in s && x != p
  {
    if s == [] {
    } else {
      assert s == [s[0]] + s[1..];
      RemoveAllMembers(s[1..], p, x);
    }
  }

  lemma {:induction false} RemoveAllShaped(s: seq<Cell>, p: Cell)
    requires Shaped(s)
    ensures Shaped(RemoveAll(s, p))
  {
    if s == [] {
    } else {
      RemoveAllShaped(s[1..], p);
      forall x | x in RemoveAll(s[1..], p)
        ensures s[0].End() <= x.offset
      {
        RemoveAllMembers(s[1..], p, x);
      }
    }
  }

  /* ----- dead slots ----- */

  /** The mark the join leaves in a slot it gives up. */
  predicate Dead(c: Cell) {
    c.offset == MAX_OFFSET && c.width == 0
  }

  function DeadCount(s: seq<Cell>): nat {
    if s == [] then 0 else (if Dead(s[0]) then 1 else 0) + DeadCount(s[1..])
  }

  lemma {:induction false} DeadCountConcat(s: seq<Cell>, t: seq<Cell>)
    ensures DeadCount(s + t) == DeadCount(s) + DeadCount(t)
  {
    if s == [] {
      assert s + t == t;
    } else {
      assert (s + t)[1..] == s[1..] + t;
      DeadCountConcat(s[1..], t);
    }
  }

  lemma {:induction false} DeadCountPermutes(s: seq<Cell>, t: seq<Cell>)
    requires multiset(s) == multiset(t)
    ensures DeadCount(s) == DeadCount(t)
  {
    if s == [] {
      assert |multiset(t)| == 0;
    } else {
      assert s[0] in multiset(s);
      var i := OnePosition(t, s[0]);
      var rest := t[..i] + t[i + 1..];
      assert t == t[..i] + ([t[i]] + t[i + 1..]);
      assert s == [s[0]] + s[1..];
      assert multiset(t) == multiset(t[..i]) + (multiset{t[i]} + multiset(t[i + 1..]));
      assert multiset(s) == multiset{s[0]} + multiset(s[1..]);
      assert multiset(rest) == multiset(t[..i]) + multiset(t[i + 1..]);
      assert multiset(rest) == multiset(t) - multiset{t[i]};
      assert multiset(s[1..]) == multiset(s) - multiset{s[0]};
      DeadCountPermutes(s[1..], rest);
      DeadCountConcat(t[..i], [t[i]] + t[i + 1..]);
      DeadCountConcat(t[..i], t[i + 1..]);
    }
  }

  lemma {:induction false} DeadSuffix(s: seq<Cell>, k: nat)
    requires SortedByOffset(s) && k < |s|
    requires forall i :: 0 <= i < |s| ==> Dead(s[i]) || Proper(s[i])
    ensures DeadCount(s) <= |s| && (Dead(s[k]) <==> k >= |s| - DeadCount(s))
  {
    if |s| == 1 {
    } else if Dead(s[0]) {
      assert s[1].offset >= MAX_OFFSET;
      DeadSuffix(s[1..], if k > 0 then k - 1 else 0);
      DeadSuffix(s[1..], 0);
    } else if k > 0 {
      DeadSuffix(s[1..], k - 1);
    } else {
      DeadSuffix(s[1..], 0);
    }
  }
}
