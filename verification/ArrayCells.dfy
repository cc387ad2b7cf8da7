/**
  Array cells and the sorted bindings from offsets to the cells that start
  there.
 */
module ArrayCells {
  import opened Syntax

  /** A scalar variable: one of the program's, or the one that names the bytes of a cell. */
  datatype Var = ProgVar(name: string) | CellVar(offset: nat, size: nat)

  datatype ACell = ACell(offset: nat, size: nat, scalar: Option<Var>)

  datatype Binding = Binding(offset: nat, cells: seq<ACell>)

  /** Equality of cells does not look at the scalar. */
  predicate Same(c: ACell, d: ACell) {
    c.offset == d.offset && c.size == d.size
  }

  /** The intervals of c and of [o, o + size) have a byte in common. */
  predicate Overlaps(c: ACell, o: nat, size: nat) {
    var lb := if c.offset >= o then c.offset else o;
    var ub := if c.offset + c.size <= o + size then c.offset + c.size - 1 else o + size - 1;
    lb <= ub
  }

  predicate Within(o: int, size: int, k: int) {
    o <= k < o + size
  }

  lemma OverlapMeaning(c: ACell, o: nat, size: nat)
    ensures Overlaps(c, o, size) <==> exists k :: Within(c.offset, c.size, k) && Within(o, size, k)
  {
    var lb := if c.offset >= o then c.offset else o;
    if Overlaps(c, o, size) {
      assert Within(c.offset, c.size, lb) && Within(o, size, lb);
    }
  }

  /* ----- the cells at one offset, by increasing size ----- */

  /** Cells at o, each size once, in increasing order. */
  predicate Group(cells: seq<ACell>, o: nat) {
    && (forall i :: 0 <= i < |cells| ==> cells[i].offset == o && cells[i].size > 0)
    && (forall i, j :: 0 <= i < j < |cells| ==> cells[i].size < cells[j].size)
  }

  function InsertBySize(cells: seq<ACell>, c: ACell): (r: seq<ACell>) {
    if cells == [] || c.size < cells[0].size then [c] + cells
    else if cells[0].size == c.size then cells
    else [cells[0]] + InsertBySize(cells[1..], c)
  }

  function EraseSize(cells: seq<ACell>, size: nat): (r: seq<ACell>) {
    if cells == [] then []
    else if cells[0].size == size then cells[1..]
    else [cells[0]] + EraseSize(cells[1..], size)
  }

  /** The cell of that size. */
  function FindSize(cells: seq<ACell>, size: nat): (r: Option<ACell>) {
    if cells == [] then None
    else if cells[0].size == size then Some(cells[0])
    else FindSize(cells[1..], size)
  }

  lemma {:induction false} InsertGroup(cells: seq<ACell>, c: ACell)
    requires Group(cells, c.offset) && c.size > 0
    ensures Group(InsertBySize(cells, c), c.offset)
    ensures forall d :: d in InsertBySize(cells, c) <==> d in cells || (d == c && FindSize(cells, c.size).None?)
  {
    FindSizeIs(cells, c.size);
    if cells != [] && c.size < cells[0].size {
      GroupCons(c, cells, c.offset);
    } else if cells != [] && cells[0].size < c.size {
      var rest := cells[1..];
      assert cells == [cells[0]] + rest;
      InsertGroup(rest, c);
      GroupCons(cells[0], InsertBySize(rest, c), c.offset);
    }
  }

  lemma GroupCons(c: ACell, rest: seq<ACell>, o: nat)
    requires Group(rest, o) && c.offset == o && c.size > 0 && forall d :: d in rest ==> c.size < d.size
    ensures Group([c] + rest, o)
  {}

  lemma {:induction false} FindSizeIs(cells: seq<ACell>, size: nat)
    ensures FindSize(cells, size).Some? ==> FindSize(cells, size).value in cells && FindSize(cells, size).value.size == size
    ensures FindSize(cells, size).None? ==> forall d :: d in cells ==> d.size != size
  {
    if cells == [] {
    } else {
      FindSizeIs(cells[1..], size);
      assert cells == [cells[0]] + cells[1..];
    }
  }

  lemma {:induction false} EraseGroup(cells: seq<ACell>, o: nat, size: nat)
    requires Group(cells, o)
    ensures Group(EraseSize(cells, size), o)
    ensures forall d :: d in EraseSize(cells, size) <==> d in cells && d.size != size
  {
    if cells == [] {
    } else {
      var rest := cells[1..];
      assert cells == [cells[0]] + rest;
      EraseGroup(rest, o, size);
      if cells[0].size != size { GroupCons(cells[0], EraseSize(rest, size), o); }
    }
  }

  /* ----- sorted bindings ----- */

  predicate Sorted(bs: seq<Binding>) {
    forall i, j :: 0 <= i < j < |bs| ==> bs[i].offset < bs[j].offset
  }

  predicate Grouped(bs: seq<Binding>) {
    forall i :: 0 <= i < |bs| ==> bs[i].cells != [] && Group(bs[i].cells, bs[i].offset)
  }

  predicate Kept(bs: seq<Binding>) {
    Sorted(bs) && Grouped(bs)
  }

  /** The first binding whose offset is not below o. */
  function LowerBound(bs: seq<Binding>, o: nat): (i: nat)
    ensures i <= |bs| && (forall k :: 0 <= k < i ==> bs[k].offset < o) && (i < |bs| ==> bs[i].offset >= o)
  {
    if bs == [] || bs[0].offset >= o then 0 else 1 + LowerBound(bs[1..], o)
  }

  /** The first binding whose offset is above o. */
  function UpperBound(bs: seq<Binding>, o: nat): (i: nat)
    ensures i <= |bs| && (forall k :: 0 <= k < i ==> bs[k].offset <= o) && (i < |bs| ==> bs[i].offset > o)
  {
    if bs == [] || bs[0].offset > o then 0 else 1 + UpperBound(bs[1..], o)
  }

  function Lookup(bs: seq<Binding>, o: nat): Option<seq<ACell>> {
    var i := LowerBound(bs, o);
    if i < |bs| && bs[i].offset == o then Some(bs[i].cells) else None
  }

  function RemoveKey(bs: seq<Binding>, o: nat): seq<Binding> {
    var i := LowerBound(bs, o);
    if i < |bs| && bs[i].offset == o then bs[..i] + bs[i + 1..] else bs
  }

  /** A new binding for an offset that has none. */
  function InsertKey(bs: seq<Binding>, o: nat, cells: seq<ACell>): seq<Binding> {
    var i := LowerBound(bs, o);
    bs[..i] + [Binding(o, cells)] + bs[i..]
  }

  predicate InMap(bs: seq<Binding>, c: ACell) {
    Lookup(bs, c.offset).Some? && c in Lookup(bs, c.offset).value
  }

  lemma LookupAt(bs: seq<Binding>, i: nat)
    requires Sorted(bs) && i < |bs|
    ensures LowerBound(bs, bs[i].offset) == i && Lookup(bs, bs[i].offset) == Some(bs[i].cells)
  {}

  lemma LookupIn(bs: seq<Binding>, x: Binding)
    requires Sorted(bs) && x in bs
    ensures Lookup(bs, x.offset) == Some(x.cells)
  {}

  /** The binding that a lookup finds. */
  lemma LookupFound(bs: seq<Binding>, o: nat) returns (i: nat)
    requires Lookup(bs, o).Some?
    ensures i < |bs| && bs[i].offset == o && bs[i].cells == Lookup(bs, o).value && bs[i] in bs
  {
    i := LowerBound(bs, o);
  }

  /** Bindings with the same elements answer lookups alike. */
  lemma LookupAgrees(bs: seq<Binding>, r: seq<Binding>, p: nat)
    requires Sorted(bs) && Sorted(r) && forall x: Binding :: x.offset == p ==> (x in bs <==> x in r)
    ensures Lookup(bs, p) == Lookup(r, p)
  {}

  lemma NoKey(bs: seq<Binding>, o: nat)
    requires Sorted(bs) && Lookup(bs, o).None?
    ensures forall x :: x in bs ==> x.offset != o
  {}

  lemma AppendKept(a: seq<Binding>, b: seq<Binding>)
    requires Kept(a) && Kept(b) && forall x, y :: x in a && y in b ==> x.offset < y.offset
    ensures Kept(a + b)
  {}

  /** The bindings below and not below o. */
  lemma Halves(bs: seq<Binding>, o: nat)
    requires Kept(bs)
    ensures var i := LowerBound(bs, o);
      && Kept(bs[..i]) && Kept(bs[i..])
      && (forall x :: x in bs[..i] <==> x in bs && x.offset < o)
      && (forall x :: x in bs[i..] <==> x in bs && x.offset >= o)
  {}

  lemma TailAbove(bs: seq<Binding>)
    requires Kept(bs) && bs != []
    ensures Kept(bs[1..]) && forall x :: x in bs[1..] <==> x in bs && x.offset != bs[0].offset
    ensures forall x :: x in bs[1..] ==> x.offset > bs[0].offset
  {}

  lemma RemoveKeyIs(bs: seq<Binding>, o: nat)
    requires Kept(bs)
    ensures Kept(RemoveKey(bs, o)) && forall x :: x in RemoveKey(bs, o) <==> x in bs && x.offset != o
  {
    var i := LowerBound(bs, o);
    Halves(bs, o);
    if i < |bs| && bs[i].offset == o {
      TailAbove(bs[i..]);
      assert bs[i..][1..] == bs[i + 1..];
      AppendKept(bs[..i], bs[i + 1..]);
    } else {
      RestAbove(bs, o);
    }
  }

  lemma RestAbove(bs: seq<Binding>, o: nat)
    requires Kept(bs) && (LowerBound(bs, o) < |bs| ==> bs[LowerBound(bs, o)].offset != o)
    ensures forall x :: x in bs ==> x.offset != o
  {}

  lemma InsertKeyIs(bs: seq<Binding>, o: nat, cells: seq<ACell>)
    requires Kept(bs) && (forall x :: x in bs ==> x.offset != o) && cells != [] && Group(cells, o)
    ensures Kept(InsertKey(bs, o, cells)) && forall x :: x in InsertKey(bs, o, cells) <==> x in bs || x == Binding(o, cells)
  {}

  lemma RemoveKeyLaw(bs: seq<Binding>, o: nat, p: nat)
    requires Kept(bs)
    ensures Lookup(RemoveKey(bs, o), p) == if p == o then None else Lookup(bs, p)
  {
    RemoveKeyIs(bs, o);
    if p != o {
      LookupAgrees(bs, RemoveKey(bs, o), p);
    } else if Lookup(RemoveKey(bs, o), p).Some? {
      var i := LookupFound(RemoveKey(bs, o), p);
    }
  }

  lemma InsertKeyLaw(bs: seq<Binding>, o: nat, cells: seq<ACell>, p: nat)
    requires Kept(bs) && Lookup(bs, o).None? && cells != [] && Group(cells, o)
    ensures Lookup(InsertKey(bs, o, cells), p) == if p == o then Some(cells) else Lookup(bs, p)
  {
    NoKey(bs, o);
    InsertKeyIs(bs, o, cells);
    if p == o {
      LookupIn(InsertKey(bs, o, cells), Binding(o, cells));
    } else {
      LookupAgrees(bs, InsertKey(bs, o, cells), p);
    }
  }

  /** Two cells of the map with the same extent are the same cell. */
  lemma SameUnique(bs: seq<Binding>, c: ACell, d: ACell)
    requires Kept(bs) && InMap(bs, c) && InMap(bs, d) && Same(c, d)
    ensures c == d
  {}

  lemma InMapAt(bs: seq<Binding>, c: ACell)
    requires Kept(bs)
    ensures InMap(bs, c) <==> exists i :: 0 <= i < |bs| && c in bs[i].cells
  {}
}
