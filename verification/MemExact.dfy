/**
  Exactly which words a load from the stack domain describes, by itself and
  after a join.
 */
module MemExact {
  import opened Rcp
  import opened ByteMemory
  import opened Cells
  import opened JoinWalk
  import opened LoadScan
  import opened MemDom
  import opened MemTheory
  import S = SetDomains

  /* ----- load ----- */

  /** The byte is known to be part of a number: the cell around it describes only numbers. */
  ghost predicate OnlyNumbersAt(cells: seq<Cell>, k: int) {
    exists c :: c in cells && c.Covers(k) && forall v :: Contains(c.dom, v) ==> v.Num?
  }

  /** The cell around the byte ends below 0. */
  ghost predicate EndsBelowZero(cells: seq<Cell>, k: int) {
    forall c :: c in cells && c.Covers(k) ==> c.offset + c.width < 0
  }

  lemma NumericAtIff(cells: seq<Cell>, k: int)
    ensures NumericAt(cells, k) <==> OnlyNumbersAt(cells, k)
  {
    forall c | c in cells
      ensures MustBeNum(c.dom) <==> forall v :: Contains(c.dom, v) ==> v.Num?
    {
      MustBeNumIff(c.dom);
    }
  }

  /** Where no cell has the extent, the load describes all numbers if every byte is part of one, and otherwise every word. */
  lemma LoadAcrossIff(cells: seq<Cell>, o: int, w: int, v: Word)
    requires Shaped(cells) && w > 0 && Contains(Top, v)
    requires forall c :: c in cells ==> !(c.offset == o && c.width == w)
    ensures Contains(Loaded(cells, S.Single(o), w), v) <==>
            v.Num? || (exists k :: o <= k < o + w && !OnlyNumbersAt(cells, k)) || EndsBelowZero(cells, o + w - 1)
  {
    forall k
      ensures NumericAt(cells, k) <==> OnlyNumbersAt(cells, k)
    {
      NumericAtIff(cells, k);
    }
    LoadedRest(cells, o, w);
    assert Contains(NumTop, v) <==> v.Num? by {
      if Contains(NumTop, v) { MustBeNumMeaning(NumTop, v); }
    }
    assert EndsFromZero(cells, o + w - 1) <==> !EndsBelowZero(cells, o + w - 1) by {
      forall c | c in cells && c.Covers(o + w - 1)
        ensures c.End() >= 0 <==> !(c.offset + c.width < 0)
      {}
    }
  }

  /** Where a cell has the extent, the load describes exactly what the cell does. */
  lemma LoadCellIff(cells: seq<Cell>, c: Cell, v: Word)
    requires Shaped(cells) && c in cells
    ensures Contains(Loaded(cells, S.Single(c.offset), c.width), v) <==> Contains(c.dom, v)
  {
    LoadedCell(cells, c);
  }

  /** Through an address that is not one offset, the load describes every word. */
  lemma LoadAnywhere(cells: seq<Cell>, offsets: S.IntSet, w: int, v: Word)
    requires w > 0 && Contains(Top, v)
    ensures offsets.top || |offsets.elems| != 1 ==> Contains(Loaded(cells, offsets, w), v)
  {}

  /* ----- join ----- */

  lemma LoadMeet(A: seq<Cell>, B: seq<Cell>, a: Cell, b: Cell, x: Cell, v: Word)
    requires Shaped(A) && Shaped(B) && a in A && b in B && Overlap(a, b) && IsMeet(a, b, x)
    requires !v.Junk? && x.End() >= 0
    ensures Contains(x.dom, v) <==>
            Contains(Loaded(A, S.Single(x.offset), x.width), v) || Contains(Loaded(B, S.Single(x.offset), x.width), v)
  {
    LoadInsideCell(A, a, x.offset, x.width);
    LoadInsideCell(B, b, x.offset, x.width);
    JoinExact(PartOf(a, x.offset, x.End()), PartOf(b, x.offset, x.End()), v);
    JoinExact(PartOf(b, x.offset, x.End()), PartOf(a, x.offset, x.End()), v);
  }

  /**
    Loading a cell of the join describes exactly what loading the same bytes
    from either operand does, mixtures aside, whatever cells they lie in there.
   */
  lemma LoadJoinedIff(a: MemVal, b: MemVal, r: MemVal, x: Cell, v: Word)
    requires WellFormed(a) && WellFormed(b) && JoinOf(a, b, r) && !a.bot && !b.bot
    requires x in r.cells && x.End() >= 0 && !v.Junk?
    ensures x.width > 0
    ensures Contains(Loaded(r.cells, S.Single(x.offset), x.width), v) <==>
            Contains(Loaded(a.cells, S.Single(x.offset), x.width), v) || Contains(Loaded(b.cells, S.Single(x.offset), x.width), v)
  {
    LoadedCell(r.cells, x);
    var c, d :| c in a.cells && d in b.cells && Overlap(c, d) && IsMeet(c, d, x);
    LoadMeet(a.cells, b.cells, c, d, x, v);
  }

  lemma MeetOfSame(c: Cell, d: Cell)
    requires c.offset == d.offset && c.width == d.width
    ensures MeetCell(c, d) == Cell(c.offset, c.width, Join(c.dom, d.dom))
  {}

  lemma CommonCell(A: seq<Cell>, B: seq<Cell>, R: seq<Cell>, c: Cell, d: Cell) returns (x: Cell)
    requires Shaped(A) && Shaped(B) && Joined(A, B, R) && c in A && d in B && c.offset == d.offset && c.width == d.width
    ensures x in R && x.offset == c.offset && x.width == c.width && (x.dom == Join(c.dom, d.dom) || x.dom == Join(d.dom, c.dom))
  {
    assert Overlap(c, d);
    MeetOfSame(c, d);
    MeetOfSame(d, c);
    x := if MeetCell(c, d) in R then MeetCell(c, d) else MeetCell(d, c);
  }

  /** Where both operands have the cell, the join has it too, with what either says, wherever it lies. */
  lemma LoadCommonCellIff(a: MemVal, b: MemVal, r: MemVal, o: int, w: int, v: Word)
    requires WellFormed(a) && WellFormed(b) && JoinOf(a, b, r) && !a.bot && !b.bot && w > 0 && !v.Junk?
    requires HasCell(a.cells, o, w) && HasCell(b.cells, o, w)
    ensures HasCell(r.cells, o, w)
    ensures Contains(Loaded(r.cells, S.Single(o), w), v) <==>
            Contains(Loaded(a.cells, S.Single(o), w), v) || Contains(Loaded(b.cells, S.Single(o), w), v)
  {
    var c :| c in a.cells && c.offset == o && c.width == w;
    var d :| d in b.cells && d.offset == o && d.width == w;
    var x := CommonCell(a.cells, b.cells, r.cells, c, d);
    LoadedCell(a.cells, c);
    LoadedCell(b.cells, d);
    LoadedCell(r.cells, x);
    JoinExact(c.dom, d.dom, v);
    JoinExact(d.dom, c.dom, v);
  }

  /** A byte of the join is part of a number exactly when it is one in both operands. */
  lemma NumericAtJoinIff(a: MemVal, b: MemVal, r: MemVal, k: int)
    requires WellFormed(a) && WellFormed(b) && JoinOf(a, b, r) && !a.bot && !b.bot
    ensures NumericAt(r.cells, k) <==> NumericAt(a.cells, k) && NumericAt(b.cells, k)
  {
    if a.IsTop() || b.IsTop() { return; }
    NumericBehind(a.cells, b.cells, r.cells, k);
    if NumericAt(a.cells, k) && NumericAt(b.cells, k) {
      var c :| c in a.cells && c.Covers(k) && MustBeNum(c.dom);
      var d :| d in b.cells && d.Covers(k) && MustBeNum(d.dom);
      assert Overlap(c, d);
      var x := if MeetCell(c, d) in r.cells then MeetCell(c, d) else MeetCell(d, c);
      assert x in r.cells && IsMeet(c, d, x);
      MeetMustBeNum(c, d, x);
      MeetCovers(c, d, x, k);
    }
  }

  /** A value that no state reaches is neutral. */
  lemma JoinBottom(a: MemVal, b: MemVal, r: MemVal, mem: Memory)
    requires JoinOf(a, b, r) && (a.bot || b.bot)
    ensures Describes(r, mem) <==> Describes(a, mem) || Describes(b, mem)
  {}
}
