/**
  Ranges that end below 0. The load's scan starts its maximal end at 0 and so
  does not recognise them as numeric; this is exactly where loading over a
  join, and loading beside a store, stop being as expected.
 */
module MemNegative {
  import opened Rcp
  import opened Cells
  import opened JoinWalk
  import opened LoadScan
  import opened StorePieces
  import opened MemDom
  import opened MemTheory
  import S = SetDomains

  /** The single cell that begins one byte before the range [o, o + w) and ends with it. */
  function Wider(o: int, w: int): Cell {
    Cell(o - 1, w + 1, NumTop)
  }

  lemma NumericNotTop()
    ensures MustBeNum(NumTop) && Partial(NumTop) == NumTop && Join(NumTop, NumTop) == NumTop
    ensures !Included(Top, NumTop) && NumTop != Top
  {
    assert IsRegion(StackMem) && !S.Included(Offsets(Top, StackMem), Offsets(NumTop, StackMem));
  }

  lemma WiderIsLost(o: int, w: int)
    requires w > 0 && o + w < 0
    ensures Loaded([Wider(o, w)], S.Single(o), w) == Top
  {
    var cells := [Wider(o, w)];
    assert !HasCell(cells, o, w);
    assert !EndsFromZero(cells, o + w - 1);
  }

  /** One operand holds the range inside a wider numeric cell, the other as a cell of its own. */
  lemma NegativeJoin(o: int, w: int) returns (a: MemVal, b: MemVal, r: MemVal)
    requires w > 0 && o + w < 0
    ensures WellFormed(a) && WellFormed(b) && JoinOf(a, b, r) && !a.bot && !b.bot
    ensures !Included(Loaded(a.cells, S.Single(o), w), Loaded(r.cells, S.Single(o), w))
  {
    var x, y := Wider(o, w), Cell(o, w, NumTop);
    a, b, r := MemVal(false, [x]), MemVal(false, [y]), MemVal(false, [y]);
    NumericNotTop();
    assert x in a.cells && y in b.cells && y in r.cells;
    assert MeetCell(x, y) == y && Overlap(x, y);
    WiderIsLost(o, w);
    LoadedCell(r.cells, y);
  }

  /** Loading over any join gives at least what the operands give, for exactly the ranges that do not end below 0. */
  lemma LoadOverJoinIffNotNegative(o: int, w: int)
    requires w > 0
    ensures o + w >= 0 <==>
      forall a, b, r :: WellFormed(a) && WellFormed(b) && JoinOf(a, b, r) && !a.bot && !b.bot ==>
        Included(Loaded(a.cells, S.Single(o), w), Loaded(r.cells, S.Single(o), w))
  {
    if o + w >= 0 {
      forall a, b, r | WellFormed(a) && WellFormed(b) && JoinOf(a, b, r) && !a.bot && !b.bot
        ensures Included(Loaded(a.cells, S.Single(o), w), Loaded(r.cells, S.Single(o), w))
      {
        LoadOverJoin(a, b, r, S.Single(o), w);
      }
    } else {
      var a, b, r := NegativeJoin(o, w);
    }
  }

  /** A store of the byte before the range leaves the range as a numeric cell of its own. */
  lemma NegativeStore(p: int, u: int) returns (before: seq<Cell>, after: seq<Cell>)
    requires u > 0 && p + u < 0
    ensures Shaped(before) && StoredCells(before, p - 1, 1, Top, after)
    ensures Loaded(after, S.Single(p), u) != Loaded(before, S.Single(p), u)
  {
    var c, new_, rest := Wider(p, u), Cell(p - 1, 1, Top), Cell(p, u, NumTop);
    before, after := [c], [new_, rest];
    NumericNotTop();
    assert c in before && Hit(c, p - 1, 1) && Leftover(c, p - 1, 1, rest);
    forall x
      ensures x in after <==> x == new_ || (x in before && !Hit(x, p - 1, 1)) || IsLeftover(before, p - 1, 1, x)
    {}
    WiderIsLost(p, u);
    LoadedCell(after, rest);
  }

  /** Every store beside a range leaves its load as it was, for exactly the ranges that do not end below 0. */
  lemma LoadElsewhereIffNotNegative(p: int, u: int)
    requires u > 0
    ensures p + u >= 0 <==>
      forall before, o, w, v, after ::
        Shaped(before) && w > 0 && StoredCells(before, o, w, v, after) && (p + u <= o || o + w <= p) ==>
        Loaded(after, S.Single(p), u) == Loaded(before, S.Single(p), u)
  {
    if p + u >= 0 {
      forall before, o, w, v, after |
        Shaped(before) && w > 0 && StoredCells(before, o, w, v, after) && (p + u <= o || o + w <= p)
        ensures Loaded(after, S.Single(p), u) == Loaded(before, S.Single(p), u)
      {
        LoadElsewhere(before, o, w, v, after, p, u);
      }
    } else {
      var before, after := NegativeStore(p, u);
    }
  }
}
