/**
  The stack-memory domain: a flag and a vector of cells that load scans and
  that store and join overwrite in place. Each method is proved against a
  description of its result that does not mention how it is computed.
 */
module MemDom {
  import opened Syntax
  import opened Rcp
  import opened Cells
  import opened JoinWalk
  import opened LoadScan
  import opened StorePieces
  import S = SetDomains

  datatype MemVal = MemVal(bot: bool, cells: seq<Cell>) {
    predicate IsTop() { !bot && cells == [] }
  }

  /** A domain value as every operation leaves it. */
  predicate WellFormed(m: MemVal) {
    Shaped(m.cells) && (m.bot ==> m.cells == [])
  }

  /* ----- join of whole values ----- */

  ghost predicate JoinOf(a: MemVal, b: MemVal, r: MemVal) {
    if a.bot then r == b
    else if b.bot || a.IsTop() then r == a
    else if b.IsTop() then r == MemVal(false, [])
    else !r.bot && Joined(a.cells, b.cells, r.cells)
  }

  /* ----- the object ----- */

  method EraseAll(before: seq<Cell>, toRemove: seq<Cell>) returns (cells: seq<Cell>)
    requires Shaped(before)
    ensures Shaped(cells)
    ensures forall x :: x in cells <==> x in before && x !in toRemove
  {
    cells := before;
    for i := 0 to |toRemove|
      invariant Shaped(cells)
      invariant forall x :: x in cells <==> x in before && x !in toRemove[..i]
    {
      forall x
        ensures x in RemoveAll(cells, toRemove[i]) <==> x in cells && x != toRemove[i]
      {
        RemoveAllMembers(cells, toRemove[i], x);
      }
      RemoveAllShaped(cells, toRemove[i]);
      cells := RemoveAll(cells, toRemove[i]);
      assert toRemove[..i + 1] == toRemove[..i] + [toRemove[i]];
    }
    assert toRemove[..|toRemove|] == toRemove;
  }

  /** The loop of Load: stops at a cell with exactly the range, and otherwise gathers the hull of the overlapping cells. */
  method LoadLoop(cells: seq<Cell>, o: int, width: int)
    returns (exact: Option<Rcp>, minOffset: int, totalWidth: int, maxEnd: int, allNum: bool, ghost scan: Scan)
    requires Shaped(cells) && width > 0
    ensures exact.Some? ==> exact.value == Loaded(cells, S.Single(o), width)
    ensures exact.None? ==> Scanned(cells, o, width, |cells|, scan) && (minOffset, totalWidth, maxEnd, allNum) == Totals(scan)
  {
    minOffset, totalWidth, maxEnd, allNum := MAX_OFFSET, 0, 0, true;
    scan := Scan(MAX_OFFSET, 0, 0, true);
    exact := None;
    ScanStarts(cells, o, width);
    for i := 0 to |cells|
      invariant exact.None?
      invariant Scanned(cells, o, width, i, scan) && (minOffset, totalWidth, maxEnd, allNum) == Totals(scan)
    {
      var cell := cells[i];
      if !cell.Overlapping(o, width) {
        ScanMiss(cells, o, width, i, scan);
        continue;
      }
      if cell.offset == o && cell.width == width {
        LoadedCell(cells, cell);
        exact := Some(cell.dom);
        return;
      }
      ghost var before := scan;
      scan := ScanStep(cells, o, width, i, before);
      minOffset := Min(cell.offset, minOffset);
      totalWidth := totalWidth + cell.width;
      maxEnd := Max(cell.End(), maxEnd);
      if !MustBeNum(cell.dom) {
        allNum := false;
      }
    }
  }

  /** The walk over one array: each pair of neighbours is split or the left one given up. */
  method SplitNeighbours(s: seq<Cell>, given: int) returns (cells: seq<Cell>, ghost g: nat, toRemove: int)
    requires Input(s) && given == 1
    ensures WalkState(s, cells, |s| - 1, g, toRemove)
  {
    cells, toRemove := s, given;
    WalkStarts(s);
    var it: nat := 0;
    g := 0;
    while it + 1 < |cells|
      invariant WalkState(s, cells, it, g, toRemove)
    {
      var current, after := cells[it], cells[it + 1];
      if current.End() <= after.offset || current.width == 0 {
        var dead := Cell(MAX_OFFSET, 0, current.dom);
        WalkSkips(s, cells, it, g, toRemove, dead);
        cells := cells[it := dead];
        toRemove := toRemove + 1;
        g := it + 1;
      } else {
        SplitReady(s, cells, it, g);
        var (left, mid1, mid2, right) := SplitPair(current, after);
        mid1 := Cell(mid1.offset, mid1.width, Join(mid1.dom, mid2.dom));
        g := WalkSplits(s, cells, it, g, toRemove, cells[it := mid1][it + 1 := right]);
        cells := cells[it := mid1];
        cells := cells[it + 1 := right];
      }
      it := it + 1;
    }
    assert it == |s| - 1;
  }

  /** Concatenate, sort, walk, sort again and drop as many slots as were given up. */
  method JoinCells(A: seq<Cell>, B: seq<Cell>) returns (cells: seq<Cell>)
    requires Shaped(A) && Shaped(B)
    ensures Joined(A, B, cells)
  {
    cells := SortCells(A + B);
    ghost var merged := cells;
    var toRemove := 0;
    // the extra slot at the end, marked dead
    var extra := Cell(MAX_OFFSET, 0, Bot);
    cells := cells + [extra];
    toRemove := toRemove + 1;
    ghost var s := cells;
    MergedInput(A, B, merged, extra);
    ghost var g;
    cells, g, toRemove := SplitNeighbours(cells, toRemove);
    ghost var walked := cells;
    cells := SortCells(cells);
    WalkJoins(A, B, merged, extra, s, walked, g, toRemove, cells);
    cells := cells[..|cells| - toRemove];
  }

  class MemDom {
    var bot: bool
    var cells: seq<Cell>

    function Value(): MemVal
      reads this
    {
      MemVal(bot, cells)
    }

    constructor (m: MemVal)
      ensures Value() == m
    {
      bot, cells := m.bot, m.cells;
    }

    method Havoc()
      modifies this
      ensures Value() == MemVal(false, [])
    {
      cells, bot := [], false;
    }

    method Load(offsets: S.IntSet, width: int) returns (r: Rcp)
      requires Shaped(cells) && width > 0
      ensures r == Loaded(cells, offsets, width)
    {
      if !offsets.IsSingle() {
        return Top;
      }
      var o := offsets.elems[0];
      assert offsets == S.Single(o);
      var exact, minOffset, totalWidth, maxEnd, allNum;
      ghost var scan;
      exact, minOffset, totalWidth, maxEnd, allNum, scan := LoadLoop(cells, o, width);
      if exact.Some? {
        return exact.value;
      }
      ScanDecides(cells, o, width, scan);
      if totalWidth == 0 {
        return Top;
      }
      if minOffset > o || maxEnd < o + width {
        return Top;
      }
      if !allNum {
        return Top;
      }
      if minOffset + totalWidth < maxEnd {
        return Top;
      }
      return NumTop;
    }

    method Store(offsets: S.IntSet, width: int, value: Rcp)
      requires Shaped(cells) && width > 0
      requires offsets.IsSingle() ==> offsets.elems[0] + width <= MAX_OFFSET
      modifies this
      ensures !bot && Shaped(cells)
      ensures if offsets.IsSingle() then StoredCells(old(cells), offsets.elems[0], width, value, cells) else cells == []
    {
      bot := false;
      if !offsets.IsSingle() {
        Havoc();
        return;
      }
      var o := offsets.elems[0];
      var newCell := Cell(o, width, value);
      var toRemove, pieces := [], [];
      for i := 0 to |cells|
        invariant !bot && cells == old(cells)
        invariant forall x :: x in toRemove <==> x in cells[..i] && Hit(x, o, width)
        invariant Pieces(cells[..i], o, width, pieces)
      {
        var c := cells[i];
        assert cells[..i + 1] == cells[..i] + [c];
        if c.End() <= o || c.offset >= o + width {
          PiecesMiss(cells[..i], c, o, width, pieces);
          continue;
        }
        toRemove := toRemove + [c];
        var content := Partial(c.dom);
        ghost var before := pieces;
        if c.offset < o {
          pieces := pieces + [FromRange(c.offset, o, content)];
        }
        if c.End() > o + width {
          pieces := pieces + [FromRange(o + width, c.End(), content)];
        }
        PiecesHit(cells[..i], c, o, width, before, pieces);
      }
      assert cells[..|cells|] == cells;
      assert |pieces| <= 2;
      ghost var all := cells;
      cells := EraseAll(cells, toRemove);
      ghost var kept := cells;
      cells := cells + pieces;
      cells := cells + [newCell];
      ghost var unsorted := cells;
      cells := SortCells(cells);
      StoreAssembled(all, o, width, value, kept, pieces, unsorted, cells);
    }

    method JoinWith(b: MemDom)
      requires WellFormed(Value()) && WellFormed(b.Value())
      modifies this
      ensures WellFormed(Value())
      ensures if this == b then Value() == old(Value()) else JoinOf(old(Value()), b.Value(), Value())
    {
      if this == b {
        return;
      }
      if bot {
        bot, cells := b.bot, b.cells;
        return;
      }
      if b.bot {
        return;
      }
      if Value().IsTop() {
        return;
      }
      if b.Value().IsTop() {
        Havoc();
        return;
      }
      cells := JoinCells(cells, b.cells);
    }
  }
}
