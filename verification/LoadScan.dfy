/**
  What a load from the stack cells returns, and the tiling argument behind its
  scan: widths that add up to the hull leave no gap.
 */
module LoadScan {
  import opened Rcp
  import opened Cells
  import S = SetDomains

  /* ----- what load returns ----- */

  ghost predicate HasCell(cells: seq<Cell>, o: int, w: int) {
    exists c :: c in cells && c.offset == o && c.width == w
  }

  ghost predicate NumericAt(cells: seq<Cell>, k: int) {
    exists c :: c in cells && c.Covers(k) && MustBeNum(c.dom)
  }

  /** Every byte of the range lies in an all-numeric cell. */
  ghost predicate NumericRange(cells: seq<Cell>, o: int, w: int) {
    forall k :: o <= k < o + w ==> NumericAt(cells, k)
  }

  /** The scan starts its maximal end at 0, so a range whose last cell ends below 0 is not recognised. */
  ghost predicate EndsFromZero(cells: seq<Cell>, k: int) {
    exists c :: c in cells && c.Covers(k) && c.End() >= 0
  }

  /** The exact cell if there is one; otherwise some number if the range is numeric; otherwise anything. */
  ghost function Loaded(cells: seq<Cell>, offsets: S.IntSet, w: int): Rcp
    requires w > 0
  {
    if !offsets.IsSingle() then Top
    else
      var o := offsets.elems[0];
      if HasCell(cells, o, w) then
        var c :| c in cells && c.offset == o && c.width == w;
        c.dom
      else if NumericRange(cells, o, w) && EndsFromZero(cells, o + w - 1) then NumTop
      else Top
  }

  lemma LoadedCell(cells: seq<Cell>, c: Cell)
    requires Shaped(cells) && c in cells
    ensures Loaded(cells, S.Single(c.offset), c.width) == c.dom
  {}

  /* ----- the scan ----- */

  ghost predicate SeenAt(cells: seq<Cell>, i: nat, k: int)
    requires i <= |cells|
  {
    exists j :: 0 <= j < i && cells[j].Covers(k)
  }

  ghost predicate AllSeen(cells: seq<Cell>, i: nat, lo: int, hi: int)
    requires i <= |cells|
  {
    forall k :: lo <= k < hi ==> SeenAt(cells, i, k)
  }

  predicate Exact(c: Cell, o: int, w: int) {
    c.offset == o && c.width == w
  }

  /** Cell j overlaps the range and is among the first i. */
  predicate Met(cells: seq<Cell>, o: int, w: int, i: nat, j: int) {
    0 <= j < i <= |cells| && cells[j].Overlapping(o, w)
  }

  /** The overlapping cells among the first i reach from lo to last; their widths fill that hull exactly when no byte of it is missing. */
  ghost predicate Hull(cells: seq<Cell>, o: int, w: int, i: nat, lo: int, total: int, last: int) {
    && i <= |cells|
    && (exists j :: Met(cells, o, w, i, j) && cells[j].End() == last)
    && (exists j :: Met(cells, o, w, i, j) && cells[j].offset == lo)
    && (forall j :: Met(cells, o, w, i, j) ==> lo <= cells[j].offset && cells[j].End() <= last)
    && lo + total <= last
    && (lo + total == last <==> AllSeen(cells, i, lo, last))
  }

  /** What the scan remembers of the overlapping cells: least offset, summed width, last end, all numeric. */
  datatype Scan = Scan(lo: int, total: int, last: int, allNum: bool)

  /** The accumulators after i cells, none of which was the exact one. */
  ghost predicate Scanned(cells: seq<Cell>, o: int, w: int, i: nat, a: Scan) {
    && i <= |cells| && a.total >= 0
    && (forall j :: 0 <= j < i ==> !Exact(cells[j], o, w))
    && (a.total == 0 ==> a.lo == MAX_OFFSET && a.last == 0 && forall j :: !Met(cells, o, w, i, j))
    && (a.allNum <==> forall j :: Met(cells, o, w, i, j) ==> MustBeNum(cells[j].dom))
    && (a.total > 0 ==> Hull(cells, o, w, i, a.lo, a.total, a.last))
  }

  function Extend(a: Scan, c: Cell): Scan {
    Scan(Min(c.offset, a.lo), a.total + c.width, c.End(), a.allNum && MustBeNum(c.dom))
  }

  /** The loop's accumulators: the least offset, the total width, the greatest end, and whether all is numeric. */
  function Totals(a: Scan): (int, int, int, bool) {
    (a.lo, a.total, Max(a.last, 0), a.allNum)
  }

  lemma HitIsOverlapping(c: Cell, o: int, w: int)
    requires c.width > 0 && w > 0
    ensures c.Overlapping(o, w) <==> c.End() > o && c.offset < o + w
  {}

  lemma MetGrows(cells: seq<Cell>, o: int, w: int, i: nat, j: int)
    requires i < |cells|
    ensures Met(cells, o, w, i + 1, j) <==> Met(cells, o, w, i, j) || (j == i && cells[i].Overlapping(o, w))
  {}

  lemma SeenGrows(cells: seq<Cell>, i: nat, k: int)
    requires i < |cells|
    ensures SeenAt(cells, i + 1, k) <==> SeenAt(cells, i, k) || cells[i].Covers(k)
  {}

  lemma AllSeenGrows(cells: seq<Cell>, i: nat, lo: int, hi: int)
    requires i < |cells| && hi <= cells[i].offset
    ensures AllSeen(cells, i + 1, lo, hi) <==> AllSeen(cells, i, lo, hi)
  {
    var n := i + 1;
    forall k | lo <= k < hi
      ensures SeenAt(cells, n, k) <==> SeenAt(cells, i, k)
    {
      SeenGrows(cells, i, k);
    }
  }

  lemma HullMiss(cells: seq<Cell>, o: int, w: int, i: nat, lo: int, total: int, last: int)
    requires Shaped(cells) && w > 0 && i < |cells|
    requires Hull(cells, o, w, i, lo, total, last) && !cells[i].Overlapping(o, w)
    ensures Hull(cells, o, w, i + 1, lo, total, last)
  {
    var n := i + 1;
    forall j ensures Met(cells, o, w, n, j) <==> Met(cells, o, w, i, j) || (j == i && cells[i].Overlapping(o, w)) {
      MetGrows(cells, o, w, i, j);
    }
    AllSeenGrows(cells, i, lo, last);
  }

  lemma ScanMiss(cells: seq<Cell>, o: int, w: int, i: nat, a: Scan)
    requires Shaped(cells) && w > 0 && i < |cells|
    requires Scanned(cells, o, w, i, a) && !cells[i].Overlapping(o, w)
    ensures Scanned(cells, o, w, i + 1, a)
  {
    var n := i + 1;
    forall j ensures Met(cells, o, w, n, j) <==> Met(cells, o, w, i, j) || (j == i && cells[i].Overlapping(o, w)) {
      MetGrows(cells, o, w, i, j);
    }
    if a.total > 0 { HullMiss(cells, o, w, i, a.lo, a.total, a.last); }
  }

  /** A byte between two overlapping cells that are not adjacent belongs to no cell seen. */
  lemma GapNotSeen(cells: seq<Cell>, o: int, w: int, i: nat, lo: int, total: int, last: int)
    requires Shaped(cells) && w > 0 && i < |cells|
    requires Hull(cells, o, w, i, lo, total, last) && cells[i].Overlapping(o, w)
    ensures last <= cells[i].offset && !SeenAt(cells, i, last)
  {}

  lemma AllSeenExtends(cells: seq<Cell>, i: nat, lo: int, last: int)
    requires i < |cells| && cells[i].width > 0 && lo <= last <= cells[i].offset && !SeenAt(cells, i, last)
    ensures AllSeen(cells, i + 1, lo, cells[i].End()) <==> AllSeen(cells, i, lo, last) && last == cells[i].offset
  {
    var n := i + 1;
    SeenGrows(cells, i, last);
    AllSeenGrows(cells, i, lo, last);
    if AllSeen(cells, i, lo, last) && last == cells[i].offset {
      forall k | lo <= k < cells[i].End()
        ensures SeenAt(cells, n, k)
      {
        SeenGrows(cells, i, k);
        assert k < last ==> SeenAt(cells, i, k);
      }
    }
    if AllSeen(cells, n, lo, cells[i].End()) {
      assert SeenAt(cells, n, last);
      assert AllSeen(cells, n, lo, last);
    }
  }

  lemma HullHit(cells: seq<Cell>, o: int, w: int, i: nat, lo: int, total: int, last: int)
    requires Shaped(cells) && w > 0 && i < |cells|
    requires Hull(cells, o, w, i, lo, total, last) && cells[i].Overlapping(o, w) && total > 0
    ensures lo <= cells[i].offset
    ensures Hull(cells, o, w, i + 1, lo, total + cells[i].width, cells[i].End())
  {
    var n := i + 1;
    forall j ensures Met(cells, o, w, n, j) <==> Met(cells, o, w, i, j) || (j == i && cells[i].Overlapping(o, w)) {
      MetGrows(cells, o, w, i, j);
    }
    GapNotSeen(cells, o, w, i, lo, total, last);
    AllSeenExtends(cells, i, lo, last);
  }

  lemma HullStarts(cells: seq<Cell>, o: int, w: int, i: nat)
    requires i < |cells| && cells[i].Overlapping(o, w) && forall j :: !Met(cells, o, w, i, j)
    requires cells[i].width > 0
    ensures Hull(cells, o, w, i + 1, cells[i].offset, cells[i].width, cells[i].End())
  {
    var n := i + 1;
    forall j ensures Met(cells, o, w, n, j) <==> Met(cells, o, w, i, j) || (j == i && cells[i].Overlapping(o, w)) {
      MetGrows(cells, o, w, i, j);
    }
    assert Met(cells, o, w, n, i);
    forall k | cells[i].offset <= k < cells[i].End()
      ensures SeenAt(cells, n, k)
    {
      SeenGrows(cells, i, k);
    }
  }

  lemma ScanHit(cells: seq<Cell>, o: int, w: int, i: nat, a: Scan)
    requires Shaped(cells) && w > 0 && i < |cells|
    requires Scanned(cells, o, w, i, a) && cells[i].Overlapping(o, w)
    requires !Exact(cells[i], o, w)
    ensures Scanned(cells, o, w, i + 1, Extend(a, cells[i]))
  {
    var n := i + 1;
    forall j ensures Met(cells, o, w, n, j) <==> Met(cells, o, w, i, j) || (j == i && cells[i].Overlapping(o, w)) {
      MetGrows(cells, o, w, i, j);
    }
    assert Met(cells, o, w, i + 1, i);
    if a.total == 0 {
      HullStarts(cells, o, w, i);
    } else {
      HullHit(cells, o, w, i, a.lo, a.total, a.last);
    }
  }

  /** The maximal end of the scan is the end of the last overlapping cell, or 0 if that is negative. */
  lemma ScanEnds(cells: seq<Cell>, o: int, w: int, i: nat, a: Scan)
    requires Shaped(cells) && w > 0 && i < |cells|
    requires Scanned(cells, o, w, i, a) && cells[i].Overlapping(o, w)
    ensures Totals(Extend(a, cells[i])) ==
      (Min(cells[i].offset, a.lo), a.total + cells[i].width, Max(cells[i].End(), Max(a.last, 0)), a.allNum && MustBeNum(cells[i].dom))
  {}

  /** The accumulators after one more overlapping cell that is not the exact one. */
  lemma ScanStep(cells: seq<Cell>, o: int, w: int, i: nat, a: Scan) returns (b: Scan)
    requires Shaped(cells) && w > 0 && i < |cells|
    requires Scanned(cells, o, w, i, a) && cells[i].Overlapping(o, w) && !Exact(cells[i], o, w)
    ensures Scanned(cells, o, w, i + 1, b)
    ensures Totals(b) == (Min(cells[i].offset, Totals(a).0), Totals(a).1 + cells[i].width, Max(cells[i].End(), Totals(a).2),
                          Totals(a).3 && MustBeNum(cells[i].dom))
  {
    ScanEnds(cells, o, w, i, a);
    ScanHit(cells, o, w, i, a);
    b := Extend(a, cells[i]);
  }

  lemma NothingScanned(cells: seq<Cell>, o: int, w: int)
    requires Shaped(cells) && w > 0 && forall j :: !Met(cells, o, w, |cells|, j)
    ensures !NumericRange(cells, o, w)
  {
    forall c | c in cells
      ensures !c.Covers(o)
    {
      var j := OnePosition(cells, c);
      assert !Met(cells, o, w, |cells|, j);
    }
    assert !NumericAt(cells, o);
  }

  /** The overlapping cells tile their hull exactly when their widths add up to it. */
  lemma ScannedMeaning(cells: seq<Cell>, o: int, w: int, a: Scan)
    requires Shaped(cells) && w > 0 && a.total > 0
    requires Scanned(cells, o, w, |cells|, a)
    ensures NumericRange(cells, o, w) && EndsFromZero(cells, o + w - 1) <==>
      a.lo <= o && Max(a.last, 0) >= o + w && a.allNum && a.lo + a.total >= Max(a.last, 0)
  {
    if a.lo <= o && Max(a.last, 0) >= o + w && a.allNum && a.lo + a.total >= Max(a.last, 0) {
      TiledIsNumeric(cells, o, w, a);
    }
    if NumericRange(cells, o, w) && EndsFromZero(cells, o + w - 1) {
      NumericIsTiled(cells, o, w, a);
    }
  }

  lemma TiledIsNumeric(cells: seq<Cell>, o: int, w: int, a: Scan)
    requires Shaped(cells) && w > 0 && a.total > 0
    requires Scanned(cells, o, w, |cells|, a)
    requires a.lo <= o && Max(a.last, 0) >= o + w && a.allNum && a.lo + a.total >= Max(a.last, 0)
    ensures NumericRange(cells, o, w) && EndsFromZero(cells, o + w - 1)
  {
    forall k | o <= k < o + w
      ensures NumericAt(cells, k)
    {
      assert SeenAt(cells, |cells|, k);
      var j :| 0 <= j < |cells| && cells[j].Covers(k);
      assert Met(cells, o, w, |cells|, j);
    }
    TiledEnds(cells, o, w, a);
  }

  /** The last byte of a tiled range lies in the last overlapping cell. */
  lemma TiledEnds(cells: seq<Cell>, o: int, w: int, a: Scan)
    requires Shaped(cells) && w > 0 && a.total > 0
    requires Scanned(cells, o, w, |cells|, a)
    requires a.lo <= o && Max(a.last, 0) >= o + w && a.lo + a.total >= Max(a.last, 0)
    ensures EndsFromZero(cells, o + w - 1)
  {
    assert SeenAt(cells, |cells|, o + w - 1);
    var j :| 0 <= j < |cells| && cells[j].Covers(o + w - 1);
    assert Met(cells, o, w, |cells|, j);
    var j0 :| Met(cells, o, w, |cells|, j0) && cells[j0].End() == a.last;
    HitIsOverlapping(cells[j0], o, w);
    assert j0 <= j;
    assert j <= j0;
  }

  lemma AllNumeric(cells: seq<Cell>, o: int, w: int, j: int)
    requires Shaped(cells) && w > 0 && NumericRange(cells, o, w) && Met(cells, o, w, |cells|, j)
    ensures MustBeNum(cells[j].dom)
  {
    var k := Max(o, cells[j].offset);
    assert NumericAt(cells, k);
    var c :| c in cells && c.Covers(k) && MustBeNum(c.dom);
    OneCover(cells, c, cells[j], k);
  }

  lemma HullSeen(cells: seq<Cell>, o: int, w: int, lo: int, total: int, last: int, k: int)
    requires Shaped(cells) && w > 0 && NumericRange(cells, o, w) && Hull(cells, o, w, |cells|, lo, total, last)
    requires lo <= k < last
    ensures SeenAt(cells, |cells|, k)
  {
    if k < o {
      var low :| Met(cells, o, w, |cells|, low) && cells[low].offset == lo;
      assert cells[low].Covers(k);
    } else if k >= o + w {
      var high :| Met(cells, o, w, |cells|, high) && cells[high].End() == last;
      assert cells[high].Covers(k);
    } else {
      assert NumericAt(cells, k);
      var c :| c in cells && c.Covers(k) && MustBeNum(c.dom);
      var j := OnePosition(cells, c);
    }
  }

  lemma RangeStarts(cells: seq<Cell>, o: int, w: int, a: Scan)
    requires Shaped(cells) && w > 0 && Scanned(cells, o, w, |cells|, a) && NumericRange(cells, o, w)
    ensures a.lo <= o
  {
    assert NumericAt(cells, o);
    var first :| first in cells && first.Covers(o) && MustBeNum(first.dom);
    var i := OnePosition(cells, first);
    assert Met(cells, o, w, |cells|, i);
  }

  lemma RangeEnds(cells: seq<Cell>, o: int, w: int, a: Scan)
    requires Shaped(cells) && w > 0 && Scanned(cells, o, w, |cells|, a) && EndsFromZero(cells, o + w - 1)
    ensures Max(a.last, 0) >= o + w
  {
    var end :| end in cells && end.Covers(o + w - 1) && end.End() >= 0;
    var j := OnePosition(cells, end);
    assert Met(cells, o, w, |cells|, j);
  }

  lemma NumericIsTiled(cells: seq<Cell>, o: int, w: int, a: Scan)
    requires Shaped(cells) && w > 0 && a.total > 0
    requires Scanned(cells, o, w, |cells|, a)
    requires NumericRange(cells, o, w) && EndsFromZero(cells, o + w - 1)
    ensures a.lo <= o && Max(a.last, 0) >= o + w && a.allNum && a.lo + a.total >= Max(a.last, 0)
  {
    RangeStarts(cells, o, w, a);
    RangeEnds(cells, o, w, a);
    forall j | Met(cells, o, w, |cells|, j)
      ensures MustBeNum(cells[j].dom)
    {
      AllNumeric(cells, o, w, j);
    }
    forall k | a.lo <= k < a.last
      ensures SeenAt(cells, |cells|, k)
    {
      HullSeen(cells, o, w, a.lo, a.total, a.last, k);
    }
  }

  lemma ScanStarts(cells: seq<Cell>, o: int, w: int)
    ensures Scanned(cells, o, w, 0, Scan(MAX_OFFSET, 0, 0, true))
  {}

  lemma ScannedNoCell(cells: seq<Cell>, o: int, w: int, a: Scan)
    requires Scanned(cells, o, w, |cells|, a)
    ensures !HasCell(cells, o, w)
  {}

  /** The accumulators at the end of the scan decide the load. */
  lemma ScanDecides(cells: seq<Cell>, o: int, w: int, a: Scan)
    requires Shaped(cells) && w > 0
    requires Scanned(cells, o, w, |cells|, a)
    ensures Loaded(cells, S.Single(o), w) ==
      if a.total > 0 && a.lo <= o && Max(a.last, 0) >= o + w && a.allNum && a.lo + a.total >= Max(a.last, 0) then NumTop else Top
  {
    ScannedNoCell(cells, o, w, a);
    if a.total == 0 {
      NothingScanned(cells, o, w);
    } else {
      ScannedMeaning(cells, o, w, a);
    }
  }
}
