/**
  What the stack domain means for concrete memories: soundness and precision
  of load, store and join.
 */
module MemTheory {
  import opened Rcp
  import opened ByteMemory
  import opened Cells
  import opened JoinWalk
  import opened LoadScan
  import opened StorePieces
  import opened MemDom
  import S = SetDomains

  /** The memories a domain value describes: each cell says what a read of its extent yields. */
  ghost predicate Describes(m: MemVal, mem: Memory) {
    !m.bot && forall c :: c in m.cells ==> Holds(c, mem)
  }

  ghost predicate Holds(c: Cell, mem: Memory) {
    c.width >= 0 && Contains(c.dom, Read(mem, c.offset, c.width))
  }

  lemma TopContainsRead(mem: Memory, o: int, w: nat)
    ensures Contains(Top, Read(mem, o, w))
  {}

  /** Any part of a described cell is described by the part of its value. */
  lemma PartDescribed(c: Cell, lo: int, hi: int, mem: Memory)
    requires c.offset <= lo < hi <= c.End() && Holds(c, mem)
    ensures Contains(PartOf(c, lo, hi), Read(mem, lo, hi - lo))
  {
    if !(lo == c.offset && hi == c.End()) {
      if MustBeNum(c.dom) {
        MustBeNumMeaning(c.dom, Read(mem, c.offset, c.width));
        assert AllData(mem, lo, hi - lo);
      } else {
        TopContainsRead(mem, lo, hi - lo);
      }
    }
  }

  /* ----- join ----- */

  lemma MeetCovers(a: Cell, b: Cell, x: Cell, k: int)
    requires IsMeet(a, b, x)
    ensures x.Covers(k) <==> a.Covers(k) && b.Covers(k)
  {}

  lemma MeetDescribed(a: Cell, b: Cell, x: Cell, mem: Memory)
    requires Overlap(a, b) && a.width > 0 && b.width > 0 && IsMeet(a, b, x)
    requires Holds(a, mem) || Holds(b, mem)
    ensures Holds(x, mem)
  {
    var lo, hi := x.offset, x.End();
    var v := Read(mem, x.offset, x.width);
    if Holds(a, mem) {
      PartDescribed(a, lo, hi, mem);
    } else {
      PartDescribed(b, lo, hi, mem);
    }
    JoinExact(PartOf(a, lo, hi), PartOf(b, lo, hi), v);
    JoinExact(PartOf(b, lo, hi), PartOf(a, lo, hi), v);
  }

  /** Every memory described by either operand of the in-place join is described by its result. */
  lemma JoinSound(a: MemVal, b: MemVal, r: MemVal, mem: Memory)
    requires WellFormed(a) && WellFormed(b) && JoinOf(a, b, r)
    requires Describes(a, mem) || Describes(b, mem)
    ensures Describes(r, mem)
  {
    if !a.bot && !b.bot && !a.IsTop() && !b.IsTop() {
      forall x | x in r.cells
        ensures Holds(x, mem)
      {
        var c, d :| c in a.cells && d in b.cells && Overlap(c, d) && IsMeet(c, d, x);
        MeetDescribed(c, d, x, mem);
      }
    }
  }

  lemma JoinedCovers(A: seq<Cell>, B: seq<Cell>, R: seq<Cell>, k: int)
    requires Joined(A, B, R)
    ensures Covered(R, k) <==> Covered(A, k) && Covered(B, k)
  {
    if Covered(R, k) {
      var x :| x in R && x.Covers(k);
      var c, d :| c in A && d in B && Overlap(c, d) && IsMeet(c, d, x);
      MeetCovers(c, d, x, k);
    }
    if Covered(A, k) && Covered(B, k) {
      var c :| c in A && c.Covers(k);
      var d :| d in B && d.Covers(k);
      assert Overlap(c, d);
      MeetCovers(c, d, MeetCell(c, d), k);
      MeetCovers(c, d, MeetCell(d, c), k);
    }
  }

  /** The join covers exactly the bytes that both operands cover. */
  lemma JoinCoverage(a: MemVal, b: MemVal, r: MemVal, k: int)
    requires WellFormed(a) && WellFormed(b) && JoinOf(a, b, r) && !a.bot && !b.bot
    ensures Covered(r.cells, k) <==> Covered(a.cells, k) && Covered(b.cells, k)
  {
    if !a.IsTop() && !b.IsTop() {
      JoinedCovers(a.cells, b.cells, r.cells, k);
    }
  }

  lemma NumericIncluded(d: Rcp)
    requires MustBeNum(d)
    ensures Included(d, NumTop)
  {}

  lemma IncludedInTop(d: Rcp)
    ensures Included(d, Top)
  {}

  /** The load of a part of one cell gives what the cell says about that part. */
  lemma LoadInsideCell(cells: seq<Cell>, c: Cell, o: int, w: int)
    requires Shaped(cells) && c in cells && w > 0 && c.offset <= o && o + w <= c.End() && o + w >= 0
    ensures Loaded(cells, S.Single(o), w) == PartOf(c, o, o + w)
  {
    if Exact(c, o, w) {
      LoadedCell(cells, c);
    } else {
      assert !HasCell(cells, o, w) by {
        if d :| d in cells && d.offset == o && d.width == w {
          OneCover(cells, c, d, o);
          assert false;
        }
      }
      if MustBeNum(c.dom) {
        forall k | o <= k < o + w
          ensures NumericAt(cells, k)
        {
          assert c.Covers(k);
        }
        assert c.Covers(o + w - 1);
      } else if NumericRange(cells, o, w) {
        assert NumericAt(cells, o);
        var d :| d in cells && d.Covers(o) && MustBeNum(d.dom);
        OneCover(cells, c, d, o);
        assert false;
      }
    }
  }

  /** A range that lies in all-numeric cells loads some number. */
  lemma LoadNumericRange(cells: seq<Cell>, o: int, w: int)
    requires Shaped(cells) && w > 0 && NumericRange(cells, o, w) && EndsFromZero(cells, o + w - 1)
    ensures Included(Loaded(cells, S.Single(o), w), NumTop)
  {
    if HasCell(cells, o, w) {
      var c :| c in cells && c.offset == o && c.width == w;
      LoadedCell(cells, c);
      assert NumericAt(cells, o);
      var d :| d in cells && d.Covers(o) && MustBeNum(d.dom);
      OneCover(cells, c, d, o);
      NumericIncluded(c.dom);
    }
  }

  lemma PartMustBeNum(c: Cell, lo: int, hi: int)
    ensures MustBeNum(PartOf(c, lo, hi)) <==> MustBeNum(c.dom)
  {}

  lemma MeetMustBeNum(a: Cell, b: Cell, x: Cell)
    requires IsMeet(a, b, x)
    ensures MustBeNum(x.dom) <==> MustBeNum(a.dom) && MustBeNum(b.dom)
  {
    var lo, hi := x.offset, x.End();
    PartMustBeNum(a, lo, hi);
    PartMustBeNum(b, lo, hi);
    JoinMustBeNum(PartOf(a, lo, hi), PartOf(b, lo, hi));
    JoinMustBeNum(PartOf(b, lo, hi), PartOf(a, lo, hi));
  }

  lemma LoadOverMeet(A: seq<Cell>, a: Cell, b: Cell, x: Cell)
    requires Shaped(A) && a in A && Overlap(a, b) && b.width > 0 && x.End() >= 0
    requires IsMeet(a, b, x) || IsMeet(b, a, x)
    ensures Included(Loaded(A, S.Single(x.offset), x.width), x.dom)
  {
    LoadInsideCell(A, a, x.offset, x.width);
    JoinIncludes(PartOf(a, x.offset, x.End()), PartOf(b, x.offset, x.End()));
    JoinIncludes(PartOf(b, x.offset, x.End()), PartOf(a, x.offset, x.End()));
  }

  lemma NumericBehindMeet(a: Cell, b: Cell, x: Cell, k: int)
    requires IsMeet(a, b, x) && x.Covers(k)
    ensures a.Covers(k) && b.Covers(k) && x.End() <= a.End() && x.End() <= b.End()
    ensures MustBeNum(x.dom) ==> MustBeNum(a.dom) && MustBeNum(b.dom)
  {
    MeetMustBeNum(a, b, x);
    MeetCovers(a, b, x, k);
  }

  /** A numeric byte of the join is a numeric byte of both operands, in cells that end no earlier. */
  lemma NumericBehind(A: seq<Cell>, B: seq<Cell>, R: seq<Cell>, k: int)
    requires Joined(A, B, R)
    ensures NumericAt(R, k) ==> NumericAt(A, k) && NumericAt(B, k)
    ensures EndsFromZero(R, k) ==> EndsFromZero(A, k) && EndsFromZero(B, k)
  {
    if NumericAt(R, k) {
      var x :| x in R && x.Covers(k) && MustBeNum(x.dom);
      var a, b :| a in A && b in B && Overlap(a, b) && IsMeet(a, b, x);
      NumericBehindMeet(a, b, x, k);
    }
    if EndsFromZero(R, k) {
      var x :| x in R && x.Covers(k) && x.End() >= 0;
      var a, b :| a in A && b in B && Overlap(a, b) && IsMeet(a, b, x);
      NumericBehindMeet(a, b, x, k);
    }
  }

  lemma LoadOverNumericRange(A: seq<Cell>, B: seq<Cell>, R: seq<Cell>, o: int, w: int)
    requires Shaped(A) && Shaped(B) && Joined(A, B, R) && w > 0
    requires NumericRange(R, o, w) && EndsFromZero(R, o + w - 1)
    ensures Included(Loaded(A, S.Single(o), w), NumTop) && Included(Loaded(B, S.Single(o), w), NumTop)
  {
    forall k | o <= k < o + w
      ensures NumericAt(A, k) && NumericAt(B, k)
    {
      assert NumericAt(R, k);
      NumericBehind(A, B, R, k);
    }
    NumericBehind(A, B, R, o + w - 1);
    LoadNumericRange(A, o, w);
    LoadNumericRange(B, o, w);
  }

  lemma LoadedRest(cells: seq<Cell>, o: int, w: int)
    requires w > 0 && !HasCell(cells, o, w)
    ensures Loaded(cells, S.Single(o), w) == if NumericRange(cells, o, w) && EndsFromZero(cells, o + w - 1) then NumTop else Top
  {}

  lemma LoadOverCell(A: seq<Cell>, B: seq<Cell>, R: seq<Cell>, x: Cell)
    requires Shaped(A) && Shaped(B) && Joined(A, B, R) && x in R && x.width > 0 && x.End() >= 0
    ensures Included(Loaded(A, S.Single(x.offset), x.width), Loaded(R, S.Single(x.offset), x.width))
    ensures Included(Loaded(B, S.Single(x.offset), x.width), Loaded(R, S.Single(x.offset), x.width))
  {
    LoadedCell(R, x);
    var a, b :| a in A && b in B && Overlap(a, b) && IsMeet(a, b, x);
    LoadOverMeet(A, a, b, x);
    LoadOverMeet(B, b, a, x);
  }

  lemma LoadOverJoinedCells(A: seq<Cell>, B: seq<Cell>, R: seq<Cell>, o: int, w: int)
    requires Shaped(A) && Shaped(B) && Joined(A, B, R) && w > 0 && o + w >= 0
    ensures Included(Loaded(A, S.Single(o), w), Loaded(R, S.Single(o), w))
    ensures Included(Loaded(B, S.Single(o), w), Loaded(R, S.Single(o), w))
  {
    if HasCell(R, o, w) {
      var x :| x in R && x.offset == o && x.width == w;
      LoadOverCell(A, B, R, x);
    } else if NumericRange(R, o, w) && EndsFromZero(R, o + w - 1) {
      LoadedRest(R, o, w);
      LoadOverNumericRange(A, B, R, o, w);
    } else {
      LoadedRest(R, o, w);
      IncludedInTop(Loaded(A, S.Single(o), w));
      IncludedInTop(Loaded(B, S.Single(o), w));
    }
  }

  /** Loading after a join gives, component by component, at least what either operand gave. */
  lemma LoadOverJoin(a: MemVal, b: MemVal, r: MemVal, offsets: S.IntSet, w: int)
    requires WellFormed(a) && WellFormed(b) && JoinOf(a, b, r) && !a.bot && !b.bot && w > 0
    requires offsets.IsSingle() ==> offsets.elems[0] + w >= 0
    ensures Included(Loaded(a.cells, offsets, w), Loaded(r.cells, offsets, w))
    ensures Included(Loaded(b.cells, offsets, w), Loaded(r.cells, offsets, w))
  {
    IncludedInTop(Loaded(a.cells, offsets, w));
    IncludedInTop(Loaded(b.cells, offsets, w));
    if offsets.IsSingle() {
      assert offsets == S.Single(offsets.elems[0]);
      if a.IsTop() || b.IsTop() {
        assert Loaded([], offsets, w) == Top by { assert !NumericAt([], offsets.elems[0]); }
      } else {
        LoadOverJoinedCells(a.cells, b.cells, r.cells, offsets.elems[0], w);
      }
    }
  }

  /* ----- load ----- */

  /** Every concrete read of the range lies in what the load returns. */
  lemma LoadSound(m: MemVal, offsets: S.IntSet, w: int, mem: Memory, o: int)
    requires WellFormed(m) && w > 0 && Describes(m, mem) && offsets.Has(o)
    ensures Contains(Loaded(m.cells, offsets, w), Read(mem, o, w))
  {
    if !offsets.IsSingle() {
      TopContainsRead(mem, o, w);
    } else if HasCell(m.cells, o, w) {
      var c :| c in m.cells && c.offset == o && c.width == w;
      assert offsets == S.Single(o);
      LoadedCell(m.cells, c);
    } else if NumericRange(m.cells, o, w) && EndsFromZero(m.cells, o + w - 1) {
      forall k | o <= k < o + w
        ensures mem(k).Data?
      {
        assert NumericAt(m.cells, k);
        var c :| c in m.cells && c.Covers(k) && MustBeNum(c.dom);
        MustBeNumMeaning(c.dom, Read(mem, c.offset, c.width));
      }
      assert AllData(mem, o, w);
    } else {
      TopContainsRead(mem, o, w);
    }
  }

  /* ----- store ----- */

  /** The state after a store, as the method leaves it. */
  ghost predicate StoreOf(m: MemVal, offsets: S.IntSet, w: int, v: Rcp, r: MemVal) {
    !r.bot && if offsets.IsSingle() then StoredCells(m.cells, offsets.elems[0], w, v, r.cells) else r.cells == []
  }

  lemma LeftoverDescribed(c: Cell, o: int, w: nat, x: Cell, mem: Memory, v: Word)
    requires Holds(c, mem) && c.width > 0
    requires Hit(c, o, w) && Leftover(c, o, w, x)
    ensures Holds(x, Write(mem, o, w, v))
  {
    assert x.dom == PartOf(c, x.offset, x.End());
    PartDescribed(c, x.offset, x.End(), mem);
    ReadFrame(mem, Write(mem, o, w, v), x.offset, x.width);
  }

  /** After a store every cell but the new one describes the written memory. */
  lemma OtherCellsDescribed(m: MemVal, o: int, w: nat, d: Rcp, r: MemVal, mem: Memory, v: Word, x: Cell)
    requires WellFormed(m) && w > 0 && Describes(m, mem) && StoreOf(m, S.Single(o), w, d, r)
    requires x in r.cells && x != Cell(o, w, d)
    ensures Holds(x, Write(mem, o, w, v))
  {
    if x in m.cells && !Hit(x, o, w) {
      ReadFrame(mem, Write(mem, o, w, v), x.offset, x.width);
    } else {
      var c :| c in m.cells && Hit(c, o, w) && Leftover(c, o, w, x);
      LeftoverDescribed(c, o, w, x, mem, v);
    }
  }

  /** Storing describes the written memory exactly when the stored value describes what its bytes spell. */
  lemma StoreDescribesIff(m: MemVal, o: int, w: nat, d: Rcp, r: MemVal, mem: Memory, v: Word)
    requires WellFormed(m) && w > 0 && Describes(m, mem) && StoreOf(m, S.Single(o), w, d, r)
    ensures Describes(r, Write(mem, o, w, v)) <==> Contains(d, Stored(v, w))
  {
    var mem' := Write(mem, o, w, v);
    ReadBack(mem, o, w, v);
    assert Cell(o, w, d) in r.cells;
    forall x | x in r.cells && x != Cell(o, w, d)
      ensures Holds(x, mem')
    {
      OtherCellsDescribed(m, o, w, d, r, mem, v, x);
    }
  }

  /** A store is sound for every value that fits its width; an offset that is not single gives top. */
  lemma StoreSound(m: MemVal, offsets: S.IntSet, w: nat, d: Rcp, r: MemVal, mem: Memory, o: int, v: Word)
    requires WellFormed(m) && w > 0 && Describes(m, mem) && StoreOf(m, offsets, w, d, r)
    requires offsets.Has(o) && Contains(d, v) && Fits(v, w)
    ensures Describes(r, Write(mem, o, w, v))
  {
    if offsets.IsSingle() {
      assert offsets == S.Single(o);
      StoreDescribesIff(m, o, w, d, r, mem, v);
      StoredFits(v, w);
    }
  }

  /** Every number of the stored value keeps its place when cut to the width, and pointers are only stored whole. */
  ghost predicate ClosedUnderStore(d: Rcp, w: nat) {
    forall v :: Contains(d, v) ==> Contains(d, Stored(v, w))
  }

  predicate NumbersFit(d: Rcp, w: nat) {
    d.num.top || forall n | n in d.num.elems :: Truncate(n, w) in d.num.elems
  }

  predicate AllOffsetsTop(d: Rcp) {
    (forall i | 0 <= i < NMAPS :: d.maps[i].top) && d.ctx.top && d.stack.top && d.packet.top
  }

  /** Cutting each number leaves a number of the value; anything else is stored whole, or absent, or the value describes mixtures. */
  predicate SafeToStore(d: Rcp, w: nat) {
    NumbersFit(d, w) && (w == PTR_WIDTH || (NoPointer(d) && d.fds == {}) || (d.num.top && AllOffsetsTop(d)))
  }

  lemma OffsetsTopIff(d: Rcp)
    ensures AllOffsetsTop(d) <==> forall r | IsRegion(r) :: Offsets(d, r).top
  {
    assert forall i | 0 <= i < NMAPS :: d.maps[i] == Offsets(d, MapValue(i));
    assert IsRegion(CtxMem) && IsRegion(StackMem) && IsRegion(PacketMem);
  }

  lemma SafeIsClosed(d: Rcp, w: nat, v: Word)
    requires SafeToStore(d, w) && Contains(d, v)
    ensures Contains(d, Stored(v, w))
  {
    OffsetsTopIff(d);
    MustBeNumByRegion(d);
    assert NoPointer(d) && d.fds == {} ==> MustBeNum(d);
  }

  lemma ClosedIsSafe(d: Rcp, w: nat)
    requires ClosedUnderStore(d, w)
    ensures SafeToStore(d, w)
  {
    OffsetsTopIff(d);
    forall n | n in d.num.elems
      ensures Truncate(n, w) in d.num.elems || d.num.top
    {
      assert Contains(d, Num(n)) && Contains(d, Stored(Num(n), w));
    }
    if w != PTR_WIDTH && !(NoPointer(d) && d.fds == {}) {
      var v := TaggedWitness(d);
      assert Contains(d, Stored(v, w));
    }
  }

  /** A pointer or map descriptor that d describes. */
  lemma TaggedWitness(d: Rcp) returns (v: Word)
    requires !(NoPointer(d) && d.fds == {})
    ensures Contains(d, v) && (v.Ptr? || v.MapFd?)
  {
    if d.fds != {} {
      var f :| f in d.fds;
      v := MapFd(f);
    } else {
      MustBeNumByRegion(d);
      var r :| IsRegion(r) && !Offsets(d, r).IsBot();
      var k := SetWitness(Offsets(d, r));
      v := Ptr(r, k);
    }
  }

  /**
    A store of d is a sound strong update for all its words exactly when its
    numbers fit the width and no pointer or descriptor is cut.
   */
  lemma StoreSoundIff(m: MemVal, o: int, w: nat, d: Rcp, r: MemVal, mem: Memory)
    requires WellFormed(m) && w > 0 && Describes(m, mem) && StoreOf(m, S.Single(o), w, d, r)
    ensures (forall v :: Contains(d, v) ==> Describes(r, Write(mem, o, w, v))) <==> SafeToStore(d, w)
  {
    forall v
      ensures Describes(r, Write(mem, o, w, v)) <==> Contains(d, Stored(v, w))
    {
      StoreDescribesIff(m, o, w, d, r, mem, v);
    }
    if SafeToStore(d, w) {
      forall v | Contains(d, v)
        ensures Describes(r, Write(mem, o, w, v))
      {
        SafeIsClosed(d, w, v);
      }
    }
    if forall v :: Contains(d, v) ==> Describes(r, Write(mem, o, w, v)) {
      ClosedIsSafe(d, w);
    }
  }

  /** A number wider than its store: the stored value no longer describes the bytes. */
  lemma WideStoreUnsound(m: MemVal, r: MemVal, mem: Memory)
    requires WellFormed(m) && Describes(m, mem) && StoreOf(m, S.Single(0), 4, Number(0x1_0000_0000), r)
    ensures Contains(Number(0x1_0000_0000), Num(0x1_0000_0000))
    ensures !Describes(r, Write(mem, 0, 4, Num(0x1_0000_0000)))
  {
    StoreDescribesIff(m, 0, 4, Number(0x1_0000_0000), r, mem, Num(0x1_0000_0000));
    TruncateIsRemainder(0x1_0000_0000, 4);
    assert Pow256(4) == 0x1_0000_0000 by {
      assert Pow256(1) == 256 && Pow256(2) == 65536 && Pow256(3) == 16777216;
    }
    assert !(0x1_0000_0000 < Pow256(4));
  }

  /** A store covers the old bytes and the written range. */
  lemma StoreCoverage(before: seq<Cell>, o: int, w: int, v: Rcp, after: seq<Cell>, k: int)
    requires Shaped(before) && w > 0 && StoredCells(before, o, w, v, after)
    ensures Covered(after, k) <==> Covered(before, k) || o <= k < o + w
  {
    if Covered(after, k) {
      var x :| x in after && x.Covers(k);
      if IsLeftover(before, o, w, x) {
        var c :| c in before && Hit(c, o, w) && Leftover(c, o, w, x);
        assert c.Covers(k);
      }
    }
    if o <= k < o + w {
      assert Cell(o, w, v) in after && Cell(o, w, v).Covers(k);
    } else if Covered(before, k) {
      var c :| c in before && c.Covers(k);
      var x := SurvivingPart(before, o, w, v, after, c, k);
    }
  }

  /** A byte outside the written range stays in a cell with the same number status. */
  lemma SurvivingPart(before: seq<Cell>, o: int, w: int, v: Rcp, after: seq<Cell>, c: Cell, k: int) returns (x: Cell)
    requires Shaped(before) && w > 0 && StoredCells(before, o, w, v, after)
    requires c in before && c.Covers(k) && !(o <= k < o + w)
    ensures x in after && x.Covers(k) && (MustBeNum(x.dom) <==> MustBeNum(c.dom))
    ensures x == c || (Hit(c, o, w) && Leftover(c, o, w, x))
  {
    if Hit(c, o, w) {
      x := if k < o then FromRange(c.offset, o, Partial(c.dom)) else FromRange(o + w, c.End(), Partial(c.dom));
      assert Leftover(c, o, w, x);
      assert IsLeftover(before, o, w, x);
      PartMustBeNum(c, x.offset, x.End());
    } else {
      x := c;
    }
  }

  /** Reading back what was stored gives exactly the stored value. */
  lemma LoadAfterStore(before: seq<Cell>, o: int, w: int, v: Rcp, after: seq<Cell>)
    requires w > 0 && StoredCells(before, o, w, v, after)
    ensures Loaded(after, S.Single(o), w) == v
  {
    assert Cell(o, w, v) in after;
    LoadedCell(after, Cell(o, w, v));
  }

  lemma NumericElsewhere(before: seq<Cell>, o: int, w: int, v: Rcp, after: seq<Cell>, k: int)
    requires Shaped(before) && w > 0 && StoredCells(before, o, w, v, after) && !(o <= k < o + w)
    ensures NumericAt(after, k) <==> NumericAt(before, k)
  {}

  lemma NumericRangeElsewhere(before: seq<Cell>, o: int, w: int, v: Rcp, after: seq<Cell>, p: int, u: int)
    requires Shaped(before) && w > 0 && StoredCells(before, o, w, v, after)
    requires p + u <= o || o + w <= p
    ensures NumericRange(after, p, u) <==> NumericRange(before, p, u)
  {
    forall k | p <= k < p + u
      ensures NumericAt(after, k) <==> NumericAt(before, k)
    {
      NumericElsewhere(before, o, w, v, after, k);
    }
  }

  lemma LoadInsideElsewhere(before: seq<Cell>, o: int, w: int, v: Rcp, after: seq<Cell>, p: int, u: int, c: Cell)
    requires Shaped(before) && w > 0 && StoredCells(before, o, w, v, after)
    requires u > 0 && p + u >= 0 && (p + u <= o || o + w <= p)
    requires c in before && c.Covers(p) && c.Covers(p + u - 1)
    ensures Loaded(after, S.Single(p), u) == Loaded(before, S.Single(p), u)
  {
    var x := SurvivingPart(before, o, w, v, after, c, p);
    LoadInsideCell(before, c, p, u);
    LoadInsideCell(after, x, p, u);
  }

  /** A load of a range that the store misses returns exactly what it returned before, cut cells included. */
  lemma LoadElsewhere(before: seq<Cell>, o: int, w: int, v: Rcp, after: seq<Cell>, p: int, u: int)
    requires Shaped(before) && w > 0 && StoredCells(before, o, w, v, after)
    requires u > 0 && p + u >= 0 && (p + u <= o || o + w <= p)
    ensures Loaded(after, S.Single(p), u) == Loaded(before, S.Single(p), u)
  {
    if c :| c in before && c.Covers(p) && c.Covers(p + u - 1) {
      LoadInsideElsewhere(before, o, w, v, after, p, u, c);
    } else {
      NoCellAcross(before, p, u);
      NoCellAcrossAfter(before, o, w, v, after, p, u);
      NumericRangeElsewhere(before, o, w, v, after, p, u);
      if NumericRange(before, p, u) {
        EndsFromNumeric(before, p, u);
        EndsFromNumeric(after, p, u);
      }
    }
  }

  lemma NoCellAcross(cells: seq<Cell>, p: int, u: int)
    requires u > 0 && forall c :: c in cells ==> !(c.Covers(p) && c.Covers(p + u - 1))
    ensures !HasCell(cells, p, u)
  {}

  lemma NoCellAcrossAfter(before: seq<Cell>, o: int, w: int, v: Rcp, after: seq<Cell>, p: int, u: int)
    requires w > 0 && u > 0 && StoredCells(before, o, w, v, after) && (p + u <= o || o + w <= p)
    requires forall c :: c in before ==> !(c.Covers(p) && c.Covers(p + u - 1))
    ensures !HasCell(after, p, u)
  {}

  lemma EndsFromNumeric(cells: seq<Cell>, p: int, u: int)
    requires u > 0 && p + u >= 0 && NumericRange(cells, p, u)
    ensures EndsFromZero(cells, p + u - 1)
  {
    assert NumericAt(cells, p + u - 1);
    var c :| c in cells && c.Covers(p + u - 1) && MustBeNum(c.dom);
  }
}
