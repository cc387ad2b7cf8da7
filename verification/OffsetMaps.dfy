/**
  The map from offsets to cells: insertion, removal, and the overlap search
  with its early exits.
 */
module OffsetMaps {
  import opened Syntax
  import opened ArrayCells

  ghost predicate Disjoint(bs: seq<Binding>) {
    forall c, d :: InMap(bs, c) && InMap(bs, d) && !Same(c, d) ==> !Overlaps(c, d.offset, d.size)
  }

  predicate IsAt(c: ACell, o: nat, size: nat) {
    c.offset == o && c.size == size
  }

  /** A cell other than (o, size) that has a byte in common with it. */
  predicate Hits(c: ACell, o: nat, size: nat) {
    Overlaps(c, o, size) && !IsAt(c, o, size)
  }

  ghost predicate HasCell(bs: seq<Binding>, o: nat, size: nat) {
    exists c :: InMap(bs, c) && IsAt(c, o, size)
  }

  /** r has the cells of bs and c. */
  ghost predicate WithCell(bs: seq<Binding>, c: ACell, r: seq<Binding>) {
    forall d :: InMap(r, d) <==> InMap(bs, d) || d == c
  }

  /** r has the cells of bs that differ from c in offset or size. */
  ghost predicate WithoutCell(bs: seq<Binding>, c: ACell, r: seq<Binding>) {
    forall d :: InMap(r, d) <==> InMap(bs, d) && !Same(d, c)
  }

  lemma ReplacedGroup(bs: seq<Binding>, o: nat, cells: seq<ACell>, d: ACell)
    requires Kept(bs) && cells != [] && Group(cells, o)
    ensures Kept(InsertKey(RemoveKey(bs, o), o, cells))
    ensures InMap(InsertKey(RemoveKey(bs, o), o, cells), d) <==> if d.offset == o then d in cells else InMap(bs, d)
  {
    RemoveKeyIs(bs, o);
    InsertKeyIs(RemoveKey(bs, o), o, cells);
    RemoveKeyLaw(bs, o, d.offset);
    RemoveKeyLaw(bs, o, o);
    InsertKeyLaw(RemoveKey(bs, o), o, cells, d.offset);
  }

  lemma GroupAt(bs: seq<Binding>, o: nat)
    requires Kept(bs) && Lookup(bs, o).Some?
    ensures Group(Lookup(bs, o).value, o) && Lookup(bs, o).value != []
  {}

  lemma CellAt(bs: seq<Binding>, o: nat, size: nat)
    requires Kept(bs)
    ensures HasCell(bs, o, size) <==> Lookup(bs, o).Some? && FindSize(Lookup(bs, o).value, size).Some?
  {
    if Lookup(bs, o).Some? {
      GroupAt(bs, o);
      var cells := Lookup(bs, o).value;
      FindSizeIs(cells, size);
      if FindSize(cells, size).Some? {
        var c := FindSize(cells, size).value;
        assert InMap(bs, c) && IsAt(c, o, size);
      }
    }
  }

  /** The bindings after insert_cell, when no cell with c's extent is there. */
  function Inserted(bs: seq<Binding>, c: ACell): seq<Binding> {
    match Lookup(bs, c.offset)
    case Some(cells) => InsertKey(RemoveKey(bs, c.offset), c.offset, InsertBySize(cells, c))
    case None => InsertKey(bs, c.offset, [c])
  }

  lemma InsertedHas(bs: seq<Binding>, c: ACell)
    requires Kept(bs) && c.size > 0 && !HasCell(bs, c.offset, c.size)
    ensures Kept(Inserted(bs, c)) && WithCell(bs, c, Inserted(bs, c))
  {
    CellAt(bs, c.offset, c.size);
    match Lookup(bs, c.offset) {
      case Some(cells) =>
        GroupAt(bs, c.offset);
        InsertGroup(cells, c);
        assert c in InsertBySize(cells, c);
        forall d
          ensures InMap(Inserted(bs, c), d) <==> InMap(bs, d) || d == c
        {
          ReplacedGroup(bs, c.offset, InsertBySize(cells, c), d);
        }
        ReplacedGroup(bs, c.offset, InsertBySize(cells, c), c);
      case None =>
        NoKey(bs, c.offset);
        InsertKeyIs(bs, c.offset, [c]);
        forall d
          ensures InMap(Inserted(bs, c), d) <==> InMap(bs, d) || d == c
        {
          InsertKeyLaw(bs, c.offset, [c], d.offset);
        }
    }
  }

  /** The bindings after remove_cell, when a cell with c's extent is there. */
  function Removed(bs: seq<Binding>, c: ACell): seq<Binding>
    requires Lookup(bs, c.offset).Some?
  {
    var cells := EraseSize(Lookup(bs, c.offset).value, c.size);
    if cells == [] then RemoveKey(bs, c.offset) else InsertKey(RemoveKey(bs, c.offset), c.offset, cells)
  }

  lemma RemovedLacks(bs: seq<Binding>, c: ACell)
    requires Kept(bs) && HasCell(bs, c.offset, c.size)
    ensures Lookup(bs, c.offset).Some?
    ensures Kept(Removed(bs, c)) && WithoutCell(bs, c, Removed(bs, c))
  {
    CellAt(bs, c.offset, c.size);
    GroupAt(bs, c.offset);
    var cells := Lookup(bs, c.offset).value;
    EraseGroup(cells, c.offset, c.size);
    RemoveKeyIs(bs, c.offset);
    forall d
      ensures InMap(Removed(bs, c), d) <==> InMap(bs, d) && !Same(d, c)
    {
      if EraseSize(cells, c.size) == [] {
        RemoveKeyLaw(bs, c.offset, d.offset);
        assert d in cells ==> d.size == c.size;
      } else {
        ReplacedGroup(bs, c.offset, EraseSize(cells, c.size), d);
      }
    }
    if EraseSize(cells, c.size) != [] { ReplacedGroup(bs, c.offset, EraseSize(cells, c.size), c); }
  }

  /* ----- the overlap search ----- */

  predicate NoTwins(out: seq<ACell>) {
    forall i, j :: 0 <= i < j < |out| ==> !Same(out[i], out[j])
  }

  /** out holds, each once, the hits among the bindings numbered from lo to hi. */
  ghost predicate Collected(bs: seq<Binding>, o: nat, size: nat, lo: int, hi: int, out: seq<ACell>) {
    NoTwins(out) && forall c :: c in out <==> HitBetween(bs, o, size, lo, hi, c)
  }

  ghost predicate HitBetween(bs: seq<Binding>, o: nat, size: nat, lo: int, hi: int, c: ACell) {
    Hits(c, o, size) && exists i :: lo <= i < hi && 0 <= i < |bs| && c in bs[i].cells
  }

  ghost predicate SomeOverlap(cells: seq<ACell>, o: nat, size: nat) {
    exists c :: c in cells && Overlaps(c, o, size)
  }

  /** Below an offset whose cells miss [o, o + size), disjoint cells miss it too. */
  lemma EarlierMiss(bs: seq<Binding>, o: nat, size: nat, i: nat, k: nat)
    requires Kept(bs) && size > 0 && k < i < |bs| && bs[i].offset < o
    requires forall c, d :: c in bs[k].cells && d in bs[i].cells ==> !Overlaps(c, d.offset, d.size)
    requires !SomeOverlap(bs[i].cells, o, size)
    ensures !SomeOverlap(bs[k].cells, o, size)
  {
    var d := bs[i].cells[0];
    assert d in bs[i].cells && !Overlaps(d, o, size);
    assert d.offset == bs[i].offset;
    forall c | c in bs[k].cells
      ensures !Overlaps(c, o, size)
    {
      assert !Overlaps(c, d.offset, d.size);
      assert c.offset == bs[k].offset;
    }
  }

  /** Above an offset whose cells miss [o, o + size), all cells miss it. */
  lemma LaterMiss(bs: seq<Binding>, o: nat, size: nat, i: nat, k: nat)
    requires Kept(bs) && size > 0 && i < k < |bs| && bs[i].offset > o
    requires !SomeOverlap(bs[i].cells, o, size)
    ensures !SomeOverlap(bs[k].cells, o, size)
  {
    var d := bs[i].cells[0];
    assert d in bs[i].cells && !Overlaps(d, o, size);
    assert d.offset == bs[i].offset;
    forall c | c in bs[k].cells
      ensures !Overlaps(c, o, size)
    {
      assert c.offset == bs[k].offset;
    }
  }

  /** The search ran over all bindings, or stopped where the rest has no hit. */
  lemma CollectedMore(bs: seq<Binding>, o: nat, size: nat, lo: int, hi: int, lo': int, hi': int, out: seq<ACell>)
    requires Collected(bs, o, size, lo, hi, out) && lo' <= lo <= hi <= hi'
    requires forall k :: 0 <= k < |bs| && (lo' <= k < lo || hi <= k < hi') ==> !SomeOverlap(bs[k].cells, o, size)
    ensures Collected(bs, o, size, lo', hi', out)
  {}

  /** All cells but (o, size) are disjoint from each other. */
  ghost predicate DisjointBut(bs: seq<Binding>, o: nat, size: nat) {
    forall c, d :: InMap(bs, c) && InMap(bs, d) && !Same(c, d) && !IsAt(c, o, size) && !IsAt(d, o, size) ==>
      !Overlaps(c, d.offset, d.size)
  }

  lemma CellOf(bs: seq<Binding>, i: nat, c: ACell)
    requires Kept(bs) && i < |bs| && c in bs[i].cells
    ensures c.offset == bs[i].offset && InMap(bs, c)
  {
    LookupAt(bs, i);
  }

  lemma BindingsApart(bs: seq<Binding>, o: nat, size: nat, i: nat, k: nat)
    requires Kept(bs) && DisjointBut(bs, o, size) && k < i < |bs| && bs[i].offset < o
    ensures forall c, d :: c in bs[k].cells && d in bs[i].cells ==> !Overlaps(c, d.offset, d.size)
  {
    forall c, d | c in bs[k].cells && d in bs[i].cells
      ensures !Overlaps(c, d.offset, d.size)
    {
      CellOf(bs, k, c);
      CellOf(bs, i, d);
      assert bs[k].offset < bs[i].offset;
    }
  }

  /** Adding the hits of one more group, from one end or the other. */
  lemma CollectedGrows(bs: seq<Binding>, o: nat, size: nat, lo: int, hi: int, i: nat, out: seq<ACell>, out': seq<ACell>)
    requires Collected(bs, o, size, lo, hi, out) && i < |bs| && (i == lo - 1 || i == hi) && lo <= hi
    requires NoTwins(out') && forall c :: c in out' <==> c in out || (c in bs[i].cells && Hits(c, o, size))
    ensures i == lo - 1 ==> Collected(bs, o, size, i, hi, out')
    ensures i == hi ==> Collected(bs, o, size, lo, hi + 1, out')
  {}

  /** A hit of the group is not yet listed under another name. */
  lemma GroupFresh(bs: seq<Binding>, o: nat, size: nat, lo: int, hi: int, i: nat, out: seq<ACell>)
    requires Kept(bs) && Collected(bs, o, size, lo, hi, out) && i < |bs|
    ensures forall c, d :: c in bs[i].cells && d in out && Same(c, d) ==> c == d
  {}

  /** std::find, then push_back when nothing was found. */
  method PushAbsent(out: seq<ACell>, x: ACell) returns (r: seq<ACell>)
    requires NoTwins(out)
    ensures NoTwins(r) && (forall c :: c in r ==> c in out || c == x) && forall c :: c in out ==> c in r
    ensures (forall c :: c in out && Same(c, x) ==> c == x) ==> x in r
  {
    var found := false;
    for i := 0 to |out|
      invariant found <==> exists k :: 0 <= k < i && Same(out[k], x)
    {
      if Same(out[i], x) { found := true; }
    }
    r := if found then out else out + [x];
  }

  /** The loop over the cells of one offset: collects its hits and says whether any cell overlaps. */
  method ScanGroup(cells: seq<ACell>, o: nat, size: nat, out: seq<ACell>) returns (r: seq<ACell>, any: bool)
    requires NoTwins(out) && forall c, d :: c in cells && d in out && Same(c, d) ==> c == d
    requires forall c, d :: c in cells && d in cells && Same(c, d) ==> c == d
    ensures NoTwins(r) && forall c :: c in r <==> c in out || (c in cells && Hits(c, o, size))
    ensures any <==> SomeOverlap(cells, o, size)
  {
    r, any := out, false;
    for i := 0 to |cells|
      invariant NoTwins(r) && any == SomeOverlap(cells[..i], o, size)
      invariant forall c :: c in r <==> c in out || (c in cells[..i] && Hits(c, o, size))
    {
      var x := cells[i];
      assert cells[..i + 1] == cells[..i] + [x];
      if Overlaps(x, o, size) {
        if !IsAt(x, o, size) {
          assert x in cells;
          assert forall c :: c in r && Same(c, x) ==> c == x;
          r := PushAbsent(r, x);
        }
        any := true;
      }
    }
    assert cells[..|cells|] == cells;
  }

  /** From o downwards, until an offset none of whose cells overlaps. */
  method ScanDown(bs: seq<Binding>, o: nat, size: nat, lb: nat) returns (out: seq<ACell>)
    requires Kept(bs) && size > 0 && DisjointBut(bs, o, size)
    requires lb < |bs| && bs[lb].offset == o
    requires SomeOverlap(bs[lb].cells, o, size)
    ensures Collected(bs, o, size, 0, lb + 1, out)
  {
    var uptoLb: seq<seq<ACell>> := [];
    for k := 0 to lb + 1
      invariant |uptoLb| == k && forall j :: 0 <= j < k ==> uptoLb[j] == bs[j].cells
    {
      uptoLb := uptoLb + [bs[k].cells];
    }
    out := [];
    var i := |uptoLb| - 1;
    while i >= 0
      invariant -1 <= i <= lb && Collected(bs, o, size, i + 1, lb + 1, out)
    {
      GroupFresh(bs, o, size, i + 1, lb + 1, i, out);
      ghost var before := out;
      var any;
      out, any := ScanGroup(uptoLb[i], o, size, out);
      CollectedGrows(bs, o, size, i + 1, lb + 1, i, before, out);
      if !any {
        NoneBelow(bs, o, size, i, lb, out);
        return;
      }
      i := i - 1;
    }
  }

  lemma NoneBelow(bs: seq<Binding>, o: nat, size: nat, i: nat, lb: nat, out: seq<ACell>)
    requires Kept(bs) && size > 0 && DisjointBut(bs, o, size) && i <= lb < |bs| && bs[lb].offset == o
    requires SomeOverlap(bs[lb].cells, o, size) && !SomeOverlap(bs[i].cells, o, size)
    requires Collected(bs, o, size, i, lb + 1, out)
    ensures Collected(bs, o, size, 0, lb + 1, out)
  {
    forall k | 0 <= k < i
      ensures !SomeOverlap(bs[k].cells, o, size)
    {
      BindingsApart(bs, o, size, i, k);
      EarlierMiss(bs, o, size, i, k);
    }
    CollectedMore(bs, o, size, i, lb + 1, 0, lb + 1, out);
  }

  /** Upwards from the first offset above o, until an offset none of whose cells overlaps. */
  method ScanUp(bs: seq<Binding>, o: nat, size: nat, ub: nat, collected: seq<ACell>) returns (out: seq<ACell>, end: nat)
    requires Kept(bs) && size > 0 && 0 < ub <= |bs| && bs[ub - 1].offset == o
    requires Collected(bs, o, size, 0, ub, collected)
    ensures ub <= end <= |bs| && Collected(bs, o, size, 0, |bs|, out)
  {
    out, end := collected, ub;
    while end < |bs|
      invariant ub <= end <= |bs| && Collected(bs, o, size, 0, end, out)
    {
      GroupFresh(bs, o, size, 0, end, end, out);
      ghost var before := out;
      var any;
      out, any := ScanGroup(bs[end].cells, o, size, out);
      CollectedGrows(bs, o, size, 0, end, end, before, out);
      if !any {
        NoneAbove(bs, o, size, end, out);
        return;
      }
      end := end + 1;
    }
  }

  lemma NoneAbove(bs: seq<Binding>, o: nat, size: nat, i: nat, out: seq<ACell>)
    requires Kept(bs) && size > 0 && i < |bs| && bs[i].offset > o && !SomeOverlap(bs[i].cells, o, size)
    requires Collected(bs, o, size, 0, i + 1, out)
    ensures Collected(bs, o, size, 0, |bs|, out)
  {
    forall k | i < k < |bs|
      ensures !SomeOverlap(bs[k].cells, o, size)
    {
      LaterMiss(bs, o, size, i, k);
    }
    CollectedMore(bs, o, size, 0, i + 1, 0, |bs|, out);
  }

  /** The last loop goes over offsets already searched and finds nothing new. */
  method ScanAgain(bs: seq<Binding>, o: nat, size: nat, from: nat, end: nat, collected: seq<ACell>) returns (out: seq<ACell>)
    requires Kept(bs) && from <= end <= |bs| && Collected(bs, o, size, 0, |bs|, collected)
    ensures Collected(bs, o, size, 0, |bs|, out)
  {
    out := collected;
    for k := from to end
      invariant Collected(bs, o, size, 0, |bs|, out)
    {
      GroupFresh(bs, o, size, 0, |bs|, k, out);
      var any;
      out, any := ScanGroup(bs[k].cells, o, size, out);
      if !any { return; }
    }
  }

  lemma CollectedAll(bs: seq<Binding>, o: nat, size: nat, out: seq<ACell>)
    requires Kept(bs) && Collected(bs, o, size, 0, |bs|, out)
    ensures forall c :: c in out <==> InMap(bs, c) && Hits(c, o, size)
  {}

  /** With the searched cell in the map, the binding at its offset overlaps it. */
  lemma OwnOffset(bs: seq<Binding>, o: nat, size: nat)
    requires Kept(bs) && size > 0 && HasCell(bs, o, size)
    ensures LowerBound(bs, o) < |bs| && bs[LowerBound(bs, o)].offset == o
    ensures UpperBound(bs, o) == LowerBound(bs, o) + 1
    ensures SomeOverlap(bs[LowerBound(bs, o)].cells, o, size)
  {}

  lemma TemporaryCell(bs: seq<Binding>, c: ACell, r: seq<Binding>)
    requires Disjoint(bs) && (r == bs || WithCell(bs, c, r))
    ensures DisjointBut(r, c.offset, c.size)
  {}

  class OffsetMap {
    var bindings: seq<Binding>

    ghost predicate Valid()
      reads this
    {
      Kept(bindings)
    }

    constructor ()
      ensures Valid() && bindings == []
    {
      bindings := [];
    }

    method RemoveCell(c: ACell)
      requires Valid()
      modifies this
      ensures Valid() && WithoutCell(old(bindings), c, bindings)
    {
      CellAt(bindings, c.offset, c.size);
      var found := Lookup(bindings, c.offset);
      if found.Some? && FindSize(found.value, c.size).Some? {
        RemovedLacks(bindings, c);
        var cells := EraseSize(found.value, c.size);
        bindings := RemoveKey(bindings, c.offset);
        if cells != [] {
          bindings := InsertKey(bindings, c.offset, cells);
        }
      }
    }

    /** False when a cell without a scalar is refused. */
    method InsertCell(c: ACell, sanityCheck: bool) returns (ok: bool)
      requires Valid() && c.size > 0
      modifies this
      ensures ok <==> !sanityCheck || c.scalar.Some?
      ensures Valid() && (!ok || HasCell(old(bindings), c.offset, c.size) ==> bindings == old(bindings))
      ensures ok && !HasCell(old(bindings), c.offset, c.size) ==> WithCell(old(bindings), c, bindings)
    {
      if sanityCheck && c.scalar.None? {
        return false;
      }
      CellAt(bindings, c.offset, c.size);
      var found := Lookup(bindings, c.offset);
      match found {
        case Some(cells) =>
          if FindSize(cells, c.size).None? {
            InsertedHas(bindings, c);
            bindings := RemoveKey(bindings, c.offset);
            bindings := InsertKey(bindings, c.offset, InsertBySize(cells, c));
          }
        case None =>
          InsertedHas(bindings, c);
          bindings := InsertKey(bindings, c.offset, [c]);
      }
      return true;
    }

    function GetCell(o: nat, size: nat): (r: Option<ACell>)
      requires Valid()
      reads this
      ensures r.Some? ==> InMap(bindings, r.value) && IsAt(r.value, o, size)
      ensures r.None? <==> !HasCell(bindings, o, size)
    {
      CellAt(bindings, o, size);
      match Lookup(bindings, o)
      case Some(cells) => FindSizeIs(cells, size); FindSize(cells, size)
      case None => None
    }

    /** The cell for (o, size), created with the scalar that names it if it is not there. */
    method MkCell(o: nat, size: nat) returns (c: ACell)
      requires Valid() && size > 0
      modifies this
      ensures Valid() && IsAt(c, o, size) && InMap(bindings, c)
      ensures HasCell(old(bindings), o, size) ==> bindings == old(bindings)
      ensures !HasCell(old(bindings), o, size) ==> c.scalar == Some(CellVar(o, size)) && WithCell(old(bindings), c, bindings)
    {
      var found := GetCell(o, size);
      if found.None? {
        c := ACell(o, size, Some(CellVar(o, size)));
        var ok := InsertCell(c, true);
      } else {
        c := found.value;
      }
    }

    /** kill: offset_map -= cells. */
    method RemoveCells(cells: seq<ACell>)
      requires Valid()
      modifies this
      ensures Valid()
      ensures forall d :: InMap(bindings, d) <==> InMap(old(bindings), d) && forall c :: c in cells ==> !Same(d, c)
    {
      for i := 0 to |cells|
        invariant Valid()
        invariant forall d :: InMap(bindings, d) <==> InMap(old(bindings), d) && forall c :: c in cells[..i] ==> !Same(d, c)
      {
        RemoveCell(cells[i]);
        assert cells[..i + 1] == cells[..i] + [cells[i]];
      }
      assert cells[..|cells|] == cells;
    }

    method GetAllCells() returns (res: seq<ACell>)
      requires Valid()
      ensures forall c :: c in res <==> InMap(bindings, c)
    {
      res := [];
      for i := 0 to |bindings|
        invariant forall c :: c in res <==> exists k :: 0 <= k < i && c in bindings[k].cells
      {
        var cells := bindings[i].cells;
        ghost var before := res;
        for j := 0 to |cells|
          invariant forall c :: c in res <==> c in before || c in cells[..j]
        {
          res := res + [cells[j]];
        }
        assert cells[..|cells|] == cells;
      }
      forall c
        ensures c in res <==> InMap(bindings, c)
      {
        InMapAt(bindings, c);
      }
    }
  
    /**
      The overlap search. Although it stops early in both directions it finds,
      without duplicates, exactly the cells other than (o, size) that meet
      [o, o + size), provided the cells of the map are disjoint; the cells of
      the map are what they were before.
     */
    method GetOverlapCells(o: nat, size: nat) returns (out: seq<ACell>)
      requires Valid() && size > 0 && Disjoint(bindings)
      modifies this
      ensures Valid() && forall c :: InMap(bindings, c) <==> InMap(old(bindings), c)
      ensures NoTwins(out) && forall c :: c in out <==> InMap(old(bindings), c) && Hits(c, o, size)
    {
      var added := false;
      var found := GetCell(o, size);
      var c := ACell(o, size, None);
      if found.None? {
        var ok := InsertCell(c, false);
        assert InMap(bindings, c) && IsAt(c, o, size);
        added := true;
      }
      TemporaryCell(old(bindings), c, bindings);
      OwnOffset(bindings, o, size);
      var lb := LowerBound(bindings, o);
      out := ScanDown(bindings, o, size, lb);
      var ub := UpperBound(bindings, o);
      var end;
      out, end := ScanUp(bindings, o, size, ub, out);
      out := ScanAgain(bindings, o, size, lb + 1, end, out);
      CollectedAll(bindings, o, size, out);
      if added {
        RemoveCell(c);
      }
    }
  }
}
