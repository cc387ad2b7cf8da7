/**
  The array domain: a numerical domain that maps variables to known values,
  and the cells of one array.
 */
module ArrayDomain {
  import opened Syntax
  import opened ArrayCells
  import opened OffsetMaps
  import opened ArrayStates

  /** Every cell carries the scalar that names it. */
  ghost predicate Scalars(bs: seq<Binding>) {
    forall c :: InMap(bs, c) ==> c.scalar == Some(CellVar(c.offset, c.size)) && c.size > 0
  }

  ghost function Extents(bs: seq<Binding>): iset<Extent> {
    iset e: Extent | HasCell(bs, e.offset, e.size) :: e
  }

  ghost function StateOf(bs: seq<Binding>, inv: map<Var, int>): ArrState {
    ArrState(Extents(bs), inv)
  }

  lemma HasExtent(bs: seq<Binding>, c: ACell)
    requires InMap(bs, c)
    ensures Extent(c.offset, c.size) in Extents(bs)
  {}

  lemma OverlapIsNotApart(c: ACell, o: nat, size: nat)
    requires c.size > 0 && size > 0
    ensures Overlaps(c, o, size) <==> !Apart(Extent(c.offset, c.size), Extent(o, size))
  {}

  lemma GoodIsDisjoint(bs: seq<Binding>, inv: map<Var, int>)
    requires Good(StateOf(bs, inv))
    ensures Disjoint(bs)
  {
    forall c, d | InMap(bs, c) && InMap(bs, d) && !Same(c, d)
      ensures !Overlaps(c, d.offset, d.size)
    {
      var e, f := Extent(c.offset, c.size), Extent(d.offset, d.size);
      assert IsAt(c, c.offset, c.size) && IsAt(d, d.offset, d.size);
      assert e in StateOf(bs, inv).cells && f in StateOf(bs, inv).cells;
      OverlapIsNotApart(c, d.offset, d.size);
    }
  }

  ghost predicate ScalarIn(cells: seq<ACell>, x: Var) {
    exists c :: c in cells && c.scalar == Some(x)
  }

  /** The cells that the search found are those of the clashing extents. */
  ghost predicate Found(bs: seq<Binding>, e: Extent, cells: seq<ACell>) {
    forall c :: c in cells <==> InMap(bs, c) && Hits(c, e.offset, e.size)
  }

  lemma FoundMeans(bs: seq<Binding>, e: Extent, cells: seq<ACell>, f: Extent)
    requires Scalars(bs) && e.size > 0 && Found(bs, e, cells)
    ensures ScalarIn(cells, ScalarOf(f)) <==> f in Extents(bs) && f != e && !Apart(f, e)
    ensures (exists c :: c in cells && IsAt(c, f.offset, f.size)) <==> f in Extents(bs) && f != e && !Apart(f, e)
  {}

  /** After killing the clashing cells: their extents are gone and their scalars unknown. */
  ghost predicate Killed(st: ArrState, e: Extent, st': ArrState) {
    && (forall f :: f in st'.cells <==> f in st.cells && (f == e || Apart(f, e)))
    && (forall f: Extent :: Known(st'.inv, ScalarOf(f)) ==
          if f in st.cells && f != e && !Apart(f, e) then None else Known(st.inv, ScalarOf(f)))
    && (forall y :: Known(st'.inv, ProgVar(y)) == Known(st.inv, ProgVar(y)))
  }

  /** What kill_cells leaves. */
  ghost predicate KilledCells(bs: seq<Binding>, inv: map<Var, int>, cells: seq<ACell>, bs': seq<Binding>, inv': map<Var, int>) {
    && (forall x :: Known(inv', x) == if ScalarIn(cells, x) then None else Known(inv, x))
    && (forall d :: InMap(bs', d) <==> InMap(bs, d) && forall c :: c in cells ==> !Same(d, c))
  }

  lemma KilledExtents(bs: seq<Binding>, cells: seq<ACell>, bs': seq<Binding>, f: Extent)
    requires forall d :: InMap(bs', d) <==> InMap(bs, d) && forall c :: c in cells ==> !Same(d, c)
    ensures f in Extents(bs') <==> f in Extents(bs) && !exists c :: c in cells && IsAt(c, f.offset, f.size)
  {}

  lemma KillsClashes(bs: seq<Binding>, inv: map<Var, int>, e: Extent, cells: seq<ACell>, bs': seq<Binding>, inv': map<Var, int>)
    requires Scalars(bs) && e.size > 0 && Found(bs, e, cells) && KilledCells(bs, inv, cells, bs', inv')
    ensures Killed(StateOf(bs, inv), e, StateOf(bs', inv')) && Scalars(bs')
  {
    forall f: Extent
      ensures f in Extents(bs') <==> f in Extents(bs) && (f == e || Apart(f, e))
      ensures Known(inv', ScalarOf(f)) == if f in Extents(bs) && f != e && !Apart(f, e) then None else Known(inv, ScalarOf(f))
    {
      FoundMeans(bs, e, cells, f);
      KilledExtents(bs, cells, bs', f);
    }
    forall y
      ensures Known(inv', ProgVar(y)) == Known(inv, ProgVar(y))
    {}
  }

  /** Making the cell of e, which no other cell overlaps any more. */
  lemma CellMade(bs: seq<Binding>, e: Extent, c: ACell, bs': seq<Binding>)
    requires Scalars(bs) && e.size > 0 && IsAt(c, e.offset, e.size) && InMap(bs', c)
    requires HasCell(bs, e.offset, e.size) ==> bs' == bs
    requires !HasCell(bs, e.offset, e.size) ==> c.scalar == Some(ScalarOf(e)) && WithCell(bs, c, bs')
    ensures Scalars(bs') && c.scalar == Some(ScalarOf(e))
    ensures forall f :: f in Extents(bs') <==> f in Extents(bs) || f == e
  {}

  lemma KilledThenStored(st: ArrState, e: Extent, mid: ArrState, v: Option<int>, st': ArrState)
    requires Killed(st, e, mid) && (forall f :: f in st'.cells <==> f in mid.cells || f == e)
    requires Known(st'.inv, ScalarOf(e)) == v && forall x :: x != ScalarOf(e) ==> Known(st'.inv, x) == Known(mid.inv, x)
    ensures StoredAt(st, e, v, st')
  {}

  lemma {:induction false} SameProgVars(inv: map<Var, int>, inv': map<Var, int>, terms: seq<(int, string)>, constant: int)
    requires forall y :: Known(inv', ProgVar(y)) == Known(inv, ProgVar(y))
    ensures Eval(inv', terms, constant) == Eval(inv, terms, constant)
  {
    if terms == [] {
    } else {
      SameProgVars(inv, inv', terms[..|terms| - 1], constant);
      var y := terms[|terms| - 1].1;
      assert Known(inv', ProgVar(y)) == Known(inv, ProgVar(y));
    }
  }

  lemma SearchKeepsCells(bs: seq<Binding>, bs': seq<Binding>)
    requires forall c :: InMap(bs', c) <==> InMap(bs, c)
    ensures Extents(bs') == Extents(bs)
    ensures Scalars(bs) ==> Scalars(bs')
  {}

  lemma ClashesFound(bs: seq<Binding>, inv: map<Var, int>, e: Extent, cells: seq<ACell>)
    requires Scalars(bs) && e.size > 0 && Found(bs, e, cells)
    ensures Clashes(StateOf(bs, inv), e) <==> cells != []
  {
    if cells != [] {
      var c := cells[0];
      assert c in cells;
      HasExtent(bs, c);
      OverlapIsNotApart(c, e.offset, e.size);
    }
    if f :| f in Extents(bs) && f != e && !Apart(f, e) {
      FoundMeans(bs, e, cells, f);
    }
  }

  lemma AllKilled(bs: seq<Binding>, inv: map<Var, int>, cells: seq<ACell>, bs': seq<Binding>, inv': map<Var, int>)
    requires Scalars(bs) && (forall c :: c in cells <==> InMap(bs, c)) && KilledCells(bs, inv, cells, bs', inv')
    ensures Emptied(StateOf(bs, inv), StateOf(bs', inv')) && Scalars(bs')
  {}

  /** An element size: a known positive number. */
  function SizeIn(inv: map<Var, int>, e: Linear): (r: Option<nat>)
    ensures r.Some? <==> exists n: nat :: 0 < n && ValueIn(inv, e) == Some(n)
    ensures forall n: nat :: 0 < n && ValueIn(inv, e) == Some(n) ==> r == Some(n)
  {
    var n := ValueIn(inv, e);
    if n.Some? && n.value > 0 then Some(n.value) else None
  }

  class ArrayExpansion {
    var inv: map<Var, int>
    var offsets: OffsetMap

    ghost predicate Valid()
      reads this, offsets
    {
      offsets.Valid() && Scalars(offsets.bindings) && Good(State())
    }

    ghost function State(): ArrState
      reads this, offsets
    {
      StateOf(offsets.bindings, inv)
    }

    constructor ()
      ensures Valid() && fresh(offsets) && State() == Unknown
    {
      inv := map[];
      offsets := new OffsetMap();
    }

    /** The value of an expression whose interval is a single point. */
    method ToInterval(e: Linear) returns (r: Option<int>)
      ensures r == ValueIn(inv, e)
    {
      r := Some(e.constant);
      for k := 0 to |e.terms|
        invariant r == Eval(inv, e.terms[..k], e.constant)
      {
        var c := Known(inv, ProgVar(e.terms[k].1));
        assert e.terms[..k + 1][..k] == e.terms[..k];
        r := if r.None? || c.None? then None else Some(r.value + e.terms[k].0 * c.value);
      }
      assert e.terms[..|e.terms|] == e.terms;
    }

    method Assign(x: Var, v: Option<int>)
      modifies this`inv
      ensures Known(inv, x) == v && forall y :: y != x ==> Known(inv, y) == Known(old(inv), y)
    {
      inv := if v.Some? then inv[x := v.value] else inv - {x};
    }

    /** Forgets the scalars of the cells, then removes the cells. False when a cell has no scalar. */
    method KillCells(cells: seq<ACell>) returns (ok: bool)
      requires offsets.Valid()
      modifies this`inv, offsets
      ensures ok <==> forall c :: c in cells ==> c.scalar.Some?
      ensures ok ==> offsets.Valid()
      ensures ok ==> forall x :: Known(inv, x) == if ScalarIn(cells, x) then None else Known(old(inv), x)
      ensures ok ==> forall d :: InMap(offsets.bindings, d) <==>
        InMap(old(offsets.bindings), d) && forall c :: c in cells ==> !Same(d, c)
    {
      for i := 0 to |cells|
        invariant forall k :: 0 <= k < i ==> cells[k].scalar.Some?
        invariant offsets.bindings == old(offsets.bindings)
        invariant forall x :: Known(inv, x) == if ScalarIn(cells[..i], x) then None else Known(old(inv), x)
      {
        if cells[i].scalar.None? {
          return false;
        }
        ghost var before := inv;
        Assign(cells[i].scalar.value, None);
        assert cells[..i + 1] == cells[..i] + [cells[i]];
      }
      assert cells[..|cells|] == cells;
      offsets.RemoveCells(cells);
      return true;
    }

    /** A positive constant element size; anything else is an error. */
    method ElementSize(e: Linear) returns (r: Option<nat>)
      ensures r == SizeIn(inv, e)
    {
      var n := ToInterval(e);
      r := if n.Some? && n.value > 0 then Some(n.value) else None;
    }

    /** A store at a constant index; an element size that is no positive constant is refused. */
    method ArrayStore(elemSize: Linear, i: Linear, val: Linear) returns (ok: bool)
      requires Valid() && ValueIn(inv, i).Some?
      requires SizeIn(inv, elemSize).Some? ==> Indexable(ValueIn(inv, i).value, SizeIn(inv, elemSize).value)
      modifies this`inv, offsets
      ensures Valid() && (ok <==> SizeIn(old(inv), elemSize).Some?)
      ensures ok ==> StoredAt(old(State()), ExtentAt(ValueIn(old(inv), i).value, SizeIn(old(inv), elemSize).value),
                              ValueIn(old(inv), val), State())
      ensures !ok ==> State() == old(State())
    {
      var size := ElementSize(elemSize);
      if size.None? {
        return false;
      }
      var o := ToInterval(i);
      ghost var e := ExtentAt(o.value, size.value);
      ghost var bs0, inv0 := offsets.bindings, inv;
      GoodIsDisjoint(bs0, inv0);
      var cells := offsets.GetOverlapCells(ToU64(o.value), size.value);
      ghost var bs1 := offsets.bindings;
      SearchKeepsCells(bs0, bs1);
      assert Found(bs1, e, cells);
      if |cells| > 0 {
        var killed := KillCells(cells);
      }
      ghost var bs2, inv2 := offsets.bindings, inv;
      KillsClashes(bs1, inv0, e, cells, bs2, inv2);
      var c := offsets.MkCell(ToU64(o.value), size.value);
      CellMade(bs2, e, c, offsets.bindings);
      var v := ToInterval(val);
      SameProgVars(inv0, inv2, val.terms, val.constant);
      Assign(c.scalar.value, v);
      KilledThenStored(StateOf(bs1, inv0), e, StateOf(bs2, inv2), v, State());
      StoredGood(StateOf(bs0, inv0), e, v, State());
      return true;
    }

    /** A load: exact at a constant index that no other cell overlaps, and otherwise the variable becomes unknown. */
    method ArrayLoad(lhs: string, elemSize: Linear, i: Linear) returns (ok: bool)
      requires Valid()
      requires ValueIn(inv, i).Some? && SizeIn(inv, elemSize).Some? ==> Indexable(ValueIn(inv, i).value, SizeIn(inv, elemSize).value)
      modifies this`inv, offsets
      ensures Valid() && (ok <==> ValueIn(old(inv), i).None? || SizeIn(old(inv), elemSize).Some?)
      ensures ok && ValueIn(old(inv), i).Some? ==>
        LoadedAt(old(State()), lhs, ExtentAt(ValueIn(old(inv), i).value, SizeIn(old(inv), elemSize).value), State())
      ensures ok && ValueIn(old(inv), i).None? ==> Forgotten(old(State()), lhs, State())
      ensures !ok ==> State() == old(State())
    {
      var o := ToInterval(i);
      ghost var bs0, inv0 := offsets.bindings, inv;
      if o.Some? {
        var size := ElementSize(elemSize);
        if size.None? {
          return false;
        }
        ghost var e := ExtentAt(o.value, size.value);
        GoodIsDisjoint(bs0, inv0);
        var cells := offsets.GetOverlapCells(ToU64(o.value), size.value);
        ghost var bs1 := offsets.bindings;
        SearchKeepsCells(bs0, bs1);
        assert Found(bs1, e, cells);
        ClashesFound(bs1, inv0, e, cells);
        if cells == [] {
          var c := offsets.MkCell(ToU64(o.value), size.value);
          CellMade(bs1, e, c, offsets.bindings);
          Assign(ProgVar(lhs), Known(inv, c.scalar.value));
        } else {
          Assign(ProgVar(lhs), None);
        }
        LoadedGood(StateOf(bs0, inv0), lhs, e, State());
      } else {
        Assign(ProgVar(lhs), None);
        ForgottenGood(StateOf(bs0, inv0), lhs, State());
      }
      return true;
    }

    /** A store for each element from lb to ub; nothing happens when a bound is unknown or there are too many. */
    method ArrayStoreRange(elemSize: Linear, lb: Linear, ub: Linear, val: Linear) returns (ok: bool, done: bool)
      requires Valid()
      requires SizeIn(inv, elemSize).Some? ==> InRange(ValueIn(inv, lb), ValueIn(inv, ub), SizeIn(inv, elemSize).value)
      modifies this`inv, offsets
      ensures Valid() && (ok <==> SizeIn(old(inv), elemSize).Some?)
      ensures ok ==> done == FewElements(ValueIn(old(inv), lb), ValueIn(old(inv), ub))
      ensures ok && done ==> StoresFrom(old(State()), SizeIn(old(inv), elemSize).value, ValueIn(old(inv), lb).value,
                                        ValueIn(old(inv), ub).value, val, State())
      ensures !ok || !done ==> State() == old(State())
    {
      var n := ElementSize(elemSize);
      if n.None? {
        return false, false;
      }
      var first := ToInterval(lb);
      var last := ToInterval(ub);
      if !FewElements(first, last) {
        return true, false;
      }
      StoreElements(n.value, first.value, last.value, val);
      return true, true;
    }

    method StoreElements(n: nat, first: int, last: int, val: Linear)
      requires Valid() && n > 0 && Elements(n, first, last)
      modifies this`inv, offsets
      ensures Valid() && StoresFrom(old(State()), n, first, last, val, State())
    {
      var i := first;
      while i <= last
        invariant Valid() && Elements(n, i, last)
        invariant forall st' :: StoresFrom(State(), n, i, last, val, st') ==> StoresFrom(old(State()), n, first, last, val, st')
        decreases last - i
      {
        ghost var before := State();
        var ok := ArrayStore(Linear([], n), Linear([], i), val);
        forall st' | StoresFrom(State(), n, i + n, last, val, st')
          ensures StoresFrom(before, n, i, last, val, st')
        {
          assert StoredAt(before, ExtentAt(i, n), ValueIn(before.inv, val), State());
        }
        i := i + n;
      }
    }

    /** A fresh array: all cells go, then the elements are stored. */
    method ArrayInit(elemSize: Linear, lb: Linear, ub: Linear, val: Linear) returns (ok: bool)
      requires Valid()
      requires SizeIn(inv, elemSize).Some? ==> InRange(ValueIn(inv, lb), ValueIn(inv, ub), SizeIn(inv, elemSize).value)
      modifies this`inv, offsets
      ensures Valid() && (ok <==> SizeIn(old(inv), elemSize).Some?)
      ensures ok ==> InitializedAt(old(State()), SizeIn(old(inv), elemSize).value, ValueIn(old(inv), lb), ValueIn(old(inv), ub), val, State())
    {
      ghost var bs0, inv0 := offsets.bindings, inv;
      var cells := offsets.GetAllCells();
      if cells != [] {
        var killed := KillCells(cells);
      }
      AllKilled(bs0, inv0, cells, offsets.bindings, inv);
      ghost var empty := State();
      EmptiedGood(StateOf(bs0, inv0), empty);
      SameProgVars(inv0, inv, elemSize.terms, elemSize.constant);
      SameProgVars(inv0, inv, lb.terms, lb.constant);
      SameProgVars(inv0, inv, ub.terms, ub.constant);
      var done;
      ok, done := ArrayStoreRange(elemSize, lb, ub, val);
      assert Emptied(StateOf(bs0, inv0), empty);
    }
  }
}
