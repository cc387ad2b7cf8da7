/**
  Exactly what is known of an array after its operations: what was stored is
  read back, what lies beside is untouched, and an initialised array holds the
  value in every element.
 */
module ArrayExact {
  import opened Syntax
  import opened ArrayCells
  import opened ArrayStates

  /** An expression has a known value exactly when all its variables do. */
  lemma {:induction false} EvalKnownIff(inv: map<Var, int>, terms: seq<(int, string)>, constant: int)
    ensures Eval(inv, terms, constant).Some? <==> forall t :: t in terms ==> ProgVar(t.1) in inv
  {
    if terms != [] {
      var rest := terms[..|terms| - 1];
      assert terms == rest + [terms[|terms| - 1]];
      EvalKnownIff(inv, rest, constant);
    }
  }

  /* ----- store and load ----- */

  /** A load of the stored element assigns what was stored, known or not, and makes no cell. */
  lemma StoreThenLoad(st: ArrState, e: Extent, v: Option<int>, mid: ArrState, lhs: string, st': ArrState)
    requires StoredAt(st, e, v, mid) && LoadedAt(mid, lhs, e, st')
    ensures Known(st'.inv, ProgVar(lhs)) == v
    ensures forall f :: f in st'.cells <==> f in mid.cells
  {
    assert e in mid.cells && !Clashes(mid, e);
  }

  /** A load beside the stored element assigns what it would have assigned before. */
  lemma StoreBesideLoad(st: ArrState, e: Extent, v: Option<int>, mid: ArrState, lhs: string, f: Extent, st': ArrState)
    requires StoredAt(st, e, v, mid) && LoadedAt(mid, lhs, f, st')
    requires f != e && Apart(f, e) && !Clashes(st, f)
    ensures Known(st'.inv, ProgVar(lhs)) == Known(st.inv, ScalarOf(f))
  {
    assert !Clashes(mid, f);
  }

  /** A load twice in a row assigns the same, and changes nothing the second time. */
  lemma LoadTwice(st: ArrState, lhs: string, e: Extent, mid: ArrState, st': ArrState)
    requires LoadedAt(st, lhs, e, mid) && LoadedAt(mid, lhs, e, st')
    ensures forall x :: Known(st'.inv, x) == Known(mid.inv, x)
    ensures forall f :: f in st'.cells <==> f in mid.cells
  {
    assert Clashes(mid, e) <==> Clashes(st, e);
    assert Known(mid.inv, ScalarOf(e)) == Known(st.inv, ScalarOf(e));
  }

  /* ----- initialisation ----- */

  /** j is the index of one of the elements from lb to ub. */
  predicate IsElement(n: nat, lb: int, ub: int, j: int)
    requires n > 0
    decreases ub - lb
  {
    lb <= ub && (j == lb || IsElement(n, lb + n, ub, j))
  }

  lemma {:induction false} StepsToElement(n: nat, lb: int, ub: int, k: nat, j: int)
    requires n > 0 && j == lb + k * n && j <= ub
    ensures IsElement(n, lb, ub, j)
    decreases k
  {
    if k > 0 {
      assert k * n == (k - 1) * n + n;
      StepsToElement(n, lb + n, ub, k - 1, j);
    }
  }

  lemma {:induction false} ElementIndexable(n: nat, lb: int, ub: int, j: int)
    requires n > 0 && Elements(n, lb, ub) && IsElement(n, lb, ub, j)
    ensures Indexable(j, n) && lb <= j <= ub
    decreases ub - lb
  {
    if j != lb { ElementIndexable(n, lb + n, ub, j); }
  }

  predicate Beside(e: Extent, f: Extent) {
    e != f && Apart(e, f) && Apart(f, e)
  }

  lemma IndexOrder(i: int, n: nat, j: int)
    requires Indexable(i, n) && Indexable(j, n) && i + n <= j < i + TWO63 && n > 0
    ensures Beside(ExtentAt(i, n), ExtentAt(j, n))
  {
    assert ToU64(i) == if i < 0 then i + TWO64 else i;
    assert ToU64(j) == if j < 0 then j + TWO64 else j;
  }

  /** Elements of one array do not overlap, although those with negative indices lie above the others. */
  lemma FirstApart(n: nat, lb: int, ub: int, j: int)
    requires n > 0 && lb <= ub < lb + 512 && Elements(n, lb, ub) && IsElement(n, lb + n, ub, j)
    ensures Beside(ExtentAt(lb, n), ExtentAt(j, n))
  {
    ElementIndexable(n, lb + n, ub, j);
    IndexOrder(lb, n, j);
  }

  /** Stores to the elements leave the variables of the program alone. */
  lemma {:induction false} StoresKeepVariables(st: ArrState, n: nat, lb: int, ub: int, val: Linear, st': ArrState, y: string)
    requires n > 0 && StoresFrom(st, n, lb, ub, val, st')
    ensures Known(st'.inv, ProgVar(y)) == Known(st.inv, ProgVar(y))
    decreases ub - lb
  {
    if lb <= ub {
      var mid :| StoredAt(st, ExtentAt(lb, n), ValueIn(st.inv, val), mid) && StoresFrom(mid, n, lb + n, ub, val, st');
      StoresKeepVariables(mid, n, lb + n, ub, val, st', y);
    }
  }

  lemma {:induction false} SameEval(inv: map<Var, int>, inv': map<Var, int>, terms: seq<(int, string)>, constant: int)
    requires forall y :: Known(inv', ProgVar(y)) == Known(inv, ProgVar(y))
    ensures Eval(inv', terms, constant) == Eval(inv, terms, constant)
  {
    if terms != [] {
      SameEval(inv, inv', terms[..|terms| - 1], constant);
      var y := terms[|terms| - 1].1;
      assert Known(inv', ProgVar(y)) == Known(inv, ProgVar(y));
    }
  }

  /** Stores to elements beside f leave what is known of f alone. */
  lemma {:induction false} StoresKeepOthers(st: ArrState, n: nat, lb: int, ub: int, val: Linear, st': ArrState, f: Extent)
    requires n > 0 && StoresFrom(st, n, lb, ub, val, st')
    requires forall j :: IsElement(n, lb, ub, j) ==> Beside(f, ExtentAt(j, n))
    ensures Known(st'.inv, ScalarOf(f)) == Known(st.inv, ScalarOf(f)) && (f in st'.cells <==> f in st.cells)
    decreases ub - lb
  {
    if lb <= ub {
      var mid :| StoredAt(st, ExtentAt(lb, n), ValueIn(st.inv, val), mid) && StoresFrom(mid, n, lb + n, ub, val, st');
      assert IsElement(n, lb, ub, lb) && forall j :: IsElement(n, lb + n, ub, j) ==> IsElement(n, lb, ub, j);
      StoresKeepOthers(mid, n, lb + n, ub, val, st', f);
    }
  }

  /** After the stores every element is a cell and known to hold the value. */
  lemma {:induction false} StoresFill(st: ArrState, n: nat, lb: int, ub: int, val: Linear, st': ArrState, j: int)
    requires n > 0 && ub < lb + 512 && Elements(n, lb, ub) && StoresFrom(st, n, lb, ub, val, st') && IsElement(n, lb, ub, j)
    ensures ExtentAt(j, n) in st'.cells && Known(st'.inv, ScalarOf(ExtentAt(j, n))) == ValueIn(st.inv, val)
    decreases ub - lb
  {
    var e := ExtentAt(lb, n);
    var mid :| StoredAt(st, e, ValueIn(st.inv, val), mid) && StoresFrom(mid, n, lb + n, ub, val, st');
    if j == lb {
      forall i | IsElement(n, lb + n, ub, i)
        ensures Beside(e, ExtentAt(i, n))
      {
        FirstApart(n, lb, ub, i);
      }
      StoresKeepOthers(mid, n, lb + n, ub, val, st', e);
    } else {
      SameEval(st.inv, mid.inv, val.terms, val.constant);
      StoresFill(mid, n, lb + n, ub, val, st', j);
    }
  }

  /** After the stores no cell overlaps an element but itself. */
  lemma StoresClear(st: ArrState, n: nat, lb: int, ub: int, val: Linear, st': ArrState, j: int)
    requires n > 0 && ub < lb + 512 && Elements(n, lb, ub) && StoresFrom(st, n, lb, ub, val, st') && IsElement(n, lb, ub, j) && Good(st)
    ensures !Clashes(st', ExtentAt(j, n))
  {
    StoresGood(st, n, lb, ub, val, st');
    StoresFill(st, n, lb, ub, val, st', j);
  }

  /** At most 512 indices, the bounds being known. */
  lemma FewElementsIff(lb: Option<int>, ub: Option<int>)
    ensures FewElements(lb, ub) <==> lb.Some? && ub.Some? && ub.value - lb.value < 512
  {}

  /** A load of any element of an array just initialised assigns the initial value. */
  lemma InitThenLoad(st: ArrState, n: nat, lb: int, ub: int, val: Linear, mid: ArrState, lhs: string, k: nat, j: int, st': ArrState)
    requires Good(st) && n > 0 && ub - lb < 512 && Elements(n, lb, ub) && InitializedAt(st, n, Some(lb), Some(ub), val, mid)
    requires j == lb + k * n && j <= ub && LoadedAt(mid, lhs, ExtentAt(j, n), st')
    ensures Known(st'.inv, ProgVar(lhs)) == ValueIn(st.inv, val)
  {
    var empty :| Emptied(st, empty) && StoresFrom(empty, n, lb, ub, val, mid);
    EmptiedGood(st, empty);
    SameEval(st.inv, empty.inv, val.terms, val.constant);
    StepsToElement(n, lb, ub, k, j);
    StoresFill(empty, n, lb, ub, val, mid, j);
    StoresClear(empty, n, lb, ub, val, mid, j);
  }

  /** An array with unknown bounds or too many elements is only emptied: no cell is left and no element known. */
  lemma InitForgets(st: ArrState, n: nat, lb: Option<int>, ub: Option<int>, val: Linear, st': ArrState)
    requires Good(st) && n > 0 && InitializedAt(st, n, lb, ub, val, st')
    requires !(lb.Some? && ub.Some? && ub.value - lb.value < 512)
    ensures forall f: Extent :: f !in st'.cells && Known(st'.inv, ScalarOf(f)).None?
    ensures forall y :: Known(st'.inv, ProgVar(y)) == Known(st.inv, ProgVar(y))
  {
    FewElementsIff(lb, ub);
  }

  /* ----- ranges ----- */

  /** The bytes from a negative index end at 0 at the latest, those from another one at 2^64. */
  lemma IndexableIff(i: int, n: nat)
    ensures Indexable(i, n) <==> -TWO63 <= i < TWO63 && (if i < 0 then i + n <= 0 else i + n <= TWO64)
  {}

  /** An array is within range exactly when every element is. */
  lemma {:induction false} ElementsIff(n: nat, lb: int, ub: int)
    requires n > 0
    ensures Elements(n, lb, ub) <==> forall j :: IsElement(n, lb, ub, j) ==> Indexable(j, n)
    decreases ub - lb
  {
    if lb <= ub {
      ElementsIff(n, lb + n, ub);
      assert IsElement(n, lb, ub, lb);
      forall j
        ensures IsElement(n, lb, ub, j) <==> j == lb || IsElement(n, lb + n, ub, j)
      {}
    }
  }
}
