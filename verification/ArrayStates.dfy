/**
  The abstract states of one array with constant indices: which cells exist
  and which variables have a known value, what the array operations do to
  them, and the byte arrays they describe.
 */
module ArrayStates {
  import opened Syntax
  import opened ArrayCells
  import opened ByteMemory
  import R = Rcp

  datatype Extent = Extent(offset: nat, size: nat)

  /** A variable that the map lacks may have any value. */
  datatype ArrState = ArrState(cells: iset<Extent>, inv: map<Var, int>)

  function Known(inv: map<Var, int>, x: Var): Option<int> {
    if x in inv then Some(inv[x]) else None
  }

  function ScalarOf(e: Extent): Var {
    CellVar(e.offset, e.size)
  }

  /** The n bytes from the index, a 64-bit integer that the offset takes as an unsigned one, do not wrap around. */
  predicate Indexable(i: int, n: nat) {
    -TWO63 <= i < TWO63 && ToU64(i) + n <= TWO64
  }

  function ExtentAt(i: int, n: nat): Extent {
    Extent(ToU64(i), n)
  }

  /** Every element from lb to ub. */
  ghost predicate Elements(n: nat, lb: int, ub: int)
    requires n > 0
    decreases ub - lb
  {
    lb <= ub ==> Indexable(lb, n) && Elements(n, lb + n, ub)
  }

  /** The two extents have no byte in common. */
  predicate Apart(e: Extent, f: Extent) {
    e.offset + e.size <= f.offset || f.offset + f.size <= e.offset
  }

  /** The cells are disjoint and not empty, and no scalar is known for a cell that does not exist. */
  ghost predicate Good(st: ArrState) {
    && (forall e, f :: e in st.cells && f in st.cells && e != f ==> Apart(e, f))
    && (forall e :: e in st.cells ==> e.size > 0)
    && (forall e: Extent :: ScalarOf(e) in st.inv ==> e in st.cells)
  }

  /* ----- expressions over program variables ----- */

  datatype Linear = Linear(terms: seq<(int, string)>, constant: int)

  /** The value of the expression, when every variable in it is known. */
  function Eval(inv: map<Var, int>, terms: seq<(int, string)>, constant: int): Option<int> {
    if terms == [] then Some(constant)
    else
      var last := terms[|terms| - 1];
      var rest := Eval(inv, terms[..|terms| - 1], constant);
      if rest.None? || Known(inv, ProgVar(last.1)).None? then None
      else Some(rest.value + last.0 * inv[ProgVar(last.1)])
  }

  function ValueIn(inv: map<Var, int>, e: Linear): Option<int> {
    Eval(inv, e.terms, e.constant)
  }

  /* ----- the operations ----- */

  /** Overlapping cells die, e exists, and its scalar gets the value. */
  ghost predicate StoredAt(st: ArrState, e: Extent, v: Option<int>, st': ArrState) {
    && (forall f :: f in st'.cells <==> f == e || (f in st.cells && Apart(f, e)))
    && Known(st'.inv, ScalarOf(e)) == v
    && (forall f: Extent :: f != e ==>
          Known(st'.inv, ScalarOf(f)) == if f in st.cells && !Apart(f, e) then None else Known(st.inv, ScalarOf(f)))
    && (forall y :: Known(st'.inv, ProgVar(y)) == Known(st.inv, ProgVar(y)))
  }

  ghost predicate Clashes(st: ArrState, e: Extent) {
    exists f :: f in st.cells && f != e && !Apart(f, e)
  }

  /** The loaded variable becomes what the cell holds, or unknown when other cells overlap. */
  ghost predicate LoadedAt(st: ArrState, lhs: string, e: Extent, st': ArrState) {
    && (forall f :: f in st'.cells <==> f in st.cells || (f == e && !Clashes(st, e)))
    && Known(st'.inv, ProgVar(lhs)) == (if Clashes(st, e) then None else Known(st.inv, ScalarOf(e)))
    && (forall x :: x != ProgVar(lhs) ==> Known(st'.inv, x) == Known(st.inv, x))
  }

  ghost predicate Forgotten(st: ArrState, lhs: string, st': ArrState) {
    && st'.cells == st.cells && Known(st'.inv, ProgVar(lhs)).None?
    && (forall x :: x != ProgVar(lhs) ==> Known(st'.inv, x) == Known(st.inv, x))
  }

  ghost predicate Emptied(st: ArrState, st': ArrState) {
    && (forall f :: f !in st'.cells)
    && (forall f: Extent :: Known(st'.inv, ScalarOf(f)) == if f in st.cells then None else Known(st.inv, ScalarOf(f)))
    && (forall y :: Known(st'.inv, ProgVar(y)) == Known(st.inv, ProgVar(y)))
  }

  /** One store for each element from lb to ub. */
  ghost predicate StoresFrom(st: ArrState, n: nat, lb: int, ub: int, val: Linear, st': ArrState)
    requires n > 0
    decreases ub - lb
  {
    if lb > ub then st' == st
    else exists mid :: StoredAt(st, ExtentAt(lb, n), ValueIn(st.inv, val), mid) && StoresFrom(mid, n, lb + n, ub, val, st')
  }

  const MAX_ELEMS: int := 512

  /** Both bounds are known and at most 512 apart. */
  predicate FewElements(lb: Option<int>, ub: Option<int>) {
    lb.Some? && ub.Some? && ub.value - lb.value + 1 <= MAX_ELEMS
  }

  ghost predicate InRange(lb: Option<int>, ub: Option<int>, n: nat)
    requires n > 0
  {
    FewElements(lb, ub) ==> Elements(n, lb.value, ub.value)
  }

  /** The array is fresh: its cells go, and then the elements are stored unless there are too many or the bounds are unknown. */
  ghost predicate InitializedAt(st: ArrState, n: nat, lb: Option<int>, ub: Option<int>, val: Linear, st': ArrState)
    requires n > 0
  {
    exists empty :: Emptied(st, empty) &&
      if FewElements(lb, ub) then StoresFrom(empty, n, lb.value, ub.value, val, st')
      else st' == empty
  }

  /* ----- what the operations keep ----- */

  lemma StoredGood(st: ArrState, e: Extent, v: Option<int>, st': ArrState)
    requires Good(st) && e.size > 0 && StoredAt(st, e, v, st')
    ensures Good(st')
  {}

  lemma LoadedGood(st: ArrState, lhs: string, e: Extent, st': ArrState)
    requires Good(st) && e.size > 0 && LoadedAt(st, lhs, e, st')
    ensures Good(st')
  {
    forall f: Extent | ScalarOf(f) in st'.inv
      ensures f in st'.cells
    {
      assert Known(st'.inv, ScalarOf(f)) == Known(st.inv, ScalarOf(f));
    }
  }

  lemma EmptiedGood(st: ArrState, st': ArrState)
    requires Good(st) && Emptied(st, st')
    ensures Good(st')
  {}

  lemma {:induction false} StoresGood(st: ArrState, n: nat, lb: int, ub: int, val: Linear, st': ArrState)
    requires Good(st) && n > 0 && StoresFrom(st, n, lb, ub, val, st')
    ensures Good(st')
    decreases ub - lb
  {
    if lb > ub {
    } else {
      var mid :| StoredAt(st, ExtentAt(lb, n), ValueIn(st.inv, val), mid) && StoresFrom(mid, n, lb + n, ub, val, st');
      StoredGood(st, ExtentAt(lb, n), ValueIn(st.inv, val), mid);
      StoresGood(mid, n, lb + n, ub, val, st');
    }
  }

  /* ----- byte arrays ----- */

  /** The program variables and the bytes of the array. */
  datatype CState = CState(env: string -> int, mem: Memory)

  ghost function ValueOf(env: string -> int, terms: seq<(int, string)>, constant: int): int {
    if terms == [] then constant
    else
      var last := terms[|terms| - 1];
      ValueOf(env, terms[..|terms| - 1], constant) + last.0 * env(last.1)
  }

  /** The bytes of e spell the number v. */
  ghost predicate Spells(mem: Memory, e: Extent, v: int) {
    Read(mem, e.offset, e.size) == R.Num(v)
  }

  /** Known variables have their value, and the bytes of a cell whose scalar is known spell it. */
  ghost predicate Describes(st: ArrState, c: CState) {
    && (forall y, v :: Known(st.inv, ProgVar(y)) == Some(v) ==> c.env(y) == v)
    && (forall e: Extent, v :: Known(st.inv, ScalarOf(e)) == Some(v) ==> Spells(c.mem, e, v))
  }

  lemma {:induction false} EvalSound(st: ArrState, c: CState, terms: seq<(int, string)>, constant: int)
    requires Describes(st, c)
    ensures Eval(st.inv, terms, constant).Some? ==> Eval(st.inv, terms, constant).value == ValueOf(c.env, terms, constant)
  {
    if terms == [] {
    } else {
      EvalSound(st, c, terms[..|terms| - 1], constant);
      var y := terms[|terms| - 1].1;
      assert Known(st.inv, ProgVar(y)).Some? ==> Known(st.inv, ProgVar(y)) == Some(st.inv[ProgVar(y)]);
    }
  }

  /** A store of a value that the bytes of e spell afterwards, with the bytes outside e untouched. */
  lemma StoredDescribes(st: ArrState, e: Extent, v: Option<int>, st': ArrState, c: CState, c': CState)
    requires Good(st) && Describes(st, c) && StoredAt(st, e, v, st')
    requires (forall y :: c'.env(y) == c.env(y)) && (v.Some? ==> Spells(c'.mem, e, v.value))
    requires forall k :: !Within(e.offset, e.size, k) ==> c'.mem(k) == c.mem(k)
    ensures Describes(st', c')
  {
    forall f: Extent, u | Known(st'.inv, ScalarOf(f)) == Some(u)
      ensures Spells(c'.mem, f, u)
    {
      if f != e {
        assert Known(st.inv, ScalarOf(f)) == Some(u) && f in st.cells && Apart(f, e);
        forall k | f.offset <= k < f.offset + f.size
          ensures c.mem(k) == c'.mem(k)
        {
          assert !Within(e.offset, e.size, k);
        }
        ReadFrame(c.mem, c'.mem, f.offset, f.size);
      }
    }
    forall y, u | Known(st'.inv, ProgVar(y)) == Some(u)
      ensures c'.env(y) == u
    {
      assert Known(st.inv, ProgVar(y)) == Some(u);
    }
  }

  lemma LoadedDescribes(st: ArrState, lhs: string, e: Extent, st': ArrState, c: CState, c': CState)
    requires Describes(st, c) && LoadedAt(st, lhs, e, st')
    requires Spells(c.mem, e, c'.env(lhs)) && (forall y :: y != lhs ==> c'.env(y) == c.env(y)) && c'.mem == c.mem
    ensures Describes(st', c')
  {}

  lemma ForgottenDescribes(st: ArrState, lhs: string, st': ArrState, c: CState, c': CState)
    requires Describes(st, c) && Forgotten(st, lhs, st')
    requires (forall y :: y != lhs ==> c'.env(y) == c.env(y)) && c'.mem == c.mem
    ensures Describes(st', c')
  {}

  /** With no cell left the bytes may be anything. */
  lemma EmptiedDescribes(st: ArrState, st': ArrState, c: CState, c': CState)
    requires Good(st) && Describes(st, c) && Emptied(st, st') && forall y :: c'.env(y) == c.env(y)
    ensures Describes(st', c')
  {}

  /** Every element from lb to ub spells v. */
  ghost predicate Filled(mem: Memory, n: nat, lb: int, ub: int, v: int)
    requires n > 0
    decreases ub - lb
  {
    lb <= ub ==> Spells(mem, ExtentAt(lb, n), v) && Filled(mem, n, lb + n, ub, v)
  }

  lemma {:induction false} StoresDescribe(st: ArrState, n: nat, lb: int, ub: int, val: Linear, st': ArrState, c: CState)
    requires Good(st) && n > 0 && Describes(st, c) && StoresFrom(st, n, lb, ub, val, st')
    requires Filled(c.mem, n, lb, ub, ValueOf(c.env, val.terms, val.constant))
    ensures Describes(st', c)
    decreases ub - lb
  {
    if lb > ub {
    } else {
      var v := ValueIn(st.inv, val);
      var mid :| StoredAt(st, ExtentAt(lb, n), v, mid) && StoresFrom(mid, n, lb + n, ub, val, st');
      EvalSound(st, c, val.terms, val.constant);
      StoredGood(st, ExtentAt(lb, n), v, mid);
      StoredDescribes(st, ExtentAt(lb, n), v, mid, c, c);
      StoresDescribe(mid, n, lb + n, ub, val, st', c);
    }
  }

  /* ----- runs ----- */

  datatype Op =
    | Store(size: nat, index: Linear, val: Linear)
    | Load(lhs: string, lsize: nat, lindex: Linear)
    | Init(esize: nat, lb: Linear, ub: Linear, ival: Linear)

  /** Sizes are positive, ranges do not wrap around, and a store has a constant index. */
  ghost predicate InScope(st: ArrState, op: Op) {
    match op
    case Store(size, index, _) => size > 0 && ValueIn(st.inv, index).Some? && Indexable(ValueIn(st.inv, index).value, size)
    case Load(_, size, index) => size > 0 && (ValueIn(st.inv, index).Some? ==> Indexable(ValueIn(st.inv, index).value, size))
    case Init(size, lb, ub, _) => size > 0 && InRange(ValueIn(st.inv, lb), ValueIn(st.inv, ub), size)
  }

  ghost predicate Applies(st: ArrState, op: Op, st': ArrState)
    requires InScope(st, op)
  {
    match op
    case Store(size, index, val) => StoredAt(st, ExtentAt(ValueIn(st.inv, index).value, size), ValueIn(st.inv, val), st')
    case Load(lhs, size, index) =>
      var i := ValueIn(st.inv, index);
      if i.Some? then LoadedAt(st, lhs, ExtentAt(i.value, size), st') else Forgotten(st, lhs, st')
    case Init(size, lb, ub, val) => InitializedAt(st, size, ValueIn(st.inv, lb), ValueIn(st.inv, ub), val, st')
  }

  ghost function ExprOf(c: CState, e: Linear): int {
    ValueOf(c.env, e.terms, e.constant)
  }

  /** A store whose value the domain knows stores a number that its bytes can hold. */
  ghost predicate Fitting(st: ArrState, op: Op, c: CState) {
    op.Store? && ValueIn(st.inv, op.val).Some? ==> Fits(R.Num(ExprOf(c, op.val)), op.size)
  }

  /** The same operations on the bytes. */
  ghost predicate Does(c: CState, op: Op, c': CState) {
    match op
    case Store(size, index, val) =>
      && (forall y :: c'.env(y) == c.env(y))
      && (forall k :: c'.mem(k) == Write(c.mem, ToU64(ExprOf(c, index)), size, R.Num(ExprOf(c, val)))(k))
    case Load(lhs, size, index) =>
      && Read(c.mem, ToU64(ExprOf(c, index)), size) == R.Num(c'.env(lhs))
      && (forall y :: y != lhs ==> c'.env(y) == c.env(y)) && c'.mem == c.mem
    case Init(size, lb, ub, val) =>
      && (forall y :: c'.env(y) == c.env(y)) && size > 0
      && Filled(c'.mem, size, ExprOf(c, lb), ExprOf(c, ub), ExprOf(c, val))
  }

  /** A store is sound exactly when the number, if the domain knows it, fits the bytes. */
  lemma StoreSoundIffFitting(st: ArrState, op: Op, st': ArrState, c: CState, c': CState)
    requires op.Store? && Good(st) && Describes(st, c) && InScope(st, op) && Applies(st, op, st') && Does(c, op, c')
    ensures Describes(st', c') <==> Fitting(st, op, c)
  {
    EvalSound(st, c, op.index.terms, op.index.constant);
    EvalSound(st, c, op.val.terms, op.val.constant);
    var i, n := ToU64(ExprOf(c, op.index)), R.Num(ExprOf(c, op.val));
    var e := Extent(i, op.size);
    var m := Write(c.mem, i, op.size, n);
    ReadBack(c.mem, i, op.size, n);
    ReadFrame(m, c'.mem, i, op.size);
    StoredFits(n, op.size);
    if Fitting(st, op, c) {
      forall k | !Within(i, op.size, k)
        ensures c'.mem(k) == c.mem(k)
      {
        assert c'.mem(k) == m(k);
      }
      StoredDescribes(st, e, ValueIn(st.inv, op.val), st', c, c');
    } else {
      assert Known(st'.inv, ScalarOf(e)) == Some(ExprOf(c, op.val));
      assert !Spells(c'.mem, e, ExprOf(c, op.val));
    }
  }

  lemma InitOpSound(st: ArrState, op: Op, st': ArrState, c: CState, c': CState)
    requires op.Init? && Good(st) && Describes(st, c) && InScope(st, op) && Applies(st, op, st') && Does(c, op, c')
    ensures Good(st') && Describes(st', c')
  {
    EvalSound(st, c, op.lb.terms, op.lb.constant);
    EvalSound(st, c, op.ub.terms, op.ub.constant);
    var lb, ub := ValueIn(st.inv, op.lb), ValueIn(st.inv, op.ub);
    var empty :| Emptied(st, empty) &&
      if FewElements(lb, ub) then StoresFrom(empty, op.esize, lb.value, ub.value, op.ival, st')
      else st' == empty;
    EmptiedGood(st, empty);
    EmptiedDescribes(st, empty, c, c');
    if FewElements(lb, ub) {
      SameValue(c.env, c'.env, op.ival.terms, op.ival.constant);
      StoresGood(empty, op.esize, lb.value, ub.value, op.ival, st');
      StoresDescribe(empty, op.esize, lb.value, ub.value, op.ival, st', c');
    }
  }

  lemma {:induction false} SameValue(f: string -> int, f': string -> int, terms: seq<(int, string)>, constant: int)
    requires forall y :: f'(y) == f(y)
    ensures ValueOf(f', terms, constant) == ValueOf(f, terms, constant)
  {
    if terms == [] {
    } else {
      SameValue(f, f', terms[..|terms| - 1], constant);
    }
  }

  /** One operation: the cells stay disjoint, and known scalars go on spelling the bytes of their cells. */
  lemma OpSound(st: ArrState, op: Op, st': ArrState, c: CState, c': CState)
    requires Good(st) && Describes(st, c) && InScope(st, op) && Applies(st, op, st') && Does(c, op, c') && Fitting(st, op, c)
    ensures Good(st') && Describes(st', c')
  {
    match op {
      case Store(size, index, val) =>
        StoredGood(st, ExtentAt(ValueIn(st.inv, index).value, size), ValueIn(st.inv, val), st');
        StoreSoundIffFitting(st, op, st', c, c');
      case Load(lhs, size, index) =>
        EvalSound(st, c, index.terms, index.constant);
        var i := ValueIn(st.inv, index);
        if i.Some? {
          LoadedGood(st, lhs, ExtentAt(i.value, size), st');
          LoadedDescribes(st, lhs, ExtentAt(i.value, size), st', c, c');
        } else {
          ForgottenGood(st, lhs, st');
          ForgottenDescribes(st, lhs, st', c, c');
        }
      case Init(_, _, _, _) => InitOpSound(st, op, st', c, c');
    }
  }

  lemma ForgottenGood(st: ArrState, lhs: string, st': ArrState)
    requires Good(st) && Forgotten(st, lhs, st')
    ensures Good(st')
  {
    forall f: Extent | ScalarOf(f) in st'.inv
      ensures f in st'.cells
    {
      assert Known(st'.inv, ScalarOf(f)) == Known(st.inv, ScalarOf(f));
    }
  }

  /** One operation of a run, on the abstract state and on the bytes. */
  ghost predicate StepAt(ops: seq<Op>, sts: seq<ArrState>, cs: seq<CState>, i: int)
    requires 0 <= i < |ops| && |sts| == |cs| == |ops| + 1
  {
    && InScope(sts[i], ops[i]) && Applies(sts[i], ops[i], sts[i + 1])
    && Does(cs[i], ops[i], cs[i + 1]) && Fitting(sts[i], ops[i], cs[i])
  }

  ghost predicate Runs(ops: seq<Op>, sts: seq<ArrState>, cs: seq<CState>) {
    |sts| == |cs| == |ops| + 1 && forall i :: 0 <= i < |ops| ==> StepAt(ops, sts, cs, i)
  }

  /** Nothing is known at first. */
  const Unknown: ArrState := ArrState(iset{}, map[])

  lemma NothingKnown(c: CState)
    ensures Good(Unknown) && Describes(Unknown, c)
  {}

  lemma StepSound(ops: seq<Op>, sts: seq<ArrState>, cs: seq<CState>, i: nat)
    requires i < |ops| && |sts| == |cs| == |ops| + 1 && StepAt(ops, sts, cs, i)
    requires Good(sts[i]) && Describes(sts[i], cs[i])
    ensures Good(sts[i + 1]) && Describes(sts[i + 1], cs[i + 1])
  {
    OpSound(sts[i], ops[i], sts[i + 1], cs[i], cs[i + 1]);
  }

  lemma {:induction false} ArrayRunKept(ops: seq<Op>, sts: seq<ArrState>, cs: seq<CState>, k: nat)
    requires Runs(ops, sts, cs) && k <= |ops| && Good(sts[0]) && Describes(sts[0], cs[0])
    ensures Good(sts[k]) && Describes(sts[k], cs[k])
    decreases k
  {
    if k == 0 {
    } else {
      ArrayRunKept(ops, sts, cs, k - 1);
      StepSound(ops, sts, cs, k - 1);
    }
  }

  /**
    Along any sequence of operations, from a state in which nothing is known,
    the cells stay disjoint and every known scalar equals the bytes of its cell.
   */
  lemma ArrayRunSound(ops: seq<Op>, sts: seq<ArrState>, cs: seq<CState>, k: nat)
    requires Runs(ops, sts, cs) && sts[0] == Unknown && k <= |ops|
    ensures Good(sts[k]) && Describes(sts[k], cs[k])
  {
    NothingKnown(cs[0]);
    ArrayRunKept(ops, sts, cs, k);
  }
}
