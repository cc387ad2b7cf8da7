/**
  Exactly which words the result of arithmetic on two tagged values describes.
 */
module ExactArithmetic {
  import opened Syntax
  import opened Rcp
  import S = SetDomains
  import A = ArithmeticMeaning

  /** An offset moved by the low 32 bits of a number, or past the limit of 2^30. */
  predicate Lands(add: bool, o: int, n: int, v: int) {
    var moved := if add then o + ToInt32(n) else o - ToInt32(n);
    moved > 0x4000_0000 || v == moved
  }

  lemma OffsetsIff(add: bool, x: S.IntSet, y: S.IntSet, v: int)
    ensures S.OffsetExec(add, x, y).Has(v) <==>
            exists o, n :: x.Has(o) && y.Has(n) && (x.top || y.top || Lands(add, o, n, v))
  {
    S.OffsetExecHas(add, x, y, v);
    var a := S.OffsetArith(add);
    if x.IsBot() || y.IsBot() { return; }
    if x.top || y.top {
      var o := SetWitness(x);
      var n := SetWitness(y);
      assert x.Has(o) && y.Has(n);
      return;
    }
    forall o, n
      ensures Lands(add, o, n, v) <==> S.Apply(a, o, n) > S.OFFSET_LIMIT || S.Apply(a, o, n) == v
    {}
    if o, n :| o in x.elems && n in y.elems && S.Apply(a, o, n) > S.OFFSET_LIMIT {
      assert Lands(add, o, n, v) && x.Has(o) && y.Has(n);
    }
    if o, n :| o in x.elems && n in y.elems && S.Apply(a, o, n) == v {
      assert Lands(add, o, n, v) && x.Has(o) && y.Has(n);
    }
    if o, n :| x.Has(o) && y.Has(n) && Lands(add, o, n, v) {
      assert o in x.elems && n in y.elems;
    }
  }

  /** The 64-bit distance of two offsets, or one past the limit of 2^30. */
  predicate Apart(o: int, o': int, v: int) {
    o - o' > 0x4000_0000 || v == ToU64(o - o')
  }

  lemma {:induction false} WordsIff(s: seq<int>, v: int)
    ensures v in S.Words(s) <==> exists x :: x in s && v == ToU64(x)
  {
    if s != [] {
      assert s == [s[0]] + s[1..];
      WordsIff(s[1..], v);
      if x :| x in s && v == ToU64(x) {
        assert x == s[0] || x in s[1..];
      }
    }
  }

  lemma DistancesIff(x: S.IntSet, y: S.IntSet, v: int)
    ensures S.OffsetDifference(x, y).Has(v) <==>
            exists o, o' :: x.Has(o) && y.Has(o') && (x.top || y.top || Apart(o, o', v))
  {
    if x.IsBot() || y.IsBot() { return; }
    if x.top || y.top {
      var o := SetWitness(x);
      var o' := SetWitness(y);
      assert x.Has(o) && y.Has(o');
      return;
    }
    var a := S.OffsetDiff;
    if S.SomeLarge(a, x.elems, y.elems) {
      var o, o' :| o in x.elems && o' in y.elems && S.Apply(a, o, o') > S.OFFSET_LIMIT;
      assert Apart(o, o', v) && x.Has(o) && y.Has(o');
      return;
    }
    var s := S.Image(a, x.elems, y.elems, []);
    WordsIff(s, v);
    if w :| w in s && v == ToU64(w) {
      S.ImageMembers(a, x.elems, y.elems, [], w);
      var o, o' :| o in x.elems && o' in y.elems && w == S.Apply(a, o, o');
      assert Apart(o, o', v) && x.Has(o) && y.Has(o');
    }
    if o, o' :| x.Has(o) && y.Has(o') && Apart(o, o', v) {
      assert S.Apply(a, o, o') == o - o';
      S.ImageMembers(a, x.elems, y.elems, [], o - o');
      assert o - o' in s && v == ToU64(o - o');
    }
  }

  lemma NumbersHave(op: BinOp, x: S.IntSet, y: S.IntSet, v: int)
    requires S.Computes(op, x, y)
    ensures S.NumExec(op, x, y).Has(v) <==>
            exists k, n :: x.Has(k) && y.Has(n) && (x.top || y.top || v == S.Apply(S.OnWords(op), k, n))
  {
    S.NumExecExact(op, x, y, v);
    if (x.top || y.top) && !x.IsBot() && !y.IsBot() {
      var k := SetWitness(x);
      var n := SetWitness(y);
      assert x.Has(k) && y.Has(n);
    }
  }

  /* ----- tagged values ----- */

  /** x is computed from a number of d and a number of e, or one of them is unknown. */
  ghost predicate FromNumbers(op: BinOp, d: Rcp, e: Rcp, x: int) {
    exists k, n :: Contains(d, Num(k)) && Contains(e, Num(n)) && (d.num.top || e.num.top || x == S.Apply(S.OnWords(op), k, n))
  }

  /** The pointer is one of d moved by a number of e; past the limit, or when one of them is unknown, it may be any. */
  ghost predicate FromMove(add: bool, d: Rcp, e: Rcp, r: Region, v: int)
    requires IsRegion(r)
  {
    exists o, n :: Contains(d, Ptr(r, o)) && Contains(e, Num(n)) && (Offsets(d, r).top || e.num.top || Lands(add, o, n, v))
  }

  /** x is how far a pointer of d is from a pointer of e to the same region. */
  ghost predicate FromDistance(d: Rcp, e: Rcp, x: int) {
    exists r | IsRegion(r) :: DistanceIn(d, e, r, x)
  }

  ghost predicate DistanceIn(d: Rcp, e: Rcp, r: Region, x: int)
    requires IsRegion(r)
  {
    exists o, o' :: Contains(d, Ptr(r, o)) && Contains(e, Ptr(r, o')) && (Offsets(d, r).top || Offsets(e, r).top || Apart(o, o', x))
  }

  lemma FromNumbersIff(op: BinOp, d: Rcp, e: Rcp, x: int)
    requires S.Computes(op, d.num, e.num)
    ensures S.NumExec(op, d.num, e.num).Has(x) <==> FromNumbers(op, d, e, x)
  {
    NumbersHave(op, d.num, e.num, x);
    forall k
      ensures Contains(d, Num(k)) <==> d.num.Has(k)
      ensures Contains(e, Num(k)) <==> e.num.Has(k)
    {}
  }

  lemma FromMoveIff(add: bool, d: Rcp, e: Rcp, r: Region, v: int)
    requires IsRegion(r)
    ensures S.OffsetExec(add, Offsets(d, r), e.num).Has(v) <==> FromMove(add, d, e, r, v)
  {
    OffsetsIff(add, Offsets(d, r), e.num, v);
    forall k
      ensures Contains(d, Ptr(r, k)) <==> Offsets(d, r).Has(k)
      ensures Contains(e, Num(k)) <==> e.num.Has(k)
    {}
  }

  lemma DistanceInIff(d: Rcp, e: Rcp, r: Region, x: int)
    requires IsRegion(r)
    ensures Differences(d, e, r).Has(x) <==> DistanceIn(d, e, r, x)
  {
    DistancesIff(Offsets(d, r), Offsets(e, r), x);
    forall k
      ensures Contains(d, Ptr(r, k)) <==> Offsets(d, r).Has(k)
      ensures Contains(e, Ptr(r, k)) <==> Offsets(e, r).Has(k)
    {}
  }

  /**
    A sum describes the sums of numbers, the pointers of each side moved by
    the numbers of the other, and the map descriptors of the left.
   */
  lemma SumIff(d: Rcp, e: Rcp, w: Word)
    requires !w.Junk?
    ensures Contains(A.Arithmetic(ADD, d, e), w) <==>
      match w
      case Num(x) => FromNumbers(ADD, d, e, x)
      case Ptr(r, o) => IsRegion(r) && (FromMove(true, d, e, r, o) || FromMove(true, e, d, r, o))
      case _ => Contains(d, w)
  {
    match w {
      case Num(x) => FromNumbersIff(ADD, d, e, x);
      case Ptr(r, o) =>
        if IsRegion(r) {
          AddOffsets(d, e, r);
          FromMoveIff(true, d, e, r, o);
          FromMoveIff(true, e, d, r, o);
          S.JoinHas(S.OffsetExec(true, Offsets(e, r), d.num), S.OffsetExec(true, Offsets(d, r), e.num), o);
        }
      case _ =>
    }
  }

  /**
    A difference describes the differences of numbers and of pointers to one
    region, the pointers of the left moved back by the numbers of the right,
    and the map descriptors of the left.
   */
  lemma DifferenceIff(d: Rcp, e: Rcp, w: Word)
    requires !w.Junk?
    ensures Contains(A.Arithmetic(SUB, d, e), w) <==>
      match w
      case Num(x) => FromNumbers(SUB, d, e, x) || FromDistance(d, e, x)
      case Ptr(r, o) => IsRegion(r) && FromMove(false, d, e, r, o)
      case _ => Contains(d, w)
  {
    match w {
      case Num(x) =>
        SubNumHas(d, e, x);
        FromNumbersIff(SUB, d, e, x);
        forall r | IsRegion(r)
          ensures Differences(d, e, r).Has(x) <==> DistanceIn(d, e, r, x)
        {
          DistanceInIff(d, e, r, x);
        }
      case Ptr(r, o) =>
        if IsRegion(r) {
          SubOffsets(d, e, r);
          FromMoveIff(false, d, e, r, o);
        }
      case _ =>
    }
  }

  /** The other operations compute with the numbers and leave the pointers and descriptors of the left as they are. */
  lemma OtherResultIff(op: BinOp, d: Rcp, e: Rcp, w: Word)
    requires !op.ADD? && !op.SUB? && S.Computes(op, d.num, e.num) && !w.Junk?
    ensures Contains(A.Arithmetic(op, d, e), w) <==>
      match w
      case Num(x) => FromNumbers(op, d, e, x)
      case _ => Contains(d, w)
  {
    match w {
      case Num(x) => FromNumbersIff(op, d, e, x);
      case Ptr(r, _) =>
        if IsRegion(r) { assert Offsets(A.Arithmetic(op, d, e), r) == Offsets(d, r); }
      case _ =>
    }
  }

  /** A base moved by a displacement: the pointers of an address. */
  lemma AddressIff(d: Rcp, k: U64, r: Region, o: int)
    requires IsRegion(r)
    ensures Contains(Add(d, Number(k)), Ptr(r, o)) <==>
            Offsets(d, r).top || exists o' :: Contains(d, Ptr(r, o')) && (o' + ToInt32(k) > 0x4000_0000 || o == o' + ToInt32(k))
  {
    var e := Number(k);
    SumIff(d, e, Ptr(r, o));
    forall n
      ensures Contains(e, Num(n)) <==> n == k
    {}
    forall o'
      ensures !Contains(e, Ptr(r, o'))
      ensures Contains(d, Ptr(r, o')) <==> Offsets(d, r).Has(o')
    {}
    if Offsets(d, r).top { assert Contains(d, Ptr(r, 0)) && Contains(e, Num(k)); }
    forall o'
      ensures Lands(true, o', k, o) <==> o' + ToInt32(k) > 0x4000_0000 || o == o' + ToInt32(k)
    {}
    if o' :| Contains(d, Ptr(r, o')) && (o' + ToInt32(k) > 0x4000_0000 || o == o' + ToInt32(k)) {
      assert Contains(d, Ptr(r, o')) && Contains(e, Num(k)) && Lands(true, o', k, o);
    }
  }
}
