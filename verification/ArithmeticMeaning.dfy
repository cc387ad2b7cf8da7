/**
  What arithmetic instructions mean for tagged words, and for which operands
  the domain's result describes it.
 */
module ArithmeticMeaning {
  import opened Syntax
  import S = SetDomains
  import opened Rcp

  /** The word that the instruction computes, where it has a tagged meaning: sections 4.1 and 4.2 of RFC 9669. */
  function WordResult(op: BinOp, is64: bool, v: Word, u: Word): Option<Word> {
    if op.ADD? && is64 then WordAdd(v, u)
    else if op.SUB? && is64 then WordSub(v, u)
    else if v.Num? && u.Num? then Some(Num(S.Meant(op, is64, v.n, u.n)))
    else None
  }

  /** What the domain computes; it does not look at the width. */
  function Arithmetic(op: BinOp, d: Rcp, e: Rcp): Rcp
    requires S.Computes(op, d.num, e.num)
  {
    if op.ADD? then Add(d, e) else if op.SUB? then Sub(d, e) else Exec(op, d, e)
  }

  /** The result describes what the instruction computes from any two described words. */
  ghost predicate Describes(op: BinOp, is64: bool, d: Rcp, e: Rcp)
    requires S.Computes(op, d.num, e.num)
  {
    forall v, u :: Contains(d, v) && Contains(e, u) && WordResult(op, is64, v, u).Some? ==>
      Contains(Arithmetic(op, d, e), WordResult(op, is64, v, u).value)
  }

  /* ----- numbers ----- */

  predicate SomeDifference(d: Rcp, e: Rcp, x: int) {
    exists r | r in Regions :: IsRegion(r) && Differences(d, e, r).Has(x)
  }

  /** A number of the result: computed for a pair of elements, or the difference of two pointers. */
  predicate Computed(op: BinOp, d: Rcp, e: Rcp, x: int) {
    S.InImage(op, d.num, e.num, x) || (op.SUB? && SomeDifference(d, e, x))
  }

  /** The meaning of every pair of elements is a number of the result; unknown numbers make it unknown. */
  predicate NumbersCovered(op: BinOp, is64: bool, d: Rcp, e: Rcp) {
    d.num.top || e.num.top ||
    forall k, n :: k in d.num.elems && n in e.num.elems ==> Computed(op, d, e, S.Meant(op, is64, k, n))
  }

  lemma ImageHas(op: BinOp, d: Rcp, e: Rcp, x: int)
    requires S.Computes(op, d.num, e.num) && !d.num.top && !e.num.top
    ensures Arithmetic(op, d, e).num.Has(x) <==> Computed(op, d, e, x)
  {
    S.NumExecExact(op, d.num, e.num, x);
    if op.SUB? {
      SubNumHas(d, e, x);
      assert (exists r :: IsRegion(r) && Differences(d, e, r).Has(x)) <==> SomeDifference(d, e, x) by {
        forall r | IsRegion(r)
          ensures r in Regions
        {
          AllRegions(r);
        }
      }
    }
  }

  lemma UnknownNumbers(op: BinOp, d: Rcp, e: Rcp, k: int, n: int, x: int)
    requires S.Computes(op, d.num, e.num) && (d.num.top || e.num.top) && d.num.Has(k) && e.num.Has(n)
    ensures Arithmetic(op, d, e).num.Has(x)
  {
    if op.SUB? { SubNumHas(d, e, x); }
  }

  /** The numbers of the result describe the meaning of every two numbers exactly when the elements' meanings are covered. */
  lemma NumbersIff(op: BinOp, is64: bool, d: Rcp, e: Rcp)
    requires S.Computes(op, d.num, e.num)
    ensures (forall k, n :: d.num.Has(k) && e.num.Has(n) ==> Arithmetic(op, d, e).num.Has(S.Meant(op, is64, k, n))) <==>
            NumbersCovered(op, is64, d, e)
  {
    forall k, n | d.num.Has(k) && e.num.Has(n)
      ensures Arithmetic(op, d, e).num.Has(S.Meant(op, is64, k, n)) <==>
              d.num.top || e.num.top || Computed(op, d, e, S.Meant(op, is64, k, n))
    {
      if d.num.top || e.num.top {
        UnknownNumbers(op, d, e, k, n, S.Meant(op, is64, k, n));
      } else {
        ImageHas(op, d, e, S.Meant(op, is64, k, n));
      }
    }
  }

  /* ----- pointers ----- */

  /** An offset of the sum in one region: the pointers x moved by the numbers n, or the pointers y by m. */
  predicate InSums(x: S.IntSet, n: S.IntSet, y: S.IntSet, m: S.IntSet, o: int) {
    S.InMoves(true, x, n, o) || S.InMoves(true, y, m, o)
  }

  predicate SumsTop(x: S.IntSet, n: S.IntSet, y: S.IntSet, m: S.IntSet) {
    S.MovesTop(true, x, n) || S.MovesTop(true, y, m)
  }

  /** Every pointer of x moved by every number of n, as 64-bit words, is an offset of the sum. */
  predicate HalfCovered(x: S.IntSet, n: S.IntSet, y: S.IntSet, m: S.IntSet) {
    forall o, k :: o in x.elems && k in n.elems ==> InSums(x, n, y, m, S.Moved(true, o, k))
  }

  predicate SumsCovered(d: Rcp, e: Rcp, r: Region)
    requires IsRegion(r)
  {
    var x, y := Offsets(d, r), Offsets(e, r);
    SumsTop(x, e.num, y, d.num) || (HalfCovered(x, e.num, y, d.num) && HalfCovered(y, d.num, x, e.num))
  }

  lemma SumHas(x: S.IntSet, n: S.IntSet, y: S.IntSet, m: S.IntSet, o: int)
    ensures OffsetsPlus(m, x, n, y).Has(o) <==> SumsTop(x, n, y, m) || InSums(x, n, y, m, o)
  {
    S.OffsetExecHas(true, x, n, o);
    S.OffsetExecHas(true, y, m, o);
    S.JoinHas(S.OffsetExec(true, y, m), S.OffsetExec(true, x, n), o);
  }

  lemma KnownPair(add: bool, x: S.IntSet, n: S.IntSet, o: int, k: int)
    requires !S.MovesTop(add, x, n)
    ensures x.Has(o) && n.Has(k) <==> o in x.elems && k in n.elems
  {}

  lemma HalfIff(x: S.IntSet, n: S.IntSet, y: S.IntSet, m: S.IntSet, res: S.IntSet)
    requires forall o :: res.Has(o) <==> SumsTop(x, n, y, m) || InSums(x, n, y, m, o)
    ensures S.MovedInto(true, x, n, res) <==> SumsTop(x, n, y, m) || HalfCovered(x, n, y, m)
  {
    if !SumsTop(x, n, y, m) {
      forall o, k
        ensures x.Has(o) && n.Has(k) <==> o in x.elems && k in n.elems
      {
        KnownPair(true, x, n, o, k);
      }
    }
  }

  /** In each region the sum holds every moved pointer of either operand exactly when the elements' sums are covered. */
  lemma PointerSumsIff(d: Rcp, e: Rcp, r: Region)
    requires IsRegion(r)
    ensures var res := Offsets(Add(d, e), r);
            S.MovedInto(true, Offsets(d, r), e.num, res) && S.MovedInto(true, Offsets(e, r), d.num, res) <==> SumsCovered(d, e, r)
  {
    AddOffsets(d, e, r);
    var x, y, res := Offsets(d, r), Offsets(e, r), Offsets(Add(d, e), r);
    forall o
      ensures res.Has(o) <==> SumsTop(x, e.num, y, d.num) || InSums(x, e.num, y, d.num, o)
    {
      SumHas(x, e.num, y, d.num, o);
    }
    HalfIff(x, e.num, y, d.num, res);
    HalfIff(y, d.num, x, e.num, res);
  }

  predicate MovesCovered(x: S.IntSet, n: S.IntSet) {
    S.MovesTop(false, x, n) || forall o, k :: o in x.elems && k in n.elems ==> S.InMoves(false, x, n, S.Moved(false, o, k))
  }

  predicate DifferencesCovered(d: Rcp, e: Rcp, r: Region)
    requires IsRegion(r)
  {
    MovesCovered(Offsets(d, r), e.num)
  }

  lemma MovesIff(x: S.IntSet, n: S.IntSet)
    ensures S.MovedInto(false, x, n, S.OffsetExec(false, x, n)) <==> MovesCovered(x, n)
  {
    forall o
      ensures S.OffsetExec(false, x, n).Has(o) <==> S.MovesTop(false, x, n) || S.InMoves(false, x, n, o)
    {
      S.OffsetExecHas(false, x, n, o);
    }
    if !S.MovesTop(false, x, n) {
      forall o, k
        ensures x.Has(o) && n.Has(k) <==> o in x.elems && k in n.elems
      {
        KnownPair(false, x, n, o, k);
      }
    }
  }

  /** The same for the difference. */
  lemma PointerDifferencesIff(d: Rcp, e: Rcp, r: Region)
    requires IsRegion(r)
    ensures S.MovedInto(false, Offsets(d, r), e.num, Offsets(Sub(d, e), r)) <==> DifferencesCovered(d, e, r)
  {
    SubOffsets(d, e, r);
    MovesIff(Offsets(d, r), e.num);
  }

  /* ----- all of it ----- */

  /** In every region, the pointers moved by numbers are covered. */
  predicate PointersCovered(op: BinOp, is64: bool, d: Rcp, e: Rcp) {
    && (op.ADD? && is64 ==> forall r | r in Regions :: IsRegion(r) ==> SumsCovered(d, e, r))
    && (op.SUB? && is64 ==> forall r | r in Regions :: IsRegion(r) ==> DifferencesCovered(d, e, r))
  }

  /** A check of finitely many elements: no meaning is missing from the result. */
  predicate Covered(op: BinOp, is64: bool, d: Rcp, e: Rcp) {
    NumbersCovered(op, is64, d, e) && PointersCovered(op, is64, d, e)
  }

  lemma EveryRegion(r: Region)
    ensures IsRegion(r) ==> r in Regions
  {
    if IsRegion(r) { AllRegions(r); }
  }

  lemma DescribesNumber(op: BinOp, is64: bool, d: Rcp, e: Rcp, k: int, n: int)
    requires S.Computes(op, d.num, e.num) && Describes(op, is64, d, e) && d.num.Has(k) && e.num.Has(n)
    ensures Arithmetic(op, d, e).num.Has(S.Meant(op, is64, k, n))
  {
    var x, v := Arithmetic(op, d, e), Num(S.Meant(op, is64, k, n));
    assert Contains(d, Num(k)) && Contains(e, Num(n));
    assert WordResult(op, is64, Num(k), Num(n)) == Some(v);
    assert Contains(x, v);
  }

  lemma DescribesNumbers(op: BinOp, is64: bool, d: Rcp, e: Rcp)
    requires S.Computes(op, d.num, e.num) && Describes(op, is64, d, e)
    ensures NumbersCovered(op, is64, d, e)
  {
    forall k, n | d.num.Has(k) && e.num.Has(n)
      ensures Arithmetic(op, d, e).num.Has(S.Meant(op, is64, k, n))
    {
      DescribesNumber(op, is64, d, e, k, n);
    }
    NumbersIff(op, is64, d, e);
  }

  lemma CoveredNumbers(op: BinOp, is64: bool, d: Rcp, e: Rcp, v: Word, u: Word)
    requires S.Computes(op, d.num, e.num) && NumbersCovered(op, is64, d, e)
    requires Contains(d, v) && Contains(e, u) && v.Num? && u.Num?
    ensures Contains(Arithmetic(op, d, e), WordResult(op, is64, v, u).value)
  {
    NumbersIff(op, is64, d, e);
    assert Arithmetic(op, d, e).num.Has(S.Meant(op, is64, v.n, u.n));
  }

  lemma DescribesSums(d: Rcp, e: Rcp, r: Region)
    requires Describes(ADD, true, d, e) && IsRegion(r)
    ensures SumsCovered(d, e, r)
  {
    var res := Offsets(Add(d, e), r);
    forall o, n | Offsets(d, r).Has(o) && e.num.Has(n)
      ensures res.Has(S.Moved(true, o, n))
    {
      assert Contains(d, Ptr(r, o)) && Contains(e, Num(n));
    }
    forall o, n | Offsets(e, r).Has(o) && d.num.Has(n)
      ensures res.Has(S.Moved(true, o, n))
    {
      assert Contains(d, Num(n)) && Contains(e, Ptr(r, o));
    }
    PointerSumsIff(d, e, r);
  }

  /** What PointerSumsIff gives for one region. */
  ghost predicate SumsMoved(d: Rcp, e: Rcp, r: Region)
    requires IsRegion(r)
  {
    && S.MovedInto(true, Offsets(d, r), e.num, Offsets(Add(d, e), r))
    && S.MovedInto(true, Offsets(e, r), d.num, Offsets(Add(d, e), r))
  }

  lemma MovedPointer(d: Rcp, e: Rcp, v: Word, u: Word)
    requires Contains(d, v) && Contains(e, u) && WordAdd(v, u).Some? && !(v.Num? && u.Num?)
    requires SumsMoved(d, e, if v.Ptr? then v.region else u.region)
    ensures Contains(Add(d, e), WordAdd(v, u).value)
  {
    var res := Add(d, e);
    match (v, u) {
      case (Ptr(r, o), Num(n)) => assert Offsets(res, r).Has(S.Moved(true, o, n));
      case (Num(n), Ptr(r, o)) => assert Offsets(res, r).Has(S.Moved(true, o, n));
      case _ =>
    }
  }

  lemma CoveredSums(d: Rcp, e: Rcp, v: Word, u: Word)
    requires Contains(d, v) && Contains(e, u) && WordAdd(v, u).Some? && !(v.Num? && u.Num?)
    requires SumsCovered(d, e, if v.Ptr? then v.region else u.region)
    ensures Contains(Add(d, e), WordAdd(v, u).value)
  {
    PointerSumsIff(d, e, if v.Ptr? then v.region else u.region);
    MovedPointer(d, e, v, u);
  }

  lemma DescribesDifferences(d: Rcp, e: Rcp, r: Region)
    requires Describes(SUB, true, d, e) && IsRegion(r)
    ensures DifferencesCovered(d, e, r)
  {
    var x := Sub(d, e);
    forall o, n | Offsets(d, r).Has(o) && e.num.Has(n)
      ensures Offsets(x, r).Has(S.Moved(false, o, n))
    {
      assert Contains(d, Ptr(r, o)) && Contains(e, Num(n));
      assert Contains(x, Ptr(r, S.Moved(false, o, n)));
    }
    PointerDifferencesIff(d, e, r);
  }

  lemma CoveredDifferences(d: Rcp, e: Rcp, v: Word, u: Word)
    requires v.Ptr? ==> IsRegion(v.region) && DifferencesCovered(d, e, v.region)
    requires Contains(d, v) && Contains(e, u) && WordSub(v, u).Some? && !(v.Num? && u.Num?)
    ensures Contains(Sub(d, e), WordSub(v, u).value)
  {
    if u.Ptr? {
      SubPointers(d, e, v, u);
    } else {
      PointerDifferencesIff(d, e, v.region);
      assert Offsets(Sub(d, e), v.region).Has(S.Moved(false, v.offset, u.n));
    }
  }

  lemma CoveredDescribes(op: BinOp, is64: bool, d: Rcp, e: Rcp, v: Word, u: Word)
    requires S.Computes(op, d.num, e.num) && Covered(op, is64, d, e)
    requires Contains(d, v) && Contains(e, u) && WordResult(op, is64, v, u).Some?
    ensures Contains(Arithmetic(op, d, e), WordResult(op, is64, v, u).value)
  {
    forall r
      ensures IsRegion(r) ==> r in Regions
    {
      EveryRegion(r);
    }
    if v.Num? && u.Num? {
      CoveredNumbers(op, is64, d, e, v, u);
    } else if op.ADD? {
      CoveredSums(d, e, v, u);
    } else {
      CoveredDifferences(d, e, v, u);
    }
  }

  /**
    What the domain computes describes what the instruction computes, for any
    two described words, exactly when no meaning is missing from the result.
   */
  lemma DescribesIffCovered(op: BinOp, is64: bool, d: Rcp, e: Rcp)
    requires S.Computes(op, d.num, e.num)
    ensures Describes(op, is64, d, e) <==> Covered(op, is64, d, e)
  {
    if Describes(op, is64, d, e) {
      DescribesNumbers(op, is64, d, e);
      forall r | IsRegion(r)
        ensures op.ADD? && is64 ==> SumsCovered(d, e, r)
        ensures op.SUB? && is64 ==> DifferencesCovered(d, e, r)
      {
        if op.ADD? && is64 { DescribesSums(d, e, r); }
        if op.SUB? && is64 { DescribesDifferences(d, e, r); }
      }
    }
    if Covered(op, is64, d, e) {
      forall v, u | Contains(d, v) && Contains(e, u) && WordResult(op, is64, v, u).Some?
        ensures Contains(Arithmetic(op, d, e), WordResult(op, is64, v, u).value)
      {
        CoveredDescribes(op, is64, d, e, v, u);
      }
    }
  }

  /** 64-bit operations on numbers are covered, but for the right shifts. */
  lemma WideNumbersCovered(op: BinOp, d: Rcp, e: Rcp)
    requires S.Computes(op, d.num, e.num) && !op.RSH? && !op.ARSH?
    ensures NumbersCovered(op, true, d, e)
  {
    S.WideCovers(op, d.num, e.num);
  }

  /** A 32-bit sum that wraps around is lost. */
  lemma NarrowSumLost()
    ensures !Contains(Add(Number(0xFFFF_FFFF), Number(1)), Num(S.Meant(ADD, false, 0xFFFF_FFFF, 1)))
  {
    S.NumExecExact(ADD, S.Single(0xFFFF_FFFF), S.Single(1), 0);
  }
}
