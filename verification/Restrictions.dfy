/**
  Assuming a comparison of two tagged values, exactly which words are kept, and
  asking whether it is satisfied, exactly when the answer is yes.
 */
module Restrictions {
  import opened Syntax
  import S = SetDomains
  import opened Rcp

  /** Nothing is known of the component that the word belongs to. */
  ghost predicate UnknownFor(d: Rcp, v: Word) {
    match v
    case Num(_) => d.num.top
    case Ptr(r, _) => IsRegion(r) && Offsets(d, r).top
    case _ => false
  }

  /** Some word that e describes compares with v. */
  ghost predicate Feasible(op: CondOp, v: Word, e: Rcp) {
    exists u :: Contains(e, u) && WordHolds(op, v, u)
  }

  lemma NumberKept(d: Rcp, op: CondOp, e: Rcp, n: int)
    requires Ordered(d) && Ordered(e) && IsOrderOrEq(op)
    ensures Contains(Restrict(d, op, e, TypesFor(op)), Num(n)) <==>
            Contains(d, Num(n)) && (e.num.top || (d.num.top && !op.EQ?) || Feasible(op, Num(n), e))
  {
    S.RestrictHas(op, d.num, e.num, n);
    if u :| u in e.num.elems && Compare(op, n, u) {
      assert Contains(e, Num(u)) && WordHolds(op, Num(n), Num(u));
    }
  }

  lemma PointerKept(d: Rcp, op: CondOp, e: Rcp, r: Region, o: int)
    requires Ordered(d) && Ordered(e) && IsOrderOrEq(op) && IsRegion(r)
    ensures Contains(Restrict(d, op, e, TypesFor(op)), Ptr(r, o)) <==>
            Contains(d, Ptr(r, o)) && (Offsets(e, r).top || (Offsets(d, r).top && !op.EQ?) || Feasible(op, Ptr(r, o), e))
  {
    AllRegions(r);
    RestrictOffsets(d, op, e, TypesFor(op), r);
    S.RestrictHas(op, Offsets(d, r), Offsets(e, r), o);
    if u :| u in Offsets(e, r).elems && Compare(op, o, u) {
      assert Contains(e, Ptr(r, u)) && WordHolds(op, Ptr(r, o), Ptr(r, u));
    }
  }

  /**
    EQ and the order comparisons keep a number or pointer exactly when some
    word on the right compares with it, or its component is unknown on the
    right, or (but for EQ) unknown on the left.
   */
  lemma KeptIff(d: Rcp, op: CondOp, e: Rcp, v: Word)
    requires Ordered(d) && Ordered(e) && IsOrderOrEq(op) && (v.Num? || v.Ptr?)
    ensures Contains(Restrict(d, op, e, TypesFor(op)), v) <==>
            Contains(d, v) && (UnknownFor(e, v) || (UnknownFor(d, v) && !op.EQ?) || Feasible(op, v, e))
  {
    match v {
      case Num(n) => NumberKept(d, op, e, n);
      case Ptr(r, o) => if IsRegion(r) { PointerKept(d, op, e, r, o); }
    }
  }

  /** Map descriptors: EQ keeps the common ones, NE the others, and the order comparisons all. */
  lemma DescriptorsKept(d: Rcp, op: CondOp, e: Rcp, i: int)
    ensures Contains(Restrict(d, op, e, TypesFor(op)), MapFd(i)) <==>
            Contains(d, MapFd(i)) && (op.EQ? ==> Contains(e, MapFd(i))) && (op.NE? ==> !Contains(e, MapFd(i)))
  {
    assert FdTag in TypesFor(EQ) && FdTag in TypesFor(NE);
  }

  /** SET and NSET keep every word. */
  lemma MasksKeepAll(d: Rcp, op: CondOp, e: Rcp, v: Word)
    requires op.SET? || op.NSET?
    ensures Contains(Restrict(d, op, e, TypesFor(op)), v) <==> Contains(d, v)
  {
    var x := Restrict(d, op, e, TypesFor(op));
    assert x.num == d.num;
    forall r | IsRegion(r)
      ensures Offsets(x, r) == Offsets(d, r)
    {
      RestrictOffsets(d, op, e, TypesFor(op), r);
    }
  }

  /* ----- satisfied ----- */

  predicate IsKnownTag(t: Tag) {
    t.NumTag? || (t.OffsetTag? && IsRegion(t.region))
  }

  /** For NE the word differs from every word of e; for the other comparisons it compares with some. */
  ghost predicate Passes(op: CondOp, v: Word, e: Rcp) {
    if op.NE? then !Contains(e, v) else Feasible(op, v, e)
  }

  lemma FeasibleIff(op: CondOp, t: Tag, x: int, e: Rcp)
    requires IsKnownTag(t) && IsOrderOrEq(op)
    ensures Feasible(op, WordOf(t, x), e) <==> exists u :: Component(e, t).Has(u) && Compare(op, x, u)
  {
    if u :| Component(e, t).Has(u) && Compare(op, x, u) {
      assert Contains(e, WordOf(t, u)) && WordHolds(op, WordOf(t, x), WordOf(t, u));
    }
    if w :| Contains(e, w) && WordHolds(op, WordOf(t, x), w) {
      var u := if w.Num? then w.n else w.offset;
      assert w == WordOf(t, u);
    }
  }

  /** In one component: known on both sides, and every element passes. */
  lemma ComponentSatisfiedIff(d: Rcp, op: CondOp, e: Rcp, t: Tag)
    requires IsKnownTag(t) && (IsOrderOrEq(op) || op.NE?) && Ordered(d) && Ordered(e)
    requires !Component(d, t).IsBot() && !Component(e, t).IsBot()
    ensures S.Satisfied(op, Component(d, t), Component(e, t)) <==>
            !Component(d, t).top && !Component(e, t).top && forall k :: Component(d, t).Has(k) ==> Passes(op, WordOf(t, k), e)
  {
    var x, y := Component(d, t), Component(e, t);
    if x.top || y.top { return; }
    S.SatisfiedExact(op, x, y);
    if op.NE? {
      assert forall k :: Passes(op, WordOf(t, k), e) <==> !y.Has(k);
      assert S.AllPairs(op, x, y) <==> forall k :: x.Has(k) ==> !y.Has(k);
    } else {
      forall k
        ensures Passes(op, WordOf(t, k), e) <==> S.SomePair(op, k, y)
      {
        FeasibleIff(op, t, k, e);
      }
    }
  }

  /** Every word of this tag passes, unless e has none of it. */
  ghost predicate TagPasses(d: Rcp, op: CondOp, e: Rcp, t: Tag) {
    forall v :: Contains(d, v) && TagOf(v) == Some(t) && Inhabited(e, t) ==>
      !UnknownFor(d, v) && !UnknownFor(e, v) && Passes(op, v, e)
  }

  lemma WordOfTag(d: Rcp, e: Rcp, t: Tag, k: int)
    requires IsKnownTag(t)
    ensures Contains(d, WordOf(t, k)) <==> Component(d, t).Has(k)
    ensures TagOf(WordOf(t, k)) == Some(t)
    ensures UnknownFor(e, WordOf(t, k)) <==> Component(e, t).top
  {}

  lemma TagPassesByElement(d: Rcp, op: CondOp, e: Rcp, t: Tag)
    requires IsKnownTag(t) && !Component(e, t).IsBot()
    ensures TagPasses(d, op, e, t) <==>
            forall k :: Component(d, t).Has(k) ==> !Component(d, t).top && !Component(e, t).top && Passes(op, WordOf(t, k), e)
  {
    if TagPasses(d, op, e, t) {
      forall k | Component(d, t).Has(k)
        ensures !Component(d, t).top && !Component(e, t).top && Passes(op, WordOf(t, k), e)
      {
        WordOfTag(d, d, t, k);
        WordOfTag(d, e, t, k);
      }
    } else {
      var v :| Contains(d, v) && TagOf(v) == Some(t) && !(!UnknownFor(d, v) && !UnknownFor(e, v) && Passes(op, v, e));
      var k := if v.Num? then v.n else v.offset;
      assert v == WordOf(t, k);
      WordOfTag(d, d, t, k);
      WordOfTag(d, e, t, k);
    }
  }

  lemma TagPassesIff(d: Rcp, op: CondOp, e: Rcp, t: Tag)
    requires IsKnownTag(t) && (IsOrderOrEq(op) || op.NE?) && Ordered(d) && Ordered(e)
    ensures S.Satisfied(op, Component(d, t), Component(e, t)) <==> TagPasses(d, op, e, t)
  {
    var x, y := Component(d, t), Component(e, t);
    if y.IsBot() {
      assert !Inhabited(e, t);
    } else {
      TagPassesByElement(d, op, e, t);
      if !x.IsBot() {
        ComponentSatisfiedIff(d, op, e, t);
        var k := SetWitness(x);
      }
    }
  }

  /** The components that the verdict asks about, map descriptors aside. */
  lemma SatisfiedByTag(d: Rcp, op: CondOp, e: Rcp, types: set<Tag>)
    requires FdTag !in types && IsOfType(d, types) && IsOfType(e, types)
    ensures Satisfied(d, op, e, types) <==> forall t :: t in types && IsKnownTag(t) ==> S.Satisfied(op, Component(d, t), Component(e, t))
  {
    if Satisfied(d, op, e, types) {
      forall t | t in types && IsKnownTag(t)
        ensures S.Satisfied(op, Component(d, t), Component(e, t))
      {
        match t {
          case NumTag =>
          case OffsetTag(r) => assert r.MapValue? ==> d.maps[r.index] == Offsets(d, r);
        }
      }
    } else {
      assert forall i | 0 <= i < NMAPS :: IsKnownTag(OffsetTag(MapValue(i))) && Component(d, OffsetTag(MapValue(i))) == d.maps[i];
      assert IsKnownTag(OffsetTag(CtxMem)) && IsKnownTag(OffsetTag(StackMem)) && IsKnownTag(OffsetTag(PacketMem)) && IsKnownTag(NumTag);
    }
  }

  /**
    The verdict is yes exactly when some word of d is of other types, or those
    of e are of the types too and, tag by tag, every word of d passes against
    e, neither side being unknown.
   */
  lemma SatisfiedIff(d: Rcp, op: CondOp, e: Rcp, types: set<Tag>)
    requires FdTag !in types && (IsOrderOrEq(op) || op.NE?) && Ordered(d) && Ordered(e)
    ensures Satisfied(d, op, e, types) <==>
            !IsOfType(d, types) || (IsOfType(e, types) && forall t :: t in types && IsKnownTag(t) ==> TagPasses(d, op, e, t))
  {
    forall t | t in types && IsKnownTag(t)
      ensures S.Satisfied(op, Component(d, t), Component(e, t)) <==> TagPasses(d, op, e, t)
    {
      TagPassesIff(d, op, e, t);
    }
    if IsOfType(d, types) && IsOfType(e, types) { SatisfiedByTag(d, op, e, types); }
  }

  /** Descriptors: nothing on one side, or neither side unknown and, for EQ, all of x in y, for NE, none of x in y. */
  lemma FdSatisfiedIff(op: CondOp, x: set<int>, y: set<int>)
    ensures FdSatisfied(op, x, y) <==>
            || x == {} || y == {}
            || (x != AllFds && y != AllFds && (op.EQ? ==> forall f :: f in x ==> f in y) && (op.NE? ==> forall f :: f in x ==> f !in y))
  {
    if forall f :: f in x ==> f in y { assert x * y == x; }
    if forall f :: f in x ==> f !in y { assert x - y == x; }
    if op.EQ? && x * y == x {
      assert forall f :: f in x ==> f in x * y;
    }
    if op.NE? && x - y == x {
      assert forall f :: f in x ==> f in x - y;
    }
  }
}
