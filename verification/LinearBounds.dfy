/**
  The bound of a linear constraint: what a tagged value is compared with, and
  what a satisfied verdict says about the words.
 */
module LinearBounds {
  import opened Syntax
  import opened Rcp
  import opened Restrictions
  import S = SetDomains
  import N = NarrowWords

  function ZeroSet(x: S.IntSet): S.IntSet {
    if x.IsBot() then x else S.Single(0)
  }

  /** Every component that is not empty becomes zero. */
  function Zero(d: Rcp): Rcp {
    RcpData(seq(NMAPS, i requires 0 <= i < NMAPS => ZeroSet(d.maps[i])), ZeroSet(d.ctx), ZeroSet(d.stack), ZeroSet(d.packet),
            ZeroSet(d.num), if d.fds == {} then {} else {0})
  }

  /** What is added to the zero: v - width - offset. */
  function Difference(x: Rcp, y: Rcp, offset: Int32): Rcp {
    Sub(Sub(x, y), Number(ToU64(offset)))
  }

  /** What a value is compared with. */
  function BoundOf(d: Rcp, x: Rcp, y: Rcp, offset: Int32): Rcp {
    Add(Zero(d), Difference(x, y, offset))
  }

  /** The bound as the code cuts it: a 64-bit word for a number, a signed 32-bit displacement for an offset. */
  function Cut(t: Tag, x: int): int {
    if t.NumTag? then ToU64(x) else ToInt32(x)
  }

  lemma CutTwice(a: int, b: int, offset: int)
    ensures ToU64(ToU64(a - b) - ToU64(offset)) == ToU64(a - b - offset)
  {}

  lemma CutWord(t: Tag, x: int)
    ensures Cut(t, ToU64(x)) == Cut(t, x)
  {
    N.LowOfWord(x);
  }

  lemma NumberOfDifference(x: Rcp, y: Rcp, a: int, b: int, n: int)
    requires Contains(x, Num(a)) && Contains(y, Num(b)) && n == ToU64(a - b)
    ensures Contains(Sub(x, y), Num(n))
  {
    SubNumbers(x, y, Num(a), Num(b));
  }

  lemma DifferenceDescribed(x: Rcp, y: Rcp, offset: Int32, a: int, b: int, k: int)
    requires Contains(x, Num(a)) && Contains(y, Num(b)) && k == a - b - offset
    ensures Contains(Difference(x, y, offset), Num(ToU64(k)))
  {
    var z, o, n := Sub(x, y), ToU64(offset), ToU64(a - b);
    CutTwice(a, b, offset);
    NumberOfDifference(x, y, a, b, n);
    NumberOfDifference(z, Number(o), n, o, ToU64(k));
  }

  /** Adding a number to the zero of a component gives the number as that component holds it. */
  lemma FromZero(d: Rcp, t: Tag, y: Rcp, w: U64)
    requires IsKnownTag(t)
    requires !Component(d, t).IsBot() && Contains(y, Num(w))
    ensures Contains(Add(Zero(d), y), WordOf(t, Cut(t, w)))
  {
    if t.NumTag? {
      S.NumExecSound(ADD, Zero(d).num, y.num, 0, w);
    } else {
      var r := t.region;
      AddOffsets(Zero(d), y, r);
      assert Offsets(Zero(d), r) == S.Single(0);
      S.OffsetExecSound(true, Offsets(Zero(d), r), y.num, 0, w);
      S.JoinHas(S.OffsetExec(true, Offsets(y, r), Zero(d).num), S.OffsetExec(true, Offsets(Zero(d), r), y.num), ToInt32(w));
    }
  }

  /** The bound describes v - width - offset, cut, for all described numbers v and width. */
  lemma BoundDescribes(d: Rcp, t: Tag, x: Rcp, y: Rcp, offset: Int32, a: int, b: int, k: int)
    requires IsKnownTag(t)
    requires !Component(d, t).IsBot() && Contains(x, Num(a)) && Contains(y, Num(b)) && k == a - b - offset
    ensures Contains(BoundOf(d, x, y, offset), WordOf(t, Cut(t, k)))
  {
    DifferenceDescribed(x, y, offset, a, b, k);
    DifferenceFromZero(d, t, Difference(x, y, offset), k);
  }

  lemma DifferenceFromZero(d: Rcp, t: Tag, z: Rcp, x: int)
    requires IsKnownTag(t)
    requires !Component(d, t).IsBot() && Contains(z, Num(ToU64(x)))
    ensures Contains(Add(Zero(d), z), WordOf(t, Cut(t, x)))
  {
    FromZero(d, t, z, ToU64(x));
    CutWord(t, x);
  }

  /** In every component where the value holds anything, the bound is one number or offset. */
  ghost predicate OneBoundEach(d: Rcp, e: Rcp, types: set<Tag>) {
    forall t :: t in types && IsKnownTag(t) && !Component(d, t).IsBot() ==> Component(e, t).IsSingle()
  }

  /** The value is of the types, the bound in each is one value, and the verdict is "satisfied". */
  ghost predicate SatisfiedOnce(d: Rcp, op: CondOp, e: Rcp, types: set<Tag>) {
    && FdTag !in types && (IsOrderOrEq(op) || op.NE?) && IsOfType(d, types)
    && OneBoundEach(d, e, types) && Satisfied(d, op, e, types)
  }

  lemma OnlyWord(e: Rcp, t: Tag, x: int)
    requires IsKnownTag(t) && Component(e, t).IsSingle() && Contains(e, WordOf(t, x))
    ensures Component(e, t).elems[0] == x
  {}

  /** What passes against a component with one element compares with that element. */
  lemma PassesOne(op: CondOp, v: Word, e: Rcp, t: Tag, x: int)
    requires IsKnownTag(t) && (IsOrderOrEq(op) || op.NE?) && TagOf(v) == Some(t) && Passes(op, v, e)
    requires Component(e, t).IsSingle() && Contains(e, WordOf(t, x))
    ensures WordHolds(op, v, WordOf(t, x))
  {
    if op.NE? {
      assert v != WordOf(t, x);
    } else {
      var u :| Contains(e, u) && WordHolds(op, v, u);
      var k := if u.Num? then u.n else u.offset;
      assert u == WordOf(t, k);
      OnlyWord(e, t, k);
      OnlyWord(e, t, x);
    }
  }

  lemma SatisfiedWordTyped(d: Rcp, op: CondOp, e: Rcp, types: set<Tag>, v: Word)
    requires Ordered(d) && Ordered(e) && SatisfiedOnce(d, op, e, types) && Contains(d, v)
    ensures TagOf(v).Some? && TagOf(v).value in types && IsKnownTag(TagOf(v).value)
  {
    SatisfiedIff(d, op, e, types);
    if d.num.top && NumTag in types && Component(e, NumTag).IsSingle() { UnknownFails(d, op, e); }
  }

  lemma UnknownFails(d: Rcp, op: CondOp, e: Rcp)
    requires d.num.top && !e.num.IsBot()
    ensures !TagPasses(d, op, e, NumTag)
  {
    assert Contains(d, Num(0)) && TagOf(Num(0)) == Some(NumTag) && UnknownFor(d, Num(0));
  }

  /** A satisfied verdict on a value against one bound in each component holds of every described word. */
  lemma OneBoundHolds(d: Rcp, op: CondOp, e: Rcp, types: set<Tag>, v: Word, x: int)
    requires Ordered(d) && Ordered(e) && SatisfiedOnce(d, op, e, types) && Contains(d, v)
    requires TagOf(v).Some? && IsKnownTag(TagOf(v).value) && Contains(e, WordOf(TagOf(v).value, x))
    ensures WordHolds(op, v, WordOf(TagOf(v).value, x))
  {
    SatisfiedIff(d, op, e, types);
    SatisfiedWordTyped(d, op, e, types, v);
    var t := TagOf(v).value;
    WordOfTag(d, d, t, if v.Num? then v.n else v.offset);
    assert Inhabited(e, t) && TagPasses(d, op, e, t);
    PassesOne(op, v, e, t, x);
  }

  /** The word compares with every difference of described numbers, cut. */
  ghost predicate ComparesWithAll(op: CondOp, v: Word, t: Tag, x: Rcp, y: Rcp, offset: Int32)
    requires !t.FdTag?
  {
    forall a, b, k :: Contains(x, Num(a)) && Contains(y, Num(b)) && k == a - b - offset ==> WordHolds(op, v, WordOf(t, Cut(t, k)))
  }

  lemma LinearWord(d: Rcp, op: CondOp, x: Rcp, y: Rcp, offset: Int32, types: set<Tag>, v: Word, t: Tag, a: int, b: int, k: int)
    requires Ordered(d) && Ordered(BoundOf(d, x, y, offset)) && SatisfiedOnce(d, op, BoundOf(d, x, y, offset), types)
    requires TagOf(v) == Some(t) && IsKnownTag(t) && Contains(d, v) && !Component(d, t).IsBot()
    requires Contains(x, Num(a)) && Contains(y, Num(b)) && k == a - b - offset
    ensures WordHolds(op, v, WordOf(t, Cut(t, k)))
  {
    BoundDescribes(d, t, x, y, offset, a, b, k);
    OneBoundHolds(d, op, BoundOf(d, x, y, offset), types, v, Cut(t, k));
  }

  lemma TagHeld(d: Rcp, v: Word, t: Tag)
    requires Contains(d, v) && TagOf(v) == Some(t) && IsKnownTag(t)
    ensures !Component(d, t).IsBot()
  {
    WordOfTag(d, d, t, if v.Num? then v.n else v.offset);
  }

  lemma LinearWordTyped(d: Rcp, op: CondOp, x: Rcp, y: Rcp, offset: Int32, types: set<Tag>, v: Word) returns (t: Tag)
    requires Ordered(d) && SatisfiedOnce(d, op, BoundOf(d, x, y, offset), types) && Contains(d, v)
    ensures TagOf(v) == Some(t) && t in types && IsKnownTag(t) && Ordered(BoundOf(d, x, y, offset))
  {
    AddOrdered(Zero(d), Difference(x, y, offset));
    SatisfiedWordTyped(d, op, BoundOf(d, x, y, offset), types, v);
    t := TagOf(v).value;
  }

  lemma LinearWords(d: Rcp, op: CondOp, x: Rcp, y: Rcp, offset: Int32, types: set<Tag>, v: Word, t: Tag)
    requires Ordered(d) && Ordered(BoundOf(d, x, y, offset)) && SatisfiedOnce(d, op, BoundOf(d, x, y, offset), types)
    requires TagOf(v) == Some(t) && IsKnownTag(t) && Contains(d, v)
    ensures ComparesWithAll(op, v, t, x, y, offset)
  {
    TagHeld(d, v, t);
    forall a, b, k | Contains(x, Num(a)) && Contains(y, Num(b)) && k == a - b - offset
      ensures WordHolds(op, v, WordOf(t, Cut(t, k)))
    {
      LinearWord(d, op, x, y, offset, types, v, t, a, b, k);
    }
  }

  /* ----- constant bounds ----- */

  lemma JoinNothing(x: S.IntSet)
    requires x.top ==> x == S.TOP
    ensures S.Join(x, S.BOT) == x && S.Join(S.BOT, x) == x
  {}

  lemma {:induction false} NoMapDifferences(d: Rcp, e: Rcp, t: nat, acc: S.IntSet)
    requires t <= NMAPS && (forall i :: 0 <= i < NMAPS ==> d.maps[i] == S.BOT) && !acc.top
    ensures MapDifferences(d, e, t, acc) == acc
    decreases NMAPS - t
  {
    if t == NMAPS {
    } else {
      assert d.maps[t] == S.BOT && Differences(d, e, MapValue(t)) == S.BOT;
      JoinNothing(acc);
      NoMapDifferences(d, e, t + 1, acc);
    }
  }

  lemma SingleImage(a: S.Arith, k: int, n: int)
    ensures S.Image(a, [k], [n], []) == [S.Apply(a, k, n)]
  {
    assert [k][1..] == [] && [n][1..] == [];
    assert S.RowImage(a, k, [n], []) == S.RowImage(a, k, [], S.Insert([], S.Apply(a, k, n)));
  }

  lemma NumberDifference(v: U64, w: U64)
    ensures Sub(Number(v), Number(w)) == Number(ToU64(v - w))
  {
    var d, e, n := Number(v), Number(w), S.Single(ToU64(v - w));
    SingleImage(S.OnWords(SUB), v, w);
    NoMapDifferences(d, e, 0, n);
    JoinNothing(n);
    assert SubNum(d, e) == n;
    assert Sub(d, e).maps == Uniform(S.BOT);
  }

  lemma SingleMove(n: int)
    ensures S.OffsetExec(true, S.Single(0), S.Single(n)) == if ToInt32(n) > S.OFFSET_LIMIT then S.TOP else S.Single(ToInt32(n))
  {
    var a := S.OffsetPlus;
    SingleImage(a, 0, n);
    assert 0 in [0] && n in [n];
    assert S.SomeLarge(a, [0], [n]) <==> S.Apply(a, 0, n) > S.OFFSET_LIMIT;
  }

  lemma SumAtZero(z: Rcp, n: U64, r: Region)
    requires IsRegion(r) && Offsets(z, r) == S.Single(0)
    ensures Offsets(Add(z, Number(n)), r) == if ToInt32(n) > S.OFFSET_LIMIT then S.TOP else S.Single(ToInt32(n))
  {
    AddOffsets(z, Number(n), r);
    assert Offsets(Number(n), r) == S.BOT;
    SingleMove(n);
    JoinNothing(S.OffsetExec(true, S.Single(0), S.Single(n)));
  }

  lemma NumberAtZero(z: Rcp, n: U64)
    requires z.num == S.Single(0)
    ensures Add(z, Number(n)).num == S.Single(n)
  {
    SingleImage(S.OnWords(ADD), 0, n);
  }

  lemma ConstantDifference(a: U64, b: U64, offset: Int32, n: U64)
    requires n == ToU64(a - b - offset)
    ensures Difference(Number(a), Number(b), offset) == Number(n)
  {
    NumberDifference(a, b);
    NumberDifference(ToU64(a - b), ToU64(offset));
    CutTwice(a, b, offset);
  }

  lemma ConstantAt(d: Rcp, t: Tag, n: U64)
    requires IsKnownTag(t)
    requires !Component(d, t).IsBot()
    ensures Component(Add(Zero(d), Number(n)), t) == if t.OffsetTag? && Cut(t, n) > 0x4000_0000 then S.TOP else S.Single(Cut(t, n))
  {
    if t.NumTag? {
      NumberAtZero(Zero(d), n);
    } else {
      assert Offsets(Zero(d), t.region) == S.Single(0);
      SumAtZero(Zero(d), n, t.region);
    }
  }

  lemma OnlyTypes(d: Rcp, types: set<Tag>, n: U64)
    requires IsOfType(d, types) && FdTag !in types
    ensures IsOfType(Add(Zero(d), Number(n)), types)
  {
    var z, e := Zero(d), Add(Zero(d), Number(n));
    forall r | IsRegion(r) && OffsetTag(r) !in types
      ensures Offsets(e, r) == S.BOT
    {
      AddOffsets(z, Number(n), r);
      assert Offsets(d, r).IsBot() && Offsets(z, r) == S.BOT;
    }
  }

  /** How a linear constraint compares. */
  datatype Comparison = Comparison(op: CondOp, offset: Int32, types: set<Tag>)

  /** The verdict on a value d, given v and width. */
  predicate LinearSatisfied(d: Rcp, x: Rcp, y: Rcp, c: Comparison) {
    match c
    case Comparison(op, offset, types) => Satisfied(d, op, BoundOf(d, x, y, offset), types)
  }

  /** The component is known, the bound is no offset past the limit, and every element compares with it. */
  predicate AllCompare(op: CondOp, d: S.IntSet, t: Tag, x: int)
    requires !op.SET? && !op.NSET?
  {
    match t
    case OffsetTag(_) => !d.top && x <= 0x4000_0000 && forall k :: k in d.elems ==> Compare(op, k, x)
    case _ => !d.top && forall k :: k in d.elems ==> Compare(op, k, x)
  }

  /** In every component where d holds anything, all of it compares with x, cut. */
  ghost predicate EachCompares(op: CondOp, d: Rcp, types: set<Tag>, x: int)
    requires !op.SET? && !op.NSET?
  {
    forall t :: t in types && IsKnownTag(t) && !Component(d, t).IsBot() ==> AllCompare(op, Component(d, t), t, Cut(t, x))
  }

  lemma ConstantBound(d: Rcp, x: Rcp, y: Rcp, offset: Int32, a: U64, b: U64, k: int) returns (n: U64)
    requires x == Number(a) && y == Number(b) && k == a - b - offset
    ensures BoundOf(d, x, y, offset) == Add(Zero(d), Number(n)) && n == ToU64(k)
  {
    n := ToU64(k);
    ConstantDifference(a, b, offset, n);
  }

  lemma EachCut(op: CondOp, d: Rcp, types: set<Tag>, k: int, n: int)
    requires !op.SET? && !op.NSET? && n == ToU64(k)
    ensures EachCompares(op, d, types, n) <==> EachCompares(op, d, types, k)
  {
    forall t | t in types
      ensures Cut(t, n) == Cut(t, k)
    {
      CutWord(t, k);
    }
  }

  /** The verdict against constants: in every component every element compares with v - width - offset, cut. */
  lemma VerdictWith(d: Rcp, x: Rcp, y: Rcp, c: Comparison, a: U64, b: U64, k: int)
    requires FdTag !in c.types && (IsOrderOrEq(c.op) || c.op.NE?)
    requires IsOfType(d, c.types) && Ordered(d) && x == Number(a) && y == Number(b) && k == a - b - c.offset
    ensures LinearSatisfied(d, x, y, c) <==> EachCompares(c.op, d, c.types, k)
  {
    var n := ConstantBound(d, x, y, c.offset, a, b, k);
    VerdictAt(d, x, y, c, n);
    EachCut(c.op, d, c.types, k, n);
  }

  lemma VerdictAt(d: Rcp, x: Rcp, y: Rcp, c: Comparison, n: U64)
    requires FdTag !in c.types && (IsOrderOrEq(c.op) || c.op.NE?)
    requires IsOfType(d, c.types) && Ordered(d) && BoundOf(d, x, y, c.offset) == Add(Zero(d), Number(n))
    ensures LinearSatisfied(d, x, y, c) <==> EachCompares(c.op, d, c.types, n)
  {
    SatisfiedAt(d, c.op, BoundOf(d, x, y, c.offset), c.types, n);
  }

  lemma SatisfiedAt(d: Rcp, op: CondOp, e: Rcp, types: set<Tag>, n: U64)
    requires FdTag !in types && (IsOrderOrEq(op) || op.NE?)
    requires IsOfType(d, types) && Ordered(d) && e == Add(Zero(d), Number(n))
    ensures Satisfied(d, op, e, types) <==> EachCompares(op, d, types, n)
  {
    OnlyTypes(d, types, n);
    SatisfiedByTag(d, op, e, types);
    forall t | t in types && IsKnownTag(t)
      ensures S.Satisfied(op, Component(d, t), Component(e, t)) <==>
              (!Component(d, t).IsBot() ==> AllCompare(op, Component(d, t), t, Cut(t, n)))
    {
      if !Component(d, t).IsBot() {
        ConstantAt(d, t, n);
        SingleSatisfied(op, Component(d, t), Component(e, t), Cut(t, n));
      }
    }
  }

  lemma SingleSatisfied(op: CondOp, d: S.IntSet, e: S.IntSet, x: int)
    requires IsOrderOrEq(op) || op.NE?
    requires !d.IsBot() && d.Ordered() && (e == S.TOP || e == S.Single(x))
    ensures S.Satisfied(op, d, e) <==> !d.top && e != S.TOP && forall k :: k in d.elems ==> Compare(op, k, x)
  {
    if d.top || e.top {
    } else {
      S.SatisfiedExact(op, d, e);
      assert x in e.elems && e.Has(x);
      forall k
        ensures k in d.elems <==> d.Has(k)
      {}
      assert op.NE? || forall k :: S.SomePair(op, k, e) <==> Compare(op, k, x);
    }
  }
}
