/**
  RCP_domain: the tagged product of value sets (one offset set a region, one
  set of words, one set of map descriptors) and what its operations mean for
  the tagged words it describes.
 */
module Rcp {
  import opened Syntax
  import S = SetDomains

  const NMAPS: int := 64

  const AllFds: set<int> := set i: int | 0 <= i < NMAPS

  datatype Region = MapValue(index: int) | CtxMem | StackMem | PacketMem

  /** A concrete tagged word; Junk is a mixture of bytes that is neither a number nor one pointer. */
  datatype Word = Num(n: int) | Ptr(region: Region, offset: int) | MapFd(fd: int) | Junk

  function Uniform(x: S.IntSet): (r: seq<S.IntSet>)
    ensures |r| == NMAPS && forall i :: 0 <= i < NMAPS ==> r[i] == x
  {
    seq(NMAPS, i => x)
  }

  datatype RcpData = RcpData(maps: seq<S.IntSet>, ctx: S.IntSet, stack: S.IntSet, packet: S.IntSet,
                             num: S.IntSet, fds: set<int>)

  type Rcp = d: RcpData | |d.maps| == NMAPS && d.fds <= AllFds
    witness RcpData(Uniform(S.BOT), S.BOT, S.BOT, S.BOT, S.BOT, {})

  const Bot: Rcp := RcpData(Uniform(S.BOT), S.BOT, S.BOT, S.BOT, S.BOT, {})
  const Top: Rcp := RcpData(Uniform(S.TOP), S.TOP, S.TOP, S.TOP, S.TOP, AllFds)
  const NumTop: Rcp := WithNum(Bot, S.TOP)

  function WithNum(d: Rcp, num: S.IntSet): Rcp {
    RcpData(d.maps, d.ctx, d.stack, d.packet, num, d.fds)
  }

  predicate IsRegion(r: Region) {
    r.MapValue? ==> 0 <= r.index < NMAPS
  }

  function Offsets(d: Rcp, r: Region): S.IntSet
    requires IsRegion(r)
  {
    match r
    case MapValue(i) => d.maps[i]
    case CtxMem => d.ctx
    case StackMem => d.stack
    case PacketMem => d.packet
  }

  /** The tagged words a domain value describes. */
  ghost predicate Contains(d: Rcp, v: Word) {
    match v
    case Num(n) => d.num.Has(n)
    case Ptr(r, o) => IsRegion(r) && Offsets(d, r).Has(o)
    case MapFd(i) => i in d.fds
    case Junk => d.num.top && forall r | IsRegion(r) :: Offsets(d, r).top
  }

  ghost predicate Included(d: Rcp, e: Rcp) {
    && S.Included(d.num, e.num)
    && d.fds <= e.fds
    && forall r | IsRegion(r) :: S.Included(Offsets(d, r), Offsets(e, r))
  }

  /** Every component is a strictly increasing vector, empty when it is top. */
  ghost predicate Ordered(d: Rcp) {
    && Neat(d.num)
    && forall r | IsRegion(r) :: Neat(Offsets(d, r))
  }

  predicate Neat(s: S.IntSet) {
    s.Ordered() && (s.top ==> s.elems == [])
  }

  predicate NoPointer(d: Rcp) {
    && (forall i | 0 <= i < NMAPS :: d.maps[i].IsBot())
    && d.ctx.IsBot() && d.stack.IsBot() && d.packet.IsBot()
  }

  predicate IsBot(d: Rcp) {
    NoPointer(d) && d.num.IsBot() && d.fds == {}
  }

  predicate MustBeNum(d: Rcp) {
    IsBot(WithNum(d, S.BOT))
  }

  lemma MustBeNumMeaning(d: Rcp, v: Word)
    requires MustBeNum(d) && Contains(d, v)
    ensures v.Num?
  {
    assert IsRegion(CtxMem);
  }

  /** What a strict part of a cell may hold. */
  function Partial(d: Rcp): Rcp {
    if MustBeNum(d) then NumTop else Top
  }

  /* ----- join ----- */

  function Join(d: Rcp, e: Rcp): Rcp {
    RcpData(seq(NMAPS, i requires 0 <= i < NMAPS => S.Join(d.maps[i], e.maps[i])),
            S.Join(d.ctx, e.ctx), S.Join(d.stack, e.stack), S.Join(d.packet, e.packet),
            S.Join(d.num, e.num), d.fds + e.fds)
  }

  lemma JoinIncludes(d: Rcp, e: Rcp)
    ensures Included(d, Join(d, e)) && Included(e, Join(d, e))
  {
    S.JoinIncludes(d.num, e.num);
    forall r | IsRegion(r)
      ensures S.Included(Offsets(d, r), Offsets(Join(d, e), r))
      ensures S.Included(Offsets(e, r), Offsets(Join(d, e), r))
    {
      S.JoinIncludes(Offsets(d, r), Offsets(e, r));
    }
  }

  /** The pointwise join adds no word: apart from mixtures of bytes it describes exactly the two sides. */
  lemma JoinExact(d: Rcp, e: Rcp, v: Word)
    ensures Contains(d, v) || Contains(e, v) ==> Contains(Join(d, e), v)
    ensures !v.Junk? ==> (Contains(Join(d, e), v) <==> Contains(d, v) || Contains(e, v))
  {
    JoinIncludes(d, e);
    match v {
      case Num(n) => S.JoinHas(d.num, e.num, n);
      case Ptr(r, o) =>
        if IsRegion(r) { S.JoinHas(Offsets(d, r), Offsets(e, r), o); }
      case MapFd(i) =>
      case Junk =>
    }
  }

  lemma JoinMustBeNum(d: Rcp, e: Rcp)
    ensures MustBeNum(Join(d, e)) <==> MustBeNum(d) && MustBeNum(e)
  {
    forall r | IsRegion(r)
      ensures Offsets(Join(d, e), r).IsBot() <==> Offsets(d, r).IsBot() && Offsets(e, r).IsBot()
    {
      S.JoinBot(Offsets(d, r), Offsets(e, r));
    }
    MustBeNumByRegion(d);
    MustBeNumByRegion(e);
    MustBeNumByRegion(Join(d, e));
  }

  lemma MustBeNumByRegion(d: Rcp)
    ensures MustBeNum(d) <==> d.fds == {} && forall r | IsRegion(r) :: Offsets(d, r).IsBot()
  {
    assert forall i | 0 <= i < NMAPS :: d.maps[i] == Offsets(d, MapValue(i));
    assert IsRegion(CtxMem) && IsRegion(StackMem) && IsRegion(PacketMem);
    var b := WithNum(d, S.BOT);
    assert b.maps == d.maps;
  }

  /** The code's test for a number is true exactly of the values that describe nothing but numbers. */
  lemma MustBeNumIff(d: Rcp)
    ensures MustBeNum(d) <==> forall v :: Contains(d, v) ==> v.Num?
  {
    MustBeNumByRegion(d);
    if !MustBeNum(d) {
      if f :| f in d.fds {
        assert Contains(d, MapFd(f));
      } else {
        var r :| IsRegion(r) && !Offsets(d, r).IsBot();
        var o := SetWitness(Offsets(d, r));
        assert Contains(d, Ptr(r, o));
      }
    }
    if v :| MustBeNum(d) && Contains(d, v) && !v.Num? {
      MustBeNumMeaning(d, v);
    }
  }

  lemma JoinOrdered(d: Rcp, e: Rcp)
    requires Ordered(d) && Ordered(e)
    ensures Ordered(Join(d, e))
  {
    S.UnionSorted(d.num.elems, e.num.elems);
    forall r | IsRegion(r)
      ensures Neat(Offsets(Join(d, e), r))
    {
      S.UnionSorted(Offsets(d, r).elems, Offsets(e, r).elems);
    }
  }

  /* ----- arithmetic ----- */

  function OffsetsPlus(dNum: S.IntSet, x: S.IntSet, eNum: S.IntSet, y: S.IntSet): S.IntSet {
    S.Join(S.OffsetExec(true, y, dNum), S.OffsetExec(true, x, eNum))
  }

  function Add(d: Rcp, e: Rcp): Rcp {
    RcpData(seq(NMAPS, i requires 0 <= i < NMAPS => OffsetsPlus(d.num, d.maps[i], e.num, e.maps[i])),
            OffsetsPlus(d.num, d.ctx, e.num, e.ctx),
            OffsetsPlus(d.num, d.stack, e.num, e.stack),
            OffsetsPlus(d.num, d.packet, e.num, e.packet),
            S.NumExec(ADD, d.num, e.num), d.fds)
  }

  /** The differences of map pointers, region by region from region t on, joined to acc. */
  function MapDifferences(d: Rcp, e: Rcp, t: nat, acc: S.IntSet): S.IntSet
    requires t <= NMAPS
    decreases NMAPS - t
  {
    if t == NMAPS then acc
    else MapDifferences(d, e, t + 1, S.Join(acc, Differences(d, e, MapValue(t))))
  }

  function JoinFour(n: S.IntSet, x: S.IntSet, y: S.IntSet, z: S.IntSet): S.IntSet {
    S.Join(S.Join(S.Join(n, x), y), z)
  }

  /** The differences of the two operands' pointers to region r. */
  function Differences(d: Rcp, e: Rcp, r: Region): S.IntSet
    requires IsRegion(r)
  {
    S.OffsetDifference(Offsets(d, r), Offsets(e, r))
  }

  function SubNum(d: Rcp, e: Rcp): S.IntSet {
    JoinFour(MapDifferences(d, e, 0, S.NumExec(SUB, d.num, e.num)),
             Differences(d, e, CtxMem), Differences(d, e, StackMem), Differences(d, e, PacketMem))
  }

  function Sub(d: Rcp, e: Rcp): Rcp {
    RcpData(seq(NMAPS, i requires 0 <= i < NMAPS => S.OffsetExec(false, d.maps[i], e.num)),
            S.OffsetExec(false, d.ctx, e.num), S.OffsetExec(false, d.stack, e.num),
            S.OffsetExec(false, d.packet, e.num), SubNum(d, e), d.fds)
  }

  function Exec(op: BinOp, d: Rcp, e: Rcp): Rcp
    requires S.Computes(op, d.num, e.num)
  {
    RcpData(d.maps, d.ctx, d.stack, d.packet, S.NumExec(op, d.num, e.num), d.fds)
  }

  /** The number n as a 64-bit displacement agrees with its low 32 bits, which is what the domain adds. */
  predicate SmallDisplacement(n: int) {
    ToInt32(n) == ToSigned(n)
  }

  /** 64-bit addition of tagged words: two numbers, or a pointer and a displacement. */
  function WordAdd(v: Word, u: Word): Option<Word> {
    match (v, u)
    case (Num(a), Num(b)) => Some(Num((a + b) % TWO64))
    case (Ptr(r, o), Num(n)) => Some(Ptr(r, o + ToSigned(n)))
    case (Num(n), Ptr(r, o)) => Some(Ptr(r, o + ToSigned(n)))
    case _ => None
  }

  /** 64-bit subtraction: two numbers, a pointer and a displacement, or two pointers to one region. */
  function WordSub(v: Word, u: Word): Option<Word> {
    match (v, u)
    case (Num(a), Num(b)) => Some(Num((a - b) % TWO64))
    case (Ptr(r, o), Num(n)) => Some(Ptr(r, o - ToSigned(n)))
    case (Ptr(r, o), Ptr(r', o')) => if r == r' then Some(Num(ToU64(o - o'))) else None
    case _ => None
  }

  /** No pointer is moved by a number that does not fit a signed 32-bit integer. */
  predicate SmallMove(v: Word, u: Word) {
    && (v.Ptr? && u.Num? ==> SmallDisplacement(u.n))
    && (v.Num? && u.Ptr? ==> SmallDisplacement(v.n))
  }

  lemma AddOffsets(d: Rcp, e: Rcp, r: Region)
    requires IsRegion(r)
    ensures Offsets(Add(d, e), r) == OffsetsPlus(d.num, Offsets(d, r), e.num, Offsets(e, r))
  {}

  lemma SubOffsets(d: Rcp, e: Rcp, r: Region)
    requires IsRegion(r)
    ensures Offsets(Sub(d, e), r) == S.OffsetExec(false, Offsets(d, r), e.num)
  {}

  /** `+=` contains the sum of every two words drawn from its operands. */
  lemma AddSound(d: Rcp, e: Rcp, v: Word, u: Word)
    requires Contains(d, v) && Contains(e, u)
    requires WordAdd(v, u).Some? && SmallMove(v, u)
    ensures Contains(Add(d, e), WordAdd(v, u).value)
  {
    match (v, u) {
      case (Num(a), Num(b)) =>
        S.NumExecSound(ADD, d.num, e.num, a, b);
      case (Ptr(r, o), Num(n)) =>
        AddOffsets(d, e, r);
        S.OffsetExecSound(true, Offsets(d, r), e.num, o, n);
        S.JoinHas(S.OffsetExec(true, Offsets(e, r), d.num), S.OffsetExec(true, Offsets(d, r), e.num), o + ToInt32(n));
      case (Num(n), Ptr(r, o)) =>
        AddOffsets(d, e, r);
        S.OffsetExecSound(true, Offsets(e, r), d.num, o, n);
        S.JoinHas(S.OffsetExec(true, Offsets(e, r), d.num), S.OffsetExec(true, Offsets(d, r), e.num), o + ToInt32(n));
      case _ =>
    }
  }

  lemma {:induction false} MapDifferencesHas(d: Rcp, e: Rcp, t: nat, acc: S.IntSet, x: int)
    requires t <= NMAPS
    ensures MapDifferences(d, e, t, acc).Has(x) <==>
      acc.Has(x) || exists i :: t <= i < NMAPS && Differences(d, e, MapValue(i)).Has(x)
    decreases NMAPS - t
  {
    if t >= NMAPS {
    } else {
      var acc' := S.Join(acc, Differences(d, e, MapValue(t)));
      S.JoinHas(acc, Differences(d, e, MapValue(t)), x);
      MapDifferencesHas(d, e, t + 1, acc', x);
    }
  }

  lemma JoinFourHas(n: S.IntSet, x: S.IntSet, y: S.IntSet, z: S.IntSet, e: int)
    ensures JoinFour(n, x, y, z).Has(e) <==> n.Has(e) || x.Has(e) || y.Has(e) || z.Has(e)
  {
    S.JoinHas(n, x, e);
    S.JoinHas(S.Join(n, x), y, e);
    S.JoinHas(S.Join(S.Join(n, x), y), z, e);
  }

  lemma AnyRegionDiffers(d: Rcp, e: Rcp, x: int)
    ensures (exists r :: IsRegion(r) && Differences(d, e, r).Has(x)) <==>
      || Differences(d, e, CtxMem).Has(x) || Differences(d, e, StackMem).Has(x) || Differences(d, e, PacketMem).Has(x)
      || exists i :: 0 <= i < NMAPS && Differences(d, e, MapValue(i)).Has(x)
  {}

  /** The numbers of a difference: the word differences and the pointer differences of every region, and no others. */
  lemma SubNumHas(d: Rcp, e: Rcp, x: int)
    ensures SubNum(d, e).Has(x) <==>
      S.NumExec(SUB, d.num, e.num).Has(x) || exists r :: IsRegion(r) && Differences(d, e, r).Has(x)
  {
    var n := S.NumExec(SUB, d.num, e.num);
    MapDifferencesHas(d, e, 0, n, x);
    JoinFourHas(MapDifferences(d, e, 0, n), Differences(d, e, CtxMem), Differences(d, e, StackMem),
                Differences(d, e, PacketMem), x);
    AnyRegionDiffers(d, e, x);
  }

  lemma SubPointers(d: Rcp, e: Rcp, v: Word, u: Word)
    requires Contains(d, v) && Contains(e, u) && v.Ptr? && u.Ptr? && v.region == u.region
    ensures Contains(Sub(d, e), WordSub(v, u).value)
  {
    var r, o, o' := v.region, v.offset, u.offset;
    S.OffsetDifferenceSound(Offsets(d, r), Offsets(e, r), o, o');
    assert Differences(d, e, r).Has(ToU64(o - o'));
    SubNumHas(d, e, ToU64(o - o'));
  }

  lemma SubDisplacement(d: Rcp, e: Rcp, v: Word, u: Word)
    requires Contains(d, v) && Contains(e, u) && v.Ptr? && u.Num? && SmallMove(v, u)
    ensures Contains(Sub(d, e), WordSub(v, u).value)
  {
    SubOffsets(d, e, v.region);
    S.OffsetExecSound(false, Offsets(d, v.region), e.num, v.offset, u.n);
  }

  lemma SubNumbers(d: Rcp, e: Rcp, v: Word, u: Word)
    requires Contains(d, v) && Contains(e, u) && v.Num? && u.Num?
    ensures Contains(Sub(d, e), WordSub(v, u).value)
  {
    S.NumExecSound(SUB, d.num, e.num, v.n, u.n);
    SubNumHas(d, e, (v.n - u.n) % TWO64);
  }

  /** `-=` contains the difference of every two words drawn from its operands. */
  lemma SubSound(d: Rcp, e: Rcp, v: Word, u: Word)
    requires Contains(d, v) && Contains(e, u)
    requires WordSub(v, u).Some? && SmallMove(v, u)
    ensures Contains(Sub(d, e), WordSub(v, u).value)
  {
    if v.Num? {
      SubNumbers(d, e, v, u);
    } else if u.Num? {
      SubDisplacement(d, e, v, u);
    } else {
      SubPointers(d, e, v, u);
    }
  }

  /**
    The 32-bit cast in the offset arithmetic: the sum of one stack pointer and
    one number is described exactly when the number survives the cast or the
    cast sum is past the limit (and the result is top).
   */
  lemma PointerSumDescribedIff(o: int, n: U64)
    ensures Contains(Add(StackPointer(o), Number(n)), Ptr(StackMem, o + ToSigned(n))) <==>
      SmallDisplacement(n) || o + ToInt32(n) > S.OFFSET_LIMIT
  {
    var d, e := StackPointer(o), Number(n);
    AddOffsets(d, e, StackMem);
    var x := S.OffsetExec(true, Offsets(d, StackMem), e.num);
    var a := S.OffsetPlus;
    S.OffsetExecExact(true, Offsets(d, StackMem), e.num, o + ToSigned(n));
    S.JoinHas(S.OffsetExec(true, Offsets(e, StackMem), d.num), x, o + ToSigned(n));
    assert Offsets(d, StackMem).elems == [o] && e.num.elems == [n];
    assert S.SomeLarge(a, [o], [n]) <==> S.Apply(a, o, n) > S.OFFSET_LIMIT by {
      assert o in [o] && n in [n];
    }
    assert (exists k, m :: k in [o] && m in [n] && o + ToSigned(n) == S.Apply(a, k, m)) <==> o + ToSigned(n) == S.Apply(a, o, n) by {
      assert o in [o] && n in [n];
    }
  }

  /** The same for the difference. */
  lemma PointerDifferenceDescribedIff(o: int, n: U64)
    ensures Contains(Sub(StackPointer(o), Number(n)), Ptr(StackMem, o - ToSigned(n))) <==>
      SmallDisplacement(n) || o - ToInt32(n) > S.OFFSET_LIMIT
  {
    var d, e := StackPointer(o), Number(n);
    SubOffsets(d, e, StackMem);
    var a := S.OffsetMinus;
    S.OffsetExecExact(false, Offsets(d, StackMem), e.num, o - ToSigned(n));
    assert Offsets(d, StackMem).elems == [o] && e.num.elems == [n];
    assert S.SomeLarge(a, [o], [n]) <==> S.Apply(a, o, n) > S.OFFSET_LIMIT by {
      assert o in [o] && n in [n];
    }
    assert (exists k, m :: k in [o] && m in [n] && o - ToSigned(n) == S.Apply(a, k, m)) <==> o - ToSigned(n) == S.Apply(a, o, n) by {
      assert o in [o] && n in [n];
    }
  }

  function StackPointer(o: int): Rcp {
    RcpData(Uniform(S.BOT), S.BOT, S.Single(o), S.BOT, S.BOT, {})
  }

  function Number(n: U64): Rcp {
    WithNum(Bot, S.Single(n))
  }

  lemma OffsetsPlusNeat(dNum: S.IntSet, x: S.IntSet, eNum: S.IntSet, y: S.IntSet)
    ensures Neat(OffsetsPlus(dNum, x, eNum, y))
  {
    S.OffsetExecExact(true, y, dNum, 0);
    S.OffsetExecExact(true, x, eNum, 0);
    S.UnionSorted(S.OffsetExec(true, y, dNum).elems, S.OffsetExec(true, x, eNum).elems);
  }

  lemma AddOrdered(d: Rcp, e: Rcp)
    ensures Ordered(Add(d, e))
  {
    S.NumExecExact(ADD, d.num, e.num, 0);
    forall r | IsRegion(r)
      ensures Neat(Offsets(Add(d, e), r))
    {
      AddOffsets(d, e, r);
      OffsetsPlusNeat(d.num, Offsets(d, r), e.num, Offsets(e, r));
    }
  }

  ghost predicate OrderedDifferences(d: Rcp, e: Rcp) {
    forall r | IsRegion(r) :: Differences(d, e, r).Ordered()
  }

  lemma JoinNeat(x: S.IntSet, y: S.IntSet)
    requires Neat(x) && y.Ordered()
    ensures Neat(S.Join(x, y))
  {
    S.UnionSorted(x.elems, y.elems);
  }

  lemma {:induction false} MapDifferencesNeat(d: Rcp, e: Rcp, t: nat, acc: S.IntSet)
    requires t <= NMAPS && Neat(acc) && OrderedDifferences(d, e)
    ensures Neat(MapDifferences(d, e, t, acc))
    decreases NMAPS - t
  {
    if t >= NMAPS {
    } else {
      assert IsRegion(MapValue(t));
      JoinNeat(acc, Differences(d, e, MapValue(t)));
      MapDifferencesNeat(d, e, t + 1, S.Join(acc, Differences(d, e, MapValue(t))));
    }
  }

  lemma JoinFourNeat(n: S.IntSet, x: S.IntSet, y: S.IntSet, z: S.IntSet)
    requires Neat(n) && x.Ordered() && y.Ordered() && z.Ordered()
    ensures Neat(JoinFour(n, x, y, z))
  {
    JoinNeat(n, x);
    JoinNeat(S.Join(n, x), y);
    JoinNeat(S.Join(S.Join(n, x), y), z);
  }

  lemma SubOrdered(d: Rcp, e: Rcp)
    requires Ordered(d) && Ordered(e) && OrderedDifferences(d, e)
    ensures Ordered(Sub(d, e))
  {
    var n := S.NumExec(SUB, d.num, e.num);
    S.NumExecExact(SUB, d.num, e.num, 0);
    assert IsRegion(CtxMem) && IsRegion(StackMem) && IsRegion(PacketMem);
    MapDifferencesNeat(d, e, 0, n);
    JoinFourNeat(MapDifferences(d, e, 0, n), Differences(d, e, CtxMem), Differences(d, e, StackMem),
                 Differences(d, e, PacketMem));
    forall r | IsRegion(r)
      ensures Neat(Offsets(Sub(d, e), r))
    {
      SubOffsets(d, e, r);
      S.OffsetExecExact(false, Offsets(d, r), e.num, 0);
    }
  }

  /* ----- restriction by a comparison and by a type ----- */

  datatype Tag = OffsetTag(region: Region) | NumTag | FdTag

  const Regions: set<Region> := (set i: int | 0 <= i < NMAPS :: MapValue(i)) + {CtxMem, StackMem, PacketMem}
  const NonFd: set<Tag> := (set r | r in Regions :: OffsetTag(r)) + {NumTag}
  const AllTags: set<Tag> := NonFd + {FdTag}

  function RestrictIf(t: bool, op: CondOp, x: S.IntSet, y: S.IntSet): S.IntSet {
    if t then S.Restrict(op, x, y) else x
  }

  function RestrictFds(op: CondOp, x: set<int>, y: set<int>): set<int> {
    if op.EQ? then x * y else if op.NE? then x - y else x
  }

  /** RCP_domain::assume over the components named in types. */
  function Restrict(d: Rcp, op: CondOp, e: Rcp, types: set<Tag>): Rcp {
    RcpData(seq(NMAPS, i requires 0 <= i < NMAPS => RestrictIf(OffsetTag(MapValue(i)) in types, op, d.maps[i], e.maps[i])),
            RestrictIf(OffsetTag(CtxMem) in types, op, d.ctx, e.ctx),
            RestrictIf(OffsetTag(StackMem) in types, op, d.stack, e.stack),
            RestrictIf(OffsetTag(PacketMem) in types, op, d.packet, e.packet),
            RestrictIf(NumTag in types, op, d.num, e.num),
            if FdTag in types then RestrictFds(op, d.fds, e.fds) else d.fds)
  }

  /** No selected offset set of e reaches the comparison that the source aborts on. */
  ghost predicate NoSignedPointers(e: Rcp, types: set<Tag>) {
    forall r | IsRegion(r) && OffsetTag(r) in types :: Offsets(e, r).top || Offsets(e, r).elems == []
  }

  /** The component selection of the three-argument assume. */
  function TypesFor(op: CondOp): set<Tag> {
    if op.EQ? || op.NE? then AllTags else NonFd
  }

  lemma RestrictOffsets(d: Rcp, op: CondOp, e: Rcp, types: set<Tag>, r: Region)
    requires IsRegion(r)
    ensures Offsets(Restrict(d, op, e, types), r) == RestrictIf(OffsetTag(r) in types, op, Offsets(d, r), Offsets(e, r))
  {}

  lemma AllRegions(r: Region)
    requires IsRegion(r)
    ensures r in Regions && OffsetTag(r) in NonFd
  {}

  /** When a comparison of two tagged words holds; words of different tags only ever differ. */
  predicate WordHolds(op: CondOp, v: Word, u: Word) {
    match op
    case EQ => v == u
    case NE => v != u
    case SET => v.Num? && u.Num? && BitAnd(ToU64(v.n), ToU64(u.n)) != 0
    case NSET => v.Num? && u.Num? && BitAnd(ToU64(v.n), ToU64(u.n)) == 0
    case _ =>
      || (v.Num? && u.Num? && Compare(op, v.n, u.n))
      || (v.Ptr? && u.Ptr? && v.region == u.region && Compare(op, v.offset, u.offset))
  }

  /** The right operand describes at most one word. */
  ghost predicate AtMostOne(e: Rcp) {
    forall u, u' :: Contains(e, u) && Contains(e, u') ==> u == u'
  }

  lemma RestrictKeeps(op: CondOp, x: S.IntSet, y: S.IntSet, a: int, b: int)
    requires Neat(x) && Neat(y) && x.Has(a) && y.Has(b)
    requires !op.SET? && !op.NSET? && !op.NE? ==> Compare(op, a, b)
    requires op.NE? ==> !y.Has(a)
    ensures S.Restrict(op, x, y).Has(a)
  {
    if IsOrderOrEq(op) {
      S.OrderLossless(op, x, y);
      assert S.SomePair(op, a, y);
    } else if op.NE? && !x.top {
      S.RestrictExact(op, x, y, a);
    }
  }

  /* ----- not equal ----- */

  /** Some component, known on both sides, has an element in both. */
  predicate Shares(d: Rcp, e: Rcp) {
    || (exists i | 0 <= i < NMAPS :: S.Common(d.maps[i], e.maps[i]))
    || S.Common(d.ctx, e.ctx) || S.Common(d.stack, e.stack) || S.Common(d.packet, e.packet)
    || S.Common(d.num, e.num) || d.fds * e.fds != {}
  }

  predicate AtMostOneElement(x: S.IntSet) {
    !x.top && |x.elems| <= 1
  }

  /** Only the components named in t may be inhabited, and t names one that holds at most one element. */
  predicate OneWordOf(e: Rcp, t: Tag) {
    && IsOfType(e, {t})
    && match t
       case NumTag => AtMostOneElement(e.num)
       case FdTag => forall i, j | i in e.fds && j in e.fds :: i == j
       case OffsetTag(r) => IsRegion(r) && AtMostOneElement(Offsets(e, r))
  }

  /** The decidable form of AtMostOne. */
  predicate OneWord(e: Rcp) {
    exists t | t in AllTags :: OneWordOf(e, t)
  }

  /** e describes a word of tag t. */
  ghost predicate Inhabited(e: Rcp, t: Tag) {
    match t
    case NumTag => !e.num.IsBot()
    case FdTag => e.fds != {}
    case OffsetTag(r) => IsRegion(r) && !Offsets(e, r).IsBot()
  }

  lemma SetWitness(x: S.IntSet) returns (k: int)
    requires !x.IsBot()
    ensures x.Has(k)
  {
    k := if x.elems == [] then 0 else x.elems[0];
  }

  lemma TagWitness(e: Rcp, t: Tag) returns (u: Word)
    requires Inhabited(e, t)
    ensures Contains(e, u) && TagOf(u) == Some(t)
  {
    match t {
      case NumTag =>
        var k := SetWitness(e.num);
        u := Num(k);
      case FdTag =>
        var f :| f in e.fds;
        u := MapFd(f);
      case OffsetTag(r) =>
        var k := SetWitness(Offsets(e, r));
        u := Ptr(r, k);
    }
  }

  function TagOf(v: Word): Option<Tag> {
    match v
    case Num(_) => Some(NumTag)
    case Ptr(r, _) => Some(OffsetTag(r))
    case MapFd(_) => Some(FdTag)
    case Junk => None
  }

  lemma OfTypeIff(e: Rcp, t: Tag)
    requires t.OffsetTag? ==> IsRegion(t.region)
    ensures IsOfType(e, {t}) <==> forall t' :: Inhabited(e, t') ==> t' == t
  {
    if forall t' :: Inhabited(e, t') ==> t' == t {
      assert forall i | 0 <= i < NMAPS :: Inhabited(e, OffsetTag(MapValue(i))) <==> !e.maps[i].IsBot();
      assert Inhabited(e, OffsetTag(CtxMem)) <==> !e.ctx.IsBot();
      assert Inhabited(e, OffsetTag(StackMem)) <==> !e.stack.IsBot();
      assert Inhabited(e, OffsetTag(PacketMem)) <==> !e.packet.IsBot();
      assert Inhabited(e, NumTag) <==> !e.num.IsBot();
      assert Inhabited(e, FdTag) <==> e.fds != {};
    }
  }

  lemma AllTagsListed(t: Tag)
    requires t.OffsetTag? ==> IsRegion(t.region)
    ensures t in AllTags
  {
    if t.OffsetTag? { AllRegions(t.region); }
  }

  /** Two elements of one vector. */
  lemma TwoElements(x: S.IntSet) returns (k: int, n: int)
    requires x.Ordered() && !AtMostOneElement(x)
    ensures x.Has(k) && x.Has(n) && k != n
  {
    if x.top {
      k, n := 0, 1;
    } else {
      k, n := x.elems[0], x.elems[1];
    }
  }

  /** A value of one tag that is not one word describes two. */
  lemma TwoWords(e: Rcp, t: Tag) returns (u: Word, u': Word)
    requires Ordered(e) && IsOfType(e, {t}) && !OneWordOf(e, t) && (t.OffsetTag? ==> IsRegion(t.region))
    ensures Contains(e, u) && Contains(e, u') && u != u'
  {
    match t {
      case NumTag =>
        var k, n := TwoElements(e.num);
        u, u' := Num(k), Num(n);
      case FdTag =>
        var f, f' :| f in e.fds && f' in e.fds && f != f';
        u, u' := MapFd(f), MapFd(f');
      case OffsetTag(r) =>
        var k, n := TwoElements(Offsets(e, r));
        u, u' := Ptr(r, k), Ptr(r, n);
    }
  }

  lemma OneWordNotMixed(e: Rcp, t: Tag)
    requires OneWordOf(e, t) && (t.OffsetTag? ==> IsRegion(t.region))
    ensures !Contains(e, Junk)
  {
    OfTypeIff(e, t);
    assert Inhabited(e, OffsetTag(StackMem)) <==> !e.stack.IsBot();
    assert Inhabited(e, NumTag) <==> !e.num.IsBot();
    assert IsRegion(StackMem);
  }

  /** One tag's words are equal when there is at most one. */
  lemma OneWordIsOne(e: Rcp, t: Tag, u: Word, u': Word)
    requires OneWordOf(e, t) && (t.OffsetTag? ==> IsRegion(t.region)) && Contains(e, u) && Contains(e, u')
    ensures u == u'
  {
    OfTypeIff(e, t);
    OneWordNotMixed(e, t);
    assert Inhabited(e, TagOf(u).value) && Inhabited(e, TagOf(u').value);
  }

  lemma AtMostOneIff(e: Rcp)
    requires Ordered(e)
    ensures AtMostOne(e) <==> OneWord(e)
  {
    if OneWord(e) {
      var t :| t in AllTags && OneWordOf(e, t);
      forall u, u' | Contains(e, u) && Contains(e, u')
        ensures u == u'
      {
        OneWordIsOne(e, t, u, u');
      }
    }
    if AtMostOne(e) {
      var t := SomeTag(e);
      AllTagsListed(t);
      OfTypeIff(e, t);
      forall t' | Inhabited(e, t')
        ensures t' == t
      {
        var u := TagWitness(e, t');
        var u' := TagWitness(e, t);
      }
      if !OneWordOf(e, t) {
        var u, u' := TwoWords(e, t);
      }
    }
  }

  /** A tag that e inhabits, if there is one. */
  lemma SomeTag(e: Rcp) returns (t: Tag)
    ensures t.OffsetTag? ==> IsRegion(t.region)
    ensures forall t' :: Inhabited(e, t') ==> Inhabited(e, t)
  {
    if t' :| Inhabited(e, t') {
      t := t';
    } else {
      t := NumTag;
    }
  }

  /** No word that differs from some word of e is lost. */
  ghost predicate NeLossless(d: Rcp, e: Rcp) {
    forall v, u :: Contains(d, v) && Contains(e, u) && v != u ==> Contains(Restrict(d, NE, e, TypesFor(NE)), v)
  }

  /** NE takes away exactly the words of known components that e also holds. */
  lemma RestrictNotEqual(d: Rcp, e: Rcp, v: Word)
    requires Ordered(d) && Ordered(e) && Contains(d, v)
    ensures Contains(Restrict(d, NE, e, TypesFor(NE)), v) <==> !SharedWord(d, e, v)
  {
    var r := Restrict(d, NE, e, TypesFor(NE));
    match v {
      case Num(n) =>
        if !d.num.top && !e.num.top { S.RestrictExact(NE, d.num, e.num, n); }
      case Ptr(q, o) =>
        AllRegions(q);
        RestrictOffsets(d, NE, e, TypesFor(NE), q);
        if !Offsets(d, q).top && !Offsets(e, q).top { S.RestrictExact(NE, Offsets(d, q), Offsets(e, q), o); }
      case MapFd(i) =>
      case Junk =>
        forall q | IsRegion(q)
          ensures Offsets(r, q).top
        {
          RestrictOffsets(d, NE, e, TypesFor(NE), q);
        }
    }
  }

  ghost predicate SharedWord(d: Rcp, e: Rcp, v: Word) {
    match v
    case Num(n) => !d.num.top && !e.num.top && n in e.num.elems && n in d.num.elems
    case Ptr(r, o) => IsRegion(r) && !Offsets(d, r).top && !Offsets(e, r).top && o in Offsets(e, r).elems && o in Offsets(d, r).elems
    case MapFd(i) => i in d.fds && i in e.fds
    case Junk => false
  }

  lemma SharesIff(d: Rcp, e: Rcp)
    ensures Shares(d, e) <==> exists v :: SharedWord(d, e, v)
  {
    if Shares(d, e) {
      var v := SharedWitness(d, e);
    }
    if v :| SharedWord(d, e, v) {
      match v {
        case Num(n) => assert S.Common(d.num, e.num);
        case Ptr(r, o) =>
          assert S.Common(Offsets(d, r), Offsets(e, r));
        case MapFd(i) => assert i in d.fds * e.fds;
      }
    }
  }

  lemma SharedRegion(d: Rcp, e: Rcp) returns (r: Region)
    requires Shares(d, e) && !S.Common(d.num, e.num) && d.fds * e.fds == {}
    ensures IsRegion(r) && S.Common(Offsets(d, r), Offsets(e, r))
  {
    if i :| 0 <= i < NMAPS && S.Common(d.maps[i], e.maps[i]) {
      r := MapValue(i);
    } else if S.Common(d.ctx, e.ctx) {
      r := CtxMem;
    } else if S.Common(d.stack, e.stack) {
      r := StackMem;
    } else {
      r := PacketMem;
    }
  }

  lemma SharedWitness(d: Rcp, e: Rcp) returns (v: Word)
    requires Shares(d, e)
    ensures SharedWord(d, e, v)
  {
    if S.Common(d.num, e.num) {
      var k :| k in d.num.elems && k in e.num.elems;
      v := Num(k);
    } else if d.fds * e.fds != {} {
      var f :| f in d.fds * e.fds;
      v := MapFd(f);
    } else {
      var r := SharedRegion(d, e);
      var k :| k in Offsets(d, r).elems && k in Offsets(e, r).elems;
      v := Ptr(r, k);
    }
  }

  /**
    Assuming two tagged values different loses no word that can take part
    exactly when the right describes at most one word or no known component
    has an element in common; both can be read off the operands.
   */
  lemma NotEqualLosslessIff(d: Rcp, e: Rcp)
    requires Ordered(d) && Ordered(e)
    ensures NeLossless(d, e) <==> OneWord(e) || !Shares(d, e)
  {
    AtMostOneIff(e);
    SharesIff(d, e);
    if OneWord(e) || !Shares(d, e) {
      forall v, u | Contains(d, v) && Contains(e, u) && v != u
        ensures Contains(Restrict(d, NE, e, TypesFor(NE)), v)
      {
        RestrictNotEqual(d, e, v);
        if SharedWord(d, e, v) { SharedIsContained(d, e, v); }
      }
    } else {
      var v :| SharedWord(d, e, v);
      SharedIsContained(d, e, v);
      RestrictNotEqual(d, e, v);
      var u, u' :| Contains(e, u) && Contains(e, u') && u != u';
      assert v != u || v != u';
    }
  }

  lemma SharedIsContained(d: Rcp, e: Rcp, v: Word)
    requires SharedWord(d, e, v)
    ensures Contains(d, v) && Contains(e, v)
  {}

  /** Restricting by a comparison loses no word that can take part in it. */
  lemma RestrictSound(d: Rcp, op: CondOp, e: Rcp, v: Word, u: Word)
    requires Ordered(d) && Ordered(e) && Contains(d, v) && Contains(e, u)
    requires WordHolds(op, v, u)
    requires op.NE? ==> OneWord(e) || !Shares(d, e)
    ensures Contains(Restrict(d, op, e, TypesFor(op)), v)
  {
    var types := TypesFor(op);
    if op.NE? {
      NotEqualLosslessIff(d, e);
      return;
    }
    match v {
      case Num(n) => RestrictKeeps(op, d.num, e.num, n, u.n);
      case Ptr(r, o) =>
        AllRegions(r);
        RestrictOffsets(d, op, e, types, r);
        RestrictKeeps(op, Offsets(d, r), Offsets(e, r), o, u.offset);
      case MapFd(i) =>
      case Junk =>
        forall r | IsRegion(r)
          ensures Offsets(Restrict(d, op, e, types), r).top
        {
          RestrictOffsets(d, op, e, types, r);
        }
    }
  }

  lemma RestrictOrdered(d: Rcp, op: CondOp, e: Rcp, types: set<Tag>)
    requires Ordered(d) && Ordered(e)
    ensures Ordered(Restrict(d, op, e, types))
  {
    S.RestrictOrdered(op, d.num, e.num);
    forall r | IsRegion(r)
      ensures Neat(Offsets(Restrict(d, op, e, types), r))
    {
      RestrictOffsets(d, op, e, types, r);
      S.RestrictOrdered(op, Offsets(d, r), Offsets(e, r));
    }
  }

  /* ----- the verdict on an assertion ----- */

  /** Every component outside types is empty. */
  predicate IsOfType(d: Rcp, types: set<Tag>) {
    && (forall i | 0 <= i < NMAPS :: OffsetTag(MapValue(i)) in types || d.maps[i].IsBot())
    && (OffsetTag(CtxMem) in types || d.ctx.IsBot())
    && (OffsetTag(StackMem) in types || d.stack.IsBot())
    && (OffsetTag(PacketMem) in types || d.packet.IsBot())
    && (NumTag in types || d.num.IsBot())
    && (FdTag in types || d.fds == {})
  }

  predicate FdSatisfied(op: CondOp, x: set<int>, y: set<int>) {
    x == {} || y == {} || (x != AllFds && y != AllFds && RestrictFds(op, x, y) == x)
  }

  predicate Satisfied(d: Rcp, op: CondOp, e: Rcp, types: set<Tag>) {
    !IsOfType(d, types) ||
    (&& IsOfType(e, types)
     && (forall i | 0 <= i < NMAPS :: OffsetTag(MapValue(i)) in types ==> S.Satisfied(op, d.maps[i], e.maps[i]))
     && (OffsetTag(CtxMem) in types ==> S.Satisfied(op, d.ctx, e.ctx))
     && (OffsetTag(StackMem) in types ==> S.Satisfied(op, d.stack, e.stack))
     && (OffsetTag(PacketMem) in types ==> S.Satisfied(op, d.packet, e.packet))
     && (NumTag in types ==> S.Satisfied(op, d.num, e.num))
     && (FdTag in types ==> FdSatisfied(op, d.fds, e.fds)))
  }

  function Component(d: Rcp, t: Tag): S.IntSet
    requires t.NumTag? || (t.OffsetTag? && IsRegion(t.region))
  {
    if t.NumTag? then d.num else Offsets(d, t.region)
  }

  function WordOf(t: Tag, x: int): Word
    requires !t.FdTag?
  {
    if t.NumTag? then Num(x) else Ptr(t.region, x)
  }

  lemma OneTypeWords(d: Rcp, t: Tag, v: Word)
    requires t.NumTag? || (t.OffsetTag? && IsRegion(t.region))
    requires IsOfType(d, {t}) && !Component(d, t).top
    ensures Contains(d, v) <==> exists x :: x in Component(d, t).elems && v == WordOf(t, x)
  {}

  lemma OneTypeSatisfied(d: Rcp, op: CondOp, e: Rcp, t: Tag)
    requires t.NumTag? || (t.OffsetTag? && IsRegion(t.region))
    requires IsOfType(d, {t}) && IsOfType(e, {t})
    ensures Satisfied(d, op, e, {t}) <==> S.Satisfied(op, Component(d, t), Component(e, t))
  {}

  ghost predicate EveryPairHolds(d: Rcp, op: CondOp, e: Rcp) {
    forall v, u :: Contains(d, v) && Contains(e, u) ==> WordHolds(op, v, u)
  }

  lemma PairsOfOneType(d: Rcp, op: CondOp, e: Rcp, t: Tag)
    requires t.NumTag? || (t.OffsetTag? && IsRegion(t.region))
    requires !op.SET? && !op.NSET?
    requires IsOfType(d, {t}) && IsOfType(e, {t}) && !Component(d, t).top && !Component(e, t).top
    ensures EveryPairHolds(d, op, e) <==> S.AllPairs(op, Component(d, t), Component(e, t))
  {
    var x, y := Component(d, t), Component(e, t);
    if EveryPairHolds(d, op, e) {
      forall k, n | x.Has(k) && y.Has(n)
        ensures Compare(op, k, n)
      {
        OneTypeWords(d, t, WordOf(t, k));
        OneTypeWords(e, t, WordOf(t, n));
        assert WordHolds(op, WordOf(t, k), WordOf(t, n));
      }
    }
    if S.AllPairs(op, x, y) {
      forall v, u | Contains(d, v) && Contains(e, u)
        ensures WordHolds(op, v, u)
      {
        OneTypeWords(d, t, v);
        OneTypeWords(e, t, u);
        var k :| k in x.elems && v == WordOf(t, k);
        var n :| n in y.elems && u == WordOf(t, n);
        assert x.Has(k) && y.Has(n);
      }
    }
  }

  /**
    On values of one tag with a single value on the right, the verdict is the
    truth about every pair of words the operands describe.
   */
  lemma SatisfiedMeaning(d: Rcp, op: CondOp, e: Rcp, t: Tag)
    requires t.NumTag? || (t.OffsetTag? && IsRegion(t.region))
    requires !op.SET? && !op.NSET?
    requires IsOfType(d, {t}) && IsOfType(e, {t})
    requires !Component(d, t).top && Component(d, t).Ordered() && Component(d, t).elems != []
    requires Component(e, t).IsSingle()
    ensures Satisfied(d, op, e, {t}) <==> EveryPairHolds(d, op, e)
  {
    OneTypeSatisfied(d, op, e, t);
    PairsOfOneType(d, op, e, t);
    if op.NE? {
      S.SatisfiedExact(op, Component(d, t), Component(e, t));
    } else {
      S.SingleVerdict(op, Component(d, t), Component(e, t));
    }
  }
}
