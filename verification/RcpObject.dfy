/**
  RCP_domain as an object: its operators overwrite the components one after
  the other, looping over the map regions.
 */
module RcpObject {
  import opened Syntax
  import S = SetDomains
  import R = Rcp

  class RcpDomain {
    var maps: seq<S.IntSet>
    var ctx: S.IntSet
    var stack: S.IntSet
    var packet: S.IntSet
    var num: S.IntSet
    var fds: set<int>

    ghost predicate Valid()
      reads this
    {
      |maps| == R.NMAPS && fds <= R.AllFds
    }

    function Value(): R.Rcp
      requires Valid()
      reads this
    {
      R.RcpData(maps, ctx, stack, packet, num, fds)
    }

    constructor (d: R.Rcp)
      ensures Valid() && Value() == d
    {
      maps, ctx, stack, packet, num, fds := d.maps, d.ctx, d.stack, d.packet, d.num, d.fds;
    }

    method JoinWith(o: RcpDomain)
      requires Valid() && o.Valid()
      modifies this
      ensures Valid() && Value() == R.Join(old(Value()), old(o.Value()))
    {
      ghost var d, e := Value(), o.Value();
      for t := 0 to R.NMAPS
        invariant Valid() && o.Valid()
        invariant Value() == R.RcpData(maps, d.ctx, d.stack, d.packet, d.num, d.fds)
        invariant o.Value() == R.RcpData(o.maps, e.ctx, e.stack, e.packet, e.num, e.fds)
        invariant forall i :: 0 <= i < t ==> maps[i] == S.Join(d.maps[i], e.maps[i])
        invariant forall i :: t <= i < R.NMAPS ==> maps[i] == d.maps[i] && o.maps[i] == e.maps[i]
      {
        maps := maps[t := S.Join(maps[t], o.maps[t])];
      }
      ctx := S.Join(ctx, o.ctx);
      stack := S.Join(stack, o.stack);
      packet := S.Join(packet, o.packet);
      num := S.Join(num, o.num);
      fds := fds + o.fds;
      assert maps == R.Join(d, e).maps;
    }

    method AddAssign(rhs: RcpDomain)
      requires Valid() && rhs.Valid()
      modifies this
      ensures Valid() && Value() == R.Add(old(Value()), old(rhs.Value()))
    {
      ghost var d, e := Value(), rhs.Value();
      for t := 0 to R.NMAPS
        invariant Valid() && rhs.Valid()
        invariant Value() == R.RcpData(maps, d.ctx, d.stack, d.packet, d.num, d.fds)
        invariant rhs.Value() == R.RcpData(rhs.maps, e.ctx, e.stack, e.packet, e.num, e.fds)
        invariant forall i :: 0 <= i < t ==> maps[i] == R.OffsetsPlus(d.num, d.maps[i], e.num, e.maps[i])
        invariant forall i :: t <= i < R.NMAPS ==> maps[i] == d.maps[i] && rhs.maps[i] == e.maps[i]
      {
        maps := maps[t := S.Join(S.OffsetExec(true, rhs.maps[t], num), S.OffsetExec(true, maps[t], rhs.num))];
      }
      ctx := S.Join(S.OffsetExec(true, rhs.ctx, num), S.OffsetExec(true, ctx, rhs.num));
      stack := S.Join(S.OffsetExec(true, rhs.stack, num), S.OffsetExec(true, stack, rhs.num));
      packet := S.Join(S.OffsetExec(true, rhs.packet, num), S.OffsetExec(true, packet, rhs.num));
      num := S.NumExec(ADD, num, rhs.num);
      assert maps == R.Add(d, e).maps;
    }

    /** Subtracting an object from itself gives zero; otherwise the operands are independent. */
    method SubAssign(rhs: RcpDomain)
      requires Valid() && rhs.Valid()
      modifies this
      ensures Valid()
      ensures Value() == if this == rhs then R.Number(0) else R.Sub(old(Value()), old(rhs.Value()))
    {
      if this == rhs {
        maps, ctx, stack, packet, fds := R.Uniform(S.BOT), S.BOT, S.BOT, S.BOT, {};
        num := S.Single(0);
        return;
      }
      SubtractNumbers(rhs);
      SubtractOffsets(rhs);
    }

    /** The number component: the differences of numbers and of pointers to the same region. */
    method SubtractNumbers(rhs: RcpDomain)
      requires Valid() && rhs.Valid() && this != rhs
      modifies this`num
      ensures Valid() && Value() == R.WithNum(old(Value()), R.SubNum(old(Value()), rhs.Value()))
    {
      ghost var d, e := Value(), rhs.Value();
      num := S.NumExec(SUB, num, rhs.num);
      for t := 0 to R.NMAPS
        invariant Valid() && rhs.Valid() && rhs.Value() == e
        invariant Value() == R.WithNum(d, num)
        invariant R.MapDifferences(d, e, t, num) == R.MapDifferences(d, e, 0, S.NumExec(SUB, d.num, e.num))
      {
        num := S.Join(num, S.OffsetDifference(maps[t], rhs.maps[t]));
      }
      num := S.Join(num, S.OffsetDifference(ctx, rhs.ctx));
      num := S.Join(num, S.OffsetDifference(stack, rhs.stack));
      num := S.Join(num, S.OffsetDifference(packet, rhs.packet));
    }

    /** The other components: offsets moved back by the numbers on the right. */
    method SubtractOffsets(rhs: RcpDomain)
      requires Valid() && rhs.Valid() && this != rhs
      modifies this`maps, this`packet, this`stack, this`ctx
      ensures Valid() && Value() == R.WithNum(R.Sub(old(Value()), rhs.Value()), num)
    {
      ghost var d, e := Value(), rhs.Value();
      for t := 0 to R.NMAPS
        invariant Valid() && rhs.Valid() && rhs.Value() == e
        invariant Value() == R.RcpData(maps, d.ctx, d.stack, d.packet, num, d.fds)
        invariant forall i :: 0 <= i < t ==> maps[i] == S.OffsetExec(false, d.maps[i], e.num)
        invariant forall i :: t <= i < R.NMAPS ==> maps[i] == d.maps[i]
      {
        maps := maps[t := S.OffsetExec(false, maps[t], rhs.num)];
      }
      packet := S.OffsetExec(false, packet, rhs.num);
      stack := S.OffsetExec(false, stack, rhs.num);
      ctx := S.OffsetExec(false, ctx, rhs.num);
      assert maps == R.Sub(d, e).maps;
    }

    method AssumeMaps(op: CondOp, right: RcpDomain, types: set<R.Tag>)
      requires Valid() && right.Valid() && this != right
      modifies this`maps
      ensures Valid()
      ensures forall i :: 0 <= i < R.NMAPS ==>
        maps[i] == R.RestrictIf(R.OffsetTag(R.MapValue(i)) in types, op, old(maps[i]), right.maps[i])
    {
      for t := 0 to R.NMAPS
        invariant Valid()
        invariant forall i :: 0 <= i < t ==>
          maps[i] == R.RestrictIf(R.OffsetTag(R.MapValue(i)) in types, op, old(maps[i]), right.maps[i])
        invariant forall i :: t <= i < R.NMAPS ==> maps[i] == old(maps[i])
      {
        if R.OffsetTag(R.MapValue(t)) in types {
          maps := maps[t := S.Restrict(op, maps[t], right.maps[t])];
        }
      }
    }

    /** The source aborts on a signed comparison with a pointer on the right. */
    method Assume(op: CondOp, right: RcpDomain, types: set<R.Tag>)
      requires Valid() && right.Valid() && this != right
      requires IsSigned(op) ==> R.NoSignedPointers(right.Value(), types)
      modifies this
      ensures Valid() && Value() == R.Restrict(old(Value()), op, right.Value(), types)
    {
      ghost var d, e := Value(), right.Value();
      AssumeMaps(op, right, types);
      ctx := R.RestrictIf(R.OffsetTag(R.CtxMem) in types, op, ctx, right.ctx);
      stack := R.RestrictIf(R.OffsetTag(R.StackMem) in types, op, stack, right.stack);
      packet := R.RestrictIf(R.OffsetTag(R.PacketMem) in types, op, packet, right.packet);
      num := R.RestrictIf(R.NumTag in types, op, num, right.num);
      if R.FdTag in types { fds := R.RestrictFds(op, fds, right.fds); }
      assert maps == R.Restrict(d, op, e, types).maps;
    }
  }
}
