/**
  NumDomSet and OffsetDomSet as the objects they are: two fields that every
  operation overwrites. Each method is proved against the functions of
  SetDomains.
 */
module SetObjects {
  import opened Syntax
  import S = SetDomains

  /** The loop of every order case: the elements that compare with the bound, in order. */
  method Kept(op: CondOp, before: seq<int>, m: int) returns (kept: seq<int>)
    requires IsOrderOrEq(op) && !op.EQ?
    ensures kept == S.Filter(op, before, m)
  {
    kept := [];
    for i := 0 to |before|
      invariant kept + S.Filter(op, before[i..], m) == S.Filter(op, before, m)
    {
      assert before[i..][1..] == before[i + 1..];
      if S.Keeps(op, before[i], m) {
        kept := kept + [before[i]];
      }
    }
  }

  class NumDomSet {
    var top: bool
    var elems: seq<int>

    function Value(): S.IntSet
      reads this
    {
      S.IntSet(top, elems)
    }

    constructor (v: S.IntSet)
      ensures Value() == v
    {
      top, elems := v.top, v.elems;
    }

    method Havoc()
      modifies this
      ensures Value() == S.TOP
    {
      elems, top := [], true;
    }

    method ToBot()
      modifies this
      ensures Value() == S.BOT
    {
      elems, top := [], false;
    }

    /** The object holds what either held; order is kept. */
    method JoinWith(o: NumDomSet)
      modifies this
      ensures forall e :: Value().Has(e) <==> old(Value().Has(e)) || old(o.Value().Has(e))
      ensures old(Value().Ordered()) && old(o.Value().Ordered()) ==> Value().Ordered()
      ensures Value() == S.Join(old(Value()), old(o.Value()))
    {
      S.JoinHasAll(Value(), o.Value());
      if top || o.top {
        Havoc();
        return;
      }
      elems := S.SetUnion(elems, o.elems);
    }

    /** Of two vectors in order the object keeps exactly what both hold, in order. */
    method MeetWith(o: NumDomSet)
      modifies this
      ensures old(Value().Ordered()) && old(o.Value().Ordered()) ==>
        Value().Ordered() && forall e :: Value().Has(e) <==> old(Value().Has(e)) && old(o.Value().Has(e))
      ensures Value() == S.Meet(old(Value()), old(o.Value()))
    {
      if Value().Ordered() && o.Value().Ordered() { S.MeetHas(Value(), o.Value()); }
      if o.top {
        return;
      }
      if top {
        top, elems := o.top, o.elems;
        return;
      }
      elems := S.SetIntersection(elems, o.elems);
    }

    method Exec(op: BinOp, o: NumDomSet)
      requires S.Computes(op, Value(), o.Value())
      modifies this
      ensures Value() == S.NumExec(op, old(Value()), old(o.Value()))
    {
      if Value().IsBot() || o.Value().IsBot() {
        ToBot();
        return;
      }
      if top || o.top {
        Havoc();
        return;
      }
      var res := [];
      var a := S.OnWords(op);
      for i := 0 to |elems|
        invariant S.Image(a, elems[i..], o.elems, res) == S.Image(a, elems, o.elems, [])
      {
        ghost var before := res;
        for j := 0 to |o.elems|
          invariant S.RowImage(a, elems[i], o.elems[j..], res) == S.RowImage(a, elems[i], o.elems, before)
        {
          assert o.elems[j..][1..] == o.elems[j + 1..];
          res := S.Insert(res, S.Apply(a, elems[i], o.elems[j]));
        }
        assert elems[i..][1..] == elems[i + 1..];
      }
      elems := res;
    }

    method Assume(op: CondOp, right: NumDomSet)
      requires this != right
      modifies this
      ensures Value() == S.Restrict(op, old(Value()), old(right.Value()))
    {
      if right.top {
        return;
      }
      match op {
        case EQ =>
          MeetWith(right);
          return;
        case NE =>
          elems := S.SetDifference(elems, right.elems);
          return;
        case SET => return;
        case NSET => return;
        case _ =>
      }
      var before := elems;
      elems := [];
      if right.elems == [] {
        return;
      }
      elems := Kept(op, before, S.Bound(op, right.elems));
    }

    method Satisfied(op: CondOp, right: NumDomSet) returns (r: bool)
      ensures r == S.Satisfied(op, Value(), right.Value())
    {
      if Value().IsBot() || right.Value().IsBot() {
        return true;
      }
      if top || right.top {
        return false;
      }
      var d := new NumDomSet(Value());
      d.Assume(op, right);
      return d.Value() == Value();
    }
  }

  /** The ordered set of all differences, up to the first that is past the limit. */
  method AllDifferences(ks: seq<int>, ns: seq<int>) returns (large: bool, res: seq<int>)
    ensures large <==> S.SomeLarge(S.OffsetDiff, ks, ns)
    ensures !large ==> res == S.Image(S.OffsetDiff, ks, ns, [])
  {
    large, res := false, [];
    var a := S.OffsetDiff;
    for i := 0 to |ks|
      invariant S.Image(a, ks[i..], ns, res) == S.Image(a, ks, ns, [])
      invariant !S.SomeLarge(a, ks[..i], ns)
    {
      ghost var before := res;
      for j := 0 to |ns|
        invariant S.RowImage(a, ks[i], ns[j..], res) == S.RowImage(a, ks[i], ns, before)
        invariant !S.SomeLarge(a, [ks[i]], ns[..j])
      {
        assert ns[j..][1..] == ns[j + 1..];
        res := S.Insert(res, ks[i] - ns[j]);
        if ks[i] - ns[j] > S.OFFSET_LIMIT {
          assert S.Apply(a, ks[i], ns[j]) > S.OFFSET_LIMIT;
          return true, res;
        }
      }
      assert ns[..|ns|] == ns;
      assert ks[i..][1..] == ks[i + 1..];
    }
    assert ks[..|ks|] == ks;
  }

  class OffsetDomSet {
    var top: bool
    var elems: seq<int>

    function Value(): S.IntSet
      reads this
    {
      S.IntSet(top, elems)
    }

    constructor (v: S.IntSet)
      ensures Value() == v
    {
      top, elems := v.top, v.elems;
    }

    /** The object holds what either held; order is kept. */
    method JoinWith(o: OffsetDomSet)
      modifies this
      ensures forall e :: Value().Has(e) <==> old(Value().Has(e)) || old(o.Value().Has(e))
      ensures old(Value().Ordered()) && old(o.Value().Ordered()) ==> Value().Ordered()
      ensures Value() == S.Join(old(Value()), old(o.Value()))
    {
      S.JoinHasAll(Value(), o.Value());
      if top || o.top {
        elems, top := [], true;
        return;
      }
      elems := S.SetUnion(elems, o.elems);
    }

    /** Of two vectors in order the object keeps exactly what both hold, in order. */
    method MeetWith(o: OffsetDomSet)
      modifies this
      ensures old(Value().Ordered()) && old(o.Value().Ordered()) ==>
        Value().Ordered() && forall e :: Value().Has(e) <==> old(Value().Has(e)) && old(o.Value().Has(e))
      ensures Value() == S.Meet(old(Value()), old(o.Value()))
    {
      if Value().Ordered() && o.Value().Ordered() { S.MeetHas(Value(), o.Value()); }
      if o.top {
        return;
      }
      if top {
        top, elems := o.top, o.elems;
        return;
      }
      elems := S.SetIntersection(elems, o.elems);
    }

    method Exec(add: bool, o: NumDomSet)
      modifies this
      ensures Value() == S.OffsetExec(add, old(Value()), old(o.Value()))
    {
      if Value().IsBot() || o.Value().IsBot() {
        elems, top := [], false;
        return;
      }
      if top || o.top {
        elems, top := [], true;
        return;
      }
      var res := [];
      var a := if add then S.OffsetPlus else S.OffsetMinus;
      for i := 0 to |elems|
        invariant Value() == old(Value()) && o.Value() == old(o.Value())
        invariant S.Image(a, elems[i..], o.elems, res) == S.Image(a, elems, o.elems, [])
        invariant !S.SomeLarge(a, elems[..i], o.elems)
      {
        ghost var before := res;
        for j := 0 to |o.elems|
          invariant Value() == old(Value()) && o.Value() == old(o.Value())
          invariant S.RowImage(a, elems[i], o.elems[j..], res) == S.RowImage(a, elems[i], o.elems, before)
          invariant !S.SomeLarge(a, [elems[i]], o.elems[..j])
        {
          var x := S.Apply(a, elems[i], o.elems[j]);
          if x > S.OFFSET_LIMIT {
            assert S.SomeLarge(a, elems, o.elems);
            elems, top := [], true;
            return;
          }
          assert o.elems[j..][1..] == o.elems[j + 1..];
          res := S.Insert(res, x);
        }
        assert o.elems[..|o.elems|] == o.elems;
        assert elems[i..][1..] == elems[i + 1..];
      }
      assert elems[..|elems|] == elems;
      elems := res;
    }

    method Minus(o: OffsetDomSet) returns (r: NumDomSet)
      ensures fresh(r) && r.Value() == S.OffsetDifference(Value(), o.Value())
    {
      if Value().IsBot() || o.Value().IsBot() {
        r := new NumDomSet(S.BOT);
        return;
      }
      if top || o.top {
        r := new NumDomSet(S.TOP);
        return;
      }
      var large, res := AllDifferences(elems, o.elems);
      if large {
        r := new NumDomSet(S.TOP);
        return;
      }
      var words := [];
      for i := 0 to |res|
        invariant words + S.Words(res[i..]) == S.Words(res)
      {
        assert res[i..][1..] == res[i + 1..];
        words := words + [ToU64(res[i])];
      }
      r := new NumDomSet(S.IntSet(false, words));
    }

    /** The source aborts on a signed comparison of two offset sets that reach the comparison. */
    method Assume(op: CondOp, right: OffsetDomSet)
      requires this != right
      requires IsSigned(op) ==> right.top || right.elems == []
      modifies this
      ensures Value() == S.Restrict(op, old(Value()), old(right.Value()))
    {
      if right.top {
        return;
      }
      match op {
        case EQ =>
          MeetWith(right);
          return;
        case NE =>
          elems := S.SetDifference(elems, right.elems);
          return;
        case SET => return;
        case NSET => return;
        case _ =>
      }
      var before := elems;
      elems := [];
      if right.elems == [] {
        return;
      }
      elems := Kept(op, before, S.Bound(op, right.elems));
    }
  }
}
