/**
  The verdicts on assertions in one machine: what an assertion marked satisfied
  says about the words in the registers.
 */
module Assertions {
  import opened Syntax
  import opened Rcp
  import S = SetDomains
  import opened Restrictions
  import opened LinearBounds
  import opened Machine

  /** The word has one of the types; a mixture of bytes has none. */
  predicate Typed(v: Word, types: set<Tag>) {
    TagOf(v).Some? && TagOf(v).value in types
  }

  /** A domain value is of the types exactly when every word with a tag that it describes is. */
  lemma OfTypesIff(e: Rcp, types: set<Tag>)
    ensures IsOfType(e, types) <==> forall v :: Contains(e, v) && TagOf(v).Some? ==> Typed(v, types)
  {
    if forall v :: Contains(e, v) && TagOf(v).Some? ==> Typed(v, types) {
      forall t | Inhabited(e, t)
        ensures t in types
      {
        var u := TagWitness(e, t);
        assert Typed(u, types);
      }
      assert forall i | 0 <= i < NMAPS :: Inhabited(e, OffsetTag(MapValue(i))) <==> !e.maps[i].IsBot();
      assert Inhabited(e, OffsetTag(CtxMem)) <==> !e.ctx.IsBot();
      assert Inhabited(e, OffsetTag(StackMem)) <==> !e.stack.IsBot();
      assert Inhabited(e, OffsetTag(PacketMem)) <==> !e.packet.IsBot();
      assert Inhabited(e, NumTag) <==> !e.num.IsBot();
      assert Inhabited(e, FdTag) <==> e.fds != {};
    }
  }

  /** The verdict on "then is of the types T, given that where is of the types W". */
  predicate TypesSatisfied(then': Rcp, T: set<Tag>, where': Rcp, W: set<Tag>) {
    !IsOfType(where', W) || IsOfType(then', T)
  }

  /** Whenever the word of one value is of the types W, the word of the other is of the types T. */
  ghost predicate TypesImplied(then': Rcp, T: set<Tag>, where': Rcp, W: set<Tag>) {
    forall v, u :: Contains(where', v) && Contains(then', u) && Typed(v, W) && TagOf(u).Some? ==> Typed(u, T)
  }

  /** Every described word decides alike whether it is of the types W, or the verdict needs no premise. */
  predicate Decided(then': Rcp, T: set<Tag>, where': Rcp, W: set<Tag>) {
    IsOfType(where', W) || IsOfType(where', AllTags - W) || IsOfType(then', T)
  }

  lemma TypedWord(e: Rcp, W: set<Tag>) returns (v: Word)
    requires !IsOfType(e, W)
    ensures Contains(e, v) && TagOf(v).Some? && TagOf(v).value in AllTags - W
  {
    OfTypesIff(e, W);
    v :| Contains(e, v) && TagOf(v).Some? && !Typed(v, W);
    AllTagsListed(TagOf(v).value);
  }

  /** A satisfied verdict is right exactly when the premise is decided. */
  lemma TypeVerdictIff(then': Rcp, T: set<Tag>, where': Rcp, W: set<Tag>)
    ensures (TypesSatisfied(then', T, where', W) ==> TypesImplied(then', T, where', W)) <==> Decided(then', T, where', W)
  {
    OfTypesIff(then', T);
    OfTypesIff(where', W);
    OfTypesIff(where', AllTags - W);
    if !Decided(then', T, where', W) {
      var v := TypedWord(where', AllTags - W);
      var u := TypedWord(then', T);
      assert Typed(v, W);
    }
  }

  /* ----- in a machine, and in the program ----- */

  /** The register is of the types; when there is a premise, only if the other register is of its types. */
  datatype TypeConstraint = TypeConstraint(reg: Reg, types: set<Tag>, given: Option<Premise>)

  datatype Premise = Premise(reg: Reg, types: set<Tag>)

  ghost predicate Meets(s: State, c: TypeConstraint) {
    |s.regs| == NREGS &&
    ((c.given.None? || Typed(s.regs[c.given.value.reg], c.given.value.types)) && TagOf(s.regs[c.reg]).Some? ==>
     Typed(s.regs[c.reg], c.types))
  }

  /** The registers that the constraint speaks about hold values. */
  predicate Readable(m: MachineVal, c: TypeConstraint) {
    HasRegs(m) && m.regs[c.reg].Some? && (c.given.Some? ==> m.regs[c.given.value.reg].Some?)
  }

  /** The assertion is marked satisfied. */
  predicate Marked(m: MachineVal, c: TypeConstraint)
    requires Readable(m, c)
  {
    var d := m.regs[c.reg].value;
    match c.given
    case None => IsOfType(d, c.types)
    case Some(p) => TypesSatisfied(d, c.types, m.regs[p.reg].value, p.types)
  }

  predicate PremiseDecided(m: MachineVal, c: TypeConstraint)
    requires Readable(m, c)
  {
    c.given.Some? ==> Decided(m.regs[c.reg].value, c.types, m.regs[c.given.value.reg].value, c.given.value.types)
  }

  /**
    A type constraint is marked exactly when every tagged word of the register
    is of its types, or some tagged word of the premise's register is not.
   */
  lemma MarkedIff(m: MachineVal, c: TypeConstraint)
    requires Readable(m, c)
    ensures Marked(m, c) <==>
            || (forall v :: Contains(m.regs[c.reg].value, v) && TagOf(v).Some? ==> Typed(v, c.types))
            || (c.given.Some? && exists v ::
                  Contains(m.regs[c.given.value.reg].value, v) && TagOf(v).Some? && !Typed(v, c.given.value.types))
  {
    OfTypesIff(m.regs[c.reg].value, c.types);
    if c.given.Some? { OfTypesIff(m.regs[c.given.value.reg].value, c.given.value.types); }
  }

  lemma MarkedMeets(m: MachineVal, c: TypeConstraint, s: State)
    requires Readable(m, c) && Marked(m, c) && PremiseDecided(m, c) && DescribesState(m, s)
    ensures Meets(s, c)
  {
    var d := m.regs[c.reg].value;
    OfTypesIff(d, c.types);
    if c.given.Some? {
      TypeVerdictIff(d, c.types, m.regs[c.given.value.reg].value, c.given.value.types);
    }
  }

  /* ----- linear constraints ----- */

  /** The offset of the register, given that it is of the types, compares with the bound v - width - offset. */
  datatype LinearConstraint = LinearConstraint(op: CondOp, reg: Reg, offset: Int32, width: Operand, v: Operand, types: set<Tag>)

  predicate LinearReadable(m: MachineVal, c: LinearConstraint) {
    HasRegs(m) && m.regs[c.reg].Some? && Eval(m, c.v).Some? && Eval(m, c.width).Some?
  }

  /** What the register is compared with. */
  function Bound(m: MachineVal, c: LinearConstraint): Rcp
    requires LinearReadable(m, c)
  {
    BoundOf(m.regs[c.reg].value, Eval(m, c.v).value, Eval(m, c.width).value, c.offset)
  }

  predicate LinearMarked(m: MachineVal, c: LinearConstraint)
    requires LinearReadable(m, c)
  {
    LinearSatisfied(m.regs[c.reg].value, Eval(m, c.v).value, Eval(m, c.width).value, Comparison(c.op, c.offset, c.types))
  }

  /** The register is of the types and the bound, wherever the register holds anything, is one value. */
  ghost predicate OneBound(m: MachineVal, c: LinearConstraint)
    requires LinearReadable(m, c)
  {
    && FdTag !in c.types && (IsOrderOrEq(c.op) || c.op.NE?) && IsOfType(m.regs[c.reg].value, c.types)
    && OneBoundEach(m.regs[c.reg].value, Bound(m, c), c.types)
  }

  /* ----- what a linear constraint means ----- */

  /**
    On the words of a state: the register's word has one of the types, and
    where v and width are numbers it compares with v - width - offset, cut.
   */
  ghost predicate LinearMet(c: LinearConstraint, s: State) {
    |s.regs| == NREGS && exists t :: t in c.types && LinearMetAt(c, t, s)
  }

  ghost predicate LinearMetAt(c: LinearConstraint, t: Tag, s: State)
    requires |s.regs| == NREGS
  {
    && TagOf(s.regs[c.reg]) == Some(t) && !t.FdTag?
    && forall a, b, k :: ValueOf(s, c.v) == Num(a) && ValueOf(s, c.width) == Num(b) && k == a - b - c.offset ==>
         WordHolds(c.op, s.regs[c.reg], WordOf(t, Cut(t, k)))
  }

  lemma RegisterDescribed(m: MachineVal, s: State, r: Reg)
    requires DescribesState(m, s) && m.regs[r].Some?
    ensures Contains(m.regs[r].value, s.regs[r])
  {}

  lemma OperandDescribed(m: MachineVal, s: State, v: Operand)
    requires DescribesState(m, s) && Eval(m, v).Some?
    ensures Contains(Eval(m, v).value, ValueOf(s, v))
  {}

  lemma SaneRegister(m: MachineVal, r: Reg)
    requires Sane(m) && m.regs[r].Some?
    ensures Ordered(m.regs[r].value)
  {}

  lemma MeetsFrom(m: MachineVal, c: LinearConstraint, t: Tag, s: State)
    requires LinearReadable(m, c) && DescribesState(m, s) && TagOf(s.regs[c.reg]) == Some(t) && !t.FdTag?
    requires ComparesWithAll(c.op, s.regs[c.reg], t, Eval(m, c.v).value, Eval(m, c.width).value, c.offset)
    ensures LinearMetAt(c, t, s)
  {
    OperandDescribed(m, s, c.v);
    OperandDescribed(m, s, c.width);
  }

  lemma RegisterCompares(m: MachineVal, c: LinearConstraint, v: Word) returns (t: Tag)
    requires LinearReadable(m, c) && LinearMarked(m, c) && OneBound(m, c)
    requires Ordered(m.regs[c.reg].value) && Contains(m.regs[c.reg].value, v)
    ensures TagOf(v) == Some(t) && t in c.types && !t.FdTag?
    ensures ComparesWithAll(c.op, v, t, Eval(m, c.v).value, Eval(m, c.width).value, c.offset)
  {
    var d, x, y := m.regs[c.reg].value, Eval(m, c.v).value, Eval(m, c.width).value;
    OneSatisfied(m, c);
    t := LinearWordTyped(d, c.op, x, y, c.offset, c.types, v);
    LinearWords(d, c.op, x, y, c.offset, c.types, v, t);
  }

  /** A satisfied verdict against one bound in each type: every described state meets the constraint. */
  lemma LinearMarkedMeets(m: MachineVal, c: LinearConstraint, s: State)
    requires LinearReadable(m, c) && LinearMarked(m, c) && OneBound(m, c) && Sane(m) && DescribesState(m, s)
    ensures LinearMet(c, s)
  {
    RegisterDescribed(m, s, c.reg);
    SaneRegister(m, c.reg);
    var t := RegisterCompares(m, c, s.regs[c.reg]);
    MeetsFrom(m, c, t, s);
  }

  lemma OneSatisfied(m: MachineVal, c: LinearConstraint)
    requires LinearReadable(m, c) && LinearMarked(m, c) && OneBound(m, c)
    ensures SatisfiedOnce(m.regs[c.reg].value, c.op, Bound(m, c), c.types)
  {}

  /**
    With constants, the constraint is marked exactly when, in every type of
    which the register holds anything, all of it is known and compares with
    v - width - offset, cut, and that is no offset past the limit.
   */
  lemma ConstantMarkedIff(m: MachineVal, c: LinearConstraint, a: U64, b: U64, k: int)
    requires LinearReadable(m, c) && c.v == Imm(a) && c.width == Imm(b) && k == a - b - c.offset
    requires FdTag !in c.types && (IsOrderOrEq(c.op) || c.op.NE?)
    requires IsOfType(m.regs[c.reg].value, c.types) && Ordered(m.regs[c.reg].value)
    ensures LinearMarked(m, c) <==> EachCompares(c.op, m.regs[c.reg].value, c.types, k)
  {
    VerdictWith(m.regs[c.reg].value, Eval(m, c.v).value, Eval(m, c.width).value, Comparison(c.op, c.offset, c.types), a, b, k);
  }

  /** In general it is marked exactly when the register is of other types, or the bound is of the types and, type by type, every word passes. */
  lemma LinearMarkedIff(m: MachineVal, c: LinearConstraint)
    requires LinearReadable(m, c) && Sane(m) && FdTag !in c.types && (IsOrderOrEq(c.op) || c.op.NE?)
    ensures LinearMarked(m, c) <==>
            var d, e := m.regs[c.reg].value, Bound(m, c);
            !IsOfType(d, c.types) || (IsOfType(e, c.types) && forall t :: t in c.types && IsKnownTag(t) ==> TagPasses(d, c.op, e, t))
  {
    var d := m.regs[c.reg].value;
    SaneRegister(m, c.reg);
    AddOrdered(Zero(d), Difference(Eval(m, c.v).value, Eval(m, c.width).value, c.offset));
    SatisfiedIff(d, c.op, Bound(m, c), c.types);
  }
}
