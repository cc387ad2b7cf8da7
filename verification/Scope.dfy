/**
  What it takes for an instruction to be in scope on a machine, told from the
  words that its operands describe.
 */
module Scope {
  import opened Syntax
  import opened Rcp
  import opened Machine
  import S = SetDomains
  import A = ArithmeticMeaning

  /* ----- loads ----- */

  lemma MovedEmpty(x: S.IntSet, n: S.IntSet)
    requires x.IsBot() || n.IsBot()
    ensures S.OffsetExec(true, x, n) == S.BOT
  {}

  /** An address may lie in the context exactly when its base may. */
  lemma AddressInContext(d: Rcp, offset: Int32)
    ensures Address(d, offset).ctx.IsBot() <==> forall o :: !Contains(d, Ptr(CtxMem, o))
  {
    var n := Number(ToU64(offset));
    MovedEmpty(n.ctx, d.num);
    S.JoinBot(S.OffsetExec(true, n.ctx, d.num), S.OffsetExec(true, d.ctx, n.num));
    if d.ctx.IsBot() {
      MovedEmpty(d.ctx, n.num);
    } else {
      var o := SetWitness(d.ctx);
      assert Contains(d, Ptr(CtxMem, o));
      S.OffsetExecSound(true, d.ctx, n.num, o, ToU64(offset));
    }
  }

  /** Loads of a legal width into a register whose base describes no pointer to the context. */
  lemma LoadInScopeIff(access: Deref, value: Operand, m: MachineVal)
    requires HasRegs(m)
    ensures InScope(Mem(access, value, true), m) <==>
      && access.width in {1, 2, 4, 8} && value.RegOp?
      && (m.regs[access.basereg].Some? ==> forall o :: !Contains(m.regs[access.basereg].value, Ptr(CtxMem, o)))
  {
    if m.regs[access.basereg].Some? { AddressInContext(m.regs[access.basereg].value, access.offset); }
  }

  /** Every store of a legal width. */
  lemma StoreInScopeIff(access: Deref, value: Operand, m: MachineVal)
    requires HasRegs(m)
    ensures InScope(Mem(access, value, false), m) <==> access.width in {1, 2, 4, 8}
  {}

  /* ----- arithmetic ----- */

  /** No known number is divided by 0 or shifted by 64 or more. */
  ghost predicate NumbersDefined(op: BinOp, d: Rcp, e: Rcp) {
    d.num.top || e.num.top || forall k, n :: Contains(d, Num(k)) && Contains(e, Num(n)) ==>
      (op.DIV? || op.MOD? ==> n != 0) && (op.LSH? || op.RSH? || op.ARSH? ==> 0 <= n < 64)
  }

  lemma ComputesIff(op: BinOp, d: Rcp, e: Rcp)
    requires !op.MOV?
    ensures S.Computes(op, d.num, e.num) <==> NumbersDefined(op, d, e)
  {
    if !d.num.top && !e.num.top && d.num.elems != [] {
      assert Contains(d, Num(d.num.elems[0]));
      forall n
        ensures n in e.num.elems <==> Contains(e, Num(n))
      {}
    }
  }

  lemma OrderedIff(d: Rcp, e: Rcp)
    ensures AllOrdered(d, e) <==> forall r | IsRegion(r) :: Differences(d, e, r).Ordered()
  {
    forall r | IsRegion(r)
      ensures r in Regions
    {
      AllRegions(r);
    }
  }

  /**
    Arithmetic on operands, both initialised, that C++ defines it for, whose
    result describes what the instruction computes from any two described
    words, and whose pointer differences are in order.
   */
  lemma ArithmeticInScopeIff(op: BinOp, is64: bool, dst: Reg, v: Operand, m: MachineVal)
    requires HasRegs(m) && !op.MOV?
    ensures InScope(Bin(op, is64, dst, v), m) <==> (m.regs[dst].Some? && Eval(m, v).Some? ==>
      var d, e := m.regs[dst].value, Eval(m, v).value;
      && NumbersDefined(op, d, e) && S.Computes(op, d.num, e.num) && A.Describes(op, is64, d, e)
      && (op.SUB? ==> forall r | IsRegion(r) :: Differences(d, e, r).Ordered()))
  {
    if m.regs[dst].Some? && Eval(m, v).Some? {
      var d, e := m.regs[dst].value, Eval(m, v).value;
      ComputesIff(op, d, e);
      if S.Computes(op, d.num, e.num) { A.DescribesIffCovered(op, is64, d, e); }
      OrderedIff(d, e);
    }
  }

  /** 64-bit moves, and 32-bit ones of numbers that are closed under cutting. */
  lemma MoveInScopeIff(is64: bool, dst: Reg, v: Operand, m: MachineVal)
    requires HasRegs(m)
    ensures InScope(Bin(MOV, is64, dst, v), m) <==>
      (!is64 && Eval(m, v).Some? ==> forall n :: Contains(Eval(m, v).value, Num(n)) ==> Contains(Eval(m, v).value, Num(n % 0x1_0000_0000)))
  {
    if Eval(m, v).Some? {
      var e := Eval(m, v).value;
      S.MoveCoversIff(e.num);
      forall n
        ensures e.num.Has(S.Low(n)) <==> Contains(e, Num(n % 0x1_0000_0000))
      {}
    }
  }

  /* ----- conditions ----- */

  /** A number that is not in the vector. */
  lemma Missing(s: seq<int>) returns (x: int)
    ensures forall e :: e in s ==> e < x
  {
    if s == [] {
      x := 0;
    } else {
      var y := Missing(s[1..]);
      x := if s[0] < y then y else s[0] + 1;
      assert s == [s[0]] + s[1..];
    }
  }

  /** e describes a pointer to some region, but not all of them. */
  ghost predicate KnowsPointer(e: Rcp) {
    exists r, o, o' :: IsRegion(r) && Contains(e, Ptr(r, o)) && !Contains(e, Ptr(r, o'))
  }

  /** The signed comparisons abort exactly on a right operand that knows a pointer. */
  lemma AbortsIff(e: Rcp)
    ensures AbortsOnPointers(e) <==> KnowsPointer(e)
  {
    if AbortsOnPointers(e) {
      var r :| r in Regions && IsRegion(r) && !Offsets(e, r).top && Offsets(e, r).elems != [];
      var x := Missing(Offsets(e, r).elems);
      assert Contains(e, Ptr(r, Offsets(e, r).elems[0])) && !Contains(e, Ptr(r, x));
    }
    if r, o, o' :| IsRegion(r) && Contains(e, Ptr(r, o)) && !Contains(e, Ptr(r, o')) {
      AllRegions(r);
    }
  }

  /** Conditions on initialised operands that lose no word that satisfies them and do not abort. */
  lemma AssumeInScopeIff(c: Condition, m: MachineVal)
    requires Sane(m)
    ensures InScope(AssumeIns(c), m) <==> (m.regs[c.left].Some? && Eval(m, c.right).Some? ==>
      var d, e := m.regs[c.left].value, Eval(m, c.right).value;
      (c.op.NE? ==> NeLossless(d, e)) && (c.op in {SLT, SLE, SGT, SGE} ==> !KnowsPointer(e)))
  {
    if m.regs[c.left].Some? && Eval(m, c.right).Some? {
      var d, e := m.regs[c.left].value, Eval(m, c.right).value;
      assert Ordered(e);
      NotEqualLosslessIff(d, e);
      AbortsIff(e);
    }
  }

  /* ----- the rest ----- */

  /** Of the other instructions Exit, jumps and packet loads always are, and loads of an existing map's descriptor. */
  lemma OthersInScopeIff(ins: Instruction, m: MachineVal)
    requires HasRegs(m) && !ins.Bin? && !ins.Mem? && !ins.AssumeIns?
    ensures InScope(ins, m) <==> ins.Exit? || ins.Jmp? || ins.PacketLoad? || (ins.LoadMapFd? && ins.mapfd < 64)
  {}
}
