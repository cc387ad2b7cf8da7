/**
  Which registers an instruction reads, told from its steps on concrete states
  alone, and that the abstract machine refuses an instruction exactly when one
  of these is uninitialised.
 */
module Reading {
  import opened Syntax
  import opened Rcp
  import opened ByteMemory
  import opened Machine

  /** The registers that an instruction assigns. */
  function Written(ins: Instruction): set<int> {
    match ins
    case Bin(_, _, dst, _) => {dst}
    case LoadMapFd(dst, _) => {dst}
    case Mem(_, value, isLoad) => if isLoad && value.RegOp? then {value.r} else {}
    case PacketLoad(_, _, _) => {0, 1, 2, 3, 4, 5}
    case _ => {}
  }

  /** The two steps end in the same state, but for register r if it is not assigned. */
  ghost predicate EndAlike(ins: Instruction, r: Reg, t: State, t': State) {
    && |t.regs| == |t'.regs| && t.mem == t'.mem && t.heap == t'.heap
    && forall i :: 0 <= i < |t.regs| && (i != r || r in Written(ins)) ==> t.regs[i] == t'.regs[i]
  }

  /** With w in register r there is a step that ends as the one to t. */
  ghost predicate StepsAlike(ins: Instruction, r: Reg, s: State, w: Word, t: State)
    requires |s.regs| == NREGS
  {
    exists t' :: ConcreteStep(ins, SetReg(s, r, w), t') && EndAlike(ins, r, t, t')
  }

  /** From some state there is a step that another word in r makes impossible or makes end differently. */
  ghost predicate Reads(ins: Instruction, r: Reg) {
    exists s, w, t :: ConcreteStep(ins, s, t) && !StepsAlike(ins, r, s, w, t)
  }

  ghost predicate CanStep(ins: Instruction) {
    exists s, t :: ConcreteStep(ins, s, t)
  }

  /** The condition r == r, which holds whatever r is. */
  predicate ComparesWithItself(ins: Instruction) {
    ins.AssumeIns? && ins.assumed.op.EQ? && ins.assumed.right == RegOp(ins.assumed.left)
  }

  /* ----- registers that are not read ----- */

  predicate Names(ins: Instruction, r: Reg) {
    match ins
    case Bin(op, _, dst, v) => v == RegOp(r) || (!op.MOV? && r == dst)
    case Mem(access, value, isLoad) => r == access.basereg || (!isLoad && value == RegOp(r))
    case AssumeIns(c) => r == c.left || c.right == RegOp(r)
    case _ => false
  }

  lemma OtherwiseAlike(ins: Instruction, r: Reg, s: State, w: Word, t: State)
    requires ConcreteStep(ins, s, t) && !Names(ins, r)
    ensures StepsAlike(ins, r, s, w, t)
  {
    var s' := SetReg(s, r, w);
    var t' := if r in Written(ins) then t else State(t.regs[r := w], t.mem, t.heap);
    assert ConcreteStep(ins, s', t');
    assert EndAlike(ins, r, t, t');
  }

  lemma NotReadUnlessNamed(ins: Instruction, r: Reg)
    requires Reads(ins, r)
    ensures Names(ins, r)
  {
    if !Names(ins, r) {
      var s, w, t :| ConcreteStep(ins, s, t) && !StepsAlike(ins, r, s, w, t);
      OtherwiseAlike(ins, r, s, w, t);
    }
  }

  /* ----- registers that are read ----- */

  /** With w in r there is no step, or the assigned register d ends differently. */
  lemma ReadsBy(ins: Instruction, r: Reg, s: State, w: Word, t: State)
    requires ConcreteStep(ins, s, t)
    requires forall t' :: ConcreteStep(ins, SetReg(s, r, w), t') ==> exists d :: d in Written(ins) && 0 <= d < NREGS && t.regs[d] != t'.regs[d]
    ensures Reads(ins, r)
  {
    assert !StepsAlike(ins, r, s, w, t);
  }

  lemma MoveReads(ins: Instruction, r: Reg)
    requires ins.Bin? && ins.op.MOV? && CanStep(ins) && Names(ins, r)
    ensures Reads(ins, r)
  {
    var s, t :| ConcreteStep(ins, s, t);
    if ins.is64 {
      var w := if s.regs[r] == Junk then Num(0) else Junk;
      forall t' | ConcreteStep(ins, SetReg(s, r, w), t')
        ensures ins.dst in Written(ins) && t.regs[ins.dst] != t'.regs[ins.dst]
      {}
      ReadsBy(ins, r, s, w, t);
    } else {
      ReadsBy(ins, r, s, Junk, t);
    }
  }

  lemma ArithmeticReads(ins: Instruction, r: Reg)
    requires ins.Bin? && !ins.op.MOV? && CanStep(ins) && Names(ins, r)
    ensures Reads(ins, r)
  {
    var s, t :| ConcreteStep(ins, s, t);
    ReadsBy(ins, r, s, Junk, t);
  }

  lemma AccessReads(ins: Instruction, r: Reg)
    requires ins.Mem? && CanStep(ins) && Names(ins, r)
    ensures Reads(ins, r)
  {
    var s, t :| ConcreteStep(ins, s, t);
    if r == ins.access.basereg {
      ReadsBy(ins, r, s, Junk, t);
    } else {
      StoreReads(ins, r);
    }
  }

  /** Outside the stack only numbers are stored. */
  lemma StoreReads(ins: Instruction, r: Reg)
    requires ins.Mem? && !ins.isLoad && ins.value == RegOp(r) && r != ins.access.basereg
    ensures Reads(ins, r)
  {
    var s := State(seq(NREGS, i => if i == r then Num(0) else Ptr(PacketMem, 0)), k => Opaque, q => k => Opaque);
    var p := AddressOf(s, ins.access).value;
    ReadsBy(ins, r, s, Junk, StoreTo(s, p, ins.access.width, Num(0)));
  }

  lemma AssumeReads(ins: Instruction, r: Reg)
    requires ins.AssumeIns? && CanStep(ins) && !ComparesWithItself(ins) && Names(ins, r)
    ensures Reads(ins, r)
  {
    var s, t :| ConcreteStep(ins, s, t);
    var c := ins.assumed;
    match c.op {
      case EQ => ReadsBy(ins, r, s, if s.regs[r] == Junk then Num(0) else Junk, t);
      case NE => ReadsBy(ins, r, s, if r == c.left then ValueOf(s, c.right) else s.regs[c.left], t);
      case _ => ReadsBy(ins, r, s, Junk, t);
    }
  }

  lemma NamedIsRead(ins: Instruction, r: Reg)
    requires CanStep(ins) && !ComparesWithItself(ins) && Names(ins, r)
    ensures Reads(ins, r)
  {
    match ins {
      case Bin(op, _, _, _) => if op.MOV? { MoveReads(ins, r); } else { ArithmeticReads(ins, r); }
      case Mem(_, _, _) => AccessReads(ins, r);
      case AssumeIns(_) => AssumeReads(ins, r);
    }
  }

  /* ----- throwing ----- */

  lemma ThrowsIffNamed(ins: Instruction, m: MachineVal)
    requires HasRegs(m)
    ensures Throws(ins, m) <==> exists r: Reg :: Names(ins, r) && m.regs[r].None?
  {
    match ins {
      case Bin(op, _, dst, v) =>
        assert v.RegOp? ==> Names(ins, v.r);
        assert !op.MOV? ==> Names(ins, dst);
      case Mem(access, value, isLoad) =>
        assert Names(ins, access.basereg);
        assert !isLoad && value.RegOp? ==> Names(ins, value.r);
      case AssumeIns(c) =>
        assert Names(ins, c.left);
        assert c.right.RegOp? ==> Names(ins, c.right.r);
      case _ =>
    }
  }

  /** An instruction is refused exactly when it reads a register that is uninitialised. */
  lemma ThrowsIffUninitialisedRead(ins: Instruction, m: MachineVal)
    requires HasRegs(m) && CanStep(ins) && !ComparesWithItself(ins)
    ensures Throws(ins, m) <==> exists r: Reg :: Reads(ins, r) && m.regs[r].None?
  {
    ThrowsIffNamed(ins, m);
    forall r: Reg
      ensures Reads(ins, r) <==> Names(ins, r)
    {
      if Reads(ins, r) { NotReadUnlessNamed(ins, r); }
      if Names(ins, r) { NamedIsRead(ins, r); }
    }
  }

  /** The code looks the register up although the condition does not depend on it. */
  lemma SelfComparisonThrows(r: Reg, m: MachineVal)
    requires HasRegs(m)
    ensures Throws(AssumeIns(Condition(EQ, r, RegOp(r))), m) <==> m.regs[r].None?
    ensures !Reads(AssumeIns(Condition(EQ, r, RegOp(r))), r)
  {
    var ins := AssumeIns(Condition(EQ, r, RegOp(r)));
    forall s, w, t | ConcreteStep(ins, s, t)
      ensures StepsAlike(ins, r, s, w, t)
    {
      var t' := SetReg(s, r, w);
      assert ConcreteStep(ins, SetReg(s, r, w), t') && EndAlike(ins, r, t, t');
    }
  }
}
