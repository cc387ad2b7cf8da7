/**
  What the steps on concrete states do: which there are, that they assign only
  what the instruction names, and how stores and loads fit together.
 */
module Steps {
  import opened Syntax
  import opened Rcp
  import opened ByteMemory
  import opened Machine
  import opened Reading
  import S = SetDomains

  /** Registers that are not assigned keep their words; memory changes only by a store. */
  lemma StepKeeps(ins: Instruction, s: State, t: State)
    requires ConcreteStep(ins, s, t)
    ensures forall i :: 0 <= i < 16 && i !in Written(ins) ==> t.regs[i] == s.regs[i]
    ensures !(ins.Mem? && !ins.isLoad) ==> t.mem == s.mem && t.heap == s.heap
  {}

  /** But for packet loads there is at most one step. */
  lemma StepDetermined(ins: Instruction, s: State, t: State, t': State)
    requires ConcreteStep(ins, s, t) && ConcreteStep(ins, s, t') && !ins.PacketLoad?
    ensures t == t'
  {}

  /** From two numbers arithmetic always has a step, which assigns what the instruction means. */
  lemma NumbersStep(op: BinOp, is64: bool, dst: Reg, v: Operand, s: State, a: int, b: int) returns (t: State)
    requires |s.regs| == 16 && s.regs[dst] == Num(a) && ValueOf(s, v) == Num(b)
    ensures ConcreteStep(Bin(op, is64, dst, v), s, t)
    ensures t.regs[dst] == Num(if !op.MOV? then S.Meant(op, is64, a, b) else if is64 then b else b % 0x1_0000_0000)
  {
    t := SetReg(s, dst, Num(if !op.MOV? then S.Meant(op, is64, a, b) else if is64 then b else S.Low(b)));
  }

  /** The arithmetic of pointers: moved by a number either way round, and the distance of two pointers to one region. */
  lemma PointersStep(dst: Reg, src: Reg, s: State, r: Region, o: int, n: U64, o': int)
    requires |s.regs| == 16 && s.regs[dst] == Ptr(r, o) && dst != src
    ensures s.regs[src] == Num(n) ==> ConcreteStep(Bin(ADD, true, dst, RegOp(src)), s, SetReg(s, dst, Ptr(r, o + ToSigned(n))))
    ensures s.regs[src] == Num(n) ==> ConcreteStep(Bin(SUB, true, dst, RegOp(src)), s, SetReg(s, dst, Ptr(r, o - ToSigned(n))))
    ensures s.regs[src] == Num(n) ==> ConcreteStep(Bin(ADD, true, src, RegOp(dst)), s, SetReg(s, src, Ptr(r, o + ToSigned(n))))
    ensures s.regs[src] == Ptr(r, o') ==> ConcreteStep(Bin(SUB, true, dst, RegOp(src)), s, SetReg(s, dst, Num(ToU64(o - o'))))
  {}

  /**
    A condition compares numbers as words and pointers to one region by their
    offsets; of words of different kinds only NE holds.
   */
  lemma ConditionMeans(op: CondOp, v: Word, u: Word)
    ensures v.Num? && u.Num? && 0 <= v.n < TWO64 && 0 <= u.n < TWO64 ==> (WordHolds(op, v, u) <==> EvalOp(op, v.n, u.n))
    ensures v.Ptr? && u.Ptr? && v.region == u.region && !op.SET? && !op.NSET? ==> (WordHolds(op, v, u) <==> Compare(op, v.offset, u.offset))
    ensures v.MapFd? && u.MapFd? ==> (WordHolds(op, v, u) <==> (op.EQ? && v.fd == u.fd) || (op.NE? && v.fd != u.fd))
    ensures TagOf(v) != TagOf(u) ==> (WordHolds(op, v, u) <==> op.NE?)
  {}

  /** Through a stack pointer any word that fits can be stored; a load of the same bytes then gives it back. */
  lemma StoreThenLoadSteps(access: Deref, value: Operand, dst: Reg, s: State, o: int) returns (t: State, u: State)
    requires |s.regs| == 16 && s.regs[access.basereg] == Ptr(StackMem, o) && access.width > 0
    requires Fits(ValueOf(s, value), access.width)
    ensures ConcreteStep(Mem(access, value, false), s, t) && t.regs == s.regs
    ensures ConcreteStep(Mem(access, RegOp(dst), true), t, u)
    ensures u.regs[dst] == ValueOf(s, value)
  {
    var v := ValueOf(s, value);
    var p := AddressOf(s, access).value;
    t := StoreTo(s, p, access.width, v);
    ReadBack(s.mem, p.offset, access.width, v);
    StoredFits(v, access.width);
    u := SetReg(t, dst, Read(t.mem, p.offset, access.width));
  }

  /** The same in a map value or a packet, for numbers. */
  lemma HeapThenLoadSteps(access: Deref, value: Operand, dst: Reg, s: State, r: Region, o: int, n: int) returns (t: State, u: State)
    requires |s.regs| == 16 && s.regs[access.basereg] == Ptr(r, o) && !r.StackMem? && access.width > 0
    requires ValueOf(s, value) == Num(n) && 0 <= n < Pow256(access.width)
    ensures ConcreteStep(Mem(access, value, false), s, t) && t.regs == s.regs && t.mem == s.mem
    ensures ConcreteStep(Mem(access, RegOp(dst), true), t, u)
    ensures u.regs[dst] == Num(n)
  {
    var v := Num(n);
    var p := AddressOf(s, access).value;
    t := StoreTo(s, p, access.width, v);
    ReadBack(s.heap(r), p.offset, access.width, v);
    StoredFits(v, access.width);
    assert MemoryOf(t, r) == Write(s.heap(r), p.offset, access.width, v);
    u := SetReg(t, dst, Read(MemoryOf(t, r), p.offset, access.width));
  }

  /** Bytes beside the stored range, and those of other regions, are what they were. */
  lemma StoreKeepsBytes(access: Deref, value: Operand, s: State, t: State, r: Region, k: int)
    requires ConcreteStep(Mem(access, value, false), s, t)
    requires AddressOf(s, access).value.region != r || !(AddressOf(s, access).value.offset <= k < AddressOf(s, access).value.offset + access.width)
    ensures MemoryOf(t, r)(k) == MemoryOf(s, r)(k)
  {}
}
