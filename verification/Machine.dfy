/**
  The abstract machine (registers and stack), the effect of each instruction
  on it, and the same instructions on concrete states. The modelled fragment
  is arithmetic, map descriptor loads, memory loads that do not touch the
  context, stores, packet access and Assume.
 */
module Machine {
  import opened Syntax
  import opened Rcp
  import opened ByteMemory
  import opened Cells
  import opened LoadScan
  import opened MemDom
  import opened MemTheory
  import S = SetDomains
  import A = ArithmeticMeaning

  const NREGS: int := 16
  const STACK_SIZE: int := 512

  datatype MachineVal = MachineVal(regs: seq<Option<Rcp>>, stack: MemVal)

  /** A register that holds no value is uninitialised: reading it throws. */
  predicate HasRegs(m: MachineVal) {
    |m.regs| == NREGS
  }

  ghost predicate CellsOrdered(cells: seq<Cell>) {
    forall c :: c in cells ==> Ordered(c.dom)
  }

  /** What every operation keeps: the shape of the stack cells and increasing value vectors. */
  ghost predicate Sane(m: MachineVal) {
    && HasRegs(m)
    && WellFormed(m.stack) && CellsOrdered(m.stack.cells)
    && forall i :: 0 <= i < NREGS && m.regs[i].Some? ==> Ordered(m.regs[i].value)
  }

  /** The machine before any block is reached: empty registers and a bottom stack. */
  function Unreached(): (m: MachineVal)
    ensures HasRegs(m)
  {
    MachineVal(seq(NREGS, i => Some(Bot)), MemVal(true, []))
  }

  function EntryReg(i: int): Option<Rcp> {
    if i == 1 then Some(RcpData(Uniform(S.BOT), S.Single(0), S.BOT, S.BOT, S.BOT, {}))
    else if i == 10 then Some(StackPointer(STACK_SIZE))
    else if i == 13 || i == 14 then Some(NumTop)
    else None
  }

  /** Machine::init: the context in r1, the end of the stack in r10, numbers in r13 and r14. */
  function Entry(): (m: MachineVal)
    ensures HasRegs(m)
  {
    MachineVal(seq(NREGS, i => EntryReg(i)), MemVal(false, []))
  }

  /* ----- join ----- */

  function JoinReg(x: Option<Rcp>, y: Option<Rcp>): Option<Rcp> {
    if x.None? || y.None? then None else Some(Join(x.value, y.value))
  }

  ghost predicate MachineJoinOf(a: MachineVal, b: MachineVal, r: MachineVal) {
    && HasRegs(a) && HasRegs(b) && HasRegs(r)
    && (forall i :: 0 <= i < NREGS ==> r.regs[i] == JoinReg(a.regs[i], b.regs[i]))
    && JoinOf(a.stack, b.stack, r.stack)
  }

  /* ----- transfer ----- */

  function Eval(m: MachineVal, v: Operand): Option<Rcp>
    requires HasRegs(m)
  {
    match v
    case Imm(k) => Some(Number(k))
    case RegOp(r) => m.regs[r]
  }

  function Assign(m: MachineVal, r: Reg, v: Rcp): MachineVal
    requires HasRegs(m)
  {
    MachineVal(m.regs[r := Some(v)], m.stack)
  }

  /** regs.at(basereg) + eval(offset) */
  function Address(d: Rcp, offset: Int32): Rcp {
    Add(d, Number(ToU64(offset)))
  }

  predicate MaybeMapOrPacket(d: Rcp) {
    !d.packet.IsBot() || exists i | 0 <= i < NMAPS :: !d.maps[i].IsBot()
  }

  ghost function StackPart(m: MachineVal, addr: Rcp, w: int): Rcp
    requires w > 0
  {
    if addr.stack.IsBot() then Bot else Join(Bot, Loaded(m.stack.cells, addr.stack, w))
  }

  function OtherPart(addr: Rcp): Rcp {
    if MaybeMapOrPacket(addr) then NumTop else Bot
  }

  /** load_stack | load_ctx | load_other, for an address outside the context. */
  ghost function LoadValue(m: MachineVal, addr: Rcp, w: int): Rcp
    requires w > 0
  {
    Join(Join(StackPart(m, addr, w), Bot), OtherPart(addr))
  }

  predicate OnlyStack(addr: Rcp) {
    && (forall i | 0 <= i < NMAPS :: addr.maps[i].IsBot())
    && addr.ctx.IsBot() && addr.packet.IsBot() && addr.num.IsBot() && addr.fds == {}
  }

  /** A store through an address that may leave the stack forgets the stack. */
  ghost predicate StoredAt(m: MachineVal, addr: Rcp, w: int, v: Rcp, r: MachineVal) {
    && r.regs == m.regs
    && if addr.stack.IsBot() then r.stack == m.stack
       else if OnlyStack(addr) then StoreOf(m.stack, addr.stack, w, v, r.stack)
       else StoreOf(m.stack, S.TOP, w, v, r.stack)
  }

  predicate AllOrdered(d: Rcp, e: Rcp) {
    forall r | r in Regions :: IsRegion(r) && Differences(d, e, r).Ordered()
  }

  predicate AbortsOnPointers(e: Rcp) {
    exists r | r in Regions :: IsRegion(r) && !Offsets(e, r).top && Offsets(e, r).elems != []
  }

  predicate IsWidth(w: int) {
    w == 1 || w == 2 || w == 4 || w == 8
  }

  /**
    Arithmetic on operands that C++ defines it for, whose result misses no
    meaning: the width is ignored by the code, the right shifts of negative
    words are exchanged, and pointers are moved by 32-bit displacements. Besides,
    differences of both signs leave a vector out of order.
   */
  predicate ArithmeticInScope(op: BinOp, is64: bool, d: Rcp, e: Rcp) {
    S.Computes(op, d.num, e.num) && A.Covered(op, is64, d, e) && (op.SUB? ==> AllOrdered(d, e))
  }

  /** No word that satisfies the condition is lost, and no comparison is reached that the code aborts on. */
  predicate AssumeInScope(op: CondOp, d: Rcp, e: Rcp) {
    && (op.NE? ==> OneWord(e) || !Shares(d, e))
    && (IsSigned(op) ==> !AbortsOnPointers(e))
  }

  /** The instructions, and the operands they are applied to, that the soundness theorem speaks about. */
  predicate InScope(ins: Instruction, m: MachineVal)
    requires HasRegs(m)
  {
    match ins
    case Bin(op, is64, dst, v) =>
      if op.MOV? then Eval(m, v).Some? ==> is64 || S.LowClosed(Eval(m, v).value.num)
      else m.regs[dst].Some? && Eval(m, v).Some? ==> ArithmeticInScope(op, is64, m.regs[dst].value, Eval(m, v).value)
    case LoadMapFd(dst, fd) => fd < NMAPS
    case Mem(access, value, isLoad) =>
      IsWidth(access.width) && (isLoad ==> value.RegOp?) &&
      (isLoad && m.regs[access.basereg].Some? ==> Address(m.regs[access.basereg].value, access.offset).ctx.IsBot())
    case AssumeIns(c) =>
      m.regs[c.left].Some? && Eval(m, c.right).Some? ==> AssumeInScope(c.op, m.regs[c.left].value, Eval(m, c.right).value)
    case Exit => true
    case Jmp(_, _) => true
    case PacketLoad(_, _, _) => true
    case _ => false
  }

  /** Whether an uninitialised register is read. */
  predicate Throws(ins: Instruction, m: MachineVal)
    requires HasRegs(m)
  {
    match ins
    case Bin(op, is64, dst, v) => Eval(m, v).None? || (!op.MOV? && m.regs[dst].None?)
    case Mem(access, value, isLoad) => m.regs[access.basereg].None? || (!isLoad && Eval(m, value).None?)
    case AssumeIns(c) => m.regs[c.left].None? || Eval(m, c.right).None?
    case _ => false
  }

  /** A number in r0, and r1 to r5 uninitialised. */
  function AfterCall(m: MachineVal): MachineVal
    requires HasRegs(m)
  {
    MachineVal(seq(NREGS, i requires 0 <= i < NREGS => if i == 0 then Some(NumTop) else if i <= 5 then None else m.regs[i]), m.stack)
  }

  /** The effect of an instruction in scope that does not throw. */
  ghost predicate TransferOf(ins: Instruction, m: MachineVal, r: MachineVal)
    requires HasRegs(m) && InScope(ins, m) && !Throws(ins, m)
  {
    match ins
    case Bin(op, _, dst, v) =>
      var e := Eval(m, v).value;
      r == Assign(m, dst, if op.MOV? then e else A.Arithmetic(op, m.regs[dst].value, e))
    case LoadMapFd(dst, fd) => r == Assign(m, dst, RcpData(Uniform(S.BOT), S.BOT, S.BOT, S.BOT, S.BOT, {fd}))
    case Mem(access, value, isLoad) =>
      var addr := Address(m.regs[access.basereg].value, access.offset);
      if isLoad then r == Assign(m, value.r, LoadValue(m, addr, access.width))
      else StoredAt(m, addr, access.width, Eval(m, value).value, r)
    case AssumeIns(c) =>
      r == Assign(m, c.left, Restrict(m.regs[c.left].value, c.op, Eval(m, c.right).value, TypesFor(c.op)))
    case PacketLoad(_, _, _) => r == AfterCall(m)
    case _ => r == m
  }

  /* ----- concrete states ----- */

  /** Registers, the stack, and the memory of every other region. */
  datatype State = State(regs: seq<Word>, mem: Memory, heap: Region -> Memory)

  function ValueOf(s: State, v: Operand): Word
    requires |s.regs| == NREGS
  {
    match v
    case Imm(k) => Num(k)
    case RegOp(r) => s.regs[r]
  }

  function SetReg(s: State, r: Reg, v: Word): State
    requires |s.regs| == NREGS
  {
    State(s.regs[r := v], s.mem, s.heap)
  }

  /** The pointer an access goes through. */
  function AddressOf(s: State, a: Deref): Option<Word>
    requires |s.regs| == NREGS
  {
    WordAdd(s.regs[a.basereg], Num(ToU64(a.offset)))
  }

  function MemoryOf(s: State, r: Region): Memory {
    if r.StackMem? then s.mem else s.heap(r)
  }

  /** The state after storing v through p. */
  function StoreTo(s: State, p: Word, w: nat, v: Word): State
    requires p.Ptr?
  {
    var m := Write(MemoryOf(s, p.region), p.offset, w, v);
    if p.region.StackMem? then State(s.regs, m, s.heap)
    else State(s.regs, s.mem, r => if r == p.region then m else s.heap(r))
  }

  /**
    One instruction on a concrete state. There is no step where the program
    has no defined tagged meaning: arithmetic on mixtures, a store on the
    stack that cuts its value, or a store of anything but a number outside the
    stack.
   */
  ghost predicate ConcreteStep(ins: Instruction, s: State, t: State) {
    && |s.regs| == |t.regs| == NREGS
    && match ins
       case Bin(op, is64, dst, v) =>
         var a, b := s.regs[dst], ValueOf(s, v);
         if op.MOV? && is64 then t == SetReg(s, dst, b)
         else if op.MOV? then b.Num? && t == SetReg(s, dst, Num(S.Low(b.n)))
         else A.WordResult(op, is64, a, b).Some? && t == SetReg(s, dst, A.WordResult(op, is64, a, b).value)
       case LoadMapFd(dst, fd) => t == SetReg(s, dst, MapFd(fd))
       case Mem(access, value, isLoad) =>
         && AddressOf(s, access).Some? && AddressOf(s, access).value.Ptr?
         && var p := AddressOf(s, access).value;
         if isLoad then
           && value.RegOp?
           && t == SetReg(s, value.r, Read(MemoryOf(s, p.region), p.offset, access.width))
         else
           && t == StoreTo(s, p, access.width, ValueOf(s, value))
           && if p.region.StackMem? then Fits(ValueOf(s, value), access.width) else ValueOf(s, value).Num?
       case AssumeIns(c) => WordHolds(c.op, s.regs[c.left], ValueOf(s, c.right)) && t == s
       case Exit => t == s
       case Jmp(_, _) => t == s
       case PacketLoad(_, _, _) =>
         t.regs[0].Num? && (forall i :: 6 <= i < NREGS ==> t.regs[i] == s.regs[i]) && t.mem == s.mem && t.heap == s.heap
       case _ => false
  }

  /** The bytes of map values and packets are parts of numbers. */
  ghost predicate NumericHeap(heap: Region -> Memory) {
    forall r: Region, k: int :: r.MapValue? || r.PacketMem? ==> heap(r)(k).Data?
  }

  ghost predicate DescribesState(m: MachineVal, s: State) {
    && HasRegs(m) && |s.regs| == NREGS
    && (forall i :: 0 <= i < NREGS && m.regs[i].Some? ==> Contains(m.regs[i].value, s.regs[i]))
    && Describes(m.stack, s.mem) && NumericHeap(s.heap)
  }

  /**
    Where a program starts: the context in r1, the end of a stack of 512 bytes
    in r10, numbers in r13 and r14, anything in the other registers and on the
    stack.
   */
  ghost predicate Started(s: State) {
    && |s.regs| == 16
    && s.regs[1] == Ptr(CtxMem, 0) && s.regs[10] == Ptr(StackMem, 512) && s.regs[13].Num? && s.regs[14].Num?
    && NumericHeap(s.heap)
  }
}
