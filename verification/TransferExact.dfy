/**
  Exactly what each instruction and the join leave in the abstract machine:
  which words the assigned register describes, and that nothing else changes.
 */
module TransferExact {
  import opened Syntax
  import opened Rcp
  import opened ByteMemory
  import opened Cells
  import opened LoadScan
  import opened StorePieces
  import opened MemDom
  import opened MemTheory
  import opened Machine
  import opened Restrictions
  import opened ExactArithmetic
  import S = SetDomains
  import A = ArithmeticMeaning

  /** Register k holds a value afterwards; the other registers and the stack are as before. */
  predicate OnlyAssigns(m: MachineVal, r: MachineVal, k: Reg)
    requires HasRegs(m)
  {
    && |r.regs| == NREGS && r.regs[k].Some? && r.stack == m.stack
    && forall i | 0 <= i < NREGS && i != k :: r.regs[i] == m.regs[i]
  }

  predicate Applies(ins: Instruction, m: MachineVal) {
    HasRegs(m) && InScope(ins, m) && !Throws(ins, m)
  }

  /* ----- assignments ----- */

  /** A move assigns the constant, or what the other register describes. */
  lemma MoveIff(is64: bool, dst: Reg, v: Operand, m: MachineVal, r: MachineVal, w: Word)
    requires Applies(Bin(MOV, is64, dst, v), m) && TransferOf(Bin(MOV, is64, dst, v), m, r)
    ensures OnlyAssigns(m, r, dst)
    ensures v.RegOp? ==> m.regs[v.r].Some?
    ensures Contains(r.regs[dst].value, w) <==> if v.Imm? then w == Num(v.v) else Contains(m.regs[v.r].value, w)
  {
    if v.Imm? { assert IsRegion(CtxMem) && !Number(v.v).ctx.top; }
  }

  lemma MapFdIff(dst: Reg, fd: nat, m: MachineVal, r: MachineVal, w: Word)
    requires Applies(LoadMapFd(dst, fd), m) && TransferOf(LoadMapFd(dst, fd), m, r)
    ensures OnlyAssigns(m, r, dst)
    ensures Contains(r.regs[dst].value, w) <==> w == MapFd(fd)
  {
    assert IsRegion(CtxMem);
  }

  /** What an arithmetic result describes: computed numbers, moved pointers, and the left operand's descriptors. */
  ghost predicate ResultDescribes(op: BinOp, d: Rcp, e: Rcp, w: Word) {
    match w
    case Num(x) => FromNumbers(op, d, e, x) || (op.SUB? && FromDistance(d, e, x))
    case Ptr(r, o) =>
      IsRegion(r) && (
        if op.ADD? then FromMove(true, d, e, r, o) || FromMove(true, e, d, r, o)
        else if op.SUB? then FromMove(false, d, e, r, o)
        else Contains(d, Ptr(r, o)))
    case MapFd(i) => Contains(d, MapFd(i))
    case Junk => false
  }

  lemma ArithmeticAssigns(op: BinOp, is64: bool, dst: Reg, v: Operand, m: MachineVal, r: MachineVal)
    requires !op.MOV? && Applies(Bin(op, is64, dst, v), m) && TransferOf(Bin(op, is64, dst, v), m, r)
    ensures m.regs[dst].Some? && Eval(m, v).Some? && S.Computes(op, m.regs[dst].value.num, Eval(m, v).value.num)
    ensures r == Assign(m, dst, A.Arithmetic(op, m.regs[dst].value, Eval(m, v).value))
  {}

  /** Arithmetic assigns exactly these words. */
  lemma ArithmeticIff(op: BinOp, is64: bool, dst: Reg, v: Operand, m: MachineVal, r: MachineVal, w: Word)
    requires !op.MOV? && !w.Junk? && Applies(Bin(op, is64, dst, v), m) && TransferOf(Bin(op, is64, dst, v), m, r)
    ensures OnlyAssigns(m, r, dst)
    ensures m.regs[dst].Some? && Eval(m, v).Some?
    ensures Contains(r.regs[dst].value, w) <==> ResultDescribes(op, m.regs[dst].value, Eval(m, v).value, w)
  {
    ArithmeticAssigns(op, is64, dst, v, m, r);
    ResultIff(op, m.regs[dst].value, Eval(m, v).value, w);
  }

  lemma ResultIff(op: BinOp, d: Rcp, e: Rcp, w: Word)
    requires !w.Junk? && S.Computes(op, d.num, e.num)
    ensures Contains(A.Arithmetic(op, d, e), w) <==> ResultDescribes(op, d, e, w)
  {
    if op.ADD? {
      SumIff(d, e, w);
    } else if op.SUB? {
      DifferenceIff(d, e, w);
    } else {
      OtherResultIff(op, d, e, w);
    }
  }

  /* ----- conditions ----- */

  /** Which words of d a condition keeps: those that some word of e compares with, and those it knows nothing about. */
  ghost predicate ConditionKeeps(op: CondOp, d: Rcp, e: Rcp, v: Word) {
    match op
    case SET => true
    case NSET => true
    case NE => !SharedWord(d, e, v)
    case _ =>
      match v
      case MapFd(i) => op.EQ? ==> Contains(e, v)
      case _ => UnknownFor(e, v) || (UnknownFor(d, v) && !op.EQ?) || Feasible(op, v, e)
  }

  /** Assuming a condition keeps exactly these words of the left register. */
  lemma AssumeIff(c: Condition, m: MachineVal, r: MachineVal, v: Word)
    requires Sane(m) && !v.Junk? && Applies(AssumeIns(c), m) && TransferOf(AssumeIns(c), m, r)
    ensures OnlyAssigns(m, r, c.left)
    ensures m.regs[c.left].Some? && Eval(m, c.right).Some?
    ensures Contains(r.regs[c.left].value, v) <==>
            Contains(m.regs[c.left].value, v) && ConditionKeeps(c.op, m.regs[c.left].value, Eval(m, c.right).value, v)
  {
    var d, e := m.regs[c.left].value, Eval(m, c.right).value;
    assert Ordered(d) && Ordered(e);
    assert r.regs[c.left] == Some(Restrict(d, c.op, e, TypesFor(c.op)));
    RestrictedIff(d, c.op, e, v);
  }

  lemma RestrictedIff(d: Rcp, op: CondOp, e: Rcp, v: Word)
    requires Ordered(d) && Ordered(e) && !v.Junk?
    ensures Contains(Restrict(d, op, e, TypesFor(op)), v) <==> Contains(d, v) && ConditionKeeps(op, d, e, v)
  {
    if op.SET? || op.NSET? {
      MasksKeepAll(d, op, e, v);
    } else if op.NE? {
      NotEqualKept(d, e, v);
    } else if v.MapFd? {
      DescriptorsKept(d, op, e, v.fd);
    } else {
      KeptIff(d, op, e, v);
    }
  }

  lemma NotEqualKept(d: Rcp, e: Rcp, v: Word)
    requires Ordered(d) && Ordered(e) && !v.Junk?
    ensures Contains(Restrict(d, NE, e, TypesFor(NE)), v) <==> Contains(d, v) && !SharedWord(d, e, v)
  {
    if Contains(Restrict(d, NE, e, TypesFor(NE)), v) { NotEqualShrinks(d, e, v); }
    if Contains(d, v) { RestrictNotEqual(d, e, v); }
  }

  lemma NotEqualShrinks(d: Rcp, e: Rcp, v: Word)
    requires Ordered(d) && Ordered(e) && !v.Junk? && Contains(Restrict(d, NE, e, TypesFor(NE)), v)
    ensures Contains(d, v)
  {
    match v {
      case Num(n) => S.RestrictShrinks(NE, d.num, e.num, n);
      case Ptr(r, o) =>
        RestrictOffsets(d, NE, e, TypesFor(NE), r);
        AllRegions(r);
        S.RestrictShrinks(NE, Offsets(d, r), Offsets(e, r), o);
      case MapFd(_) =>
    }
  }

  /* ----- memory ----- */

  lemma OnlyStackWord(addr: Rcp, v: Word)
    requires OnlyStack(addr) && Contains(addr, v)
    ensures v.Ptr? && v.region.StackMem?
  {
    assert IsRegion(CtxMem);
  }

  /** The code's test that an address is nothing but stack pointers. */
  lemma OnlyStackIff(addr: Rcp)
    ensures OnlyStack(addr) <==> forall v :: Contains(addr, v) ==> v.Ptr? && v.region.StackMem?
  {
    var t := OffsetTag(StackMem);
    assert OnlyStack(addr) <==> IsOfType(addr, {t});
    OfTypeIff(addr, t);
    if t' :| Inhabited(addr, t') && t' != t {
      var v := TagWitness(addr, t');
    }
    forall v | OnlyStack(addr) && Contains(addr, v)
      ensures v.Ptr? && v.region.StackMem?
    {
      OnlyStackWord(addr, v);
    }
  }

  /** The code's test that an address may lie in a map value or a packet. */
  lemma MapOrPacketIff(addr: Rcp)
    ensures MaybeMapOrPacket(addr) <==> exists r: Region, o :: (r.MapValue? || r.PacketMem?) && Contains(addr, Ptr(r, o))
  {
    if MaybeMapOrPacket(addr) {
      var r: Region :| (r.MapValue? || r.PacketMem?) && IsRegion(r) && !Offsets(addr, r).IsBot() by {
        if i :| 0 <= i < NMAPS && !addr.maps[i].IsBot() {
          assert IsRegion(MapValue(i)) && !Offsets(addr, MapValue(i)).IsBot();
        } else {
          assert IsRegion(PacketMem) && !Offsets(addr, PacketMem).IsBot();
        }
      }
      var o := SetWitness(Offsets(addr, r));
      assert Contains(addr, Ptr(r, o));
    }
  }

  ghost predicate OnStack(addr: Rcp) {
    exists o :: Contains(addr, Ptr(StackMem, o))
  }

  ghost predicate OnHeap(addr: Rcp) {
    exists r: Region, o :: (r.MapValue? || r.PacketMem?) && Contains(addr, Ptr(r, o))
  }

  lemma OnStackIff(addr: Rcp)
    ensures OnStack(addr) <==> !addr.stack.IsBot()
  {
    if !addr.stack.IsBot() {
      var o := SetWitness(addr.stack);
      assert Contains(addr, Ptr(StackMem, o));
    }
  }

  lemma BotDescribesNothing(v: Word)
    ensures !Contains(Bot, v)
  {
    assert IsRegion(CtxMem);
  }

  lemma LoadValueIff(m: MachineVal, addr: Rcp, w: int, v: Word)
    requires w > 0 && !v.Junk?
    ensures Contains(LoadValue(m, addr, w), v) <==>
            (OnStack(addr) && Contains(Loaded(m.stack.cells, addr.stack, w), v)) || (OnHeap(addr) && v.Num?)
  {
    OnStackIff(addr);
    MapOrPacketIff(addr);
    var part := StackPart(m, addr, w);
    JoinExact(Bot, Loaded(m.stack.cells, addr.stack, w), v);
    JoinExact(part, Bot, v);
    JoinExact(Join(part, Bot), OtherPart(addr), v);
    BotDescribesNothing(v);
    assert Contains(NumTop, v) <==> v.Num? by {
      if Contains(NumTop, v) { MustBeNumMeaning(NumTop, v); }
    }
  }

  /** A load assigns what the stack says, if the address may lie there, and any number if it may lie in a map value or packet. */
  lemma LoadIff(access: Deref, dst: Reg, m: MachineVal, r: MachineVal, v: Word)
    requires !v.Junk? && Applies(Mem(access, RegOp(dst), true), m) && TransferOf(Mem(access, RegOp(dst), true), m, r)
    ensures OnlyAssigns(m, r, dst)
    ensures m.regs[access.basereg].Some? && access.width > 0
    ensures var addr := Address(m.regs[access.basereg].value, access.offset);
            Contains(r.regs[dst].value, v) <==>
            (OnStack(addr) && Contains(Loaded(m.stack.cells, addr.stack, access.width), v)) || (OnHeap(addr) && v.Num?)
  {
    LoadValueIff(m, Address(m.regs[access.basereg].value, access.offset), access.width, v);
  }

  /** The address is one stack offset. */
  ghost predicate Exactly(addr: Rcp, o: int) {
    forall v :: Contains(addr, v) <==> v == Ptr(StackMem, o)
  }

  lemma SingleIs(x: S.IntSet, o: int)
    requires Neat(x) && forall k :: x.Has(k) <==> k == o
    ensures x == S.Single(o)
  {
    if x.top {
      assert x.Has(o + 1);
    } else {
      assert x.Has(o);
      if |x.elems| > 1 { assert x.Has(x.elems[0]) && x.Has(x.elems[1]); }
    }
  }

  lemma ExactlyIs(addr: Rcp, o: int)
    requires Neat(addr.stack) && Exactly(addr, o)
    ensures addr.stack == S.Single(o) && OnlyStack(addr)
  {
    forall k
      ensures addr.stack.Has(k) <==> k == o
    {
      assert Contains(addr, Ptr(StackMem, k)) <==> addr.stack.Has(k);
    }
    SingleIs(addr.stack, o);
    OnlyStackIff(addr);
  }

  /**
    A store leaves the registers alone. It does not touch the stack when the
    address cannot lie there, and forgets it when the address may be several
    offsets or lie elsewhere.
   */
  lemma StoreIs(access: Deref, value: Operand, m: MachineVal, r: MachineVal)
    requires Applies(Mem(access, value, false), m) && TransferOf(Mem(access, value, false), m, r)
    ensures r.regs == m.regs && m.regs[access.basereg].Some? && Eval(m, value).Some? && access.width > 0
    ensures var addr := Address(m.regs[access.basereg].value, access.offset);
            && (!OnStack(addr) ==> r.stack == m.stack)
            && (OnStack(addr) && !(addr.stack.IsSingle() && OnlyStack(addr)) ==> r.stack.IsTop())
  {
    OnStackIff(Address(m.regs[access.basereg].value, access.offset));
  }

  lemma StoreAtOne(access: Deref, value: Operand, addr: Rcp, o: int, m: MachineVal, r: MachineVal)
    requires Applies(Mem(access, value, false), m) && TransferOf(Mem(access, value, false), m, r)
    requires addr == Address(m.regs[access.basereg].value, access.offset) && addr.stack == S.Single(o) && OnlyStack(addr)
    ensures access.width > 0 && !r.stack.bot && StoredCells(m.stack.cells, o, access.width, Eval(m, value).value, r.stack.cells)
  {}

  lemma AddressNeat(d: Rcp, offset: Int32)
    ensures Neat(Address(d, offset).stack)
  {
    var n := Number(ToU64(offset));
    OffsetsPlusNeat(d.num, d.stack, n.num, n.stack);
  }

  lemma CastOffset(offset: Int32)
    ensures ToInt32(ToU64(offset)) == offset
  {}

  lemma NoNumbers(op: BinOp, d: Rcp, e: Rcp, x: int)
    requires forall n :: !Contains(d, Num(n))
    ensures !FromNumbers(op, d, e, x)
  {}

  /** A base that is one stack pointer gives an address that is one offset, up to the limit of 2^30. */
  lemma AddressOfPointer(d: Rcp, b: int, offset: Int32)
    requires Exactly(d, b) && b + offset <= 0x4000_0000
    ensures Exactly(Address(d, offset), b + offset)
  {
    var addr, k := Address(d, offset), ToU64(offset);
    CastOffset(offset);
    assert !d.stack.top by {
      assert Contains(d, Ptr(StackMem, b + 1)) <==> d.stack.Has(b + 1);
    }
    forall v
      ensures Contains(addr, v) <==> v == Ptr(StackMem, b + offset)
    {
      match v {
        case Num(x) =>
          SumIff(d, Number(k), v);
          NoNumbers(ADD, d, Number(k), x);
        case Ptr(r, o) =>
          if IsRegion(r) { PointerOfBase(d, b, offset, r, o); }
        case MapFd(i) => assert Contains(d, v) <==> i in d.fds;
        case Junk =>
          PointerOfBase(d, b, offset, StackMem, b + offset + 1);
          assert IsRegion(StackMem);
      }
    }
  }

  lemma PointerOfBase(d: Rcp, b: int, offset: Int32, r: Region, o: int)
    requires Exactly(d, b) && b + offset <= 0x4000_0000 && IsRegion(r)
    ensures Contains(Address(d, offset), Ptr(r, o)) <==> Ptr(r, o) == Ptr(StackMem, b + offset)
  {
    CastOffset(offset);
    AddressIff(d, ToU64(offset), r, o);
    assert !Offsets(d, r).top by {
      assert Contains(d, Ptr(r, b + 1)) <==> Offsets(d, r).Has(b + 1);
    }
    assert Contains(d, Ptr(StackMem, b));
  }

  /** A store through one stack pointer replaces the bytes there. */
  lemma StoreOnStack(access: Deref, value: Operand, o: int, m: MachineVal, n: MachineVal)
    requires HasRegs(m) && m.regs[access.basereg].Some? && o <= 0x4000_0000
    requires Exactly(m.regs[access.basereg].value, o - access.offset)
    requires Applies(Mem(access, value, false), m) && TransferOf(Mem(access, value, false), m, n)
    ensures n.regs == m.regs && Eval(m, value).Some? && access.width > 0 && !n.stack.bot
    ensures StoredCells(m.stack.cells, o, access.width, Eval(m, value).value, n.stack.cells)
    ensures Exactly(Address(m.regs[access.basereg].value, access.offset), o)
  {
    var base := m.regs[access.basereg].value;
    AddressOfPointer(base, o - access.offset, access.offset);
    AddressNeat(base, access.offset);
    ExactlyIs(Address(base, access.offset), o);
    StoreAtOne(access, value, Address(base, access.offset), o, m, n);
  }

  /** A store through one stack pointer, followed by a load of the same bytes, assigns exactly what was stored. */
  lemma StoreThenLoadIff(access: Deref, value: Operand, dst: Reg, o: int, m: MachineVal, n: MachineVal, r: MachineVal, v: Word)
    requires !v.Junk? && HasRegs(m) && m.regs[access.basereg].Some? && o <= 0x4000_0000
    requires Exactly(m.regs[access.basereg].value, o - access.offset)
    requires Applies(Mem(access, value, false), m) && TransferOf(Mem(access, value, false), m, n)
    requires Applies(Mem(access, RegOp(dst), true), n) && TransferOf(Mem(access, RegOp(dst), true), n, r)
    ensures OnlyAssigns(n, r, dst) && n.regs == m.regs && Eval(m, value).Some?
    ensures Contains(r.regs[dst].value, v) <==> Contains(Eval(m, value).value, v)
  {
    var base := m.regs[access.basereg].value;
    var addr := Address(base, access.offset);
    StoreOnStack(access, value, o, m, n);
    AddressNeat(base, access.offset);
    ExactlyIs(addr, o);
    LoadIff(access, dst, n, r, v);
    LoadAfterStore(m.stack.cells, o, access.width, Eval(m, value).value, n.stack.cells);
    assert Contains(addr, Ptr(StackMem, o));
    assert !OnHeap(addr);
  }

  lemma LoadBesideIff(m: MachineVal, n: MachineVal, o: int, w: int, d: Rcp, addr: Rcp, p: int, u: int, v: Word)
    requires Shaped(m.stack.cells) && w > 0 && StoredCells(m.stack.cells, o, w, d, n.stack.cells)
    requires addr.stack == S.Single(p) && u > 0 && p + u >= 0 && (p + u <= o || o + w <= p) && !v.Junk?
    ensures Contains(LoadValue(n, addr, u), v) <==> Contains(LoadValue(m, addr, u), v)
  {
    LoadValueIff(n, addr, u, v);
    LoadValueIff(m, addr, u, v);
    LoadElsewhere(m.stack.cells, o, w, d, n.stack.cells, p, u);
  }

  /** A store through one stack pointer leaves a load of other bytes of the stack exactly as it was. */
  lemma StoreBesideLoadIff(access: Deref, value: Operand, o: int, m: MachineVal, n: MachineVal, addr: Rcp, p: int, u: int, v: Word)
    requires !v.Junk? && Sane(m) && m.regs[access.basereg].Some? && o <= 0x4000_0000
    requires Exactly(m.regs[access.basereg].value, o - access.offset)
    requires Applies(Mem(access, value, false), m) && TransferOf(Mem(access, value, false), m, n)
    requires addr.stack == S.Single(p) && u > 0 && p + u >= 0
    requires p + u <= o || o + access.width <= p
    ensures Contains(LoadValue(n, addr, u), v) <==> Contains(LoadValue(m, addr, u), v)
  {
    StoreOnStack(access, value, o, m, n);
    LoadBesideIff(m, n, o, access.width, Eval(m, value).value, addr, p, u, v);
  }

  /* ----- packets and the rest ----- */

  /** A packet load assigns any number to r0, takes r1 to r5 away and keeps the rest. */
  lemma PacketIff(ins: Instruction, m: MachineVal, r: MachineVal, w: Word)
    requires ins.PacketLoad? && Applies(ins, m) && TransferOf(ins, m, r)
    ensures |r.regs| == 16 && r.stack == m.stack
    ensures r.regs[0].Some? && (Contains(r.regs[0].value, w) <==> w.Num?)
    ensures forall i :: 1 <= i <= 5 ==> r.regs[i].None?
    ensures forall i :: 6 <= i < 16 ==> r.regs[i] == m.regs[i]
  {
    if Contains(NumTop, w) { MustBeNumMeaning(NumTop, w); }
  }

  /** Exit and jumps change nothing. */
  lemma OthersKeep(ins: Instruction, m: MachineVal, r: MachineVal)
    requires (ins.Exit? || ins.Jmp?) && Applies(ins, m) && TransferOf(ins, m, r)
    ensures r == m
  {}

  /* ----- join ----- */

  /** A joined register holds a value exactly when both do, and then describes what either does. */
  lemma JoinedRegisterIff(a: MachineVal, b: MachineVal, r: MachineVal, i: Reg, v: Word)
    requires MachineJoinOf(a, b, r) && !v.Junk?
    ensures r.regs[i].Some? <==> a.regs[i].Some? && b.regs[i].Some?
    ensures r.regs[i].Some? ==>
            (Contains(r.regs[i].value, v) <==> Contains(a.regs[i].value, v) || Contains(b.regs[i].value, v))
  {
    assert r.regs[i] == JoinReg(a.regs[i], b.regs[i]);
    if r.regs[i].Some? { JoinExact(a.regs[i].value, b.regs[i].value, v); }
  }

  /** Joining the machine of a block that is not reached changes no register's meaning and not the stack's. */
  lemma UnreachedIsNeutral(b: MachineVal, r: MachineVal, i: Reg, v: Word, mem: Memory)
    requires HasRegs(b) && !v.Junk? && (MachineJoinOf(Unreached(), b, r) || MachineJoinOf(b, Unreached(), r))
    ensures r.regs[i].Some? <==> b.regs[i].Some?
    ensures r.regs[i].Some? ==> (Contains(r.regs[i].value, v) <==> Contains(b.regs[i].value, v))
    ensures Describes(r.stack, mem) <==> Describes(b.stack, mem)
  {
    BotDescribesNothing(v);
    assert Unreached().regs[i] == Some(Bot);
    if MachineJoinOf(Unreached(), b, r) {
      JoinedRegisterIff(Unreached(), b, r, i, v);
    } else {
      JoinedRegisterIff(b, Unreached(), r, i, v);
    }
  }
}
