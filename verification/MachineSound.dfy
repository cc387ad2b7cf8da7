/**
  Soundness of the abstract machine: every instruction in scope and every join
  keeps the concrete states described, and keeps the machine well shaped.
 */
module MachineSound {
  import opened Syntax
  import opened Rcp
  import opened ByteMemory
  import opened Cells
  import opened JoinWalk
  import opened LoadScan
  import opened StorePieces
  import opened MemDom
  import opened MemTheory
  import opened Machine
  import S = SetDomains
  import A = ArithmeticMeaning

  /* ----- the start ----- */

  /** The entry machine describes exactly the states in which a program starts. */
  lemma EntryIff(s: State)
    ensures DescribesState(Entry(), s) <==> Started(s)
  {}

  /* ----- operands and addresses ----- */

  lemma EvalSound(m: MachineVal, s: State, v: Operand)
    requires DescribesState(m, s) && Eval(m, v).Some?
    ensures Contains(Eval(m, v).value, ValueOf(s, v))
  {}

  lemma DisplacementIsSmall(offset: Int32)
    ensures SmallDisplacement(ToU64(offset)) && ToSigned(ToU64(offset)) == offset
  {}

  lemma AddressSound(m: MachineVal, s: State, a: Deref)
    requires DescribesState(m, s) && m.regs[a.basereg].Some? && AddressOf(s, a).Some?
    ensures Contains(Address(m.regs[a.basereg].value, a.offset), AddressOf(s, a).value)
  {
    DisplacementIsSmall(a.offset);
    AddSound(m.regs[a.basereg].value, Number(ToU64(a.offset)), s.regs[a.basereg], Num(ToU64(a.offset)));
  }

  /** Address arithmetic is capped, so no cell end overflows. */
  lemma AddressBounded(d: Rcp, offset: Int32, e: int)
    requires e in Address(d, offset).stack.elems
    ensures e <= S.OFFSET_LIMIT
  {
    var n := Number(ToU64(offset));
    var x, y := S.OffsetExec(true, n.stack, d.num), S.OffsetExec(true, d.stack, n.num);
    assert x == S.BOT;
    assert Address(d, offset).stack == S.Join(x, y);
    S.JoinHas(x, y, e);
    if !y.top {
      S.OffsetExecExact(true, d.stack, n.num, e);
    }
  }

  /* ----- loads ----- */

  lemma JoinThree(a: Rcp, b: Rcp, c: Rcp, v: Word)
    requires Contains(a, v) || Contains(c, v)
    ensures Contains(Join(Join(a, b), c), v)
  {
    JoinExact(a, b, v);
    JoinExact(Join(a, b), c, v);
  }

  /** Whatever is read from map values and packets is a number. */
  lemma HeapReadIsNumber(heap: Region -> Memory, r: Region, o: int, w: nat)
    requires NumericHeap(heap) && (r.MapValue? || r.PacketMem?)
    ensures Read(heap(r), o, w).Num?
  {}

  lemma LoadValueSound(m: MachineVal, s: State, addr: Rcp, p: Word, w: nat)
    requires Sane(m) && DescribesState(m, s) && w > 0
    requires p.Ptr? && Contains(addr, p) && addr.ctx.IsBot()
    ensures Contains(LoadValue(m, addr, w), Read(MemoryOf(s, p.region), p.offset, w))
  {
    var v := Read(MemoryOf(s, p.region), p.offset, w);
    if p.region.StackMem? {
      var loaded := Loaded(m.stack.cells, addr.stack, w);
      LoadSound(m.stack, addr.stack, w, s.mem, p.offset);
      JoinExact(Bot, loaded, v);
    } else {
      assert Offsets(addr, p.region).Has(p.offset);
      assert MaybeMapOrPacket(addr);
      HeapReadIsNumber(s.heap, p.region, p.offset, w);
    }
    JoinThree(StackPart(m, addr, w), Bot, OtherPart(addr), v);
  }

  /* ----- stores ----- */

  /** A number stored outside the stack keeps its memory numeric. */
  lemma HeapStaysNumeric(s: State, p: Word, w: nat, v: Word)
    requires NumericHeap(s.heap) && p.Ptr? && (p.region.StackMem? || v.Num?)
    ensures NumericHeap(StoreTo(s, p, w, v).heap)
  {
    var heap := StoreTo(s, p, w, v).heap;
    forall r: Region, k: int | r.MapValue? || r.PacketMem?
      ensures heap(r)(k).Data?
    {
      assert s.heap(r)(k).Data?;
    }
  }

  lemma StoredAtSound(m: MachineVal, s: State, addr: Rcp, p: Word, w: nat, d: Rcp, v: Word, r: MachineVal)
    requires Sane(m) && DescribesState(m, s) && w > 0
    requires p.Ptr? && Contains(addr, p) && Contains(d, v) && (p.region.StackMem? ==> Fits(v, w))
    requires StoredAt(m, addr, w, d, r)
    ensures Describes(r.stack, StoreTo(s, p, w, v).mem)
  {
    if p.region.StackMem? {
      StoreSound(m.stack, if OnlyStack(addr) then addr.stack else S.TOP, w, d, r.stack, s.mem, p.offset, v);
    } else if !addr.stack.IsBot() {
      assert Offsets(addr, p.region).Has(p.offset);
      assert !OnlyStack(addr);
    }
  }

  /* ----- steps ----- */

  lemma AssignSound(m: MachineVal, s: State, r: Reg, d: Rcp, v: Word)
    requires DescribesState(m, s) && Contains(d, v)
    ensures DescribesState(Assign(m, r, d), SetReg(s, r, v))
  {}

  lemma MovSound(ins: Instruction, m: MachineVal, r: MachineVal, s: State, t: State)
    requires Sane(m) && ins.Bin? && ins.op.MOV? && InScope(ins, m) && !Throws(ins, m) && TransferOf(ins, m, r)
    requires DescribesState(m, s) && ConcreteStep(ins, s, t)
    ensures DescribesState(r, t)
  {
    var e, b := Eval(m, ins.v).value, ValueOf(s, ins.v);
    EvalSound(m, s, ins.v);
    if ins.is64 {
      AssignSound(m, s, ins.dst, e, b);
    } else {
      S.MoveCoversIff(e.num);
      AssignSound(m, s, ins.dst, e, Num(S.Low(b.n)));
    }
  }

  lemma ArithmeticSound(ins: Instruction, m: MachineVal, r: MachineVal, s: State, t: State)
    requires Sane(m) && ins.Bin? && !ins.op.MOV? && InScope(ins, m) && !Throws(ins, m) && TransferOf(ins, m, r)
    requires DescribesState(m, s) && ConcreteStep(ins, s, t)
    ensures DescribesState(r, t)
  {
    var d, e := m.regs[ins.dst].value, Eval(m, ins.v).value;
    var a, b := s.regs[ins.dst], ValueOf(s, ins.v);
    EvalSound(m, s, ins.v);
    A.CoveredDescribes(ins.op, ins.is64, d, e, a, b);
    AssignSound(m, s, ins.dst, A.Arithmetic(ins.op, d, e), A.WordResult(ins.op, ins.is64, a, b).value);
  }

  lemma MemSound(ins: Instruction, m: MachineVal, r: MachineVal, s: State, t: State)
    requires Sane(m) && ins.Mem? && InScope(ins, m) && !Throws(ins, m) && TransferOf(ins, m, r)
    requires DescribesState(m, s) && ConcreteStep(ins, s, t)
    ensures DescribesState(r, t)
  {
    var addr := Address(m.regs[ins.access.basereg].value, ins.access.offset);
    var p := AddressOf(s, ins.access).value;
    AddressSound(m, s, ins.access);
    if ins.isLoad {
      LoadValueSound(m, s, addr, p, ins.access.width);
      AssignSound(m, s, ins.value.r, LoadValue(m, addr, ins.access.width), Read(MemoryOf(s, p.region), p.offset, ins.access.width));
    } else {
      var v := ValueOf(s, ins.value);
      EvalSound(m, s, ins.value);
      StoredAtSound(m, s, addr, p, ins.access.width, Eval(m, ins.value).value, v, r);
      HeapStaysNumeric(s, p, ins.access.width, v);
    }
  }

  lemma AssumeSound(ins: Instruction, m: MachineVal, r: MachineVal, s: State, t: State)
    requires Sane(m) && ins.AssumeIns? && InScope(ins, m) && !Throws(ins, m) && TransferOf(ins, m, r)
    requires DescribesState(m, s) && ConcreteStep(ins, s, t)
    ensures DescribesState(r, t)
  {
    var c := ins.assumed;
    var d, e := m.regs[c.left].value, Eval(m, c.right).value;
    EvalSound(m, s, c.right);
    EvalOrdered(m, c.right);
    RestrictSound(d, c.op, e, s.regs[c.left], ValueOf(s, c.right));
    AssignSound(m, s, c.left, Restrict(d, c.op, e, TypesFor(c.op)), s.regs[c.left]);
    assert s.regs[c.left := s.regs[c.left]] == s.regs;
  }

  lemma PacketSound(ins: Instruction, m: MachineVal, s: State, t: State)
    requires ins.PacketLoad? && DescribesState(m, s) && ConcreteStep(ins, s, t)
    ensures DescribesState(AfterCall(m), t)
  {
    var r := AfterCall(m);
    forall i | 0 <= i < NREGS && r.regs[i].Some?
      ensures Contains(r.regs[i].value, t.regs[i])
    {
      if i == 0 {
        assert t.regs[0].Num? && r.regs[0] == Some(NumTop);
        assert Contains(NumTop, t.regs[0]);
      } else {
        assert i >= 6 && t.regs[i] == s.regs[i] && r.regs[i] == m.regs[i];
        assert Contains(m.regs[i].value, s.regs[i]);
      }
    }
  }

  lemma PacketSane(m: MachineVal)
    requires Sane(m)
    ensures Sane(AfterCall(m))
  {
    assert Ordered(NumTop);
  }

  /** One instruction: the state after the step is described by the machine after the transfer. */
  lemma StepSound(ins: Instruction, m: MachineVal, r: MachineVal, s: State, t: State)
    requires Sane(m) && InScope(ins, m) && !Throws(ins, m) && TransferOf(ins, m, r)
    requires DescribesState(m, s) && ConcreteStep(ins, s, t)
    ensures DescribesState(r, t)
  {
    match ins {
      case Bin(op, _, _, _) =>
        if op.MOV? { MovSound(ins, m, r, s, t); } else { ArithmeticSound(ins, m, r, s, t); }
      case Mem(_, _, _) => MemSound(ins, m, r, s, t);
      case AssumeIns(_) => AssumeSound(ins, m, r, s, t);
      case LoadMapFd(dst, fd) =>
        AssignSound(m, s, dst, RcpData(Uniform(S.BOT), S.BOT, S.BOT, S.BOT, S.BOT, {fd}), MapFd(fd));
      case PacketLoad(_, _, _) => PacketSound(ins, m, s, t);
      case _ =>
    }
  }

  /** The join of two machines describes every state that either describes. */
  lemma MachineJoinSound(a: MachineVal, b: MachineVal, r: MachineVal, s: State)
    requires Sane(a) && Sane(b) && MachineJoinOf(a, b, r)
    requires DescribesState(a, s) || DescribesState(b, s)
    ensures DescribesState(r, s)
  {
    JoinSound(a.stack, b.stack, r.stack, s.mem);
    forall i | 0 <= i < NREGS && r.regs[i].Some?
      ensures Contains(r.regs[i].value, s.regs[i])
    {
      JoinExact(a.regs[i].value, b.regs[i].value, s.regs[i]);
    }
  }

  /* ----- what every operation keeps ----- */

  lemma EvalOrdered(m: MachineVal, v: Operand)
    requires Sane(m) && Eval(m, v).Some?
    ensures Ordered(Eval(m, v).value)
  {}

  lemma PartialOrdered(d: Rcp)
    ensures Ordered(Partial(d))
  {}

  lemma LoadedOrdered(m: MachineVal, addr: Rcp, w: int)
    requires Sane(m) && w > 0
    ensures Ordered(LoadValue(m, addr, w))
  {
    var loaded := Loaded(m.stack.cells, addr.stack, w);
    assert Ordered(Bot) && Ordered(NumTop) && Ordered(Top);
    assert Ordered(loaded);
    JoinOrdered(Bot, loaded);
    JoinOrdered(StackPart(m, addr, w), Bot);
    JoinOrdered(Join(StackPart(m, addr, w), Bot), OtherPart(addr));
  }

  lemma StoredOrdered(m: MemVal, offsets: S.IntSet, w: int, d: Rcp, r: MemVal)
    requires CellsOrdered(m.cells) && Ordered(d) && StoreOf(m, offsets, w, d, r)
    ensures CellsOrdered(r.cells)
  {
    forall x | x in r.cells
      ensures Ordered(x.dom)
    {
      var o := offsets.elems[0];
      if IsLeftover(m.cells, o, w, x) {
        var c :| c in m.cells && Hit(c, o, w) && Leftover(c, o, w, x);
        PartialOrdered(c.dom);
      }
    }
  }

  lemma MeetOrdered(a: Cell, b: Cell, x: Cell)
    requires Ordered(a.dom) && Ordered(b.dom) && IsMeet(a, b, x)
    ensures Ordered(x.dom)
  {
    PartialOrdered(a.dom);
    PartialOrdered(b.dom);
    JoinOrdered(PartOf(a, x.offset, x.End()), PartOf(b, x.offset, x.End()));
    JoinOrdered(PartOf(b, x.offset, x.End()), PartOf(a, x.offset, x.End()));
  }

  lemma MachineJoinSane(a: MachineVal, b: MachineVal, r: MachineVal)
    requires Sane(a) && Sane(b) && MachineJoinOf(a, b, r)
    ensures Sane(r)
  {
    forall i | 0 <= i < NREGS && r.regs[i].Some?
      ensures Ordered(r.regs[i].value)
    {
      JoinOrdered(a.regs[i].value, b.regs[i].value);
    }
    if !a.stack.bot && !b.stack.bot && !a.stack.IsTop() && !b.stack.IsTop() {
      forall x | x in r.stack.cells
        ensures Ordered(x.dom)
      {
        var c, d :| c in a.stack.cells && d in b.stack.cells && Overlap(c, d) && IsMeet(c, d, x);
        MeetOrdered(c, d, x);
      }
    }
  }

  lemma AllOrderedMeaning(d: Rcp, e: Rcp)
    requires AllOrdered(d, e)
    ensures OrderedDifferences(d, e)
  {}

  lemma AssignSane(m: MachineVal, r: Reg, d: Rcp)
    requires Sane(m) && Ordered(d)
    ensures Sane(Assign(m, r, d))
  {}

  lemma ExecOrdered(op: BinOp, d: Rcp, e: Rcp)
    requires S.Computes(op, d.num, e.num) && Ordered(d) && Ordered(e)
    ensures Ordered(Exec(op, d, e))
  {
    NumExecNeat(op, d.num, e.num);
    var x := Exec(op, d, e);
    forall r | IsRegion(r)
      ensures Neat(Offsets(x, r))
    {
      assert Offsets(x, r) == Offsets(d, r);
    }
  }

  lemma NumExecNeat(op: BinOp, x: S.IntSet, y: S.IntSet)
    requires S.Computes(op, x, y) && Neat(x) && Neat(y)
    ensures Neat(S.NumExec(op, x, y))
  {
    S.NumExecExact(op, x, y, 0);
  }

  lemma BinSane(ins: Instruction, m: MachineVal, r: MachineVal)
    requires Sane(m) && ins.Bin? && InScope(ins, m) && !Throws(ins, m) && TransferOf(ins, m, r)
    ensures Sane(r)
  {
    var e := Eval(m, ins.v).value;
    EvalOrdered(m, ins.v);
    if ins.op.MOV? {
      AssignSane(m, ins.dst, e);
    } else {
      var d := m.regs[ins.dst].value;
      assert Ordered(d);
      if ins.op.ADD? {
        AddOrdered(d, e);
        AssignSane(m, ins.dst, Add(d, e));
      } else if ins.op.SUB? {
        AllOrderedMeaning(d, e);
        SubOrdered(d, e);
        AssignSane(m, ins.dst, Sub(d, e));
      } else {
        ExecOrdered(ins.op, d, e);
        AssignSane(m, ins.dst, Exec(ins.op, d, e));
      }
    }
  }

  /** Every instruction keeps the machine sane, and a reached stack stays reached. */
  lemma TransferSane(ins: Instruction, m: MachineVal, r: MachineVal)
    requires Sane(m) && InScope(ins, m) && !Throws(ins, m) && TransferOf(ins, m, r)
    ensures Sane(r)
    ensures !m.stack.bot ==> !r.stack.bot
  {
    match ins {
      case Bin(_, _, _, _) => BinSane(ins, m, r);
      case Mem(access, value, isLoad) =>
        var addr := Address(m.regs[access.basereg].value, access.offset);
        if isLoad {
          LoadedOrdered(m, addr, access.width);
        } else if !addr.stack.IsBot() {
          EvalOrdered(m, value);
          StoredOrdered(m.stack, if OnlyStack(addr) then addr.stack else S.TOP, access.width, Eval(m, value).value, r.stack);
        }
      case AssumeIns(c) =>
        EvalOrdered(m, c.right);
        RestrictOrdered(m.regs[c.left].value, c.op, Eval(m, c.right).value, TypesFor(c.op));
      case LoadMapFd(dst, fd) =>
        assert Ordered(RcpData(Uniform(S.BOT), S.BOT, S.BOT, S.BOT, S.BOT, {fd}));
      case PacketLoad(_, _, _) => PacketSane(m);
      case _ =>
    }
  }
}
