/**
  The abstract machine as an object: a register array that instructions
  overwrite and a stack object that loads scan and stores change.
 */
module MachineObject {
  import opened Syntax
  import opened Rcp
  import opened Cells
  import opened MemDom
  import opened Machine
  import opened MachineSound
  import S = SetDomains

  class MachineState {
    var regs: seq<Option<Rcp>>
    const stackArr: MemDom

    function Value(): MachineVal
      reads this, stackArr
    {
      MachineVal(regs, stackArr.Value())
    }

    constructor (m: MachineVal)
      ensures Value() == m && fresh(stackArr)
    {
      regs := m.regs;
      stackArr := new MemDom(m.stack);
    }

    method JoinWith(o: MachineState)
      requires Sane(Value()) && Sane(o.Value()) && this != o && stackArr != o.stackArr
      modifies this, stackArr
      ensures Sane(Value()) && MachineJoinOf(old(Value()), o.Value(), Value())
    {
      ghost var a, b := Value(), o.Value();
      for i := 0 to |regs|
        invariant |regs| == NREGS && Value().stack == a.stack && o.Value() == b
        invariant forall k :: 0 <= k < i ==> regs[k] == JoinReg(a.regs[k], b.regs[k])
        invariant forall k :: i <= k < NREGS ==> regs[k] == a.regs[k]
      {
        if regs[i].None? || o.regs[i].None? {
          regs := regs[i := None];
        } else {
          regs := regs[i := Some(Join(regs[i].value, o.regs[i].value))];
        }
      }
      stackArr.JoinWith(o.stackArr);
      MachineJoinSane(a, b, Value());
    }

    method StoreThrough(addr: Rcp, width: int, value: Rcp)
      requires Sane(Value()) && width > 0
      requires forall e :: e in addr.stack.elems ==> e + width <= MAX_OFFSET
      modifies stackArr
      ensures StoredAt(old(Value()), addr, width, value, Value())
    {
      if !addr.stack.IsBot() {
        if OnlyStack(addr) {
          assert addr.stack.IsSingle() ==> addr.stack.elems[0] in addr.stack.elems;
          stackArr.Store(addr.stack, width, value);
        } else {
          stackArr.Store(S.TOP, width, value);
        }
      }
    }

    method LoadThrough(addr: Rcp, width: int) returns (r: Rcp)
      requires Sane(Value()) && width > 0
      ensures r == LoadValue(Value(), addr, width)
    {
      r := Bot;
      if !addr.stack.IsBot() {
        var loaded := stackArr.Load(addr.stack, width);
        r := Join(r, loaded);
      }
      r := Join(r, Bot);
      r := Join(r, OtherPart(addr));
    }

    /** One instruction; ok is false when the source throws on an uninitialised register. */
    method Visit(ins: Instruction) returns (ok: bool)
      requires Sane(Value()) && InScope(ins, Value())
      modifies this, stackArr
      ensures ok <==> !Throws(ins, old(Value()))
      ensures ok ==> TransferOf(ins, old(Value()), Value()) && Sane(Value())
    {
      ghost var m := Value();
      match ins {
        case Bin(op, is64, dst, v) =>
          var e := Eval(Value(), v);
          if e.None? { return false; }
          if op.MOV? {
            regs := regs[dst := e];
          } else {
            if regs[dst].None? { return false; }
            var d := regs[dst].value;
            if op.ADD? {
              regs := regs[dst := Some(Add(d, e.value))];
            } else if op.SUB? {
              regs := regs[dst := Some(Sub(d, e.value))];
            } else {
              regs := regs[dst := Some(Exec(op, d, e.value))];
            }
          }
        case LoadMapFd(dst, fd) =>
          regs := regs[dst := Some(RcpData(Uniform(S.BOT), S.BOT, S.BOT, S.BOT, S.BOT, {fd}))];
        case Mem(access, value, isLoad) =>
          ok := VisitMem(access, value, isLoad);
          if !ok { return false; }
        case AssumeIns(c) =>
          if regs[c.left].None? { return false; }
          var e := Eval(Value(), c.right);
          if e.None? { return false; }
          regs := regs[c.left := Some(Restrict(regs[c.left].value, c.op, e.value, TypesFor(c.op)))];
        case Exit =>
        case Jmp(_, _) =>
        case PacketLoad(_, _, _) =>
          regs := regs[0 := Some(NumTop)];
          ScratchRegs();
          assert regs == AfterCall(m).regs;
      }
      TransferSane(ins, m, Value());
      return true;
    }

    method ScratchRegs()
      requires |regs| == NREGS
      modifies this`regs
      ensures |regs| == NREGS && forall i :: 0 <= i < NREGS ==> regs[i] == if 1 <= i <= 5 then None else old(regs)[i]
    {
      for i := 1 to 6
        invariant |regs| == NREGS
        invariant forall k :: 0 <= k < NREGS ==> regs[k] == if 1 <= k < i then None else old(regs)[k]
      {
        regs := regs[i := None];
      }
    }

    method VisitMem(access: Deref, value: Operand, isLoad: bool) returns (ok: bool)
      requires Sane(Value()) && InScope(Mem(access, value, isLoad), Value())
      modifies this, stackArr
      ensures ok <==> !Throws(Mem(access, value, isLoad), old(Value()))
      ensures ok ==> TransferOf(Mem(access, value, isLoad), old(Value()), Value())
    {
      if regs[access.basereg].None? { return false; }
      var addr := Address(regs[access.basereg].value, access.offset);
      if isLoad {
        var v := LoadThrough(addr, access.width);
        regs := regs[value.r := Some(v)];
      } else {
        var e := Eval(Value(), value);
        if e.None? { return false; }
        forall k | k in addr.stack.elems
          ensures k + access.width <= MAX_OFFSET
        {
          AddressBounded(regs[access.basereg].value, access.offset, k);
        }
        StoreThrough(addr, access.width, e.value);
      }
      return true;
    }
  }
}
