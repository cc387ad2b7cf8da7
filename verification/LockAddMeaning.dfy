/**
  LockAdd and its expansion through register 11, on a processor with numeric
  registers and a byte memory (section 5.3 of RFC 9669, without concurrency).
 */
module LockAddMeaning {
  import opened Syntax
  import opened ByteMemory
  import opened CfgRuns
  import opened Nondet
  import R = Rcp

  type Registers = s: seq<U64> | |s| == 16 witness [0, 0, 0, 0, 0, 0, 0, 0, 0, 0, 0, 0, 0, 0, 0, 0]

  datatype Cpu = Cpu(regs: Registers, mem: Memory)

  function Location(s: Cpu, a: Deref): U64 {
    ToU64(s.regs[a.basereg] + a.offset)
  }

  ghost predicate Loaded(s: Cpu, a: Deref, r: Reg, t: Cpu) {
    && AllData(s.mem, Location(s, a), a.width)
    && t.regs[r] == ToU64(Little(s.mem, Location(s, a), a.width))
    && Elsewhere(s, t, r) && forall k :: t.mem(k) == s.mem(k)
  }

  ghost predicate Wrote(s: Cpu, a: Deref, n: int, t: Cpu) {
    forall k :: t.mem(k) == Write(s.mem, Location(s, a), a.width, R.Num(n))(k)
  }

  /** All registers but r are as they were. */
  ghost predicate Elsewhere(s: Cpu, t: Cpu, r: Reg) {
    forall q: Reg :: q != r ==> t.regs[q] == s.regs[q]
  }

  /** The memory after adding the register to the number found there; only the low bytes are kept. */
  ghost predicate AddsToMemory(s: Cpu, a: Deref, valreg: Reg, t: Cpu) {
    && AllData(s.mem, Location(s, a), a.width)
    && Wrote(s, a, Little(s.mem, Location(s, a), a.width) + s.regs[valreg], t)
  }

  ghost predicate CpuStep(ins: Instruction, s: Cpu, t: Cpu) {
    match ins
    case Mem(access, value, isLoad) =>
      if isLoad then value.RegOp? && Loaded(s, access, value.r, t)
      else t.regs == s.regs && Wrote(s, access, Read(s, value), t)
    case Bin(op, is64, dst, v) =>
      op.ADD? && is64 && t.regs[dst] == ToU64(s.regs[dst] + Read(s, v)) && Elsewhere(s, t, dst) && t.mem == s.mem
    case LockAdd(access, valreg) => t.regs == s.regs && AddsToMemory(s, access, valreg, t)
    case _ => false
  }

  function Read(s: Cpu, v: Operand): U64 {
    match v
    case Imm(k) => k
    case RegOp(r) => s.regs[r]
  }

  ghost function Cpus(): Meaning<Cpu> {
    OnWords((ins, s, t) => CpuStep(ins, s, t), (s: Cpu, r: Reg) => s.regs[r])
  }

  /* ----- bytes of a remainder ----- */

  lemma RemainderQuotient(n: int, p: int)
    requires p > 0
    ensures (n % (256 * p)) % 256 == n % 256
    ensures (n % (256 * p)) / 256 == (n / 256) % p
  {
    var q, r := n / (256 * p), n % (256 * p);
    assert n == 256 * (p * q) + r;
    assert n / 256 == p * q + r / 256;
    assert r / 256 < p;
    QuotientUnique(n / 256, p, q, r / 256);
  }

  lemma MultipleIsLarge(p: int, d: int)
    requires p > 0 && d != 0
    ensures p * d >= p || p * d <= -p
  {}

  lemma QuotientUnique(m: int, p: int, q: int, r: int)
    requires p > 0 && m == p * q + r && 0 <= r < p
    ensures m % p == r
  {
    var d := m / p - q;
    assert p * d == r - m % p;
    if d != 0 {
      MultipleIsLarge(p, d);
      assert false;
    }
  }

  lemma {:induction false} ByteOfRemainder(n: int, w: nat, k: nat)
    requires k < w
    ensures ByteAt(n % Pow256(w), k) == ByteAt(n, k)
    decreases k
  {
    RemainderQuotient(n, Pow256(w - 1));
    if k == 0 {
    } else {
      ByteOfRemainder(n / 256, w - 1, k - 1);
    }
  }

  lemma WordBytes(n: int, k: nat)
    requires k < 8
    ensures ByteAt(ToU64(n), k) == ByteAt(n, k)
  {
    ByteOfRemainder(n, 8, k);
    assert Pow256(8) == TWO64;
  }

  /* ----- the expansion ----- */

  lemma SumStored(s: Cpu, u: Cpu, access: Deref, n: int, t: Cpu)
    requires access.width <= 8 && Location(u, access) == Location(s, access) && forall k :: u.mem(k) == s.mem(k)
    ensures Wrote(u, access, ToU64(n), t) <==> Wrote(s, access, n, t)
  {
    var o := Location(s, access);
    forall k
      ensures Write(u.mem, o, access.width, R.Num(ToU64(n)))(k) == Write(s.mem, o, access.width, R.Num(n))(k)
    {
      if o <= k < o + access.width {
        WriteAt(u.mem, o, access.width, R.Num(ToU64(n)), k - o);
        WriteAt(s.mem, o, access.width, R.Num(n), k - o);
        WordBytes(n, k - o);
      }
    }
  }

  lemma SumOfWords(x: int, y: int)
    ensures ToU64(ToU64(x) + y) == ToU64(x + y)
  {}

  lemma ThreeSteps(ins: seq<Instruction>, s: Cpu, t: Cpu)
    requires |ins| == 3
    ensures Executes(Cpus(), ins, s, t) <==>
      exists u, v :: Effect(Cpus(), ins[0], s, u) && Effect(Cpus(), ins[1], u, v) && Effect(Cpus(), ins[2], v, t)
  {
    var M := Cpus();
    assert ins[1..][1..] == [ins[2]];
    forall v
      ensures Executes(M, ins[1..][1..], v, t) <==> Effect(M, ins[2], v, t)
    {
      ExecutesOne(M, ins[2], v, t);
    }
    if Executes(M, ins, s, t) {
      var u :| Effect(M, ins[0], s, u) && Executes(M, ins[1..], u, t);
      var v :| Effect(M, ins[1], u, v) && Executes(M, ins[1..][1..], v, t);
      assert Effect(M, ins[2], v, t);
    }
    if u, v :| Effect(M, ins[0], s, u) && Effect(M, ins[1], u, v) && Effect(M, ins[2], v, t) {
      assert Executes(M, ins[1..][1..], v, t);
      assert Executes(M, ins[1..], u, t);
    }
  }

  /** What the expansion leaves: memory as LockAdd leaves it, the sum in register 11, the other registers untouched. */
  ghost predicate AddsThroughR11(s: Cpu, access: Deref, valreg: Reg, t: Cpu) {
    && AddsToMemory(s, access, valreg, t) && Elsewhere(s, t, 11)
    && t.regs[11] == ToU64(Little(s.mem, Location(s, access), access.width) + s.regs[valreg])
  }

  /** The three instructions: load, add, store. */
  ghost predicate LoadsAddsStores(access: Deref, valreg: Reg, s: Cpu, u: Cpu, v: Cpu, t: Cpu) {
    && Loaded(s, access, 11, u)
    && v.mem == u.mem && Elsewhere(u, v, 11) && v.regs[11] == ToU64(u.regs[11] as int + u.regs[valreg])
    && t.regs == v.regs && Wrote(v, access, v.regs[11], t)
  }

  lemma ThreeEffects(access: Deref, valreg: Reg, s: Cpu, u: Cpu, v: Cpu, t: Cpu)
    ensures var M, ins := Cpus(), ExpandLockAdd(access, valreg);
      Effect(M, ins[0], s, u) && Effect(M, ins[1], u, v) && Effect(M, ins[2], v, t) <==> LoadsAddsStores(access, valreg, s, u, v, t)
  {}

  lemma ExpansionGives(access: Deref, valreg: Reg, s: Cpu, u: Cpu, v: Cpu, t: Cpu)
    requires access.width <= 8 && access.basereg != 11 && valreg != 11
    requires LoadsAddsStores(access, valreg, s, u, v, t)
    ensures AddsThroughR11(s, access, valreg, t)
  {
    var x := Little(s.mem, Location(s, access), access.width);
    SumOfWords(x, s.regs[valreg]);
    SumStored(s, v, access, x + s.regs[valreg], t);
    assert t.regs[11] == ToU64(x + s.regs[valreg]);
    assert Elsewhere(s, t, 11);
    assert Wrote(s, access, x + s.regs[valreg], t);
  }

  lemma ExpansionFound(access: Deref, valreg: Reg, s: Cpu, t: Cpu) returns (u: Cpu, v: Cpu)
    requires access.width <= 8 && access.basereg != 11 && valreg != 11 && AddsThroughR11(s, access, valreg, t)
    ensures LoadsAddsStores(access, valreg, s, u, v, t)
  {
    var x := Little(s.mem, Location(s, access), access.width);
    u := Cpu(s.regs[11 := ToU64(x)], s.mem);
    v := Cpu(t.regs, s.mem);
    SumOfWords(x, s.regs[valreg]);
    SumStored(s, v, access, x + s.regs[valreg], t);
  }

  /** The expansion adds to memory exactly as LockAdd does and differs from it in register 11 alone. */
  lemma ExpansionAdds(access: Deref, valreg: Reg, s: Cpu, t: Cpu)
    requires access.width <= 8 && access.basereg != 11 && valreg != 11
    ensures Executes(Cpus(), ExpandLockAdd(access, valreg), s, t) <==> AddsThroughR11(s, access, valreg, t)
  {
    var M := Cpus();
    var ins := ExpandLockAdd(access, valreg);
    ThreeSteps(ins, s, t);
    if u, v :| Effect(M, ins[0], s, u) && Effect(M, ins[1], u, v) && Effect(M, ins[2], v, t) {
      ThreeEffects(access, valreg, s, u, v, t);
      ExpansionGives(access, valreg, s, u, v, t);
    }
    if AddsThroughR11(s, access, valreg, t) {
      var u, v := ExpansionFound(access, valreg, s, t);
      ThreeEffects(access, valreg, s, u, v, t);
    }
  }

  /** The number then found in memory is the sum, cut to the width of the access. */
  lemma SumIsRead(access: Deref, valreg: Reg, s: Cpu, t: Cpu)
    requires AddsToMemory(s, access, valreg, t)
    ensures AllData(t.mem, Location(s, access), access.width)
    ensures Little(t.mem, Location(s, access), access.width)
         == Truncate(Little(s.mem, Location(s, access), access.width) + s.regs[valreg], access.width)
  {
    var o, w := Location(s, access), access.width;
    var n := Little(s.mem, o, w) + s.regs[valreg];
    var m := Write(s.mem, o, w, R.Num(n));
    ReadBackNumber(s.mem, o, w, n, 0, n);
    SameLittle(t.mem, m, o, w);
  }

  lemma {:induction false} SameLittle(m: Memory, m': Memory, o: int, w: nat)
    requires (forall k :: m(k) == m'(k)) && AllData(m', o, w)
    ensures AllData(m, o, w) && Little(m, o, w) == Little(m', o, w)
    decreases w
  {
    assert AllData(m, o, w) by { assert forall k :: o <= k < o + w ==> m(k) == m'(k); }
    if w == 0 {
    } else {
      SameLittle(m, m', o + 1, w - 1);
    }
  }
}
