/**
  The eBPF instruction syntax shared by the control-flow graph and the
  abstract interpreter, and the meaning of a comparison.
 */
module Syntax {
  import opened Bits

  datatype Option<+T> = None | Some(value: T)

  const TWO63: int := 0x8000_0000_0000_0000
  const TWO64: int := 0x1_0000_0000_0000_0000

  type U64 = x: int | 0 <= x < TWO64
  type Int32 = x: int | -0x8000_0000 <= x < 0x8000_0000
  type Reg = r: int | 0 <= r < 16

  type Label = string

  datatype Operand = Imm(v: U64) | RegOp(r: Reg)

  datatype BinOp = MOV | ADD | SUB | MUL | DIV | MOD | OR | AND | LSH | RSH | ARSH | XOR

  datatype UnOp = LE16 | LE32 | LE64 | NEG

  datatype CondOp = EQ | NE | SET | NSET | LT | LE | GT | GE | SLT | SLE | SGT | SGE

  datatype Condition = Condition(op: CondOp, left: Reg, right: Operand)

  datatype Deref = Deref(width: nat, basereg: Reg, offset: Int32)

  datatype Instruction =
    | Undefined(opcode: int)
    | Bin(op: BinOp, is64: bool, dst: Reg, v: Operand)
    | Un(uop: UnOp, udst: Reg)
    | LoadMapFd(fdst: Reg, mapfd: nat)
    | Call(func: int)
    | Exit
    | Jmp(cond: Option<Condition>, target: Label)
    | Mem(access: Deref, value: Operand, isLoad: bool)
    | PacketLoad(pwidth: int, poffset: int, regoffset: Option<Reg>)
    | LockAdd(access: Deref, valreg: Reg)
    | AssumeIns(assumed: Condition)
    | AssertIns(assertion: int)

  /** The signed reading of a 64-bit word (a C++ cast to int64_t). */
  function ToSigned(x: int): int {
    if x >= TWO63 then x - TWO64 else x
  }

  /** The 64-bit word of an integer (a C++ cast to uint64_t). */
  function ToU64(x: int): U64 {
    x % TWO64
  }

  /** The low 32 bits of a word, read as a signed integer (a C++ cast to int). */
  function ToInt32(x: int): int {
    var y := x % 0x1_0000_0000;
    if y >= 0x8000_0000 then y - 0x1_0000_0000 else y
  }

  /** The casts land in their range and differ from the number by a multiple of their width. */
  lemma CastsMean(x: int, w: U64)
    ensures x == ToU64(x) + TWO64 * (x / TWO64) && 0 <= ToU64(x) < TWO64
    ensures (w == ToSigned(w) || w == ToSigned(w) + TWO64) && -TWO63 <= ToSigned(w) < TWO63
  {}

  lemma Int32Means(x: int)
    ensures x == ToInt32(x) + 0x1_0000_0000 * ((x + 0x8000_0000) / 0x1_0000_0000) && -0x8000_0000 <= ToInt32(x) < 0x8000_0000
  {
    var q := x / 0x1_0000_0000;
    UniqueQuotient(x + 0x8000_0000, 0x1_0000_0000, if x - q * 0x1_0000_0000 >= 0x8000_0000 then q + 1 else q);
  }

  /** A bitwise operation on two words. */
  function BitOp(op: Bitwise, a: U64, b: U64): U64 {
    PowOf64();
    CombineBelow(op, a, b, 64);
    Combine(op, a, b)
  }

  function BitAnd(a: U64, b: U64): U64 {
    BitOp(And, a, b)
  }

  /** Equality and order; the S-forms compare the signed readings. */
  predicate Compare(op: CondOp, a: int, b: int)
    requires !op.SET? && !op.NSET?
  {
    match op
    case EQ => a == b
    case NE => a != b
    case LT => a < b
    case LE => a <= b
    case GT => a > b
    case GE => a >= b
    case SLT => ToSigned(a) < ToSigned(b)
    case SLE => ToSigned(a) <= ToSigned(b)
    case SGT => ToSigned(a) > ToSigned(b)
    case SGE => ToSigned(a) >= ToSigned(b)
  }

  /** Section 4.3 of RFC 9669: the meaning of each comparison on 64-bit words. */
  predicate EvalOp(op: CondOp, a: U64, b: U64) {
    match op
    case SET => BitAnd(a, b) != 0
    case NSET => BitAnd(a, b) == 0
    case _ => Compare(op, a, b)
  }

  predicate IsSigned(op: CondOp) {
    op.SLT? || op.SLE? || op.SGT? || op.SGE?
  }

  /** EQ and the unsigned and signed order comparisons: everything but NE, SET and NSET. */
  predicate IsOrderOrEq(op: CondOp) {
    !op.NE? && !op.SET? && !op.NSET?
  }

  /** SET holds exactly when the two words have a bit in common. */
  lemma SetIsCommonBit(a: U64, b: U64)
    ensures EvalOp(SET, a, b) <==> exists i: nat :: i < 64 && Bit(a, i) == 1 && Bit(b, i) == 1
  {
    PowOf64();
    SomeDigit(BitAnd(a, b), 64);
    forall i: nat
      ensures Bit(BitAnd(a, b), i) == 1 <==> Bit(a, i) == 1 && Bit(b, i) == 1
    {
      CombineBit(And, a, b, i);
    }
  }
}
