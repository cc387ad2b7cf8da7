/**
  32-bit arithmetic computed on whole words: for which words that is what the
  instruction means.
 */
module NarrowWords {
  import opened Syntax
  import opened Bits
  import opened SetDomains

  function High(x: int): int {
    x / TWO32
  }

  /** When the 64-bit operation computes the 32-bit one, in terms of the halves of the words. */
  predicate NarrowAgrees(op: BinOp, k: U64, n: U64)
    requires Defined(op, n)
  {
    match op
    case DIV =>
      if Low(n) == 0 then High(k) < High(n)
      else
        var least := Low(k) / Low(n) * High(n);
        least <= High(k) <= least + High(n)
    case MOD => if Low(n) == 0 then High(k) % High(n) == 0 else (k - Low(k) % Low(n)) % n == 0
    case RSH => if n < 32 then k < TWO32 else k < TWO63 && High(k) / Pow2(n - 32) == Low(k) / Pow2(n - 32)
    case ARSH =>
      if n < 32 then High(k) == if ToInt32(k) < 0 then Pow2(n) - 1 else 0
      else High(k) / Pow2(n - 32) == Low(ToInt32(k) / Pow2(n - 32))
    case _ => ApplyWords(op, k, n) < TWO32
  }

  /* ----- quotients and powers ----- */

  lemma Halves(k: int)
    ensures k == High(k) * TWO32 + Low(k) && 0 <= Low(k) < TWO32
  {}

  lemma Quotient(m: int, p: int, q: int)
    requires p > 0 && q * p <= m < q * p + p
    ensures m / p == q && m % p == m - q * p
  {
    var d, r := m / p, m % p;
    assert m == d * p + r;
    assert (d - q) * p == d * p - q * p;
    if d > q {
      Multiple(d - q, p);
    } else if d < q {
      Multiple(q - d, p);
    }
  }

  lemma {:induction false} Multiple(d: int, p: int)
    requires d > 0 && p > 0
    ensures d * p >= p && d * p >= d
    decreases d
  {
    if d == 1 {
    } else {
      Multiple(d - 1, p);
      assert d * p == (d - 1) * p + p;
    }
  }

  lemma LowOfWord(x: int)
    ensures Low(ToU64(x)) == Low(x)
  {
    var q, r := x / TWO64, ToU64(x);
    Halves(r);
    Quotient(x, TWO32, q * TWO32 + High(r));
  }

  /** Adding multiples of d * p before dividing by p. */
  lemma DivideSum(a: int, b: int, d: int, p: int)
    requires p > 0
    ensures (a * (d * p) + b) / p == a * d + b / p
  {
    var q := a * d + b / p;
    assert a * (d * p) == (a * d) * p;
    assert (a * d + b / p) * p == (a * d) * p + (b / p) * p;
    Quotient(a * (d * p) + b, p, q);
  }

  lemma DivideTwice(k: int, c: int, p: int)
    requires c > 0 && p > 0
    ensures c * p > 0 && k / (c * p) == k / c / p
  {
    Multiple(c, p);
    var q, r, t := k / c / p, k / c % p, k % c;
    assert k == (q * p + r) * c + t;
    assert (q * p + r) * c == q * (c * p) + r * c;
    RestBelow(r, p, c, t);
    Quotient(k, c * p, q);
  }

  /** A remainder r of p and a remainder t of c make a remainder of c * p. */
  lemma RestBelow(r: int, p: int, c: int, t: int)
    requires 0 <= r < p && 0 <= t < c
    ensures 0 <= r * c + t < c * p
  {
    ProductSign(r, c);
    ProductGrows(p, r + 1, c);
  }

  /* ----- shifts ----- */

  /** Shifting by less than 32 bits: the high half moves into the low one. */
  lemma ShiftHalves(k: int, n: nat)
    requires n < 32
    ensures k / Pow2(n) == High(k) * Pow2(32 - n) + Low(k) / Pow2(n)
    ensures Pow2(32 - n) * Pow2(n) == TWO32
  {
    PowSum(32 - n, n);
    PowOf32();
    Halves(k);
    DivideSum(High(k), Low(k), Pow2(32 - n), Pow2(n));
  }

  /** Shifting by 32 bits or more: what is left of the high half. */
  lemma ShiftHigh(k: int, n: nat)
    requires n >= 32
    ensures k / Pow2(n) == High(k) / Pow2(n - 32)
  {
    PowSum(32, n - 32);
    PowOf32();
    DivideTwice(k, TWO32, Pow2(n - 32));
  }

  lemma NoMultiple(a: int, p: int)
    requires p > 0
    ensures a * p == 0 <==> a == 0
  {
    if a > 0 { Multiple(a, p); }
    if a < 0 {
      Multiple(-a, p);
      assert (-a) * p == -(a * p);
    }
  }

  lemma NegativeShift(k: U64, n: nat)
    requires n < 64 && k >= TWO63
    ensures ToU64(ToSigned(k) / Pow2(n)) >= TWO63
  {
    NegativeQuotient(k - TWO64, Pow2(n));
    ToU64OfSigned((k - TWO64) / Pow2(n));
  }

  lemma SmallShift(k: int, n: nat)
    ensures 0 <= Low(k) / Pow2(n) < TWO32
  {
    QuotientShrinks(Low(k), Pow2(n));
  }

  lemma LowShift(k: U64, n: nat)
    requires n < 32
    ensures k / Pow2(n) == Low(k) / Pow2(n) <==> k < TWO32
  {
    ShiftHalves(k, n);
    NoMultiple(High(k), Pow2(32 - n));
  }

  lemma ReadShift(k: U64, n: nat)
    requires n < 64 && k < TWO63
    ensures ToU64(ToSigned(k) / Pow2(n)) == k / Pow2(n)
  {
    QuotientShrinks(k, Pow2(n));
  }

  lemma RightShiftLow(k: U64, n: nat)
    requires n < 32
    ensures ToU64(ToSigned(k) / Pow2(n)) == Low(k) / Pow2(n) <==> k < TWO32
  {
    SmallShift(k, n);
    if k >= TWO63 {
      NegativeShift(k, n);
    } else {
      ReadShift(k, n);
      LowShift(k, n);
    }
  }

  lemma RightShiftHigh(k: U64, n: nat)
    requires 32 <= n < 64
    ensures ToU64(ToSigned(k) / Pow2(n)) == Low(k) / Pow2(n - 32) <==> k < TWO63 && High(k) / Pow2(n - 32) == Low(k) / Pow2(n - 32)
  {
    SmallShift(k, n - 32);
    if k >= TWO63 {
      NegativeShift(k, n);
    } else {
      ReadShift(k, n);
      ShiftHigh(k, n);
    }
  }

  /** The sign bit of the low half goes on into the bits above: 2 to the n - 1 of them. */
  lemma SignedLowShift(k: U64, n: nat)
    requires n < 32 && ToInt32(k) < 0
    ensures Low(ToInt32(k) / Pow2(n)) == TWO32 - Pow2(32 - n) + Low(k) / Pow2(n)
  {
    var p := Pow2(n);
    ShiftHalves(k, n);
    DivideSum(-1, Low(k), Pow2(32 - n), p);
    NegativeQuotient(Low(k) - TWO32, p);
    assert ToInt32(k) / p == -Pow2(32 - n) + Low(k) / p;
    Quotient(ToInt32(k) / p, TWO32, -1);
  }

  lemma FullMultiple(h: int, m: int, c: int)
    requires c > 0 && c * m == TWO32
    ensures h * c == TWO32 - c <==> h == m - 1
  {
    assert m * c == c * m;
    assert (m - 1 - h) * c == m * c - c - h * c;
    NoMultiple(m - 1 - h, c);
  }

  lemma SignedShift(k: U64, n: nat)
    requires n < 32 && ToInt32(k) < 0
    ensures k / Pow2(n) == Low(ToInt32(k) / Pow2(n)) <==> High(k) == Pow2(n) - 1
  {
    var c, x := Pow2(32 - n), Low(k) / Pow2(n);
    SignedLowShift(k, n);
    ShiftHalves(k, n);
    assert k / Pow2(n) == High(k) * c + x && Low(ToInt32(k) / Pow2(n)) == TWO32 - c + x;
    FullMultiple(High(k), Pow2(n), c);
  }

  lemma ArithmeticLow(k: U64, n: nat)
    requires n < 32
    ensures k / Pow2(n) == Low(ToInt32(k) / Pow2(n)) <==> High(k) == if ToInt32(k) < 0 then Pow2(n) - 1 else 0
  {
    if ToInt32(k) < 0 { SignedShift(k, n); } else { UnsignedLowShift(k, n); }
  }

  lemma UnsignedLowShift(k: U64, n: nat)
    requires n < 32 && ToInt32(k) >= 0
    ensures k / Pow2(n) == Low(ToInt32(k) / Pow2(n)) <==> High(k) == 0
  {
    SmallShift(k, n);
    LowShift(k, n);
    LowIsSelf(Low(k) / Pow2(n));
    Halves(k);
  }

  /** Multiplying keeps the low half of what the low halves give. */
  lemma LowProduct(k: int, m: int)
    ensures Low(Low(k) * m) == Low(k * m)
  {
    Halves(k);
    Halves(Low(k) * m);
    assert k * m == (High(k) * m) * TWO32 + Low(k) * m;
    Quotient(k * m, TWO32, High(k) * m + High(Low(k) * m));
  }

  /** What is shifted out of the low half. */
  lemma HighProduct(x: int)
    ensures ToU64(x * TWO32) == Low(x) * TWO32
  {
    Halves(x);
    Quotient(x * TWO32, TWO64, High(x));
  }

  lemma LeftShiftLow(k: U64, n: nat)
    ensures ToU64(k * Pow2(n)) == Low(Low(k) * Pow2(n)) <==> ToU64(k * Pow2(n)) < TWO32
  {
    LowProduct(k, Pow2(n));
    LowOfWord(k * Pow2(n));
    Halves(ToU64(k * Pow2(n)));
  }

  lemma LeftShiftHigh(k: U64, n: nat)
    requires n >= 32
    ensures ToU64(k * Pow2(n)) == Low(Low(k) * Pow2(n - 32)) <==> ToU64(k * Pow2(n)) < TWO32
  {
    var m := Pow2(n - 32);
    LowProduct(k, m);
    PowSum(n - 32, 32);
    PowOf32();
    assert k * (m * TWO32) == (k * m) * TWO32;
    HighProduct(k * m);
  }

  /* ----- division ----- */

  /** The high halves decide. */
  lemma Between(e: int, r: int, c: int, d: int)
    requires 0 <= r < d <= TWO32
    ensures 0 <= e * TWO32 + r < c * TWO32 + d <==> 0 <= e <= c
  {}

  lemma QuotientIff(k: int, n: int, q: int)
    requires n > 0
    ensures k / n == q <==> 0 <= k - q * n < n
  {
    if 0 <= k - q * n < n { Quotient(k, n, q); }
  }

  lemma QuotientHalves(a: int, c: int, d: int, q: int, r: int)
    requires c >= 0 && 0 <= r < d <= TWO32
    ensures (a * TWO32 + (q * d + r)) / (c * TWO32 + d) == q <==> q * c <= a <= q * c + c
  {
    var k, n, p := a * TWO32 + (q * d + r), c * TWO32 + d, q * c;
    assert q * n == p * TWO32 + q * d by {
      assert q * (c * TWO32) == p * TWO32;
    }
    QuotientIff(k, n, q);
    Between(a - p, r, c, d);
  }

  lemma Quotients(k: U64, n: U64)
    requires Low(n) > 0
    ensures k / n == Low(k) / Low(n) <==> NarrowAgrees(DIV, k, n)
  {
    var q, r := Low(k) / Low(n), Low(k) % Low(n);
    Halves(k);
    Halves(n);
    assert Low(k) == q * Low(n) + r;
    QuotientHalves(High(k), High(n), Low(n), q, r);
  }

  lemma HighQuotient(a: int, b: int, c: int)
    requires c > 0 && 0 <= b < TWO32
    ensures (a * TWO32 + b) / (c * TWO32) == a / c && (a * TWO32 + b) % (c * TWO32) == a % c * TWO32 + b
  {
    var q, r := a / c, a % c;
    assert a == q * c + r;
    assert q * (c * TWO32) == (q * c) * TWO32;
    Quotient(a * TWO32 + b, c * TWO32, q);
  }

  lemma QuotientOfHigh(k: U64, n: U64)
    requires n > 0 && Low(n) == 0
    ensures k / n == 0 <==> NarrowAgrees(DIV, k, n)
    ensures k % n == Low(k) <==> NarrowAgrees(MOD, k, n)
  {
    Halves(k);
    Halves(n);
    HighQuotient(High(k), Low(k), High(n));
    NoQuotient(High(k), High(n));
  }

  lemma NoQuotient(a: int, c: int)
    requires a >= 0 && c > 0
    ensures a / c == 0 <==> a < c
  {
    QuotientIff(a, c, 0);
  }

  lemma Remainders(k: U64, n: U64)
    requires Low(n) > 0
    ensures k % n == Low(k) % Low(n) <==> NarrowAgrees(MOD, k, n)
  {
    var r := Low(k) % Low(n);
    Halves(n);
    assert 0 <= r < n;
    var q := (k - r) / n;
    if (k - r) % n == 0 {
      assert k - r == q * n;
      Quotient(k, n, q);
    } else if k % n == r {
      assert k - r == (k / n) * n;
      Quotient(k - r, n, k / n);
    }
  }

  /* ----- all operations ----- */

  lemma ShiftAgrees(op: BinOp, k: U64, n: U64)
    requires n < 64 && (op.LSH? || op.RSH? || op.ARSH?)
    ensures ApplyWords(op, k, n) == NarrowOp(op, k, n) <==> NarrowAgrees(op, k, n)
  {
    assert n % 32 == if n < 32 then n else n - 32;
    match op {
      case LSH => if n < 32 { LeftShiftLow(k, n); } else { LeftShiftHigh(k, n); }
      case RSH => if n < 32 { RightShiftLow(k, n); } else { RightShiftHigh(k, n); }
      case ARSH => if n < 32 { ArithmeticLow(k, n); } else { ShiftHigh(k, n); }
    }
  }

  lemma DivisionAgrees(op: BinOp, k: U64, n: U64)
    requires n != 0 && (op.DIV? || op.MOD?)
    ensures ApplyWords(op, k, n) == NarrowOp(op, k, n) <==> NarrowAgrees(op, k, n)
  {
    if Low(n) == 0 {
      QuotientOfHigh(k, n);
    } else if op.DIV? {
      Quotients(k, n);
    } else {
      Remainders(k, n);
    }
  }

  lemma LowIsSelf(v: int)
    requires v >= 0
    ensures v == Low(v) <==> v < TWO32
  {
    Halves(v);
  }

  lemma LowSum(k: int, n: int)
    ensures Low(Low(k) + Low(n)) == Low(k + n) && Low(Low(k) - Low(n)) == Low(k - n)
  {
    Halves(k);
    Halves(n);
    Halves(Low(k) + Low(n));
    Halves(Low(k) - Low(n));
    Quotient(k + n, TWO32, High(k) + High(n) + High(Low(k) + Low(n)));
    Quotient(k - n, TWO32, High(k) - High(n) + High(Low(k) - Low(n)));
  }

  lemma LowProducts(k: int, n: int)
    ensures Low(Low(k) * Low(n)) == Low(k * n)
  {
    LowProduct(k, Low(n));
    LowProduct(n, k);
    assert Low(n) * k == k * Low(n) && n * k == k * n;
  }

  lemma LowBits(op: BinOp, k: U64, n: U64)
    requires op.OR? || op.AND? || op.XOR?
    ensures BitByBit(op, Low(k), Low(n), 32) == Low(ApplyWords(op, k, n))
  {
    PowOf32();
    WordsCombine(op, k, n);
    CombineLow(BitwiseOf(op), k, n, 32);
    BitByBitIs(op, Low(k), Low(n), 32);
    LowTwice(Combine(BitwiseOf(op), k, n));
  }

  lemma LowTwice(x: int)
    ensures Low(Low(x)) == Low(x)
  {
    Halves(x);
    LowIsSelf(Low(x));
  }

  lemma LowAgrees(op: BinOp, k: U64, n: U64)
    requires op.ADD? || op.SUB? || op.MUL? || op.OR? || op.AND? || op.XOR?
    ensures NarrowOp(op, k, n) == Low(ApplyWords(op, k, n)) && ApplyWords(op, k, n) >= 0
  {
    if op.ADD? {
      LowSum(k, n);
      LowOfWord(k + n);
    } else if op.SUB? {
      LowSum(k, n);
      LowOfWord(k - n);
    } else if op.MUL? {
      LowProducts(k, n);
      LowOfWord(k * n);
    } else {
      LowBits(op, k, n);
    }
  }

  /**
    A 32-bit instruction is computed for a pair of words exactly when the halves
    of the words agree so: for most operations, when the result fits 32 bits.
   */
  lemma NarrowAgreesIff(op: BinOp, k: U64, n: U64)
    requires Defined(op, n)
    ensures Apply(OnWords(op), k, n) == NarrowOp(op, k, n) <==> NarrowAgrees(op, k, n)
  {
    if op.DIV? || op.MOD? {
      DivisionAgrees(op, k, n);
    } else if op.LSH? || op.RSH? || op.ARSH? {
      ShiftAgrees(op, k, n);
    } else {
      LowAgrees(op, k, n);
      LowIsSelf(ApplyWords(op, k, n));
    }
  }
}
