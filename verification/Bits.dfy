/**
  Powers of two, binary digits and the bitwise operations on natural numbers.
 */
module Bits {

  function Pow2(n: nat): (p: int)
    ensures p > 0
  {
    if n == 0 then 1 else 2 * Pow2(n - 1)
  }

  /** The i-th binary digit. */
  function Bit(x: int, i: nat): (d: int)
    ensures 0 <= d < 2
  {
    x / Pow2(i) % 2
  }

  datatype Bitwise = Or | And | Xor

  /** The operation on one pair of digits, as in C++. */
  function Digit(op: Bitwise, x: int, y: int): (d: int)
    ensures d == 0 || d == 1
  {
    match op
    case Or => if x != 0 || y != 0 then 1 else 0
    case And => if x != 0 && y != 0 then 1 else 0
    case Xor => if x == y then 0 else 1
  }

  /** The operation on two numbers, from the last digit on. */
  function Combine(op: Bitwise, a: nat, b: nat): (r: nat)
    decreases a + b
  {
    if a == 0 && b == 0 then 0 else 2 * Combine(op, a / 2, b / 2) + Digit(op, a % 2, b % 2)
  }

  /* ----- digits ----- */

  lemma {:induction false} HalfTwice(x: int, p: int)
    requires p > 0
    ensures x / (2 * p) == x / 2 / p
  {
    var q, r := x / 2 / p, x / 2 % p;
    assert x / 2 == q * p + r;
    assert q * (2 * p) == 2 * (q * p);
    UniqueQuotient(x, 2 * p, q);
  }

  lemma UniqueQuotient(x: int, p: int, q: int)
    requires p > 0 && q * p <= x < q * p + p
    ensures x / p == q
  {
    var d := x / p;
    assert x == d * p + x % p;
    assert (d - q) * p == d * p - q * p;
    if d > q {
      ProductAtLeast(d - q, p);
    } else if d < q {
      ProductAtLeast(q - d, p);
    }
  }

  lemma {:induction false} ProductAtLeast(d: int, p: int)
    requires d > 0 && p > 0
    ensures d * p >= p
    decreases d
  {
    if d == 1 {
    } else {
      ProductAtLeast(d - 1, p);
      assert d * p == (d - 1) * p + p;
    }
  }

  lemma BitShift(x: int, i: nat)
    ensures Bit(x, 0) == x % 2 && Bit(x, i + 1) == Bit(x / 2, i)
  {
    HalfTwice(x, Pow2(i));
  }

  lemma CombineIs(op: Bitwise, a: nat, b: nat)
    ensures Combine(op, a, b) == 2 * Combine(op, a / 2, b / 2) + Digit(op, a % 2, b % 2)
  {
    if a == 0 && b == 0 {
      assert Combine(op, 0, 0) == 0 && Digit(op, 0, 0) == 0;
    }
  }

  lemma CombineStep(op: Bitwise, a: nat, b: nat)
    ensures Combine(op, a, b) == 2 * Combine(op, a / 2, b / 2) + Digit(op, a % 2, b % 2)
    ensures Combine(op, a, b) % 2 == Digit(op, a % 2, b % 2) && Combine(op, a, b) / 2 == Combine(op, a / 2, b / 2)
  {
    CombineIs(op, a, b);
    Halve(Combine(op, a, b), Combine(op, a / 2, b / 2), Digit(op, a % 2, b % 2));
  }

  lemma Halve(r: int, c: int, d: int)
    requires r == 2 * c + d && (d == 0 || d == 1)
    ensures r % 2 == d && r / 2 == c
  {}

  lemma CombineDouble(op: Bitwise, a: nat, b: nat, x: int, y: int)
    requires (x == 0 || x == 1) && (y == 0 || y == 1)
    ensures Combine(op, 2 * a + x, 2 * b + y) == 2 * Combine(op, a, b) + Digit(op, x, y)
  {
    DoubleAnd(a, x);
    DoubleAnd(b, y);
    CombineStep(op, 2 * a + x, 2 * b + y);
  }

  lemma DoubleAnd(c: int, d: int)
    requires d == 0 || d == 1
    ensures (2 * c + d) % 2 == d && (2 * c + d) / 2 == c
  {}

  /** Every digit of the result is the operation on the digits of the operands. */
  lemma {:induction false} CombineBit(op: Bitwise, a: nat, b: nat, i: nat)
    ensures Bit(Combine(op, a, b), i) == Digit(op, Bit(a, i), Bit(b, i))
    decreases i
  {
    CombineStep(op, a, b);
    BitShift(a, if i == 0 then 0 else i - 1);
    BitShift(b, if i == 0 then 0 else i - 1);
    BitShift(Combine(op, a, b), if i == 0 then 0 else i - 1);
    if i == 0 {
    } else {
      CombineBit(op, a / 2, b / 2, i - 1);
    }
  }

  lemma {:induction false} CombineBelow(op: Bitwise, a: nat, b: nat, n: nat)
    requires a < Pow2(n) && b < Pow2(n)
    ensures Combine(op, a, b) < Pow2(n)
    decreases n
  {
    CombineStep(op, a, b);
    if n == 0 {
    } else {
      CombineBelow(op, a / 2, b / 2, n - 1);
    }
  }

  /** Numbers of n digits with the same digits are the same. */
  lemma {:induction false} SameDigits(x: nat, y: nat, n: nat)
    requires x < Pow2(n) && y < Pow2(n) && forall i: nat :: i < n ==> Bit(x, i) == Bit(y, i)
    ensures x == y
    decreases n
  {
    if n == 0 {
    } else {
      forall i: nat | i < n - 1
        ensures Bit(x / 2, i) == Bit(y / 2, i)
      {
        BitShift(x, i);
        BitShift(y, i);
        assert Bit(x, i + 1) == Bit(y, i + 1);
      }
      SameDigits(x / 2, y / 2, n - 1);
      assert Bit(x, 0) == Bit(y, 0);
    }
  }

  lemma {:induction false} LowHalf(x: nat, n: nat)
    requires n > 0
    ensures x % Pow2(n) == 2 * (x / 2 % Pow2(n - 1)) + x % 2
  {
    var p := Pow2(n - 1);
    HalfTwice(x, p);
    var q := x / 2 / p;
    assert x / 2 == q * p + x / 2 % p;
    assert x == q * (2 * p) + x % (2 * p);
    assert q * (2 * p) == 2 * (q * p);
  }

  /** The last n digits of the result come from those of the operands. */
  lemma {:induction false} CombineLow(op: Bitwise, a: nat, b: nat, n: nat)
    ensures Combine(op, a, b) % Pow2(n) == Combine(op, a % Pow2(n), b % Pow2(n))
    decreases n
  {
    if n == 0 {
    } else {
      var p := Pow2(n - 1);
      LowHalf(a, n);
      LowHalf(b, n);
      LowHalf(Combine(op, a, b), n);
      CombineStep(op, a, b);
      CombineLow(op, a / 2, b / 2, n - 1);
      CombineDouble(op, a / 2 % p, b / 2 % p, a % 2, b % 2);
    }
  }

  /** Some digit of a common number is 1 exactly when the number is not 0. */
  lemma {:induction false} SomeDigit(x: nat, n: nat)
    requires x < Pow2(n)
    ensures x != 0 <==> exists i: nat :: i < n && Bit(x, i) == 1
    decreases n
  {
    if n == 0 {
    } else {
      SomeDigit(x / 2, n - 1);
      if i: nat :| i < n - 1 && Bit(x / 2, i) == 1 {
        BitShift(x, i);
        assert Bit(x, i + 1) == 1;
      }
      if i: nat :| i < n && Bit(x, i) == 1 {
        if i == 0 { BitShift(x, 0); } else { BitShift(x, i - 1); }
      }
      if x % 2 == 1 {
        BitShift(x, 0);
        assert Bit(x, 0) == 1;
      }
    }
  }

  /* ----- powers ----- */

  lemma {:induction false} PowSum(a: nat, b: nat)
    ensures Pow2(a + b) == Pow2(a) * Pow2(b)
    decreases a
  {
    if a == 0 {
    } else {
      PowSum(a - 1, b);
      assert Pow2(a + b) == 2 * Pow2(a - 1 + b);
      assert 2 * (Pow2(a - 1) * Pow2(b)) == (2 * Pow2(a - 1)) * Pow2(b);
    }
  }

  lemma PowOf32()
    ensures Pow2(32) == 0x1_0000_0000
  {
    PowSum(16, 16);
    PowSum(8, 8);
    assert Pow2(8) == 256;
  }

  lemma PowOf64()
    ensures Pow2(64) == 0x1_0000_0000_0000_0000
  {
    PowSum(32, 32);
    PowOf32();
  }

  /** The highest of w digits. */
  lemma TopDigit(x: int, w: nat)
    ensures x % Pow2(w + 1) == Bit(x, w) * Pow2(w) + x % Pow2(w)
  {
    var p := Pow2(w);
    var q := x / p;
    HighDigit(x, p, q / 2, q % 2, x % p);
  }

  lemma HighDigit(x: int, p: int, h: int, d: int, r: int)
    requires 0 <= r < p && (d == 0 || d == 1) && x == (2 * h + d) * p + r
    ensures x % (2 * p) == d * p + r
  {
    assert (2 * h + d) * p == h * (2 * p) + d * p;
    UniqueQuotient(x, 2 * p, h);
  }
}
