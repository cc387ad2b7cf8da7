/**
  The value sets of the abstract interpreter: NumDomSet (64-bit words) and
  OffsetDomSet (pointer offsets). Both are a flag `top` and a vector of
  elements that the forward operations keep strictly increasing.
 */
module SetDomains {
  import opened Syntax
  import opened Bits

  datatype IntSet = IntSet(top: bool, elems: seq<int>) {
    predicate IsBot() { !top && elems == [] }
    predicate IsSingle() { !top && |elems| == 1 }
    predicate Has(x: int) { top || x in elems }
    predicate Ordered() { Sorted(elems) }
  }

  const BOT: IntSet := IntSet(false, [])
  const TOP: IntSet := IntSet(true, [])

  function Single(x: int): IntSet { IntSet(false, [x]) }

  /** Every element of x is an element of y. */
  ghost predicate Included(x: IntSet, y: IntSet) {
    y.top || (!x.top && forall e :: e in x.elems ==> e in y.elems)
  }

  /* ----- the sorted-vector algorithms of the C++ standard library ----- */

  predicate Sorted(s: seq<int>) {
    forall i, j :: 0 <= i < j < |s| ==> s[i] < s[j]
  }

  function SetUnion(a: seq<int>, b: seq<int>): seq<int>
    decreases |a| + |b|
  {
    if a == [] then b
    else if b == [] then a
    else if a[0] < b[0] then [a[0]] + SetUnion(a[1..], b)
    else if b[0] < a[0] then [b[0]] + SetUnion(a, b[1..])
    else [a[0]] + SetUnion(a[1..], b[1..])
  }

  function SetIntersection(a: seq<int>, b: seq<int>): seq<int>
    decreases |a| + |b|
  {
    if a == [] || b == [] then []
    else if a[0] < b[0] then SetIntersection(a[1..], b)
    else if b[0] < a[0] then SetIntersection(a, b[1..])
    else [a[0]] + SetIntersection(a[1..], b[1..])
  }

  function SetDifference(a: seq<int>, b: seq<int>): seq<int>
    decreases |a| + |b|
  {
    if a == [] || b == [] then a
    else if a[0] < b[0] then [a[0]] + SetDifference(a[1..], b)
    else if b[0] < a[0] then SetDifference(a, b[1..])
    else SetDifference(a[1..], b[1..])
  }

  /** Insertion into an ordered set without duplicates. */
  function Insert(s: seq<int>, x: int): seq<int> {
    if s == [] then [x]
    else if x < s[0] then [x] + s
    else if x == s[0] then s
    else [s[0]] + Insert(s[1..], x)
  }

  lemma ConsSorted(h: int, t: seq<int>)
    requires Sorted(t) && forall e :: e in t ==> h < e
    ensures Sorted([h] + t)
  {
    var s := [h] + t;
    forall i, j | 0 <= i < j < |s|
      ensures s[i] < s[j]
    {
      assert s[j] == t[j - 1] && t[j - 1] in t;
      assert i > 0 ==> s[i] == t[i - 1];
    }
  }

  /** Merging loses and invents no element, sorted or not. */
  lemma {:induction false} UnionMembers(a: seq<int>, b: seq<int>, x: int)
    ensures x in SetUnion(a, b) <==> x in a || x in b
    decreases |a| + |b|
  {
    if a == [] || b == [] {
    } else if a[0] < b[0] {
      assert a == [a[0]] + a[1..];
      UnionMembers(a[1..], b, x);
    } else if b[0] < a[0] {
      assert b == [b[0]] + b[1..];
      UnionMembers(a, b[1..], x);
    } else {
      assert a == [a[0]] + a[1..] && b == [b[0]] + b[1..];
      UnionMembers(a[1..], b[1..], x);
    }
  }

  lemma {:induction false} UnionSorted(a: seq<int>, b: seq<int>)
    requires Sorted(a) && Sorted(b)
    ensures Sorted(SetUnion(a, b))
    decreases |a| + |b|
  {
    if a == [] || b == [] {
    } else {
      var (a', b') := if a[0] < b[0] then (a[1..], b) else if b[0] < a[0] then (a, b[1..]) else (a[1..], b[1..]);
      UnionSorted(a', b');
      var h := if b[0] < a[0] then b[0] else a[0];
      forall e | e in SetUnion(a', b')
        ensures h < e
      {
        UnionMembers(a', b', e);
      }
      ConsSorted(h, SetUnion(a', b'));
    }
  }

  lemma {:induction false} IntersectionMembers(a: seq<int>, b: seq<int>, x: int)
    requires Sorted(a) && Sorted(b)
    ensures x in SetIntersection(a, b) <==> x in a && x in b
    decreases |a| + |b|
  {
    if a == [] || b == [] {
    } else {
      assert a == [a[0]] + a[1..] && b == [b[0]] + b[1..];
      if a[0] < b[0] {
        IntersectionMembers(a[1..], b, x);
      } else if b[0] < a[0] {
        IntersectionMembers(a, b[1..], x);
      } else {
        IntersectionMembers(a[1..], b[1..], x);
      }
    }
  }

  lemma {:induction false} IntersectionSorted(a: seq<int>, b: seq<int>)
    requires Sorted(a) && Sorted(b)
    ensures Sorted(SetIntersection(a, b))
    decreases |a| + |b|
  {
    if a == [] || b == [] {
    } else if a[0] < b[0] {
      IntersectionSorted(a[1..], b);
    } else if b[0] < a[0] {
      IntersectionSorted(a, b[1..]);
    } else {
      IntersectionSorted(a[1..], b[1..]);
      forall e | e in SetIntersection(a[1..], b[1..])
        ensures a[0] < e
      {
        IntersectionMembers(a[1..], b[1..], e);
      }
      ConsSorted(a[0], SetIntersection(a[1..], b[1..]));
    }
  }

  lemma {:induction false} DifferenceMembers(a: seq<int>, b: seq<int>, x: int)
    requires Sorted(a) && Sorted(b)
    ensures x in SetDifference(a, b) <==> x in a && x !in b
    decreases |a| + |b|
  {
    if a == [] || b == [] {
    } else {
      assert a == [a[0]] + a[1..] && b == [b[0]] + b[1..];
      if a[0] < b[0] {
        DifferenceMembers(a[1..], b, x);
      } else if b[0] < a[0] {
        DifferenceMembers(a, b[1..], x);
      } else {
        DifferenceMembers(a[1..], b[1..], x);
      }
    }
  }

  lemma {:induction false} DifferenceSorted(a: seq<int>, b: seq<int>)
    requires Sorted(a) && Sorted(b)
    ensures Sorted(SetDifference(a, b))
    decreases |a| + |b|
  {
    if a == [] || b == [] {
    } else if a[0] < b[0] {
      DifferenceSorted(a[1..], b);
      forall e | e in SetDifference(a[1..], b)
        ensures a[0] < e
      {
        DifferenceMembers(a[1..], b, e);
      }
      ConsSorted(a[0], SetDifference(a[1..], b));
    } else if b[0] < a[0] {
      DifferenceSorted(a, b[1..]);
    } else {
      DifferenceSorted(a[1..], b[1..]);
    }
  }

  lemma {:induction false} InsertMembers(s: seq<int>, v: int, x: int)
    ensures x in Insert(s, v) <==> x in s || x == v
  {
    if s == [] || v <= s[0] {
    } else {
      assert s == [s[0]] + s[1..];
      InsertMembers(s[1..], v, x);
    }
  }

  lemma {:induction false} InsertSorted(s: seq<int>, v: int)
    requires Sorted(s)
    ensures Sorted(Insert(s, v))
  {
    if s != [] && v > s[0] {
      InsertSorted(s[1..], v);
      forall e | e in Insert(s[1..], v)
        ensures s[0] < e
      {
        InsertMembers(s[1..], v, e);
      }
      ConsSorted(s[0], Insert(s[1..], v));
    } else if s != [] && v < s[0] {
      ConsSorted(v, s);
    }
  }

  /** A strictly increasing vector is determined by its elements. */
  lemma {:induction false} SortedUnique(a: seq<int>, b: seq<int>)
    requires Sorted(a) && Sorted(b)
    requires forall x :: x in a <==> x in b
    ensures a == b
  {
    if a != [] {
      assert a[0] in a;
    }
    if b != [] {
      assert b[0] in b;
    }
    if a == [] {
    } else {
      assert a == [a[0]] + a[1..] && b == [b[0]] + b[1..];
      assert a[0] == b[0];
      forall x ensures x in a[1..] <==> x in b[1..] {
        assert x in a <==> x in b;
      }
      SortedUnique(a[1..], b[1..]);
    }
  }

  /* ----- join and meet ----- */

  function Join(x: IntSet, y: IntSet): IntSet {
    if x.top || y.top then TOP else IntSet(false, SetUnion(x.elems, y.elems))
  }

  function Meet(x: IntSet, y: IntSet): IntSet {
    if y.top then x else if x.top then y else IntSet(false, SetIntersection(x.elems, y.elems))
  }

  lemma JoinHas(x: IntSet, y: IntSet, e: int)
    ensures Join(x, y).Has(e) <==> x.Has(e) || y.Has(e)
  {
    UnionMembers(x.elems, y.elems, e);
  }

  lemma JoinHasAll(x: IntSet, y: IntSet)
    ensures forall e :: Join(x, y).Has(e) <==> x.Has(e) || y.Has(e)
    ensures x.Ordered() && y.Ordered() ==> Join(x, y).Ordered()
  {
    forall e
      ensures Join(x, y).Has(e) <==> x.Has(e) || y.Has(e)
    {
      JoinHas(x, y, e);
    }
    if x.Ordered() && y.Ordered() { UnionSorted(x.elems, y.elems); }
  }

  /** A meet holds exactly what both operands hold, and stays in order; a top operand leaves the other as it is. */
  lemma MeetHas(x: IntSet, y: IntSet)
    requires x.Ordered() && y.Ordered()
    ensures Meet(x, y).Ordered()
    ensures forall e :: Meet(x, y).Has(e) <==> x.Has(e) && y.Has(e)
  {
    IntersectionSorted(x.elems, y.elems);
    forall e
      ensures e in SetIntersection(x.elems, y.elems) <==> e in x.elems && e in y.elems
    {
      IntersectionMembers(x.elems, y.elems, e);
    }
  }

  lemma JoinIncludes(x: IntSet, y: IntSet)
    ensures Included(x, Join(x, y)) && Included(y, Join(x, y))
  {
    forall e { UnionMembers(x.elems, y.elems, e); }
  }

  lemma JoinBot(x: IntSet, y: IntSet)
    ensures Join(x, y).IsBot() <==> x.IsBot() && y.IsBot()
  {}

  /* ----- arithmetic ----- */

  /** The operation applied to one pair: on two words, on an offset and a word, or on two offsets. */
  datatype Arith = OnWords(op: BinOp) | OffsetPlus | OffsetMinus | OffsetDiff

  /** C++ defines the operation with this right operand. */
  predicate Defined(op: BinOp, n: int) {
    match op
    case MOV => false
    case DIV => n != 0
    case MOD => n != 0
    case LSH => 0 <= n < 64
    case RSH => 0 <= n < 64
    case ARSH => 0 <= n < 64
    case _ => true
  }

  /** What `exec` computes for one pair, where it is defined: RSH shifts the signed reading, ARSH the unsigned one. */
  function Apply(a: Arith, k: int, n: int): int {
    match a
    case OnWords(op) => if Defined(op, n) then ApplyWords(op, k, n) else 0
    case OffsetPlus => k + ToInt32(n)
    case OffsetMinus => k - ToInt32(n)
    case OffsetDiff => k - n
  }

  function ApplyWords(op: BinOp, k: int, n: int): int
    requires Defined(op, n)
  {
    match op
    case ADD => (k + n) % TWO64
    case SUB => (k - n) % TWO64
    case MUL => (k * n) % TWO64
    case DIV => k / n
    case MOD => k % n
    case OR => BitOp(Or, ToU64(k), ToU64(n))
    case XOR => BitOp(Xor, ToU64(k), ToU64(n))
    case AND => BitOp(And, ToU64(k), ToU64(n))
    case LSH => (k * Pow2(n)) % TWO64
    case RSH => ToU64(ToSigned(k) / Pow2(n))
    case ARSH => k / Pow2(n)
  }

  /** What a bitwise instruction does to each pair of bits. */
  function BitMeant(op: BinOp, x: int, y: int): int
    requires op.OR? || op.AND? || op.XOR?
  {
    match op
    case OR => if x >= y then x else y
    case AND => if x <= y then x else y
    case XOR => (x + y) % 2
  }

  /** The number whose last w bits are those of the operands, combined. */
  function BitByBit(op: BinOp, k: int, n: int, w: nat): int
    requires op.OR? || op.AND? || op.XOR?
  {
    if w == 0 then 0
    else BitMeant(op, Bit(k, w - 1), Bit(n, w - 1)) * Pow2(w - 1) + BitByBit(op, k, n, w - 1)
  }

  /** C++ defines the operation exactly where the instruction set makes no special provision: no division by 0, no shift amount to be cut. */
  lemma DefinedIff(op: BinOp, n: U64)
    requires !op.MOV?
    ensures Defined(op, n) <==> if op.DIV? || op.MOD? then n > 0 else if op.LSH? || op.RSH? || op.ARSH? then n == n % 64 else true
  {}

  /** Section 4.1 of RFC 9669: the 64-bit operations, total on words. */
  function WordOp(op: BinOp, k: int, n: int): int {
    match op
    case MOV => n
    case ADD => ToU64(k + n)
    case SUB => ToU64(k - n)
    case MUL => ToU64(k * n)
    case DIV => if n == 0 then 0 else k / n
    case MOD => if n == 0 then k else k % n
    case LSH => (k * Pow2(n % 64)) % TWO64
    case RSH => k / Pow2(n % 64)
    case ARSH => ToU64(ToSigned(k) / Pow2(n % 64))
    case _ => BitByBit(op, ToU64(k), ToU64(n), 64)
  }

  function BitwiseOf(op: BinOp): Bitwise
    requires op.OR? || op.AND? || op.XOR?
  {
    match op
    case OR => Or
    case AND => And
    case XOR => Xor
  }

  lemma {:induction false} BitByBitIs(op: BinOp, k: nat, n: nat, w: nat)
    requires op.OR? || op.AND? || op.XOR?
    ensures BitByBit(op, k, n, w) == Combine(BitwiseOf(op), k, n) % Pow2(w)
  {
    if w == 0 {
    } else {
      BitByBitIs(op, k, n, w - 1);
      TopDigit(Combine(BitwiseOf(op), k, n), w - 1);
      CombineMeant(op, k, n, w - 1);
    }
  }

  lemma ApplyBits(op: BinOp, k: int, n: int)
    requires op.OR? || op.AND? || op.XOR?
    ensures ApplyWords(op, k, n) == Combine(BitwiseOf(op), ToU64(k), ToU64(n))
  {}

  lemma Below64(op: Bitwise, a: U64, b: U64)
    ensures Combine(op, a, b) % Pow2(64) == Combine(op, a, b)
  {
    PowOf64();
    CombineBelow(op, a, b, 64);
  }

  lemma BitwiseIsWordOp(op: BinOp, k: int, n: int)
    requires op.OR? || op.AND? || op.XOR?
    ensures ApplyWords(op, k, n) == BitByBit(op, ToU64(k), ToU64(n), 64)
  {
    ApplyBits(op, k, n);
    Below64(BitwiseOf(op), ToU64(k), ToU64(n));
    BitByBitIs(op, ToU64(k), ToU64(n), 64);
  }

  lemma DigitMeant(op: BinOp, x: int, y: int)
    requires (op.OR? || op.AND? || op.XOR?) && 0 <= x < 2 && 0 <= y < 2
    ensures Digit(BitwiseOf(op), x, y) == BitMeant(op, x, y)
  {}

  lemma BitsMeant(op: BinOp, k: U64, n: U64, i: nat)
    requires op.OR? || op.AND? || op.XOR?
    ensures Bit(ApplyWords(op, k, n), i) == BitMeant(op, Bit(k, i), Bit(n, i))
  {
    WordsCombine(op, k, n);
    CombineMeant(op, k, n, i);
  }

  lemma WordsCombine(op: BinOp, k: U64, n: U64)
    requires op.OR? || op.AND? || op.XOR?
    ensures ApplyWords(op, k, n) == Combine(BitwiseOf(op), k, n)
  {
    WordIsSelf(k);
    WordIsSelf(n);
    ApplyBits(op, k, n);
  }

  lemma WordIsSelf(k: U64)
    ensures ToU64(k) == k
  {}

  lemma CombineMeant(op: BinOp, k: nat, n: nat, i: nat)
    requires op.OR? || op.AND? || op.XOR?
    ensures Bit(Combine(BitwiseOf(op), k, n), i) == BitMeant(op, Bit(k, i), Bit(n, i))
  {
    CombineBit(BitwiseOf(op), k, n, i);
    DigitMeant(op, Bit(k, i), Bit(n, i));
  }

  lemma BitMeantIs(op: BinOp, x: int, y: int)
    requires op.OR? || op.AND? || op.XOR?
    ensures BitMeant(op, x, y) ==
            if op.OR? then (if x >= y then x else y) else if op.AND? then (if x <= y then x else y) else (x + y) % 2
  {}

  /** Bit by bit, OR is the greater, AND the less and XOR the sum modulo 2. */
  lemma WordBits(op: BinOp, k: U64, n: U64, i: nat)
    requires op.OR? || op.AND? || op.XOR?
    ensures var x, y := Bit(k, i), Bit(n, i);
            Bit(ApplyWords(op, k, n), i) ==
            if op.OR? then (if x >= y then x else y) else if op.AND? then (if x <= y then x else y) else (x + y) % 2
  {
    BitsMeant(op, k, n, i);
    BitMeantIs(op, Bit(k, i), Bit(n, i));
  }

  /** MUL adds k once more for each step of n. */
  lemma MultiplySteps(k: U64, n: nat)
    ensures ApplyWords(MUL, k, 0) == 0
    ensures ApplyWords(MUL, k, n + 1) == (ApplyWords(MUL, k, n) + k) % TWO64
  {
    assert k * (n + 1) == k * n + k;
  }

  /** Quotient and remainder of one division. */
  lemma DivideAndRest(k: U64, n: U64)
    requires n != 0
    ensures k == n * ApplyWords(DIV, k, n) + ApplyWords(MOD, k, n) && 0 <= ApplyWords(MOD, k, n) < n
  {}

  lemma WideAgrees(op: BinOp, k: int, n: int)
    requires Defined(op, n) && !op.RSH? && !op.ARSH?
    ensures ApplyWords(op, k, n) == WordOp(op, k, n)
  {
    if op.OR? || op.AND? || op.XOR? { BitwiseIsWordOp(op, k, n); }
  }

  /** The code computes what the instruction means: always, except that the right shifts of negative words are exchanged. */
  lemma ApplyMeansWordOp(op: BinOp, k: U64, n: int)
    requires Defined(op, n)
    ensures Apply(OnWords(op), k, n) == WordOp(op, k, n) <==> !(op.RSH? || op.ARSH?) || k < TWO63 || n == 0
  {
    if (op.RSH? || op.ARSH?) && k >= TWO63 {
      ShiftsDiffer(k, n);
    } else if op.RSH? || op.ARSH? {
      QuotientShrinks(k, Pow2(n));
    } else {
      WideAgrees(op, k, n);
    }
  }

  lemma {:induction false} ProductGrows(p: int, c: int, q: nat)
    requires p >= c
    ensures p * q >= c * q
    decreases p - c
  {
    if p == c {
    } else {
      ProductGrows(p - 1, c, q);
      assert p * q == (p - 1) * q + q;
    }
  }

  lemma QuotientShrinks(k: nat, p: int)
    requires p > 0
    ensures 0 <= k / p <= k && (p >= 2 ==> 2 * (k / p) <= k)
  {
    var q := k / p;
    assert k == p * q + k % p;
    ProductGrows(p, 1, q);
    if p >= 2 { ProductGrows(p, 2, q); }
  }

  lemma {:induction false} ProductSign(p: nat, q: int)
    ensures q <= 0 ==> p * q <= 0
    ensures q >= 0 ==> p * q >= 0
    decreases p
  {
    if p == 0 {
    } else {
      ProductSign(p - 1, q);
      assert p * q == (p - 1) * q + q;
    }
  }

  lemma NegativeQuotient(m: int, p: int)
    requires p > 0 && m < 0
    ensures m <= m / p < 0
  {
    FloorOf(m, p, m / p, m % p);
  }

  lemma FloorOf(m: int, p: int, q: int, r: int)
    requires p > 0 && m == p * q + r && 0 <= r < p && m < 0
    ensures m <= q < 0
  {
    ProductSign(p, q);
    ProductSign(p - 1, q + 1);
    assert (p - 1) * (q + 1) == p * q + p - q - 1;
  }

  /** On a negative word a proper shift of the signed reading keeps the sign, a shift of the unsigned one loses it. */
  lemma ShiftsDiffer(k: int, n: int)
    requires TWO63 <= k < TWO64 && 0 <= n < 64
    ensures ToU64((k - TWO64) / Pow2(n)) == k / Pow2(n) <==> n == 0
  {
    var p := Pow2(n);
    QuotientShrinks(k, p);
    NegativeQuotient(k - TWO64, p);
    ToU64OfSigned((k - TWO64) / p);
    if n > 0 { assert p >= 2; }
  }

  function RowImage(a: Arith, k: int, ns: seq<int>, acc: seq<int>): seq<int>
    decreases |ns|
  {
    if ns == [] then acc else RowImage(a, k, ns[1..], Insert(acc, Apply(a, k, ns[0])))
  }

  function Image(a: Arith, ks: seq<int>, ns: seq<int>, acc: seq<int>): seq<int>
    decreases |ks|
  {
    if ks == [] then acc else Image(a, ks[1..], ns, RowImage(a, ks[0], ns, acc))
  }

  lemma {:induction false} RowImageMembers(a: Arith, k: int, ns: seq<int>, acc: seq<int>, x: int)
    ensures x in RowImage(a, k, ns, acc) <==> x in acc || exists n :: n in ns && x == Apply(a, k, n)
    decreases |ns|
  {
    if ns == [] {
    } else {
      var acc' := Insert(acc, Apply(a, k, ns[0]));
      RowImageMembers(a, k, ns[1..], acc', x);
      InsertMembers(acc, Apply(a, k, ns[0]), x);
      assert ns == [ns[0]] + ns[1..];
    }
  }

  lemma {:induction false} ImageMembers(a: Arith, ks: seq<int>, ns: seq<int>, acc: seq<int>, x: int)
    ensures x in Image(a, ks, ns, acc) <==> x in acc || exists k, n :: k in ks && n in ns && x == Apply(a, k, n)
    decreases |ks|
  {
    if ks == [] {
    } else {
      ImageMembers(a, ks[1..], ns, RowImage(a, ks[0], ns, acc), x);
      RowImageMembers(a, ks[0], ns, acc, x);
      assert ks == [ks[0]] + ks[1..];
    }
  }

  lemma {:induction false} RowImageSorted(a: Arith, k: int, ns: seq<int>, acc: seq<int>)
    requires Sorted(acc)
    ensures Sorted(RowImage(a, k, ns, acc))
    decreases |ns|
  {
    if ns == [] {
    } else {
      InsertSorted(acc, Apply(a, k, ns[0]));
      RowImageSorted(a, k, ns[1..], Insert(acc, Apply(a, k, ns[0])));
    }
  }

  lemma {:induction false} ImageSorted(a: Arith, ks: seq<int>, ns: seq<int>, acc: seq<int>)
    requires Sorted(acc)
    ensures Sorted(Image(a, ks, ns, acc))
    decreases |ks|
  {
    if ks == [] {
    } else {
      RowImageSorted(a, ks[0], ns, acc);
      ImageSorted(a, ks[1..], ns, RowImage(a, ks[0], ns, acc));
    }
  }

  const OFFSET_LIMIT: int := 0x4000_0000

  predicate SomeLarge(a: Arith, ks: seq<int>, ns: seq<int>)
  {
    exists k, n :: k in ks && n in ns && Apply(a, k, n) > OFFSET_LIMIT
  }

  /** Both vectors are used up to their elements, so every right element must be one that C++ defines the operation on. */
  predicate Computes(op: BinOp, x: IntSet, y: IntSet) {
    x.IsBot() || y.IsBot() || x.top || y.top || forall n | n in y.elems :: Defined(op, n)
  }

  /** NumDomSet::exec. */
  function NumExec(op: BinOp, x: IntSet, y: IntSet): IntSet
    requires Computes(op, x, y)
  {
    if x.IsBot() || y.IsBot() then BOT
    else if x.top || y.top then TOP
    else IntSet(false, Image(OnWords(op), x.elems, y.elems, []))
  }

  /** OffsetDomSet::exec: an offset set plus or minus a word set. */
  function OffsetExec(add: bool, x: IntSet, y: IntSet): IntSet {
    var a := if add then OffsetPlus else OffsetMinus;
    if x.IsBot() || y.IsBot() then BOT
    else if x.top || y.top || SomeLarge(a, x.elems, y.elems) then TOP
    else IntSet(false, Image(a, x.elems, y.elems, []))
  }

  function Words(s: seq<int>): (r: seq<int>)
    ensures |r| == |s|
  {
    if s == [] then [] else [ToU64(s[0])] + Words(s[1..])
  }

  lemma {:induction false} WordsHas(s: seq<int>, x: int)
    requires x in s
    ensures ToU64(x) in Words(s)
  {
    if x == s[0] {
    } else {
      WordsHas(s[1..], x);
    }
  }

  /** OffsetDomSet::operator-: the words that are differences of two offsets. */
  function OffsetDifference(x: IntSet, y: IntSet): IntSet {
    if x.IsBot() || y.IsBot() then BOT
    else if x.top || y.top || SomeLarge(OffsetDiff, x.elems, y.elems) then TOP
    else IntSet(false, Words(Image(OffsetDiff, x.elems, y.elems, [])))
  }

  /** `exec` computes the exact wrapped image of the two sets, or top when one of them is top. */
  lemma NumExecExact(op: BinOp, x: IntSet, y: IntSet, e: int)
    requires Computes(op, x, y)
    ensures !x.top && !y.top ==>
      (NumExec(op, x, y).Has(e) <==> exists k, n :: k in x.elems && n in y.elems && e == Apply(OnWords(op), k, n))
    ensures (x.top || y.top) && !x.IsBot() && !y.IsBot() ==> NumExec(op, x, y) == TOP
    ensures NumExec(op, x, y).Ordered()
  {
    ImageMembers(OnWords(op), x.elems, y.elems, [], e);
    ImageSorted(OnWords(op), x.elems, y.elems, []);
  }

  lemma NumExecSound(op: BinOp, x: IntSet, y: IntSet, k: int, n: int)
    requires Computes(op, x, y) && x.Has(k) && y.Has(n)
    ensures NumExec(op, x, y).Has(Apply(OnWords(op), k, n))
  {
    NumExecExact(op, x, y, Apply(OnWords(op), k, n));
  }

  const TWO32: int := 0x1_0000_0000

  function Low(x: int): int {
    x % TWO32
  }

  /** The 32-bit operations of section 4.1 of RFC 9669: on the low halves, the upper half of the result cleared. */
  function NarrowOp(op: BinOp, k: int, n: int): int {
    match op
    case MOV => Low(n)
    case DIV => if Low(n) == 0 then 0 else Low(k) / Low(n)
    case MOD => if Low(n) == 0 then Low(k) else Low(k) % Low(n)
    case LSH => Low(Low(k) * Pow2(n % 32))
    case RSH => Low(k) / Pow2(n % 32)
    case ARSH => Low(ToInt32(k) / Pow2(n % 32))
    case ADD => Low(Low(k) + Low(n))
    case SUB => Low(Low(k) - Low(n))
    case MUL => Low(Low(k) * Low(n))
    case _ => BitByBit(op, Low(k), Low(n), 32)
  }

  function Meant(op: BinOp, is64: bool, k: int, n: int): int {
    if is64 then WordOp(op, k, n) else NarrowOp(op, k, n)
  }

  /** What is computed for some pair of elements. */
  predicate InImage(op: BinOp, x: IntSet, y: IntSet, v: int) {
    exists k, n :: k in x.elems && n in y.elems && Apply(OnWords(op), k, n) == v
  }

  /** The meaning of every pair of elements is computed for some pair; a top operand makes the result top. */
  predicate Covers(op: BinOp, is64: bool, x: IntSet, y: IntSet) {
    x.top || y.top || forall k, n :: k in x.elems && n in y.elems ==> InImage(op, x, y, Meant(op, is64, k, n))
  }

  /** `exec` holds what the instruction means, for every pair of values, exactly when its image covers the meanings. */
  lemma NumExecCoversIff(op: BinOp, is64: bool, x: IntSet, y: IntSet)
    requires Computes(op, x, y)
    ensures (forall k, n :: x.Has(k) && y.Has(n) ==> NumExec(op, x, y).Has(Meant(op, is64, k, n))) <==> Covers(op, is64, x, y)
  {
    if !x.top && !y.top {
      forall k, n | x.Has(k) && y.Has(n)
        ensures NumExec(op, x, y).Has(Meant(op, is64, k, n)) <==> InImage(op, x, y, Meant(op, is64, k, n))
      {
        NumExecExact(op, x, y, Meant(op, is64, k, n));
      }
    }
  }

  /** 64 bits wide, everything but the right shifts covers its meaning. */
  lemma WideCovers(op: BinOp, x: IntSet, y: IntSet)
    requires Computes(op, x, y) && !op.RSH? && !op.ARSH?
    ensures Covers(op, true, x, y)
  {
    forall k, n | !x.top && !y.top && k in x.elems && n in y.elems
      ensures InImage(op, x, y, Meant(op, true, k, n))
    {
      WideAgrees(op, k, n);
      assert Apply(OnWords(op), k, n) == Meant(op, true, k, n);
    }
  }

  /** The low half of every value is a value. */
  predicate LowClosed(x: IntSet) {
    x.top || forall n :: n in x.elems ==> Low(n) in x.elems
  }

  /** A 32-bit move, computed as a 64-bit one, holds what it means exactly for such sets. */
  lemma MoveCoversIff(x: IntSet)
    ensures (forall n :: x.Has(n) ==> x.Has(Low(n))) <==> LowClosed(x)
  {
    forall n | x.Has(n)
      ensures x.Has(Low(n)) <==> x.top || Low(n) in x.elems
    {}
  }

  /** The offset arithmetic contains the sum of every pair and is top exactly when a sum is too large. */
  lemma OffsetExecExact(add: bool, x: IntSet, y: IntSet, e: int)
    ensures var a := if add then OffsetPlus else OffsetMinus;
      !x.top && !y.top ==>
      if SomeLarge(a, x.elems, y.elems) then OffsetExec(add, x, y) == TOP
      else OffsetExec(add, x, y).Has(e) <==> exists k, n :: k in x.elems && n in y.elems && e == Apply(a, k, n)
    ensures (x.top || y.top) && !x.IsBot() && !y.IsBot() ==> OffsetExec(add, x, y) == TOP
    ensures OffsetExec(add, x, y).Ordered()
  {
    var a := if add then OffsetPlus else OffsetMinus;
    ImageMembers(a, x.elems, y.elems, [], e);
    ImageSorted(a, x.elems, y.elems, []);
  }

  function OffsetArith(add: bool): Arith {
    if add then OffsetPlus else OffsetMinus
  }

  /** The result is top: an operand is, or some sum is too large. */
  predicate MovesTop(add: bool, x: IntSet, y: IntSet) {
    !x.IsBot() && !y.IsBot() && (x.top || y.top || SomeLarge(OffsetArith(add), x.elems, y.elems))
  }

  /** What is computed for some offset and some number. */
  predicate InMoves(add: bool, x: IntSet, y: IntSet, v: int) {
    exists k, n :: k in x.elems && n in y.elems && Apply(OffsetArith(add), k, n) == v
  }

  /** The offset moved by the number, as 64-bit words. */
  function Moved(add: bool, o: int, n: int): int {
    if add then o + ToSigned(n) else o - ToSigned(n)
  }

  /** The result holds every offset of x moved by every number of y. */
  ghost predicate MovedInto(add: bool, x: IntSet, y: IntSet, res: IntSet) {
    forall o, n :: x.Has(o) && y.Has(n) ==> res.Has(Moved(add, o, n))
  }

  lemma OffsetExecHas(add: bool, x: IntSet, y: IntSet, v: int)
    ensures OffsetExec(add, x, y).Has(v) <==> MovesTop(add, x, y) || InMoves(add, x, y, v)
  {
    OffsetExecExact(add, x, y, v);
  }

  lemma OffsetExecSound(add: bool, x: IntSet, y: IntSet, k: int, n: int)
    requires x.Has(k) && y.Has(n)
    ensures OffsetExec(add, x, y).Has(Apply(if add then OffsetPlus else OffsetMinus, k, n))
  {
    OffsetExecExact(add, x, y, Apply(if add then OffsetPlus else OffsetMinus, k, n));
  }

  lemma OffsetDifferenceSound(x: IntSet, y: IntSet, k: int, n: int)
    requires x.Has(k) && y.Has(n)
    ensures OffsetDifference(x, y).Has(ToU64(k - n))
  {
    if !OffsetDifference(x, y).top {
      ImageMembers(OffsetDiff, x.elems, y.elems, [], k - n);
      assert k - n == Apply(OffsetDiff, k, n);
      WordsHas(Image(OffsetDiff, x.elems, y.elems, []), k - n);
    }
  }

  lemma {:induction false} WordsAt(s: seq<int>, i: nat)
    requires i < |s|
    ensures Words(s)[i] == ToU64(s[i])
  {
    if i == 0 {
    } else {
      WordsAt(s[1..], i - 1);
    }
  }

  lemma ToU64OfSigned(x: int)
    requires -TWO63 <= x < TWO63
    ensures ToU64(x) == if x >= 0 then x else x + TWO64
  {}

  /** Words of increasing signed numbers increase exactly when all signs agree. */
  lemma WordsSortedIff(s: seq<int>)
    requires Sorted(s) && forall i :: 0 <= i < |s| ==> -TWO63 <= s[i] < TWO63
    ensures Sorted(Words(s)) <==> s == [] || s[0] >= 0 || s[|s| - 1] < 0
  {
    forall i | 0 <= i < |s|
      ensures Words(s)[i] == if s[i] >= 0 then s[i] else s[i] + TWO64
    {
      WordsAt(s, i);
      ToU64OfSigned(s[i]);
    }
    if s != [] && s[0] < 0 <= s[|s| - 1] {
      assert Words(s)[0] > Words(s)[|s| - 1];
    }
  }

  /** Two offsets, one of each set, whose difference has the given sign. */
  ghost predicate SomeDifference(x: IntSet, y: IntSet, negative: bool) {
    exists k, n :: k in x.elems && n in y.elems && (negative <==> Apply(OffsetDiff, k, n) < 0)
  }

  ghost predicate HasSign(s: seq<int>, negative: bool) {
    exists i :: 0 <= i < |s| && (negative <==> s[i] < 0)
  }

  lemma SignInImage(x: IntSet, y: IntSet, negative: bool)
    ensures SomeDifference(x, y, negative) <==> HasSign(Image(OffsetDiff, x.elems, y.elems, []), negative)
  {
    var s := Image(OffsetDiff, x.elems, y.elems, []);
    if SomeDifference(x, y, negative) {
      var k, n :| k in x.elems && n in y.elems && (negative <==> Apply(OffsetDiff, k, n) < 0);
      ImageMembers(OffsetDiff, x.elems, y.elems, [], Apply(OffsetDiff, k, n));
    }
    if i :| 0 <= i < |s| && (negative <==> s[i] < 0) {
      ImageMembers(OffsetDiff, x.elems, y.elems, [], s[i]);
    }
  }

  lemma SignsOfSorted(s: seq<int>)
    requires Sorted(s)
    ensures HasSign(s, true) && HasSign(s, false) <==> !(s == [] || s[0] >= 0 || s[|s| - 1] < 0)
  {}

  lemma ImageRange(x: IntSet, y: IntSet, i: nat)
    requires forall k, n :: k in x.elems && n in y.elems ==> -TWO63 <= k - n < TWO63
    requires i < |Image(OffsetDiff, x.elems, y.elems, [])|
    ensures -TWO63 <= Image(OffsetDiff, x.elems, y.elems, [])[i] < TWO63
  {
    ImageMembers(OffsetDiff, x.elems, y.elems, [], Image(OffsetDiff, x.elems, y.elems, [])[i]);
  }

  /**
    The difference of two offset sets is built in signed order but stored as
    words: the vector is increasing exactly when an operand is top, a difference
    is past the limit (and the result top), or no two differences have different
    signs.
   */
  lemma DifferenceOrderedIff(x: IntSet, y: IntSet)
    requires forall k, n :: k in x.elems && n in y.elems ==> -TWO63 <= k - n < TWO63
    ensures OffsetDifference(x, y).Ordered() <==>
      || x.top || y.top || SomeLarge(OffsetDiff, x.elems, y.elems)
      || !(SomeDifference(x, y, true) && SomeDifference(x, y, false))
  {
    if x.top || y.top { return; }
    var s := Image(OffsetDiff, x.elems, y.elems, []);
    ImageSorted(OffsetDiff, x.elems, y.elems, []);
    forall i | 0 <= i < |s|
      ensures -TWO63 <= s[i] < TWO63
    {
      ImageRange(x, y, i);
    }
    WordsSortedIff(s);
    SignsOfSorted(s);
    SignInImage(x, y, true);
    SignInImage(x, y, false);
    if !OffsetDifference(x, y).top { DifferenceVector(x, y); }
  }

  lemma DifferenceVector(x: IntSet, y: IntSet)
    requires !x.top && !y.top && !OffsetDifference(x, y).top
    ensures OffsetDifference(x, y).elems == Words(Image(OffsetDiff, x.elems, y.elems, []))
  {
    assert x.elems == [] ==> Image(OffsetDiff, x.elems, y.elems, []) == [];
    if y.elems == [] { ImageOfNothing(OffsetDiff, x.elems, []); }
  }

  lemma {:induction false} ImageOfNothing(a: Arith, ks: seq<int>, acc: seq<int>)
    ensures Image(a, ks, [], acc) == acc
  {
    if ks == [] {
    } else {
      ImageOfNothing(a, ks[1..], acc);
    }
  }

  /* ----- restriction by a comparison ----- */

  /** The order in which the least and the greatest element are looked for. */
  predicate Less(op: CondOp, a: int, b: int) {
    if IsSigned(op) then ToSigned(a) < ToSigned(b) else a < b
  }

  /** The element of the right operand that an order comparison is decided against: the greatest for "less", the least for "greater". */
  function Bound(op: CondOp, s: seq<int>): (m: int)
    requires s != [] && IsOrderOrEq(op) && !op.EQ?
    ensures m in s
  {
    if |s| == 1 then s[0]
    else
      var m := Bound(op, s[1..]);
      if op.LT? || op.LE? || op.SLT? || op.SLE? then (if Less(op, m, s[0]) then s[0] else m)
      else (if Less(op, s[0], m) then s[0] else m)
  }

  /** The test of each loop. */
  predicate Keeps(op: CondOp, e: int, m: int)
    requires IsOrderOrEq(op) && !op.EQ?
  {
    match op
    case GT => e > m
    case GE => e >= m
    case LT => e < m
    case LE => e <= m
    case SGT => ToSigned(e) > ToSigned(m)
    case SGE => ToSigned(e) >= ToSigned(m)
    case SLT => ToSigned(e) < ToSigned(m)
    case SLE => ToSigned(e) <= ToSigned(m)
  }

  lemma KeepsCompares(op: CondOp, e: int, m: int)
    requires IsOrderOrEq(op) && !op.EQ?
    ensures Keeps(op, e, m) <==> Compare(op, e, m)
  {}

  function Filter(op: CondOp, s: seq<int>, m: int): seq<int>
    requires IsOrderOrEq(op) && !op.EQ?
  {
    if s == [] then []
    else (if Keeps(op, s[0], m) then [s[0]] else []) + Filter(op, s[1..], m)
  }

  /** NumDomSet::assume and OffsetDomSet::assume. */
  function Restrict(op: CondOp, x: IntSet, y: IntSet): IntSet {
    if y.top then x
    else if op.EQ? then Meet(x, y)
    else if op.NE? then x.(elems := SetDifference(x.elems, y.elems))
    else if op.SET? || op.NSET? then x
    else if y.elems == [] then x.(elems := [])
    else x.(elems := Filter(op, x.elems, Bound(op, y.elems)))
  }

  /** NumDomSet::satisfied and OffsetDomSet::satisfied. */
  predicate Satisfied(op: CondOp, x: IntSet, y: IntSet) {
    x.IsBot() || y.IsBot() || (!x.top && !y.top && Restrict(op, x, y) == x)
  }

  lemma {:induction false} FilterMembers(op: CondOp, s: seq<int>, m: int, x: int)
    requires IsOrderOrEq(op) && !op.EQ?
    ensures x in Filter(op, s, m) <==> x in s && Compare(op, x, m)
  {
    if s == [] {
    } else {
      KeepsCompares(op, s[0], m);
      assert s == [s[0]] + s[1..];
      FilterMembers(op, s[1..], m, x);
    }
  }

  lemma {:induction false} FilterSorted(op: CondOp, s: seq<int>, m: int)
    requires IsOrderOrEq(op) && !op.EQ? && Sorted(s)
    ensures Sorted(Filter(op, s, m))
  {
    if s == [] {
    } else {
      FilterSorted(op, s[1..], m);
      forall e | e in Filter(op, s[1..], m)
        ensures s[0] < e
      {
        FilterMembers(op, s[1..], m, e);
      }
      ConsSorted(s[0], Filter(op, s[1..], m));
    }
  }

  lemma BoundStep(op: CondOp, a: int, m: int, r: int, x: int)
    requires IsOrderOrEq(op) && !op.EQ? && (r == a || r == m)
    requires if op.LT? || op.LE? || op.SLT? || op.SLE? then r == (if Less(op, m, a) then a else m) else r == (if Less(op, a, m) then a else m)
    ensures Compare(op, x, r) <==> Compare(op, x, a) || Compare(op, x, m)
  {}

  /** Comparing with the bound decides whether some element of the right operand compares. */
  lemma {:induction false} BoundDecides(op: CondOp, s: seq<int>, x: int)
    requires s != [] && IsOrderOrEq(op) && !op.EQ?
    ensures Compare(op, x, Bound(op, s)) <==> exists y :: y in s && Compare(op, x, y)
  {
    if |s| <= 1 {
    } else {
      BoundDecides(op, s[1..], x);
      BoundStep(op, s[0], Bound(op, s[1..]), Bound(op, s), x);
      assert s == [s[0]] + s[1..];
    }
  }

  /**
    On vectors of distinct increasing elements, `assume` keeps exactly the x
    that some y on the right compares with; for NE, exactly those absent from
    the right.
   */
  lemma RestrictExact(op: CondOp, x: IntSet, y: IntSet, e: int)
    requires !x.top && !y.top && x.Ordered() && y.Ordered()
    ensures IsOrderOrEq(op) ==>
      (Restrict(op, x, y).Has(e) <==> e in x.elems && exists u :: u in y.elems && Compare(op, e, u))
    ensures op.NE? ==> (Restrict(op, x, y).Has(e) <==> e in x.elems && e !in y.elems)
    ensures op.SET? || op.NSET? ==> Restrict(op, x, y) == x
  {
    IntersectionMembers(x.elems, y.elems, e);
    DifferenceMembers(x.elems, y.elems, e);
    if IsOrderOrEq(op) && !op.EQ? && y.elems != [] {
      BoundDecides(op, y.elems, e);
      FilterMembers(op, x.elems, Bound(op, y.elems), e);
    }
  }

  lemma RestrictOrdered(op: CondOp, x: IntSet, y: IntSet)
    requires x.Ordered() && y.Ordered()
    ensures Restrict(op, x, y).Ordered()
  {
    IntersectionSorted(x.elems, y.elems);
    DifferenceSorted(x.elems, y.elems);
    if IsOrderOrEq(op) && !op.EQ? && y.elems != [] {
      FilterSorted(op, x.elems, Bound(op, y.elems));
    }
  }

  /** All operands: an unknown right keeps everything, an unknown left everything but under EQ, and otherwise some right value must compare. */
  lemma RestrictHas(op: CondOp, x: IntSet, y: IntSet, k: int)
    requires IsOrderOrEq(op) && x.Ordered() && y.Ordered() && (x.top ==> x.elems == [])
    ensures Restrict(op, x, y).Has(k) <==>
            x.Has(k) && (y.top || (x.top && !op.EQ?) || exists u :: u in y.elems && Compare(op, k, u))
  {
    if !x.top && !y.top { RestrictExact(op, x, y, k); }
  }

  /** `assume` only removes elements, whatever the operands. */
  lemma RestrictShrinks(op: CondOp, x: IntSet, y: IntSet, e: int)
    requires x.Ordered() && y.Ordered() && Restrict(op, x, y).Has(e)
    ensures x.Has(e)
  {
    if !x.top && !y.top { RestrictExact(op, x, y, e); }
  }

  ghost predicate SomePair(op: CondOp, e: int, y: IntSet)
    requires !op.SET? && !op.NSET?
  {
    exists u :: y.Has(u) && Compare(op, e, u)
  }

  /** No feasible value is lost: every e that compares with some right value survives. */
  ghost predicate Lossless(op: CondOp, x: IntSet, y: IntSet)
    requires !op.SET? && !op.NSET?
  {
    forall e :: x.Has(e) && SomePair(op, e, y) ==> Restrict(op, x, y).Has(e)
  }

  /** EQ and the order comparisons never lose a feasible value. */
  lemma OrderLossless(op: CondOp, x: IntSet, y: IntSet)
    requires IsOrderOrEq(op) && x.Ordered() && y.Ordered()
    requires x.top ==> x.elems == []
    ensures Lossless(op, x, y)
  {
    forall e | x.Has(e) && SomePair(op, e, y)
      ensures Restrict(op, x, y).Has(e)
    {
      var u :| y.Has(u) && Compare(op, e, u);
      if !x.top && !y.top { RestrictExact(op, x, y, e); }
    }
  }

  /** Two known sets with an element in common. */
  predicate Common(x: IntSet, y: IntSet) {
    !x.top && !y.top && exists e | e in x.elems :: e in y.elems
  }

  lemma NotEqualLoses(x: IntSet, y: IntSet, e: int)
    requires !x.top && !y.top && x.Ordered() && y.Ordered()
    requires |y.elems| > 1 && e in x.elems && e in y.elems
    ensures !Lossless(NE, x, y)
  {
    RestrictExact(NE, x, y, e);
    var u := if e == y.elems[0] then y.elems[1] else y.elems[0];
    assert y.Has(u) && Compare(NE, e, u);
    assert SomePair(NE, e, y) && x.Has(e);
  }

  /**
    NE removes every element found on the right, so it is lossless exactly
    when the right holds at most one value or shares none with the left; a top
    operand shares none.
   */
  lemma NotEqualLossless(x: IntSet, y: IntSet)
    requires x.Ordered() && y.Ordered() && (x.top ==> x.elems == []) && (y.top ==> y.elems == [])
    ensures Lossless(NE, x, y) <==> (!y.top && |y.elems| <= 1) || !Common(x, y)
  {
    if Common(x, y) && |y.elems| > 1 {
      var e :| e in x.elems && e in y.elems;
      NotEqualLoses(x, y, e);
    } else {
      forall e | x.Has(e) && SomePair(NE, e, y)
        ensures Restrict(NE, x, y).Has(e)
      {
        if !x.top && !y.top { RestrictExact(NE, x, y, e); }
      }
    }
  }

  ghost predicate AllPairs(op: CondOp, x: IntSet, y: IntSet)
    requires !op.SET? && !op.NSET?
  {
    forall e, u :: x.Has(e) && y.Has(u) ==> Compare(op, e, u)
  }

  /** What `satisfied` decides on non-top operands that both hold a value. */
  lemma SatisfiedExact(op: CondOp, x: IntSet, y: IntSet)
    requires !op.SET? && !op.NSET?
    requires !x.top && !y.top && x.Ordered() && y.Ordered() && x.elems != [] && y.elems != []
    ensures IsOrderOrEq(op) ==> (Satisfied(op, x, y) <==> forall e :: x.Has(e) ==> SomePair(op, e, y))
    ensures op.NE? ==> (Satisfied(op, x, y) <==> AllPairs(op, x, y))
  {
    var r := Restrict(op, x, y);
    RestrictOrdered(op, x, y);
    forall e
      ensures IsOrderOrEq(op) ==> (e in r.elems <==> x.Has(e) && SomePair(op, e, y))
      ensures op.NE? ==> (e in r.elems <==> x.Has(e) && !y.Has(e))
    {
      RestrictExact(op, x, y, e);
    }
    if forall e :: x.Has(e) ==> e in r.elems {
      SortedUnique(r.elems, x.elems);
    }
    if op.NE? && AllPairs(op, x, y) {
      forall e | x.Has(e)
        ensures !y.Has(e)
      {
        assert y.Has(e) ==> Compare(op, e, e);
      }
    }
  }

  /** An empty operand satisfies everything, an unknown one nothing. */
  lemma SatisfiedUnknown(op: CondOp, x: IntSet, y: IntSet)
    requires x.IsBot() || y.IsBot() || x.top || y.top
    ensures Satisfied(op, x, y) <==> (!x.top && |x.elems| == 0) || (!y.top && |y.elems| == 0)
  {}

  /** The verdict of `satisfied` on one pair of operands is the truth about every pair of values. */
  ghost predicate VerdictRight(op: CondOp, x: IntSet, y: IntSet)
    requires !op.SET? && !op.NSET?
  {
    Satisfied(op, x, y) <==> AllPairs(op, x, y)
  }

  lemma SingleVerdict(op: CondOp, x: IntSet, y: IntSet)
    requires IsOrderOrEq(op) && y.IsSingle()
    requires !x.top && x.Ordered() && x.elems != []
    ensures VerdictRight(op, x, y)
  {
    SatisfiedExact(op, x, y);
    var u := y.elems[0];
    assert y.elems == [u] && y.Has(u);
    forall e | x.Has(e)
      ensures SomePair(op, e, y) <==> Compare(op, e, u)
    {}
  }

  /** A left operand of one value on which the verdict is wrong. */
  lemma WrongVerdict(op: CondOp, y: IntSet) returns (x: IntSet)
    requires IsOrderOrEq(op) && !y.top && y.Ordered() && |y.elems| > 1
    requires forall i :: 0 <= i < |y.elems| ==> 0 <= y.elems[i] < TWO64
    ensures !x.top && x.Ordered() && x.elems != []
    ensures !VerdictRight(op, x, y)
  {
    var p, q := y.elems[0], y.elems[1];
    assert p < q && y.Has(p) && y.Has(q);
    var e := if op.EQ? || (Compare(op, p, q) <==> !Compare(op, p, p)) then p else q;
    var other := if e == p then q else p;
    x := Single(e);
    assert x.Has(e);
    SatisfiedExact(op, x, y);
    assert Compare(op, e, e) || Compare(op, e, other);
    assert SomePair(op, e, y);
    assert !Compare(op, e, e) || !Compare(op, e, other);
  }

  /**
    With several values on the right, an order verdict only speaks about the
    most favourable of them: the verdict is right for every left operand
    exactly when the right operand holds one value.
   */
  lemma SatisfiedRightIffSingle(op: CondOp, y: IntSet)
    requires IsOrderOrEq(op) && !y.top && y.Ordered() && y.elems != []
    requires forall i :: 0 <= i < |y.elems| ==> 0 <= y.elems[i] < TWO64
    ensures (forall x: IntSet :: !x.top && x.Ordered() && x.elems != [] ==> VerdictRight(op, x, y)) <==> y.IsSingle()
  {
    if y.IsSingle() {
      forall x: IntSet | !x.top && x.Ordered() && x.elems != []
        ensures VerdictRight(op, x, y)
      {
        SingleVerdict(op, x, y);
      }
    } else {
      var x := WrongVerdict(op, y);
    }
  }
}
