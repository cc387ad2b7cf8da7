/**
  The concrete memory that the stack domain describes: bytes that are parts of
  a number (least significant first) or of one tagged pointer.
 */
module ByteMemory {
  import opened Rcp

  predicate IsTagged(w: Word) {
    (w.Ptr? && IsRegion(w.region)) || (w.MapFd? && w.fd in AllFds)
  }

  /** A pointer into an existing region or an existing map descriptor. */
  type Tagged = w: Word | IsTagged(w) witness Ptr(StackMem, 0)

  datatype Byte = Data(b: int) | Part(w: Tagged, index: int) | Opaque

  type Memory = int -> Byte

  const PTR_WIDTH: int := 8

  ghost predicate AllData(m: Memory, o: int, w: nat) {
    forall k | o <= k < o + w :: m(k).Data?
  }

  ghost function Little(m: Memory, o: int, w: nat): int
    requires AllData(m, o, w)
    decreases w
  {
    if w == 0 then 0 else m(o).b + 256 * Little(m, o + 1, w - 1)
  }

  /** The tagged word found in the w bytes at o. */
  ghost function Read(m: Memory, o: int, w: nat): Word {
    if AllData(m, o, w) then Num(Little(m, o, w))
    else if w == PTR_WIDTH && m(o).Part? && forall k | 0 <= k < w :: m(o + k) == Part(m(o).w, k) then m(o).w
    else Junk
  }

  function Pow256(w: nat): (p: int)
    ensures p > 0
  {
    if w == 0 then 1 else 256 * Pow256(w - 1)
  }

  function ByteAt(n: int, k: nat): int
    decreases k
  {
    if k == 0 then n % 256 else ByteAt(n / 256, k - 1)
  }

  /** The number that the w low bytes of n spell. */
  function Truncate(n: int, w: nat): int
    decreases w
  {
    if w == 0 then 0 else n % 256 + 256 * Truncate(n / 256, w - 1)
  }

  lemma {:induction false} TruncateIsRemainder(n: int, w: nat)
    ensures 0 <= Truncate(n, w) < Pow256(w)
    ensures Truncate(n, w) == n <==> 0 <= n < Pow256(w)
    decreases w
  {
    if w == 0 {
    } else {
      TruncateIsRemainder(n / 256, w - 1);
    }
  }

  function ByteOf(v: Word, w: nat, k: nat): Byte {
    match v
    case Num(n) => Data(ByteAt(n, k))
    case Junk => Opaque
    case _ => if w == PTR_WIDTH && IsTagged(v) then Part(v, k) else Opaque
  }

  /** Storing v in the w bytes at o. */
  function Write(m: Memory, o: int, w: nat, v: Word): Memory {
    k => if o <= k < o + w then ByteOf(v, w, k - o) else m(k)
  }

  /** Reading back the bytes just written: numbers lose their high bytes, only full pointers survive. */
  function Stored(v: Word, w: nat): Word {
    match v
    case Num(n) => Num(Truncate(n, w))
    case Junk => Junk
    case _ => if w == PTR_WIDTH && IsTagged(v) then v else Junk
  }

  lemma WriteAt(m: Memory, o: int, w: nat, v: Word, j: nat)
    requires j < w
    ensures Write(m, o, w, v)(o + j) == ByteOf(v, w, j)
  {}

  lemma {:induction false} ReadBackNumber(m: Memory, o: int, w: nat, n: int, j: nat, rest: int)
    requires j <= w && forall k: nat :: ByteAt(rest, k) == ByteAt(n, k + j)
    ensures AllData(Write(m, o, w, Num(n)), o + j, w - j)
    ensures Little(Write(m, o, w, Num(n)), o + j, w - j) == Truncate(rest, w - j)
    decreases w - j
  {
    if j >= w {
    } else {
      var m' := Write(m, o, w, Num(n));
      WriteAt(m, o, w, Num(n), j);
      assert ByteAt(rest, 0) == ByteAt(n, j);
      forall k: nat
        ensures ByteAt(rest / 256, k) == ByteAt(n, k + (j + 1))
      {
        assert ByteAt(rest, k + 1) == ByteAt(n, (k + 1) + j);
      }
      ReadBackNumber(m, o, w, n, j + 1, rest / 256);
      assert o + j + 1 == o + (j + 1) && w - j - 1 == w - (j + 1);
      forall k | o + j <= k < o + j + (w - j)
        ensures m'(k).Data?
      {
        if k > o + j { assert o + (j + 1) <= k < o + (j + 1) + (w - (j + 1)); }
      }
    }
  }

  lemma ReadBack(m: Memory, o: int, w: nat, v: Word)
    requires w > 0
    ensures Read(Write(m, o, w, v), o, w) == Stored(v, w)
  {
    var m' := Write(m, o, w, v);
    if v.Num? {
      ReadBackNumber(m, o, w, v.n, 0, v.n);
    } else {
      assert m'(o) == ByteOf(v, w, 0);
      assert !AllData(m', o, w);
      assert forall k | 0 <= k < w :: m'(o + k) == ByteOf(v, w, k);
    }
  }

  lemma {:induction false} LittleFrame(m: Memory, m': Memory, o: int, w: nat)
    requires forall k | o <= k < o + w :: m(k) == m'(k)
    requires AllData(m, o, w)
    ensures AllData(m', o, w) && Little(m, o, w) == Little(m', o, w)
    decreases w
  {
    if w == 0 {
    } else {
      LittleFrame(m, m', o + 1, w - 1);
    }
  }

  /** A read depends only on the bytes it covers. */
  lemma ReadFrame(m: Memory, m': Memory, o: int, w: nat)
    requires forall k | o <= k < o + w :: m(k) == m'(k)
    ensures Read(m, o, w) == Read(m', o, w)
  {
    if AllData(m, o, w) {
      LittleFrame(m, m', o, w);
    } else if AllData(m', o, w) {
      LittleFrame(m', m, o, w);
    } else if w == PTR_WIDTH {
      assert m(o + 0) == m'(o + 0);
    }
  }

  /** The value survives a store of this width. */
  predicate Fits(v: Word, w: nat) {
    match v
    case Num(n) => 0 <= n < Pow256(w)
    case Junk => true
    case _ => w == PTR_WIDTH && IsTagged(v)
  }

  lemma StoredFits(v: Word, w: nat)
    ensures Stored(v, w) == v <==> Fits(v, w)
  {
    if v.Num? { TruncateIsRemainder(v.n, w); }
  }
}
