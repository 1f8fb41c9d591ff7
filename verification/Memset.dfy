/**
 The assembly memset of arch/arm64/lib/memset.S: a replicated word stored
 eight bytes at a time, then a 4/2/1 cascade steered by a biased counter.
 */
module Memset {
  import opened Bits

  type Bytes = map<int, nat>

  function At(m: Bytes, a: int): nat {
    if a in m then m[a] else 0
  }

  /** The k copies of byte b that make up a word. */
  function Repeat(b: nat, k: nat): nat {
    if k == 0 then 0 else 256 * Repeat(b, k - 1) + b
  }

  /** Byte i of a little-endian word. */
  function ByteOf(v: nat, i: nat): nat {
    if i == 0 then v % 256 else ByteOf(v / 256, i - 1)
  }

  lemma {:induction false} RepeatBytes(b: nat, k: nat, i: nat)
    requires b < 256 && i < k
    ensures ByteOf(Repeat(b, k), i) == b
    decreases k
  {
    if i > 0 { RepeatBytes(b, k - 1, i - 1); }
  }

  lemma Shl8(x: nat)
    ensures Shl(x, 8) == 256 * x && Shl(x, 16) == 0x1_0000 * x && Shl(x, 32) == 0x1_0000_0000 * x
  {
    Shl9(x);
    assert Shl(x, 7) == 2 * Shl(x, 6) && Shl(x, 8) == 2 * Shl(x, 7);
    ShlAdd(x, 12, 4);
    Shl9(Shl(x, 12));
    ShlAdd(x, 16, 12);
    Shl9(Shl(x, 16));
    ShlAdd(x, 28, 4);
    Shl9(Shl(x, 28));
  }

  /** `orr w, w, w, lsl #k` doubles the copies when the word fits below bit k. */
  lemma OrShifted(w: nat, k: nat)
    requires w < Shl(1, k)
    ensures Or(w, Shl(w, k)) == Shl(w, k) + w
  {
    OrAbove(w, w, 0, k);
    OrZero(w);
  }

  /** and, orr, orr, orr: the byte in all eight positions. */
  function Spread(c: nat): (x: nat)
    ensures x == Repeat(c % 256, 8)
  {
    var b := c % 256;
    AndByte(c);
    Shl8(1);
    Shl8(b);
    OrShifted(b, 8);
    var w2 := Or(And(c, 0xff), Shl(And(c, 0xff), 8));
    Shl8(w2);
    OrShifted(w2, 16);
    var w4 := Or(w2, Shl(w2, 16));
    Shl8(w4);
    OrShifted(w4, 32);
    RepeatTwice(b);
    Or(w4, Shl(w4, 32))
  }

  lemma AndByte(c: nat)
    ensures And(c, 0xff) == c % 256
  {
    Shl8(c / 256);
    Shl8(1);
    AndLow(c / 256, c % 256, 8);
  }

  lemma RepeatTwice(b: nat)
    ensures Repeat(b, 2) == 257 * b && Repeat(b, 4) == 0x101_0101 * b && Repeat(b, 8) == 0x101_0101_0101_0101 * b
  {
    assert Repeat(b, 1) == b;
    assert Repeat(b, 2) == 257 * b;
    assert Repeat(b, 3) == 0x1_0101 * b;
    assert Repeat(b, 4) == 0x101_0101 * b;
    assert Repeat(b, 5) == 0x1_0101_0101 * b;
    assert Repeat(b, 6) == 0x101_0101_0101 * b;
    assert Repeat(b, 7) == 0x1_0101_0101_0101 * b;
  }

  lemma PutByte(m: Bytes, a: int, b: nat, i: int)
    ensures At(m[a := b], i) == if i == a then b else At(m, i)
  {
  }

  /** A store of the k low bytes of v, least significant first. */
  function StoreLow(m: Bytes, a: nat, v: nat, k: nat): Bytes {
    if k == 0 then m else StoreLow(m, a, v, k - 1)[a + k - 1 := ByteOf(v, k - 1)]
  }

  lemma {:induction false} StoreLowAt(m: Bytes, a: nat, v: nat, k: nat, i: int)
    ensures At(StoreLow(m, a, v, k), i) == if a <= i < a + k then ByteOf(v, i - a) else At(m, i)
    decreases k
  {
    if k > 0 {
      StoreLowAt(m, a, v, k - 1, i);
      PutByte(StoreLow(m, a, v, k - 1), a + k - 1, ByteOf(v, k - 1), i);
    }
  }

  /** Exactly the bytes of [buf, end) have become b. */
  ghost predicate Filled(m0: Bytes, m: Bytes, buf: nat, end: nat, b: nat) {
    && (forall i :: buf <= i < end ==> At(m, i) == b)
    && (forall i :: i < buf || end <= i ==> At(m, i) == At(m0, i))
  }

  /** A byte-at-a-time fill, for comparison. */
  function ByteFill(m: Bytes, buf: nat, b: nat, n: nat): Bytes {
    if n == 0 then m else ByteFill(m, buf, b, n - 1)[buf + n - 1 := b]
  }

  lemma {:induction false} ByteFillAt(m: Bytes, buf: nat, b: nat, n: nat, i: int)
    ensures At(ByteFill(m, buf, b, n), i) == if buf <= i < buf + n then b else At(m, i)
    decreases n
  {
    if n > 0 {
      ByteFillAt(m, buf, b, n - 1, i);
      PutByte(ByteFill(m, buf, b, n - 1), buf + n - 1, b, i);
    }
  }

  const MEMSET_LIMIT: nat := WORD / 2 + 8

  /** A 64-bit difference as the sign flag sees it. */
  function Signed(x: int): int
    requires x < WORD
  {
    if x >= WORD / 2 then x - WORD else x
  }

  class ByteMemory {
    var bytes: Bytes

    /** str, strh or strb of the low k bytes of the spread word, with post-increment. */
    method Store(x4: nat, x1: nat, k: nat, ghost m0: Bytes, ghost buf: nat, ghost b: nat) returns (x4': nat)
      requires b < 256 && x1 == Repeat(b, 8) && k <= 8 && buf <= x4 && Filled(m0, bytes, buf, x4, b)
      modifies this
      ensures x4' == x4 + k && Filled(m0, bytes, buf, x4', b)
    {
      ghost var m := bytes;
      bytes := StoreLow(bytes, x4, x1, k);
      forall i ensures At(bytes, i) == if x4 <= i < x4 + k then b else At(m, i) {
        StoreLowAt(m, x4, x1, k, i);
        if x4 <= i < x4 + k { RepeatBytes(b, 8, i - x4); }
      }
      x4' := x4 + k;
    }

    /**
     memset(buf, c, n) for every 64-bit n: the n bytes at buf become the low
     byte of c, and no other byte changes, exactly when n is below
     2^63 + 8; from there on n - 8 is negative for the branches, and nothing
     is written at all.
     */
    method Memset(buf: nat, c: nat, n: nat) returns (x0: nat)
      requires n < WORD
      modifies this
      ensures x0 == buf && Filled(old(bytes), bytes, buf, buf + (if n < MEMSET_LIMIT then n else 0), c % 256)
    {
      ghost var m0, b := bytes, c % 256;
      x0 := buf;
      var x4 := buf;
      var x1 := Spread(c);
      var x2 := Signed(n - 8);
      if x2 >= 0 {
        while true
          invariant 0 <= x2 && x4 + x2 + 8 == buf + n && buf <= x4 && Filled(m0, bytes, buf, x4, b)
          decreases x2
        {
          x4 := Store(x4, x1, 8, m0, buf, b);
          x2 := x2 - 8;
          if x2 < 0 { break; }
        }
      }
      x2 := x2 + 4;
      if x2 >= 0 {
        x2 := x2 - 4;
        x4 := Store(x4, x1, 4, m0, buf, b);
      }
      x2 := x2 + 2;
      if x2 >= 0 {
        x2 := x2 - 2;
        x4 := Store(x4, x1, 2, m0, buf, b);
      }
      x2 := x2 + 1;
      if x2 >= 0 {
        x4 := Store(x4, x1, 1, m0, buf, b);
      }
    }
  }

  /** The assembly and the byte loop leave the same memory. */
  lemma FillsAgree(m0: Bytes, m: Bytes, buf: nat, n: nat, b: nat)
    requires Filled(m0, m, buf, buf + n, b)
    ensures forall i :: At(m, i) == At(ByteFill(m0, buf, b, n), i)
  {
    forall i ensures At(m, i) == At(ByteFill(m0, buf, b, n), i) { ByteFillAt(m0, buf, b, n, i); }
  }

  /** A 64-bit little-endian word. */
  function WordAt(m: Bytes, a: int, k: nat): nat
    decreases k
  {
    if k == 0 then 0 else At(m, a) + 256 * WordAt(m, a + 1, k - 1)
  }

  lemma {:induction false} WordSame(m: Bytes, m': Bytes, a: int, k: nat)
    requires forall i :: a <= i < a + k ==> At(m', i) == At(m, i)
    ensures WordAt(m', a, k) == WordAt(m, a, k)
    decreases k
  {
    if k > 0 { WordSame(m, m', a + 1, k - 1); }
  }

  lemma {:induction false} WordZero(m: Bytes, a: int, k: nat)
    requires forall i :: a <= i < a + k ==> At(m, i) == 0
    ensures WordAt(m, a, k) == 0
    decreases k
  {
    if k > 0 { WordZero(m, a + 1, k - 1); }
  }

  /** memset(p, 0, PAGE_SIZE) as the page tables see it: 512 zero words, every word outside the page as before. */
  lemma PageZeroed(m0: Bytes, m: Bytes, p: nat)
    requires Filled(m0, m, p, p + 4096, 0)
    ensures forall i :: 0 <= i < 512 ==> WordAt(m, p + 8 * i, 8) == 0
    ensures forall a :: a + 8 <= p || p + 4096 <= a ==> WordAt(m, a, 8) == WordAt(m0, a, 8)
  {
    forall i | 0 <= i < 512 ensures WordAt(m, p + 8 * i, 8) == 0 { WordZero(m, p + 8 * i, 8); }
    forall a | a + 8 <= p || p + 4096 <= a ensures WordAt(m, a, 8) == WordAt(m0, a, 8) { WordSame(m0, m, a, 8); }
  }
}
