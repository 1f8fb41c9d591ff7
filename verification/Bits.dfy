/**
 Bitwise operators of the C source on unsigned words, modelled on naturals,
 with the lemmas that turn the mask idioms of the page-table macros into
 arithmetic on fields.
 */
module Bits {

  const WORD: nat := 0x1_0000_0000_0000_0000

  /** x << k, without truncation. */
  function Shl(x: nat, k: nat): nat
  {
    if k == 0 then x else 2 * Shl(x, k - 1)
  }

  function Or(a: nat, b: nat): nat
    decreases a + b
  {
    if a == 0 && b == 0 then 0
    else 2 * Or(a / 2, b / 2) + (if a % 2 == 1 || b % 2 == 1 then 1 else 0)
  }

  function And(a: nat, b: nat): nat
  {
    if a == 0 || b == 0 then 0
    else 2 * And(a / 2, b / 2) + (if a % 2 == 1 && b % 2 == 1 then 1 else 0)
  }

  lemma OrStep(a: nat, b: nat)
    ensures Or(a, b) == 2 * Or(a / 2, b / 2) + (if a % 2 == 1 || b % 2 == 1 then 1 else 0)
  {
  }

  lemma AndStep(a: nat, b: nat)
    ensures And(a, b) == 2 * And(a / 2, b / 2) + (if a % 2 == 1 && b % 2 == 1 then 1 else 0)
  {
  }

  lemma {:induction false} OrZero(a: nat)
    ensures Or(a, 0) == a && Or(0, a) == a
  {
    if a > 0 { OrZero(a / 2); }
  }

  lemma {:induction false} OrIsZero(a: nat, b: nat)
    ensures Or(a, b) == 0 <==> a == 0 && b == 0
    decreases a + b
  {
    if a + b > 0 { OrIsZero(a / 2, b / 2); }
  }

  lemma {:induction false} OrBound(a: nat, b: nat, k: nat)
    requires a < Shl(1, k) && b < Shl(1, k)
    ensures Or(a, b) < Shl(1, k)
    decreases k
  {
    if k > 0 { OrBound(a / 2, b / 2, k - 1); }
  }

  lemma Halve(x: nat, r: nat)
    ensures (2 * x + r) / 2 == x + r / 2 && (2 * x + r) % 2 == r % 2
  {
  }

  /** Dropping the last bit of a word made of two fields. */
  lemma HalveFields(a: nat, a0: nat, k: nat)
    requires k > 0 && a0 < Shl(1, k)
    ensures (Shl(a, k) + a0) / 2 == Shl(a, k - 1) + a0 / 2 && (Shl(a, k) + a0) % 2 == a0 % 2
    ensures a0 / 2 < Shl(1, k - 1)
  {
    Halve(Shl(a, k - 1), a0);
  }

  /** Or acts on the high and the low field of a word separately. */
  lemma OrSplit(a: nat, a0: nat, b: nat, b0: nat, k: nat)
    requires a0 < Shl(1, k) && b0 < Shl(1, k)
    ensures Or(Shl(a, k) + a0, Shl(b, k) + b0) == Shl(Or(a, b), k) + Or(a0, b0)
  {
    OrFieldwise(Shl(a, k) + a0, a, a0, Shl(b, k) + b0, b, b0, k);
  }

  lemma {:induction false} OrFieldwise(x: nat, a: nat, a0: nat, y: nat, b: nat, b0: nat, k: nat)
    requires x == Shl(a, k) + a0 && y == Shl(b, k) + b0 && a0 < Shl(1, k) && b0 < Shl(1, k)
    ensures Or(x, y) == Shl(Or(a, b), k) + Or(a0, b0)
    decreases k
  {
    if k > 0 {
      HalveFields(a, a0, k);
      HalveFields(b, b0, k);
      OrFieldwise(x / 2, a, a0 / 2, y / 2, b, b0 / 2, k - 1);
      OrLastBit(x, y, a0, b0, Shl(Or(a, b), k - 1));
    }
  }

  /** Two pairs of words with the same last bits, the halves of one offset by h from those of the other. */
  lemma OrLastBit(x: nat, y: nat, a: nat, b: nat, h: nat)
    requires x % 2 == a % 2 && y % 2 == b % 2 && Or(x / 2, y / 2) == h + Or(a / 2, b / 2)
    ensures Or(x, y) == 2 * h + Or(a, b)
  {
    OrStep(x, y);
    OrStep(a, b);
  }

  /** And acts on the high and the low field of a word separately. */
  lemma AndSplit(a: nat, a0: nat, b: nat, b0: nat, k: nat)
    requires a0 < Shl(1, k) && b0 < Shl(1, k)
    ensures And(Shl(a, k) + a0, Shl(b, k) + b0) == Shl(And(a, b), k) + And(a0, b0)
  {
    AndFieldwise(Shl(a, k) + a0, a, a0, Shl(b, k) + b0, b, b0, k);
  }

  lemma {:induction false} AndFieldwise(x: nat, a: nat, a0: nat, y: nat, b: nat, b0: nat, k: nat)
    requires x == Shl(a, k) + a0 && y == Shl(b, k) + b0 && a0 < Shl(1, k) && b0 < Shl(1, k)
    ensures And(x, y) == Shl(And(a, b), k) + And(a0, b0)
    decreases k
  {
    if k > 0 {
      HalveFields(a, a0, k);
      HalveFields(b, b0, k);
      AndFieldwise(x / 2, a, a0 / 2, y / 2, b, b0 / 2, k - 1);
      AndLastBit(x, y, a0, b0, Shl(And(a, b), k - 1));
    }
  }

  /** Two pairs of words with the same last bits, the halves of one offset by h from those of the other. */
  lemma AndLastBit(x: nat, y: nat, a: nat, b: nat, h: nat)
    requires x % 2 == a % 2 && y % 2 == b % 2 && And(x / 2, y / 2) == h + And(a / 2, b / 2)
    ensures And(x, y) == 2 * h + And(a, b)
  {
    AndStep(x, y);
    AndStep(a, b);
  }

  /** The mask of k ones keeps a value that already fits in k bits. */
  lemma {:induction false} AndOnes(x: nat, k: nat)
    requires x < Shl(1, k)
    ensures And(x, Shl(1, k) - 1) == x
    decreases k
  {
    if k > 0 {
      AndStep(x, Shl(1, k) - 1);
      AndOnes(x / 2, k - 1);
    }
  }

  lemma ShlAdd(x: nat, j: nat, k: nat)
    ensures Shl(Shl(x, j), k) == Shl(x, j + k)
  {
  }

  lemma Shl9(x: nat)
    ensures Shl(x, 2) == 4 * x && Shl(x, 3) == 8 * x && Shl(x, 4) == 16 * x
    ensures Shl(x, 6) == 64 * x && Shl(x, 9) == 512 * x && Shl(x, 12) == 0x1000 * x
  {
    assert Shl(x, 1) == 2 * x;
    assert Shl(x, 2) == 4 * x;
    assert Shl(x, 3) == 8 * x;
    assert Shl(x, 4) == 16 * x;
    assert Shl(x, 5) == 32 * x;
    assert Shl(x, 6) == 64 * x;
    assert Shl(x, 7) == 128 * x;
    assert Shl(x, 8) == 256 * x;
    assert Shl(x, 9) == 512 * x;
    assert Shl(x, 10) == 1024 * x;
    assert Shl(x, 11) == 2048 * x;
  }

  /** Shifts by the amounts the page-table macros use. */
  lemma ShlTable(x: nat)
    ensures Shl(x, 2) == 4 * x && Shl(x, 9) == 512 * x && Shl(x, 12) == 0x1000 * x
    ensures Shl(x, 21) == 0x20_0000 * x
    ensures Shl(x, 30) == 0x4000_0000 * x
    ensures Shl(x, 39) == 0x80_0000_0000 * x
    ensures Shl(x, 48) == 0x1_0000_0000_0000 * x
  {
    Shl9(x);
    ShlAdd(x, 12, 9);
    Shl9(Shl(x, 12));
    ShlAdd(x, 21, 9);
    Shl9(Shl(x, 21));
    ShlAdd(x, 30, 9);
    Shl9(Shl(x, 30));
    ShlAdd(x, 39, 9);
    Shl9(Shl(x, 39));
  }

  /** The widths left above those shifts in a 64-bit word, and the address field. */
  lemma OnesTable()
    ensures Shl(1, 25) == 0x200_0000 && Shl(1, 34) == 0x4_0000_0000 && Shl(1, 36) == 0x10_0000_0000
    ensures Shl(1, 43) == 0x800_0000_0000 && Shl(1, 52) == 0x10_0000_0000_0000
    ensures Shl(1, 62) == 0x4000_0000_0000_0000
  {
    ShlTable(1);
    ShlAdd(1, 21, 4);
    Shl9(Shl(1, 21));
    ShlAdd(1, 30, 4);
    ShlAdd(1, 30, 6);
    Shl9(Shl(1, 30));
    ShlAdd(1, 39, 4);
    Shl9(Shl(1, 39));
    ShlAdd(1, 48, 4);
    ShlAdd(1, 48, 12);
    Shl9(Shl(1, 48));
    ShlAdd(1, 60, 2);
    Shl9(Shl(1, 60));
  }

  /** `x & (ones << k)` where the field above bit k of x fits in the mask. */
  lemma AndHigh(q: nat, r: nat, k: nat, j: nat)
    requires r < Shl(1, k) && q < Shl(1, j)
    ensures And(Shl(q, k) + r, Shl(Shl(1, j) - 1, k)) == Shl(q, k)
  {
    AndSplit(q, r, Shl(1, j) - 1, 0, k);
    AndOnes(q, j);
  }

  /** Rounding down with the 4 KB, 2 MB, 1 GB and 512 GB masks of a 64-bit word. */
  lemma RoundDown12(x: nat)
    requires x < WORD
    ensures And(x, WORD - 0x1000) == x / 0x1000 * 0x1000
  {
    RoundDown(x, x / 0x1000, x % 0x1000, 12, 52, 0x1000);
  }

  lemma RoundDown21(x: nat)
    requires x < WORD
    ensures And(x, WORD - 0x20_0000) == x / 0x20_0000 * 0x20_0000
  {
    RoundDown(x, x / 0x20_0000, x % 0x20_0000, 21, 43, 0x20_0000);
  }

  lemma RoundDown30(x: nat)
    requires x < WORD
    ensures And(x, WORD - 0x4000_0000) == x / 0x4000_0000 * 0x4000_0000
  {
    RoundDown(x, x / 0x4000_0000, x % 0x4000_0000, 30, 34, 0x4000_0000);
  }

  lemma RoundDown39(x: nat)
    requires x < WORD
    ensures And(x, WORD - 0x80_0000_0000) == x / 0x80_0000_0000 * 0x80_0000_0000
  {
    RoundDown(x, x / 0x80_0000_0000, x % 0x80_0000_0000, 39, 25, 0x80_0000_0000);
  }

  lemma RoundDown(x: nat, q: nat, r: nat, k: nat, j: nat, p: nat)
    requires (k, j, p) in {(12, 52, 0x1000), (21, 43, 0x20_0000), (30, 34, 0x4000_0000), (39, 25, 0x80_0000_0000)}
    requires x == q * p + r && r < p && x < WORD
    ensures And(x, WORD - p) == q * p
  {
    OnesTable();
    ShlTable(1);
    ShlTable(q);
    var ones := Shl(1, j) - 1;
    ShlTable(ones);
    AndHigh(q, r, k, j);
  }

  /** The low field of a word under a mask of ones. */
  lemma AndLow(q: nat, r: nat, k: nat)
    requires r < Shl(1, k)
    ensures And(Shl(q, k) + r, Shl(1, k) - 1) == r
  {
    AndSplit(q, r, 0, Shl(1, k) - 1, k);
    AndOnes(r, k);
    ShlOfZero(k);
  }

  lemma ShlOfZero(k: nat)
    ensures Shl(0, k) == 0
  {
  }

  /** The page address field, bits 47..12. */
  lemma AddrField(hi: nat, mid: nat, lo: nat)
    requires mid < 0x10_0000_0000 && lo < 0x1000
    ensures And(hi * 0x1_0000_0000_0000 + mid * 0x1000 + lo, 0xFFFF_FFFF_F000) == mid * 0x1000
  {
    OnesTable();
    ShlTable(1);
    ShlTable(hi);
    ShlTable(mid);
    ShlTable(0xF_FFFF_FFFF);
    ShlOfZero(48);
    AndSplit(hi, mid * 0x1000 + lo, 0, 0xFFFF_FFFF_F000, 48);
    AndHigh(mid, lo, 12, 36);
  }

  lemma OrAbove(hi: nat, x: nat, lo: nat, k: nat)
    requires x < Shl(1, k) && lo < Shl(1, k)
    ensures Or(x, Shl(hi, k) + lo) == Shl(hi, k) + Or(x, lo)
  {
    ShlOfZero(k);
    OrSplit(0, x, hi, lo, k);
    OrZero(hi);
  }

  lemma OrBelow(mid: nat, lo: nat, k: nat)
    requires lo < Shl(1, k)
    ensures Or(Shl(mid, k), lo) == Shl(mid, k) + lo
  {
    ShlOfZero(k);
    OrSplit(mid, 0, 0, lo, k);
    OrZero(mid);
    OrZero(lo);
  }

  /** Or of an address field with attributes above and below it is their sum. */
  lemma OrFields(hi: nat, mid: nat, lo: nat)
    requires mid < 0x10_0000_0000 && lo < 0x1000
    ensures Or(mid * 0x1000, hi * 0x1_0000_0000_0000 + lo) == hi * 0x1_0000_0000_0000 + mid * 0x1000 + lo
  {
    ShlTable(1);
    ShlTable(hi);
    ShlTable(mid);
    var x := mid * 0x1000;
    OrAbove(hi, x, lo, 48);
    OrBelow(mid, lo, 12);
  }

  /** Clearing bit 1 of a 64-bit word whose low two bits are both set. */
  lemma ClearBit1(x: nat)
    requires x < WORD && x % 4 == 3
    ensures And(x, WORD - 3) == x - 2
  {
    Bits62();
    Shl2(1);
    Shl2(x / 4);
    Shl2(0x3FFF_FFFF_FFFF_FFFF);
    AndSplit(x / 4, 3, 0x3FFF_FFFF_FFFF_FFFF, 1, 2);
    AndOnes(x / 4, 62);
    AndStep(3, 1);
  }

  lemma Shl2(x: nat)
    ensures Shl(x, 2) == 4 * x
  {
    assert Shl(x, 1) == 2 * x;
  }

  lemma Bits62()
    ensures Shl(1, 62) == 0x4000_0000_0000_0000
  {
    OnesTable();
  }

  lemma Shl21(x: nat)
    ensures Shl(x, 21) == 0x20_0000 * x
  {
    ShlTable(x);
  }

  lemma LowPart21(o: nat, h: nat, z: nat)
    requires o == Shl(h, 21) + z && z < Shl(1, 21)
    ensures o % 0x20_0000 == z
  {
    Shl21(h);
    Shl21(1);
  }

  lemma Split21(a: nat)
    ensures a == Shl(a / 0x20_0000, 21) + a % 0x20_0000 && a % 0x20_0000 < Shl(1, 21)
  {
    Shl21(a / 0x20_0000);
    Shl21(1);
  }

  /** Two words are both 2 MB aligned exactly when their or is. */
  lemma OrAligned21(a: nat, b: nat)
    ensures Or(a, b) % 0x20_0000 == 0 <==> a % 0x20_0000 == 0 && b % 0x20_0000 == 0
  {
    Split21(a);
    Split21(b);
    var h, z := OrParts(a, b, a / 0x20_0000, a % 0x20_0000, b / 0x20_0000, b % 0x20_0000, 21);
    LowPart21(Or(a, b), h, z);
  }

  lemma OrParts(a: nat, b: nat, q: nat, x: nat, r: nat, y: nat, k: nat) returns (h: nat, z: nat)
    requires a == Shl(q, k) + x && b == Shl(r, k) + y
    requires x < Shl(1, k) && y < Shl(1, k)
    ensures Or(a, b) == Shl(h, k) + z && z < Shl(1, k)
    ensures z == 0 <==> x == 0 && y == 0
  {
    OrSplit(q, x, r, y, k);
    OrBound(x, y, k);
    OrIsZero(x, y);
    h, z := Or(q, r), Or(x, y);
  }

  lemma AndLow21(a: nat)
    ensures And(a, 0x1F_FFFF) == a % 0x20_0000
  {
    Split21(a);
    Shl21(1);
    AndLow(a / 0x20_0000, a % 0x20_0000, 21);
  }

  lemma AndLow9(a: nat)
    ensures And(a, 511) == a % 512
  {
    ShlTable(1);
    ShlTable(a / 512);
    AndLow(a / 512, a % 512, 9);
  }
}
