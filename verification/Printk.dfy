/**
 Number formatting and scanning of kernel/printk.c: number writes padding,
 sign, prefix, zeros and digits through a digit buffer; scan_number reads a
 decimal.
 */
module Printk {
  import opened Bits

  datatype Option<T> = None | Some(value: T)

  /** The flag bits of the conversion. */
  datatype Flags = Flags(zeropad: bool, sign: bool, plus: bool, space: bool, left: bool, special: bool, small: bool)

  const HALF: nat := 0x8000_0000_0000_0000
  const INT_MAX: nat := 0x7fff_ffff
  const TMP_SIZE: nat := 128

  const UPPER: string := "0123456789ABCDEFGHIJKLMNOPQRSTUVWXYZ"
  const LOWER: string := "0123456789abcdefghijklmnopqrstuvwxyz"

  function DigitChar(d: nat, small: bool): char
    requires d < 36
  {
    if small then LOWER[d] else UPPER[d]
  }

  /** The reading of a digit character, in either case. */
  function DigitValue(c: char): nat {
    if '0' <= c <= '9' then (c - '0') as nat
    else if 'A' <= c <= 'Z' then 10 + (c - 'A') as nat
    else if 'a' <= c <= 'z' then 10 + (c - 'a') as nat
    else 36
  }

  lemma DigitReadsBack(d: nat, small: bool)
    requires d < 36
    ensures DigitValue(DigitChar(d, small)) == d
  {
    if small { LowerTable(d); } else { UpperTable(d); }
  }

  lemma LowerTable(d: nat)
    requires d < 36
    ensures LOWER[d] == if d < 10 then '0' + d as char else 'a' + (d - 10) as char
  {
  }

  lemma UpperTable(d: nat)
    requires d < 36
    ensures UPPER[d] == if d < 10 then '0' + d as char else 'A' + (d - 10) as char
  {
  }

  // ---------- digits ----------

  lemma Smaller(n: nat, base: nat)
    requires base >= 2
    ensures 0 <= n / base <= n / 2 && n % base < base && n == n / base * base + n % base
  {
    TimesBase(n / base, base);
  }

  lemma {:induction false} TimesBase(q: nat, base: nat)
    requires base >= 2
    ensures q * base >= 2 * q
  {
    if base > 2 {
      TimesBase(q, base - 1);
      assert q * base == q * (base - 1) + q;
    }
  }

  /** Least significant digit first; none for 0. */
  function LowDigits(n: nat, base: nat): (ds: seq<nat>)
    requires base >= 2
    ensures forall i :: 0 <= i < |ds| ==> ds[i] < base
    ensures n > 0 ==> |ds| > 0
  {
    if n == 0 then [] else Smaller(n, base); [n % base] + LowDigits(n / base, base)
  }

  function Digits(n: nat, base: nat): (ds: seq<nat>)
    requires base >= 2
    ensures |ds| > 0 && forall i :: 0 <= i < |ds| ==> ds[i] < base
  {
    if n == 0 then [0] else LowDigits(n, base)
  }

  function Value(ds: seq<nat>, base: nat): nat {
    if ds == [] then 0 else ds[0] + base * Value(ds[1..], base)
  }

  lemma ValueCons(d: nat, ds: seq<nat>, base: nat)
    ensures Value([d] + ds, base) == d + base * Value(ds, base)
  {
    assert ([d] + ds)[1..] == ds;
  }

  /** The digits of a number read back as the number. */
  lemma {:induction false} LowDigitsReadBack(n: nat, base: nat)
    requires base >= 2
    ensures Value(LowDigits(n, base), base) == n
  {
    if n > 0 {
      var q, r := LowDigitsStep(n, base);
      LowDigitsReadBack(q, base);
      ValueCons(r, LowDigits(q, base), base);
    }
  }

  lemma LowDigitsStep(n: nat, base: nat) returns (q: nat, r: nat)
    requires base >= 2 && n > 0
    ensures n == r + base * q && q < n && LowDigits(n, base) == [r] + LowDigits(q, base)
  {
    Smaller(n, base);
    q, r := n / base, n % base;
  }

  lemma DigitsReadBack(n: nat, base: nat)
    requires base >= 2
    ensures Value(Digits(n, base), base) == n
  {
    LowDigitsReadBack(n, base);
    ValueCons(0, [], base);
    assert [0] + [] == [0];
  }

  /** A k-bit number has at most k digits. */
  lemma {:induction false} DigitCount(n: nat, base: nat, k: nat)
    requires base >= 2 && n < Shl(1, k)
    ensures |LowDigits(n, base)| <= k
    decreases k
  {
    if n > 0 && k > 0 {
      Smaller(n, base);
      DigitCount(n / base, base, k - 1);
    }
  }

  lemma WordBits()
    ensures Shl(1, 64) == WORD
  {
    OnesTable();
    ShlAdd(1, 62, 2);
    Shl9(Shl(1, 62));
  }

  // ---------- the specified output ----------

  function Pad(n: int, c: char): (s: string)
    ensures |s| == (if n > 0 then n else 0) && forall i :: 0 <= i < |s| ==> s[i] == c
  {
    if n <= 0 then "" else Pad(n - 1, c) + [c]
  }

  /** Two's complement reading: a signed conversion of the upper half is negative. */
  predicate Negative(num: nat, fl: Flags) {
    fl.sign && num >= HALF
  }

  function Magnitude(num: nat, fl: Flags): nat
    requires num < WORD
  {
    if Negative(num, fl) then WORD - num else num
  }

  function SignText(num: nat, fl: Flags): string {
    if Negative(num, fl) then "-"
    else if fl.sign && fl.plus then "+"
    else if fl.sign && fl.space then " "
    else ""
  }

  function PrefixText(base: nat, fl: Flags): string {
    if fl.special && base == 8 then "0"
    else if fl.special && base == 16 then ['0', DigitChar(33, fl.small)]
    else ""
  }

  function TextDigits(ds: seq<nat>, small: bool): (s: string)
    requires forall i :: 0 <= i < |ds| ==> ds[i] < 36
    ensures |s| == |ds| && forall i :: 0 <= i < |ds| ==> s[i] == DigitChar(ds[|ds| - 1 - i], small)
  {
    seq(|ds|, i requires 0 <= i < |ds| => DigitChar(ds[|ds| - 1 - i], small))
  }

  function Max(a: int, b: int): int {
    if a > b then a else b
  }

  /** What is left of the field width. A minus sign does not count against it. */
  function Room(num: nat, base: nat, size: int, precision: int, fl: Flags): int
    requires num < WORD && base >= 2
  {
    size - (if Negative(num, fl) then 0 else |SignText(num, fl)|) - |PrefixText(base, fl)|
    - Max(precision, |Digits(Magnitude(num, fl), base)|)
  }

  function LeadPad(room: int, fl: Flags): string { if !fl.left && !fl.zeropad then Pad(room, ' ') else "" }
  function ZeroPad(room: int, fl: Flags): string { if !fl.left && fl.zeropad then Pad(room, '0') else "" }
  function TailPad(room: int, fl: Flags): string { if fl.left then Pad(room, ' ') else "" }

  /** Padding, sign, prefix, zeros, digits, padding. */
  function Laid(sign: string, prefix: string, room: int, zeros: int, digits: string, fl: Flags): string {
    LeadPad(room, fl) + (sign + (prefix + (ZeroPad(room, fl) + (Pad(zeros, '0') + (digits + TailPad(room, fl))))))
  }

  /** The text of a number. */
  function Formatted(num: nat, base: nat, size: int, precision: int, fl: Flags): string
    requires num < WORD && 2 <= base <= 36
  {
    var ds := Digits(Magnitude(num, fl), base);
    Laid(SignText(num, fl), PrefixText(base, fl), Room(num, base, size, precision, fl),
         Max(precision, |ds|) - |ds|, TextDigits(ds, fl.small), fl)
  }

  /** The reading of a string of digit characters in a base, most significant first. */
  function TextValue(s: string, base: nat): nat {
    if s == "" then 0 else base * TextValue(s[..|s| - 1], base) + DigitValue(s[|s| - 1])
  }

  lemma TextStep(s: string, t: string, c: char, base: nat)
    requires s == t + [c]
    ensures TextValue(s, base) == base * TextValue(t, base) + DigitValue(c)
  {
    assert s[..|s| - 1] == t;
  }

  lemma TextOfRest(ds: seq<nat>, small: bool, c: char)
    requires ds != [] && (forall i :: 0 <= i < |ds| ==> ds[i] < 36) && c == DigitChar(ds[0], small)
    ensures TextDigits(ds, small) == TextDigits(ds[1..], small) + [c]
  {
    var a, b := TextDigits(ds, small), TextDigits(ds[1..], small) + [c];
    forall i | 0 <= i < |ds| ensures a[i] == b[i] {
      if i < |ds| - 1 { assert ds[1..][|ds| - 2 - i] == ds[|ds| - 1 - i]; }
    }
  }

  lemma {:induction false} TextOfDigits(ds: seq<nat>, base: nat, small: bool)
    requires forall i :: 0 <= i < |ds| ==> ds[i] < 36
    ensures TextValue(TextDigits(ds, small), base) == Value(ds, base)
  {
    if ds != [] {
      var c := DigitChar(ds[0], small);
      TextOfRest(ds, small, c);
      TextStep(TextDigits(ds, small), TextDigits(ds[1..], small), c, base);
      TextOfDigits(ds[1..], base, small);
      DigitReadsBack(ds[0], small);
    }
  }

  /** For every 64-bit value and base, the digits written read back as the magnitude, and are at most 64. */
  lemma NumberReadsBack(num: nat, base: nat, fl: Flags)
    requires num < WORD && 2 <= base <= 36
    ensures var ds := Digits(Magnitude(num, fl), base);
            TextValue(TextDigits(ds, fl.small), base) == Magnitude(num, fl) && |ds| <= 64
  {
    var m := Magnitude(num, fl);
    TextOfDigits(Digits(m, base), base, fl.small);
    DigitsReadBack(m, base);
    WordBits();
    DigitCount(m, base, 64);
  }

  /** The exact length: the digits or the precision, sign and prefix, and the room if there is any. */
  lemma FormattedLength(num: nat, base: nat, size: int, precision: int, fl: Flags)
    requires num < WORD && 2 <= base <= 36
    ensures |Formatted(num, base, size, precision, fl)| ==
            Max(Room(num, base, size, precision, fl), 0) + |SignText(num, fl)| + |PrefixText(base, fl)|
            + Max(precision, |Digits(Magnitude(num, fl), base)|)
  {
  }

  /** So the field is filled exactly when it is wide enough, with one more column for a minus sign. */
  lemma FieldWidth(num: nat, base: nat, size: int, precision: int, fl: Flags)
    requires num < WORD && 2 <= base <= 36
    requires Room(num, base, size, precision, fl) >= 0
    ensures |Formatted(num, base, size, precision, fl)| == size + (if Negative(num, fl) then 1 else 0)
  {
    FormattedLength(num, base, size, precision, fl);
  }

  // ---------- number ----------

  /** `while (size-- > 0) *str++ = c;` */
  method Emit(out0: string, size0: int, c: char) returns (out: string, size: int)
    ensures out == out0 + Pad(size0, c)
    ensures size == if size0 > 0 then -1 else size0 - 1
  {
    out, size := out0, size0;
    ghost var k := 0;
    while size > 0
      invariant 0 <= k && size == size0 - k && (k > 0 ==> size >= 0)
      invariant out == out0 + Pad(k, c)
    {
      size := size - 1;
      out := out + [c];
      k := k + 1;
    }
    size := size - 1;
  }

  /** The conversion loop into tmp, by do_div, which needs at most 64 of its 128 slots. */
  method Convert(num0: nat, base: nat, small: bool, tmp: array<char>) returns (i: nat)
    requires num0 < WORD && 2 <= base <= 36 && tmp.Length == TMP_SIZE
    modifies tmp
    ensures i == |Digits(num0, base)| <= 64
    ensures forall j :: 0 <= j < i ==> tmp[j] == DigitChar(Digits(num0, base)[j], small)
  {
    WordBits();
    DigitCount(num0, base, 64);
    var num: nat := num0;
    i := 0;
    if num == 0 {
      tmp[0] := '0';
      i := 1;
      assert DigitChar(0, small) == '0';
      return;
    }
    ghost var ds := LowDigits(num0, base);
    while num != 0
      invariant i <= |ds| && ds[i..] == LowDigits(num, base)
      invariant forall j :: 0 <= j < i ==> tmp[j] == DigitChar(ds[j], small)
      decreases num
    {
      Smaller(num, base);
      assert ds[i..][0] == num % base && ds[i..][1..] == ds[i + 1..];
      tmp[i] := DigitChar(num % base, small);
      i := i + 1;
      num := num / base;
    }
  }

  /** `while (i-- > 0) *str++ = tmp[i];` */
  method EmitDigits(out0: string, tmp: array<char>, n: nat, ghost ds: seq<nat>, ghost small: bool) returns (out: string)
    requires n == |ds| <= tmp.Length && forall j :: 0 <= j < n ==> ds[j] < 36 && tmp[j] == DigitChar(ds[j], small)
    ensures out == out0 + TextDigits(ds, small)
  {
    out := out0;
    var i := n;
    while i > 0
      invariant 0 <= i <= n && out == out0 + TextDigits(ds, small)[..n - i]
    {
      i := i - 1;
      out := out + [tmp[i]];
      assert TextDigits(ds, small)[..n - i] == TextDigits(ds, small)[..n - i - 1] + [tmp[i]];
    }
    assert TextDigits(ds, small)[..n] == TextDigits(ds, small);
  }

  lemma AppendAll(s: string, a: string, b: string, c: string, d: string, e: string, f: string, g: string)
    ensures s + (a + (b + (c + (d + (e + (f + g)))))) == s + a + b + c + d + e + f + g
  {
    Assoc(s, a, b + (c + (d + (e + (f + g)))));
    Assoc(s + a, b, c + (d + (e + (f + g))));
    Assoc(s + a + b, c, d + (e + (f + g)));
    Assoc(s + a + b + c, d, e + (f + g));
    Assoc(s + a + b + c + d, e, f + g);
    Assoc(s + a + b + c + d + e, f, g);
  }

  lemma Assoc(a: string, b: string, c: string)
    ensures a + (b + c) == (a + b) + c
  {
  }

  /** The emitting half of number, from the room left in the field. */
  method Write(str: string, sign: string, base: nat, room: int, zeros: int, fl: Flags, tmp: array<char>, i: nat,
               ghost ds: seq<nat>)
    returns (out: string)
    requires !(fl.left && fl.zeropad)
    requires i == |ds| <= tmp.Length && forall j :: 0 <= j < i ==> ds[j] < 36 && tmp[j] == DigitChar(ds[j], fl.small)
    ensures out == str + Laid(sign, PrefixText(base, fl), room, zeros, TextDigits(ds, fl.small), fl)
  {
    AppendAll(str, LeadPad(room, fl), sign, PrefixText(base, fl), ZeroPad(room, fl), Pad(zeros, '0'),
              TextDigits(ds, fl.small), TailPad(room, fl));
    var size, rest;
    out, size := WriteLead(str, room, fl);
    out := out + sign;
    out := WritePrefix(out, base, fl);
    out, size := WriteZeroPad(out, size, room, fl);
    out, rest := Emit(out, zeros, '0');
    out := EmitDigits(out, tmp, i, ds, fl.small);
    out, size := Emit(out, size, ' ');
  }

  method WriteLead(str: string, room: int, fl: Flags) returns (out: string, size: int)
    ensures out == str + LeadPad(room, fl)
    ensures size == if fl.left || fl.zeropad then room else if room > 0 then -1 else room - 1
  {
    out, size := str, room;
    if !fl.zeropad && !fl.left {
      out, size := Emit(out, size, ' ');
    }
  }

  method WritePrefix(str: string, base: nat, fl: Flags) returns (out: string)
    ensures out == str + PrefixText(base, fl)
  {
    out := str;
    if fl.special {
      if base == 8 { out := out + ['0']; }
      else if base == 16 { out := out + ['0', DigitChar(33, fl.small)]; }
    }
  }

  method WriteZeroPad(str: string, size0: int, ghost room: int, fl: Flags) returns (out: string, size: int)
    requires !(fl.left && fl.zeropad)
    requires size0 == if fl.left || fl.zeropad then room else if room > 0 then -1 else room - 1
    ensures out == str + ZeroPad(room, fl)
    ensures Pad(size, ' ') == TailPad(room, fl)
  {
    out, size := str, size0;
    if !fl.left {
      out, size := Emit(out, size, if fl.zeropad then '0' else ' ');
    }
  }

  /** The first part of number: the sign, the magnitude, and the width they leave. */
  method TakeSign(num0: nat, base: nat, size0: int, fl: Flags) returns (sign: string, num: nat, size: int)
    requires num0 < WORD
    ensures sign == SignText(num0, fl) && num == Magnitude(num0, fl) < WORD
    ensures size == size0 - (if Negative(num0, fl) then 0 else |SignText(num0, fl)|) - |PrefixText(base, fl)|
  {
    sign, num, size := "", num0, size0;
    if fl.sign {
      if num >= HALF {
        sign := "-";
        num := WORD - num;
      } else if fl.plus {
        sign := "+";
        size := size - 1;
      } else if fl.space {
        sign := " ";
        size := size - 1;
      }
    }
    if fl.special {
      if base == 16 { size := size - 2; }
      else if base == 8 { size := size - 1; }
    }
  }

  /** `if (type & LEFT) type &= ~ZEROPAD;` */
  function Settle(type0: Flags): Flags {
    if type0.left then type0.(zeropad := false) else type0
  }

  /** number: the null result for a bad base, otherwise the text appended at str. */
  method Number(str: string, num0: nat, base: int, size0: int, precision0: int, type0: Flags)
    returns (r: Option<string>)
    requires num0 < WORD
    ensures r.None? <==> base < 2 || base > 36
    ensures r.Some? ==> r.value == str + Formatted(num0, base, size0, precision0, Settle(type0))
  {
    var fl := Settle(type0);
    if base < 2 || base > 36 { return None; }
    var tmp := new char[TMP_SIZE](i => ' ');
    var precision := precision0;
    var sign, num, size := TakeSign(num0, base, size0, fl);
    var i := Convert(num, base, fl.small, tmp);
    if i > precision { precision := i; }
    size := size - precision;
    var out := Write(str, sign, base, size, precision - i, fl, tmp, i, Digits(num, base));
    WrittenIsFormatted(num0, base, size0, precision0, fl, Digits(num, base), sign, size, precision - i);
    r := Some(out);
  }

  lemma WrittenIsFormatted(num0: nat, base: nat, size0: int, precision0: int, fl: Flags, ds: seq<nat>, sign: string,
                           room: int, zeros: int)
    requires num0 < WORD && 2 <= base <= 36 && ds == Digits(Magnitude(num0, fl), base) && sign == SignText(num0, fl)
    requires room == Room(num0, base, size0, precision0, fl) && zeros == Max(precision0, |ds|) - |ds|
    ensures Laid(sign, PrefixText(base, fl), room, zeros, TextDigits(ds, fl.small), fl) ==
              Formatted(num0, base, size0, precision0, fl)
  {
  }

  // ---------- scan_number ----------

  predicate IsDigit(c: char) {
    '0' <= c <= '9'
  }

  function DigitPrefix(s: string): (p: string)
    ensures |p| <= |s| && p == s[..|p|]
  {
    if s == "" || !IsDigit(s[0]) then "" else [s[0]] + DigitPrefix(s[1..])
  }

  const INT_RANGE: nat := 0x1_0000_0000

  /** The 32-bit signed value of an integer, with wrap-around. */
  function Int(x: int): int {
    (x + INT_RANGE / 2) % INT_RANGE - INT_RANGE / 2
  }

  lemma IntWraps(x: int, k: int)
    ensures Int(x + k * INT_RANGE) == Int(x)
  {
  }

  /** Wrapping after every operation is wrapping once. */
  lemma IntStep(v: nat, d: nat)
    ensures Int(Int(Int(v) * 10) + d) == Int(10 * v + d)
  {
    var k := (v + INT_RANGE / 2) / INT_RANGE;
    assert Int(v) * 10 == 10 * v + (-10 * k) * INT_RANGE;
    IntWraps(10 * v, -10 * k);
    var j := (10 * v + INT_RANGE / 2) / INT_RANGE;
    assert Int(10 * v) + d == (10 * v + d) + (-j) * INT_RANGE;
    IntWraps(10 * v + d, -j);
  }

  /** The wrapped value is the value if and only if that fits. */
  lemma IntIsExact(v: nat)
    ensures Int(v) == v <==> v <= INT_MAX
  {
  }

  /**
   scan_number: the text behind the leading digits, and their value as an
   int; where that overflows, the usual wrap-around is modelled.
   */
  method ScanNumber(s: string) returns (rest: string, number: int)
    ensures number == Int(TextValue(DigitPrefix(s), 10)) && rest == s[|DigitPrefix(s)|..]
    ensures number == TextValue(DigitPrefix(s), 10) <==> TextValue(DigitPrefix(s), 10) <= INT_MAX
  {
    var i := 0;
    number := 0;
    ghost var p := DigitPrefix(s);
    while i < |s| && IsDigit(s[i])
      invariant 0 <= i <= |p| && p[i..] == DigitPrefix(s[i..]) && number == Int(TextValue(p[..i], 10))
    {
      PrefixStep(s, p, i);
      IntStep(TextValue(p[..i], 10), (s[i] - '0') as nat);
      number := Int(number * 10);
      number := Int(number + (s[i] - '0') as nat);
      i := i + 1;
    }
    IntIsExact(TextValue(p, 10));
    assert i == |p| && p[..i] == p by { if i < |s| { assert s[i..][0] == s[i]; } }
    rest := s[i..];
  }

  /** One more digit of the prefix p of s. */
  lemma PrefixStep(s: string, p: string, i: nat)
    requires i < |s| && IsDigit(s[i]) && i <= |p| && p[i..] == DigitPrefix(s[i..])
    ensures i < |p| && p[i + 1..] == DigitPrefix(s[i + 1..])
    ensures TextValue(p[..i + 1], 10) == 10 * TextValue(p[..i], 10) + (s[i] - '0') as nat
  {
    assert s[i..][1..] == s[i + 1..] && s[i..][0] == s[i];
    assert p[i..][1..] == p[i + 1..] && p[i..][0] == s[i];
    TextStep(p[..i + 1], p[..i], s[i], 10);
  }

  // ---------- the two are inverse ----------

  const PLAIN := Flags(false, false, false, false, false, false, false)

  lemma {:induction false} AllDigits(s: string, rest: string)
    requires (forall i :: 0 <= i < |s| ==> IsDigit(s[i])) && (rest == "" || !IsDigit(rest[0]))
    ensures DigitPrefix(s + rest) == s
  {
    if s == "" {
      assert s + rest == rest;
    } else {
      assert (s + rest)[1..] == s[1..] + rest;
      AllDigits(s[1..], rest);
    }
  }

  /** Plain decimal output is just the digits. */
  lemma PlainText(n: nat)
    requires n <= INT_MAX
    ensures Formatted(n, 10, -1, -1, PLAIN) == TextDigits(Digits(n, 10), false)
  {
    var ds := Digits(n, 10);
    var t := TextDigits(ds, false);
    assert "" + ("" + ("" + ("" + ("" + (t + ""))))) == t;
  }

  /** For 0..INT_MAX, scan_number reads back what number writes in plain decimal. */
  lemma ScanInvertsNumber(n: nat, rest: string)
    requires n <= INT_MAX && (rest == "" || !IsDigit(rest[0]))
    ensures var text := Formatted(n, 10, -1, -1, PLAIN);
            DigitPrefix(text + rest) == text && TextValue(text, 10) == n
  {
    PlainText(n);
    NumberReadsBack(n, 10, PLAIN);
    DecimalDigits(Digits(n, 10));
    AllDigits(TextDigits(Digits(n, 10), false), rest);
  }

  lemma DecimalDigits(ds: seq<nat>)
    requires forall i :: 0 <= i < |ds| ==> ds[i] < 10
    ensures forall i :: 0 <= i < |TextDigits(ds, false)| ==> IsDigit(TextDigits(ds, false)[i])
  {
    var text := TextDigits(ds, false);
    forall i | 0 <= i < |text| ensures IsDigit(text[i]) { UpperTable(ds[|ds| - 1 - i]); }
  }
}
