/**
 What the text of a number means to a reader: the parts of the output of
 number (kernel/printk.c) in terms of the arguments alone, and a reader that
 skips blanks, takes a sign, skips a hexadecimal prefix and reads digits, which
 gets back the value for every width, precision and flag set.
 */
module ReadBack {
  import opened Bits
  import opened Printk

  /** The value of a 64-bit word, in two's complement when it is taken as signed. */
  function Printed(num: nat, signed: bool): int {
    if signed && num >= 0x8000_0000_0000_0000 then num - 0x1_0000_0000_0000_0000 else num
  }

  function Abs(x: int): nat {
    if x < 0 then -x else x
  }

  predicate AllOf(s: string, c: char) {
    forall i :: 0 <= i < |s| ==> s[i] == c
  }

  /** A digit of the base, in small letters or in capitals. */
  predicate DigitOf(c: char, base: nat, small: bool) {
    || ('0' <= c <= '9' && (c - '0') as nat < base)
    || (small && 'a' <= c <= 'z' && 10 + (c - 'a') as nat < base)
    || (!small && 'A' <= c <= 'Z' && 10 + (c - 'A') as nat < base)
  }

  predicate DigitsOf(s: string, base: nat, small: bool) {
    s != "" && forall i :: 0 <= i < |s| ==> DigitOf(s[i], base, small)
  }

  /** Without a leading zero, unless it is all there is. */
  predicate Canonical(s: string) {
    |s| == 1 || (s != "" && s[0] != '0')
  }

  /** The sign that is asked for. */
  function SignFor(value: int, fl: Flags): string {
    if value < 0 then "-" else if fl.sign && fl.plus then "+" else if fl.sign && fl.space then " " else ""
  }

  function PrefixFor(base: nat, fl: Flags): string {
    if !fl.special then "" else if base == 8 then "0" else if base != 16 then "" else if fl.small then "0x" else "0X"
  }

  // ---------- the parts of the text ----------

  lemma {:induction false} LastDigit(n: nat, base: nat)
    requires base >= 2 && n > 0
    ensures var ds := LowDigits(n, base); ds != [] && ds[|ds| - 1] > 0
  {
    var q, r := LowDigitsStep(n, base);
    if q > 0 {
      LastDigit(q, base);
    } else {
      assert base * q == 0;
    }
  }

  lemma CharOf(d: nat, base: nat, small: bool)
    requires d < base <= 36
    ensures DigitOf(DigitChar(d, small), base, small) && (DigitChar(d, small) == '0' <==> d == 0)
  {
    if small { LowerTable(d); } else { UpperTable(d); }
  }

  lemma DigitsMean(m: nat, base: nat, small: bool)
    requires 2 <= base <= 36
    ensures var s := TextDigits(Digits(m, base), small);
            DigitsOf(s, base, small) && Canonical(s) && TextValue(s, base) == m
  {
    var ds := Digits(m, base);
    DigitChars(ds, base, small);
    if m > 0 { LastDigit(m, base); }
    FirstChar(ds, base, small);
    TextOfDigits(ds, base, small);
    DigitsReadBack(m, base);
  }

  lemma DigitChars(ds: seq<nat>, base: nat, small: bool)
    requires base <= 36 && ds != [] && forall i :: 0 <= i < |ds| ==> ds[i] < base
    ensures DigitsOf(TextDigits(ds, small), base, small)
  {
    var s := TextDigits(ds, small);
    forall i | 0 <= i < |s| ensures DigitOf(s[i], base, small) { CharOf(ds[|ds| - 1 - i], base, small); }
  }

  lemma FirstChar(ds: seq<nat>, base: nat, small: bool)
    requires base <= 36 && ds != [] && (forall i :: 0 <= i < |ds| ==> ds[i] < base)
    requires |ds| == 1 || ds[|ds| - 1] > 0
    ensures Canonical(TextDigits(ds, small))
  {
    CharOf(ds[|ds| - 1], base, small);
  }

  lemma Prefixes(base: nat, fl: Flags)
    ensures PrefixText(base, fl) == PrefixFor(base, fl)
  {
    LowerTable(33);
    UpperTable(33);
  }

  /**
   The parts of the text of every number: blanks only in front, and only
   without the flags for the left and for zeros, or only behind, with the flag
   for the left; then the sign that the value and the flags ask for; the
   prefix of its base; zeros; and the digits of its magnitude. The text is as
   long as the field or as its parts, with one more column for a minus sign.
   */
  lemma Anatomy(num: nat, base: nat, size: int, precision: int, fl: Flags)
    returns (lead: string, zeros: string, digits: string, tail: string)
    requires num < WORD && 2 <= base <= 36
    ensures var value := Printed(num, fl.sign);
            var sign, prefix := SignFor(value, fl), PrefixFor(base, fl);
            var text := Formatted(num, base, size, precision, fl);
            && text == lead + (sign + (prefix + (zeros + (digits + tail))))
            && DigitsOf(digits, base, fl.small) && Canonical(digits) && TextValue(digits, base) == Abs(value)
            && |text| == Max(size + (if value < 0 then 1 else 0), |sign| + |prefix| + Max(precision, |digits|))
    ensures AllOf(lead, ' ') && AllOf(tail, ' ') && AllOf(zeros, '0')
    ensures (lead != "" ==> !fl.left && !fl.zeropad) && (tail != "" ==> fl.left)
    ensures |zeros| >= Max(precision, |digits|) - |digits|
    ensures fl.left || !fl.zeropad ==> |zeros| == Max(precision, |digits|) - |digits|
  {
    var m := Magnitude(num, fl);
    var ds := Digits(m, base);
    var room, extra := Room(num, base, size, precision, fl), Max(precision, |ds|) - |ds|;
    lead, tail, digits := LeadPad(room, fl), TailPad(room, fl), TextDigits(ds, fl.small);
    zeros := ZeroPad(room, fl) + Pad(extra, '0');
    DigitsMean(m, base, fl.small);
    Prefixes(base, fl);
    Signs(num, fl);
    TextLength(num, base, size, precision, fl, |ds|);
    LaidOut(SignText(num, fl), PrefixText(base, fl), room, extra, digits, fl);
    Pads(room, extra, fl);
  }

  lemma Signs(num: nat, fl: Flags)
    requires num < WORD
    ensures SignText(num, fl) == SignFor(Printed(num, fl.sign), fl)
    ensures Magnitude(num, fl) == Abs(Printed(num, fl.sign)) && (Negative(num, fl) <==> Printed(num, fl.sign) < 0)
  {
  }

  lemma TextLength(num: nat, base: nat, size: int, precision: int, fl: Flags, n: nat)
    requires num < WORD && 2 <= base <= 36 && n == |Digits(Magnitude(num, fl), base)|
    ensures |Formatted(num, base, size, precision, fl)| ==
            Max(size + (if Negative(num, fl) then 1 else 0),
                |SignText(num, fl)| + |PrefixText(base, fl)| + Max(precision, n))
  {
    FormattedLength(num, base, size, precision, fl);
    assert Negative(num, fl) ==> |SignText(num, fl)| == 1;
  }

  lemma LaidOut(sign: string, prefix: string, room: int, zeros: int, digits: string, fl: Flags)
    ensures var z := ZeroPad(room, fl) + Pad(zeros, '0');
            Laid(sign, prefix, room, zeros, digits, fl) ==
            LeadPad(room, fl) + (sign + (prefix + (z + (digits + TailPad(room, fl)))))
  {
    Assoc(ZeroPad(room, fl), Pad(zeros, '0'), digits + TailPad(room, fl));
  }

  lemma Pads(room: int, zeros: int, fl: Flags)
    requires zeros >= 0
    ensures AllOf(LeadPad(room, fl), ' ') && AllOf(TailPad(room, fl), ' ')
    ensures AllOf(ZeroPad(room, fl) + Pad(zeros, '0'), '0')
    ensures (LeadPad(room, fl) != "" ==> !fl.left && !fl.zeropad) && (TailPad(room, fl) != "" ==> fl.left)
    ensures |ZeroPad(room, fl) + Pad(zeros, '0')| >= zeros
    ensures fl.left || !fl.zeropad ==> |ZeroPad(room, fl) + Pad(zeros, '0')| == zeros
  {
  }

  /** A minus sign occurs exactly in the text of a negative value, a plus sign exactly where it is asked for. */
  lemma SignOccurs(num: nat, base: nat, size: int, precision: int, fl: Flags)
    requires num < WORD && 2 <= base <= 36
    ensures var text := Formatted(num, base, size, precision, fl);
            && ('-' in text <==> Printed(num, fl.sign) < 0)
            && ('+' in text <==> Printed(num, fl.sign) >= 0 && fl.sign && fl.plus)
  {
    var lead, zeros, digits, tail := Anatomy(num, base, size, precision, fl);
    var sign, prefix := SignFor(Printed(num, fl.sign), fl), PrefixFor(base, fl);
    var rest := prefix + (zeros + (digits + tail));
    NoSigns(lead, prefix, zeros, digits, tail, base, fl.small);
    assert '-' in lead + (sign + rest) <==> '-' in lead || '-' in sign || '-' in rest;
    assert '+' in lead + (sign + rest) <==> '+' in lead || '+' in sign || '+' in rest;
  }

  lemma NoSigns(lead: string, prefix: string, zeros: string, digits: string, tail: string, base: nat, small: bool)
    requires AllOf(lead, ' ') && AllOf(tail, ' ') && AllOf(zeros, '0') && DigitsOf(digits, base, small)
    requires prefix in {"", "0", "0x", "0X"}
    ensures var rest := prefix + (zeros + (digits + tail));
            '-' !in lead && '+' !in lead && '-' !in rest && '+' !in rest
  {
    assert '-' !in digits && '+' !in digits;
    assert '-' !in digits + tail && '+' !in digits + tail;
    assert '-' !in zeros + (digits + tail) && '+' !in zeros + (digits + tail);
  }

  // ---------- a reader ----------

  function SkipBlanks(s: string): string {
    if s != "" && s[0] == ' ' then SkipBlanks(s[1..]) else s
  }

  function UntilBlank(s: string): string {
    if s == "" || s[0] == ' ' then "" else [s[0]] + UntilBlank(s[1..])
  }

  function SkipSign(s: string): string {
    if s != "" && (s[0] == '-' || s[0] == '+') then s[1..] else s
  }

  function SkipHex(s: string, hex: bool): string {
    if hex && |s| >= 2 then s[2..] else s
  }

  /** Blanks, a sign, the prefix of a hexadecimal number where there is one, digits up to the next blank. */
  function ReadNumber(s: string, base: nat, hex: bool): int {
    var t := SkipBlanks(s);
    var m := TextValue(UntilBlank(SkipHex(SkipSign(t), hex)), base);
    if t != "" && t[0] == '-' then 0 - m else m
  }

  lemma {:induction false} BlanksSkipped(lead: string, s: string)
    requires AllOf(lead, ' ') && s != "" && s[0] != ' '
    ensures SkipBlanks(lead + s) == s
  {
    if lead == "" {
      assert lead + s == s;
    } else {
      assert (lead + s)[1..] == lead[1..] + s;
      BlanksSkipped(lead[1..], s);
    }
  }

  lemma {:induction false} ReadsUntilBlank(s: string, tail: string)
    requires ' ' !in s && AllOf(tail, ' ')
    ensures UntilBlank(s + tail) == s
  {
    if s == "" {
      assert s + tail == tail;
    } else {
      assert (s + tail)[1..] == s[1..] + tail;
      ReadsUntilBlank(s[1..], tail);
    }
  }

  lemma {:induction false} ZerosCount(zeros: string, digits: string, base: nat)
    requires AllOf(zeros, '0')
    ensures TextValue(zeros + digits, base) == TextValue(digits, base)
    decreases |zeros| + |digits|
  {
    if digits != "" {
      var front, c := digits[..|digits| - 1], digits[|digits| - 1];
      assert zeros + digits == (zeros + front) + [c] && digits == front + [c];
      TextStep(zeros + digits, zeros + front, c, base);
      TextStep(digits, front, c, base);
      ZerosCount(zeros, front, base);
    } else if zeros != "" {
      var front := zeros[..|zeros| - 1];
      assert zeros + digits == front + ['0'];
      TextStep(zeros + digits, front, '0', base);
      assert front + "" == front;
      ZerosCount(front, "", base);
    }
  }

  /** The prefix of an octal number reads as a zero. */
  lemma BodyReads(prefix: string, zeros: string, digits: string, tail: string, base: nat, small: bool, hex: bool)
    requires AllOf(tail, ' ') && AllOf(zeros, '0') && DigitsOf(digits, base, small)
    requires if hex then |prefix| == 2 else AllOf(prefix, '0')
    ensures TextValue(UntilBlank(SkipHex(prefix + (zeros + (digits + tail)), hex)), base) == TextValue(digits, base)
  {
    var body := prefix + (zeros + (digits + tail));
    if hex {
      assert body[2..] == (zeros + digits) + tail;
      assert ' ' !in zeros + digits;
      ReadsUntilBlank(zeros + digits, tail);
      ZerosCount(zeros, digits, base);
    } else {
      var all := prefix + zeros;
      assert body == (all + digits) + tail;
      assert ' ' !in all + digits;
      ReadsUntilBlank(all + digits, tail);
      ZerosCount(all, digits, base);
    }
  }

  /** A text whose body starts with a digit character is read as its sign says. */
  lemma SignReads(lead: string, sign: string, body: string, base: nat, hex: bool)
    requires AllOf(lead, ' ') && sign in {"", " ", "+", "-"} && body != "" && '0' <= body[0] != ' '
    ensures var m := TextValue(UntilBlank(SkipHex(body, hex)), base);
            ReadNumber(lead + (sign + body), base, hex) == if sign == "-" then 0 - m else m
  {
    SignSkipped(lead, sign, body);
    assert SkipSign(body) == body && body[0] != '-';
  }

  lemma SignSkipped(lead: string, sign: string, body: string)
    requires AllOf(lead, ' ') && sign in {"", " ", "+", "-"} && body != "" && '0' <= body[0] != ' '
    ensures var t := SkipBlanks(lead + (sign + body));
            t != "" && SkipSign(t) == body && (t[0] == '-' <==> sign == "-")
  {
    if sign == " " {
      assert lead + (sign + body) == (lead + sign) + body;
      BlanksSkipped(lead + sign, body);
    } else if sign == "" {
      assert sign + body == body;
      BlanksSkipped(lead, body);
    } else {
      BlanksSkipped(lead, sign + body);
      assert (sign + body)[1..] == body;
    }
  }

  lemma BodyStarts(prefix: string, zeros: string, digits: string, tail: string, base: nat, small: bool)
    requires AllOf(zeros, '0') && DigitsOf(digits, base, small) && prefix in {"", "0", "0x", "0X"}
    ensures var body := prefix + (zeros + (digits + tail)); body != "" && '0' <= body[0] != ' '
  {
    var body := prefix + (zeros + (digits + tail));
    assert body[0] == if prefix != "" then prefix[0] else if zeros != "" then zeros[0] else digits[0];
  }

  /**
   The text of every 64-bit word in every base, width, precision and flag set
   reads back as its value: in two's complement with the sign flag, unsigned
   without it.
   */
  lemma TextReadsBack(num: nat, base: nat, size: int, precision: int, fl: Flags)
    requires num < WORD && 2 <= base <= 36
    ensures var text := Formatted(num, base, size, precision, fl);
            ReadNumber(text, base, fl.special && base == 16) == Printed(num, fl.sign)
  {
    var lead, zeros, digits, tail := Anatomy(num, base, size, precision, fl);
    var value := Printed(num, fl.sign);
    var sign, prefix, hex := SignFor(value, fl), PrefixFor(base, fl), fl.special && base == 16;
    BodyStarts(prefix, zeros, digits, tail, base, fl.small);
    SignReads(lead, sign, prefix + (zeros + (digits + tail)), base, hex);
    BodyReads(prefix, zeros, digits, tail, base, fl.small, hex);
  }
}
