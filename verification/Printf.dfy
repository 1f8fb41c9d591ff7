/**
 The conversion loop of kernel/printk.c (myprintf) on the formats it
 supports: literal text and the conversions c, s, p, o, x, X, d, i and u with
 flags, width, precision and length. A format is specified by what it means,
 a sequence of directives; the loop is proved to scan the text of every such
 sequence and to put each argument's text in its place.
 */
module Printf {
  import opened Bits
  import opened Printk
  import opened ReadBack

  // ---------- directives ----------

  /** A literal character, or a conversion with the text of its parts. */
  datatype Directive =
    | Lit(c: char)
    | Put(flags: string, width: string, precision: Option<string>, length: string, conv: char)

  /** What va_arg takes: a machine word, or a pointer to a string. */
  datatype Arg = Word(n: nat) | Text(s: Option<string>)

  predicate IsFlag(c: char) {
    c in "-+ #0"
  }

  predicate IsConv(c: char) {
    c in "cspoxXdiu"
  }

  predicate AllDigitChars(s: string) {
    forall i :: 0 <= i < |s| ==> IsDigit(s[i])
  }

  /** The parts are what the loop can scan; a width does not start with the flag 0. */
  ghost predicate Scannable(d: Directive) {
    match d
    case Lit(c) => c != '%' && c != '\0'
    case Put(flags, width, precision, length, conv) =>
      && (forall i :: 0 <= i < |flags| ==> IsFlag(flags[i]))
      && AllDigitChars(width) && (width != "" ==> width[0] != '0')
      && (precision.Some? ==> AllDigitChars(precision.value))
      && length in {"", "h", "l", "L", "ll"} && IsConv(conv)
  }

  function LengthAndConv(length: string, conv: char): string {
    length + [conv]
  }

  function FromPrecision(precision: Option<string>, length: string, conv: char): string {
    (if precision.Some? then "." + precision.value else "") + LengthAndConv(length, conv)
  }

  function FromWidth(width: string, precision: Option<string>, length: string, conv: char): string {
    width + FromPrecision(precision, length, conv)
  }

  /** The text of a directive in a format. */
  function Written(d: Directive): string {
    match d
    case Lit(c) => [c]
    case Put(flags, width, precision, length, conv) => "%" + (flags + FromWidth(width, precision, length, conv))
  }

  function Format(ds: seq<Directive>): string {
    if ds == [] then "" else Written(ds[0]) + Format(ds[1..])
  }

  // ---------- meaning ----------

  function FlagsOf(flags: string): Flags {
    Flags('0' in flags, false, '+' in flags, ' ' in flags, '-' in flags, '#' in flags, false)
  }

  function WidthOf(width: string): int {
    if width == "" then -1 else Int(TextValue(width, 10))
  }

  function PrecisionOf(precision: Option<string>): int {
    if precision.None? then -1 else if precision.value == "" then 0 else Max(Int(TextValue(precision.value, 10)), 0)
  }

  /** A word cut to its low bits, and a cut word extended by its sign. */
  function Extended(n: nat, range: nat, signed: bool): (r: nat)
    requires range == 0x1_0000 || range == 0x1_0000_0000
    ensures r < WORD
  {
    var low := n % range;
    if signed && low >= range / 2 then WORD - range + low else low
  }

  /** The number that an integer conversion prints: a short, an int or a long of the argument. */
  function NumberOf(n: nat, length: string, signed: bool): (r: nat)
    ensures r < WORD
  {
    if length == "h" then Extended(n, 0x1_0000, signed)
    else if length == "" then Extended(n, 0x1_0000_0000, signed)
    else n % WORD
  }

  predicate Signed(conv: char) {
    conv == 'd' || conv == 'i'
  }

  function BaseOf(conv: char): (b: nat)
    ensures b == 8 || b == 10 || b == 16
  {
    if conv == 'o' then 8 else if conv == 'x' || conv == 'X' then 16 else 10
  }

  /** A text in a field of a width, on the left or on the right. */
  function InField(s: string, width: int, left: bool): string {
    if left then s + Pad(width - |s|, ' ') else Pad(width - |s|, ' ') + s
  }

  function CharText(n: nat): string {
    [(n % 256) as char]
  }

  function Cut(s: string, precision: int): string {
    if 0 <= precision < |s| then s[..precision] else s
  }

  function StringOf(s: Option<string>): string {
    if s.None? then "<NULL>" else s.value
  }

  function PointerText(n: nat, width: int, precision: int, fl: Flags): string {
    if width == -1 then Formatted(n % WORD, 16, 16, precision, Settle(fl.(zeropad := true)))
    else Formatted(n % WORD, 16, width, precision, Settle(fl))
  }

  function IntegerText(n: nat, length: string, conv: char, width: int, precision: int, fl: Flags): string {
    Formatted(NumberOf(n, length, Signed(conv)), BaseOf(conv), width, precision,
              Settle(fl.(sign := Signed(conv), small := conv == 'x')))
  }

  /** The argument is of the kind that the conversion takes. */
  predicate Takes(conv: char, a: Arg) {
    if conv == 's' then a.Text? else a.Word?
  }

  /** What a conversion prints for an argument. */
  function ConvText(conv: char, length: string, width: int, precision: int, fl: Flags, a: Arg): string
    requires Takes(conv, a)
  {
    if conv == 'c' then InField(CharText(a.n), width, fl.left)
    else if conv == 's' then InField(Cut(StringOf(a.s), precision), width, fl.left)
    else if conv == 'p' then PointerText(a.n, width, precision, fl)
    else IntegerText(a.n, length, conv, width, precision, fl)
  }

  function PutText(d: Directive, a: Arg): string
    requires d.Put? && Takes(d.conv, a)
  {
    ConvText(d.conv, d.length, WidthOf(d.width), PrecisionOf(d.precision), FlagsOf(d.flags), a)
  }

  /** The directives can be scanned, and the arguments are those they take, in order. */
  ghost predicate Fits(ds: seq<Directive>, args: seq<Arg>) {
    ds == [] ||
    (Scannable(ds[0]) &&
     if ds[0].Lit? then Fits(ds[1..], args)
     else args != [] && Takes(ds[0].conv, args[0]) && Fits(ds[1..], args[1..]))
  }

  /** The literal text, with the text of each argument in the place of its conversion. */
  ghost function Rendered(ds: seq<Directive>, args: seq<Arg>): string
    requires Fits(ds, args)
  {
    if ds == [] then ""
    else if ds[0].Lit? then [ds[0].c] + Rendered(ds[1..], args)
    else PutText(ds[0], args[0]) + Rendered(ds[1..], args[1..])
  }

  // ---------- scanning a conversion ----------

  /** `*fmt`, which is 0 at the end. */
  function Peek(fmt: string): char {
    if fmt == "" then '\0' else fmt[0]
  }

  lemma FlagAt(flags: string, rest: string, k: nat)
    requires k <= |flags|
    ensures Peek(flags[k..] + rest) == if k < |flags| then flags[k] else Peek(rest)
    ensures k < |flags| ==> flags[..k + 1] == flags[..k] + [flags[k]]
    ensures k < |flags| ==> (flags[k..] + rest)[1..] == flags[k + 1..] + rest
    ensures k == |flags| ==> flags[..k] == flags && flags[k..] + rest == rest
  {
  }

  /** The repeat loop over the flag characters. */
  method ScanFlags(fmt0: string, ghost flags: string, ghost rest: string) returns (fl: Flags, fmt: string)
    requires fmt0 == flags + rest && (forall i :: 0 <= i < |flags| ==> IsFlag(flags[i]))
    requires !IsFlag(Peek(rest))
    ensures fl == FlagsOf(flags) && fmt == rest
  {
    fl, fmt := Flags(false, false, false, false, false, false, false), fmt0;
    ghost var k := 0;
    while IsFlag(Peek(fmt))
      invariant 0 <= k <= |flags| && fmt == flags[k..] + rest && fl == FlagsOf(flags[..k])
      decreases |fmt|
    {
      FlagAt(flags, rest, k);
      if fmt[0] == '-' {
        fl := fl.(left := true);
      } else if fmt[0] == '+' {
        fl := fl.(plus := true);
      } else if fmt[0] == ' ' {
        fl := fl.(space := true);
      } else if fmt[0] == '#' {
        fl := fl.(special := true);
      } else {
        fl := fl.(zeropad := true);
      }
      fmt := fmt[1..];
      k := k + 1;
    }
    FlagAt(flags, rest, k);
  }

  /** `if (is_digit(*fmt)) fmt = scan_number(fmt, &n);` */
  method ScanDigits(fmt0: string, none: int, ghost digits: string, ghost rest: string) returns (n: int, fmt: string)
    requires fmt0 == digits + rest && AllDigitChars(digits) && !IsDigit(Peek(rest))
    ensures n == if digits == "" then none else Int(TextValue(digits, 10))
    ensures fmt == rest
  {
    n, fmt := none, fmt0;
    AllDigits(digits, rest);
    assert digits == "" ==> fmt0 == rest;
    if IsDigit(Peek(fmt)) {
      assert digits != "";
      fmt, n := ScanNumber(fmt);
      assert (digits + rest)[|digits|..] == rest;
    }
  }

  /** The precision behind a point; a point alone is precision 0. */
  method ScanPrecision(fmt0: string, ghost precision: Option<string>, ghost rest: string) returns (n: int, fmt: string)
    requires fmt0 == (if precision.Some? then "." + precision.value else "") + rest
    requires (precision.Some? ==> AllDigitChars(precision.value)) && !IsDigit(Peek(rest)) && Peek(rest) != '.'
    ensures n == PrecisionOf(precision) && fmt == rest
  {
    n, fmt := -1, fmt0;
    assert precision.None? ==> fmt0 == rest;
    if Peek(fmt) == '.' {
      fmt := fmt[1..];
      assert fmt == precision.value + rest;
      n, fmt := ScanDigits(fmt, -1, precision.value, rest);
      if n < 0 { n := 0; }
    }
  }

  /** h, l, L and ll; the last two are the same qualifier. */
  method ScanLength(fmt0: string, ghost length: string, ghost rest: string) returns (qualifier: char, fmt: string)
    requires fmt0 == length + rest && length in {"", "h", "l", "L", "ll"} && Peek(rest) !in {'h', 'l', 'L'}
    ensures fmt == rest
    ensures qualifier == if length == "" then '\0' else if length == "ll" then 'L' else length[0]
  {
    qualifier, fmt := '\0', fmt0;
    assert length == "" ==> fmt0 == rest;
    if Peek(fmt) == 'h' || Peek(fmt) == 'l' || Peek(fmt) == 'L' {
      qualifier := fmt[0];
      fmt := fmt[1..];
      assert fmt == length[1..] + rest;
      assert |length| == 1 ==> fmt == rest;
      if qualifier == 'l' && Peek(fmt) == 'l' {
        qualifier := 'L';
        fmt := fmt[1..];
      }
    }
  }

  // ---------- the conversions ----------

  /** `while (--field_width > 0) *pos++ = ' ';` */
  method PadBefore(out0: string, width0: int) returns (out: string, width: int)
    ensures out == out0 + Pad(width0 - 1, ' ') && width <= 0 && (width0 <= 1 ==> width == width0 - 1)
  {
    out, width := out0, width0 - 1;
    ghost var n := 0;
    while width > 0
      invariant n >= 0 && width == width0 - 1 - n && (n > 0 ==> width >= 0) && out == out0 + Pad(n, ' ')
      decreases width
    {
      out := out + " ";
      width := width - 1;
      n := n + 1;
    }
    assert Pad(n, ' ') == Pad(width0 - 1, ' ');
  }

  /** `while (len < field_width--) *pos++ = ' ';` */
  method PadBehind(out0: string, width0: int, len: nat) returns (out: string, width: int)
    ensures out == out0 + Pad(width0 - len, ' ') && width < len
  {
    out, width := out0, width0;
    ghost var n := 0;
    while len < width
      invariant n >= 0 && width == width0 - n && (n > 0 ==> width >= len) && out == out0 + Pad(n, ' ')
      decreases width - len
    {
      out := out + " ";
      width := width - 1;
      n := n + 1;
    }
    width := width - 1;
    assert Pad(n, ' ') == Pad(width0 - len, ' ');
  }

  method PutChar(out0: string, n: nat, width0: int, fl: Flags) returns (out: string)
    ensures out == out0 + InField(CharText(n), width0, fl.left)
  {
    out := out0;
    var width := width0;
    if !fl.left { out, width := PadBefore(out, width); }
    ghost var pre := out;
    out := out + [(n % 256) as char];
    out, width := PadBefore(out, width);
    assert fl.left ==> out == out0 + (CharText(n) + Pad(width0 - 1, ' '));
    assert !fl.left ==> out == out0 + (Pad(width0 - 1, ' ') + CharText(n));
  }

  method PutString(out0: string, arg: Option<string>, width0: int, precision: int, fl: Flags) returns (out: string)
    ensures out == out0 + InField(Cut(StringOf(arg), precision), width0, fl.left)
  {
    var s := if arg.None? then "<NULL>" else arg.value;
    var len := |s|;
    if 0 <= precision < len { len := precision; }
    assert s[..len] == Cut(s, precision);
    out := out0;
    var width := width0;
    if !fl.left { out, width := PadBehind(out, width, len); }
    out := CopyText(out, s, len);
    out, width := PadBehind(out, width, len);
    FieldLaid(out0, s[..len], Pad(width0 - len, ' '));
  }

  lemma FieldLaid(out: string, s: string, pad: string)
    ensures (out + s) + pad == out + (s + pad)
    ensures ((out + pad) + s) + "" == out + (pad + s)
  {
  }

  /** `for (i = 0; i < len; i++) *pos++ = *s++;` */
  method CopyText(out0: string, s: string, len: nat) returns (out: string)
    requires len <= |s|
    ensures out == out0 + s[..len]
  {
    out := out0;
    var i := 0;
    while i < len
      invariant 0 <= i <= len && out == out0 + s[..i]
    {
      assert s[..i + 1] == s[..i] + [s[i]];
      out := out + [s[i]];
      i := i + 1;
    }
  }

  method PutNumber(out0: string, num: nat, base: nat, width: int, precision: int, fl: Flags) returns (out: string)
    requires num < WORD && 2 <= base <= 36
    ensures out == out0 + Formatted(num, base, width, precision, Settle(fl))
  {
    var r := Number(out0, num, base, width, precision, fl);
    out := r.value;
  }

  /** The switch over the conversion character, and the integer that follows from the qualifier. */
  method PutArg(out0: string, conv: char, qualifier: char, width: int, precision: int, fl0: Flags, a: Arg,
                ghost length: string)
    returns (out: string)
    requires IsConv(conv) && Takes(conv, a) && !fl0.sign && !fl0.small && length in {"", "h", "l", "L", "ll"}
    requires qualifier == if length == "" then '\0' else if length == "ll" then 'L' else length[0]
    ensures out == out0 + ConvText(conv, length, width, precision, fl0, a)
  {
    if conv == 'c' {
      out := PutChar(out0, a.n, width, fl0);
    } else if conv == 's' {
      out := PutString(out0, a.s, width, precision, fl0);
    } else if conv == 'p' {
      out := PutPointer(out0, a.n, width, precision, fl0);
    } else {
      out := PutInteger(out0, conv, qualifier, width, precision, fl0, a.n, length);
    }
  }

  method PutPointer(out0: string, n: nat, width: int, precision: int, fl: Flags) returns (out: string)
    ensures out == out0 + PointerText(n, width, precision, fl)
  {
    if width == -1 {
      out := PutNumber(out0, n % WORD, 16, 16, precision, fl.(zeropad := true));
    } else {
      out := PutNumber(out0, n % WORD, 16, width, precision, fl);
    }
  }

  method PutInteger(out0: string, conv: char, qualifier: char, width: int, precision: int, fl0: Flags, n: nat,
                    ghost length: string)
    returns (out: string)
    requires conv in "oxXdiu" && !fl0.sign && !fl0.small && length in {"", "h", "l", "L", "ll"}
    requires qualifier == if length == "" then '\0' else if length == "ll" then 'L' else length[0]
    ensures out == out0 + IntegerText(n, length, conv, width, precision, fl0)
  {
    var fl, base := IntegerKind(conv, fl0);
    var num := Fetch(n, qualifier, fl.sign, length);
    out := PutNumber(out0, num, base, width, precision, fl);
  }

  /** The cases that set base and flags; x goes on into X, and d and i into u. */
  method IntegerKind(conv: char, fl0: Flags) returns (fl: Flags, base: nat)
    requires conv in "oxXdiu" && !fl0.sign && !fl0.small
    ensures base == BaseOf(conv) && fl == fl0.(sign := Signed(conv), small := conv == 'x')
  {
    fl, base := fl0, 10;
    if conv == 'o' {
      base := 8;
    } else if conv == 'x' {
      fl := fl.(small := true);
      base := 16;
    } else if conv == 'X' {
      base := 16;
    } else if conv == 'd' || conv == 'i' {
      fl := fl.(sign := true);
    }
  }

  method Fetch(n: nat, qualifier: char, signed: bool, ghost length: string) returns (num: nat)
    requires length in {"", "h", "l", "L", "ll"}
    requires qualifier == if length == "" then '\0' else if length == "ll" then 'L' else length[0]
    ensures num == NumberOf(n, length, signed) < WORD
  {
    if qualifier == 'L' {
      num := n % WORD;
    } else if qualifier == 'h' {
      num := Extended(n, 0x1_0000, signed);
    } else if qualifier == 'l' {
      num := n % WORD;
    } else {
      num := Extended(n, 0x1_0000_0000, signed);
    }
  }

  // ---------- the loop ----------

  /** What the scanning methods ask of the text behind each part. */
  lemma PartsEnd(d: Directive, tail: string)
    requires d.Put? && Scannable(d)
    ensures var lc := LengthAndConv(d.length, d.conv);
            && Peek([d.conv] + tail) !in {'h', 'l', 'L'}
            && !IsDigit(Peek(lc + tail)) && Peek(lc + tail) != '.' && !IsFlag(Peek(lc + tail))
            && !IsDigit(Peek(FromPrecision(d.precision, d.length, d.conv) + tail))
            && !IsFlag(Peek(FromPrecision(d.precision, d.length, d.conv) + tail))
            && !IsFlag(Peek(FromWidth(d.width, d.precision, d.length, d.conv) + tail))
  {
    var lc := LengthAndConv(d.length, d.conv);
    LengthFirst(d.length, d.conv);
    PlainIsNothing(Peek(lc));
    PeekFirst(lc, tail);
    var fp := FromPrecision(d.precision, d.length, d.conv);
    assert fp != "" && Peek(fp) == if d.precision.Some? then '.' else Peek(lc);
    PeekFirst(fp, tail);
    var fw := FromWidth(d.width, d.precision, d.length, d.conv);
    assert fw != "" && Peek(fw) == if d.width != "" then d.width[0] else Peek(fp);
    PeekFirst(fw, tail);
  }

  lemma PeekFirst(s: string, tail: string)
    requires s != ""
    ensures Peek(s + tail) == Peek(s)
  {
  }

  /** A length or conversion character. */
  predicate Plain(c: char) {
    c == 'h' || c == 'l' || c == 'L' || IsConv(c)
  }

  lemma LengthFirst(length: string, conv: char)
    requires length in {"", "h", "l", "L", "ll"} && IsConv(conv)
    ensures LengthAndConv(length, conv) != "" && Plain(Peek(LengthAndConv(length, conv)))
  {
  }

  lemma PlainIsNothing(c: char)
    requires Plain(c)
    ensures !IsDigit(c) && c != '.' && !IsFlag(c)
  {
  }

  /** The text of a directive, taken apart from the front. */
  lemma PartsFollow(d: Directive, tail: string)
    requires d.Put?
    ensures var lc := LengthAndConv(d.length, d.conv);
            var fp := FromPrecision(d.precision, d.length, d.conv);
            var fw := FromWidth(d.width, d.precision, d.length, d.conv);
            && (Written(d) + tail)[1..] == d.flags + (fw + tail)
            && fw + tail == d.width + (fp + tail)
            && fp + tail == (if d.precision.Some? then "." + d.precision.value else "") + (lc + tail)
            && lc + tail == d.length + ([d.conv] + tail)
  {
  }

  /** One conversion: fmt is at its percent sign, and afterwards behind its last character. */
  method ConvertOne(out0: string, fmt0: string, a: Arg, ghost d: Directive, ghost tail: string)
    returns (out: string, fmt: string)
    requires d.Put? && Scannable(d) && fmt0 == Written(d) + tail && Takes(d.conv, a)
    ensures out == out0 + PutText(d, a) && fmt == tail
  {
    PartsEnd(d, tail);
    PartsFollow(d, tail);
    ghost var lc := LengthAndConv(d.length, d.conv);
    ghost var fp, fw := FromPrecision(d.precision, d.length, d.conv), FromWidth(d.width, d.precision, d.length, d.conv);
    var fl, width, precision, qualifier;
    fl, fmt := ScanFlags(fmt0[1..], d.flags, fw + tail);
    width, fmt := ScanDigits(fmt, -1, d.width, fp + tail);
    precision, fmt := ScanPrecision(fmt, d.precision, lc + tail);
    qualifier, fmt := ScanLength(fmt, d.length, [d.conv] + tail);
    out := PutArg(out0, fmt[0], qualifier, width, precision, fl, a, d.length);
    fmt := fmt[1..];
  }

  /** The directives still to come, and what they will print behind out. */
  ghost predicate Ahead(ds: seq<Directive>, args: seq<Arg>, fmt: string, out: string, all: string) {
    fmt == Format(ds) && Fits(ds, args) && out + Rendered(ds, args) == all
  }

  lemma NextLiteral(ds: seq<Directive>, args: seq<Arg>, fmt: string, out: string, all: string)
    requires Ahead(ds, args, fmt, out, all) && fmt != "" && fmt[0] != '%'
    ensures ds != [] && Ahead(ds[1..], args, fmt[1..], out + [fmt[0]], all)
  {
    assert ds[0].Lit? && fmt[0] == ds[0].c && fmt[1..] == Format(ds[1..]);
    Assoc(out, [fmt[0]], Rendered(ds[1..], args));
  }

  lemma NextConversion(ds: seq<Directive>, args: seq<Arg>, fmt: string, out: string, all: string)
    requires Ahead(ds, args, fmt, out, all) && fmt != "" && fmt[0] == '%'
    ensures ds != [] && args != [] && ds[0].Put? && Scannable(ds[0]) && Takes(ds[0].conv, args[0])
    ensures fmt == Written(ds[0]) + Format(ds[1..])
    ensures Ahead(ds[1..], args[1..], Format(ds[1..]), out + PutText(ds[0], args[0]), all)
  {
    assert fmt[0] == Written(ds[0])[0];
    Assoc(out, PutText(ds[0], args[0]), Rendered(ds[1..], args[1..]));
  }

  /**
   myprintf on every format of supported directives with fitting arguments:
   the output is the literal text with the text of each argument in its place,
   and the result is its length.
   */
  method MyPrintf(fmt0: string, args: seq<Arg>, ghost ds: seq<Directive>) returns (out: string, len: nat)
    requires fmt0 == Format(ds) && Fits(ds, args)
    ensures out == Rendered(ds, args) && len == |out|
  {
    var fmt, arg := fmt0, args;
    out := "";
    ghost var rest, all := ds, Rendered(ds, args);
    assert "" + all == all;
    while fmt != ""
      invariant Ahead(rest, arg, fmt, out, all)
      decreases |rest|
    {
      if fmt[0] != '%' {
        NextLiteral(rest, arg, fmt, out, all);
        out := out + [fmt[0]];
        fmt := fmt[1..];
      } else {
        NextConversion(rest, arg, fmt, out, all);
        out, fmt := ConvertOne(out, fmt, arg[0], rest[0], Format(rest[1..]));
        arg := arg[1..];
      }
      rest := rest[1..];
    }
    NothingLeft(rest, arg, out, all);
    len := |out|;
  }

  lemma NothingLeft(ds: seq<Directive>, args: seq<Arg>, out: string, all: string)
    requires Ahead(ds, args, "", out, all)
    ensures out == all
  {
    FormatEmpty(ds);
    assert out + "" == out;
  }

  lemma FormatEmpty(ds: seq<Directive>)
    ensures Format(ds) == "" <==> ds == []
  {
    if ds != [] { assert |Format(ds)| >= |Written(ds[0])| > 0; }
  }

  // ---------- what the conversions mean ----------

  /** The C value of a word cut to short, int or long: unsigned, or in two's complement. */
  function CValue(n: nat, length: string, signed: bool): int {
    var range := if length == "h" then 0x1_0000 else if length == "" then 0x1_0000_0000 else 0x1_0000_0000_0000_0000;
    var low := n % range;
    if signed && low >= range / 2 then low - range else low
  }

  lemma NumberMeans(n: nat, length: string, signed: bool)
    ensures Printed(NumberOf(n, length, signed), signed) == CValue(n, length, signed)
  {
  }

  /**
   The parts of what an integer conversion prints, by the characters of the
   directive: d and i are signed decimal, u decimal, o octal, x hexadecimal in
   small letters and X in capitals. A minus flag puts the blanks behind, no
   minus and no zero flag puts them in front; plus and space ask for a sign of
   a non-negative signed number, # for the prefix.
   */
  lemma IntegerAnatomy(d: Directive, n: nat, base: nat, signed: bool)
    returns (lead: string, sign: string, prefix: string, zeros: string, digits: string, tail: string)
    requires d.Put? && d.conv in "diuoxX" && (signed <==> d.conv == 'd' || d.conv == 'i')
    requires base == if d.conv == 'o' then 8 else if d.conv == 'x' || d.conv == 'X' then 16 else 10
    ensures sign == if CValue(n, d.length, signed) < 0 then "-" else if signed && '+' in d.flags then "+"
                    else if signed && ' ' in d.flags then " " else ""
    ensures prefix == if '#' !in d.flags then "" else if d.conv == 'o' then "0" else if d.conv == 'x' then "0x"
                      else if d.conv == 'X' then "0X" else ""
    ensures PutText(d, Word(n)) == lead + (sign + (prefix + (zeros + (digits + tail))))
    ensures DigitsOf(digits, base, d.conv == 'x') && Canonical(digits)
    ensures TextValue(digits, base) == Abs(CValue(n, d.length, signed))
    ensures |PutText(d, Word(n))| == Max(WidthOf(d.width) + (if CValue(n, d.length, signed) < 0 then 1 else 0),
                                         |sign| + |prefix| + Max(PrecisionOf(d.precision), |digits|))
    ensures AllOf(lead, ' ') && AllOf(tail, ' ') && AllOf(zeros, '0')
    ensures (lead != "" ==> '-' !in d.flags && '0' !in d.flags) && (tail != "" ==> '-' in d.flags)
    ensures '-' in d.flags || '0' !in d.flags ==>
              |zeros| == Max(PrecisionOf(d.precision), |digits|) - |digits|
  {
    var fl, num, width, precision := IntegerFormats(d, n, base, signed);
    lead, zeros, digits, tail := Anatomy(num, base, width, precision, fl);
    sign, prefix := SignFor(CValue(n, d.length, signed), fl), PrefixFor(base, fl);
    PrefixByChars(d, base, fl);
    SignByChars(CValue(n, d.length, signed), d.flags, signed, fl);
  }

  lemma SignByChars(value: int, flags: string, signed: bool, fl: Flags)
    requires fl.sign == signed && fl.plus == ('+' in flags) && fl.space == (' ' in flags)
    ensures SignFor(value, fl) == if value < 0 then "-" else if signed && '+' in flags then "+"
                                  else if signed && ' ' in flags then " " else ""
  {
  }

  /** The text of an integer conversion reads back as the C value of its argument, under every flag and size. */
  lemma IntegerReads(d: Directive, n: nat, base: nat, signed: bool)
    requires d.Put? && d.conv in "diuoxX" && (signed <==> d.conv == 'd' || d.conv == 'i')
    requires base == if d.conv == 'o' then 8 else if d.conv == 'x' || d.conv == 'X' then 16 else 10
    ensures ReadNumber(PutText(d, Word(n)), base, '#' in d.flags && base == 16) == CValue(n, d.length, signed)
  {
    var fl, num, width, precision := IntegerFormats(d, n, base, signed);
    TextReadsBack(num, base, width, precision, fl);
  }

  lemma PrefixByChars(d: Directive, base: nat, fl: Flags)
    requires d.Put? && d.conv in "diuoxX" && fl.special == ('#' in d.flags) && fl.small == (d.conv == 'x')
    requires base == if d.conv == 'o' then 8 else if d.conv == 'x' || d.conv == 'X' then 16 else 10
    ensures PrefixFor(base, fl) == if '#' !in d.flags then "" else if d.conv == 'o' then "0"
                                   else if d.conv == 'x' then "0x" else if d.conv == 'X' then "0X" else ""
  {
  }

  /** The call of number behind an integer conversion. */
  lemma IntegerFormats(d: Directive, n: nat, base: nat, signed: bool)
    returns (fl: Flags, num: nat, width: int, precision: int)
    requires d.Put? && d.conv in "diuoxX" && (signed <==> d.conv == 'd' || d.conv == 'i')
    requires base == if d.conv == 'o' then 8 else if d.conv == 'x' || d.conv == 'X' then 16 else 10
    ensures num < WORD && Printed(num, signed) == CValue(n, d.length, signed)
    ensures width == WidthOf(d.width) && precision == PrecisionOf(d.precision)
    ensures PutText(d, Word(n)) == Formatted(num, base, width, precision, fl)
    ensures fl == Flags('0' in d.flags && '-' !in d.flags, signed, '+' in d.flags, ' ' in d.flags, '-' in d.flags,
                        '#' in d.flags, d.conv == 'x')
  {
    width, precision := WidthOf(d.width), PrecisionOf(d.precision);
    fl := Settle(FlagsOf(d.flags).(sign := signed, small := d.conv == 'x'));
    num := NumberOf(n, d.length, signed);
    NumberMeans(n, d.length, signed);
    KindMeans(d.conv, base, signed);
    PutIsInteger(d, n);
    IntegerIsNumber(n, d.length, d.conv, width, precision, FlagsOf(d.flags), base, signed, num, fl);
  }

  lemma PutIsInteger(d: Directive, n: nat)
    requires d.Put? && d.conv !in "csp"
    ensures PutText(d, Word(n)) ==
            IntegerText(n, d.length, d.conv, WidthOf(d.width), PrecisionOf(d.precision), FlagsOf(d.flags))
  {
    assert d.conv != 'c' && d.conv != 's' && d.conv != 'p';
  }

  lemma IntegerIsNumber(n: nat, length: string, conv: char, width: int, precision: int, fl0: Flags,
                        base: nat, signed: bool, num: nat, fl: Flags)
    requires BaseOf(conv) == base && Signed(conv) == signed && num == NumberOf(n, length, signed)
    requires fl == Settle(fl0.(sign := signed, small := conv == 'x'))
    ensures IntegerText(n, length, conv, width, precision, fl0) == Formatted(num, base, width, precision, fl)
  {
  }

  lemma KindMeans(conv: char, base: nat, signed: bool)
    requires conv in "diuoxX" && (signed <==> conv == 'd' || conv == 'i')
    requires base == if conv == 'o' then 8 else if conv == 'x' || conv == 'X' then 16 else 10
    ensures BaseOf(conv) == base && Signed(conv) == signed && conv !in "csp"
  {
  }

  /** A conversion without flags, width and precision. */
  function Bare(length: string, conv: char): Directive {
    Put("", "", None, length, conv)
  }

  /** A bare integer conversion prints the digits of its value and nothing else but a minus sign. */
  lemma BareInteger(length: string, conv: char, n: nat, base: nat, signed: bool) returns (digits: string)
    requires conv in "diuoxX" && (signed <==> conv == 'd' || conv == 'i')
    requires base == if conv == 'o' then 8 else if conv == 'x' || conv == 'X' then 16 else 10
    ensures PutText(Bare(length, conv), Word(n)) == (if CValue(n, length, signed) < 0 then "-" else "") + digits
    ensures DigitsOf(digits, base, conv == 'x') && Canonical(digits)
    ensures ReadNumber(PutText(Bare(length, conv), Word(n)), base, false) == CValue(n, length, signed)
  {
    var lead, sign, prefix, zeros, tail;
    lead, sign, prefix, zeros, digits, tail := IntegerAnatomy(Bare(length, conv), n, base, signed);
    IntegerReads(Bare(length, conv), n, base, signed);
    NothingAround(lead, sign, digits);
    assert zeros == "" && tail == "" && prefix == "";
    assert "" + ("" + (digits + "")) == digits;
  }

  /** A text that is no longer than its sign and digits has no blanks in front. */
  lemma NothingAround(lead: string, sign: string, digits: string)
    ensures |lead + (sign + digits)| == |lead| + |sign| + |digits|
    ensures lead == "" ==> lead + (sign + digits) == sign + digits
  {
  }

  /** A bare pointer conversion prints at least 16 hexadecimal digits in capitals that read as the word. */
  lemma BarePointer(length: string, n: nat)
    ensures var text := PutText(Bare(length, 'p'), Word(n));
            && DigitsOf(text, 16, false) && |text| >= 16
            && ReadNumber(text, 16, false) == n % 0x1_0000_0000_0000_0000
  {
    var fl := Settle(FlagsOf("").(zeropad := true));
    var lead, zeros, digits, tail := Anatomy(n % WORD, 16, 16, -1, fl);
    TextReadsBack(n % WORD, 16, 16, -1, fl);
    assert lead == "" && tail == "";
    assert lead + ("" + ("" + (zeros + (digits + tail)))) == zeros + digits;
  }

  /** A text in a field is filled up with blanks: behind it with the left flag, in front of it without. */
  lemma FieldMeans(s: string, width: int, left: bool)
    ensures var t := InField(s, width, left);
            && |t| == Max(width, |s|)
            && (left ==> t[..|s|] == s && AllOf(t[|s|..], ' '))
            && (!left ==> t[|t| - |s|..] == s && AllOf(t[..|t| - |s|], ' '))
  {
  }

  /** c prints the low byte of its argument in a field. */
  lemma CharMeans(d: Directive, n: nat)
    requires d.Put? && d.conv == 'c'
    ensures var t := PutText(d, Word(n));
            && |t| == Max(WidthOf(d.width), 1)
            && ('-' in d.flags ==> t[0] == (n % 256) as char && AllOf(t[1..], ' '))
            && ('-' !in d.flags ==> t[|t| - 1] == (n % 256) as char && AllOf(t[..|t| - 1], ' '))
  {
    FieldMeans(CharText(n), WidthOf(d.width), '-' in d.flags);
    var t := PutText(d, Word(n));
    assert '-' in d.flags ==> t[..1][0] == t[0];
    assert '-' !in d.flags ==> t[|t| - 1..][0] == t[|t| - 1];
  }

  /** s prints its string, or <NULL>, whole or up to the precision, in a field. */
  lemma StringMeans(d: Directive, arg: Option<string>)
    requires d.Put? && d.conv == 's'
    ensures var s := if arg.None? then "<NULL>" else arg.value;
            var p := PrecisionOf(d.precision);
            var len := if p < 0 || |s| < p then |s| else p;
            var t := PutText(d, Text(arg));
            && |t| == Max(WidthOf(d.width), len)
            && ('-' in d.flags ==> t[..len] == s[..len] && AllOf(t[len..], ' '))
            && ('-' !in d.flags ==> t[|t| - len..] == s[..len] && AllOf(t[..|t| - len], ' '))
  {
    var s := if arg.None? then "<NULL>" else arg.value;
    var p := PrecisionOf(d.precision);
    var len := if p < 0 || |s| < p then |s| else p;
    assert Cut(s, p) == s[..len];
    FieldMeans(s[..len], WidthOf(d.width), '-' in d.flags);
  }

  /** Width and precision are the decimal numbers in the directive, as long as they fit an int. */
  lemma SizesMean(d: Directive)
    requires d.Put?
    ensures d.width == "" ==> WidthOf(d.width) == -1
    ensures d.width != "" && TextValue(d.width, 10) <= 0x7fff_ffff ==> WidthOf(d.width) == TextValue(d.width, 10)
    ensures d.precision == None ==> PrecisionOf(d.precision) == -1
    ensures d.precision.Some? && TextValue(d.precision.value, 10) <= 0x7fff_ffff ==>
              PrecisionOf(d.precision) == TextValue(d.precision.value, 10)
  {
    IntIsExact(TextValue(d.width, 10));
    if d.precision.Some? { IntIsExact(TextValue(d.precision.value, 10)); }
  }

  /** A format of one directive prints the text of its argument. */
  lemma OneDirective(d: Directive, a: Arg)
    requires d.Put? && Scannable(d) && Takes(d.conv, a)
    ensures Format([d]) == Written(d) && Fits([d], [a]) && Rendered([d], [a]) == PutText(d, a)
  {
    assert [d][1..] == [] && [a][1..] == [];
    assert Written(d) + "" == Written(d) && PutText(d, a) + "" == PutText(d, a);
  }

  /**
   myprintf of a percent sign, a length and an integer conversion prints the
   short, int or long value of its argument: in decimal with its sign for d
   and i, unsigned in base 10, 8 or 16 for u, o, x and X, in small letters
   exactly for x.
   */
  method PrintInteger(length: string, conv: char, n: nat) returns (out: string)
    requires length in {"", "h", "l", "L", "ll"} && conv in "diuoxX"
    ensures conv == 'd' || conv == 'i' ==> ReadNumber(out, 10, false) == CValue(n, length, true)
    ensures conv == 'u' ==> ReadNumber(out, 10, false) == CValue(n, length, false) && DigitsOf(out, 10, false)
    ensures conv == 'o' ==> ReadNumber(out, 8, false) == CValue(n, length, false) && DigitsOf(out, 8, false)
    ensures conv == 'x' ==> ReadNumber(out, 16, false) == CValue(n, length, false) && DigitsOf(out, 16, true)
    ensures conv == 'X' ==> ReadNumber(out, 16, false) == CValue(n, length, false) && DigitsOf(out, 16, false)
  {
    ghost var d := Bare(length, conv);
    OneDirective(d, Word(n));
    var fmt := "%" + (length + [conv]);
    assert fmt == Written(d) by { BareWritten(length, conv); }
    var len;
    out, len := MyPrintf(fmt, [Word(n)], [d]);
    ghost var base := if conv == 'o' then 8 else if conv == 'x' || conv == 'X' then 16 else 10;
    ghost var digits := BareInteger(length, conv, n, base, conv == 'd' || conv == 'i');
    assert "" + digits == digits;
  }

  lemma BareWritten(length: string, conv: char)
    ensures Written(Bare(length, conv)) == "%" + (length + [conv])
  {
    var tail := length + [conv];
    assert "" + ("" + ("" + tail)) == tail;
  }

  /** And of %p: at least 16 capital hexadecimal digits. */
  method PrintPointer(n: nat) returns (out: string)
    ensures ReadNumber(out, 16, false) == n % 0x1_0000_0000_0000_0000 && DigitsOf(out, 16, false) && |out| >= 16
  {
    ghost var d := Bare("", 'p');
    OneDirective(d, Word(n));
    BareWritten("", 'p');
    assert "" + ['p'] == "p";
    var len;
    out, len := MyPrintf("%" + "p", [Word(n)], [d]);
    BarePointer("", n);
  }
}
