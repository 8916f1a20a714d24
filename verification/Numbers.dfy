/**
 Printing numbers and reading them back: printnum and the number conversions of vprintfmt,
 and strtol.
 */
module Numbers {

  const LONG_LIMIT := 0x8000_0000_0000_0000
  const ULONG_LIMIT := 0x1_0000_0000_0000_0000

  // ----- printing -----

  function Digit(d: nat): char
    requires d < 16
  {
    "0123456789abcdef"[d]
  }

  /** The digits of a number, most significant first. */
  function Digits(num: nat, base: nat): (s: string)
    requires 2 <= base <= 16
    ensures |s| > 0
    decreases num
  {
    if num < base then [Digit(num)]
    else
      DivSmaller(num, base);
      Digits(num / base, base) + [Digit(num % base)]
  }

  lemma DivSmaller(num: nat, base: nat)
    requires num >= base >= 2
    ensures num / base < num && num % base < base && num == num / base * base + num % base
  {
  }

  /** The sixteen digits are '0' to '9' and 'a' to 'f'. */
  lemma DigitChars(d: nat)
    requires d < 16
    ensures Digit(d) as int == if d < 10 then 48 + d else 97 + d - 10
  {
  }

  /** The number without its last i digits. */
  function Shortened(num: nat, base: nat, i: nat): nat
    requires base >= 2
  {
    if i == 0 then num else Shortened(num / base, base, i - 1)
  }

  /** Each character is its digit of the number, the last one counted as digit 0. */
  lemma {:induction false} DigitAt(num: nat, base: nat, i: nat)
    requires 2 <= base <= 16 && i < |Digits(num, base)|
    ensures Shortened(num, base, i) % base < 16
    ensures Digits(num, base)[|Digits(num, base)| - 1 - i] == Digit(Shortened(num, base, i) % base)
    decreases i
  {
    if num < base {
      SmallDigit(num, base);
    } else {
      DivSmaller(num, base);
      if i > 0 {
        DigitAt(num / base, base, i - 1);
      }
    }
  }

  /** There is no zero in front, but for the number 0 itself. */
  lemma {:induction false} NoLeadingZero(num: nat, base: nat)
    requires 2 <= base <= 16
    ensures Digits(num, base)[0] == '0' <==> num == 0
    decreases num
  {
    if num >= base {
      DivSmaller(num, base);
      NoLeadingZero(num / base, base);
    }
  }

  /** Digits are printed in lower case. */
  lemma LowerCase(num: nat, base: nat, i: nat)
    requires 2 <= base <= 16 && i < |Digits(num, base)|
    ensures '0' <= Digits(num, base)[i] <= '9' || 'a' <= Digits(num, base)[i] <= 'f'
  {
    DigitAt(num, base, |Digits(num, base)| - 1 - i);
    DigitChars(Shortened(num, base, |Digits(num, base)| - 1 - i) % base);
  }

  function Repeat(c: char, n: int): (s: string)
    ensures |s| == if n > 0 then n else 0
    ensures forall i | 0 <= i < |s| :: s[i] == c
  {
    if n <= 0 then [] else Repeat(c, n - 1) + [c]
  }

  /** The digits, filled up to the width on the left. */
  function Padded(num: nat, base: nat, width: int, padc: char): string
    requires 2 <= base <= 16
  {
    Repeat(padc, width - |Digits(num, base)|) + Digits(num, base)
  }

  /** The text is as long as the width, or longer if the digits are; the filling is in front. */
  lemma PaddedShape(num: nat, base: nat, width: int, padc: char)
    requires 2 <= base <= 16
    ensures var text, n := Padded(num, base, width, padc), |Digits(num, base)|;
            && |text| == (if width > n then width else n) && text[|text| - n..] == Digits(num, base)
            && forall i | 0 <= i < |text| - n :: text[i] == padc
  {
  }

  /** What %d prints: the sign stands in front of the padding and does not count for the width. */
  function Signed(x: int, width: int, padc: char): string
  {
    (if x < 0 then "-" else "") + Padded(if x < 0 then -x else x, 10, width, padc)
  }

  /** Where characters go: putch with its putdat. */
  class Sink {
    var text: string

    constructor ()
      ensures text == []
    {
      text := [];
    }

    method Putch(c: char)
      modifies this
      ensures text == old(text) + [c]
    {
      text := text + [c];
    }
  }

  lemma PaddedStep(num: nat, base: nat, width: int, padc: char)
    requires num >= base && 2 <= base <= 16
    ensures num / base < num && num % base < base
    ensures Padded(num, base, width, padc) == Padded(num / base, base, width - 1, padc) + [Digit(num % base)]
  {
    DivSmaller(num, base);
  }

  lemma PaddedLast(num: nat, base: nat, width: int, padc: char)
    requires num < base && 2 <= base <= 16
    ensures num % base == num && num / base == 0
    ensures Padded(num, base, width, padc) == Repeat(padc, width - 1) + [Digit(num)]
  {
    SmallDigit(num, base);
    assert Digits(num, base) == [Digit(num)];
  }

  lemma SmallDigit(num: nat, base: nat)
    requires num < base
    ensures num % base == num && num / base == 0
  {
  }

  /** printnum */
  method PrintNum(out: Sink, num: nat, base: nat, width: int, padc: char)
    requires 2 <= base <= 16 && num < ULONG_LIMIT
    modifies out
    ensures out.text == old(out.text) + Padded(num, base, width, padc)
    decreases num
  {
    hide Padded, Repeat, Digit;
    var result, mod := num / base, num % base;
    if num >= base {
      PaddedStep(num, base, width, padc);
      PrintNum(out, result, base, width - 1, padc);
    } else {
      PaddedLast(num, base, width, padc);
      PadLeft(out, width - 1, padc);
    }
    out.Putch(Digit(mod));
  }

  /** The padding loop of printnum. */
  method PadLeft(out: Sink, n: int, padc: char)
    modifies out
    ensures out.text == old(out.text) + Repeat(padc, n)
  {
    var w := n;
    ghost var before := out.text;
    while w > 0
      invariant w <= n && (n > 0 ==> w >= 0) && (n <= 0 ==> w == n)
      invariant out.text == before + Repeat(padc, n - w)
    {
      out.Putch(padc);
      w := w - 1;
    }
  }

  /** The number conversions of vprintfmt. */
  datatype Conversion = Decimal | Unsigned | Octal | Hexadecimal

  function BaseOf(c: Conversion): nat
  {
    match c
    case Octal => 8
    case Hexadecimal => 16
    case _ => 10
  }

  /** A long read as unsigned long long. */
  lemma Wrapped(arg: int)
    requires -LONG_LIMIT <= arg < LONG_LIMIT
    ensures arg % ULONG_LIMIT == if arg < 0 then arg + ULONG_LIMIT else arg
  {
  }

  /** Signed decimal for %d, and for the others the argument modulo 2^64 in base 10, 8 or 16. */
  function Printed(c: Conversion, arg: int, width: int, padc: char): string
  {
    match c
    case Decimal => Signed(arg, width, padc)
    case Unsigned => Padded(arg % 0x1_0000_0000_0000_0000, 10, width, padc)
    case Octal => Padded(arg % 0x1_0000_0000_0000_0000, 8, width, padc)
    case Hexadecimal => Padded(arg % 0x1_0000_0000_0000_0000, 16, width, padc)
  }

  /** Some texts, letter by letter. */
  lemma Texts()
    ensures Printed(Octal, 8, 0, ' ') == "10" && Printed(Hexadecimal, 255, 0, ' ') == "ff"
    ensures Printed(Unsigned, 42, 4, '0') == "0042" && Printed(Decimal, -42, 3, ' ') == "- 42"
  {
    assert Digits(8, 8) == Digits(1, 8) + ['0'] == "10";
    assert Digits(255, 16) == Digits(15, 16) + ['f'] == "ff";
    assert Digits(42, 10) == Digits(4, 10) + ['2'] == "42";
    assert Repeat('0', 2) == Repeat('0', 1) + ['0'] == Repeat('0', 0) + ['0'] + ['0'] == "00";
    assert Repeat(' ', 1) == Repeat(' ', 0) + [' '] == " ";
  }

  /** The paths %d, %u, %o and %x of vprintfmt for one argument of type long. */
  method PrintLong(out: Sink, c: Conversion, arg: int, width: int, padc: char)
    requires -LONG_LIMIT <= arg < LONG_LIMIT
    modifies out
    ensures out.text == old(out.text) + Printed(c, arg, width, padc)
  {
    hide Padded;
    Wrapped(arg);
    var num := arg % ULONG_LIMIT;
    if c == Decimal {
      if num >= LONG_LIMIT {
        out.Putch('-');
        num := ULONG_LIMIT - num;
      }
    }
    PrintNum(out, num, BaseOf(c), width, padc);
  }

  // ----- reading -----

  /** s[i]; the text ends with a NUL. */
  function CharAt(s: string, i: nat): char
  {
    if i < |s| then s[i] else '\0'
  }

  /** The value of a digit or letter; 36 for other characters. */
  function DigitValue(c: char): nat
  {
    if '0' <= c <= '9' then c as int - '0' as int
    else if 'a' <= c <= 'z' then c as int - 'a' as int + 10
    else if 'A' <= c <= 'Z' then c as int - 'A' as int + 10
    else 36
  }

  predicate Blank(c: char)
  {
    c == ' ' || c == '\t'
  }

  function AfterBlanks(s: string, i: nat): (r: nat)
    requires i <= |s|
    ensures i <= r <= |s|
    decreases |s| - i
  {
    if i < |s| && Blank(s[i]) then AfterBlanks(s, i + 1) else i
  }

  /** Behind the optional sign. */
  function AfterSign(s: string): (r: nat)
    ensures r <= |s|
  {
    var i := AfterBlanks(s, 0);
    if CharAt(s, i) == '+' || CharAt(s, i) == '-' then i + 1 else i
  }

  predicate Negative(s: string)
  {
    CharAt(s, AfterBlanks(s, 0)) == '-'
  }

  /** The base in effect, and the position behind its prefix. */
  function Prefix(s: string, base: int): (r: (int, nat))
    ensures r.1 <= |s|
  {
    var i := AfterSign(s);
    if (base == 0 || base == 16) && CharAt(s, i) == '0' && CharAt(s, i + 1) == 'x' then (16, i + 2)
    else if base == 0 && CharAt(s, i) == '0' then (8, i + 1)
    else if base == 0 then (10, i)
    else (base, i)
  }

  /** The end of the run of digits of the base. */
  function DigitsEnd(s: string, i: nat, base: nat): (r: nat)
    requires i <= |s|
    ensures i <= r <= |s|
    decreases |s| - i
  {
    if i < |s| && DigitValue(s[i]) < base && DigitValue(s[i]) < 36 then DigitsEnd(s, i + 1, base) else i
  }

  function Value(s: string, base: nat): nat
  {
    if s == [] then 0 else Value(s[..|s| - 1], base) * base + DigitValue(s[|s| - 1])
  }

  /** The number strtol returns, overflow aside, and where it stops. */
  function Parsed(s: string, base: int): (int, nat)
  {
    var (b, i) := Prefix(s, base);
    var (value, end) := Scanned(s, i, b);
    (if Negative(s) then -value else value, end)
  }

  /** The digits from i on; with a negative base there are none. */
  function Scanned(s: string, i: nat, base: int): (r: (int, nat))
    requires i <= |s|
  {
    if base < 0 then (0, i)
    else
      var end := DigitsEnd(s, i, base);
      (Value(s[i..end], base), end)
  }

  /** The character tests in the digit loop of strtol. */
  method DigitOf(c: char) returns (ok: bool, dig: nat)
    ensures ok <==> DigitValue(c) < 36
    ensures ok ==> dig == DigitValue(c)
  {
    if '0' <= c <= '9' {
      return true, c as int - '0' as int;
    } else if 'a' <= c <= 'z' {
      return true, c as int - 'a' as int + 10;
    } else if 'A' <= c <= 'Z' {
      return true, c as int - 'A' as int + 10;
    }
    return false, 0;
  }

  /** The digit loop of strtol. */
  method ScanDigits(s: string, start: nat, base: int) returns (val: int, end: nat)
    requires start <= |s|
    ensures (val, end) == Scanned(s, start, base)
  {
    hide DigitValue;
    val, end := 0, start;
    NulIsNoDigit();
    while true
      invariant start <= end <= |s| && (base < 0 ==> end == start && val == 0)
      invariant base >= 0 ==> DigitsEnd(s, start, base) == DigitsEnd(s, end, base) && val == Value(s[start..end], base)
      decreases |s| - end
    {
      var ok, dig := DigitOf(CharAt(s, end));
      if !ok || dig >= base {
        break;
      }
      assert s[start..end + 1][..end - start] == s[start..end];
      end, val := end + 1, val * base + dig;
    }
  }

  lemma NulIsNoDigit()
    ensures DigitValue('\0') == 36 && !Blank('\0')
  {
  }

  /** strtol */
  method Strtol(s: string, base0: int) returns (value: int, end: nat)
    ensures (value, end) == Parsed(s, base0)
  {
    hide Value, DigitsEnd;
    var i, neg, base := 0, false, base0;
    while Blank(CharAt(s, i))
      invariant i <= |s| && AfterBlanks(s, 0) == AfterBlanks(s, i)
      decreases |s| - i
    {
      i := i + 1;
    }
    if CharAt(s, i) == '+' {
      i := i + 1;
    } else if CharAt(s, i) == '-' {
      i, neg := i + 1, true;
    }
    if (base == 0 || base == 16) && CharAt(s, i) == '0' && CharAt(s, i + 1) == 'x' {
      i, base := i + 2, 16;
    } else if base == 0 && CharAt(s, i) == '0' {
      i, base := i + 1, 8;
    } else if base == 0 {
      base := 10;
    }
    var val;
    val, end := ScanDigits(s, i, base);
    value := if neg then -val else val;
  }

  // ----- reading back what was printed -----

  ghost predicate AllDigits(s: string, base: nat)
  {
    base <= 36 && forall i | 0 <= i < |s| :: DigitValue(s[i]) < base
  }

  lemma DigitIsValue(d: nat)
    requires d < 16
    ensures DigitValue(Digit(d)) == d
  {
  }

  lemma ValueLast(s: string, c: char, base: nat)
    ensures Value(s + [c], base) == Value(s, base) * base + DigitValue(c)
  {
    assert (s + [c])[..|s|] == s;
  }

  /** Leading zeros do not change the value. */
  lemma {:induction false} ZerosValue(k: int, base: nat)
    requires 2 <= base <= 16
    ensures AllDigits(Repeat('0', k), base) && Value(Repeat('0', k), base) == 0
  {
    hide DigitValue, Value;
    DigitIsValue(0);
    if k > 0 {
      ZerosValue(k - 1, base);
      ValueLast(Repeat('0', k - 1), '0', base);
    } else {
      NoValue(base);
    }
  }

  lemma NoValue(base: nat)
    ensures Value([], base) == 0
  {
  }

  /** The digits of a number, zeros in front or not, have the number as their value. */
  lemma {:induction false} DigitsValue(k: int, num: nat, base: nat)
    requires 2 <= base <= 16
    ensures var s := Repeat('0', k) + Digits(num, base); AllDigits(s, base) && Value(s, base) == num
    decreases num
  {
    hide DigitValue, Digit, Repeat;
    var s := Repeat('0', k) + Digits(num, base);
    if num < base {
      ZerosValue(k, base);
      DigitIsValue(num);
      assert s[..|s| - 1] == Repeat('0', k);
    } else {
      DivSmaller(num, base);
      DigitIsValue(num % base);
      DigitsValue(k, num / base, base);
      assert s[..|s| - 1] == Repeat('0', k) + Digits(num / base, base);
    }
  }

  /** On the way the value never exceeds the final one, so it does not overflow if that fits. */
  lemma {:induction false} NoOverflow(s: string, base: nat, i: nat)
    requires base > 0 && i <= |s|
    ensures Value(s[..i], base) <= Value(s, base)
    decreases |s| - i
  {
    if i == |s| {
      assert s[..i] == s;
    } else {
      NoOverflow(s, base, i + 1);
      assert s[..i + 1][..i] == s[..i];
      TimesBase(Value(s[..i], base), base);
    }
  }

  lemma TimesBase(a: nat, base: nat)
    requires base > 0
    ensures a <= a * base
  {
  }

  lemma {:induction false} EndOfDigits(s: string, i: nat, base: nat)
    requires i <= |s| && AllDigits(s[i..], base)
    ensures DigitsEnd(s, i, base) == |s|
    decreases |s| - i
  {
    if i < |s| {
      assert s[i..][0] == s[i];
      assert s[i + 1..] == s[i..][1..];
      EndOfDigits(s, i + 1, base);
    }
  }

  /** In base 16 a prefix is skipped iff an 'x' follows the zero; a capital X is no prefix. */
  lemma HexPrefix(s: string)
    ensures var i := AfterSign(s);
            Prefix(s, 16) == (16, if CharAt(s, i) == '0' && CharAt(s, i + 1) == 'x' then i + 2 else i)
  {
  }

  /** "0x1f" is read as 31, of "0X1f" only the zero is read. */
  lemma CapitalPrefix()
    ensures Parsed("0x1f", 16) == (31, 4) && Parsed("0X1f", 16) == (0, 1)
  {
    var s, t := "0x1f", "0X1f";
    assert AfterSign(s) == 0 && AfterSign(t) == 0;
    EndOfDigits(s, 2, 16);
    assert s[2..4] == "1f" && "1f"[..1] == "1";
    assert Value("1f", 16) == Value("1", 16) * 16 + 15;
    assert Value("1", 16) == Value("1"[..0], 16) * 16 + 1;
    assert DigitsEnd(t, 0, 16) == DigitsEnd(t, 1, 16) == 1;
    assert t[0..1] == "0" && Value("0", 16) == Value("0"[..0], 16) * 16;
  }

  /** Digits and letters of either case have their places in the alphabet as values. */
  lemma CharValues(k: nat)
    ensures k < 10 ==> DigitValue((48 + k) as char) == k
    ensures k < 26 ==> DigitValue((65 + k) as char) == DigitValue((97 + k) as char) == 10 + k
  {
  }

  /** With base 0 the text chooses: 0x for 16, another 0 in front for 8, else 10. */
  lemma ChosenBase(s: string)
    ensures var i := AfterSign(s);
            Prefix(s, 0) == if CharAt(s, i) != '0' then (10, i) else if CharAt(s, i + 1) == 'x' then (16, i + 2) else (8, i + 1)
  {
  }

  /** Some numbers read with base 0. */
  lemma ReadTexts()
    ensures Parsed("-0x1F", 0) == (-31, 5) && Parsed("017", 0) == (15, 3) && Parsed("\t+19z", 0) == (19, 4)
  {
    ReadHex();
    ReadOctal();
    ReadDecimal();
  }

  lemma ReadHex()
    ensures Parsed("-0x1F", 0) == (-31, 5)
  {
    var s := "-0x1F";
    assert AfterSign(s) == 1 && Negative(s);
    EndOfDigits(s, 3, 16);
    assert s[3..5] == "1F" && "1F"[..1] == "1";
    assert Value("1", 16) == Value("1"[..0], 16) * 16 + 1;
    assert Value("1F", 16) == Value("1", 16) * 16 + 15;
  }

  lemma ReadOctal()
    ensures Parsed("017", 0) == (15, 3)
  {
    var s := "017";
    assert AfterSign(s) == 0;
    EndOfDigits(s, 1, 8);
    assert s[1..3] == "17" && "17"[..1] == "1";
    assert Value("1", 8) == Value("1"[..0], 8) * 8 + 1;
    assert Value("17", 8) == Value("1", 8) * 8 + 7;
  }

  lemma ReadDecimal()
    ensures Parsed("\t+19z", 0) == (19, 4)
  {
    var s := "\t+19z";
    assert AfterBlanks(s, 0) == AfterBlanks(s, 1) == 1;
    assert AfterSign(s) == 2;
    assert DigitsEnd(s, 2, 10) == DigitsEnd(s, 3, 10) == DigitsEnd(s, 4, 10) == 4;
    assert s[2..4] == "19" && "19"[..1] == "1";
    assert Value("1", 10) == Value("1"[..0], 10) * 10 + 1;
    assert Value("19", 10) == Value("1", 10) * 10 + 9;
  }

  /** Blanks, a sign, and then nothing but digits. */
  lemma ParseDigits(s: string, base: nat)
    requires 2 <= base <= 16 && AfterSign(s) < |s| && AllDigits(s[AfterSign(s)..], base)
    ensures var v: int := Value(s[AfterSign(s)..], base); Parsed(s, base) == (if Negative(s) then -v else v, |s|)
  {
    var i := AfterSign(s);
    assert i + 1 < |s| ==> s[i..][1] == s[i + 1];
    assert CharAt(s, i + 1) != 'x';
    EndOfDigits(s, i, base);
    assert s[i..|s|] == s[i..];
  }

  /** A character behind the sign that is no digit ends the number. */
  lemma ParseNothing(s: string)
    requires AfterSign(s) < |s| && DigitValue(s[AfterSign(s)]) == 36
    ensures Parsed(s, 10).1 < |s|
  {
  }

  lemma {:induction false} SkipBlanks(s: string, i: nat, k: nat)
    requires i <= k <= |s| && (forall j | i <= j < k :: s[j] == ' ') && (k < |s| ==> !Blank(s[k]))
    ensures AfterBlanks(s, i) == k
    decreases k - i
  {
    if i < k {
      SkipBlanks(s, i + 1, k);
    }
  }

  lemma DigitsNotBlank(c: char)
    requires DigitValue(c) < 16
    ensures !Blank(c) && c != '+' && c != '-'
  {
  }

  /** Spaces and then nothing but digits. */
  lemma ParseBlanks(k: int, body: string, base: nat)
    requires 2 <= base <= 16 && AllDigits(body, base) && body != []
    ensures var s := Repeat(' ', k) + body; Parsed(s, base) == (Value(body, base), |s|)
  {
    hide Value, DigitsEnd, Prefix, DigitValue;
    var blanks := Repeat(' ', k);
    var s := blanks + body;
    assert s[|blanks|..] == body && s[|blanks|] == body[0];
    DigitsNotBlank(body[0]);
    SkipBlanks(s, 0, |blanks|);
    ParseDigits(s, base);
  }

  /** Non-negative numbers in base 8, 10 or 16, padded with zeros or spaces, are read back exactly. */
  lemma UnsignedRoundTrip(num: nat, base: nat, width: int, padc: char)
    requires 2 <= base <= 16 && (padc == '0' || padc == ' ')
    ensures Parsed(Padded(num, base, width, padc), base) == (num, |Padded(num, base, width, padc)|)
  {
    hide Digits, Value, Parsed;
    var digits := Digits(num, base);
    var pad := width - |digits|;
    if padc == '0' {
      DigitsValue(pad, num, base);
      ParseBlanks(0, Repeat('0', pad) + digits, base);
      assert Repeat(' ', 0) + (Repeat('0', pad) + digits) == Padded(num, base, width, padc);
    } else {
      DigitsValue(0, num, base);
      assert Repeat('0', 0) + digits == digits;
      ParseBlanks(pad, digits, base);
    }
  }

  /** When strtol reads the %d output back: no padding comes between a minus and the digits. */
  predicate Readable(x: int, width: int, padc: char)
  {
    var pad := width - |Digits(if x < 0 then -x else x, 10)|;
    pad <= 0 || padc == '0' || (padc == ' ' && x >= 0) || (padc == '-' && pad == 1 && x == 0)
  }

  /** A minus and digits, zeros in front of them or not. */
  lemma MinusDigits(zeros: int, num: nat)
    ensures var s, v: int := "-" + (Repeat('0', zeros) + Digits(num, 10)), 0 - num; Parsed(s, 10) == (v, |s|)
  {
    hide Digits, Value, Repeat, Parsed, DigitValue;
    var body := Repeat('0', zeros) + Digits(num, 10);
    var s := "-" + body;
    DigitsValue(zeros, num, 10);
    assert s[1..] == body && AfterBlanks(s, 0) == 0;
    ParseDigits(s, 10);
  }

  /** A minus and then a space or another minus. */
  lemma MinusOther(s: string)
    requires |s| > 1 && s[0] == '-' && (s[1] == ' ' || s[1] == '-')
    ensures Parsed(s, 10).1 < |s|
  {
    ParseNothing(s);
  }

  /** For every long but the smallest, strtol gets %d output back exactly when it is readable. */
  lemma SignedRoundTrip(x: int, width: int, padc: char)
    requires -LONG_LIMIT < x < LONG_LIMIT && (padc == ' ' || padc == '0' || padc == '-')
    ensures Parsed(Signed(x, width, padc), 10) == (x, |Signed(x, width, padc)|) <==> Readable(x, width, padc)
  {
    var num := if x < 0 then -x else x;
    var digits := Digits(num, 10);
    var pad := width - |digits|;
    var s := Signed(x, width, padc);
    if x >= 0 && (pad <= 0 || padc != '-') {
      assert pad <= 0 ==> Padded(num, 10, width, padc) == Padded(num, 10, width, '0');
      assert s == Padded(num, 10, width, padc);
      UnsignedRoundTrip(num, 10, width, if padc == '-' then '0' else padc);
    } else if x < 0 && (pad <= 0 || padc == '0') {
      assert s == "-" + (Repeat('0', pad) + digits);
      MinusDigits(pad, num);
    } else if x >= 0 && pad == 1 {
      assert Repeat('-', 1) == "-";
      assert s == "-" + (Repeat('0', 0) + digits);
      MinusDigits(0, num);
    } else {
      MinusOther(s);
    }
  }

  /** Printing with %ld and reading the text with strtol. */
  method PrintAndRead(x: int, width: int, padc: char) returns (value: int, end: nat, text: string)
    requires -LONG_LIMIT < x < LONG_LIMIT && (padc == ' ' || padc == '0' || padc == '-')
    ensures value == x && end == |text| <==> Readable(x, width, padc)
  {
    var out := new Sink();
    PrintLong(out, Decimal, x, width, padc);
    text := out.text;
    value, end := Strtol(text, 10);
    SignedRoundTrip(x, width, padc);
    assert text == Signed(x, width, padc);
  }

  /** %lo is read back in base 8, %lx in base 16 and %lu in base 10, for numbers that are not negative. */
  method PrintAndReadUnsigned(x: int, c: Conversion, width: int, padc: char) returns (value: int, end: nat, text: string)
    requires 0 <= x < LONG_LIMIT && c != Decimal && (padc == ' ' || padc == '0')
    ensures value == x && end == |text| && text == Printed(c, x, width, padc)
    ensures (value, end) == Parsed(text, if c == Octal then 8 else if c == Hexadecimal then 16 else 10)
  {
    hide Padded, Parsed;
    var out := new Sink();
    PrintLong(out, c, x, width, padc);
    text := out.text;
    Wrapped(x);
    match c {
      case Unsigned =>
        UnsignedRoundTrip(x, 10, width, padc);
        assert text == Padded(x, 10, width, padc);
        value, end := Strtol(text, 10);
      case Octal =>
        UnsignedRoundTrip(x, 8, width, padc);
        assert text == Padded(x, 8, width, padc);
        value, end := Strtol(text, 8);
      case Hexadecimal =>
        UnsignedRoundTrip(x, 16, width, padc);
        assert text == Padded(x, 16, width, padc);
        value, end := Strtol(text, 16);
    }
  }
}
