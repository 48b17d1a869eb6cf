// pv_escape and pv_pretty of perl_dbi/ppport.h in byte mode: a printer with escapes of several
// widths and an output limit.

module PvEscape {
  import opened Options
  import opened Sequences

  type Byte = c: char | c <= '\U{FF}' witness 'a'

  datatype Flags = Flags(quote: bool, re: bool, all: bool, noBackslash: bool,
                         firstChar: bool, ellipses: bool, ltgt: bool)
  {
    function Esc(): char { if re then '%' else '\\' }
    function Dq(): char { if quote then '"' else Esc() }
    /** The flags under which escapes are written and delimited, so that they can be read back. */
    predicate Readable() { !noBackslash && !(all && firstChar) }
  }

  const VT: char := '\U{0B}'
  const FF: char := '\U{0C}'

  predicate IsPrint(c: char) { ' ' <= c < '\U{7F}' }
  predicate IsDigit(c: char) { '0' <= c <= '9' }
  predicate IsOctDigit(c: char) { '0' <= c <= '7' }

  function Digit(d: int): char
    requires 0 <= d < 16
  {
    (if d < 10 then '0' as int + d else 'a' as int + d - 10) as char
  }

  function Octal3(c: Byte): string {
    var n := c as int;
    [Digit(n / 64), Digit(n / 8 % 8), Digit(n % 8)]
  }

  /** %o */
  function Octal(c: Byte): (s: string)
    ensures |s| > 1 ==> s[0] != '0'
  {
    var n := c as int;
    if n < 8 then [Digit(n)] else if n < 64 then [Digit(n / 8), Digit(n % 8)] else Octal3(c)
  }

  /** %x */
  function Hex(c: Byte): string {
    var n := c as int;
    if n < 16 then [Digit(n)] else [Digit(n / 16), Digit(n % 16)]
  }

  /** What is formatted for byte c when `next` is the byte behind it. */
  function Formatted(f: Flags, c: Byte, next: Byte): string {
    var esc := f.Esc();
    if f.all then
      if f.firstChar then Hex(c) else [esc] + "x{" + Hex(c) + "}"
    else if f.noBackslash then [c]
    else if c == f.Dq() || c == esc || !IsPrint(c) then
      if c == '\\' || c == '%' then (if c == esc then [esc, esc] else [c])
      else if c == VT then [esc, 'v']
      else if c == '\t' then [esc, 't']
      else if c == '\r' then [esc, 'r']
      else if c == '\n' then [esc, 'n']
      else if c == FF then [esc, 'f']
      else if c == '"' then (if f.Dq() == '"' then [esc, '"'] else [c])
      else [esc] + if IsDigit(next) then Octal3(c) else Octal(c)
    else [c]
  }

  /** A text of one character is not taken from the format buffer: the byte itself is written. */
  function Unit(f: Flags, c: Byte, next: Byte): (u: string)
    ensures |u| >= 1
  {
    var s := Formatted(f, c, next);
    if |s| > 1 then s else [c]
  }

  /** The output for bytes i..n; the byte behind the last one is looked at, too. */
  function Units(f: Flags, str: seq<Byte>, i: nat, n: nat): string
    requires i <= n < |str|
    decreases n - i
  {
    if i == n then "" else Unit(f, str[i], str[i + 1]) + Units(f, str, i + 1, n)
  }

  lemma {:induction false} UnitsSnoc(f: Flags, str: seq<Byte>, i: nat, n: nat)
    requires i <= n < |str| - 1
    ensures Units(f, str, i, n + 1) == Units(f, str, i, n) + Unit(f, str[n], str[n + 1])
    decreases n - i
  {
    if i < n {
      UnitsSnoc(f, str, i + 1, n);
      Assoc(Unit(f, str[i], str[i + 1]), Units(f, str, i + 1, n), Unit(f, str[n], str[n + 1]));
    } else {
      assert Units(f, str, n + 1, n + 1) == "" && Units(f, str, n, n) == "";
    }
  }

  /** How many bytes are written when there is no limit. */
  function Most(f: Flags, count: nat): nat { if f.firstChar && count > 0 then 1 else count }

  /** n bytes are written: as many as there are, or as fit into a non-zero limit. */
  ghost predicate Written(f: Flags, str: seq<Byte>, count: nat, max: nat, n: nat)
    requires count < |str|
  {
    && n <= Most(f, count)
    && (max > 0 ==> |Units(f, str, 0, n)| <= max)
    && (n < Most(f, count) ==> max > 0 && |Units(f, str, 0, n + 1)| > max)
  }

  lemma {:induction false} UnitsGrow(f: Flags, str: seq<Byte>, m: nat, n: nat)
    requires m <= n < |str|
    ensures |Units(f, str, 0, m)| + (n - m) <= |Units(f, str, 0, n)|
    decreases n
  {
    if m < n {
      UnitsGrow(f, str, m, n - 1);
      UnitsSnoc(f, str, 0, n - 1);
    }
  }

  /** The limit decides how much is written. */
  lemma WrittenIsUnique(f: Flags, str: seq<Byte>, count: nat, max: nat, m: nat, n: nat)
    requires count < |str| && Written(f, str, count, max, m) && Written(f, str, count, max, n)
    ensures m == n
  {
    if m < n { UnitsGrow(f, str, m + 1, n); }
    if n < m { UnitsGrow(f, str, n + 1, m); }
  }

  // ---- Reading escapes back ------------------------------------------------------------------------

  /** Up to three octal digits. */
  function OctalRun(s: string): nat {
    if |s| == 0 || !IsOctDigit(s[0]) then 0
    else if |s| == 1 || !IsOctDigit(s[1]) then 1
    else if |s| == 2 || !IsOctDigit(s[2]) then 2
    else 3
  }

  function DigitValue(c: char): int {
    if '0' <= c <= '9' then c as int - '0' as int
    else if 'a' <= c <= 'f' then c as int - 'a' as int + 10
    else -1
  }

  function OctalValue(s: string): int
    requires |s| <= 3
  {
    if |s| == 3 then DigitValue(s[0]) * 64 + DigitValue(s[1]) * 8 + DigitValue(s[2])
    else if |s| == 2 then DigitValue(s[0]) * 8 + DigitValue(s[1])
    else if |s| == 1 then DigitValue(s[0])
    else 0
  }

  /** The character one escape stands for and the length of its text behind the escape character. */
  function ReadEscape(esc: char, s: string): Option<(char, nat)> {
    if s == [] then None
    else if s[0] == esc || s[0] == '"' then Some((s[0], 1))
    else if s[0] == 'v' then Some((VT, 1))
    else if s[0] == 't' then Some(('\t', 1))
    else if s[0] == 'r' then Some(('\r', 1))
    else if s[0] == 'n' then Some(('\n', 1))
    else if s[0] == 'f' then Some((FF, 1))
    else if s[0] == 'x' then ReadHex(s)
    else
      var n := OctalRun(s);
      if n == 0 || OctalValue(s[..n]) > 255 then None
      else Some((OctalValue(s[..n]) as char, n))
  }

  function ReadHex(s: string): Option<(char, nat)> {
    if |s| < 4 || s[1] != '{' || DigitValue(s[2]) < 0 then None
    else if s[3] == '}' then Some((DigitValue(s[2]) as char, 4))
    else if |s| < 5 || DigitValue(s[3]) < 0 || s[4] != '}' then None
    else Some(((DigitValue(s[2]) * 16 + DigitValue(s[3])) as char, 5))
  }

  function Decode(esc: char, s: string): Option<string> {
    if s == [] then Some("")
    else if s[0] != esc then Prepend(s[0], Decode(esc, s[1..]))
    else
      var e := ReadEscape(esc, s[1..]);
      if e.None? || e.value.1 > |s| - 1 then None
      else Prepend(e.value.0, Decode(esc, s[1 + e.value.1..]))
  }

  lemma DigitReadsBack(d: int)
    requires 0 <= d < 16
    ensures DigitValue(Digit(d)) == d && (IsOctDigit(Digit(d)) <==> d < 8) && Digit(d) != '}'
  {}

  lemma OctalReadsBack(c: Byte, rest: string)
    requires rest != [] ==> !IsOctDigit(rest[0])
    ensures var s := Octal(c) + rest; OctalRun(s) == |Octal(c)| && OctalValue(s[..OctalRun(s)]) == c as int
  {
    var n := c as int;
    DigitReadsBack(n % 8);
    if n < 64 { DigitReadsBack(n / 8); } else { Octal3ReadsBack(c, rest); }
    assert (Octal(c) + rest)[..|Octal(c)|] == Octal(c);
  }

  lemma Octal3ReadsBack(c: Byte, rest: string)
    ensures var s := Octal3(c) + rest; OctalRun(s) == 3 && OctalValue(s[..3]) == c as int
  {
    var n := c as int;
    DigitReadsBack(n / 64);
    DigitReadsBack(n / 8 % 8);
    DigitReadsBack(n % 8);
    assert (Octal3(c) + rest)[..3] == Octal3(c);
  }

  lemma HexReadsBack(c: Byte, rest: string)
    ensures ReadHex("x{" + Hex(c) + "}" + rest) == Some((c as char, |Hex(c)| + 3))
  {
    var n := c as int;
    var s := "x{" + Hex(c) + "}" + rest;
    DigitReadsBack(n % 16);
    assert s[0] == 'x' && s[1] == '{' && s[2 + |Hex(c)|] == '}';
    assert forall i :: 0 <= i < |Hex(c)| ==> s[2 + i] == Hex(c)[i];
    if n >= 16 { DigitReadsBack(n / 16); }
  }

  /** An escaped unit is the escape character and a text that reads back as the byte. */
  lemma EscapeReadsBack(f: Flags, c: Byte, next: Byte, rest: string)
    requires f.Readable() && |Formatted(f, c, next)| > 1
    requires rest != [] && IsOctDigit(rest[0]) ==> IsDigit(next)
    ensures var u := Unit(f, c, next);
            u[0] == f.Esc() && ReadEscape(f.Esc(), u[1..] + rest) == Some((c as char, |u| - 1))
  {
    var esc, u := f.Esc(), Unit(f, c, next);
    if f.all {
      HexReadsBack(c, rest);
      assert u[1..] == "x{" + Hex(c) + "}";
    } else if c != '\\' && c != '%' && c != '"' && c !in {VT, FF, '\t', '\r', '\n'} {
      if IsDigit(next) {
        Octal3ReadsBack(c, rest);
        assert u[1..] == Octal3(c);
      } else {
        OctalReadsBack(c, rest);
        assert u[1..] == Octal(c);
      }
      assert IsOctDigit((u[1..] + rest)[0]);
    }
  }

  lemma DecodePlain(esc: char, c: char, rest: string)
    requires c != esc
    ensures Decode(esc, [c] + rest) == Prepend(c, Decode(esc, rest))
  {
    assert ([c] + rest)[1..] == rest;
  }

  lemma DecodeEscape(esc: char, u: string, rest: string, c: char)
    requires u != "" && u[0] == esc && ReadEscape(esc, u[1..] + rest) == Some((c, |u| - 1))
    ensures Decode(esc, u + rest) == Prepend(c, Decode(esc, rest))
  {
    assert (u + rest)[1..] == u[1..] + rest && (u + rest)[|u|..] == rest;
  }

  lemma UnitReadsBack(f: Flags, c: Byte, next: Byte, rest: string)
    requires f.Readable()
    requires rest != [] && IsOctDigit(rest[0]) ==> IsDigit(next)
    ensures Decode(f.Esc(), Unit(f, c, next) + rest) == Prepend(c, Decode(f.Esc(), rest))
  {
    if |Formatted(f, c, next)| > 1 {
      EscapeReadsBack(f, c, next, rest);
      DecodeEscape(f.Esc(), Unit(f, c, next), rest, c);
    } else {
      assert Unit(f, c, next) == [c];
      DecodePlain(f.Esc(), c, rest);
    }
  }

  lemma UnitStart(f: Flags, c: Byte, next: Byte, rest: string)
    requires f.Readable()
    ensures IsOctDigit((Unit(f, c, next) + rest)[0]) ==> IsDigit(c)
  {}

  /** An octal digit behind a unit comes from a digit. */
  lemma RestStart(f: Flags, str: seq<Byte>, i: nat, n: nat)
    requires i <= n < |str| && f.Readable()
    ensures var rest := Units(f, str, i, n); rest != [] && IsOctDigit(rest[0]) ==> IsDigit(str[i])
  {
    if i < n { UnitStart(f, str[i], str[i + 1], Units(f, str, i + 1, n)); }
  }

  lemma OneByte(str: seq<Byte>, i: nat, n: nat)
    requires i < n <= |str|
    ensures Prepend<char>(str[i], Some(str[i + 1..n])) == Some(str[i..n])
  {
    assert [str[i] as char] + str[i + 1..n] == str[i..n];
  }

  /** Escaping is lossless: reading the output for any n bytes gives these bytes. */
  lemma {:induction false} EscapingIsLossless(f: Flags, str: seq<Byte>, i: nat, n: nat)
    requires i <= n < |str| && f.Readable()
    ensures Decode(f.Esc(), Units(f, str, i, n)) == Some(str[i..n])
    decreases n - i
  {
    if i < n {
      EscapingIsLossless(f, str, i + 1, n);
      RestStart(f, str, i + 1, n);
      UnitReadsBack(f, str[i], str[i + 1], Units(f, str, i + 1, n));
      OneByte(str, i, n);
    } else {
      assert str[i..n] == [];
    }
  }

  // ---- Which escape is chosen ------------------------------------------------------------------------------

  /** Digits of n in the base, without leading zeros. */
  function InBase(n: nat, base: nat): string
    requires 2 <= base <= 16
  {
    if n < base then ["0123456789abcdef"[n]] else InBase(n / base, base) + ["0123456789abcdef"[n % base]]
  }

  /** The last k digits of n in the base. */
  function LastDigits(n: nat, base: nat, k: nat): string
    requires 2 <= base <= 16
  {
    if k == 0 then "" else LastDigits(n / base, base, k - 1) + ["0123456789abcdef"[n % base]]
  }

  lemma DigitOfBase(d: nat)
    requires d < 16
    ensures Digit(d) == "0123456789abcdef"[d]
  {}

  lemma OctalDigits(c: Byte)
    ensures Octal3(c) == LastDigits(c as int, 8, 3)
  {
    var n := c as int;
    DigitOfBase(n % 8);
    DigitOfBase(n / 8 % 8);
    DigitOfBase(n / 64);
    assert n / 8 / 8 == n / 64 && n / 64 % 8 == n / 64;
    var last, middle, first := "0123456789abcdef"[n % 8], "0123456789abcdef"[n / 8 % 8], "0123456789abcdef"[n / 64];
    assert LastDigits(n / 64, 8, 1) == "" + [first];
    assert LastDigits(n / 8, 8, 2) == LastDigits(n / 64, 8, 1) + [middle];
  }

  lemma OctalNumeral(c: Byte)
    ensures Octal(c) == InBase(c as int, 8)
  {
    var n := c as int;
    DigitOfBase(n % 8);
    if n < 64 {
      DigitOfBase(n / 8);
    } else {
      DigitOfBase(n / 8 % 8);
      DigitOfBase(n / 64);
      assert n / 8 / 8 == n / 64;
      assert InBase(n / 8, 8) == ["0123456789abcdef"[n / 64]] + ["0123456789abcdef"[n / 8 % 8]];
    }
  }

  lemma HexNumeral(c: Byte)
    ensures Hex(c) == InBase(c as int, 16)
  {
    DigitOfBase(c as int % 16);
    DigitOfBase(c as int / 16);
  }

  /** The control characters that have a letter of their own. */
  predicate Lettered(c: char, letter: char) {
    || (c as int == 9 && letter == 't') || (c as int == 10 && letter == 'n') || (c as int == 11 && letter == 'v')
    || (c as int == 12 && letter == 'f') || (c as int == 13 && letter == 'r')
  }

  /** Printable ASCII, by number. */
  predicate PrintableAscii(c: char) { 32 <= c as int && c as int <= 126 }

  /** Without the flags that change the form, a control character with a letter is written with it. */
  lemma LetteredEscapes(f: Flags, c: Byte, next: Byte, letter: char)
    requires !f.all && !f.noBackslash && Lettered(c, letter)
    ensures Unit(f, c, next) == [if f.re then '%' else '\\', letter]
  {}

  /** The escape character is doubled, a double quote is escaped when it delimits, and every other
      printable character is written as it is. */
  lemma PrintableEscapes(f: Flags, c: Byte, next: Byte)
    requires !f.all && !f.noBackslash && PrintableAscii(c)
    ensures Unit(f, c, next) ==
              if c == (if f.re then '%' else '\\') || (c == '"' && f.quote) then [if f.re then '%' else '\\', c] else [c]
  {}

  /** What is left is written in octal, filled up to three digits in front of a digit. */
  lemma OctalEscapes(f: Flags, c: Byte, next: Byte)
    requires !f.all && !f.noBackslash && !PrintableAscii(c) && !(9 <= c as int && c as int <= 13)
    ensures Unit(f, c, next) ==
              [if f.re then '%' else '\\'] +
              if '0' <= next && next <= '9' then LastDigits(c as int, 8, 3) else InBase(c as int, 8)
  {
    OctalDigits(c);
    OctalNumeral(c);
  }

  /** With the all flag every byte is written in hexadecimal, between braces unless it is the first
      character alone; a single digit alone is not used, the byte itself is. */
  lemma AllInHexadecimal(f: Flags, c: Byte, next: Byte)
    requires f.all
    ensures !f.firstChar ==> Unit(f, c, next) == [if f.re then '%' else '\\'] + "x{" + InBase(c as int, 16) + "}"
    ensures f.firstChar ==> Unit(f, c, next) == if c as int < 16 then [c] else InBase(c as int, 16)
  {
    HexNumeral(c);
  }

  /** Without escapes the bytes are copied. */
  lemma {:induction false} NoBackslashCopies(f: Flags, str: seq<Byte>, i: nat, n: nat)
    requires i <= n < |str| && f.noBackslash && !f.all
    ensures Units(f, str, i, n) == str[i..n]
    decreases n - i
  {
    if i < n {
      NoBackslashCopies(f, str, i + 1, n);
      assert [str[i] as char] + str[i + 1..n] == str[i..n];
    } else {
      assert str[i..n] == [];
    }
  }

  /** Without a limit all bytes are written; with the first-character flag at most one. */
  lemma HowMuchIsWritten(f: Flags, str: seq<Byte>, count: nat, max: nat, n: nat)
    requires count < |str| && Written(f, str, count, max, n)
    ensures !f.firstChar && max == 0 ==> n == count
    ensures f.firstChar ==> n == if count > 0 && (max == 0 || |Unit(f, str[0], str[1])| <= max) then 1 else 0
  {
    if count > 0 { assert Units(f, str, 0, 1) == Unit(f, str[0], str[1]) + ""; }
  }

  // ---- What a reader of the output can rely on ---------------------------------------------------------

  lemma UnitIsPrintable(f: Flags, c: Byte, next: Byte)
    requires f.Readable()
    ensures forall ch :: ch in Unit(f, c, next) ==> IsPrint(ch)
  {
    var u := Unit(f, c, next);
    assert forall d :: 0 <= d < 16 ==> IsPrint(Digit(d));
    if f.all {
      assert forall i :: 0 <= i < |Hex(c)| ==> IsPrint(Hex(c)[i]);
    } else if |u| > 2 {
      assert u == [f.Esc()] + Octal(c) || u == [f.Esc()] + Octal3(c);
    }
  }

  /** No control character reaches the output. */
  lemma {:induction false} OutputIsPrintable(f: Flags, str: seq<Byte>, i: nat, n: nat)
    requires i <= n < |str| && f.Readable()
    ensures forall ch :: ch in Units(f, str, i, n) ==> IsPrint(ch)
    decreases n - i
  {
    if i < n {
      UnitIsPrintable(f, str[i], str[i + 1]);
      OutputIsPrintable(f, str, i + 1, n);
    }
  }

  /** Position of the first double quote that no escape character precedes. */
  function QuoteEnd(esc: char, s: string): nat {
    if s == [] || s[0] == '"' then 0
    else if s[0] == esc && |s| > 1 then 2 + QuoteEnd(esc, s[2..])
    else 1 + QuoteEnd(esc, s[1..])
  }

  lemma {:induction false} QuoteEndSkips(esc: char, p: string, rest: string)
    requires esc !in p && '"' !in p
    ensures QuoteEnd(esc, p + rest) == |p| + QuoteEnd(esc, rest)
  {
    if p == [] { assert p + rest == rest; } else {
      assert p[0] in p && (p + rest)[1..] == p[1..] + rest;
      QuoteEndSkips(esc, p[1..], rest);
    }
  }

  lemma EscapeSkipped(esc: char, x: char, tail: string, rest: string)
    requires esc != '"' && esc !in tail && '"' !in tail
    ensures QuoteEnd(esc, ([esc, x] + tail) + rest) == 2 + |tail| + QuoteEnd(esc, rest)
  {
    var s := ([esc, x] + tail) + rest;
    assert s[2..] == tail + rest;
    QuoteEndSkips(esc, tail, rest);
  }

  /** Neither a quote nor an escape character. */
  predicate Harmless(f: Flags, s: string) { f.Esc() !in s && '"' !in s }

  lemma DigitsAreHarmless(f: Flags, c: Byte)
    ensures Harmless(f, Hex(c)) && Harmless(f, Octal3(c)) && Harmless(f, Octal(c))
  {}

  lemma EscapeTail(f: Flags, digits: string)
    requires Harmless(f, digits)
    ensures Harmless(f, (['x', '{'] + digits + "}")[1..]) && (digits != "" ==> Harmless(f, digits[1..]))
  {
    assert (['x', '{'] + digits + "}")[1..] == "{" + digits + "}";
  }

  /** Digits and braces are harmless. */
  lemma TailIsHarmless(f: Flags, c: Byte, next: Byte)
    requires f.Readable() && |Unit(f, c, next)| > 1
    ensures var u := Unit(f, c, next); u[0] == f.Esc() && Harmless(f, u[2..])
  {
    var u := Unit(f, c, next);
    DigitsAreHarmless(f, c);
    if f.all {
      EscapeTail(f, Hex(c));
      assert u[2..] == (['x', '{'] + Hex(c) + "}")[1..];
    } else if |u| > 2 {
      var digits := if IsDigit(next) then Octal3(c) else Octal(c);
      EscapeTail(f, digits);
      assert u == [f.Esc()] + digits;
      assert u[2..] == digits[1..];
    }
  }

  lemma UnitSkipped(f: Flags, c: Byte, next: Byte, rest: string)
    requires f.Readable() && f.quote
    ensures QuoteEnd(f.Esc(), Unit(f, c, next) + rest) == |Unit(f, c, next)| + QuoteEnd(f.Esc(), rest)
  {
    var u := Unit(f, c, next);
    if |u| == 1 {
      assert (u + rest)[1..] == rest;
    } else {
      TailIsHarmless(f, c, next);
      assert u == [u[0], u[1]] + u[2..];
      EscapeSkipped(u[0], u[1], u[2..], rest);
    }
  }

  lemma OneMoreSkipped(esc: char, u: string, rest: string, close: string)
    requires QuoteEnd(esc, u + (rest + close)) == |u| + QuoteEnd(esc, rest + close)
    requires QuoteEnd(esc, rest + close) == |rest|
    ensures QuoteEnd(esc, (u + rest) + close) == |u + rest|
  {
    Assoc(u, rest, close);
  }

  /** Between double quotes, the closing quote is the first one that is not escaped. */
  lemma {:induction false} QuotedOutputIsDelimited(f: Flags, str: seq<Byte>, i: nat, n: nat, tail: string)
    requires i <= n < |str| && f.Readable() && f.quote
    ensures QuoteEnd(f.Esc(), Units(f, str, i, n) + ("\"" + tail)) == |Units(f, str, i, n)|
    decreases n - i
  {
    var close := "\"" + tail;
    if i < n {
      QuotedOutputIsDelimited(f, str, i + 1, n, tail);
      UnitSkipped(f, str[i], str[i + 1], Units(f, str, i + 1, n) + close);
      OneMoreSkipped(f.Esc(), Unit(f, str[i], str[i + 1]), Units(f, str, i + 1, n), close);
    } else {
      assert "" + close == close;
    }
  }

  // ---- The methods -----------------------------------------------------------------------------------

  /** A Perl string value that is appended to. */
  class Sv {
    var text: string
    constructor (text: string) ensures this.text == text { this.text := text; }
  }

  /** What one turn of the loop writes. */
  lemma OneUnit(f: Flags, str: seq<Byte>, n: nat, base: string)
    requires n < |str| - 1
    ensures base + Units(f, str, 0, n + 1) == (base + Units(f, str, 0, n)) + Unit(f, str[n], str[n + 1])
    ensures |Units(f, str, 0, n + 1)| == |Units(f, str, 0, n)| + |Unit(f, str[n], str[n + 1])|
  {
    UnitsSnoc(f, str, 0, n);
    Assoc(base, Units(f, str, 0, n), Unit(f, str[n], str[n + 1]));
  }

  /** Why the loop stops. */
  lemma LoopEnds(f: Flags, str: seq<Byte>, count: nat, max: nat, n: nat)
    requires count < |str| && n <= Most(f, count) && (max > 0 ==> |Units(f, str, 0, n)| <= max)
    requires n == Most(f, count) ||
             (max > 0 && |Units(f, str, 0, n)| + |Unit(f, str[n], str[n + 1])| > max)
    ensures Written(f, str, count, max, n)
  {
    if n < Most(f, count) { OneUnit(f, str, n, ""); }
  }

  /** `escaped` is the pointer difference at the end of the loop; a loop left by the first-character
      flag has not moved the pointer. */
  method Escape(dsv: Sv, str: seq<Byte>, count: nat, max: nat, f: Flags, noClear: bool)
    returns (escaped: nat, ghost n: nat)
    requires count < |str|
    modifies dsv
    ensures Written(f, str, count, max, n)
    ensures dsv.text == (if noClear then old(dsv.text) else "") + Units(f, str, 0, n)
    ensures escaped == if f.firstChar && n == 1 then 0 else n
  {
    if !noClear { dsv.text := ""; }
    ghost var base := dsv.text;
    var wrote, pv := 0, 0;
    n := 0;
    while pv < count && (max == 0 || wrote < max)
      invariant 0 <= pv <= count && n == pv && wrote == |Units(f, str, 0, pv)|
      invariant max > 0 ==> wrote <= max
      invariant dsv.text == base + Units(f, str, 0, pv)
      invariant f.firstChar ==> pv == 0
    {
      var u := Unit(f, str[pv], str[pv + 1]);
      if max > 0 && wrote + |u| > max {
        break;
      }
      OneUnit(f, str, pv, base);
      dsv.text := dsv.text + u;
      wrote := wrote + |u|;
      n := n + 1;
      if f.firstChar {
        break;
      }
      pv := pv + 1;
    }
    escaped := pv;
    LoopEnds(f, str, count, max, n);
  }

  function Opening(f: Flags): string { if f.quote then "\"" else if f.ltgt then "<" else "" }
  function Closing(f: Flags): string { if f.quote then "\"" else if f.ltgt then ">" else "" }

  /** Double quotes or else angle brackets around the text, or nothing. */
  lemma DelimitersMatch(f: Flags)
    ensures f.quote ==> Opening(f) == "\"" == Closing(f)
    ensures !f.quote && f.ltgt ==> Opening(f) == "<" && Closing(f) == ">"
    ensures !f.quote && !f.ltgt ==> Opening(f) == "" == Closing(f)
  {}

  method Pretty(dsv: Sv, str: seq<Byte>, count: nat, max: nat,
                startColor: Option<string>, endColor: Option<string>, f: Flags, noClear: bool)
    returns (dots: bool, ghost n: nat)
    requires count < |str|
    modifies dsv
    ensures Written(f, str, count, max, n)
    ensures dsv.text == (if noClear then old(dsv.text) else "")
                        + Opening(f)
                        + (if startColor.Some? then startColor.value else "")
                        + Units(f, str, 0, n)
                        + (if endColor.Some? then endColor.value else "")
                        + Closing(f) + (if dots then "..." else "")
    ensures dots <==> Dots(f, count, n)
  {
    if !noClear { dsv.text := ""; }
    dsv.text := dsv.text + Opening(f);
    dsv.text := dsv.text + if startColor.Some? then startColor.value else "";
    ghost var before := dsv.text;
    var escaped: nat;
    escaped, n := Escape(dsv, str, count, max, f, true);
    dsv.text := dsv.text + if endColor.Some? then endColor.value else "";
    dsv.text := dsv.text + Closing(f);
    dots := f.ellipses && escaped < count;
    if dots { dsv.text := dsv.text + "..."; }
  }

  /** When pv_pretty appends its ellipsis after n of count bytes. */
  predicate Dots(f: Flags, count: nat, n: nat) {
    f.ellipses && (if f.firstChar && n == 1 then 0 else n) < count
  }

  /** The ellipsis says that input was dropped, exactly unless the first-character flag is set and the
      only byte of the input was written. */
  lemma EllipsisMeansDroppedExactly(f: Flags, str: seq<Byte>, count: nat, max: nat, n: nat)
    requires count < |str| && Written(f, str, count, max, n) && f.ellipses
    ensures (Dots(f, count, n) <==> n < count) <==>
              !(f.firstChar && count == 1 && (max == 0 || |Unit(f, str[0], str[1])| <= max))
  {
    if count > 0 { assert Units(f, str, 0, 1) == Unit(f, str[0], str[1]) + ""; }
  }

  /** The first-character flag on a one-byte input: everything was written, and the ellipsis follows. */
  lemma EllipsisCanBeWrong(f: Flags)
    requires f.firstChar && f.ellipses
    ensures Written(f, ['a', '\0'], 1, 0, 1) && Dots(f, 1, 1)
  {}

  /** A limited output is a cut between two escapes, and what was written reads back. */
  lemma LimitCutsBetweenEscapes(f: Flags, str: seq<Byte>, count: nat, max: nat, n: nat)
    requires count < |str| && f.Readable() && Written(f, str, count, max, n)
    ensures Units(f, str, 0, n) <= Units(f, str, 0, Most(f, count)) <= Units(f, str, 0, count)
    ensures Decode(f.Esc(), Units(f, str, 0, n)) == Some(str[..n])
    ensures max > 0 ==> |Units(f, str, 0, n)| <= max
    ensures n < Most(f, count) <==> max > 0 && |Units(f, str, 0, Most(f, count))| > max
  {
    EscapingIsLossless(f, str, 0, n);
    assert str[0..n] == str[..n];
    UnitsPrefix(f, str, n, Most(f, count));
    UnitsPrefix(f, str, Most(f, count), count);
    if n < Most(f, count) { UnitsGrow(f, str, n + 1, Most(f, count)); }
  }

  lemma PrefixOfLonger(a: string, b: string, c: string)
    requires a <= b
    ensures a <= b + c
  {}

  lemma {:induction false} UnitsPrefix(f: Flags, str: seq<Byte>, m: nat, n: nat)
    requires m <= n < |str|
    ensures Units(f, str, 0, m) <= Units(f, str, 0, n)
    decreases n
  {
    if m < n {
      UnitsPrefix(f, str, m, n - 1);
      UnitsSnoc(f, str, 0, n - 1);
      PrefixOfLonger(Units(f, str, 0, m), Units(f, str, 0, n - 1), Unit(f, str[n - 1], str[n]));
    }
  }
}
