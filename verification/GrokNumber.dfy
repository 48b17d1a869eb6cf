// grok_number of perl_dbi/ppport.h: classifying a text as a number.

module GrokNumber {
  import opened Options
  import opened Sequences

  // Unsigned integers have at least 32 bits; everything below holds for any maximum that large.
  const MIN_UV_MAX: nat := 0xFFFF_FFFF

  /** The flag bits of the result.  No flag set is the result zero: not a number. */
  datatype NumType = NumType(inUv: bool, greaterThanUvMax: bool, notInt: bool,
                             neg: bool, infinity: bool, nan: bool)

  const REJECTED := NumType(false, false, false, false, false, false)

  predicate IsSpace(c: char) { c in {' ', '\t', '\n', '\r', '\U{0C}'} }
  predicate IsDigit(c: char) { '0' <= c <= '9' }
  predicate AllDigits(s: string) { forall i :: 0 <= i < |s| ==> IsDigit(s[i]) }
  predicate AllSpace(s: string) { forall i :: 0 <= i < |s| ==> IsSpace(s[i]) }

  function DigitValue(c: char): int { c as int - '0' as int }

  /** The decimal value of the digits at a..b. */
  function Decimal(s: string, a: nat, b: nat): int
    requires a <= b <= |s|
  {
    if a == b then 0 else Decimal(s, a, b - 1) * 10 + DigitValue(s[b - 1])
  }

  /** The decimal value of a whole text. */
  function Worth(s: string): int { Decimal(s, 0, |s|) }

  // ---- The grammar ------------------------------------------------------------------------------------

  datatype Exponent = Exponent(letter: char, sign: string, digits: string)

  datatype Body =
    | Finite(whole: string, frac: Option<string>, exp: Option<Exponent>)
    | Infinity(word: string)
    | NaN(word: string)

  /** Blanks, sign, body, blanks. */
  datatype Numeral = Numeral(lead: string, sign: string, body: Body, trail: string)

  predicate IsSign(s: string) { s == "" || s == "-" || s == "+" }

  /** Letters compare without case. */
  function Upper(s: string): string {
    seq(|s|, i requires 0 <= i < |s| => if 'a' <= s[i] <= 'z' then (s[i] as int - 32) as char else s[i])
  }

  predicate ValidExponent(e: Exponent) {
    (e.letter == 'e' || e.letter == 'E') && IsSign(e.sign) && e.digits != "" && AllDigits(e.digits)
  }

  predicate ValidBody(b: Body) {
    match b
    case Finite(whole, frac, exp) =>
      && AllDigits(whole)
      && (frac.Some? ==> AllDigits(frac.value))
      && (whole == "" ==> frac.Some? && frac.value != "")
      && (exp.Some? ==> ValidExponent(exp.value))
    case Infinity(word) => Upper(word) == "INF" || Upper(word) == "INFINITY"
    case NaN(word) => Upper(word) == "NAN"
  }

  predicate Valid(n: Numeral) {
    AllSpace(n.lead) && IsSign(n.sign) && ValidBody(n.body) && AllSpace(n.trail)
  }

  function ShowFrac(f: Option<string>): string { if f.Some? then "." + f.value else "" }

  function ShowExp(e: Option<Exponent>): string {
    if e.Some? then [e.value.letter] + e.value.sign + e.value.digits else ""
  }

  function ShowBody(b: Body): string {
    match b
    case Finite(whole, frac, exp) => whole + ShowFrac(frac) + ShowExp(exp)
    case Infinity(word) => word
    case NaN(word) => word
  }

  function Show(n: Numeral): string { n.lead + n.sign + ShowBody(n.body) + n.trail }

  predicate Spells(n: Numeral, s: string) { Valid(n) && Show(n) == s }

  /** The flags a body deserves. */
  function BodyFlags(b: Body, uvMax: nat, neg: bool): NumType {
    match b
    case Infinity(_) => NumType(false, false, true, neg, true, false)
    case NaN(_) => NumType(false, false, true, neg, false, true)
    case Finite(whole, frac, exp) =>
      if exp.Some? then NumType(false, false, true, neg, false, false)
      else
        var fits := Worth(whole) <= uvMax;
        NumType(fits, !fits, frac.Some?, neg, false, false)
  }

  function Meaning(n: Numeral, uvMax: nat): NumType { BodyFlags(n.body, uvMax, n.sign == "-") }

  const BUT_TRUE := "0 but true"

  // ---- A parser for the grammar ---------------------------------------------------------------------------

  function Digits(r: string): (n: nat)
    ensures n <= |r| && AllDigits(r[..n]) && (n < |r| ==> !IsDigit(r[n]))
  {
    if r == [] || !IsDigit(r[0]) then 0 else 1 + Digits(r[1..])
  }

  function Blanks(r: string): (n: nat)
    ensures n <= |r| && AllSpace(r[..n]) && (n < |r| ==> !IsSpace(r[n]))
  {
    if r == [] || !IsSpace(r[0]) then 0 else 1 + Blanks(r[1..])
  }

  function SignOf(r: string): string {
    if r != [] && (r[0] == '-' || r[0] == '+') then [r[0]] else ""
  }

  /** The fraction in front of r, if any, and what follows it. */
  function ParseFrac(r: string): (Option<string>, string) {
    if r != [] && r[0] == '.' then
      var d := Digits(r[1..]);
      (Some(r[1..][..d]), r[1..][d..])
    else (None, r)
  }

  /** An exponent letter without digits behind it makes the whole text no number. */
  function ParseExp(r: string): Option<(Option<Exponent>, string)> {
    if r != [] && (r[0] == 'e' || r[0] == 'E') then
      var sign := SignOf(r[1..]);
      var t := r[1..][|sign|..];
      var d := Digits(t);
      if d == 0 then None else Some((Some(Exponent(r[0], sign, t[..d])), t[d..]))
    else Some((None, r))
  }

  function ParseFinite(r: string): Option<(Body, string)> {
    var w := Digits(r);
    var (frac, r1) := ParseFrac(r[w..]);
    if w == 0 && (frac.None? || frac.value == "") then None
    else
      var e := ParseExp(r1);
      if e.None? then None else Some((Finite(r[..w], frac, e.value.0), e.value.1))
  }

  /** "inf" goes on to "infinity" as soon as another i follows. */
  function ParseWord(r: string): Option<(Body, string)> {
    if |r| < 3 then None
    else if Upper(r[..3]) == "NAN" then Some((NaN(r[..3]), r[3..]))
    else if Upper(r[..3]) != "INF" then None
    else if |r| == 3 || (r[3] != 'i' && r[3] != 'I') then Some((Infinity(r[..3]), r[3..]))
    else if |r| < 8 || Upper(r[..8]) != "INFINITY" then None
    else Some((Infinity(r[..8]), r[8..]))
  }

  function ParseBody(r: string): Option<(Body, string)> {
    if r != [] && (IsDigit(r[0]) || r[0] == '.') then ParseFinite(r) else ParseWord(r)
  }

  function Parse(s: string): Option<Numeral> {
    var lead := s[..Blanks(s)];
    var r := s[|lead|..];
    var sign := SignOf(r);
    var b := ParseBody(r[|sign|..]);
    if b.None? || Blanks(b.value.1) != |b.value.1| then None
    else Some(Numeral(lead, sign, b.value.0, b.value.1))
  }

  lemma Parts4(a: string, b: string, c: string, d: string)
    ensures a + b + c + d == a + (b + (c + d))
  {}

  lemma NothingBefore(r: string)
    ensures "" + r == r
  {}

  // ---- The parser reads exactly the grammar -----------------------------------------------------------------

  lemma {:induction false} DigitsOf(d: string, rest: string)
    requires AllDigits(d) && (rest != [] ==> !IsDigit(rest[0]))
    ensures Digits(d + rest) == |d| && (d + rest)[..|d|] == d && (d + rest)[|d|..] == rest
  {
    if d == [] { assert d + rest == rest; } else {
      assert (d + rest)[1..] == d[1..] + rest;
      DigitsOf(d[1..], rest);
    }
  }

  lemma {:induction false} BlanksOf(d: string, rest: string)
    requires AllSpace(d) && (rest != [] ==> !IsSpace(rest[0]))
    ensures Blanks(d + rest) == |d| && (d + rest)[..|d|] == d && (d + rest)[|d|..] == rest
  {
    if d == [] { assert d + rest == rest; } else {
      assert (d + rest)[1..] == d[1..] + rest;
      BlanksOf(d[1..], rest);
    }
  }

  /** A text that cannot continue a number. */
  predicate Stops(rest: string) { AllSpace(rest) }

  lemma ReadsExp(e: Option<Exponent>, rest: string)
    requires (e.Some? ==> ValidExponent(e.value)) && Stops(rest)
    ensures ParseExp(ShowExp(e) + rest) == Some((e, rest))
  {
    var r := ShowExp(e) + rest;
    if e.Some? {
      var x := e.value;
      Parts4([x.letter], x.sign, x.digits, rest);
      assert r[1..] == x.sign + (x.digits + rest);
      DigitsOf(x.digits, rest);
      SignIsRead(x.sign, x.digits + rest);
    } else {
      assert r == rest;
    }
  }

  lemma ReadsFrac(f: Option<string>, rest: string)
    requires f.Some? ==> AllDigits(f.value)
    requires rest != [] ==> !IsDigit(rest[0]) && rest[0] != '.'
    ensures ParseFrac(ShowFrac(f) + rest) == (f, rest)
  {
    var r := ShowFrac(f) + rest;
    if f.Some? {
      assert r[1..] == f.value + rest;
      DigitsOf(f.value, rest);
    } else {
      assert r == rest;
    }
  }

  lemma ReadsFinite(b: Body, rest: string)
    requires b.Finite? && ValidBody(b) && Stops(rest)
    ensures ParseFinite(ShowBody(b) + rest) == Some((b, rest))
  {
    var tail := ShowExp(b.exp) + rest;
    var middle := ShowFrac(b.frac) + tail;
    Parts4(b.whole, ShowFrac(b.frac), ShowExp(b.exp), rest);
    assert tail != [] ==> !IsDigit(tail[0]) && tail[0] != '.';
    assert middle != [] ==> !IsDigit(middle[0]);
    DigitsOf(b.whole, middle);
    ReadsFrac(b.frac, tail);
    ReadsExp(b.exp, rest);
  }

  lemma ReadsWord(b: Body, rest: string)
    requires !b.Finite? && ValidBody(b) && Stops(rest)
    ensures ParseWord(ShowBody(b) + rest) == Some((b, rest))
  {
    var w := ShowBody(b);
    var r := w + rest;
    var u := Upper(w);
    assert |u| == |w| && (|w| == 3 || |w| == 8);
    assert r[..|w|] == w && r[|w|..] == rest;
    if |w| == 8 {
      assert u[3] == 'I';
      assert Upper(r[..3]) == u[..3] == "INF";
    }
  }

  lemma UpperStart(w: string)
    requires w != []
    ensures Upper(w)[0] == 'I' || Upper(w)[0] == 'N' ==>
              !IsDigit(w[0]) && w[0] != '.' && !IsSpace(w[0]) && w[0] != '-' && w[0] != '+'
  {}

  lemma BodyStart(b: Body, rest: string)
    requires ValidBody(b)
    ensures var r := ShowBody(b) + rest;
            r != [] && !IsSpace(r[0]) && r[0] != '-' && r[0] != '+' && (b.Finite? <==> IsDigit(r[0]) || r[0] == '.')
  {
    if !b.Finite? {
      var w := ShowBody(b);
      assert |Upper(w)| == |w|;
      UpperStart(w);
    }
  }

  lemma ReadsBody(b: Body, rest: string)
    requires ValidBody(b) && Stops(rest)
    ensures ParseBody(ShowBody(b) + rest) == Some((b, rest))
  {
    BodyStart(b, rest);
    if b.Finite? { ReadsFinite(b, rest); } else { ReadsWord(b, rest); }
  }

  lemma {:induction false} AllBlanks(s: string)
    requires AllSpace(s)
    ensures Blanks(s) == |s|
  {
    BlanksOf(s, "");
    assert s + "" == s;
  }

  /** Every numeral is read back as it was written. */
  lemma ParseReadsEveryNumeral(n: Numeral)
    requires Valid(n)
    ensures Parse(Show(n)) == Some(n)
  {
    var rest := ShowBody(n.body) + n.trail;
    var r := n.sign + rest;
    Parts4(n.lead, n.sign, ShowBody(n.body), n.trail);
    BodyStart(n.body, n.trail);
    BlanksOf(n.lead, r);
    SignIsRead(n.sign, rest);
    ReadsBody(n.body, n.trail);
    AllBlanks(n.trail);
  }

  lemma SignIsRead(sign: string, rest: string)
    requires IsSign(sign) && rest != [] && rest[0] != '-' && rest[0] != '+'
    ensures SignOf(sign + rest) == sign && (sign + rest)[|sign|..] == rest
    ensures !IsSpace(rest[0]) ==> !IsSpace((sign + rest)[0])
  {
    if sign == "" { assert sign + rest == rest; }
  }

  lemma ExpPieces(r: string, sign: string, digits: string, rest: string)
    requires r != [] && sign + (digits + rest) == r[1..]
    ensures [r[0]] + sign + digits + rest == r
  {
    Parts4([r[0]], sign, digits, rest);
    assert [r[0]] + r[1..] == r;
  }

  lemma ExpIsShown(r: string)
    ensures ParseExp(r).Some? ==>
              var (e, rest) := ParseExp(r).value; (e.Some? ==> ValidExponent(e.value)) && ShowExp(e) + rest == r
  {
    if ParseExp(r).Some? && ParseExp(r).value.0.Some? {
      var (e, rest) := ParseExp(r).value;
      SignedDigits(r[1..]);
      ExpPieces(r, e.value.sign, e.value.digits, rest);
    } else {
      NothingBefore(r);
    }
  }

  lemma SignedDigits(r: string)
    ensures var sign := SignOf(r); var t := r[|sign|..]; sign + (t[..Digits(t)] + t[Digits(t)..]) == r
  {
    SignPrefix(r);
    Pieces(r[|SignOf(r)|..], Digits(r[|SignOf(r)|..]));
  }

  lemma SignPrefix(r: string)
    ensures SignOf(r) + r[|SignOf(r)|..] == r
  {}

  lemma FracIsShown(r: string)
    ensures var (f, rest) := ParseFrac(r); (f.Some? ==> AllDigits(f.value)) && ShowFrac(f) + rest == r
  {
    if r != [] && r[0] == '.' {
      var t := r[1..];
      var d := Digits(t);
      Assoc(".", t[..d], t[d..]);
      Pieces(t, d);
      Pieces(r, 1);
      assert r[..1] == ".";
    } else {
      NothingBefore(r);
    }
  }

  lemma FiniteIsShown(r: string)
    requires ParseFinite(r).Some?
    ensures var (b, rest) := ParseFinite(r).value; ValidBody(b) && ShowBody(b) + rest == r
  {
    var (b, rest) := ParseFinite(r).value;
    var w := Digits(r);
    var (frac, r1) := ParseFrac(r[w..]);
    FracIsShown(r[w..]);
    ExpIsShown(r1);
    Pieces(r, w);
    Parts4(b.whole, ShowFrac(b.frac), ShowExp(b.exp), rest);
  }

  lemma BodyIsShown(r: string)
    requires ParseBody(r).Some?
    ensures var (b, rest) := ParseBody(r).value; ValidBody(b) && ShowBody(b) + rest == r
  {
    if r != [] && (IsDigit(r[0]) || r[0] == '.') {
      FiniteIsShown(r);
    } else {
      Pieces(r, 3);
      if |r| >= 8 { Pieces(r, 8); }
    }
  }

  /** What the parser accepts is a numeral of the grammar. */
  lemma ParseAcceptsOnlyNumerals(s: string)
    requires Parse(s).Some?
    ensures Valid(Parse(s).value) && Show(Parse(s).value) == s
  {
    var n := Parse(s).value;
    SignedBody(s[|n.lead|..]);
    Pieces(s, |n.lead|);
    Pieces(n.trail, Blanks(n.trail));
    assert n.trail[..Blanks(n.trail)] == n.trail;
    Parts4(n.lead, n.sign, ShowBody(n.body), n.trail);
  }

  /** The accepted texts are exactly the numerals of the grammar, and no text is two numerals. */
  lemma ParserDecidesTheGrammar(s: string)
    ensures Parse(s).Some? <==> exists n :: Spells(n, s)
    ensures forall n :: Spells(n, s) ==> Parse(s) == Some(n)
  {
    if Parse(s).Some? {
      ParseAcceptsOnlyNumerals(s);
      assert Spells(Parse(s).value, s);
    }
    forall n | Spells(n, s) ensures Parse(s) == Some(n) {
      ParseReadsEveryNumeral(n);
    }
  }

  lemma SignedBody(r: string)
    requires ParseBody(r[|SignOf(r)|..]).Some?
    ensures var (b, rest) := ParseBody(r[|SignOf(r)|..]).value;
            ValidBody(b) && SignOf(r) + (ShowBody(b) + rest) == r
  {
    BodyIsShown(r[|SignOf(r)|..]);
    SignPrefix(r);
  }

  // ---- The method ---------------------------------------------------------------------------------------------

  /** The value stored for an accepted numeral: the integer part, unless it is too large. */
  function StoredFor(b: Body, uvMax: nat): Option<int> {
    if b.Finite? && Worth(b.whole) <= uvMax then Some(Worth(b.whole)) else None
  }

  lemma {:induction false} DecimalSlice(s: string, a: nat, b: nat)
    requires a <= b <= |s|
    ensures Decimal(s, a, b) == Decimal(s[a..b], 0, b - a)
    decreases b
  {
    if a < b { DecimalPrefix(s[a..b], s[a..b - 1], b - a - 1); DecimalSlice(s, a, b - 1); }
  }

  lemma {:induction false} DecimalPrefix(s: string, t: string, n: nat)
    requires n <= |t| && n <= |s| && s[..n] == t[..n]
    ensures Decimal(s, 0, n) == Decimal(t, 0, n)
    decreases n
  {
    if n > 0 {
      assert s[n - 1] == s[..n][n - 1] && t[n - 1] == t[..n][n - 1];
      assert s[..n - 1] == s[..n][..n - 1] && t[..n - 1] == t[..n][..n - 1];
      DecimalPrefix(s, t, n - 1);
    }
  }

  lemma {:induction false} DecimalGrows(s: string, a: nat, b: nat, c: nat)
    requires a <= b <= c <= |s| && (forall i :: a <= i < c ==> IsDigit(s[i]))
    ensures 0 <= Decimal(s, a, b) <= Decimal(s, a, c)
    decreases c
  {
    if b < c { DecimalGrows(s, a, b, c - 1); }
    else if a < b { DecimalGrows(s, a, b - 1, b - 1); }
  }

  lemma DigitsAt(s: string, i: nat, j: nat)
    requires i <= j <= |s| && (forall k :: i <= k < j ==> IsDigit(s[k])) && (j < |s| ==> !IsDigit(s[j]))
    ensures Digits(s[i..]) == j - i && s[i..][..j - i] == s[i..j] && s[i..][j - i..] == s[j..]
  {
    DigitsOf(s[i..j], s[j..]);
    Pieces(s[i..], j - i);
    assert s[i..][..j - i] == s[i..j] && s[i..][j - i..] == s[j..];
  }

  method SkipDigits(s: string, i: nat) returns (j: nat)
    requires i <= |s|
    ensures i <= j <= |s| && (forall k :: i <= k < j ==> IsDigit(s[k])) && (j < |s| ==> !IsDigit(s[j]))
    ensures j - i == Digits(s[i..]) && s[i..][..j - i] == s[i..j] && s[i..][j - i..] == s[j..]
  {
    j := i;
    while j < |s| && IsDigit(s[j])
      invariant i <= j <= |s| && (forall k :: i <= k < j ==> IsDigit(s[k]))
    {
      j := j + 1;
    }
    DigitsAt(s, i, j);
  }

  method SkipBlanks(s: string, i: nat) returns (j: nat)
    requires i <= |s|
    ensures i <= j <= |s| && j - i == Blanks(s[i..]) && s[i..][..j - i] == s[i..j] && s[i..][j - i..] == s[j..]
  {
    j := i;
    while j < |s| && IsSpace(s[j])
      invariant i <= j <= |s| && (forall k :: i <= k < j ==> IsSpace(s[k]))
    {
      j := j + 1;
    }
    BlanksOf(s[i..j], s[j..]);
    assert s[i..] == s[i..j] + s[j..];
  }

  /** One level of the unrolled part: one more digit cannot overflow yet. */
  method TakeDigit(s: string, i: nat, j: nat, value: int, ghost bound: int)
    returns (more: bool, j': nat, value': int)
    requires i <= j <= |s| && (forall k :: i <= k < j ==> IsDigit(s[k]))
    requires value == Decimal(s, i, j) && 0 <= value < bound
    ensures more <==> j < |s| && IsDigit(s[j])
    ensures i <= j' <= |s| && (forall k :: i <= k < j' ==> IsDigit(s[k]))
    ensures j' == if more then j + 1 else j
    ensures value' == Decimal(s, i, j') && 0 <= value' < 10 * bound
  {
    more, j', value' := false, j, value;
    if j < |s| {
      var digit := DigitValue(s[j]);
      if 0 <= digit <= 9 {
        more, j', value' := true, j + 1, value * 10 + digit;
      }
    }
  }

  /** The first nine digits need no test: their value is below 10^9. */
  method TakeNine(s: string, i: nat) returns (more: bool, j: nat, value: int)
    requires i < |s| && IsDigit(s[i])
    ensures i < j <= |s| && (forall k :: i <= k < j ==> IsDigit(s[k]))
    ensures value == Decimal(s, i, j) && 0 <= value < 1_000_000_000
    ensures !more ==> (j < |s| ==> !IsDigit(s[j]))
  {
    j, value := i + 1, DigitValue(s[i]);
    assert Decimal(s, i, i) == 0;
    more, j, value := TakeDigit(s, i, j, value, 10);
    if !more { return; }
    more, j, value := TakeDigit(s, i, j, value, 100);
    if !more { return; }
    more, j, value := TakeDigit(s, i, j, value, 1000);
    if !more { return; }
    more, j, value := TakeDigit(s, i, j, value, 10_000);
    if !more { return; }
    more, j, value := TakeDigit(s, i, j, value, 100_000);
    if !more { return; }
    more, j, value := TakeDigit(s, i, j, value, 1_000_000);
    if !more { return; }
    more, j, value := TakeDigit(s, i, j, value, 10_000_000);
    if !more { return; }
    more, j, value := TakeDigit(s, i, j, value, 100_000_000);
  }

  /** The test in front of the multiplication is exact. */
  lemma DigitFits(value: int, digit: int, uvMax: nat)
    requires 0 <= digit <= 9
    ensures value < uvMax / 10 || (value == uvMax / 10 && digit <= uvMax % 10) <==> value * 10 + digit <= uvMax
  {}

  /** The digits at i: nine without a test, then one at a time against the maximum.  No product or
      sum exceeds the maximum. */
  method TakeWhole(s: string, i: nat, uvMax: nat) returns (j: nat, value: int, over: bool)
    requires uvMax >= MIN_UV_MAX && i < |s| && IsDigit(s[i])
    ensures i < j <= |s| && (forall k :: i <= k < j ==> IsDigit(s[k])) && (j < |s| ==> !IsDigit(s[j]))
    ensures over <==> Decimal(s, i, j) > uvMax
    ensures !over ==> value == Decimal(s, i, j)
  {
    var more;
    over := false;
    more, j, value := TakeNine(s, i);
    if !more { return; }
    var maxDiv10, maxMod10 := uvMax / 10, uvMax % 10;
    while j < |s| && 0 <= DigitValue(s[j]) <= 9 &&
          (value < maxDiv10 || (value == maxDiv10 && DigitValue(s[j]) <= maxMod10))
      invariant i < j <= |s| && (forall k :: i <= k < j ==> IsDigit(s[k]))
      invariant value == Decimal(s, i, j) && 0 <= value <= uvMax
    {
      DigitFits(value, DigitValue(s[j]), uvMax);
      value := value * 10 + DigitValue(s[j]);
      j := j + 1;
    }
    if j < |s| && IsDigit(s[j]) {
      over := true;
      DigitFits(value, DigitValue(s[j]), uvMax);
      ghost var first := j + 1;
      assert Decimal(s, i, first) > uvMax;
      j := SkipDigits(s, j + 1);
      DecimalGrows(s, i, first, j);
    }
  }

  lemma Behind(s: string, i: nat, k: nat)
    requires i + k <= |s|
    ensures s[i..][k..] == s[i + k..]
  {}

  /** What an exponent at i leaves, or that there is none. */
  ghost predicate ExponentRead(s: string, i: nat, ok: bool, j: nat, seen: bool)
    requires i <= |s|
  {
    var e := ParseExp(s[i..]);
    && (ok <==> e.Some?)
    && (ok ==> i <= j <= |s| && e.value.1 == s[j..] && (seen <==> e.value.0.Some?))
  }

  lemma ExponentAt(s: string, i: nat, j: nat, k: nat)
    requires i < |s| && (s[i] == 'e' || s[i] == 'E')
    requires j == i + 1 + if i + 1 < |s| && (s[i + 1] == '-' || s[i + 1] == '+') then 1 else 0
    requires j <= k <= |s| && k - j == Digits(s[j..]) && s[j..][k - j..] == s[k..]
    ensures ExponentRead(s, i, k > j, k, true)
  {
    var r := s[i..];
    Behind(s, i, 1);
    Behind(s, i + 1, j - (i + 1));
    assert r[0] == s[i] && |SignOf(r[1..])| == j - (i + 1);
    assert r[1..][|SignOf(r[1..])|..] == s[j..];
  }

  /** An optional exponent; `ok` is false when the text is no number. */
  method TakeExponent(s: string, i: nat) returns (ok: bool, j: nat, seen: bool)
    requires i <= |s|
    ensures ExponentRead(s, i, ok, j, seen)
  {
    j, seen := i, false;
    if i < |s| && (s[i] == 'e' || s[i] == 'E') {
      seen := true;
      j := i + 1;
      if j < |s| && (s[j] == '-' || s[j] == '+') { j := j + 1; }
      var k := SkipDigits(s, j);
      ExponentAt(s, i, j, k);
      return k > j, k, true;
    }
    return true, j, seen;
  }

  method TakeRadix(s: string, i: nat) returns (found: bool, j: nat)
    requires i <= |s|
    ensures found <==> ParseFrac(s[i..]).0.Some?
    ensures i <= j <= |s| && ParseFrac(s[i..]).1 == s[j..]
    ensures found ==> j > i && ParseFrac(s[i..]).0 == Some(s[i + 1..j])
  {
    found, j := false, i;
    if i < |s| && s[i] == '.' {
      assert s[i..][1..] == s[i + 1..];
      found := true;
      j := SkipDigits(s, i + 1);
    }
  }

  /** The letter at i, in either case. */
  predicate IsLetter(s: string, i: nat, upper: char)
    requires 'A' <= upper <= 'Z'
  {
    i < |s| && (s[i] == upper || s[i] as int == upper as int + 32)
  }

  lemma LetterUpper(s: string, i: nat, n: nat, k: nat, upper: char)
    requires i + n <= |s| && k < n && 'A' <= upper <= 'Z'
    ensures Upper(s[i..][..n])[k] == upper <==> IsLetter(s, i + k, upper)
  {
    assert s[i..][..n][k] == s[i + k];
  }

  lemma WordAt(s: string, i: nat, word: string)
    requires i + |word| <= |s| && (forall k :: 0 <= k < |word| ==> 'A' <= word[k] <= 'Z')
    ensures Upper(s[i..][..|word|]) == word <==> forall k :: 0 <= k < |word| ==> IsLetter(s, i + k, word[k])
  {
    var u := Upper(s[i..][..|word|]);
    forall k | 0 <= k < |word| ensures u[k] == word[k] <==> IsLetter(s, i + k, word[k]) {
      LetterUpper(s, i, |word|, k, word[k]);
    }
    assert |u| == |word|;
  }

  /** A body that begins with a letter. */
  method TakeLetters(s: string, i: nat, neg: bool) returns (r: NumType, j: nat)
    requires i < |s| && !IsDigit(s[i]) && s[i] != '.'
    ensures r == REJECTED <==> ParseBody(s[i..]).None?
    ensures r != REJECTED ==>
              i <= j <= |s| && ParseBody(s[i..]).value.1 == s[j..] && !ParseBody(s[i..]).value.0.Finite?
              && r == BodyFlags(ParseBody(s[i..]).value.0, MIN_UV_MAX, neg)
  {
    r, j := REJECTED, i;
    if i + 3 <= |s| {
      WordAt(s, i, "INF");
      WordAt(s, i, "NAN");
      Behind(s, i, 3);
      ghost var inf, nan := "INF", "NAN";
      assert inf[0] == 'I' && inf[1] == 'N' && inf[2] == 'F' && nan[0] == 'N' && nan[1] == 'A' && nan[2] == 'N';
    }
    if IsLetter(s, i, 'I') {
      if !IsLetter(s, i + 1, 'N') { return; }
      if !IsLetter(s, i + 2, 'F') { return; }
      assert Upper(s[i..][..3]) == "INF";
      j := i + 3;
      if IsLetter(s, j, 'I') {
        if i + 8 <= |s| {
          WordAt(s, i, "INFINITY");
          Behind(s, i, 8);
          ghost var word := "INFINITY";
          assert word[4] == 'N' && word[5] == 'I' && word[6] == 'T' && word[7] == 'Y';
        }
        if !IsLetter(s, i + 4, 'N') { return; }
        if !IsLetter(s, i + 5, 'I') { return; }
        if !IsLetter(s, i + 6, 'T') { return; }
        if !IsLetter(s, i + 7, 'Y') { return; }
        j := i + 8;
        assert Upper(s[i..][..8]) == "INFINITY";
      }
      r := NumType(false, false, true, neg, true, false);
    } else if IsLetter(s, i, 'N') {
      if !IsLetter(s, i + 1, 'A') { return; }
      if !IsLetter(s, i + 2, 'N') { return; }
      assert Upper(s[i..][..3]) == "NAN";
      j := i + 3;
      r := NumType(false, false, true, neg, false, true);
    }
  }

  /** The parse of a finite body, told by positions in the text. */
  lemma FiniteAt(s: string, i: nat, w: nat)
    requires i <= w <= |s| && i < |s| && (IsDigit(s[i]) || s[i] == '.')
    requires (forall k :: i <= k < w ==> IsDigit(s[k])) && (w < |s| ==> !IsDigit(s[w]))
    ensures ParseBody(s[i..]) == FiniteOf(s[i..w], ParseFrac(s[w..]))
  {
    DigitsAt(s, i, w);
    FiniteFrom(s[i..], w - i);
  }

  /** A finite body from its integer part, its fraction and what follows. */
  function FiniteOf(whole: string, f: (Option<string>, string)): Option<(Body, string)> {
    var e := ParseExp(f.1);
    if (whole == "" && (f.0.None? || f.0.value == "")) || e.None? then None
    else Some((Finite(whole, f.0, e.value.0), e.value.1))
  }

  lemma FiniteFrom(r: string, w: nat)
    requires r != [] && (IsDigit(r[0]) || r[0] == '.') && w == Digits(r)
    ensures ParseBody(r) == FiniteOf(r[..w], ParseFrac(r[w..]))
  {}

  lemma ZeroAndWords(rest: string)
    requires rest != [] && !IsDigit(rest[0]) && rest[0] != '.' && rest[0] != 'e' && rest[0] != 'E'
    ensures Blanks("0" + rest) == 0 && ParseBody("0" + rest) == Some((Finite("0", None, None), rest))
  {
    DigitsOf("0", rest);
    FiniteFrom("0" + rest, 1);
  }

  lemma OneBlank(s: string)
    requires |s| > 1 && IsSpace(s[0]) && !IsSpace(s[1])
    ensures Blanks(s) == 1
  {
    assert Blanks(s[1..]) == 0;
  }

  /** The text that only the last test accepts: a numeral is followed by more than blanks. */
  lemma ButTrueStartsWithZero()
    ensures Blanks(BUT_TRUE) == 0 && ParseBody(BUT_TRUE) == Some((Finite("0", None, None), " but true"))
    ensures Parse(BUT_TRUE).None?
  {
    assert BUT_TRUE == "0" + " but true" && BUT_TRUE[0..] == BUT_TRUE;
    ZeroAndWords(" but true");
    OneBlank(" but true");
    ParseAt(BUT_TRUE, 0, 0);
  }

  lemma WorthAt(s: string, a: nat, b: nat)
    requires a <= b <= |s|
    ensures Worth(s[a..b]) == Decimal(s, a, b)
  {
    DecimalSlice(s, a, b);
  }

  lemma NothingBeforeRadix(s: string, i: nat, j: nat)
    requires i < j <= |s| && ParseFrac(s[i..]).0 == Some(s[i + 1..j])
    ensures j > i + 1 <==> ParseFrac(s[i..]).0 != Some("")
    ensures Worth(s[i..i]) == 0
  {
    assert |s[i + 1..j]| == j - (i + 1);
  }

  /** The integer part and the fraction. */
  method TakeDecimal(s: string, i: nat, uvMax: nat)
    returns (ok: bool, fits: bool, stored: Option<int>, found: bool, ghost w: nat, j: nat)
    requires uvMax >= MIN_UV_MAX && i < |s| && (IsDigit(s[i]) || s[i] == '.')
    ensures i <= w <= |s| && (forall k :: i <= k < w ==> IsDigit(s[k])) && (w < |s| ==> !IsDigit(s[w]))
    ensures j <= |s| && ParseFrac(s[w..]).1 == s[j..] && found == ParseFrac(s[w..]).0.Some?
    ensures i <= j && (ok <==> w > i || ParseFrac(s[w..]).0 != Some(""))
    ensures w == i ==> found
    ensures fits <==> Worth(s[i..w]) <= uvMax
    ensures stored == if fits then Some(Worth(s[i..w])) else None
  {
    stored, ok := None, true;
    if IsDigit(s[i]) {
      var whole, value, over := TakeWhole(s, i, uvMax);
      WorthAt(s, i, whole);
      fits, w := !over, whole;
      if fits { stored := Some(value); }
      found, j := TakeRadix(s, whole);
    } else {
      w := i;
      found, j := TakeRadix(s, i);
      ok := j > i + 1;
      NothingBeforeRadix(s, i, j);
      fits, stored := true, Some(0);
    }
  }

  /** Flags and stored value of a finite body, told by its pieces. */
  lemma FiniteOutcome(whole: string, f: (Option<string>, string), uvMax: nat, neg: bool)
    ensures whole == "" && f.0 == Some("") ==> FiniteOf(whole, f).None?
    ensures (whole != "" || (f.0.Some? && f.0 != Some(""))) ==>
              var e := ParseExp(f.1);
              var b := FiniteOf(whole, f);
              var v := Worth(whole);
              && (b.None? <==> e.None?)
              && (b.Some? ==>
                    && b.value.1 == e.value.1
                    && StoredFor(b.value.0, uvMax) == (if v <= uvMax then Some(v) else None)
                    && BodyFlags(b.value.0, uvMax, neg) ==
                         if e.value.0.Some? then NumType(false, false, true, neg, false, false)
                         else NumType(v <= uvMax, !(v <= uvMax), f.0.Some?, neg, false, false))
  {}

  /** A body that begins with a digit or the radix. */
  method TakeFinite(s: string, i: nat, uvMax: nat, neg: bool) returns (r: NumType, stored: Option<int>, j: nat)
    requires uvMax >= MIN_UV_MAX && i < |s| && (IsDigit(s[i]) || s[i] == '.')
    ensures r == REJECTED <==> ParseBody(s[i..]).None?
    ensures r != REJECTED ==>
              i <= j <= |s| && ParseBody(s[i..]).value.1 == s[j..]
              && r == BodyFlags(ParseBody(s[i..]).value.0, uvMax, neg)
              && stored == StoredFor(ParseBody(s[i..]).value.0, uvMax)
  {
    var ok, fits, found;
    ghost var w;
    ok, fits, stored, found, w, j := TakeDecimal(s, i, uvMax);
    FiniteAt(s, i, w);
    ghost var whole, f := s[i..w], ParseFrac(s[w..]);
    FiniteOutcome(whole, f, uvMax, neg);
    assert whole == "" <==> w == i;
    if !ok { return REJECTED, stored, j; }
    r, j := FinishFinite(s, j, NumType(fits, !fits, found, neg, false, false));
  }

  /** The flags stay unless an exponent follows; of them only the sign is kept then. */
  method FinishFinite(s: string, i: nat, flags: NumType) returns (r: NumType, j: nat)
    requires i <= |s| && flags != REJECTED
    ensures r == REJECTED <==> ParseExp(s[i..]).None?
    ensures r != REJECTED ==> i <= j <= |s| && ParseExp(s[i..]).value.1 == s[j..]
    ensures r != REJECTED ==>
              r == if ParseExp(s[i..]).value.0.Some? then NumType(false, false, true, flags.neg, false, false) else flags
  {
    var ok, seen;
    ok, j, seen := TakeExponent(s, i);
    if !ok { return REJECTED, j; }
    r := if seen then NumType(false, false, true, flags.neg, false, false) else flags;
  }

  method TakeBody(s: string, i: nat, uvMax: nat, neg: bool) returns (r: NumType, stored: Option<int>, j: nat)
    requires uvMax >= MIN_UV_MAX && i < |s|
    ensures r == REJECTED <==> ParseBody(s[i..]).None?
    ensures r != REJECTED ==>
              i <= j <= |s| && ParseBody(s[i..]).value.1 == s[j..]
              && r == BodyFlags(ParseBody(s[i..]).value.0, uvMax, neg)
              && stored == StoredFor(ParseBody(s[i..]).value.0, uvMax)
  {
    if IsDigit(s[i]) || s[i] == '.' {
      r, stored, j := TakeFinite(s, i, uvMax, neg);
    } else {
      stored := None;
      r, j := TakeLetters(s, i, neg);
    }
  }

  lemma SignAt(pv: string, s: nat, b: nat)
    requires s <= |pv|
    requires b == s + if s < |pv| && (pv[s] == '-' || pv[s] == '+') then 1 else 0
    ensures SignOf(pv[s..]) == pv[s..b] && pv[s..][|pv[s..b]|..] == pv[b..]
  {
    Behind(pv, s, b - s);
  }

  /** The whole parse, told by the positions behind the blanks and behind the sign. */
  lemma ParseAt(pv: string, s: nat, b: nat)
    requires s == Blanks(pv)
    requires b == s + if s < |pv| && (pv[s] == '-' || pv[s] == '+') then 1 else 0
    ensures var x := ParseBody(pv[b..]);
            Parse(pv) == if x.None? || Blanks(x.value.1) != |x.value.1| then None
                         else Some(Numeral(pv[..s], pv[s..b], x.value.0, x.value.1))
  {
    SignAt(pv, s, b);
  }

  /** What a text deserves, told by the parser: a numeral's meaning, the special text, or nothing. */
  ghost predicate Classified(pv: string, uvMax: nat, r: NumType, stored: Option<int>) {
    match Parse(pv)
    case Some(n) => r == Meaning(n, uvMax) && stored == StoredFor(n.body, uvMax)
    case None =>
      if pv == BUT_TRUE then r == NumType(true, false, false, false, false, false) && stored == Some(0)
      else r == REJECTED
  }

  /** A numeral of the grammar gets its own flags and stored value. */
  lemma NumeralIsClassified(pv: string, uvMax: nat, r: NumType, stored: Option<int>, n: Numeral)
    requires Classified(pv, uvMax, r, stored) && Spells(n, pv)
    ensures r == Meaning(n, uvMax) && stored == StoredFor(n.body, uvMax)
  {
    ParseReadsEveryNumeral(n);
  }

  lemma MeaningIsNotRejected(n: Numeral, uvMax: nat)
    ensures Meaning(n, uvMax) != REJECTED
  {}

  /** No flags are set exactly for a text that is neither a numeral nor the special text. */
  lemma RejectedExactly(pv: string, uvMax: nat, r: NumType, stored: Option<int>)
    requires Classified(pv, uvMax, r, stored)
    ensures r != REJECTED <==> pv == BUT_TRUE || exists n :: Spells(n, pv)
  {
    ParserDecidesTheGrammar(pv);
    if Parse(pv).Some? { MeaningIsNotRejected(Parse(pv).value, uvMax); }
    if pv == BUT_TRUE { ButTrueStartsWithZero(); }
  }

  /** `stored` is what the last write through the value pointer left there. */
  method Grok(pv: string, uvMax: nat) returns (r: NumType, stored: Option<int>)
    requires uvMax >= MIN_UV_MAX
    ensures Classified(pv, uvMax, r, stored)
  {
    stored := None;
    var s := SkipBlanks(pv, 0);
    assert pv[0..] == pv;
    var b, neg := s, false;
    if s < |pv| && (pv[s] == '-' || pv[s] == '+') {
      b, neg := s + 1, pv[s] == '-';
    }
    ParseAt(pv, s, b);
    ButTrueStartsWithZero();
    if b == |pv| { return REJECTED, stored; }
    var j;
    r, stored, j := TakeBody(pv, b, uvMax, neg);
    if r == REJECTED { return; }
    var e := SkipBlanks(pv, j);
    if e < |pv| {
      r := REJECTED;
      if pv == BUT_TRUE {
        stored := Some(0);
        r := NumType(true, false, false, false, false, false);
      }
    }
  }
}
