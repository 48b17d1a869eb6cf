// What grok_number says about a text, told by the characters of the text alone.

module GrokTexts {
  import opened Options
  import opened Sequences
  import opened GrokNumber

  /** The decimal printing of n. */
  function Printed(n: nat): string {
    if n < 10 then ["0123456789"[n]] else Printed(n / 10) + ["0123456789"[n % 10]]
  }

  function Zeros(k: nat): string { seq(k, _ => '0') }

  predicate BlanksOnly(s: string) {
    forall i :: 0 <= i < |s| ==> s[i] == ' ' || s[i] == '\t' || s[i] == '\n' || s[i] == '\r' || s[i] == '\U{0C}'
  }

  predicate DigitsOnly(s: string) { forall i :: 0 <= i < |s| ==> '0' <= s[i] && s[i] <= '9' }

  predicate OptionalSign(s: string) { s == "" || s == "+" || s == "-" }

  // ---- Digits and their value -------------------------------------------------------------------------

  lemma WorthSnoc(s: string, c: char)
    ensures Worth(s + [c]) == Worth(s) * 10 + DigitValue(c)
  {
    assert (s + [c])[..|s|] == s[..|s|];
    DecimalPrefix(s + [c], s, |s|);
  }

  lemma {:induction false} PrintedWorth(k: nat, n: nat)
    ensures DigitsOnly(Zeros(k) + Printed(n)) && Worth(Zeros(k) + Printed(n)) == n
    decreases n
  {
    DigitCharacter(n % 10);
    if n < 10 {
      ZerosWorth(k);
      WorthSnoc(Zeros(k), "0123456789"[n]);
    } else {
      PrintedWorth(k, n / 10);
      Assoc(Zeros(k), Printed(n / 10), ["0123456789"[n % 10]]);
      WorthSnoc(Zeros(k) + Printed(n / 10), "0123456789"[n % 10]);
    }
  }

  lemma DigitCharacter(d: nat)
    requires d < 10
    ensures var c := "0123456789"[d]; '0' <= c && c <= '9' && DigitValue(c) == d
  {}

  lemma {:induction false} ZerosWorth(k: nat)
    ensures Worth(Zeros(k)) == 0
  {
    if k > 0 {
      ZerosWorth(k - 1);
      assert Zeros(k) == Zeros(k - 1) + ['0'];
      WorthSnoc(Zeros(k - 1), '0');
    }
  }

  lemma PrintedMore(m: nat, v: nat)
    requires 0 < m && v < 10
    ensures Printed(m * 10 + v) == Printed(m) + ["0123456789"[v]]
  {
    assert (m * 10 + v) / 10 == m && (m * 10 + v) % 10 == v;
  }

  /** A digit behind the printing of m. */
  lemma OneMoreDigit(front: string, j: nat, m: nat, c: char) returns (k: nat, n: nat)
    requires front == Zeros(j) + Printed(m) && '0' <= c && c <= '9'
    ensures front + [c] == Zeros(k) + Printed(n)
  {
    var v := c as int - '0' as int;
    DigitCharacter(v);
    if m == 0 {
      k, n := j + 1, v;
      assert front == Zeros(j + 1);
    } else {
      k, n := j, m * 10 + v;
      PrintedMore(m, v);
      Assoc(Zeros(j), Printed(m), [c]);
    }
  }

  /** Every run of digits is the printing of one number behind zeros. */
  lemma {:induction false} DigitsArePrinted(d: string) returns (k: nat, n: nat)
    requires d != "" && DigitsOnly(d)
    ensures d == Zeros(k) + Printed(n)
    decreases |d|
  {
    var front, c := d[..|d| - 1], d[|d| - 1];
    assert d == front + [c];
    if front == "" {
      DigitCharacter(c as int - '0' as int);
      k, n := 0, c as int - '0' as int;
    } else {
      var j, m := DigitsArePrinted(front);
      k, n := OneMoreDigit(front, j, m, c);
    }
  }

  // ---- Decimal numbers ----------------------------------------------------------------------------------

  /** Blanks, a sign, digits with or without a radix, an exponent or none, blanks. */
  function FiniteText(lead: string, sign: string, whole: string, frac: Option<string>, exp: Option<Exponent>,
                      trail: string): string
  {
    lead + sign
    + (whole + (if frac.Some? then "." + frac.value else "")
       + (if exp.Some? then [exp.value.letter] + exp.value.sign + exp.value.digits else ""))
    + trail
  }

  /** Digits on at least one side of the radix, and behind the letter of an exponent. */
  ghost predicate FinitePieces(lead: string, sign: string, whole: string, frac: Option<string>, exp: Option<Exponent>,
                               trail: string)
  {
    && BlanksOnly(lead) && BlanksOnly(trail) && OptionalSign(sign) && DigitsOnly(whole)
    && (frac.Some? ==> DigitsOnly(frac.value))
    && (whole != "" || (frac.Some? && frac.value != ""))
    && (exp.Some? ==>
          && (exp.value.letter == 'e' || exp.value.letter == 'E')
          && OptionalSign(exp.value.sign) && exp.value.digits != "" && DigitsOnly(exp.value.digits))
  }

  /** The flags and the stored value of a decimal number, n being its digits in front of the radix: the
      number n printed in decimal behind any zeros, or nothing. */
  lemma FiniteTextIsRead(lead: string, sign: string, whole: string, frac: Option<string>, exp: Option<Exponent>,
                         trail: string, k: nat, n: nat, uvMax: nat, r: NumType, stored: Option<int>)
    requires FinitePieces(lead, sign, whole, frac, exp, trail)
    requires whole == Zeros(k) + Printed(n) || (whole == "" && n == 0)
    requires Classified(FiniteText(lead, sign, whole, frac, exp, trail), uvMax, r, stored)
    ensures r.neg <==> sign == "-"
    ensures !r.infinity && !r.nan
    ensures r.notInt <==> frac.Some? || exp.Some?
    ensures r.inUv <==> exp.None? && n <= uvMax
    ensures r.greaterThanUvMax <==> exp.None? && n > uvMax
    ensures stored == if n <= uvMax then Some(n) else None
  {
    FiniteSpells(lead, sign, whole, frac, exp, trail);
    NumeralIsClassified(FiniteText(lead, sign, whole, frac, exp, trail), uvMax, r, stored,
                        Numeral(lead, sign, Finite(whole, frac, exp), trail));
    if whole != "" { PrintedWorth(k, n); }
  }

  lemma SameBlanks(s: string)
    ensures BlanksOnly(s) <==> AllSpace(s)
  {}

  // ---- Words ----------------------------------------------------------------------------------------------

  /** The word in letters of either case. */
  predicate InEitherCase(s: string, lower: string, upper: string)
    requires |lower| == |upper|
  {
    |s| == |lower| && forall i :: 0 <= i < |s| ==> s[i] == lower[i] || s[i] == upper[i]
  }

  predicate InfinityWord(s: string) { InEitherCase(s, "inf", "INF") || InEitherCase(s, "infinity", "INFINITY") }

  predicate NanWord(s: string) { InEitherCase(s, "nan", "NAN") }

  ghost predicate WordPieces(lead: string, sign: string, word: string, trail: string) {
    BlanksOnly(lead) && BlanksOnly(trail) && OptionalSign(sign) && (InfinityWord(word) || NanWord(word))
  }

  predicate LettersPair(lower: string, upper: string) {
    |lower| == |upper| && forall i :: 0 <= i < |lower| ==> 'a' <= lower[i] <= 'z' && upper[i] as int == lower[i] as int - 32
  }

  lemma UpperIsEitherCase(s: string, lower: string, upper: string)
    requires LettersPair(lower, upper)
    ensures Upper(s) == upper <==> InEitherCase(s, lower, upper)
  {
    assert |Upper(s)| == |s|;
    if |s| == |upper| {
      forall i | 0 <= i < |s| ensures Upper(s)[i] == upper[i] <==> s[i] == lower[i] || s[i] == upper[i] {}
    }
  }

  lemma WordsDiffer(s: string)
    ensures !(InfinityWord(s) && NanWord(s))
  {
    if |s| > 0 && NanWord(s) { assert s[0] == 'n' || s[0] == 'N'; }
  }

  lemma Words(s: string)
    ensures InfinityWord(s) <==> Upper(s) == "INF" || Upper(s) == "INFINITY"
    ensures NanWord(s) <==> Upper(s) == "NAN"
  {
    UpperIsEitherCase(s, "inf", "INF");
    UpperIsEitherCase(s, "infinity", "INFINITY");
    UpperIsEitherCase(s, "nan", "NAN");
  }

  lemma WordTextIsRead(lead: string, sign: string, word: string, trail: string, uvMax: nat, r: NumType, stored: Option<int>)
    requires WordPieces(lead, sign, word, trail)
    requires Classified(lead + sign + word + trail, uvMax, r, stored)
    ensures r.neg <==> sign == "-"
    ensures (r.infinity <==> InfinityWord(word)) && (r.nan <==> NanWord(word))
    ensures r.notInt && !r.inUv && !r.greaterThanUvMax && stored.None?
  {
    WordsDiffer(word);
    WordSpells(lead, sign, word, trail);
    NumeralIsClassified(lead + sign + word + trail, uvMax, r, stored,
                        Numeral(lead, sign, if InfinityWord(word) then Infinity(word) else NaN(word), trail));
  }

  // ---- Nothing else -----------------------------------------------------------------------------------------

  lemma ButTrueIsZero(uvMax: nat, r: NumType, stored: Option<int>)
    requires Classified("0 but true", uvMax, r, stored)
    ensures r == NumType(true, false, false, false, false, false) && stored == Some(0)
  {
    ButTrueStartsWithZero();
  }

  /** Every other text gets no flags. */
  lemma NothingElseIsRead(pv: string, uvMax: nat, r: NumType, stored: Option<int>)
    requires Classified(pv, uvMax, r, stored)
    ensures r != REJECTED <==>
              || pv == "0 but true"
              || (exists lead, sign, whole, frac, exp, trail ::
                    FinitePieces(lead, sign, whole, frac, exp, trail) && pv == FiniteText(lead, sign, whole, frac, exp, trail))
              || (exists lead, sign, word, trail :: WordPieces(lead, sign, word, trail) && pv == lead + sign + word + trail)
  {
    RejectedExactly(pv, uvMax, r, stored);
    if n :| Spells(n, pv) {
      NumeralPieces(n, pv);
    } else {
      forall lead, sign, whole, frac, exp, trail | FinitePieces(lead, sign, whole, frac, exp, trail)
        ensures pv != FiniteText(lead, sign, whole, frac, exp, trail)
      {
        FiniteSpells(lead, sign, whole, frac, exp, trail);
      }
      forall lead, sign, word, trail | WordPieces(lead, sign, word, trail) ensures pv != lead + sign + word + trail {
        WordSpells(lead, sign, word, trail);
      }
    }
  }

  lemma FiniteSpells(lead: string, sign: string, whole: string, frac: Option<string>, exp: Option<Exponent>, trail: string)
    requires FinitePieces(lead, sign, whole, frac, exp, trail)
    ensures Spells(Numeral(lead, sign, Finite(whole, frac, exp), trail), FiniteText(lead, sign, whole, frac, exp, trail))
  {
    SameBlanks(lead);
    SameBlanks(trail);
  }

  lemma WordSpells(lead: string, sign: string, word: string, trail: string)
    requires WordPieces(lead, sign, word, trail)
    ensures Spells(Numeral(lead, sign, if InfinityWord(word) then Infinity(word) else NaN(word), trail), lead + sign + word + trail)
  {
    Words(word);
    SameBlanks(lead);
    SameBlanks(trail);
  }

  lemma NumeralPieces(n: Numeral, pv: string)
    requires Spells(n, pv)
    ensures (exists lead, sign, whole, frac, exp, trail ::
               FinitePieces(lead, sign, whole, frac, exp, trail) && pv == FiniteText(lead, sign, whole, frac, exp, trail))
            || (exists lead, sign, word, trail :: WordPieces(lead, sign, word, trail) && pv == lead + sign + word + trail)
  {
    SameBlanks(n.lead);
    SameBlanks(n.trail);
    match n.body {
      case Finite(whole, frac, exp) =>
        assert FinitePieces(n.lead, n.sign, whole, frac, exp, n.trail);
        assert pv == FiniteText(n.lead, n.sign, whole, frac, exp, n.trail);
      case Infinity(word) =>
        Words(word);
        assert WordPieces(n.lead, n.sign, word, n.trail) && pv == n.lead + n.sign + word + n.trail;
      case NaN(word) =>
        Words(word);
        assert WordPieces(n.lead, n.sign, word, n.trail) && pv == n.lead + n.sign + word + n.trail;
    }
  }
}
