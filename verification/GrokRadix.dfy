// grok_bin, grok_oct and grok_hex of perl_dbi/ppport.h.  The three bodies are one text up to the
// base, the prefix letter and the test behind an underscore; here the common part is written once.

module GrokRadix {
  import opened Sequences

  datatype Base = Bin | Oct | Hex

  function Radix(b: Base): int {
    match b case Bin => 2 case Oct => 8 case Hex => 16
  }

  /** Unsigned integers have 32 or 64 bits. */
  predicate IsUvMax(m: int) { m == 0xFFFF_FFFF || m == 0xFFFF_FFFF_FFFF_FFFF }

  /** The value of a digit, or -1. */
  function DigitOf(b: Base, c: char): (d: int)
    ensures -1 <= d < Radix(b)
  {
    if b.Bin? then (if '0' <= c <= '1' then c as int - '0' as int else -1)
    else if b.Oct? then (if '0' <= c <= '7' then c as int - '0' as int else -1)
    else if '0' <= c <= '9' then c as int - '0' as int
    else if 'a' <= c <= 'f' then c as int - 'a' as int + 10
    else if 'A' <= c <= 'F' then c as int - 'A' as int + 10
    else -1
  }

  predicate IsDigit(b: Base, c: char) { DigitOf(b, c) >= 0 }

  function Times(b: Base, v: int): int {
    match b case Bin => v * 2 case Oct => v * 8 case Hex => v * 16
  }

  // ---- The positional evaluator and the legal prefix --------------------------------------------------

  /** The number written by the digits, underscores left out. */
  function Value(b: Base, ds: string): int {
    if ds == [] then 0
    else
      var c := ds[|ds| - 1];
      var v := Value(b, ds[..|ds| - 1]);
      if IsDigit(b, c) then Times(b, v) + DigitOf(b, c) else v
  }

  /** Digits, and single underscores between digits or in front.  With `nonZero` the digit behind an
      underscore must not be a zero. */
  predicate Legal(b: Base, t: string, allow: bool, nonZero: bool) {
    t == [] ||
    (IsDigit(b, t[0]) && Legal(b, t[1..], allow, nonZero)) ||
    (Joint(b, t, allow, nonZero) && Legal(b, t[2..], allow, nonZero))
  }

  /** An underscore with the digit it belongs to. */
  predicate Joint(b: Base, t: string, allow: bool, nonZero: bool) {
    |t| > 1 && t[0] == '_' && allow && IsDigit(b, t[1]) && !(nonZero && t[1] == '0')
  }

  function LegalLength(b: Base, t: string, allow: bool, nonZero: bool): (n: nat)
    ensures n <= |t|
  {
    if t == [] then 0
    else if IsDigit(b, t[0]) then 1 + LegalLength(b, t[1..], allow, nonZero)
    else if Joint(b, t, allow, nonZero) then 2 + LegalLength(b, t[2..], allow, nonZero)
    else 0
  }

  lemma {:induction false} LegalLengthIsLegal(b: Base, t: string, allow: bool, nonZero: bool)
    ensures Legal(b, t[..LegalLength(b, t, allow, nonZero)], allow, nonZero)
    decreases |t|
  {
    var n := LegalLength(b, t, allow, nonZero);
    if t != [] && IsDigit(b, t[0]) {
      LegalLengthIsLegal(b, t[1..], allow, nonZero);
      TakeDrop(t, n, 1);
    } else if Joint(b, t, allow, nonZero) {
      LegalLengthIsLegal(b, t[2..], allow, nonZero);
      TakeDrop(t, n, 2);
    }
  }

  lemma {:induction false} NothingLongerIsLegal(b: Base, t: string, allow: bool, nonZero: bool, k: nat)
    requires k <= |t| && Legal(b, t[..k], allow, nonZero)
    ensures k <= LegalLength(b, t, allow, nonZero)
    decreases |t|
  {
    if k > 0 && IsDigit(b, t[0]) {
      TakeDrop(t, k, 1);
      NothingLongerIsLegal(b, t[1..], allow, nonZero, k - 1);
    } else if k > 1 && Joint(b, t, allow, nonZero) {
      TakeDrop(t, k, 2);
      NothingLongerIsLegal(b, t[2..], allow, nonZero, k - 2);
    }
  }

  /** LegalLength is the length of the longest legal prefix. */
  lemma LongestLegalPrefix(b: Base, t: string, allow: bool, nonZero: bool, k: nat)
    requires k <= |t|
    ensures Legal(b, t[..LegalLength(b, t, allow, nonZero)], allow, nonZero)
    ensures Legal(b, t[..k], allow, nonZero) ==> k <= LegalLength(b, t, allow, nonZero)
  {
    LegalLengthIsLegal(b, t, allow, nonZero);
    if Legal(b, t[..k], allow, nonZero) { NothingLongerIsLegal(b, t, allow, nonZero, k); }
  }

  lemma ValueSnoc(b: Base, ds: string, c: char)
    ensures Value(b, ds + [c]) == if IsDigit(b, c) then Times(b, Value(b, ds)) + DigitOf(b, c) else Value(b, ds)
  {
    assert (ds + [c])[..|ds|] == ds;
  }

  // ---- Digits, underscores and values, told by the characters ---------------------------------------------

  const LOWER := "0123456789abcdef"
  const UPPER := "0123456789ABCDEF"

  /** The base as a number. */
  ghost predicate HasBase(b: Base, base: nat) {
    (b.Bin? && base == 2) || (b.Oct? && base == 8) || (b.Hex? && base == 16)
  }

  /** The i-th digit, in either case, is a digit of the bases above i, and its value is i. */
  lemma DigitsAreTheirPlaces(b: Base, base: nat, i: nat)
    requires HasBase(b, base) && i < 16
    ensures IsDigit(b, LOWER[i]) <==> i < base
    ensures IsDigit(b, UPPER[i]) <==> i < base
    ensures i < base ==> DigitOf(b, LOWER[i]) == i == DigitOf(b, UPPER[i])
  {}

  lemma NothingElseIsADigit(b: Base, c: char)
    requires c !in LOWER && c !in UPPER
    ensures !IsDigit(b, c)
  {
    assert LOWER[0] == '0' && LOWER[1] == '1' && LOWER[2] == '2' && LOWER[3] == '3' && LOWER[4] == '4';
    assert LOWER[5] == '5' && LOWER[6] == '6' && LOWER[7] == '7' && LOWER[8] == '8' && LOWER[9] == '9';
    assert LOWER[10] == 'a' && LOWER[11] == 'b' && LOWER[12] == 'c' && LOWER[13] == 'd' && LOWER[14] == 'e' && LOWER[15] == 'f';
    assert UPPER[10] == 'A' && UPPER[11] == 'B' && UPPER[12] == 'C' && UPPER[13] == 'D' && UPPER[14] == 'E' && UPPER[15] == 'F';
  }

  /** A digit, or an underscore in front of a digit, where it is allowed. */
  predicate LegalAt(b: Base, t: string, i: nat, allow: bool, nonZero: bool)
    requires i < |t|
  {
    IsDigit(b, t[i]) || (t[i] == '_' && allow && i + 1 < |t| && IsDigit(b, t[i + 1]) && !(nonZero && t[i + 1] == '0'))
  }

  /** A text is legal exactly when every character of it is. */
  lemma {:induction false} LegalExactly(b: Base, t: string, allow: bool, nonZero: bool)
    ensures Legal(b, t, allow, nonZero) <==> forall i :: 0 <= i < |t| ==> LegalAt(b, t, i, allow, nonZero)
    decreases |t|
  {
    if t != [] && LegalAt(b, t, 0, allow, nonZero) {
      var k := if IsDigit(b, t[0]) then 1 else 2;
      LegalExactly(b, t[k..], allow, nonZero);
      forall i | 0 <= i < |t| - k ensures LegalAt(b, t[k..], i, allow, nonZero) == LegalAt(b, t, k + i, allow, nonZero) {}
      if forall i :: 0 <= i < |t[k..]| ==> LegalAt(b, t[k..], i, allow, nonZero) {
        forall i | 0 <= i < |t| ensures LegalAt(b, t, i, allow, nonZero) {
          if i >= k { assert LegalAt(b, t[k..], i - k, allow, nonZero); }
        }
      }
    }
  }

  /** An underscore adds nothing to the value. */
  lemma {:induction false} UnderscoreIsWorthNothing(b: Base, front: string, back: string)
    ensures Value(b, front + ['_'] + back) == Value(b, front + back)
    decreases |back|
  {
    if back == "" {
      assert front + ['_'] + back == front + ['_'] && front + back == front;
      ValueSnoc(b, front, '_');
    } else {
      var rest, c := back[..|back| - 1], back[|back| - 1];
      UnderscoreIsWorthNothing(b, front, rest);
      assert front + ['_'] + back == (front + ['_'] + rest) + [c] && front + back == (front + rest) + [c];
      ValueSnoc(b, front + ['_'] + rest, c);
      ValueSnoc(b, front + rest, c);
    }
  }

  /** n printed in a base, with the given digits. */
  function Printed(n: nat, base: nat, digits: string): string
    requires 2 <= base <= 16 == |digits|
  {
    if n < base then [digits[n]] else Printed(n / base, base, digits) + [digits[n % base]]
  }

  predicate AllDigits(b: Base, t: string) { forall i :: 0 <= i < |t| ==> IsDigit(b, t[i]) }

  lemma {:induction false} AllOfItIsLegal(b: Base, t: string, allow: bool, nonZero: bool)
    requires AllDigits(b, t)
    ensures LegalLength(b, t, allow, nonZero) == |t|
  {
    if t != [] { AllOfItIsLegal(b, t[1..], allow, nonZero); }
  }

  lemma Horner(b: Base, base: nat, n: nat)
    requires HasBase(b, base)
    ensures Times(b, n / base) + n % base == n && 0 <= n % base < base
    ensures if n < base then Times(b, 0) + n == n else 0 <= n / base < n
  {}

  /** The characters have the values of their places. */
  ghost predicate Valued(b: Base, base: nat, digits: string) {
    HasBase(b, base) && |digits| == 16 && forall i :: 0 <= i < base ==> IsDigit(b, digits[i]) && DigitOf(b, digits[i]) == i
  }

  lemma BothCasesAreValued(b: Base, base: nat)
    requires HasBase(b, base)
    ensures Valued(b, base, LOWER) && Valued(b, base, UPPER)
  {
    forall i | 0 <= i < base
      ensures IsDigit(b, LOWER[i]) && DigitOf(b, LOWER[i]) == i && IsDigit(b, UPPER[i]) && DigitOf(b, UPPER[i]) == i
    {
      DigitsAreTheirPlaces(b, base, i);
    }
  }

  lemma ValueMore(b: Base, base: nat, digits: string, t: string, d: nat)
    requires Valued(b, base, digits) && AllDigits(b, t) && d < base
    ensures Value(b, t + [digits[d]]) == Times(b, Value(b, t)) + d && AllDigits(b, t + [digits[d]])
  {
    ValueSnoc(b, t, digits[d]);
  }

  /** The value of a printed number is the number. */
  lemma {:induction false} PrintedValue(b: Base, base: nat, n: nat, digits: string)
    requires Valued(b, base, digits)
    ensures Value(b, Printed(n, base, digits)) == n
    ensures AllDigits(b, Printed(n, base, digits)) && Printed(n, base, digits) != ""
    decreases n
  {
    Horner(b, base, n);
    if n < base {
      ValueMore(b, base, digits, "", n);
      assert "" + [digits[n]] == [digits[n]];
    } else {
      PrintedValue(b, base, n / base, digits);
      ValueMore(b, base, digits, Printed(n / base, base, digits), n % base);
    }
  }

  // ---- The octal test behind an underscore ---------------------------------------------------------------

  /** Some legal underscore is followed by a zero. */
  predicate ZeroBehindUnderscore(t: string, n: nat)
    requires n <= |t|
  {
    exists i :: 0 <= i && i + 1 < n && t[i] == '_' && t[i + 1] == '0'
  }

  lemma {:induction false} NonZeroStopsEarlier(b: Base, t: string, allow: bool)
    ensures LegalLength(b, t, allow, true) <= LegalLength(b, t, allow, false)
    ensures LegalLength(b, t, allow, true) == LegalLength(b, t, allow, false) <==>
              !ZeroBehindUnderscore(t, LegalLength(b, t, allow, false))
    decreases |t|
  {
    var n := LegalLength(b, t, allow, false);
    if t != [] && IsDigit(b, t[0]) {
      NonZeroStopsEarlier(b, t[1..], allow);
      ZeroBehindTail(t, n, 1);
    } else if Joint(b, t, allow, false) {
      NonZeroStopsEarlier(b, t[2..], allow);
      ZeroBehindTail(t, n, 2);
      if t[1] == '0' { assert ZeroBehindUnderscore(t, n); }
    }
  }

  lemma ZeroBehindTail(t: string, n: nat, k: nat)
    requires k <= n <= |t| && (k == 1 || k == 2)
    requires k == 1 ==> t[0] != '_'
    requires k == 2 ==> t[1] != '_'
    ensures ZeroBehindUnderscore(t, n) <==> ZeroBehindUnderscore(t[k..], n - k) || (k == 2 && t[0] == '_' && t[1] == '0')
  {
    if i :| 0 <= i && i + 1 < n && t[i] == '_' && t[i + 1] == '0' {
      if i >= k { assert t[k..][i - k] == '_' && t[k..][i - k + 1] == '0'; }
    }
    if i :| 0 <= i && i + 1 < n - k && t[k..][i] == '_' && t[k..][i + 1] == '0' {
      assert t[i + k] == '_' && t[i + k + 1] == '0';
    }
  }

  /** grok_oct tests the digit behind an underscore for being non-zero before it tests it for being
      octal.  It agrees with the common rule exactly when no underscore of the longest legal prefix
      is followed by a zero. */
  lemma OctalAgreesExactly(t: string, allow: bool)
    ensures LegalLength(Oct, t, allow, true) == LegalLength(Oct, t, allow, false) <==>
              !ZeroBehindUnderscore(t, LegalLength(Oct, t, allow, false))
  {
    NonZeroStopsEarlier(Oct, t, allow);
  }

  /** `1_0` is eight in octal under the common rule; grok_oct stops in front of the underscore. */
  lemma OctalStopsAtUnderscoreZero()
    ensures LegalLength(Oct, "1_0", true, false) == 3 && Value(Oct, "1_0") == 8
    ensures LegalLength(Oct, "1_0", true, true) == 1 && Value(Oct, "1") == 1
    ensures LegalLength(Bin, "1_0", true, true) == 1 && LegalLength(Bin, "1_0", true, false) == 3
  {
    var t := "1_0";
    assert t[1..] == "_0" && t[1..][2..] == "" && t[..2] == "1_" && t[..2][..1] == "1" && "1"[..0] == "";
  }

  // ---- The methods -------------------------------------------------------------------------------------------

  /** How far one digit shifts. */
  function Bits(b: Base): nat {
    match b case Bin => 1 case Oct => 3 case Hex => 4
  }

  /** Bitwise or. */
  function Or(a: nat, d: nat): nat
    decreases a + d
  {
    if a + d == 0 then 0 else 2 * Or(a / 2, d / 2) + if a % 2 == 1 || d % 2 == 1 then 1 else 0
  }

  /** A left shift in a machine word, place by place: what leaves the word is lost. */
  function ShiftLeft(v: nat, k: nat, uvMax: nat): nat {
    if k == 0 then v else InWord(2 * ShiftLeft(v, k - 1, uvMax), uvMax)
  }

  /** The low bits that a word holds. */
  function InWord(x: nat, uvMax: nat): (r: nat)
    ensures r <= uvMax && (x <= uvMax ==> r == x)
  {
    x % (uvMax + 1)
  }

  function ShiftRight(v: nat, k: nat): nat {
    if k == 0 then v else ShiftRight(v / 2, k - 1)
  }

  function ShiftOr(b: Base, value: nat, digit: nat, uvMax: nat): nat {
    Or(ShiftLeft(value, Bits(b), uvMax), digit)
  }

  /** v doubled k times. */
  function Doubled(v: nat, k: nat): nat {
    if k == 0 then v else 2 * Doubled(v, k - 1)
  }

  lemma DoubledIsTimes(b: Base, v: nat)
    ensures Doubled(v, Bits(b)) == Times(b, v) && Doubled(1, Bits(b)) == Radix(b)
  {
    assert forall x: nat :: Doubled(x, 1) == 2 * x;
    assert forall x: nat :: Doubled(x, 2) == 4 * x;
    assert forall x: nat :: Doubled(x, 3) == 8 * x;
    assert forall x: nat :: Doubled(x, 4) == 16 * x;
  }

  /** The digit's bits lie below the shifted ones, so `or` adds. */
  lemma {:induction false} OrAddsBelow(v: nat, k: nat, d: nat)
    requires d < Doubled(1, k)
    ensures Or(Doubled(v, k), d) == Doubled(v, k) + d
    decreases k
  {
    if k == 0 { OrZero(v); } else { OrAddsBelow(v, k - 1, d / 2); }
  }

  lemma {:induction false} OrZero(v: nat)
    ensures Or(v, 0) == v
  {
    if v > 0 { OrZero(v / 2); }
  }

  lemma {:induction false} ShiftsInsideWord(v: nat, k: nat, uvMax: nat)
    requires v <= uvMax
    ensures ShiftLeft(v, k, uvMax) <= uvMax
    ensures Doubled(v, k) <= uvMax ==> ShiftLeft(v, k, uvMax) == Doubled(v, k)
    decreases k
  {
    if k > 0 { ShiftsInsideWord(v, k - 1, uvMax); }
  }

  lemma {:induction false} RightUndoesDoubling(v: nat, k: nat)
    ensures ShiftRight(Doubled(v, k), k) == v
    decreases k
  {
    if k > 0 { RightUndoesDoubling(v, k - 1); }
  }

  lemma {:induction false} RightCannotGrow(x: nat, k: nat)
    ensures Doubled(ShiftRight(x, k), k) <= x
    decreases k
  {
    if k > 0 { RightCannotGrow(x / 2, k - 1); }
  }

  /** Undoing the shift gives the value back exactly when doubling it stays inside the word. */
  lemma ShiftLosesNothingExactly(v: nat, k: nat, uvMax: nat)
    requires v <= uvMax
    ensures ShiftRight(ShiftLeft(v, k, uvMax), k) == v <==> Doubled(v, k) <= uvMax
  {
    ShiftsInsideWord(v, k, uvMax);
    RightUndoesDoubling(v, k);
    RightCannotGrow(ShiftLeft(v, k, uvMax), k);
  }

  /** The guard admits a digit exactly when the new value fits, which is exactly when the shift loses
      no bit; then shift and `or` give the new value. */
  lemma GuardIsExact(b: Base, v: nat, d: nat, uvMax: nat)
    requires IsUvMax(uvMax) && v <= uvMax && d < Radix(b)
    ensures v <= uvMax / Radix(b) <==> Times(b, v) + d <= uvMax
    ensures v <= uvMax / Radix(b) <==> ShiftRight(ShiftLeft(v, Bits(b), uvMax), Bits(b)) == v
    ensures v <= uvMax / Radix(b) ==> ShiftOr(b, v, d, uvMax) == Times(b, v) + d
  {
    GuardDivides(b, v, d, uvMax);
    DoubledIsTimes(b, v);
    ShiftLosesNothingExactly(v, Bits(b), uvMax);
    ShiftsInsideWord(v, Bits(b), uvMax);
    OrAddsBelow(v, Bits(b), d);
  }

  lemma GuardDivides(b: Base, v: nat, d: nat, uvMax: nat)
    requires IsUvMax(uvMax) && d < Radix(b)
    ensures v <= uvMax / Radix(b) <==> Times(b, v) + d <= uvMax
    ensures v <= uvMax / Radix(b) <==> Times(b, v) <= uvMax
  {
    match b {
      case Bin =>
      case Oct =>
      case Hex =>
    }
  }

  lemma ScaleIsTimes(b: Base, v: int)
    ensures Scale(b, v as real) == Times(b, v) as real
    ensures v >= 0 ==> Times(b, v) >= v
  {
    match b {
      case Bin =>
      case Oct =>
      case Hex =>
    }
  }

  /** What the accumulators hold after the digits ds. */
  ghost predicate Holds(b: Base, ds: string, value: int, nv: real, overflowed: bool, uvMax: int) {
    var v := Value(b, ds);
    && 0 <= v
    && (overflowed <==> v > uvMax)
    && (if overflowed then nv == v as real else value == v)
  }

  /** The block behind the label `redo`. */
  method AddDigit(b: Base, c: char, value: int, nv: real, overflowed: bool, uvMax: int, ghost ds: string)
    returns (value': int, nv': real, overflowed': bool)
    requires IsUvMax(uvMax) && IsDigit(b, c) && Holds(b, ds, value, nv, overflowed, uvMax)
    ensures Holds(b, ds + [c], value', nv', overflowed', uvMax)
  {
    value', nv', overflowed' := value, nv, overflowed;
    var digit := DigitOf(b, c);
    ghost var v := Value(b, ds);
    ValueSnoc(b, ds, c);
    ScaleIsTimes(b, v);
    if !overflowed' {
      GuardIsExact(b, v, digit, uvMax);
      if value' <= uvMax / Radix(b) {
        value' := ShiftOr(b, value', digit, uvMax);
        return;
      }
      overflowed' := true;
      nv' := value' as real;
    }
    nv' := Scale(b, nv') + digit as real;
  }

  function Scale(b: Base, x: real): real {
    match b case Bin => x * 2.0 case Oct => x * 8.0 case Hex => x * 16.0
  }

  /** The same prefix told by the position behind it. */
  function LegalEnd(b: Base, s: string, i: nat, allow: bool, nonZero: bool): nat
    requires i <= |s|
    decreases |s| - i
  {
    if i == |s| then i
    else if IsDigit(b, s[i]) then LegalEnd(b, s, i + 1, allow, nonZero)
    else if s[i] == '_' && i + 1 < |s| && allow && !(nonZero && s[i + 1] == '0') && IsDigit(b, s[i + 1])
    then LegalEnd(b, s, i + 2, allow, nonZero)
    else i
  }

  lemma {:induction false} EndIsLength(b: Base, s: string, i: nat, allow: bool, nonZero: bool)
    requires i <= |s|
    ensures LegalEnd(b, s, i, allow, nonZero) == i + LegalLength(b, s[i..], allow, nonZero)
    decreases |s| - i
  {
    if i < |s| {
      var t := s[i..];
      assert t[1..] == s[i + 1..];
      if IsDigit(b, t[0]) {
        EndIsLength(b, s, i + 1, allow, nonZero);
      } else if Joint(b, t, allow, nonZero) {
        assert t[2..] == s[i + 2..];
        EndIsLength(b, s, i + 2, allow, nonZero);
      }
    }
  }

  lemma SliceSnoc(s: string, a: nat, i: nat)
    requires a <= i < |s|
    ensures s[a..i + 1] == s[a..i] + [s[i]]
  {}

  /** The digit to take at i, at the pointer itself or behind a legal underscore. */
  method NextDigit(b: Base, s: string, i: nat, allow: bool, nonZero: bool) returns (more: bool, j: nat)
    requires i <= |s|
    ensures more ==> i <= j < |s| && IsDigit(b, s[j]) && (j == i || (j == i + 1 && s[i] == '_'))
    ensures more ==> LegalEnd(b, s, i, allow, nonZero) == LegalEnd(b, s, j + 1, allow, nonZero)
    ensures !more ==> LegalEnd(b, s, i, allow, nonZero) == i
  {
    more, j := false, i;
    if i < |s| && s[i] != '\0' {
      if IsDigit(b, s[i]) {
        more := true;
      } else if s[i] == '_' && i + 1 < |s| && allow && !(nonZero && s[i + 1] == '0') && IsDigit(b, s[i + 1]) {
        more, j := true, i + 1;
      }
    }
  }

  /** Takes the digit at j, which is at the pointer or behind one underscore. */
  method AddAt(b: Base, s: string, ghost start: nat, end: nat, j: nat, value: int, nv: real, overflowed: bool, uvMax: int)
    returns (value': int, nv': real, overflowed': bool)
    requires start <= end <= j < |s| && IsUvMax(uvMax) && IsDigit(b, s[j])
    requires j == end || (j == end + 1 && s[end] == '_')
    requires Holds(b, s[start..end], value, nv, overflowed, uvMax)
    ensures Holds(b, s[start..j + 1], value', nv', overflowed', uvMax)
  {
    if j > end {
      SliceSnoc(s, start, end);
      HoldsUnderscore(b, s[start..end], value, nv, overflowed, uvMax);
    }
    SliceSnoc(s, start, j);
    value', nv', overflowed' := AddDigit(b, s[j], value, nv, overflowed, uvMax, s[start..j]);
  }

  /** The scanning loop from `start` on; `end` is where the pointer stops. */
  method ScanLoop(b: Base, s: string, start: nat, allow: bool, nonZero: bool, uvMax: int)
    returns (end: nat, value: int, nv: real, overflowed: bool)
    requires start <= |s| && IsUvMax(uvMax)
    ensures end == LegalEnd(b, s, start, allow, nonZero) && start <= end <= |s|
    ensures Holds(b, s[start..end], value, nv, overflowed, uvMax)
  {
    value, nv, overflowed := 0, 0.0, false;
    end := start;
    var more, j := NextDigit(b, s, end, allow, nonZero);
    while more
      invariant start <= end <= |s| && LegalEnd(b, s, end, allow, nonZero) == LegalEnd(b, s, start, allow, nonZero)
      invariant more ==> end <= j < |s| && IsDigit(b, s[j]) && (j == end || (j == end + 1 && s[end] == '_'))
      invariant more ==> LegalEnd(b, s, end, allow, nonZero) == LegalEnd(b, s, j + 1, allow, nonZero)
      invariant !more ==> LegalEnd(b, s, end, allow, nonZero) == end
      invariant Holds(b, s[start..end], value, nv, overflowed, uvMax)
      decreases |s| - end
    {
      value, nv, overflowed := AddAt(b, s, start, end, j, value, nv, overflowed, uvMax);
      end := j + 1;
      more, j := NextDigit(b, s, end, allow, nonZero);
    }
  }

  lemma HoldsUnderscore(b: Base, ds: string, value: int, nv: real, overflowed: bool, uvMax: int)
    requires Holds(b, ds, value, nv, overflowed, uvMax)
    ensures Holds(b, ds + ['_'], value, nv, overflowed, uvMax)
  {
    ValueSnoc(b, ds, '_');
  }

  /** The optional prefix letter, alone or behind a zero. */
  function PrefixLength(s: string, letter: char, disallow: bool): (n: nat)
    ensures n <= |s|
  {
    if disallow then 0
    else if |s| >= 1 && s[0] == letter then 1
    else if |s| >= 2 && s[0] == '0' && s[1] == letter then 2
    else 0
  }

  /** What each of the three returns: the length consumed, the value or the maximum, whether the
      number is too large, and for such a number its value. */
  ghost predicate Result(b: Base, s: string, from: nat, allow: bool, nonZero: bool, uvMax: int,
                         len: nat, r: int, greater: bool, nv: real)
  {
    && from <= len <= |s|
    && len - from == LegalLength(b, s[from..], allow, nonZero)
    && var v := Value(b, s[from..len]);
       (greater <==> v > uvMax) && r == (if greater then uvMax else v) && (greater ==> nv == v as real)
  }

  method GrokBin(s: string, allow: bool, disallowPrefix: bool, uvMax: int)
    returns (len: nat, r: int, greater: bool, nv: real)
    requires IsUvMax(uvMax)
    ensures Result(Bin, s, PrefixLength(s, 'b', disallowPrefix), allow, false, uvMax, len, r, greater, nv)
  {
    var value;
    EndIsLength(Bin, s, PrefixLength(s, 'b', disallowPrefix), allow, false);
    len, value, nv, greater := ScanLoop(Bin, s, PrefixLength(s, 'b', disallowPrefix), allow, false, uvMax);
    r := if greater then uvMax else value;
  }

  method GrokHex(s: string, allow: bool, disallowPrefix: bool, uvMax: int)
    returns (len: nat, r: int, greater: bool, nv: real)
    requires IsUvMax(uvMax)
    ensures Result(Hex, s, PrefixLength(s, 'x', disallowPrefix), allow, false, uvMax, len, r, greater, nv)
  {
    var value;
    EndIsLength(Hex, s, PrefixLength(s, 'x', disallowPrefix), allow, false);
    len, value, nv, greater := ScanLoop(Hex, s, PrefixLength(s, 'x', disallowPrefix), allow, false, uvMax);
    r := if greater then uvMax else value;
  }

  /** No prefix is removed, and an underscore must be followed by a non-zero digit. */
  method GrokOct(s: string, allow: bool, uvMax: int) returns (len: nat, r: int, greater: bool, nv: real)
    requires IsUvMax(uvMax)
    ensures Result(Oct, s, 0, allow, true, uvMax, len, r, greater, nv)
  {
    var value;
    EndIsLength(Oct, s, 0, allow, true);
    assert s[0..] == s;
    len, value, nv, greater := ScanLoop(Oct, s, 0, allow, true, uvMax);
    r := if greater then uvMax else value;
  }

  // ---- Printed numbers are read back ------------------------------------------------------------------------

  /** Behind the prefix of its base, in short, long or no form, a printed number is consumed whole; its
      value is returned if it fits, and otherwise the maximum with the exact value beside it. */
  lemma PrintedIsReadBack(b: Base, base: nat, n: nat, digits: string, prefix: string, allow: bool, nonZero: bool,
                          uvMax: int, len: nat, r: int, greater: bool, nv: real)
    requires HasBase(b, base) && (digits == LOWER || digits == UPPER)
    requires Result(b, prefix + Printed(n, base, digits), |prefix|, allow, nonZero, uvMax, len, r, greater, nv)
    ensures len == |prefix| + |Printed(n, base, digits)|
    ensures (greater <==> n > uvMax) && (n <= uvMax ==> r == n) && (n > uvMax ==> r == uvMax && nv == n as real)
  {
    var t := Printed(n, base, digits);
    BothCasesAreValued(b, base);
    PrintedValue(b, base, n, digits);
    AllOfItIsLegal(b, t, allow, nonZero);
    assert (prefix + t)[|prefix|..] == t;
    assert (prefix + t)[|prefix|..len] == t;
  }

  /** The prefix in front of a binary or hexadecimal number: nothing, the letter, or a zero and the
      letter; with prefixes disallowed nothing is skipped. */
  lemma PrefixIsSkipped(b: Base, t: string, disallow: bool)
    requires !b.Oct? && AllDigits(b, t) && t != ""
    ensures var letter := if b.Bin? then 'b' else 'x';
            && PrefixLength(t, letter, disallow) == 0
            && PrefixLength([letter] + t, letter, disallow) == (if disallow then 0 else 1)
            && PrefixLength(['0', letter] + t, letter, disallow) == (if disallow then 0 else 2)
  {}
}
