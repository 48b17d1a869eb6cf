// The Drupal driver's Insert: one pass binds the values, another prints the placeholders.

module InsertPlaceholders {
  import opened Options
  import opened Sequences
  import opened CStrings
  import opened SqlTokens

  function Decimal(n: nat): string {
    if n < 10 then [('0' as int + n) as char] else Decimal(n / 10) + [('0' as int + n % 10) as char]
  }

  /** The part of a placeholder behind its colon. */
  function BareName(i: nat): string { "db_insert_placeholder_" + Decimal(i) }

  function PlaceholderName(i: nat): string { ":" + BareName(i) }

  function Flatten<T>(rows: seq<seq<T>>): seq<T> {
    if rows == [] then [] else rows[0] + Flatten(rows[1..])
  }

  /** The value each placeholder is bound to, in order. */
  function Bound<T>(values: seq<T>, from: nat): (r: seq<(string, T)>)
    ensures |r| == |values|
  {
    if values == [] then [] else [(PlaceholderName(from), values[0])] + Bound(values[1..], from + 1)
  }

  function Implode(parts: seq<string>): string {
    if parts == [] then "" else if |parts| == 1 then parts[0] else parts[0] + ", " + Implode(parts[1..])
  }

  function Defaults(n: nat): (r: seq<string>)
    ensures |r| == n
  {
    if n == 0 then [] else ["default"] + Defaults(n - 1)
  }

  function Numbered(from: nat, n: nat): (r: seq<string>)
    ensures |r| == n
    decreases n
  {
    if n == 0 then [] else [PlaceholderName(from)] + Numbered(from + 1, n - 1)
  }

  /** One printed tuple. */
  function TupleText(defaults: nat, from: nat, n: nat): string {
    "(" + Implode(Defaults(defaults) + Numbered(from, n)) + ")"
  }

  function TupleTexts<T>(rows: seq<seq<T>>, defaults: nat, from: nat): seq<string> {
    if rows == [] then []
    else [TupleText(defaults, from, |rows[0]|)] + TupleTexts(rows[1..], defaults, from + |rows[0]|)
  }

  /** The part of the statement behind VALUES. */
  function ValuesText<T>(rows: seq<seq<T>>, defaults: nat): string {
    if rows == [] then TupleText(defaults, 0, 0) else Implode(TupleTexts(rows, defaults, 0))
  }

  // ---- Names are told apart by their numbers ------------------------------------------------------------------

  function Number(s: string): int {
    if s == [] then 0 else Number(s[..|s| - 1]) * 10 + (s[|s| - 1] as int - '0' as int)
  }

  lemma {:induction false} DecimalReadsBack(n: nat)
    ensures Number(Decimal(n)) == n
    ensures Decimal(n) != [] && forall i :: 0 <= i < |Decimal(n)| ==> '0' <= Decimal(n)[i] <= '9'
  {
    if n < 10 {
      assert Number(Decimal(n)[..0]) == 0;
    } else {
      DecimalReadsBack(n / 10);
      assert Decimal(n)[..|Decimal(n)| - 1] == Decimal(n / 10);
    }
  }

  lemma NamesAreDistinct(i: nat, j: nat)
    requires PlaceholderName(i) == PlaceholderName(j)
    ensures i == j
  {
    SamePrefix(":", BareName(i), BareName(j));
    SamePrefix("db_insert_placeholder_", Decimal(i), Decimal(j));
    DecimalReadsBack(i);
    DecimalReadsBack(j);
  }

  /** How a placeholder is spelled: digits behind a fixed text, and they are those of its number. */
  lemma PlaceholderIsSpelled(i: nat)
    ensures PlaceholderName(i) == ":db_insert_placeholder_" + Decimal(i) && Number(Decimal(i)) == i
  {
    Assoc(":", "db_insert_placeholder_", Decimal(i));
    DecimalReadsBack(i);
  }

  lemma {:induction false} BoundAt<T>(values: seq<T>, from: nat, i: nat)
    requires i < |values|
    ensures |Bound(values, from)| == |values| && Bound(values, from)[i] == (PlaceholderName(from + i), values[i])
  {
    if i > 0 { BoundAt(values[1..], from + 1, i - 1); }
    else if |values| > 1 { BoundAt(values[1..], from + 1, 0); }
  }

  // ---- Reading the printed text with the PDO scanner ------------------------------------------------------------

  /** The named parameters of a text, left to right. */
  function NamesIn(ts: seq<Token>): seq<string> {
    if ts == [] then [] else (if ts[0].Name? then [":" + ts[0].name] else []) + NamesIn(ts[1..])
  }

  predicate IsPlain(c: char) { c != '\'' && c != ':' && c != '?' }

  predicate Plain(s: string) { forall i :: 0 <= i < |s| ==> IsPlain(s[i]) }

  /** Reading s gives the names and then what reading t gives. */
  ghost predicate ReadsAs(s: string, names: seq<string>, t: string) {
    && NamesIn(Tokens(s)) == names + NamesIn(Tokens(t))
    && forall index, m :: Bind(Tokens(s), index, m) == Bind(Tokens(t), index + |names|, Table(names, index + 1, m))
  }

  /** The table with the names numbered from `index` on. */
  function Table(names: seq<string>, index: int, m: map<string, int>): map<string, int> {
    if names == [] then m else Table(names[1..], index + 1, m[names[0] := index])
  }

  lemma PlainCons(c: char, t: string)
    requires IsPlain(c)
    ensures Tokens([c] + t) == [Text(c)] + Tokens(t)
  {
    assert ([c] + t)[1..] == t;
  }

  lemma {:induction false} TableConcat(a: seq<string>, b: seq<string>, index: int, m: map<string, int>)
    ensures Table(a + b, index, m) == Table(b, index + |a|, Table(a, index, m))
  {
    if a == [] { assert a + b == b; } else {
      assert (a + b)[1..] == a[1..] + b;
      TableConcat(a[1..], b, index + 1, m[a[0] := index]);
    }
  }

  lemma ReadsInTurn(s: string, a: seq<string>, t: string, b: seq<string>, u: string)
    requires ReadsAs(s, a, t) && ReadsAs(t, b, u)
    ensures ReadsAs(s, a + b, u)
  {
    Assoc(a, b, NamesIn(Tokens(u)));
    forall index, m ensures Bind(Tokens(s), index, m) == Bind(Tokens(u), index + |a + b|, Table(a + b, index + 1, m)) {
      TableConcat(a, b, index + 1, m);
    }
  }

  lemma PlainCharReads(c: char, t: string)
    requires IsPlain(c)
    ensures ReadsAs([c] + t, [], t)
  {
    PlainCons(c, t);
    var ts := Tokens(t);
    assert ([Text(c)] + ts)[1..] == ts;
    assert NamesIn([Text(c)] + ts) == [] + NamesIn(ts);
  }

  lemma {:induction false} PlainReads(p: string, t: string)
    requires Plain(p)
    ensures ReadsAs(p + t, [], t)
  {
    if p == [] {
      assert p + t == t;
      assert [] + NamesIn(Tokens(t)) == NamesIn(Tokens(t));
    } else {
      PlainReads(p[1..], t);
      PlainCharReads(p[0], p[1..] + t);
      Uncons(p, t);
      ReadsInTurn(p + t, [], p[1..] + t, [], t);
    }
  }

  lemma BareNameIsName(i: nat)
    ensures forall k :: 0 <= k < |BareName(i)| ==> IsNameChar(BareName(i)[k])
  {
    DecimalReadsBack(i);
    assert forall k :: 0 <= k < 22 ==> IsNameChar("db_insert_placeholder_"[k]);
  }

  lemma NameTokens(i: nat, c: char, t: string)
    requires IsPlain(c) && !IsNameChar(c)
    ensures Tokens(PlaceholderName(i) + ([c] + t)) == [Name(BareName(i))] + ([Text(c)] + Tokens(t))
  {
    BareNameIsName(i);
    TokensOfName(BareName(i), [c] + t);
    assert ([c] + t)[1..] == t;
  }

  lemma BindName(name: string, c: char, ts: seq<Token>, index: int, m: map<string, int>)
    ensures Bind([Name(name)] + ([Text(c)] + ts), index, m) == Bind(ts, index + 1, m[":" + name := index + 1])
  {
    var rest := [Text(c)] + ts;
    assert ([Name(name)] + rest)[1..] == rest && rest[1..] == ts;
    assert Recorded(rest);
    assert Bind(rest, index + 1, m[":" + name := index + 1]) == Bind(ts, index + 1, m[":" + name := index + 1]);
  }

  lemma OneInTable(name: string, index: int, m: map<string, int>)
    ensures Table([name], index, m) == m[name := index]
  {
    assert [name][1..] == [];
  }

  lemma NamesBehindName(name: string, c: char, ts: seq<Token>)
    ensures NamesIn([Name(name)] + ([Text(c)] + ts)) == [":" + name] + NamesIn(ts)
  {
    var rest := [Text(c)] + ts;
    assert ([Name(name)] + rest)[1..] == rest && rest[1..] == ts;
    assert NamesIn(rest) == [] + NamesIn(ts) == NamesIn(ts);
  }

  lemma NameReads(i: nat, c: char, t: string)
    requires IsPlain(c) && !IsNameChar(c)
    ensures ReadsAs(PlaceholderName(i) + ([c] + t), [PlaceholderName(i)], t)
  {
    var name := PlaceholderName(i);
    var us := [Name(BareName(i))] + ([Text(c)] + Tokens(t));
    NameTokens(i, c, t);
    NamesBehindName(BareName(i), c, Tokens(t));
    forall index, m ensures Bind(us, index, m) == Bind(Tokens(t), index + 1, Table([name], index + 1, m)) {
      BindName(BareName(i), c, Tokens(t), index, m);
      OneInTable(name, index + 1, m);
    }
  }

  // ---- Tuples -------------------------------------------------------------------------------------------------

  lemma ImplodeCons(a: string, rest: seq<string>)
    requires rest != []
    ensures Implode([a] + rest) == a + ", " + Implode(rest)
  {
    assert ([a] + rest)[1..] == rest;
  }

  /** Plain text in front changes nothing. */
  lemma PlainThen(p: string, s: string, names: seq<string>, t: string)
    requires Plain(p) && ReadsAs(s, names, t)
    ensures ReadsAs(p + s, names, t)
  {
    PlainReads(p, s);
    ReadsInTurn(p + s, [], s, names, t);
    assert [] + names == names;
  }

  lemma NameThen(i: nat, c: char, s: string, names: seq<string>, t: string)
    requires IsPlain(c) && !IsNameChar(c) && ReadsAs(s, names, t)
    ensures ReadsAs(PlaceholderName(i) + ([c] + s), [PlaceholderName(i)] + names, t)
  {
    NameReads(i, c, s);
    ReadsInTurn(PlaceholderName(i) + ([c] + s), [PlaceholderName(i)], s, names, t);
  }

  lemma LastNumbered(from: nat, t: string)
    ensures ReadsAs(Implode(Numbered(from, 1)) + (")" + t), Numbered(from, 1), t)
  {
    var name := PlaceholderName(from);
    NameReads(from, ')', t);
    assert Numbered(from, 1) == [name] + Numbered(from + 1, 0) == [name];
    assert Implode([name]) == name && [')'] + t == ")" + t;
  }

  lemma OneMoreNumbered(from: nat, rest: seq<string>, t: string)
    requires rest != [] && ReadsAs(Implode(rest) + (")" + t), rest, t)
    ensures ReadsAs(Implode([PlaceholderName(from)] + rest) + (")" + t), [PlaceholderName(from)] + rest, t)
  {
    var name, tail := PlaceholderName(from), Implode(rest) + (")" + t);
    PlainThen(" ", tail, rest, t);
    NameThen(from, ',', " " + tail, rest, t);
    ImplodeCons(name, rest);
    Separated(name, Implode(rest), ")" + t);
  }

  lemma {:induction false} NumberedReads(from: nat, n: nat, t: string)
    ensures ReadsAs(Implode(Numbered(from, n)) + (")" + t), Numbered(from, n), t)
    decreases n
  {
    if n == 0 {
      assert "" + (")" + t) == ")" + t;
      PlainReads(")", t);
    } else if n == 1 {
      LastNumbered(from, t);
    } else {
      NumberedReads(from + 1, n - 1, t);
      OneMoreNumbered(from, Numbered(from + 1, n - 1), t);
    }
  }

  lemma Separated(a: string, b: string, t: string)
    ensures a + ", " + b + t == a + ([','] + (" " + (b + t)))
  {}

  lemma {:induction false} DefaultsRead(d: nat, from: nat, n: nat, t: string)
    ensures ReadsAs(Implode(Defaults(d) + Numbered(from, n)) + (")" + t), Numbered(from, n), t)
  {
    if d == 0 {
      assert Defaults(0) + Numbered(from, n) == Numbered(from, n);
      NumberedReads(from, n, t);
    } else {
      DefaultsRead(d - 1, from, n, t);
      var rest := Defaults(d - 1) + Numbered(from, n);
      assert Defaults(d) + Numbered(from, n) == ["default"] + rest;
      OneMoreDefault(rest, Numbered(from, n), t);
    }
  }

  lemma OneMoreDefault(rest: seq<string>, names: seq<string>, t: string)
    requires ReadsAs(Implode(rest) + (")" + t), names, t)
    ensures ReadsAs(Implode(["default"] + rest) + (")" + t), names, t)
  {
    var tail := Implode(rest) + (")" + t);
    if rest == [] {
      PlainThen("default", tail, names, t);
      assert Implode(["default"] + rest) == "default" && tail == ")" + t;
    } else {
      ImplodeCons("default", rest);
      PlainThen("default, ", tail, names, t);
      Assoc("default, ", Implode(rest), ")" + t);
      assert "default" + ", " == "default, ";
    }
  }

  lemma Enclosed(inner: string, t: string)
    ensures "(" + inner + ")" + t == "(" + (inner + (")" + t))
  {}

  lemma TupleReads(d: nat, from: nat, n: nat, t: string)
    ensures ReadsAs(TupleText(d, from, n) + t, Numbered(from, n), t)
  {
    var inner := Implode(Defaults(d) + Numbered(from, n));
    DefaultsRead(d, from, n, t);
    PlainThen("(", inner + (")" + t), Numbered(from, n), t);
    Enclosed(inner, t);
  }

  lemma {:induction false} NumberedConcat(from: nat, a: nat, b: nat)
    ensures Numbered(from, a + b) == Numbered(from, a) + Numbered(from + a, b)
    decreases a
  {
    if a > 0 { NumberedConcat(from + 1, a - 1, b); }
  }

  lemma {:induction false} TuplesRead<T>(rows: seq<seq<T>>, d: nat, from: nat, t: string)
    requires rows != []
    ensures ReadsAs(Implode(TupleTexts(rows, d, from)) + t, Numbered(from, |Flatten(rows)|), t)
    decreases |rows|
  {
    var n := |rows[0]|;
    var first, rest := TupleText(d, from, n), TupleTexts(rows[1..], d, from + n);
    if |rows| == 1 {
      OneTuple(rows, d, from);
      TupleReads(d, from, n, t);
    } else {
      var names := Numbered(from + n, |Flatten(rows[1..])|);
      TuplesRead(rows[1..], d, from + n, t);
      PlainThen(", ", Implode(rest) + t, names, t);
      TupleThen(d, from, n, ", " + (Implode(rest) + t), names, t);
      NumberedConcat(from, n, |Flatten(rows[1..])|);
      assert Numbered(from, |Flatten(rows)|) == Numbered(from, n) + names;
      MoreTuples(rows, d, from, t);
    }
  }

  lemma OneTuple<T>(rows: seq<seq<T>>, d: nat, from: nat)
    requires |rows| == 1
    ensures Implode(TupleTexts(rows, d, from)) == TupleText(d, from, |rows[0]|) && Flatten(rows) == rows[0]
  {
    assert TupleTexts(rows[1..], d, from + |rows[0]|) == [] && Flatten(rows[1..]) == [];
  }

  lemma MoreTuples<T>(rows: seq<seq<T>>, d: nat, from: nat, t: string)
    requires |rows| > 1
    ensures var n := |rows[0]|;
            Implode(TupleTexts(rows, d, from)) + t
              == TupleText(d, from, n) + (", " + (Implode(TupleTexts(rows[1..], d, from + n)) + t))
  {
    var n := |rows[0]|;
    var first, rest := TupleText(d, from, n), TupleTexts(rows[1..], d, from + n);
    ImplodeCons(first, rest);
    Regroup(first, Implode(rest), t);
  }

  lemma TupleThen(d: nat, from: nat, n: nat, s: string, names: seq<string>, t: string)
    requires ReadsAs(s, names, t)
    ensures ReadsAs(TupleText(d, from, n) + s, Numbered(from, n) + names, t)
  {
    TupleReads(d, from, n, s);
    ReadsInTurn(TupleText(d, from, n) + s, Numbered(from, n), s, names, t);
  }

  lemma Regroup(a: string, b: string, t: string)
    ensures a + ", " + b + t == a + (", " + (b + t))
  {}

  lemma ValuesRead<T>(rows: seq<seq<T>>, d: nat, t: string)
    ensures ReadsAs(ValuesText(rows, d) + t, Numbered(0, |Flatten(rows)|), t)
  {
    if rows == [] { TupleReads(d, 0, 0, t); } else { TuplesRead(rows, d, 0, t); }
  }

  // ---- Reading a tuple back ------------------------------------------------------------------------------------

  /** The parts of a text between its separators ", ". */
  function Slots(s: string): (r: seq<string>)
    ensures r != []
  {
    if s == "" then [""]
    else if |s| > 1 && s[0] == ',' && s[1] == ' ' then [""] + Slots(s[2..])
    else
      var r := Slots(s[1..]);
      [[s[0]] + r[0]] + r[1..]
  }

  lemma {:induction false} LastSlot(p: string)
    requires ',' !in p
    ensures Slots(p) == [p]
  {
    if p != "" {
      LastSlot(p[1..]);
      assert p[0] in p && [p[0]] + p[1..] == p;
    }
  }

  lemma {:induction false} FirstSlot(p: string, rest: string)
    requires ',' !in p
    ensures Slots(p + (", " + rest)) == [p] + Slots(rest)
  {
    var s := p + (", " + rest);
    if p == "" {
      assert s[0] == ',' && s[1] == ' ' && s[2..] == rest;
    } else {
      TailConcat(p, ", " + rest);
      FirstSlot(p[1..], rest);
      assert p[0] in p && [p[0]] + p[1..] == p;
    }
  }

  ghost predicate NoComma(parts: seq<string>) { forall i :: 0 <= i < |parts| ==> ',' !in parts[i] }

  lemma {:induction false} SlotsOfImplode(parts: seq<string>)
    requires parts != [] && NoComma(parts)
    ensures Slots(Implode(parts)) == parts
  {
    if |parts| == 1 {
      LastSlot(parts[0]);
    } else {
      var rest := parts[1..];
      SlotsOfImplode(rest);
      FirstSlot(parts[0], Implode(rest));
      Assoc(parts[0], ", ", Implode(rest));
      assert [parts[0]] + rest == parts;
    }
  }

  lemma {:induction false} DefaultsHaveNoComma(n: nat)
    ensures NoComma(Defaults(n)) && forall i :: 0 <= i < n ==> Defaults(n)[i] == "default"
  {
    if n > 0 { DefaultsHaveNoComma(n - 1); }
  }

  lemma NumberedHaveNoComma(from: nat, n: nat)
    ensures NoComma(Numbered(from, n))
  {
    forall i | 0 <= i < n ensures ',' !in Numbered(from, n)[i] {
      NumberedAt(from, n, i);
      BareNameIsName(from + i);
    }
  }

  function SlotText(d: nat, from: nat, i: nat): string {
    if i < d then "default" else PlaceholderName(from + (i - d))
  }

  lemma PartAt(d: nat, from: nat, n: nat, i: nat)
    requires i < d + n
    ensures (Defaults(d) + Numbered(from, n))[i] == SlotText(d, from, i)
  {
    if i < d { DefaultsHaveNoComma(d); } else { NumberedAt(from, n, i - d); }
  }

  lemma TupleParts(d: nat, from: nat, n: nat)
    requires d + n > 0
    ensures var t := TupleText(d, from, n);
            |t| >= 2 && t == "(" + t[1..|t| - 1] + ")" && Slots(t[1..|t| - 1]) == Defaults(d) + Numbered(from, n)
  {
    var parts := Defaults(d) + Numbered(from, n);
    var t := TupleText(d, from, n);
    assert t[1..|t| - 1] == Implode(parts);
    DefaultsHaveNoComma(d);
    NumberedHaveNoComma(from, n);
    SlotsOfImplode(parts);
  }

  /** Between its parentheses a printed tuple has one slot for each default field and then one numbered
      placeholder for each value. */
  lemma TupleReadsBack(d: nat, from: nat, n: nat)
    requires d + n > 0
    ensures var t := TupleText(d, from, n);
            && |t| >= 2 && t == "(" + t[1..|t| - 1] + ")" && |Slots(t[1..|t| - 1])| == d + n
            && forall i :: 0 <= i < d + n ==> Slots(t[1..|t| - 1])[i] == SlotText(d, from, i)
  {
    TupleParts(d, from, n);
    forall i | 0 <= i < d + n ensures (Defaults(d) + Numbered(from, n))[i] == SlotText(d, from, i) {
      PartAt(d, from, n, i);
    }
  }

  // ---- Reading all tuples back ---------------------------------------------------------------------------------

  /** Position of the first closing parenthesis, or the length. */
  function CloseAt(s: string): (n: nat)
    ensures n <= |s| && ')' !in s[..n] && (n < |s| ==> s[n] == ')')
  {
    if s == "" || s[0] == ')' then 0 else 1 + CloseAt(s[1..])
  }

  lemma {:induction false} CloseAtIs(p: string, rest: string)
    requires ')' !in p
    ensures CloseAt(p + (")" + rest)) == |p|
  {
    if p == "" { assert p + (")" + rest) == ")" + rest; } else {
      TailConcat(p, ")" + rest);
      CloseAtIs(p[1..], rest);
    }
  }

  /** The tuples of a text: slots between parentheses, tuples separated by ", ". */
  function ReadTuples(s: string): Option<seq<seq<string>>> {
    if s == "" || s[0] != '(' || CloseAt(s[1..]) == |s| - 1 then None
    else
      var n := CloseAt(s[1..]);
      var inner, rest := s[1..][..n], s[1..][n + 1..];
      var slots := if inner == "" then [] else Slots(inner);
      if rest == "" then Some([slots])
      else if |rest| > 1 && rest[0] == ',' && rest[1] == ' ' then Prepend(slots, ReadTuples(rest[2..]))
      else None
  }

  lemma ReadsOneTuple(inner: string, rest: string)
    requires ')' !in inner
    ensures var slots := if inner == "" then [] else Slots(inner);
            && (rest == "" ==> ReadTuples("(" + inner + ")" + rest) == Some([slots]))
            && ReadTuples("(" + inner + ")" + (", " + rest)) == Prepend(slots, ReadTuples(rest))
  {
    TupleCut(inner, rest);
    TupleCut(inner, ", " + rest);
    assert (", " + rest)[2..] == rest;
  }

  lemma TupleCut(inner: string, rest: string)
    requires ')' !in inner
    ensures var s := "(" + inner + ")" + rest;
            s[0] == '(' && CloseAt(s[1..]) == |inner| && s[1..][..|inner|] == inner && s[1..][|inner| + 1..] == rest
  {
    var s := "(" + inner + ")" + rest;
    assert s[1..] == inner + (")" + rest);
    CloseAtIs(inner, rest);
  }

  /** The texts are not empty and have no closing parenthesis. */
  ghost predicate Enclosable(parts: seq<string>) {
    forall i :: 0 <= i < |parts| ==> parts[i] != "" && ')' !in parts[i]
  }

  lemma {:induction false} ImplodeEnclosable(parts: seq<string>)
    requires Enclosable(parts)
    ensures ')' !in Implode(parts) && (parts != [] ==> Implode(parts) != "")
  {
    if |parts| > 1 {
      assert parts[0] != "" && ')' !in parts[0];
      ImplodeEnclosable(parts[1..]);
    }
  }

  lemma SlotsEnclosable(d: nat, from: nat, n: nat)
    ensures Enclosable(Defaults(d) + Numbered(from, n))
  {
    var parts := Defaults(d) + Numbered(from, n);
    forall i | 0 <= i < |parts| ensures parts[i] != "" && ')' !in parts[i] {
      PartAt(d, from, n, i);
      SlotEnclosable(d, from, i);
    }
  }

  lemma SlotEnclosable(d: nat, from: nat, i: nat)
    ensures SlotText(d, from, i) != "" && ')' !in SlotText(d, from, i)
  {
    if i >= d { NameEnclosable(BareName(from + (i - d)), from + (i - d)); }
  }

  lemma NameEnclosable(name: string, i: nat)
    requires name == BareName(i)
    ensures ')' !in ":" + name
  {
    BareNameIsName(i);
    assert !IsNameChar(')');
  }

  lemma InnerSlots(d: nat, from: nat, n: nat)
    ensures var inner := Implode(Defaults(d) + Numbered(from, n));
            ')' !in inner && (if inner == "" then [] else Slots(inner)) == Defaults(d) + Numbered(from, n)
  {
    var parts := Defaults(d) + Numbered(from, n);
    SlotsEnclosable(d, from, n);
    ImplodeEnclosable(parts);
    if parts != [] {
      DefaultsHaveNoComma(d);
      NumberedHaveNoComma(from, n);
      SlotsOfImplode(parts);
    }
  }

  lemma LastTupleReadsBack(d: nat, from: nat, n: nat)
    ensures ReadTuples(TupleText(d, from, n)) == Some([Defaults(d) + Numbered(from, n)])
  {
    var inner := Implode(Defaults(d) + Numbered(from, n));
    InnerSlots(d, from, n);
    ReadsOneTuple(inner, "");
    assert "(" + inner + ")" + "" == TupleText(d, from, n);
  }

  lemma TupleAndMoreReadBack(d: nat, from: nat, n: nat, rest: string)
    ensures ReadTuples(TupleText(d, from, n) + ", " + rest) == Prepend(Defaults(d) + Numbered(from, n), ReadTuples(rest))
  {
    InnerSlots(d, from, n);
    ReadsOneTuple(Implode(Defaults(d) + Numbered(from, n)), rest);
    Assoc(TupleText(d, from, n), ", ", rest);
  }

  /** The slots of each tuple. */
  function SlotLists<T>(rows: seq<seq<T>>, d: nat, from: nat): seq<seq<string>> {
    if rows == [] then []
    else [Defaults(d) + Numbered(from, |rows[0]|)] + SlotLists(rows[1..], d, from + |rows[0]|)
  }

  lemma OneMoreTuple(d: nat, from: nat, n: nat, texts: seq<string>, lists: seq<seq<string>>)
    requires texts != [] && ReadTuples(Implode(texts)) == Some(lists)
    ensures ReadTuples(Implode([TupleText(d, from, n)] + texts)) == Some([Defaults(d) + Numbered(from, n)] + lists)
  {
    TupleAndMoreReadBack(d, from, n, Implode(texts));
    ImplodeCons(TupleText(d, from, n), texts);
  }

  lemma {:induction false} TuplesReadBack<T>(rows: seq<seq<T>>, d: nat, from: nat)
    requires rows != []
    ensures ReadTuples(Implode(TupleTexts(rows, d, from))) == Some(SlotLists(rows, d, from))
    decreases |rows|
  {
    var n := |rows[0]|;
    if |rows| == 1 {
      OneTuple(rows, d, from);
      LastTupleReadsBack(d, from, n);
      assert SlotLists(rows[1..], d, from + n) == [];
      assert SlotLists(rows, d, from) == [Defaults(d) + Numbered(from, n)];
    } else {
      TuplesReadBack(rows[1..], d, from + n);
      OneMoreTuple(d, from, n, TupleTexts(rows[1..], d, from + n), SlotLists(rows[1..], d, from + n));
    }
  }

  lemma {:induction false} SlotListAt<T>(rows: seq<seq<T>>, d: nat, from: nat, i: nat)
    requires i < |rows|
    ensures |SlotLists(rows, d, from)| == |rows|
    ensures SlotLists(rows, d, from)[i] == Defaults(d) + Numbered(from + |Flatten(rows[..i])|, |rows[i]|)
    decreases |rows|
  {
    if i == 0 {
      assert Flatten(rows[..0]) == [];
      if |rows| > 1 { SlotListAt(rows[1..], d, from + |rows[0]|, 0); }
    } else {
      SlotListAt(rows[1..], d, from + |rows[0]|, i - 1);
      assert rows[..i][1..] == rows[1..][..i - 1] && rows[..i][0] == rows[0];
    }
  }

  /** Of so many tuples the i-th has so many slots, and this text in its j-th. */
  predicate HasSlot(tuples: Option<seq<seq<string>>>, count: nat, i: nat, width: nat, j: nat, text: string) {
    && tuples.Some? && i < |tuples.value| == count
    && j < |tuples.value[i]| == width && tuples.value[i][j] == text
  }

  lemma SlotOfRow<T>(rows: seq<seq<T>>, d: nat, i: nat, j: nat)
    requires i < |rows| && j < d + |rows[i]|
    ensures HasSlot(Some(SlotLists(rows, d, 0)), |rows|, i, d + |rows[i]|, j, SlotText(d, |Flatten(rows[..i])|, j))
  {
    SlotListAt(rows, d, 0, i);
    PartAt(d, |Flatten(rows[..i])|, |rows[i]|, j);
  }

  /** What stands behind VALUES: one tuple for each row, its defaults first and then its placeholders, the
      numbers going on from the rows before it. */
  lemma ValuesReadBack<T>(rows: seq<seq<T>>, d: nat, i: nat, j: nat)
    requires i < |rows| && j < d + |rows[i]|
    ensures HasSlot(ReadTuples(ValuesText(rows, d)), |rows|, i, d + |rows[i]|, j,
                    if j < d then "default" else PlaceholderName(|Flatten(rows[..i])| + (j - d)))
  {
    TuplesReadBack(rows, d, 0);
    SlotOfRow(rows, d, i, j);
  }

  /** Without rows there is one tuple of defaults. */
  lemma NoRowsAreDefaults<T>(rows: seq<seq<T>>, d: nat, j: nat)
    requires rows == []
    ensures ReadTuples(ValuesText(rows, d)).Some? && |ReadTuples(ValuesText(rows, d)).value| == 1
    ensures |ReadTuples(ValuesText(rows, d)).value[0]| == d
    ensures j < d ==> HasSlot(ReadTuples(ValuesText(rows, d)), 1, 0, d, j, "default")
  {
    LastTupleReadsBack(d, 0, 0);
    if j < d { PartAt(d, 0, 0, j); }
  }

  lemma {:induction false} FlattenAt<T>(rows: seq<seq<T>>, i: nat, j: nat)
    requires i < |rows| && j < |rows[i]|
    ensures |Flatten(rows[..i])| + j < |Flatten(rows)|
    ensures Flatten(rows)[|Flatten(rows[..i])| + j] == rows[i][j]
  {
    if i == 0 {
      assert Flatten(rows[..0]) == [];
    } else {
      FlattenAt(rows[1..], i - 1, j);
      assert rows[..i][1..] == rows[1..][..i - 1] && rows[..i][0] == rows[0];
    }
  }

  /** The k-th key is bound to the value v, and no other key is the same. */
  ghost predicate OnlyBinding<T>(bound: seq<(string, T)>, k: nat, v: T) {
    && k < |bound| && bound[k] == (PlaceholderName(k), v)
    && forall l :: 0 <= l < |bound| && l != k ==> bound[l].0 != PlaceholderName(k)
  }

  lemma BoundOnce<T>(values: seq<T>, k: nat)
    requires k < |values|
    ensures OnlyBinding(Bound(values, 0), k, values[k])
  {
    BoundAt(values, 0, k);
    forall l | 0 <= l < |values| && l != k ensures Bound(values, 0)[l].0 != PlaceholderName(k) {
      BoundAt(values, 0, l);
      if PlaceholderName(l) == PlaceholderName(k) { NamesAreDistinct(l, k); }
    }
  }

  /** The two passes agree value by value: the name printed in the slot of a row's value is the name to
      which that value, and no other, is bound. */
  lemma ValueMeetsItsSlot<T>(rows: seq<seq<T>>, d: nat, i: nat, j: nat)
    requires i < |rows| && j < |rows[i]|
    ensures var k := |Flatten(rows[..i])| + j;
            && OnlyBinding(Bound(Flatten(rows), 0), k, rows[i][j])
            && HasSlot(ReadTuples(ValuesText(rows, d)), |rows|, i, d + |rows[i]|, d + j, PlaceholderName(k))
  {
    ValuesReadBack(rows, d, i, d + j);
    FlattenAt(rows, i, j);
    BoundOnce(Flatten(rows), |Flatten(rows[..i])| + j);
  }

  // ---- Agreement ------------------------------------------------------------------------------------------------

  lemma {:induction false} NumberedAt(from: nat, n: nat, i: nat)
    requires i < n
    ensures Numbered(from, n)[i] == PlaceholderName(from + i)
    decreases n
  {
    if i > 0 { NumberedAt(from + 1, n - 1, i - 1); }
    else if n > 1 { NumberedAt(from + 1, n - 1, 0); }
  }

  lemma PrintedNames<T>(rows: seq<seq<T>>, d: nat)
    ensures NamesIn(Tokens(ValuesText(rows, d))) == Numbered(0, |Flatten(rows)|)
  {
    ValuesRead(rows, d, "");
    assert ValuesText(rows, d) + "" == ValuesText(rows, d);
    assert NamesIn(Tokens("")) == [];
  }

  lemma NumberedHasNoRepeat(n: nat)
    ensures NoRepeat(Numbered(0, n))
  {
    forall i, j | 0 <= i < j < n ensures Numbered(0, n)[i] != Numbered(0, n)[j] {
      NumberedAt(0, n, i);
      NumberedAt(0, n, j);
      if PlaceholderName(i) == PlaceholderName(j) { NamesAreDistinct(i, j); }
    }
  }

  /** Left to right, the placeholders printed behind VALUES are exactly the keys bound, in the same
      order, numbered from zero without gap or repeat. */
  lemma PrintedAreBound<T>(rows: seq<seq<T>>, d: nat)
    ensures var printed := NamesIn(Tokens(ValuesText(rows, d)));
            var bound := Bound(Flatten(rows), 0);
            && |printed| == |bound| == |Flatten(rows)| && NoRepeat(printed)
            && (forall i :: 0 <= i < |printed| ==> printed[i] == bound[i].0 == PlaceholderName(i))
            && (forall i :: 0 <= i < |bound| ==> bound[i].1 == Flatten(rows)[i])
  {
    var values := Flatten(rows);
    PrintedNames(rows, d);
    NumberedHasNoRepeat(|values|);
    forall i | 0 <= i < |values|
      ensures Numbered(0, |values|)[i] == Bound(values, 0)[i].0 == PlaceholderName(i)
      ensures Bound(values, 0)[i].1 == values[i]
    {
      NumberedAt(0, |values|, i);
      BoundAt(values, 0, i);
    }
  }

  lemma {:induction false} TableHolds(from: nat, n: nat, index: int, m: map<string, int>, i: nat)
    requires i < n
    ensures PlaceholderName(from + i) in Table(Numbered(from, n), index, m)
    ensures Table(Numbered(from, n), index, m)[PlaceholderName(from + i)] == index + i
    decreases n
  {
    var m' := m[PlaceholderName(from) := index];
    if i > 0 {
      TableHolds(from + 1, n - 1, index + 1, m', i - 1);
    } else {
      TableKeeps(from + 1, n - 1, index + 1, m', from);
    }
  }

  lemma {:induction false} TableKeeps(from: nat, n: nat, index: int, m: map<string, int>, j: nat)
    requires j < from && PlaceholderName(j) in m
    ensures PlaceholderName(j) in Table(Numbered(from, n), index, m)
    ensures Table(Numbered(from, n), index, m)[PlaceholderName(j)] == m[PlaceholderName(j)]
    decreases n
  {
    if n > 0 {
      if PlaceholderName(from) == PlaceholderName(j) { NamesAreDistinct(from, j); }
      TableKeeps(from + 1, n - 1, index + 1, m[PlaceholderName(from) := index], j);
    }
  }

  /** The table the PDO driver builds: that of the text in front of VALUES, then the bound keys. */
  lemma DriverTable<T>(prefix: string, rows: seq<seq<T>>, d: nat)
    requires Settled(Tokens(prefix))
    ensures Bindings(Tokens(prefix + ValuesText(rows, d) + [NUL]))
              == Table(Numbered(0, |Flatten(rows)|), MarkerCount(Tokens(prefix)), Bindings(Tokens(prefix)))
  {
    var v := ValuesText(rows, d) + [NUL];
    ValuesRead(rows, d, [NUL]);
    TokensConcat(prefix, v);
    Assoc(prefix, ValuesText(rows, d), [NUL]);
    BindConcat(Tokens(prefix), Tokens(v), -1, map[]);
    TerminatorBindsNothing();
  }

  lemma TerminatorBindsNothing()
    ensures forall index, m :: Bind(Tokens([NUL]), index, m) == m
  {
    assert Tokens([NUL]) == [Text(NUL)] + Tokens([]);
  }

  /** The PDO driver, given such a statement, stores for the i-th bound key exactly its position: i
      behind the placeholders of the text in front of VALUES, whenever that text leaves the scanner
      settled. */
  lemma DriverIndexesAgree<T>(prefix: string, rows: seq<seq<T>>, d: nat, i: nat)
    requires Settled(Tokens(prefix)) && i < |Flatten(rows)|
    ensures var names := Bindings(Tokens(prefix + ValuesText(rows, d) + [NUL]));
            var key := Bound(Flatten(rows), 0)[i].0;
            key in names && names[key] == MarkerCount(Tokens(prefix)) + i
  {
    BoundAt(Flatten(rows), 0, i);
    DriverTable(prefix, rows, d);
    TableHolds(0, |Flatten(rows)|, MarkerCount(Tokens(prefix)), Bindings(Tokens(prefix)), i);
  }

  // ---- The class ------------------------------------------------------------------------------------------------

  /** The source of an INSERT ... SELECT: its arguments and its text. */
  datatype Query<T> = Query(arguments: seq<(string, T)>, text: string)

  class Insert<T> {
    const heading: string          // comment, table and field list
    const defaultFields: seq<string>
    const fromQuery: Option<Query<T>>
    var insertValues: seq<seq<T>>

    constructor (heading: string, defaultFields: seq<string>, fromQuery: Option<Query<T>>)
      ensures this.heading == heading && this.defaultFields == defaultFields && this.fromQuery == fromQuery
      ensures insertValues == []
    {
      this.heading, this.defaultFields, this.fromQuery, insertValues := heading, defaultFields, fromQuery, [];
    }

    /** What is sent to the server: the statement and its bound values; afterwards the rows are
        forgotten so that the object can be used again. */
    method Execute(preExecute: bool) returns (sent: Option<(string, seq<(string, T)>)>)
      modifies this
      ensures !preExecute ==> sent.None? && insertValues == old(insertValues)
      ensures preExecute ==> insertValues == []
      ensures preExecute && fromQuery.None? ==>
                sent == Some((heading + " VALUES " + ValuesText(old(insertValues), |defaultFields|),
                              Bound(Flatten(old(insertValues)), 0)))
      ensures preExecute && fromQuery.Some? ==>
                sent == Some((heading + " " + fromQuery.value.text, fromQuery.value.arguments))
    {
      if !preExecute { return None; }
      var values := [];
      if fromQuery.None? {
        values := BindValues();
      } else {
        values := fromQuery.value.arguments;
      }
      var text := ToString();
      insertValues := [];
      return Some((text, values));
    }

    /** The nested loops of `execute`. */
    method BindValues() returns (values: seq<(string, T)>)
      ensures values == Bound(Flatten(insertValues), 0)
    {
      var maxPlaceholder: nat := 0;
      values := [];
      var r := 0;
      while r < |insertValues|
        invariant 0 <= r <= |insertValues| && maxPlaceholder == |values|
        invariant values + Bound(Flatten(insertValues[r..]), maxPlaceholder) == Bound(Flatten(insertValues), 0)
      {
        var row := insertValues[r];
        ghost var rest := Flatten(insertValues[r + 1..]);
        assert insertValues[r..][0] == row && insertValues[r..][1..] == insertValues[r + 1..];
        var c := 0;
        assert row[0..] == row;
        while c < |row|
          invariant 0 <= c <= |row| && maxPlaceholder == |values|
          invariant values + Bound(row[c..] + rest, maxPlaceholder) == Bound(Flatten(insertValues), 0)
        {
          assert (row[c..] + rest)[1..] == row[c + 1..] + rest;
          Assoc(values, [(PlaceholderName(maxPlaceholder), row[c])], Bound(row[c + 1..] + rest, maxPlaceholder + 1));
          values := values + [(PlaceholderName(maxPlaceholder), row[c])];
          maxPlaceholder := maxPlaceholder + 1;
          c := c + 1;
        }
        assert row[c..] + rest == rest;
        r := r + 1;
      }
      assert insertValues[r..] == [];
      assert values + [] == values;
    }

    /** The nested loops of `__toString`. */
    method ToString() returns (text: string)
      ensures fromQuery.Some? ==> text == heading + " " + fromQuery.value.text
      ensures fromQuery.None? ==> text == heading + " VALUES " + ValuesText(insertValues, |defaultFields|)
    {
      if fromQuery.Some? { return heading + " " + fromQuery.value.text; }
      var tuples: seq<string> := [];
      var maxPlaceholder: nat := 0;
      if |insertValues| > 0 {
        var r := 0;
        while r < |insertValues|
          invariant 0 <= r <= |insertValues|
          invariant tuples + TupleTexts(insertValues[r..], |defaultFields|, maxPlaceholder)
                    == TupleTexts(insertValues, |defaultFields|, 0)
        {
          var tuple := Tuple(maxPlaceholder, |insertValues[r]|);
          assert insertValues[r..][0] == insertValues[r] && insertValues[r..][1..] == insertValues[r + 1..];
          maxPlaceholder := maxPlaceholder + |insertValues[r]|;
          Assoc(tuples, [tuple], TupleTexts(insertValues[r + 1..], |defaultFields|, maxPlaceholder));
          tuples := tuples + [tuple];
          r := r + 1;
        }
        assert insertValues[r..] == [];
        assert tuples + [] == tuples;
      } else {
        var tuple := Tuple(0, 0);
        tuples := [tuple];
      }
      text := heading + " VALUES " + Implode(tuples);
    }

    /** The slots of one tuple: `default` for each default field, then the numbered placeholders. */
    method Tuple(from: nat, n: nat) returns (tuple: string)
      ensures tuple == TupleText(|defaultFields|, from, n)
    {
      var placeholders := Defaults(|defaultFields|);
      ghost var slots := placeholders + Numbered(from, n);
      var i := from;
      while i < from + n
        invariant from <= i <= from + n && placeholders + Numbered(i, from + n - i) == slots
      {
        Assoc(placeholders, [PlaceholderName(i)], Numbered(i + 1, from + n - (i + 1)));
        placeholders := placeholders + [PlaceholderName(i)];
        i := i + 1;
      }
      assert placeholders + [] == placeholders;
      tuple := "(" + Implode(placeholders) + ")";
    }
  }
}
