// What the PDO driver's named-parameter rewriter (php_pdo/pdo_nuodb/nuodb_driver.c) means: Tokens
// splits a statement into literals, markers, names and plain characters, Render substitutes, and Bind
// numbers the names.  The one-pass machine of the driver is in SqlRewriter.dfy.

module SqlTokens {
  import opened Sequences

  predicate IsNameChar(c: char) {
    'A' <= c <= 'Z' || 'a' <= c <= 'z' || '0' <= c <= '9' || c == '_' || c == '-'
  }

  /** A closed literal ends with its own quote; an open one runs to the end of the text. */
  datatype Token =
    | Text(c: char)
    | Literal(body: string, closed: bool)
    | Marker
    | Name(name: string)
  {
    predicate OpenLiteral() { Literal? && !closed }
  }

  /** Index of the first quote, or the length when there is none. */
  function QuoteAt(s: string): (n: nat)
    ensures n <= |s| && '\'' !in s[..n]
    ensures n < |s| ==> s[n] == '\''
  {
    if s == [] || s[0] == '\'' then 0 else 1 + QuoteAt(s[1..])
  }

  /** Length of the run of name characters at the front. */
  function NameRun(s: string): (n: nat)
    ensures n <= |s| && (forall i :: 0 <= i < n ==> IsNameChar(s[i]))
    ensures n < |s| ==> !IsNameChar(s[n])
  {
    if s == [] || !IsNameChar(s[0]) then 0 else 1 + NameRun(s[1..])
  }

  /** The first token of a non-empty text. */
  function Head(s: string): Token
    requires s != []
  {
    if s[0] == '\'' then
      var n := QuoteAt(s[1..]);
      Literal(s[1..][..n], n < |s| - 1)
    else if s[0] == ':' then Name(s[1..][..NameRun(s[1..])])
    else if s[0] == '?' then Marker
    else Text(s[0])
  }

  /** How many characters the first token takes. */
  function Width(s: string): (n: nat)
    requires s != []
    ensures 1 <= n <= |s|
  {
    if s[0] == '\'' then
      var n := QuoteAt(s[1..]);
      if n < |s| - 1 then n + 2 else |s|
    else if s[0] == ':' then 1 + NameRun(s[1..])
    else 1
  }

  function Tokens(s: string): seq<Token>
    decreases |s|, 1
  {
    if s == [] then []
    else
      var rest := s[Width(s)..];
      [Head(s)] + if Head(s).Name? then AfterName(rest) else Tokens(rest)
  }

  /** The character that ends a name is plain text, unless it opens a literal. */
  function AfterName(s: string): seq<Token>
    decreases |s|, 2
  {
    if s == [] then []
    else if s[0] == '\'' then Tokens(s)
    else [Text(s[0])] + Tokens(s[1..])
  }

  function ShowLiteral(body: string, closed: bool): string {
    "'" + body + if closed then "'" else ""
  }

  function RenderToken(t: Token): string {
    match t
    case Text(c) => [c]
    case Literal(body, closed) => ShowLiteral(body, closed)
    case Marker => "?"
    case Name(_) => "?"
  }

  function SourceToken(t: Token): string {
    if t.Name? then ":" + t.name else RenderToken(t)
  }

  /** What the driver sends to the server. */
  function Render(ts: seq<Token>): string {
    if ts == [] then "" else RenderToken(ts[0]) + Render(ts[1..])
  }

  /** The text the tokens were cut from. */
  function Source(ts: seq<Token>): string {
    if ts == [] then "" else SourceToken(ts[0]) + Source(ts[1..])
  }

  /** Placeholders the driver counts: markers and names, not a question mark that ends a name. */
  function MarkerCount(ts: seq<Token>): nat {
    if ts == [] then 0
    else (if ts[0].Marker? || ts[0].Name? then 1 else 0) + MarkerCount(ts[1..])
  }

  function NameChars(ts: seq<Token>): nat {
    if ts == [] then 0 else (if ts[0].Name? then |ts[0].name| else 0) + NameChars(ts[1..])
  }

  /** A name is recorded unless the text stops, or an open literal starts, right after it. */
  predicate Recorded(rest: seq<Token>) {
    rest != [] && !rest[0].OpenLiteral()
  }

  /** The name table after the tokens, when `index` is the position of the last placeholder. */
  function Bind(ts: seq<Token>, index: int, names: map<string, int>): map<string, int> {
    if ts == [] then names
    else if ts[0].Marker? then Bind(ts[1..], index + 1, names)
    else if ts[0].Name? then
      Bind(ts[1..], index + 1,
           if Recorded(ts[1..]) then names[":" + ts[0].name := index + 1] else names)
    else Bind(ts[1..], index, names)
  }

  function Bindings(ts: seq<Token>): map<string, int> {
    Bind(ts, -1, map[])
  }

  predicate HasName(ts: seq<Token>) { exists i :: 0 <= i < |ts| && ts[i].Name? }

  predicate HasText(ts: seq<Token>, c: char) { Text(c) in ts }

  /** Some name, empty names included, is ended by the character c. */
  predicate NameEndedBy(ts: seq<Token>, c: char) {
    exists i :: 0 <= i && i + 1 < |ts| && ts[i].Name? && ts[i + 1] == Text(c)
  }

  /** Every name fits a buffer of 64: the colon, the name and, once the name ends, its terminator. */
  predicate NamesFit(ts: seq<Token>) {
    ts == [] || (
      (ts[0].Name? ==> |ts[0].name| <= if Recorded(ts[1..]) then 62 else 63) && NamesFit(ts[1..]))
  }

  /** The scanner stands outside literals and outside names after these tokens. */
  predicate Settled(ts: seq<Token>) {
    ts == [] || (!ts[|ts| - 1].Name? && !ts[|ts| - 1].OpenLiteral())
  }

  // ---- Tokens split the text without loss -------------------------------------------------

  lemma ClosedPieces(s: string, n: nat)
    requires n + 2 <= |s| && s[0] == '\'' && s[n + 1] == '\''
    ensures "'" + s[1..][..n] + "'" + s[n + 2..] == s
  {}

  lemma OpenPieces(s: string)
    requires s != [] && s[0] == '\''
    ensures "'" + s[1..] + "" == s && s[1..][..|s| - 1] == s[1..]
  {}

  lemma NamePieces(s: string, n: nat)
    requires n < |s| && s[0] == ':'
    ensures ":" + s[1..][..n] + s[1 + n..] == s
  {}

  lemma PlainPieces(s: string)
    requires s != []
    ensures [s[0]] + s[1..] == s
  {}

  lemma HeadIsPrefix(s: string)
    requires s != []
    ensures SourceToken(Head(s)) + s[Width(s)..] == s
  {
    if s[0] == '\'' {
      var n := QuoteAt(s[1..]);
      if n < |s| - 1 { ClosedPieces(s, n); } else { OpenPieces(s); }
    } else if s[0] == ':' {
      NamePieces(s, NameRun(s[1..]));
    } else {
      PlainPieces(s);
    }
  }

  lemma {:induction false} TokensPartitionText(s: string)
    ensures Source(Tokens(s)) == s
    decreases |s|, 1
  {
    if s != [] {
      var rest := s[Width(s)..];
      HeadIsPrefix(s);
      if Head(s).Name? { AfterNamePartitionsText(rest); } else { TokensPartitionText(rest); }
    }
  }

  lemma {:induction false} AfterNamePartitionsText(s: string)
    ensures Source(AfterName(s)) == s
    decreases |s|, 2
  {
    if s != [] {
      if s[0] == '\'' { TokensPartitionText(s); } else { TokensPartitionText(s[1..]); }
    }
  }

  lemma {:induction false} RenderLength(ts: seq<Token>)
    ensures |Render(ts)| + NameChars(ts) == |Source(ts)|
  {
    if ts != [] { RenderLength(ts[1..]); }
  }

  /** Conservation: only the characters of names disappear. */
  lemma OutputLength(s: string)
    ensures |Render(Tokens(s))| + NameChars(Tokens(s)) == |s|
  {
    TokensPartitionText(s);
    RenderLength(Tokens(s));
  }

  // ---- Concatenation ----------------------------------------------------------------------

  lemma {:induction false} RenderConcat(a: seq<Token>, b: seq<Token>)
    ensures Render(a + b) == Render(a) + Render(b)
  {
    if a == [] { assert a + b == b; } else {
      assert (a + b)[1..] == a[1..] + b;
      RenderConcat(a[1..], b);
    }
  }

  lemma {:induction false} BindConcat(a: seq<Token>, b: seq<Token>, index: int, names: map<string, int>)
    requires Settled(a)
    ensures Bind(a + b, index, names) == Bind(b, index + MarkerCount(a), Bind(a, index, names))
  {
    if a == [] { assert a + b == b; } else {
      assert (a + b)[1..] == a[1..] + b;
      var index' := if a[0].Marker? || a[0].Name? then index + 1 else index;
      var names' := if a[0].Name? && Recorded(a[1..]) then names[":" + a[0].name := index + 1] else names;
      BindConcat(a[1..], b, index', names');
    }
  }

  /** The indexes a piece of text contributes move with the placeholders in front of it. */
  function Shift(names: map<string, int>, offset: int): map<string, int> {
    map k | k in names :: names[k] + offset
  }

  lemma ShiftUpdate(earlier: map<string, int>, names: map<string, int>, offset: int, key: string, index: int)
    ensures (earlier + Shift(names, offset))[key := index + offset] == earlier + Shift(names[key := index], offset)
  {
    assert Shift(names[key := index], offset) == Shift(names, offset)[key := index + offset];
  }

  lemma {:induction false} BindShift(ts: seq<Token>, index: int, offset: int, earlier: map<string, int>, names: map<string, int>)
    ensures Bind(ts, index + offset, earlier + Shift(names, offset)) == earlier + Shift(Bind(ts, index, names), offset)
  {
    if ts != [] {
      var index' := if ts[0].Marker? || ts[0].Name? then index + 1 else index;
      var names' := if ts[0].Name? && Recorded(ts[1..]) then names[":" + ts[0].name := index + 1] else names;
      BindShift(ts[1..], index', offset, earlier, names');
      if ts[0].Name? && Recorded(ts[1..]) {
        ShiftUpdate(earlier, names, offset, ":" + ts[0].name, index + 1);
      }
    }
  }

  // ---- Cutting the text where the scanner is settled ----------------------------------------

  lemma {:induction false} FirstQuote(s: string, n: nat)
    requires n < |s| && s[n] == '\'' && (forall i :: 0 <= i < n ==> s[i] != '\'')
    ensures QuoteAt(s) == n
  {
    if n > 0 { FirstQuote(s[1..], n - 1); }
  }

  lemma {:induction false} NameRunIs(s: string, n: nat)
    requires n <= |s| && (forall i :: 0 <= i < n ==> IsNameChar(s[i]))
    requires n < |s| ==> !IsNameChar(s[n])
    ensures NameRun(s) == n
  {
    if n > 0 { NameRunIs(s[1..], n - 1); }
  }

  lemma SettledTail(ts: seq<Token>)
    requires ts != []
    ensures Settled(ts) ==> Settled(ts[1..])
    ensures |ts| > 1 ==> Settled(ts) == Settled(ts[1..])
  {}

  lemma TokensOfLiteral(body: string, rest: string)
    requires '\'' !in body
    ensures Tokens("'" + body + "'" + rest) == [Literal(body, true)] + Tokens(rest)
  {
    var s := "'" + body + "'" + rest;
    assert s[1..] == body + "'" + rest;
    FirstQuote(s[1..], |body|);
    assert s[1..][..|body|] == body && s[|body| + 2..] == rest;
  }

  lemma TokensOfName(name: string, rest: string)
    requires forall i :: 0 <= i < |name| ==> IsNameChar(name[i])
    requires rest != [] ==> !IsNameChar(rest[0])
    ensures Tokens(":" + name + rest) == [Name(name)] + AfterName(rest)
  {
    var s := ":" + name + rest;
    assert s[1..] == name + rest;
    NameRunIs(s[1..], |name|);
    assert s[1..][..|name|] == name && s[1 + |name|..] == rest;
  }

  /** More text behind a complete first token does not change it. */
  lemma HeadConcat(a: string, b: string)
    requires a != [] && !Head(a).OpenLiteral()
    requires Head(a).Name? ==> Width(a) < |a|
    ensures Head(a + b) == Head(a) && Width(a + b) == Width(a)
  {
    var s := a + b;
    assert s[1..] == a[1..] + b;
    if a[0] == '\'' {
      var n := QuoteAt(a[1..]);
      assert forall i :: 0 <= i < n ==> s[1..][i] == a[1..][..n][i];
      FirstQuote(s[1..], n);
      assert s[1..][..n] == a[1..][..n];
    } else if a[0] == ':' {
      var n := NameRun(a[1..]);
      assert forall i :: 0 <= i <= n ==> s[1..][i] == a[1..][i];
      NameRunIs(s[1..], n);
      assert s[1..][..n] == a[1..][..n];
    }
  }

  lemma {:induction false} TokensConcat(a: string, b: string)
    requires Settled(Tokens(a))
    ensures Tokens(a + b) == Tokens(a) + Tokens(b)
    decreases |a|, 1
  {
    if a == [] {
      assert a + b == b;
    } else {
      var rest := a[Width(a)..];
      SettledTail(Tokens(a));
      assert Tokens(a)[0] == Head(a);
      HeadConcat(a, b);
      DropConcat(a, b, Width(a));
      if Head(a).Name? {
        assert Tokens(a)[1..] == AfterName(rest);
        AfterNameConcat(rest, b);
        Assoc([Head(a)], AfterName(rest), Tokens(b));
      } else {
        assert Tokens(a)[1..] == Tokens(rest);
        TokensConcat(rest, b);
        Assoc([Head(a)], Tokens(rest), Tokens(b));
      }
    }
  }

  lemma {:induction false} AfterNameConcat(a: string, b: string)
    requires a != [] && Settled(AfterName(a))
    ensures AfterName(a + b) == AfterName(a) + Tokens(b)
    decreases |a|, 2
  {
    if a[0] == '\'' {
      TokensConcat(a, b);
    } else {
      SettledText(a[0], Tokens(a[1..]));
      TailConcat(a, b);
      TokensConcat(a[1..], b);
      Assoc([Text(a[0])], Tokens(a[1..]), Tokens(b));
    }
  }

  lemma SettledText(c: char, ts: seq<Token>)
    requires Settled([Text(c)] + ts)
    ensures Settled(ts)
  {}

  // ---- What a recorded index means ----------------------------------------------------------

  ghost predicate RecordedAt(ts: seq<Token>, i: nat, key: string) {
    i < |ts| && ts[i].Name? && Recorded(ts[i + 1..]) && ":" + ts[i].name == key
  }

  ghost predicate LastRecordedAt(ts: seq<Token>, i: nat, key: string) {
    RecordedAt(ts, i, key) && forall j: nat :: i < j < |ts| ==> !RecordedAt(ts, j, key)
  }

  lemma {:induction false} MarkerCountConcat(a: seq<Token>, b: seq<Token>)
    ensures MarkerCount(a + b) == MarkerCount(a) + MarkerCount(b)
  {
    if a == [] { assert a + b == b; } else {
      assert (a + b)[1..] == a[1..] + b;
      MarkerCountConcat(a[1..], b);
    }
  }

  lemma {:induction false} BindUntouched(ts: seq<Token>, index: int, names: map<string, int>, key: string)
    requires forall j: nat :: j < |ts| ==> !RecordedAt(ts, j, key)
    ensures key in Bind(ts, index, names) <==> key in names
    ensures key in names ==> Bind(ts, index, names)[key] == names[key]
  {
    if ts != [] {
      var index' := if ts[0].Marker? || ts[0].Name? then index + 1 else index;
      var names' := if ts[0].Name? && Recorded(ts[1..]) then names[":" + ts[0].name := index + 1] else names;
      assert !RecordedAt(ts, 0, key);
      forall j: nat | j < |ts[1..]| ensures !RecordedAt(ts[1..], j, key) {
        assert ts[1..][j + 1..] == ts[j + 2..];
        assert !RecordedAt(ts, j + 1, key);
      }
      BindUntouched(ts[1..], index', names', key);
    }
  }

  lemma {:induction false} BindLast(ts: seq<Token>, i: nat, index: int, names: map<string, int>, key: string)
    requires LastRecordedAt(ts, i, key)
    ensures key in Bind(ts, index, names)
    ensures Bind(ts, index, names)[key] == index + 1 + MarkerCount(ts[..i])
  {
    var index' := if ts[0].Marker? || ts[0].Name? then index + 1 else index;
    var names' := if ts[0].Name? && Recorded(ts[1..]) then names[":" + ts[0].name := index + 1] else names;
    forall j: nat | j < |ts[1..]| ensures RecordedAt(ts[1..], j, key) == RecordedAt(ts, j + 1, key) {
      assert ts[1..][j + 1..] == ts[j + 2..];
    }
    if i == 0 {
      BindUntouched(ts[1..], index', names', key);
    } else {
      BindLast(ts[1..], i - 1, index', names', key);
      assert ts[..i][1..] == ts[1..][..i - 1];
    }
  }

  lemma {:induction false} LastRecordedExists(ts: seq<Token>, i: nat, key: string) returns (k: nat)
    requires RecordedAt(ts, i, key)
    ensures LastRecordedAt(ts, k, key)
    decreases |ts| - i
  {
    if j: nat :| i < j < |ts| && RecordedAt(ts, j, key) {
      k := LastRecordedExists(ts, j, key);
    } else {
      k := i;
    }
  }

  /** The table holds exactly the recorded names, each at the position of its last recording. */
  lemma BindingsAreLastPositions(ts: seq<Token>, key: string)
    ensures key in Bindings(ts) <==> exists i: nat :: LastRecordedAt(ts, i, key)
    ensures forall i: nat :: LastRecordedAt(ts, i, key) ==>
              key in Bindings(ts) && Bindings(ts)[key] == MarkerCount(ts[..i])
  {
    forall i: nat | LastRecordedAt(ts, i, key)
      ensures key in Bindings(ts) && Bindings(ts)[key] == MarkerCount(ts[..i])
    {
      BindLast(ts, i, -1, map[], key);
    }
    if i: nat :| i < |ts| && RecordedAt(ts, i, key) {
      var k := LastRecordedExists(ts, i, key);
    } else {
      BindUntouched(ts, -1, map[], key);
    }
  }

  // ---- Which tokens Tokens can produce --------------------------------------------------------

  /** A question mark or colon is plain text only directly behind a name; literals hold no quote;
      only the last token can be an open literal. */
  ghost predicate WellFormed(ts: seq<Token>) {
    && (forall i :: 0 <= i < |ts| ==> ts[i] != Text('\''))
    && (forall i :: 0 <= i < |ts| && ts[i].Literal? ==> '\'' !in ts[i].body)
    && (forall i :: 0 <= i < |ts| - 1 ==> !ts[i].OpenLiteral())
    && (forall i :: 0 < i < |ts| && (ts[i] == Text(':') || ts[i] == Text('?')) ==> ts[i - 1].Name?)
  }

  ghost predicate PlainHead(ts: seq<Token>) {
    ts != [] ==> ts[0] != Text(':') && ts[0] != Text('?')
  }

  lemma WellFormedCons(t: Token, ts: seq<Token>)
    requires WellFormed(ts) && t != Text('\'') && (t.Literal? ==> '\'' !in t.body && (ts != [] ==> t.closed))
    requires PlainHead(ts) || t.Name?
    ensures WellFormed([t] + ts)
  {
    var us := [t] + ts;
    forall i | 0 <= i < |us| - 1 ensures !us[i].OpenLiteral() {}
    forall i | 0 < i < |us| && (us[i] == Text(':') || us[i] == Text('?')) ensures us[i - 1].Name? {
      assert us[i] == ts[i - 1];
      if i > 1 { assert us[i - 1] == ts[i - 2]; }
    }
  }

  lemma {:induction false} TokensWellFormed(s: string)
    ensures WellFormed(Tokens(s)) && PlainHead(Tokens(s))
    decreases |s|, 1
  {
    if s != [] {
      var rest := s[Width(s)..];
      if Head(s).Name? {
        AfterNameWellFormed(rest);
        WellFormedCons(Head(s), AfterName(rest));
      } else {
        TokensWellFormed(rest);
        WellFormedCons(Head(s), Tokens(rest));
      }
    }
  }

  lemma {:induction false} AfterNameWellFormed(s: string)
    ensures WellFormed(AfterName(s))
    decreases |s|, 2
  {
    if s != [] {
      if s[0] == '\'' { TokensWellFormed(s); } else {
        TokensWellFormed(s[1..]);
        WellFormedCons(Text(s[0]), Tokens(s[1..]));
      }
    }
  }
}
