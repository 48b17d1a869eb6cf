// What holds of the rewriter and the quoter together, and of rewriting twice.

module SqlTheorems {
  import opened CStrings
  import opened Sequences
  import opened SqlTokens
  import opened SqlRewriter
  import opened SqlQuoter

  /** The text the server receives for a statement, without the terminator. */
  function Output(s: string): string { Render(Tokens(s)) }

  /** The table a fresh statement ends up with: the terminator ends a waiting name. */
  function Named(s: string): map<string, int> { Bindings(Tokens(s + [NUL])) }

  // ---- What the rewriter does, told by the characters of the statement --------------------------------

  /** A character of a parameter name. */
  predicate NameCharacter(c: char) {
    || c == '_' || c == '-'
    || ('0' <= c && c <= '9')
    || ('A' <= c && c <= 'Z')
    || ('a' <= c && c <= 'z')
  }

  predicate NameCharacters(name: string) { forall i :: 0 <= i < |name| ==> NameCharacter(name[i]) }

  /** Text behind a point outside literals and names is rewritten as if it stood alone, its parameters
      moved by the placeholders in front of them. */
  lemma SuffixIsRewrittenAlone(prefix: string, suffix: string)
    requires Outside(Run(Start(map[]), prefix))
    ensures Output(prefix + suffix) == Output(prefix) + Output(suffix)
    ensures Named(prefix + suffix) == Named(prefix) + Shift(Named(suffix), MarkerCount(Tokens(prefix)))
  {
    FlagMachineRefinesTokens(prefix, map[]);
    TokensConcat(prefix, suffix);
    RenderConcat(Tokens(prefix), Tokens(suffix));
    NamedBehind(prefix, suffix);
  }

  lemma NamedBehind(prefix: string, suffix: string)
    requires Settled(Tokens(prefix))
    ensures Named(prefix + suffix) == Named(prefix) + Shift(Named(suffix), MarkerCount(Tokens(prefix)))
  {
    TokensConcat(prefix, suffix + [NUL]);
    Assoc(prefix, suffix, [NUL]);
    BindingsConcat(Tokens(prefix), Tokens(suffix + [NUL]));
    NamedWhenSettled(prefix);
  }

  lemma BindingsConcat(p: seq<Token>, q: seq<Token>)
    requires Settled(p)
    ensures Bindings(p + q) == Bindings(p) + Shift(Bindings(q), MarkerCount(p))
  {
    BindConcat(p, q, -1, map[]);
    BindShift(q, -1, MarkerCount(p), Bindings(p), map[]);
    ShiftNothing(Bindings(p), MarkerCount(p));
  }

  lemma ShiftNothing(names: map<string, int>, offset: int)
    ensures names + Shift(map[], offset) == names
  {}

  lemma EmptyStatement()
    ensures Output("") == "" && Named("") == map[]
  {
    TerminatorToken();
    assert "" + [NUL] == [NUL];
  }

  /** A character that is neither a quote, a colon nor a question mark is copied. */
  lemma PlainCharacterIsCopied(c: char, suffix: string)
    requires c != '\'' && c != ':' && c != '?'
    ensures Output([c] + suffix) == [c] + Output(suffix) && Named([c] + suffix) == Named(suffix)
  {
    FirstTokenOf(c, suffix);
    FirstTokenOf(c, suffix + [NUL]);
    Assoc([c], suffix, [NUL]);
  }

  lemma FirstTokenOf(c: char, rest: string)
    requires c != '\'' && c != ':'
    ensures Tokens([c] + rest) == [if c == '?' then Marker else Text(c)] + Tokens(rest)
  {
    assert ([c] + rest)[1..] == rest;
  }

  /** A question mark is copied and counted. */
  lemma QuestionMarkIsCounted(suffix: string)
    ensures Output("?" + suffix) == "?" + Output(suffix) && Named("?" + suffix) == Shift(Named(suffix), 1)
  {
    FirstTokenOf('?', suffix);
    FirstTokenOf('?', suffix + [NUL]);
    Assoc("?", suffix, [NUL]);
    BindFromZero(Tokens(suffix + [NUL]), map[]);
    assert map[] + Shift(Named(suffix), 1) == Shift(Named(suffix), 1);
  }

  lemma BindFromZero(ts: seq<Token>, names: map<string, int>)
    ensures Bind(ts, 0, names) == names + Shift(Bindings(ts), 1)
  {
    BindShift(ts, -1, 1, names, map[]);
    ShiftNothing(names, 1);
  }

  /** A closed literal is copied, whatever is in it. */
  lemma LiteralIsCopied(body: string, suffix: string)
    requires '\'' !in body
    ensures Output("'" + body + "'" + suffix) == "'" + body + "'" + Output(suffix)
    ensures Named("'" + body + "'" + suffix) == Named(suffix)
  {
    TokensOfLiteral(body, suffix);
    TokensOfLiteral(body, suffix + [NUL]);
    Assoc("'" + body + "'", suffix, [NUL]);
  }

  lemma TokensOfOpenLiteral(body: string)
    requires '\'' !in body
    ensures Tokens("'" + body) == [Literal(body, false)]
  {
    var s := "'" + body;
    assert s[1..] == body && QuoteAt(body) == |body|;
    assert body[..|body|] == body && s[|s|..] == [];
  }

  /** A literal that never closes is copied up to the end, and hides every parameter in it. */
  lemma OpenLiteralIsCopied(body: string)
    requires '\'' !in body
    ensures Output("'" + body) == "'" + body && Named("'" + body) == map[]
  {
    TokensOfOpenLiteral(body);
    TokensOfOpenLiteral(body + [NUL]);
    Assoc("'", body, [NUL]);
    RenderOne(Literal(body, false));
    BindOne(Literal(body + [NUL], false), map[]);
  }

  lemma RenderOne(t: Token)
    ensures Render([t]) == RenderToken(t)
  {
    assert [t][1..] == [];
  }

  lemma BindOne(t: Token, names: map<string, int>)
    requires t.Literal? || t.Text?
    ensures forall index :: Bind([t], index, names) == names
  {
    assert [t][1..] == [];
  }

  lemma NameTokens(name: string, rest: string)
    requires NameCharacters(name) && (rest != "" ==> !NameCharacter(rest[0]))
    ensures Tokens(":" + name + rest) == [Name(name)] + AfterName(rest)
  {
    TokensOfName(name, rest);
  }

  lemma FirstName(key: string)
    ensures map[][key := 0] == map[key := 0]
  {}

  lemma NameThenText(name: string, c: char, ts: seq<Token>)
    ensures Render([Name(name)] + ([Text(c)] + ts)) == "?" + [c] + Render(ts)
    ensures Bindings([Name(name)] + ([Text(c)] + ts)) == map[":" + name := 0] + Shift(Bindings(ts), 1)
  {
    var rest := [Text(c)] + ts;
    var all := [Name(name)] + rest;
    assert all[1..] == rest && rest[1..] == ts;
    assert Render(all) == "?" + ([c] + Render(ts));
    BindFromZero(ts, map[":" + name := 0]);
    FirstName(":" + name);
    assert Bindings(all) == Bind(rest, 0, map[":" + name := 0]) == Bind(ts, 0, map[":" + name := 0]);
  }

  /** A colon and the name characters behind it become one question mark, and the name is stored; the
      character that ends it is copied as it is, a colon or a question mark, too. */
  lemma ParameterIsReplaced(name: string, c: char, suffix: string)
    requires NameCharacters(name) && !NameCharacter(c) && c != '\''
    ensures Output(":" + name + ([c] + suffix)) == "?" + [c] + Output(suffix)
    ensures Named(":" + name + ([c] + suffix)) == map[":" + name := 0] + Shift(Named(suffix), 1)
  {
    NameTokens(name, [c] + suffix);
    NameTokens(name, [c] + (suffix + [NUL]));
    Assoc([c], suffix, [NUL]);
    Assoc(":" + name, [c] + suffix, [NUL]);
    assert ([c] + suffix)[1..] == suffix && ([c] + (suffix + [NUL]))[1..] == suffix + [NUL];
    NameThenText(name, c, Tokens(suffix));
    NameThenText(name, c, Tokens(suffix + [NUL]));
  }

  /** A parameter at the end of the statement: the terminator ends the name. */
  lemma LastParameterIsReplaced(name: string)
    requires NameCharacters(name)
    ensures Output(":" + name) == "?" && Named(":" + name) == map[":" + name := 0]
  {
    NameTokens(name, "");
    assert ":" + name + "" == ":" + name;
    RenderOne(Name(name));
    assert [Name(name)] + [] == [Name(name)];
    NameTokens(name, [NUL]);
    assert [NUL][1..] == "" && AfterName([NUL]) == [Text(NUL)] + [];
    NameThenText(name, NUL, []);
    ShiftNothing(map[":" + name := 0], 1);
  }

  lemma NameThenLiteral(name: string, body: string, ts: seq<Token>)
    ensures Render([Name(name)] + ([Literal(body, true)] + ts)) == "?" + ("'" + body + "'") + Render(ts)
    ensures Bindings([Name(name)] + ([Literal(body, true)] + ts)) == map[":" + name := 0] + Shift(Bindings(ts), 1)
  {
    var rest := [Literal(body, true)] + ts;
    var all := [Name(name)] + rest;
    assert all[1..] == rest && rest[1..] == ts;
    assert Render(all) == "?" + (("'" + body + "'") + Render(ts));
    BindFromZero(ts, map[":" + name := 0]);
    FirstName(":" + name);
    assert Bindings(all) == Bind(rest, 0, map[":" + name := 0]) == Bind(ts, 0, map[":" + name := 0]);
  }

  /** A parameter ended by a closed literal is stored when the literal closes. */
  lemma ParameterBeforeLiteral(name: string, body: string, suffix: string)
    requires NameCharacters(name) && '\'' !in body
    ensures Output(":" + name + ("'" + body + "'" + suffix)) == "?" + ("'" + body + "'") + Output(suffix)
    ensures Named(":" + name + ("'" + body + "'" + suffix)) == map[":" + name := 0] + Shift(Named(suffix), 1)
  {
    var literal := "'" + body + "'";
    NameTokens(name, literal + suffix);
    NameTokens(name, literal + (suffix + [NUL]));
    Assoc(literal, suffix, [NUL]);
    Assoc(":" + name, literal + suffix, [NUL]);
    TokensOfLiteral(body, suffix);
    TokensOfLiteral(body, suffix + [NUL]);
    NameThenLiteral(name, body, Tokens(suffix));
    NameThenLiteral(name, body, Tokens(suffix + [NUL]));
  }

  /** A parameter followed by a literal that never closes becomes a question mark but is not stored. */
  lemma ParameterBeforeOpenLiteral(name: string, body: string)
    requires NameCharacters(name) && '\'' !in body
    ensures Output(":" + name + ("'" + body)) == "?" + ("'" + body)
    ensures Named(":" + name + ("'" + body)) == map[]
  {
    NameTokens(name, "'" + body);
    NameTokens(name, "'" + (body + [NUL]));
    Assoc("'", body, [NUL]);
    Assoc(":" + name, "'" + body, [NUL]);
    TokensOfOpenLiteral(body);
    TokensOfOpenLiteral(body + [NUL]);
    NameThenOpen(name, body);
    NameThenOpen(name, body + [NUL]);
  }

  lemma NameThenOpen(name: string, body: string)
    ensures Render([Name(name)] + [Literal(body, false)]) == "?" + ("'" + body)
    ensures Bindings([Name(name)] + [Literal(body, false)]) == map[]
  {
    var rest := [Literal(body, false)];
    var all := [Name(name)] + rest;
    assert all[1..] == rest;
    RenderOne(rest[0]);
    BindOne(rest[0], map[]);
    assert !Recorded(rest) && Bindings(all) == Bind(rest, 0, map[]);
  }

  // ---- A quoted value is opaque -------------------------------------------------------------------

  predicate ClosedLiterals(ts: seq<Token>) {
    forall i :: 0 <= i < |ts| ==> ts[i].Literal? && ts[i].closed
  }

  lemma {:induction false} LiteralsRenderThemselves(ts: seq<Token>)
    requires ClosedLiterals(ts)
    ensures Render(ts) == Source(ts) && MarkerCount(ts) == 0
    ensures forall index, names :: Bind(ts, index, names) == names
  {
    if ts != [] { LiteralsRenderThemselves(ts[1..]); }
  }

  /** Inside an open literal, doubled quotes close it and open the next one. */
  lemma {:induction false} DoubledTextTokens(pre: string, u: string, z: string)
    requires '\'' !in pre && '\'' !in z
    ensures ClosedLiterals(Tokens("'" + (pre + (Doubled(u) + z)) + "'"))
    decreases |u|
  {
    if u == [] {
      assert Doubled(u) + z == z;
      TokensOfLiteral(pre + z, "");
      assert "'" + (pre + z) + "'" + "" == "'" + (pre + z) + "'";
    } else if u[0] == '\'' {
      DoubledTextTokens("", u[1..], z);
      var rest := "'" + ("" + (Doubled(u[1..]) + z)) + "'";
      TokensOfLiteral(pre, rest);
      DoubledQuoteSplits(pre, Doubled(u[1..]), z);
    } else {
      DoubledTextTokens(pre + [u[0]], u[1..], z);
      PlainMoves(pre, u[0], Doubled(u[1..]), z);
    }
  }

  lemma DoubledQuoteSplits(pre: string, d: string, z: string)
    ensures "'" + (pre + (("''" + d) + z)) + "'" == "'" + pre + "'" + ("'" + ("" + (d + z)) + "'")
  {}

  lemma EmptyPrefix(d: string, z: string)
    ensures "'" + ("" + (d + z)) + "'" == "'" + (d + z) + "'"
  {}

  lemma PlainMoves(pre: string, c: char, d: string, z: string)
    ensures pre + (([c] + d) + z) == (pre + [c]) + (d + z)
  {}

  /** The scanner reads a quoted value as closed literals and nothing else. */
  lemma QuotedIsLiterals(v: string)
    ensures ClosedLiterals(Tokens(Quoted(v))) && Tokens(Quoted(v)) != []
    ensures Output(Quoted(v)) == Quoted(v)
  {
    QuotedIsClosed(v);
    TokensPartitionText(Quoted(v));
    LiteralsRenderThemselves(Tokens(Quoted(v)));
  }

  lemma QuotedIsClosed(v: string)
    ensures ClosedLiterals(Tokens(Quoted(v)))
  {
    var d, z := Doubled(v[..UntilNul(v)]), Nuls(|v| - UntilNul(v));
    DoubledTextTokens("", v[..UntilNul(v)], z);
    EmptyPrefix(d, z);
    assert Quoted(v) == "'" + (d + z) + "'";
  }

  /** Behind text that leaves the machine outside literals and names, a quoted value passes through
      untouched, adds no parameter, and moves the suffix's parameters by the prefix's placeholders. */
  lemma QuotedValueIsOpaque(prefix: string, v: string, suffix: string)
    requires Outside(Run(Start(map[]), prefix))
    ensures Output(prefix + Quoted(v) + suffix) == Output(prefix) + Quoted(v) + Output(suffix)
    ensures Named(prefix + Quoted(v) + suffix) ==
              Named(prefix) + Shift(Named(suffix), MarkerCount(Tokens(prefix)))
  {
    FlagMachineRefinesTokens(prefix, map[]);
    QuotedIsLiterals(v);
    LiteralsRenderThemselves(Tokens(Quoted(v)));
    var p, q := Tokens(prefix), Tokens(Quoted(v));
    SplitAround(prefix, Quoted(v), suffix);
    RenderConcat(p + q, Tokens(suffix));
    RenderConcat(p, q);
    NamedAround(prefix, v, suffix);
  }

  lemma SplitAround(prefix: string, middle: string, suffix: string)
    requires Settled(Tokens(prefix)) && Tokens(middle) != [] && ClosedLiterals(Tokens(middle))
    ensures Tokens(prefix + middle + suffix) == (Tokens(prefix) + Tokens(middle)) + Tokens(suffix)
    ensures Settled(Tokens(prefix) + Tokens(middle))
  {
    TokensConcat(prefix, middle);
    TokensConcat(prefix + middle, suffix);
  }

  lemma BindingsAround(p: seq<Token>, q: seq<Token>, r: seq<Token>)
    requires Settled(p) && ClosedLiterals(q) && Settled(p + q)
    ensures Bindings((p + q) + r) == Bindings(p) + Shift(Bindings(r), MarkerCount(p))
  {
    LiteralsRenderThemselves(q);
    BindConcat(p + q, r, -1, map[]);
    BindConcat(p, q, -1, map[]);
    MarkerCountConcat(p, q);
    BindShift(r, -1, MarkerCount(p), Bindings(p), map[]);
    assert Bindings(p) + Shift(map[], MarkerCount(p)) == Bindings(p);
  }

  lemma NamedWhenSettled(prefix: string)
    requires Settled(Tokens(prefix))
    ensures Named(prefix) == Bindings(Tokens(prefix))
  {
    TokensConcat(prefix, [NUL]);
    TerminatorToken();
    BindConcat(Tokens(prefix), [Text(NUL)], -1, map[]);
  }

  lemma TerminatorToken()
    ensures Tokens([NUL]) == [Text(NUL)]
    ensures forall index, names :: Bind([Text(NUL)], index, names) == names
  {
    assert [NUL][1..] == [] && [Text(NUL)][1..] == [];
  }

  lemma NamedAround(prefix: string, v: string, suffix: string)
    requires Settled(Tokens(prefix)) && ClosedLiterals(Tokens(Quoted(v))) && Tokens(Quoted(v)) != []
    ensures Named(prefix + Quoted(v) + suffix) ==
              Named(prefix) + Shift(Named(suffix), MarkerCount(Tokens(prefix)))
  {
    SplitAround(prefix, Quoted(v), suffix + [NUL]);
    Assoc(prefix + Quoted(v), suffix, [NUL]);
    BindingsAround(Tokens(prefix), Tokens(Quoted(v)), Tokens(suffix + [NUL]));
    NamedWhenSettled(prefix);
  }

  // ---- Rewriting twice ----------------------------------------------------------------------------

  lemma {:induction false} RenderIsSource(ts: seq<Token>)
    ensures !HasName(ts) ==> Render(ts) == Source(ts)
    ensures HasName(ts) ==> Render(ts) != Source(ts)
  {
    if ts != [] {
      RenderIsSource(ts[1..]);
      if ts[0].Name? {
        assert Render(ts)[0] == '?' && Source(ts)[0] == ':';
      } else {
        HasNameCons(ts[0], ts[1..]);
        assert [ts[0]] + ts[1..] == ts;
        SamePrefix(RenderToken(ts[0]), Render(ts[1..]), Source(ts[1..]));
      }
    }
  }

  /** A statement is left as it is exactly when it has no named parameter. */
  lemma FixedPoints(t: string)
    ensures Output(t) == t <==> !HasName(Tokens(t))
  {
    TokensPartitionText(t);
    RenderIsSource(Tokens(t));
  }

  lemma {:induction false} NameEndersAreColons(ts: seq<Token>)
    requires WellFormed(ts) && PlainHead(ts)
    ensures HasText(ts, ':') <==> NameEndedBy(ts, ':')
    ensures HasText(ts, '?') <==> NameEndedBy(ts, '?')
  {
    if HasText(ts, ':') { var i :| 0 <= i < |ts| && ts[i] == Text(':'); assert ts[i - 1].Name?; }
    if HasText(ts, '?') { var i :| 0 <= i < |ts| && ts[i] == Text('?'); assert ts[i - 1].Name?; }
  }

  /** What the second pass sees of one token of the first. */
  lemma SecondPassHead(t: Token, rest: string)
    requires t != Text('\'') && (t.Literal? ==> '\'' !in t.body && (t.closed || rest == "")) && t != Text(':')
    ensures Tokens(RenderToken(t) + rest) ==
              [if t.Name? || t == Text('?') then Marker else t] + Tokens(rest)
  {
    var s := RenderToken(t) + rest;
    if t.Literal? {
      if t.closed {
        TokensOfLiteral(t.body, rest);
        assert s == "'" + t.body + "'" + rest;
      } else {
        assert s[1..] == t.body;
        assert s[1..][..|t.body|] == t.body;
      }
    } else {
      assert s[1..] == rest;
    }
  }

  lemma WellFormedTail(ts: seq<Token>)
    requires WellFormed(ts) && ts != []
    ensures WellFormed(ts[1..])
    ensures ts[0].OpenLiteral() ==> ts[1..] == []
  {
    var us := ts[1..];
    forall i | 0 < i < |us| && (us[i] == Text(':') || us[i] == Text('?')) ensures us[i - 1].Name? {
      assert ts[i + 1] == us[i];
    }
    forall i | 0 <= i < |us| - 1 ensures !us[i].OpenLiteral() { assert us[i] == ts[i + 1]; }
  }

  lemma {:induction false} SecondPass(ts: seq<Token>)
    requires WellFormed(ts)
    ensures HasName(Tokens(Render(ts))) <==> HasText(ts, ':')
  {
    if ts == [] {
    } else if ts[0] == Text(':') {
      var s := Render(ts);
      assert s[0] == ':' && Tokens(s)[0].Name?;
    } else {
      WellFormedTail(ts);
      SecondPass(ts[1..]);
      SecondPassHead(ts[0], Render(ts[1..]));
      HasNameCons(if ts[0].Name? || ts[0] == Text('?') then Marker else ts[0], Tokens(Render(ts[1..])));
      assert ts == [ts[0]] + ts[1..];
    }
  }

  lemma HasNameCons(t: Token, ts: seq<Token>)
    ensures HasName([t] + ts) <==> t.Name? || HasName(ts)
  {
    if t.Name? { assert ([t] + ts)[0].Name?; }
    if i :| 0 <= i < |ts| && ts[i].Name? { assert ([t] + ts)[i + 1].Name?; }
  }

  lemma {:induction false} NothingToBind(ts: seq<Token>, index: int, names: map<string, int>)
    requires !HasName(ts)
    ensures Bind(ts, index, names) == names
  {
    if ts != [] {
      assert !ts[0].Name?;
      HasNameCons(ts[0], ts[1..]);
      assert [ts[0]] + ts[1..] == ts;
      NothingToBind(ts[1..], if ts[0].Marker? then index + 1 else index, names);
    }
  }

  /** Rewriting the rewritten text changes nothing exactly when no name is ended by a colon, and
      then the second pass records no names. */
  lemma RewritingIsIdempotentExactly(s: string)
    ensures Output(Output(s)) == Output(s) <==> !NameEndedBy(Tokens(s), ':')
    ensures !NameEndedBy(Tokens(s), ':') ==> Named(Output(s)) == map[]
  {
    TokensWellFormed(s);
    NameEndersAreColons(Tokens(s));
    SecondPass(Tokens(s));
    FixedPoints(Output(s));
    if !NameEndedBy(Tokens(s), ':') {
      var out := Output(s);
      TerminatorIsCopied(s);
      TerminatedHasNoName(s);
      NothingToBind(Tokens(out + [NUL]), -1, map[]);
    }
  }

  lemma TerminatedHasNoName(s: string)
    requires !HasName(Tokens(Output(s)))
    ensures !HasName(Tokens(Output(s) + [NUL]))
  {
    var out := Output(s);
    FixedPoints(out);
    TerminatorIsCopied(out);
    FixedPoints(out + [NUL]);
  }

  /** The smallest statement that shows it: the cast `::` in `a::b`. */
  lemma CastIsRewrittenTwice()
    ensures Output("::b") == "?:b" && Output("?:b") == "??"
    ensures Output(Output("::b")) != Output("::b")
  {
    CastTokens();
    assert [Name(""), Text(':'), Text('b')][1..] == [Text(':'), Text('b')] && [Text(':'), Text('b')][1..] == [Text('b')];
    assert [Text('b')][1..] == [] && [Marker, Name("b")][1..] == [Name("b")] && [Name("b")][1..] == [];
  }

  lemma CastTokens()
    ensures Tokens("::b") == [Name(""), Text(':'), Text('b')]
    ensures Tokens("?:b") == [Marker, Name("b")]
  {
    assert "b"[1..] == "" && ":b"[1..] == "b" && "?:b"[1..] == ":b";
    assert Tokens("b") == [Text('b')];
    TokensOfName("", ":b");
    assert "::b" == ":" + "" + ":b";
    TokensOfName("b", "");
    assert ":b" == ":" + "b" + "";
    assert Tokens("?:b") == [Marker] + Tokens(":b");
  }

  // ---- Where the server finds the placeholders ------------------------------------------------------

  /** Question marks outside literals, as a server that knows only quotes counts them. */
  function ServerMarkers(s: string, inQuote: bool): nat
    decreases |s|
  {
    if s == [] then 0
    else if s[0] == '\'' then ServerMarkers(s[1..], !inQuote)
    else (if !inQuote && s[0] == '?' then 1 else 0) + ServerMarkers(s[1..], inQuote)
  }

  function PlainQuestionMarks(ts: seq<Token>): nat {
    if ts == [] then 0 else (if ts[0] == Text('?') then 1 else 0) + PlainQuestionMarks(ts[1..])
  }

  lemma {:induction false} ServerSkipsBody(body: string, rest: string)
    requires '\'' !in body
    ensures ServerMarkers(body + rest, true) == ServerMarkers(rest, true)
    decreases |body|
  {
    if body == [] { assert body + rest == rest; } else {
      assert body[0] in body && (body + rest)[1..] == body[1..] + rest;
      ServerSkipsBody(body[1..], rest);
    }
  }

  lemma ServerSkipsLiteral(body: string, closed: bool, rest: string)
    requires '\'' !in body && (closed || rest == "")
    ensures ServerMarkers(ShowLiteral(body, closed) + rest, false) == ServerMarkers(rest, false)
  {
    var s := ShowLiteral(body, closed) + rest;
    if closed {
      assert s[1..] == body + ("'" + rest);
      ServerSkipsBody(body, "'" + rest);
      assert ("'" + rest)[1..] == rest;
    } else {
      assert s[1..] == body + "";
      ServerSkipsBody(body, "");
    }
  }

  lemma {:induction false} ServerSeesMarkersAndEnders(ts: seq<Token>)
    requires WellFormed(ts)
    ensures ServerMarkers(Render(ts), false) == MarkerCount(ts) + PlainQuestionMarks(ts)
  {
    if ts != [] {
      WellFormedTail(ts);
      ServerSeesMarkersAndEnders(ts[1..]);
      if ts[0].Literal? {
        ServerSkipsLiteral(ts[0].body, ts[0].closed, Render(ts[1..]));
      } else {
        assert Render(ts)[1..] == Render(ts[1..]);
      }
    }
  }

  lemma {:induction false} NoPlainQuestionMarks(ts: seq<Token>)
    ensures PlainQuestionMarks(ts) == 0 <==> !HasText(ts, '?')
  {
    if ts != [] {
      NoPlainQuestionMarks(ts[1..]);
      assert ts == [ts[0]] + ts[1..];
    }
  }

  lemma WellFormedPrefix(ts: seq<Token>, i: nat)
    requires WellFormed(ts) && i <= |ts|
    ensures WellFormed(ts[..i])
  {}

  /** The index stored for a name is the position at which the server numbers the name's own
      placeholder exactly when no name in front of it is ended by a question mark. */
  lemma StoredIndexIsServerPositionExactly(s: string, i: nat, key: string)
    requires LastRecordedAt(Tokens(s), i, key)
    ensures key in Bindings(Tokens(s))
    ensures Bindings(Tokens(s))[key] == ServerMarkers(Render(Tokens(s)[..i]), false) <==>
              !NameEndedBy(Tokens(s)[..i], '?')
  {
    var ts := Tokens(s);
    TokensWellFormed(s);
    BindingsAreLastPositions(ts, key);
    WellFormedPrefix(ts, i);
    ServerSeesMarkersAndEnders(ts[..i]);
    NoPlainQuestionMarks(ts[..i]);
    NameEndersAreColons(ts[..i]);
  }

  lemma ExampleIndex(ts: seq<Token>)
    requires ts == [Name("a"), Text('?'), Name("b"), Text(NUL)]
    ensures LastRecordedAt(ts, 2, ":b") && MarkerCount(ts[..2]) == 1
  {
    assert ts[3..] == [Text(NUL)];
    assert RecordedAt(ts, 2, ":b");
    var front := ts[..2];
    assert front[1..] == [Text('?')] && front[1..][1..] == [];
    assert MarkerCount(front[1..]) == 0;
  }

  lemma ExampleServer()
    ensures ServerMarkers(Render([Name("a"), Text('?')]), false) == 2
  {
    var front := [Name("a"), Text('?')];
    assert front[1..] == [Text('?')] && front[1..][1..] == [];
    assert Render(front[1..]) == "?" && Render(front) == "??";
    assert "??"[1..] == "?" && "?"[1..] == "";
  }

  /** In `:a?:b` the name b is stored at position 1, but two question marks come before its own. */
  lemma StoredIndexCanBeWrong()
    ensures var ts := Tokens(":a?:b" + [NUL]);
            && LastRecordedAt(ts, 2, ":b")
            && ":b" in Bindings(ts) && Bindings(ts)[":b"] == 1
            && ServerMarkers(Render(ts[..2]), false) == 2
  {
    ExampleTokens();
    var ts := Tokens(":a?:b" + [NUL]);
    ExampleIndex(ts);
    BindLast(ts, 2, -1, map[], ":b");
    assert ts[..2] == [Name("a"), Text('?')];
    ExampleServer();
  }

  lemma NameThenCharacter(a: string, c: char, rest: string)
    requires NameCharacters(a) && !NameCharacter(c) && c != '\''
    ensures Tokens(":" + a + ([c] + rest)) == [Name(a)] + ([Text(c)] + Tokens(rest))
  {
    NameTokens(a, [c] + rest);
    assert ([c] + rest)[1..] == rest;
  }

  lemma TwoNames(a: string, c: char, b: string, d: char)
    requires NameCharacters(a) && NameCharacters(b) && !NameCharacter(c) && c != '\'' && !NameCharacter(d) && d != '\''
    ensures Tokens(":" + a + ([c] + (":" + b + [d]))) == [Name(a), Text(c), Name(b), Text(d)]
  {
    assert [d] + "" == [d];
    NameThenCharacter(b, d, "");
    NameThenCharacter(a, c, ":" + b + [d]);
  }

  lemma ExampleTokens()
    ensures Tokens(":a?:b" + [NUL]) == [Name("a"), Text('?'), Name("b"), Text(NUL)]
  {
    TwoNames("a", '?', "b", NUL);
    ExampleText();
  }

  lemma ExampleText()
    ensures ":a?:b" + [NUL] == ":" + "a" + (['?'] + (":" + "b" + [NUL]))
  {}
}
