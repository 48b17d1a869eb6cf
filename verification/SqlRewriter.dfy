// The flag machine of nuodb_alloc_prepare_stmt, its refinement of the token view, and the method
// itself over C buffers.

module SqlRewriter {
  import opened CStrings
  import opened Sequences
  import opened SqlTokens

  const MAX_SQL_LENGTH := 0x100000
  const NAME_BUFFER := 64

  /** The machine's flags and buffers.  `pname` is the colon and the name characters read so far. */
  datatype Scanner = Scanner(inQuote: bool, inParam: bool, pindex: int,
                             out: string, pname: string, names: map<string, int>)

  function Step(st: Scanner, c: char): Scanner {
    var inQuote := st.inQuote != (c == '\'');
    if inQuote then st.(inQuote := true, out := st.out + [c])
    else if !st.inParam then
      if c == ':' then
        st.(inQuote := false, inParam := true, pname := ":", out := st.out + "?", pindex := st.pindex + 1)
      else if c == '?' then st.(inQuote := false, out := st.out + "?", pindex := st.pindex + 1)
      else st.(inQuote := false, out := st.out + [c])
    else if IsNameChar(c) then st.(inQuote := false, pname := st.pname + [c])
    else st.(inQuote := false, inParam := false, out := st.out + [c],
             names := st.names[st.pname := st.pindex])
  }

  function Run(st: Scanner, s: string): Scanner
    decreases |s|
  {
    if s == [] then st else Run(Step(st, s[0]), s[1..])
  }

  function Start(names: map<string, int>): Scanner {
    Scanner(false, false, -1, "", "", names)
  }

  predicate Outside(st: Scanner) { !st.inQuote && !st.inParam }

  /** The character c writes nothing behind the end of the name buffer. */
  predicate Fits(st: Scanner, c: char) {
    st.inParam && st.inQuote == (c == '\'') ==> |st.pname| < NAME_BUFFER
  }

  predicate RunFits(st: Scanner, s: string)
    decreases |s|
  {
    s == [] || (Fits(st, s[0]) && RunFits(Step(st, s[0]), s[1..]))
  }

  lemma {:induction false} RunConcat(st: Scanner, a: string, b: string)
    ensures Run(st, a + b) == Run(Run(st, a), b)
    decreases |a|
  {
    if a == [] { assert a + b == b; } else {
      assert (a + b)[1..] == a[1..] + b;
      RunConcat(Step(st, a[0]), a[1..], b);
    }
  }

  // ---- The machine inside a literal and inside a name ------------------------------------------

  lemma {:induction false} RunLiteral(st: Scanner, s: string, n: nat)
    requires st.inQuote && n <= |s| && '\'' !in s[..n]
    ensures Run(st, s) == Run(st.(out := st.out + s[..n]), s[n..])
    ensures RunFits(st, s) == RunFits(st.(out := st.out + s[..n]), s[n..])
    decreases n
  {
    if n == 0 {
      assert s[n..] == s && st.out + s[..n] == st.out;
    } else {
      assert s[0] == s[..n][0] && s[1..][..n - 1] == s[..n][1..];
      RunLiteral(Step(st, s[0]), s[1..], n - 1);
      assert st.out + s[..n] == st.out + [s[0]] + s[1..][..n - 1];
      assert s[1..][n - 1..] == s[n..];
    }
  }

  lemma {:induction false} RunName(st: Scanner, s: string, n: nat)
    requires st.inParam && !st.inQuote && n <= |s| && (forall i :: 0 <= i < n ==> IsNameChar(s[i]))
    ensures Run(st, s) == Run(st.(pname := st.pname + s[..n]), s[n..])
    ensures RunFits(st, s) <==>
              (n > 0 ==> |st.pname| + n <= NAME_BUFFER) && RunFits(st.(pname := st.pname + s[..n]), s[n..])
    decreases n
  {
    if n == 0 {
      assert s[n..] == s && st.pname + s[..n] == st.pname;
    } else {
      RunName(Step(st, s[0]), s[1..], n - 1);
      assert st.pname + s[..n] == st.pname + [s[0]] + s[1..][..n - 1];
      assert s[1..][n - 1..] == s[n..];
    }
  }

  /** A literal is copied whole; when it closes, a name waiting in front of it is recorded. */
  function PassLiteral(st: Scanner, t: Token): Scanner
    requires t.Literal?
  {
    st.(inQuote := !t.closed, inParam := st.inParam && !t.closed, out := st.out + RenderToken(t),
        names := if st.inParam && t.closed then st.names[st.pname := st.pindex] else st.names)
  }

  lemma Opened(st: Scanner, body: string)
    requires !st.inQuote
    ensures Step(st, '\'').(out := Step(st, '\'').out + body) == PassLiteral(st, Literal(body, false))
  {
    assert st.out + "'" + body == st.out + ShowLiteral(body, false);
  }

  lemma Closed(st: Scanner, body: string)
    requires !st.inQuote
    ensures Step(PassLiteral(st, Literal(body, false)), '\'') == PassLiteral(st, Literal(body, true))
  {
    assert st.out + ShowLiteral(body, false) + "'" == st.out + ShowLiteral(body, true);
  }

  lemma RunPassesLiteral(st: Scanner, s: string)
    requires !st.inQuote && s != [] && s[0] == '\''
    ensures Run(st, s) == Run(PassLiteral(st, Head(s)), s[Width(s)..])
    ensures RunFits(st, s) <==>
              (st.inParam && Head(s).closed ==> |st.pname| < NAME_BUFFER) &&
              RunFits(PassLiteral(st, Head(s)), s[Width(s)..])
  {
    var n := QuoteAt(s[1..]);
    var body, left := s[1..][..n], s[1..][n..];
    RunLiteral(Step(st, s[0]), s[1..], n);
    Opened(st, body);
    if n < |s| - 1 {
      assert left[0] == '\'' && left[1..] == s[Width(s)..];
      Closed(st, body);
    } else {
      assert left == [] && s[Width(s)..] == [];
    }
  }

  // ---- Refinement ------------------------------------------------------------------------------

  /** One complete run from outside, told by the tokens. */
  ghost predicate Agrees(st: Scanner, s: string) {
    var ts := Tokens(s);
    var end := Run(st, s);
    && end.out == st.out + Render(ts)
    && end.names == Bind(ts, st.pindex, st.names)
    && end.pindex == st.pindex + MarkerCount(ts)
    && (Outside(end) <==> Settled(ts))
  }

  /** The same for the text behind a name, whose recording is still due. */
  ghost predicate AgreesAfterName(st: Scanner, s: string) {
    var ts := AfterName(s);
    var end := Run(st, s);
    && end.out == st.out + Render(ts)
    && end.names == Bind(ts, st.pindex, if Recorded(ts) then st.names[st.pname := st.pindex] else st.names)
    && end.pindex == st.pindex + MarkerCount(ts)
    && (Outside(end) <==> ts != [] && Settled(ts))
  }

  lemma {:induction false} RunAgrees(st: Scanner, s: string)
    requires Outside(st)
    ensures Agrees(st, s)
    decreases |s|, 1
  {
    if s != [] {
      var rest := s[Width(s)..];
      if s[0] == '\'' {
        RunAgreesLiteral(st, s);
      } else if s[0] == ':' {
        RunAgreesName(st, s);
      } else {
        RunAgrees(Step(st, s[0]), rest);
        PlainCons(st, s[0], Head(s), Tokens(rest));
      }
    }
  }

  /** A marker or a plain character outside names is one step. */
  lemma PlainCons(st: Scanner, c: char, t: Token, ts: seq<Token>)
    requires Outside(st) && c != '\'' && c != ':' && t == if c == '?' then Marker else Text(c)
    ensures st.out + Render([t] + ts) == Step(st, c).out + Render(ts)
    ensures MarkerCount([t] + ts) == Step(st, c).pindex - st.pindex + MarkerCount(ts)
    ensures Bind([t] + ts, st.pindex, st.names) == Bind(ts, Step(st, c).pindex, Step(st, c).names)
    ensures Settled([t] + ts) == Settled(ts)
  {
    assert ([t] + ts)[1..] == ts;
    SettledCons(t, ts);
    Assoc(st.out, [c], Render(ts));
  }

  lemma {:induction false} RunAgreesName(st: Scanner, s: string)
    requires Outside(st) && s != [] && s[0] == ':'
    ensures Agrees(st, s)
    decreases |s|, 0
  {
    var n := NameRun(s[1..]);
    var rest := s[Width(s)..];
    var st1 := Step(st, s[0]);
    RunName(st1, s[1..], n);
    assert s[1..][n..] == rest;
    var st2 := st1.(pname := ":" + s[1..][..n]);
    RunAgreesAfterName(st2, rest);
    NameCons(st, st2, Head(s), AfterName(rest));
    SettledCons(Head(s), AfterName(rest));
  }

  /** A name is one question mark; its recording waits for what follows. */
  lemma NameCons(st: Scanner, st2: Scanner, t: Token, ts: seq<Token>)
    requires t.Name? && st2 == st.(inParam := true, pname := ":" + t.name, out := st.out + "?", pindex := st.pindex + 1)
    ensures st.out + Render([t] + ts) == st2.out + Render(ts)
    ensures MarkerCount([t] + ts) == 1 + MarkerCount(ts)
    ensures Bind([t] + ts, st.pindex, st.names) ==
              Bind(ts, st2.pindex, if Recorded(ts) then st2.names[st2.pname := st2.pindex] else st2.names)
  {
    assert ([t] + ts)[1..] == ts;
    Assoc(st.out, "?", Render(ts));
  }

  lemma SettledCons(t: Token, ts: seq<Token>)
    ensures ts != [] ==> Settled([t] + ts) == Settled(ts)
    ensures ts == [] ==> Settled([t] + ts) == (!t.Name? && !t.OpenLiteral())
  {}

  lemma LiteralCons(st: Scanner, t: Token, ts: seq<Token>, index: int, names: map<string, int>)
    requires t.Literal? && (ts == [] || t.closed)
    ensures st.out + Render([t] + ts) == PassLiteral(st, t).out + Render(ts)
    ensures Bind([t] + ts, index, names) == Bind(ts, index, names)
    ensures MarkerCount([t] + ts) == MarkerCount(ts)
    ensures Settled([t] + ts) == (t.closed && Settled(ts))
    ensures Recorded([t] + ts) == t.closed
  {
    SettledCons(t, ts);
    assert ([t] + ts)[1..] == ts;
    Assoc(st.out, RenderToken(t), Render(ts));
  }

  lemma {:induction false} RunAgreesLiteral(st: Scanner, s: string)
    requires Outside(st) && s != [] && s[0] == '\''
    ensures Agrees(st, s)
    decreases |s|, 0
  {
    var rest := s[Width(s)..];
    RunPassesLiteral(st, s);
    LiteralCons(st, Head(s), Tokens(rest), st.pindex, st.names);
    if Head(s).closed { RunAgrees(PassLiteral(st, Head(s)), rest); }
    assert Tokens(s) == [Head(s)] + Tokens(rest);
  }

  lemma {:induction false} RunAgreesAfterName(st: Scanner, s: string)
    requires st.inParam && !st.inQuote && (s != [] ==> !IsNameChar(s[0]))
    ensures AgreesAfterName(st, s)
    decreases |s|, 1
  {
    if s != [] {
      if s[0] == '\'' {
        RunAgreesNameLiteral(st, s);
      } else {
        RunAgrees(Step(st, s[0]), s[1..]);
        SettledCons(Text(s[0]), Tokens(s[1..]));
      }
    }
  }

  lemma {:induction false} RunAgreesNameLiteral(st: Scanner, s: string)
    requires st.inParam && !st.inQuote && s != [] && s[0] == '\''
    ensures AgreesAfterName(st, s)
    decreases |s|, 0
  {
    var rest := s[Width(s)..];
    RunPassesLiteral(st, s);
    LiteralCons(st, Head(s), Tokens(rest), st.pindex, PassLiteral(st, Head(s)).names);
    if Head(s).closed { RunAgrees(PassLiteral(st, Head(s)), rest); }
    assert Tokens(s) == [Head(s)] + Tokens(rest);
  }

  // ---- When the name buffer is large enough ------------------------------------------------------

  lemma NamesFitCons(t: Token, ts: seq<Token>)
    ensures NamesFit([t] + ts) <==> (t.Name? ==> |t.name| <= if Recorded(ts) then 62 else 63) && NamesFit(ts)
  {
    assert ([t] + ts)[1..] == ts;
  }

  lemma {:induction false} BufferSuffices(st: Scanner, s: string)
    requires Outside(st)
    ensures RunFits(st, s) <==> NamesFit(Tokens(s))
    decreases |s|, 1
  {
    if s != [] {
      var rest := s[Width(s)..];
      if s[0] == '\'' {
        RunPassesLiteral(st, s);
        NamesFitCons(Head(s), Tokens(rest));
        if Head(s).closed { BufferSuffices(PassLiteral(st, Head(s)), rest); }
      } else if s[0] == ':' {
        var n := NameRun(s[1..]);
        var st1 := Step(st, s[0]);
        RunName(st1, s[1..], n);
        assert s[1..][n..] == rest;
        NamesFitCons(Head(s), AfterName(rest));
        if n <= 63 { BufferSufficesAfterName(st1.(pname := ":" + s[1..][..n]), rest); }
      } else {
        NamesFitCons(Head(s), Tokens(rest));
        BufferSuffices(Step(st, s[0]), rest);
      }
    }
  }

  lemma {:induction false} BufferSufficesAfterName(st: Scanner, s: string)
    requires st.inParam && !st.inQuote && (s != [] ==> !IsNameChar(s[0])) && |st.pname| <= NAME_BUFFER
    ensures RunFits(st, s) <==>
              (Recorded(AfterName(s)) ==> |st.pname| < NAME_BUFFER) && NamesFit(AfterName(s))
    decreases |s|, 1
  {
    if s != [] {
      if s[0] == '\'' {
        var rest := s[Width(s)..];
        RunPassesLiteral(st, s);
        NamesFitCons(Head(s), Tokens(rest));
        if Head(s).closed { BufferSuffices(PassLiteral(st, Head(s)), rest); }
      } else {
        NamesFitCons(Text(s[0]), Tokens(s[1..]));
        BufferSuffices(Step(st, s[0]), s[1..]);
      }
    }
  }

  /** A name of 63 characters that is ended overruns the buffer; unended it just fits. */
  lemma LongNameOverruns()
    ensures !RunFits(Start(map[]), ":" + seq(63, _ => 'a') + [NUL])
    ensures RunFits(Start(map[]), ":" + seq(63, _ => 'a'))
  {
    var name := seq(63, _ => 'a');
    TokensOfName(name, [NUL]);
    TokensOfName(name, "");
    assert ":" + name + "" == ":" + name;
    BufferSuffices(Start(map[]), ":" + name + [NUL]);
    BufferSuffices(Start(map[]), ":" + name);
    NamesFitCons(Name(name), AfterName([NUL]));
    NamesFitCons(Name(name), AfterName(""));
  }

  // ---- Main statements about the machine ---------------------------------------------------------

  /** The one-pass machine computes exactly what splitting into tokens and substituting gives, and
      its name buffer is large enough exactly when no name is longer than 62 characters, or 63 when
      only an open literal or nothing follows. */
  lemma FlagMachineRefinesTokens(s: string, names: map<string, int>)
    ensures Run(Start(names), s).out == Render(Tokens(s))
    ensures Run(Start(names), s).names == Bind(Tokens(s), -1, names)
    ensures Run(Start(names), s).pindex == MarkerCount(Tokens(s)) - 1
    ensures Outside(Run(Start(names), s)) <==> Settled(Tokens(s))
    ensures RunFits(Start(names), s) <==> NamesFit(Tokens(s))
  {
    RunAgrees(Start(names), s);
    BufferSuffices(Start(names), s);
  }

  /** Reading never falls behind writing: a prefix of the text yields no longer a prefix of output. */
  lemma {:induction false} WritesAtMostOnePerCharacter(st: Scanner, s: string, l: nat)
    requires l <= |s|
    ensures |st.out| <= |Run(st, s[..l]).out| <= |st.out| + l
    ensures Run(st, s[..l]).out <= Run(st, s).out
    decreases l
  {
    assert s == s[..l] + s[l..];
    RunConcat(st, s[..l], s[l..]);
    OutputGrows(Run(st, s[..l]), s[l..]);
    if l > 0 {
      assert s[..l][0] == s[0] && s[..l][1..] == s[1..][..l - 1];
      WritesAtMostOnePerCharacter(Step(st, s[0]), s[1..], l - 1);
    }
  }

  lemma {:induction false} OutputGrows(st: Scanner, s: string)
    ensures st.out <= Run(st, s).out
    decreases |s|
  {
    if s != [] { OutputGrows(Step(st, s[0]), s[1..]); }
  }

  lemma OutputOf(s: string)
    ensures Run(Start(map[]), s).out == Render(Tokens(s))
    ensures Run(Start(map[]), s).pindex == MarkerCount(Tokens(s)) - 1
  {
    RunAgrees(Start(map[]), s);
  }

  lemma OneStep(st: Scanner, c: char)
    ensures Run(st, [c]) == Step(st, c)
  {
    assert [c][1..] == [];
  }

  /** The terminator is plain text, so it is always copied and ends a waiting name. */
  lemma TerminatorIsCopied(s: string)
    ensures Render(Tokens(s + [NUL])) == Render(Tokens(s)) + [NUL]
    ensures MarkerCount(Tokens(s + [NUL])) == MarkerCount(Tokens(s))
  {
    RunConcat(Start(map[]), s, [NUL]);
    OneStep(Run(Start(map[]), s), NUL);
    OutputOf(s);
    OutputOf(s + [NUL]);
  }

  // ---- The method ------------------------------------------------------------------------------

  /** The statement's table of named parameters. */
  class NameTable {
    var entries: map<string, int>
    constructor () ensures entries == map[] { entries := map[]; }
  }

  lemma Advance(st: Scanner, text: string, l: nat)
    requires l < |text|
    ensures Run(st, text[l..]) == Run(Step(st, text[l]), text[l + 1..])
    ensures RunFits(st, text[l..]) <==> Fits(st, text[l]) && RunFits(Step(st, text[l]), text[l + 1..])
  {
    assert text[l..][0] == text[l] && text[l..][1..] == text[l + 1..];
  }

  /** The rewriter's local variables while it walks over the text. */
  class RewriterState {
    const newSql: array<char>
    const pname: array<char>
    const namedParams: NameTable?
    var inQuote: bool
    var inParam: bool
    var c: nat
    var p: nat
    var pindex: int
    ghost var st: Scanner

    ghost predicate Valid()
      reads this, newSql, pname, namedParams
    {
      && newSql != pname && pname.Length == NAME_BUFFER
      && st.inQuote == inQuote && st.inParam == inParam && st.pindex == pindex
      && Holds(newSql, c, st.out)
      && (inParam ==> Holds(pname, p, st.pname))
      && (namedParams != null ==> namedParams.entries == st.names)
    }

    constructor (size: nat, namedParams: NameTable?)
      ensures Valid() && fresh(newSql) && fresh(pname) && newSql.Length == size && this.namedParams == namedParams
      ensures st == Start(if namedParams == null then map[] else namedParams.entries)
    {
      newSql := new char[size];
      pname := new char[NAME_BUFFER];
      this.namedParams := namedParams;
      inQuote, inParam, c, p, pindex := false, false, 0, 0, -1;
      st := Start(if namedParams == null then map[] else namedParams.entries);
    }

    method Emit(ch: char)
      requires c < newSql.Length && newSql != pname
      modifies this`c, newSql
      ensures c == old(c) + 1
      ensures forall s: string :: old(Holds(newSql, c, s)) ==> Holds(newSql, c, s + [ch])
    {
      newSql[c] := ch;
      c := c + 1;
    }

    /** From l on the text still leads to `end`, and overruns the name buffer or does not as `fits` says. */
    ghost predicate Leads(text: string, l: nat, end: Scanner, fits: bool)
      reads this
    {
      l <= |text| && Run(st, text[l..]) == end && RunFits(st, text[l..]) == fits
    }

    /** What one character does.  Where the C code would write behind the name buffer, nothing is
        written and `ok` is false. */
    method Feed(ch: char) returns (ok: bool)
      requires Valid() && c < newSql.Length
      modifies this, newSql, pname, namedParams
      ensures ok <==> old(Fits(st, ch))
      ensures ok ==> Valid() && st == Step(old(st), ch) && c <= old(c) + 1
    {
      ghost var next := Step(st, ch);
      inQuote := inQuote != (ch == '\'');
      if !inQuote {
        if !inParam {
          if ch == ':' || ch == '?' {
            if ch == ':' {
              inParam := true;
              pname[0] := ch;
              p := 1;
            }
            Emit('?');
            pindex := pindex + 1;
            st := next;
            return true;
          }
        } else {
          if p == NAME_BUFFER { return false; }
          inParam := IsNameChar(ch);
          if inParam {
            pname[p] := ch;
            p := p + 1;
            st := next;
            return true;
          } else {
            EndName();
          }
        }
      }
      Emit(ch);
      st := next;
      return true;
    }

    /** Terminates the name in the buffer and stores its index in the table. */
    method EndName()
      requires pname.Length == NAME_BUFFER && p < NAME_BUFFER && newSql != pname && Holds(pname, p, st.pname)
      modifies this`p, pname, namedParams
      ensures namedParams != null ==> namedParams.entries == old(namedParams.entries)[st.pname := pindex]
    {
      pname[p] := NUL;
      p := p + 1;
      if namedParams != null {
        assert pname[..p - 1] == st.pname;
        namedParams.entries := namedParams.entries[pname[..p - 1] := pindex];
      }
    }

    /** One turn of the loop. */
    method Turn(ch: char, ghost text: string, ghost l: nat, ghost end: Scanner, ghost fits: bool) returns (ok: bool)
      requires Valid() && l < |text| && text[l] == ch && Leads(text, l, end, fits) && c < newSql.Length
      modifies this, newSql, pname, namedParams
      ensures ok ==> Valid() && Leads(text, l + 1, end, fits) && c <= old(c) + 1
      ensures !ok ==> !fits
    {
      Advance(st, text, l);
      ok := Feed(ch);
    }

    /** The loop. */
    method Walk(sql: array<char>, sqlLen: nat, ghost text: string) returns (overrun: bool)
      requires Valid() && c == 0 && sqlLen + 1 == newSql.Length && sql != newSql && sql != pname
      requires |text| == sqlLen + 1 && Holds(sql, sqlLen + 1, text)
      modifies this, newSql, pname, namedParams
      ensures overrun <==> !RunFits(old(st), text)
      ensures !overrun ==> Valid() && st == Run(old(st), text) && c <= sqlLen + 1
    {
      ghost var end, fits := Run(st, text), RunFits(st, text);
      assert text[0..] == text;
      var l := 0;
      while l <= sqlLen
        invariant 0 <= l <= sqlLen + 1 && c <= l && Holds(sql, sqlLen + 1, text)
        invariant Valid() && Leads(text, l, end, fits)
      {
        var ok := Turn(sql[l], text, l, end, fits);
        if !ok { return true; }
        l := l + 1;
      }
      assert text[l..] == [];
      return false;
    }
  }

  /** Rewrites the statement text, terminator included.  It stops, with `overrun` set, in front of the
      first write behind the name buffer. */
  method RewriteText(sql: array<char>, sqlLen: nat, namedParams: NameTable?)
    returns (overrun: bool, newSql: array<char>, used: nat)
    requires sqlLen < sql.Length && sql[sqlLen] == NUL
    modifies namedParams
    ensures overrun <==> !NamesFit(Tokens(sql[..sqlLen + 1]))
    ensures fresh(newSql) && newSql.Length == sqlLen + 1 && used <= sqlLen + 1
    ensures !overrun ==> newSql[..used] == Render(Tokens(sql[..sqlLen + 1]))
    ensures !overrun && namedParams != null ==>
              namedParams.entries == Bind(Tokens(sql[..sqlLen + 1]), -1, old(namedParams.entries))
  {
    ghost var text := sql[..sqlLen + 1];
    FlagMachineRefinesTokens(text, if namedParams == null then map[] else namedParams.entries);
    var r := new RewriterState(sqlLen + 1, namedParams);
    overrun := r.Walk(sql, sqlLen, text);
    newSql := r.newSql;
    used := if overrun then 0 else r.c;
    assert !overrun ==> newSql[..used] == r.st.out;
  }

  /** Too long a text is refused; a name too long for its buffer is not noticed by the C code. */
  datatype Outcome = Refused | Overrun | Rewritten

  class PdoHandle {
    var errorCode: string
    var autoCommit: bool
    var inTxn: bool

    constructor (autoCommit: bool)
      ensures this.autoCommit == autoCommit && !inTxn && errorCode == "00000"
    {
      this.autoCommit, inTxn, errorCode := autoCommit, false, "00000";
    }

    /** The text part of preparing a statement: the first `used` characters of `newSql` are handed
        to the server and end with the terminator. */
    method PrepareText(sql: array<char>, sqlLen: nat, namedParams: NameTable?)
      returns (outcome: Outcome, newSql: array<char>, used: nat)
      requires sqlLen < sql.Length && sql[sqlLen] == NUL
      modifies this, namedParams
      ensures outcome.Refused? <==> sqlLen > 0x100000
      ensures outcome.Overrun? <==> sqlLen <= 0x100000 && !NamesFit(Tokens(sql[..sqlLen + 1]))
      ensures autoCommit == old(autoCommit)
      ensures errorCode == if outcome.Refused? then "01004" else old(errorCode)
      ensures inTxn == (old(inTxn) || (!outcome.Refused? && autoCommit))
      ensures outcome.Refused? && namedParams != null ==> namedParams.entries == old(namedParams.entries)
      ensures outcome.Rewritten? ==>
                && newSql.Length == sqlLen + 1 && 0 < used <= sqlLen + 1
                && newSql[..used] == Render(Tokens(sql[..sqlLen])) + [NUL]
                && used + NameChars(Tokens(sql[..sqlLen + 1])) == sqlLen + 1
      ensures outcome.Rewritten? && namedParams != null ==>
                namedParams.entries == Bind(Tokens(sql[..sqlLen + 1]), -1, old(namedParams.entries))
    {
      if sqlLen > MAX_SQL_LENGTH {
        errorCode := "01004";
        newSql := new char[0];
        return Refused, newSql, 0;
      }
      if autoCommit && !inTxn {
        inTxn := true;
      }
      ghost var text := sql[..sqlLen];
      assert sql[..sqlLen + 1] == text + [NUL];
      var overrun;
      overrun, newSql, used := RewriteText(sql, sqlLen, namedParams);
      outcome := if overrun then Overrun else Rewritten;
      OutputLength(text + [NUL]);
      TerminatorIsCopied(text);
    }
  }
}
