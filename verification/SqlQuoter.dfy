// nuodb_handle_quoter: putting a value between single quotes, every quote in it doubled.

module SqlQuoter {
  import opened CStrings
  import opened Options
  import opened Sequences

  function Doubled(u: string): string {
    if u == [] then "" else (if u[0] == '\'' then "''" else [u[0]]) + Doubled(u[1..])
  }

  function QuoteCount(u: string): nat {
    if u == [] then 0 else (if u[0] == '\'' then 1 else 0) + QuoteCount(u[1..])
  }

  /** Characters behind a NUL are replaced by NULs. */
  function Quoted(v: string): string {
    var k := UntilNul(v);
    "'" + (Doubled(v[..k]) + Nuls(|v| - k)) + "'"
  }

  /** Reading an SQL literal back: outer quotes off, doubled quotes made single. */
  function Unquoted(q: string): Option<string> {
    if |q| < 2 || q[0] != '\'' || q[|q| - 1] != '\'' then None
    else Undoubled(q[1..|q| - 1])
  }

  function Undoubled(s: string): Option<string> {
    if s == [] then Some("")
    else if s[0] != '\'' then Prepend(s[0], Undoubled(s[1..]))
    else if |s| > 1 && s[1] == '\'' then Prepend('\'', Undoubled(s[2..]))
    else None
  }

  // ---- Doubling --------------------------------------------------------------------------------

  lemma {:induction false} DoubledConcat(a: string, b: string)
    ensures Doubled(a + b) == Doubled(a) + Doubled(b)
    ensures QuoteCount(a + b) == QuoteCount(a) + QuoteCount(b)
  {
    if a == [] { assert a + b == b; } else {
      assert (a + b)[1..] == a[1..] + b;
      DoubledConcat(a[1..], b);
    }
  }

  lemma {:induction false} DoubledLength(u: string)
    ensures |Doubled(u)| == |u| + QuoteCount(u)
  {
    if u != [] { DoubledLength(u[1..]); }
  }

  lemma {:induction false} DoubledWithoutQuotes(u: string)
    requires '\'' !in u
    ensures Doubled(u) == u && QuoteCount(u) == 0
  {
    if u != [] { DoubledWithoutQuotes(u[1..]); }
  }

  lemma {:induction false} UndoubledPlain(z: string)
    requires '\'' !in z
    ensures Undoubled(z) == Some(z)
  {
    if z != [] {
      UndoubledPlain(z[1..]);
      assert z[0] in z && [z[0]] + z[1..] == z;
    }
  }

  lemma {:induction false} UndoubleDoubled(u: string, z: string)
    requires '\'' !in z
    ensures Undoubled(Doubled(u) + z) == Some(u + z)
  {
    if u == [] {
      UndoubledPlain(z);
      assert Doubled(u) + z == z && u + z == z;
    } else {
      UndoubleDoubled(u[1..], z);
      var rest := Doubled(u[1..]) + z;
      UndoubledFirst(u[0], rest);
      Assoc(if u[0] == '\'' then "''" else [u[0]], Doubled(u[1..]), z);
      Uncons(u, z);
    }
  }

  lemma UndoubledFirst(c: char, rest: string)
    ensures Undoubled((if c == '\'' then "''" else [c]) + rest) == Prepend(c, Undoubled(rest))
  {
    if c == '\'' {
      assert ("''" + rest)[2..] == rest;
    } else {
      assert ([c] + rest)[1..] == rest;
    }
  }

  lemma UnquotedBetweenQuotes(inner: string)
    ensures Unquoted("'" + inner + "'") == Undoubled(inner)
  {
    var q := "'" + inner + "'";
    assert q[1..|q| - 1] == inner;
  }

  /** What reading the literal back gives. */
  function ReadBack(v: string): string { v[..UntilNul(v)] + Nuls(|v| - UntilNul(v)) }

  lemma UnquotedQuoted(v: string)
    ensures Unquoted(Quoted(v)) == Some(ReadBack(v))
  {
    var k := UntilNul(v);
    UnquotedBetweenQuotes(Doubled(v[..k]) + Nuls(|v| - k));
    UndoubleDoubled(v[..k], Nuls(|v| - k));
  }

  lemma ReadBackIsIdentity(v: string)
    ensures ReadBack(v) == v <==> forall i :: UntilNul(v) <= i < |v| ==> v[i] == NUL
  {
    var k := UntilNul(v);
    var back := ReadBack(v);
    assert forall i :: k <= i < |v| ==> back[i] == NUL;
    assert forall i :: 0 <= i < k ==> back[i] == v[i];
  }

  /** Quoting loses nothing exactly when the value has no character but NUL behind its first NUL;
      in particular every NUL-free value comes back. */
  lemma QuotedIsLossless(v: string)
    ensures Unquoted(Quoted(v)) == Some(v) <==> forall i :: UntilNul(v) <= i < |v| ==> v[i] == NUL
  {
    UnquotedQuoted(v);
    ReadBackIsIdentity(v);
  }

  /** A value that does not come back: what follows a NUL is gone. */
  lemma TextBehindNulIsLost()
    ensures Unquoted(Quoted([NUL, 'a'])) == Some([NUL, NUL])
  {
    var v := [NUL, 'a'];
    UntilNulIs(v, 0);
    UnquotedQuoted(v);
    assert v[..0] + Nuls(2) == [NUL, NUL];
  }

  // ---- The method ------------------------------------------------------------------------------

  /** The value is terminated at `unquotedLen`, as every PHP string is. */
  method HandleQuoter(unquoted: array<char>, unquotedLen: nat) returns (quoted: array<char>, quotedLen: nat)
    requires unquotedLen < unquoted.Length && unquoted[unquotedLen] == NUL
    ensures fresh(quoted) && quoted.Length == quotedLen + 1
    ensures quoted[..] == Quoted(unquoted[..unquotedLen]) + [NUL]
    ensures quotedLen == unquotedLen + QuoteCount(unquoted[..UntilNul(unquoted[..unquotedLen])]) + 2
  {
    ghost var v := unquoted[..unquotedLen];
    ghost var k := UntilNul(v);
    assert unquoted[..k] == v[..k];
    if unquotedLen == 0 {
      quotedLen := 2;
      quoted := new char[quotedLen + 1];
      quoted[0], quoted[1], quoted[2] := '\'', '\'', NUL;
      assert Quoted(v) == "''";
      return;
    }
    var qcount := CountQuotes(unquoted, k);
    DoubledLength(v[..k]);
    quotedLen := unquotedLen + qcount + 2;
    quoted := new char[quotedLen + 1];
    quoted[0] := '\'';
    var c, l := CopyChunks(unquoted, k, quoted);
    assert quotedLen - c - 1 == unquotedLen - l;
    ghost var j := Strncpy(quoted, c, unquoted, l, quotedLen - c - 1, "'" + Doubled(unquoted[..l]));
    assert l + j == k;
    assert unquoted[..][..l] == unquoted[..l] && unquoted[..][..k] == v[..k] && unquoted[..][l..k] == unquoted[l..l + j];
    BodyIs(unquoted[..], l, k, unquotedLen);
    Finish(quoted, quotedLen, "'" + (Doubled(v[..k]) + Nuls(unquotedLen - k)));
  }

  /** What has been written when the remainder is copied. */
  lemma BodyIs(u: string, l: nat, k: nat, n: nat)
    requires l <= k <= n <= |u| && Free(u, '\'', l, k)
    ensures "'" + Doubled(u[..l]) + (u[l..k] + Nuls(n - k)) == "'" + (Doubled(u[..k]) + Nuls(n - k))
  {
    Remainder(u, l, k);
    Assoc("'", Doubled(u[..l]), u[l..k] + Nuls(n - k));
    Assoc(Doubled(u[..l]), u[l..k], Nuls(n - k));
  }

  /** The closing quote and the terminator. */
  method Finish(quoted: array<char>, quotedLen: nat, ghost body: string)
    requires 0 < quotedLen && quoted.Length == quotedLen + 1 && Holds(quoted, quotedLen - 1, body)
    modifies quoted
    ensures quoted[..] == body + "'" + [NUL]
  {
    quoted[quotedLen - 1] := '\'';
    quoted[quotedLen] := NUL;
    assert Holds(quoted, quotedLen + 1, body + "'" + [NUL]);
  }

  lemma Remainder(u: string, l: nat, k: nat)
    requires l <= k <= |u| && Free(u, '\'', l, k)
    ensures Doubled(u[..k]) == Doubled(u[..l]) + u[l..k]
  {
    assert u[..k] == u[..l] + u[l..k];
    DoubledConcat(u[..l], u[l..k]);
    DoubledWithoutQuotes(u[l..k]);
  }

  lemma CountStep(u: string, a: nat, b: nat)
    requires a <= b < |u| && u[b] == '\'' && Free(u, '\'', a, b)
    ensures QuoteCount(u[..b + 1]) == QuoteCount(u[..a]) + 1
  {
    assert u[..b + 1] == u[..a] + (u[a..b] + "'");
    DoubledConcat(u[..a], u[a..b] + "'");
    DoubledConcat(u[a..b], "'");
    DoubledWithoutQuotes(u[a..b]);
  }

  lemma CountRest(u: string, a: nat, b: nat)
    requires a <= b <= |u| && Free(u, '\'', a, b)
    ensures QuoteCount(u[..b]) == QuoteCount(u[..a])
  {
    assert u[..b] == u[..a] + u[a..b];
    DoubledConcat(u[..a], u[a..b]);
    DoubledWithoutQuotes(u[a..b]);
  }

  /** The counting loop. */
  method CountQuotes(s: array<char>, ghost end: nat) returns (qcount: nat)
    requires end < s.Length && s[end] == NUL && Free(s[..], NUL, 0, end)
    ensures qcount == QuoteCount(s[..end])
  {
    qcount := 0;
    var co := 0;
    while true
      invariant 0 <= co <= end && qcount == QuoteCount(s[..][..co])
      decreases end - co
    {
      var r := Strchr(s, co, '\'', end);
      if r == -1 {
        CountRest(s[..], co, end);
        assert s[..][..end] == s[..end];
        return;
      }
      CountStep(s[..], co, r);
      qcount := qcount + 1;
      co := r + 1;
    }
  }

  lemma ChunkDoubled(u: string, l: nat, r: nat)
    requires l <= r < |u| && u[r] == '\'' && Free(u, '\'', l, r)
    ensures Doubled(u[..r + 1]) == Doubled(u[..l]) + (u[l..r + 1] + "'")
  {
    assert u[..r + 1] == u[..l] + (u[l..r] + "'");
    DoubledConcat(u[..l], u[l..r] + "'");
    DoubledConcat(u[l..r], "'");
    DoubledWithoutQuotes(u[l..r]);
    assert u[l..r + 1] == u[l..r] + "'";
  }

  lemma PrefixDoubled(u: string, a: nat, b: nat)
    requires a <= b <= |u|
    ensures |Doubled(u[..a])| <= |Doubled(u[..b])|
  {
    assert u[..b] == u[..a] + u[a..b];
    DoubledConcat(u[..a], u[a..b]);
  }

  /** The copying loop: every chunk that ends in a quote, and the second quote behind it. */
  method CopyChunks(s: array<char>, ghost end: nat, quoted: array<char>) returns (c: nat, l: nat)
    requires s != quoted && end < s.Length && s[end] == NUL && Free(s[..], NUL, 0, end)
    requires |Doubled(s[..end])| + 1 <= quoted.Length && quoted[0] == '\''
    modifies quoted
    ensures l <= end && Free(s[..], '\'', l, end)
    ensures c == 1 + l + QuoteCount(s[..end]) <= quoted.Length
    ensures Holds(quoted, c, "'" + Doubled(s[..l]))
  {
    c, l := 1, 0;
    ghost var t := s[..];
    assert t[..end] == s[..end];
    ghost var written := "'" + Doubled(t[..0]);
    while true
      invariant 0 <= l <= end && t == s[..]
      invariant written == "'" + Doubled(t[..l]) && Holds(quoted, c, written)
      decreases end - l
    {
      var r := Strchr(s, l, '\'', end);
      if r == -1 {
        CountRest(t, l, end);
        DoubledLength(t[..l]);
        assert t[..l] == s[..l];
        return;
      }
      ChunkDoubled(t, l, r);
      PrefixDoubled(t, r + 1, end);
      CopyChunk(s, l, r, quoted, c, written);
      c := c + (r - l + 2);
      written := written + (t[l..r + 1] + "'");
      l := r + 1;
    }
  }

  /** One chunk and the second quote. */
  method CopyChunk(s: array<char>, l: nat, r: nat, quoted: array<char>, c: nat, ghost written: string)
    requires s != quoted && l <= r < s.Length && s[r] == '\'' && Free(s[..], NUL, l, r)
    requires c + (r - l + 2) <= quoted.Length && Holds(quoted, c, written)
    modifies quoted
    ensures Holds(quoted, c + (r - l + 2), written + (s[l..r + 1] + "'"))
  {
    ghost var k := Strncpy(quoted, c, s, l, r - l + 1, written);
    assert k == r - l + 1 && s[l..l + k] + Nuls(0) == s[l..r + 1];
    quoted[c + (r - l + 1)] := '\'';
  }
}
