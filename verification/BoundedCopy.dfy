// my_strlcpy and my_strlcat of perl_dbi/ppport.h.

module BoundedCopy {
  import opened CStrings

  /** The C string in a buffer that holds a terminator. */
  function Text(buf: string): string { buf[..UntilNul(buf)] }

  predicate Terminated(buf: string) { UntilNul(buf) < |buf| }

  /** What of s fits into `size` characters with the terminator. */
  function Cut(s: string, size: nat): (r: string)
    requires size > 0
    ensures |r| == if |s| <= size - 1 then |s| else size - 1
    ensures r <= s
  {
    if |s| >= size then s[..size - 1] else s
  }

  lemma TextIs(buf: string, s: string)
    requires |s| < |buf| && buf[..|s|] == s && NUL !in s && buf[|s|] == NUL
    ensures Text(buf) == s && Terminated(buf)
  {
    UntilNulIs(buf, |s|);
  }

  /** strlen */
  method Strlen(s: array<char>) returns (n: nat)
    requires Terminated(s[..])
    ensures n == UntilNul(s[..]) < s.Length
  {
    n := 0;
    while s[n] != NUL
      invariant 0 <= n <= UntilNul(s[..]) < s.Length
      decreases s.Length - n
    {
      n := n + 1;
    }
    UntilNulIs(s[..], n);
  }

  /** memcpy */
  method Memcpy(dst: array<char>, at: nat, src: array<char>, n: nat)
    requires dst != src && at + n <= dst.Length && n <= src.Length
    modifies dst
    ensures dst[at..at + n] == src[..n]
    ensures forall i :: 0 <= i < at || at + n <= i < dst.Length ==> dst[i] == old(dst[i])
  {
    forall i | 0 <= i < n { dst[at + i] := src[i]; }
  }

  method Strlcpy(dst: array<char>, src: array<char>, size: nat) returns (length: nat)
    requires dst != src && size <= dst.Length && Terminated(src[..])
    modifies dst
    ensures length == |Text(src[..])|
    ensures size > 0 ==> Terminated(dst[..]) && Text(dst[..]) == Cut(Text(src[..]), size)
    ensures dst[size..] == old(dst[size..])
  {
    length := Strlen(src);
    if size > 0 {
      var copy := if length >= size then size - 1 else length;
      Memcpy(dst, 0, src, copy);
      dst[copy] := NUL;
      assert dst[0..copy] == src[..copy] == Cut(Text(src[..]), size);
      TextIs(dst[..], dst[..copy]);
    }
  }

  lemma BehindIs(before: string, after: string, add: string)
    requires |after| == |before| && NUL !in add && UntilNul(before) + |add| < |before|
    requires after[..UntilNul(before)] == Text(before)
    requires after[UntilNul(before)..][..|add|] == add && after[UntilNul(before) + |add|] == NUL
    ensures Terminated(after) && Text(after) == Text(before) + add
  {
    var used := UntilNul(before);
    assert after[..used + |add|] == after[..used] + after[used..][..|add|];
    TextIs(after, Text(before) + add);
  }

  /** The copy at the end of the text that is there, and the terminator behind it. */
  method WriteBehind(dst: array<char>, used: nat, src: array<char>, copy: nat)
    requires dst != src && used == UntilNul(dst[..]) && used + copy < dst.Length
    requires copy <= UntilNul(src[..])
    modifies dst
    ensures Terminated(dst[..]) && Text(dst[..]) == old(Text(dst[..])) + Text(src[..])[..copy]
    ensures dst[..][used + copy + 1..] == old(dst[..])[used + copy + 1..]
  {
    ghost var before, add := dst[..], Text(src[..])[..copy];
    assert Free(src[..], NUL, 0, copy) && add == src[..copy];
    Memcpy(dst, used, src, copy);
    dst[used + copy] := NUL;
    assert dst[..][used..][..copy] == add;
    BehindIs(before, dst[..], add);
  }

  lemma CutIs(was: string, add: string, size: nat, copy: nat)
    requires |was| < size && copy == if |add| >= size - |was| then size - |was| - 1 else |add|
    ensures Cut(was + add, size) == was + add[..copy]
  {}

  lemma CutKeeps(was: string, add: string, size: nat)
    requires |was| + 1 == size
    ensures Cut(was + add, size) == was
  {}

  lemma SameFurtherBehind(a: string, b: string, m: nat, n: nat)
    requires |a| == |b| && m <= n <= |a| && a[m..] == b[m..]
    ensures a[n..] == b[n..]
  {
    assert a[n..] == a[m..][n - m..] && b[n..] == b[m..][n - m..];
  }

  /** The text that is already there is kept when it fills or exceeds the size. */
  method Strlcat(dst: array<char>, src: array<char>, size: nat) returns (length: nat)
    requires dst != src && size <= dst.Length && Terminated(src[..]) && Terminated(dst[..])
    modifies dst
    ensures length == |old(Text(dst[..]))| + |Text(src[..])|
    ensures Terminated(dst[..])
    ensures Text(dst[..]) == if |old(Text(dst[..]))| < size then Cut(old(Text(dst[..])) + Text(src[..]), size)
                             else old(Text(dst[..]))
    ensures dst[size..] == old(dst[size..])
  {
    ghost var was, add := Text(dst[..]), Text(src[..]);
    var used := Strlen(dst);
    length := Strlen(src);
    if size > 0 && used < size - 1 {
      var copy := if length >= size - used then size - used - 1 else length;
      ghost var before := dst[..];
      WriteBehind(dst, used, src, copy);
      CutIs(was, add, size, copy);
      SameFurtherBehind(dst[..], before, used + copy + 1, size);
    } else if used < size {
      CutKeeps(was, add, size);
    }
    length := used + length;
  }

  /** Appending what fits to what fitted gives what fits of the whole. */
  lemma CopyThenAppendIsOneCopy(a: string, b: string, size: nat)
    requires size > 0
    ensures Cut(Cut(a, size) + b, size) == Cut(a + b, size)
  {
    if |a| >= size {
      assert (Cut(a, size) + b)[..size - 1] == a[..size - 1] == (a + b)[..size - 1];
    }
  }

  /** The two return values together say whether anything was lost; neither does alone. */
  lemma ReturnValuesTellTruncation(a: string, b: string, size: nat)
    requires size > 0
    ensures Cut(a + b, size) == a + b <==> |a| < size && |Cut(a, size)| + |b| < size
  {}

  method CopyThenAppend(dst: array<char>, a: array<char>, b: array<char>, size: nat) returns (n: nat, m: nat)
    requires dst != a && dst != b && 0 < size <= dst.Length && Terminated(a[..]) && Terminated(b[..])
    modifies dst
    ensures Terminated(dst[..]) && Text(dst[..]) == Cut(Text(a[..]) + Text(b[..]), size)
    ensures dst[size..] == old(dst[size..])
    ensures n < size && m < size <==> Text(dst[..]) == Text(a[..]) + Text(b[..])
  {
    n := Strlcpy(dst, a, size);
    m := Strlcat(dst, b, size);
    CopyThenAppendIsOneCopy(Text(a[..]), Text(b[..]), size);
    ReturnValuesTellTruncation(Text(a[..]), Text(b[..]), size);
  }
}
