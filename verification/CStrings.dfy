// C strings and the library calls the drivers make on them.

module CStrings {
  const NUL: char := '\0'

  /** The first n characters of the buffer are s. */
  ghost predicate Holds(buffer: array<char>, n: nat, s: string)
    reads buffer
  {
    n == |s| <= buffer.Length && forall i :: 0 <= i < n ==> buffer[i] == s[i]
  }

  /** No character c at the positions from..to. */
  ghost predicate Free(s: string, c: char, from: nat, to: nat) {
    to <= |s| && forall i :: from <= i < to ==> s[i] != c
  }

  /** Position of the first NUL, or the length when there is none. */
  function UntilNul(v: string): (n: nat)
    ensures n <= |v| && Free(v, NUL, 0, n) && (n < |v| ==> v[n] == NUL)
  {
    if v == [] || v[0] == NUL then 0 else 1 + UntilNul(v[1..])
  }

  lemma UntilNulIs(v: string, n: nat)
    requires n <= |v| && Free(v, NUL, 0, n) && (n < |v| ==> v[n] == NUL)
    ensures UntilNul(v) == n
  {}

  function Nuls(n: nat): string { seq(n, _ => NUL) }

  /** strchr: the first c at or behind `from`, or -1 when the terminator at `end` comes first. */
  method Strchr(s: array<char>, from: nat, c: char, ghost end: nat) returns (r: int)
    requires c != NUL && from <= end < s.Length && s[end] == NUL && Free(s[..], NUL, from, end)
    ensures r == -1 || from <= r < end
    ensures r == -1 ==> Free(s[..], c, from, end)
    ensures r >= 0 ==> s[r] == c && Free(s[..], c, from, r)
  {
    var i := from;
    while s[i] != NUL
      invariant from <= i <= end && Free(s[..], c, from, i)
      decreases end - i
    {
      if s[i] == c { return i; }
      i := i + 1;
    }
    return -1;
  }

  /** strncpy: copies up to the terminator, k characters, and fills the rest with NULs. */
  method Strncpy(dst: array<char>, at: nat, src: array<char>, from: nat, n: nat, ghost before: string)
    returns (ghost k: nat)
    requires dst != src && at + n <= dst.Length && from + n <= src.Length && Holds(dst, at, before)
    modifies dst
    ensures k <= n && Free(src[..], NUL, from, from + k) && (k < n ==> src[from + k] == NUL)
    ensures Holds(dst, at + n, before + (src[from..from + k] + Nuls(n - k)))
  {
    var i := 0;
    while i < n && src[from + i] != NUL
      invariant 0 <= i <= n && Free(src[..], NUL, from, from + i)
      invariant Holds(dst, at + i, before + src[from..from + i])
    {
      dst[at + i] := src[from + i];
      i := i + 1;
    }
    k := i;
    while i < n
      invariant k <= i <= n
      invariant Holds(dst, at + i, before + (src[from..from + k] + Nuls(i - k)))
    {
      dst[at + i] := NUL;
      i := i + 1;
    }
  }
}
