/** Bytes, C strings and the few character codes the C sources name by literal. */
module Text {

  type byte = x: int | 0 <= x < 256
  type Bytes = seq<byte>

  datatype Option<+T> = None | Some(value: T)

  const NUL: byte := 0
  const BACKSPACE: byte := 8
  const TAB: byte := 9
  const NEWLINE: byte := 10
  const FORMFEED: byte := 12
  const RETURN: byte := 13
  const SPACE: byte := 32
  const QUOTE: byte := 34
  const STAR: byte := 42
  const PLUS: byte := 43
  const COMMA: byte := 44
  const MINUS: byte := 45
  const DOT: byte := 46
  const SLASH: byte := 47
  const ZERO: byte := 48
  const COLON: byte := 58
  const LBRACKET: byte := 91
  const BACKSLASH: byte := 92
  const RBRACKET: byte := 93
  const LBRACE: byte := 123
  const RBRACE: byte := 125

  /** What a C reader sees of a buffer: everything before the first NUL. */
  function CString(s: Bytes): (r: Bytes)
    ensures NUL !in r && r <= s
    ensures |r| < |s| ==> s[|r|] == NUL
    ensures NUL !in s ==> r == s
  {
    if s == [] || s[0] == NUL then [] else [s[0]] + CString(s[1..])
  }

  function Repeat(b: byte, n: nat): (r: Bytes)
    ensures |r| == n && forall i | 0 <= i < n :: r[i] == b
  {
    if n == 0 then [] else [b] + Repeat(b, n - 1)
  }

  /** A slice of a suffix is a slice of the whole; the parsers move through text by suffixes. */
  lemma SuffixOfSuffix(s: Bytes, i: nat, j: nat)
    requires i + j <= |s|
    ensures s[i..][j..] == s[i + j..]
  {
  }

  lemma SliceOfSlice(s: Bytes, a: nat, b: nat, i: nat, j: nat)
    requires a <= b <= |s| && i <= j <= b - a
    ensures s[a..b][i..j] == s[a + i..a + j]
  {
    forall k | 0 <= k < j - i
      ensures s[a..b][i..j][k] == s[a + i..a + j][k]
    {
    }
  }

  lemma TakeSplit(s: Bytes, n: nat, m: nat)
    requires n + m <= |s|
    ensures s[..n + m] == s[..n] + s[n..][..m]
  {
  }

  /** Text whose last byte is the terminator. */
  predicate Terminated(s: Bytes): (b: bool)
    ensures b ==> s != []
  {
    s != [] && s[|s| - 1] == NUL
  }

  lemma TerminatedSuffix(s: Bytes, k: nat)
    requires Terminated(s) && k < |s|
    ensures Terminated(s[k..])
  {
  }

  /** A byte that is not the terminator has another one after it. */
  lemma TerminatedNext(s: Bytes, k: nat)
    requires Terminated(s) && k < |s| && s[k] != NUL
    ensures k + 1 < |s| && Terminated(s[k + 1..]) && s[k..][1..] == s[k + 1..]
  {
  }

  /** A text whose only NUL is its terminator. */
  predicate Sealed(s: Bytes): (b: bool)
    ensures b ==> Terminated(s)
  {
    Terminated(s) && NUL !in s[..|s| - 1]
  }

  lemma SealedSuffix(s: Bytes, k: nat)
    requires Sealed(s) && k < |s|
    ensures Sealed(s[k..]) && (k + 1 < |s| <==> s[k] != NUL)
  {
    assert forall i | 0 <= i < |s| - 1 :: s[..|s| - 1][i] == s[i];
    assert s[k..][..|s| - k - 1] == s[..|s| - 1][k..];
  }

  lemma SealedMeaning(s: Bytes)
    requires Sealed(s)
    ensures NUL !in s[..|s| - 1]
  {
  }

  /** strncmp(s, w, |w|) == 0. */
  predicate StartsWith(s: Bytes, w: Bytes) {
    w == [] || (s != [] && s[0] == w[0] && StartsWith(s[1..], w[1..]))
  }

  lemma {:induction false} StartsWithLength(s: Bytes, w: Bytes)
    requires StartsWith(s, w)
    ensures |w| <= |s| && s[..|w|] == w
  {
    if w != [] {
      StartsWithLength(s[1..], w[1..]);
      assert s[..|w|] == [s[0]] + s[1..][..|w| - 1];
    }
  }

  lemma {:induction false} StartsWithPrefix(w: Bytes, r: Bytes)
    ensures StartsWith(w + r, w)
  {
    if w != [] {
      StartsWithPrefix(w[1..], r);
      assert (w + r)[1..] == w[1..] + r;
    }
  }

  // Concatenation regrouped to the right, kept apart from the definitions it is used on.

  lemma Carry2(a: Bytes, b: Bytes, x: Bytes)
    ensures (a + b) + x == a + (b + x)
  {
  }

  lemma Carry3(a: Bytes, b: Bytes, c: Bytes, x: Bytes)
    ensures (a + (b + c)) + x == a + (b + (c + x))
  {
  }

  lemma Carry4(a: Bytes, b: Bytes, c: Bytes, d: Bytes, x: Bytes)
    ensures (a + (b + (c + d))) + x == a + (b + (c + (d + x)))
  {
    Carry2(a, b + (c + d), x);
    Carry3(b, c, d, x);
  }

  lemma Carry5(a: Bytes, b: Bytes, c: Bytes, d: Bytes, e: Bytes, x: Bytes)
    ensures (a + (b + (c + (d + e)))) + x == a + (b + (c + (d + (e + x))))
  {
    Carry2(a, b + (c + (d + e)), x);
    Carry4(b, c, d, e, x);
  }

  /** A text taken in two steps, with x behind it. */
  lemma Rejoin(s: Bytes, n: nat, j: nat, x: Bytes)
    requires n + j <= |s|
    ensures s[..n] + (s[n..][..j] + x) == s[..n + j] + x && s[n..][j..] == s[n + j..]
  {
    SuffixOfSuffix(s, n, j);
    TakeSplit(s, n, j);
    Carry2(s[..n], s[n..][..j], x);
  }

  lemma TerminatedAfter(a: Bytes, b: Bytes)
    requires Terminated(b)
    ensures Terminated(a + b)
  {
  }

  lemma Uncons(a: byte, x: Bytes)
    ensures ([a] + x)[0] == a && ([a] + x)[1..] == x
  {
  }
}
