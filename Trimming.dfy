/** JavaScript's String.prototype.trim: strip white space and line terminators from both ends.
    The component only ever calls the built-in; this module gives it a definition and the
    facts the task list relies on (no white space left at either end, idempotence, and a
    characterisation that fixes the result uniquely). */
module Trimming {

  /** The code points ECMAScript counts as WhiteSpace or LineTerminator: TAB, VT, FF, SP,
      NBSP, ZWNBSP, the other Unicode space separators (U+1680, U+2000 to U+200A, U+202F,
      U+205F, U+3000), LF, CR, LS and PS. */
  const WhitespaceChars: set<char> := {
    '\t', '\U{000B}', '\U{000C}', ' ', '\U{00A0}', '\U{FEFF}', '\U{1680}',
    '\U{2000}', '\U{2001}', '\U{2002}', '\U{2003}', '\U{2004}', '\U{2005}', '\U{2006}',
    '\U{2007}', '\U{2008}', '\U{2009}', '\U{200A}', '\U{202F}', '\U{205F}', '\U{3000}',
    '\n', '\r', '\U{2028}', '\U{2029}'
  }

  predicate IsWhitespace(c: char) {
    c in WhitespaceChars
  }

  predicate AllWhitespace(s: string) {
    forall i :: 0 <= i < |s| ==> IsWhitespace(s[i])
  }

  /** Neither end of `s` is white space (vacuously true of the empty string). */
  predicate Trimmed(s: string) {
    s == [] || (!IsWhitespace(s[0]) && !IsWhitespace(s[|s| - 1]))
  }

  /** Drops the leading white space: the result is the longest suffix of `s` that starts
      with a non-white-space character, or empty. */
  function TrimStart(s: string): (r: string)
    ensures |r| <= |s| && r == s[|s| - |r|..]
    ensures forall k :: 0 <= k < |s| - |r| ==> IsWhitespace(s[k])
    ensures r == [] || !IsWhitespace(r[0])
  {
    if s != [] && IsWhitespace(s[0]) then
      var r := TrimStart(s[1..]);
      assert forall k :: 1 <= k < |s| ==> s[k] == s[1..][k - 1];
      r
    else s
  }

  /** Drops the trailing white space: the result is the longest prefix of `s` that ends
      with a non-white-space character, or empty. */
  function TrimEnd(s: string): (r: string)
    ensures |r| <= |s| && r == s[..|r|]
    ensures forall k :: |r| <= k < |s| ==> IsWhitespace(s[k])
    ensures r == [] || !IsWhitespace(r[|r| - 1])
  {
    if s != [] && IsWhitespace(s[|s| - 1]) then
      TrimEnd(s[..|s| - 1])
    else s
  }

  /** `s.trim()`. */
  function Trim(s: string): (r: string)
    ensures Trimmed(r)
  {
    var u := TrimStart(s);
    var r := TrimEnd(u);
    assert r == [] || r[0] == u[0];
    r
  }

  /** What `s.trim()` removes is white space, from the two ends only. */
  lemma TrimIsInfix(s: string)
    ensures exists i, j :: 0 <= i <= j <= |s| && Trim(s) == s[i..j]
                           && AllWhitespace(s[..i]) && AllWhitespace(s[j..])
  {
    var u := TrimStart(s);
    var r := TrimEnd(u);
    var i := |s| - |u|;
    SlicesOfSuffix(s, i, |r|);
    InfixWitness(s, r, i, i + |r|);
  }

  lemma SlicesOfSuffix(s: string, i: nat, n: nat)
    requires i + n <= |s|
    ensures s[i..][..n] == s[i..i + n] && s[i..][n..] == s[i + n..]
  {
  }

  lemma InfixWitness(s: string, r: string, i: nat, j: nat)
    requires i <= j <= |s| && r == s[i..j] && AllWhitespace(s[..i]) && AllWhitespace(s[j..])
    ensures exists i, j :: 0 <= i <= j <= |s| && r == s[i..j]
                           && AllWhitespace(s[..i]) && AllWhitespace(s[j..])
  {
  }

  /** Trimming a string that has no white space at either end returns it unchanged. */
  lemma TrimOfTrimmed(s: string)
    requires Trimmed(s)
    ensures Trim(s) == s
  {
    assert TrimStart(s) == s;
  }

  /** The strings `trim` leaves unchanged are exactly those with no white space at either end. */
  lemma TrimFixedIffTrimmed(s: string)
    ensures Trim(s) == s <==> Trimmed(s)
  {
    if Trimmed(s) {
      TrimOfTrimmed(s);
    }
  }

  /** Trimming twice is the same as trimming once. */
  lemma TrimIdempotent(s: string)
    ensures Trim(Trim(s)) == Trim(s)
  {
    TrimOfTrimmed(Trim(s));
  }

  /** A string is empty after trimming exactly when it is all white space. */
  lemma TrimEmptyIffAllWhitespace(s: string)
    ensures Trim(s) == [] <==> AllWhitespace(s)
  {
    if AllWhitespace(s) {
      TrimOfPadded(s, [], []);
      assert s + [] + [] == s;
    } else {
      var u := TrimStart(s);
      assert u != [];
    }
  }

  lemma {:induction false} TrimStartOfPadded(a: string, u: string)
    requires AllWhitespace(a)
    requires u == [] || !IsWhitespace(u[0])
    ensures TrimStart(a + u) == u
  {
    if a == [] {
      assert a + u == u;
    } else {
      assert (a + u)[1..] == a[1..] + u;
      TrimStartOfPadded(a[1..], u);
    }
  }

  lemma {:induction false} TrimEndOfPadded(u: string, b: string)
    requires AllWhitespace(b)
    requires u == [] || !IsWhitespace(u[|u| - 1])
    ensures TrimEnd(u + b) == u
  {
    if b == [] {
      assert u + b == u;
    } else {
      assert (u + b)[..|u + b| - 1] == u + b[..|b| - 1];
      TrimEndOfPadded(u, b[..|b| - 1]);
    }
  }

  /** Trim's result is determined by its defining property: whenever `s` is `t` with only
      white space added on either side, and `t` has none at its ends, `s.trim()` is `t`. */
  lemma TrimOfPadded(a: string, t: string, b: string)
    requires AllWhitespace(a) && AllWhitespace(b) && Trimmed(t)
    ensures Trim(a + t + b) == t
  {
    if t == [] {
      assert a + t + b == (a + b) + [];
      TrimStartOfPadded(a + b, []);
    } else {
      assert a + t + b == a + (t + b);
      TrimStartOfPadded(a, t + b);
      TrimEndOfPadded(t, b);
    }
  }
}
