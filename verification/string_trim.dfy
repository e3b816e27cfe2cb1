/** String.prototype.trim of ECMA-262: the edit handler stores `value.trim()`,
    the text with every leading and trailing white-space or line-terminator
    code unit removed. */
module StringTrim {

  /** The WhiteSpace and LineTerminator code points of ECMA-262: tab, vertical
      tab, form feed, space, no-break space, the byte-order mark, every other
      space separator (Unicode category Zs), line feed, carriage return, and
      the line and paragraph separators. */
  predicate IsWhiteSpace(c: char) {
    c == '\t' || c == '\U{000B}' || c == '\U{000C}' || c == ' ' || c == '\U{00A0}' || c == '\U{FEFF}'
    || c == '\U{1680}' || ('\U{2000}' <= c <= '\U{200A}') || c == '\U{202F}' || c == '\U{205F}' || c == '\U{3000}'
    || c == '\n' || c == '\r' || c == '\U{2028}' || c == '\U{2029}'
  }

  predicate AllWhiteSpace(s: string) {
    forall i :: 0 <= i < |s| ==> IsWhiteSpace(s[i])
  }

  /** Text that neither starts nor ends with white space. */
  predicate Trimmed(s: string) {
    s == [] || (!IsWhiteSpace(s[0]) && !IsWhiteSpace(s[|s| - 1]))
  }

  /** The first index at or after `i` that does not hold white space, or
      |s| when there is none. */
  function SkipForward(s: string, i: nat): (k: nat)
    requires i <= |s|
    ensures i <= k <= |s|
    ensures forall j :: i <= j < k ==> IsWhiteSpace(s[j])
    ensures k == |s| || !IsWhiteSpace(s[k])
    decreases |s| - i
  {
    if i < |s| && IsWhiteSpace(s[i]) then SkipForward(s, i + 1) else i
  }

  /** The least index k at or below `j` such that s[k..j] is all white
      space: 0, or an index just after a character that is not. */
  function SkipBackward(s: string, j: nat): (k: nat)
    requires j <= |s|
    ensures k <= j
    ensures forall i :: k <= i < j ==> IsWhiteSpace(s[i])
    ensures k == 0 || !IsWhiteSpace(s[k - 1])
  {
    if j > 0 && IsWhiteSpace(s[j - 1]) then SkipBackward(s, j - 1) else j
  }

  /** Drops the leading white space: the result is the longest suffix that
      does not start with white space. */
  function TrimStart(s: string): (r: string)
    ensures |r| <= |s| && r == s[|s| - |r|..]
    ensures forall i :: 0 <= i < |s| - |r| ==> IsWhiteSpace(s[i])
    ensures r == [] || !IsWhiteSpace(r[0])
  {
    s[SkipForward(s, 0)..]
  }

  /** Drops the trailing white space: the result is the longest prefix that
      does not end with white space. */
  function TrimEnd(s: string): (r: string)
    ensures |r| <= |s| && r == s[..|r|]
    ensures forall i :: |r| <= i < |s| ==> IsWhiteSpace(s[i])
    ensures r == [] || !IsWhiteSpace(r[|r| - 1])
  {
    s[..SkipBackward(s, |s|)]
  }

  function Trim(s: string): (r: string)
    ensures |r| <= |s|
    ensures Trimmed(r)
  {
    TrimEnd(TrimStart(s))
  }

  /** Trim only removes white space: the result is the slice s[k..e] of the
      input, and everything before k and from e on is white space. */
  lemma TrimSplits(s: string)
    ensures var k := |s| - |TrimStart(s)|;
      var e := k + |Trim(s)|;
      e <= |s| && Trim(s) == s[k..e] &&
      (forall i :: 0 <= i < k ==> IsWhiteSpace(s[i])) &&
      (forall i :: e <= i < |s| ==> IsWhiteSpace(s[i]))
  {
  }

  lemma {:induction false} TrimStartOfPadded(p: string, u: string)
    requires AllWhiteSpace(p)
    requires u == [] || !IsWhiteSpace(u[0])
    ensures TrimStart(p + u) == u
  {
    if p == [] {
      assert p + u == u;
    } else {
      assert (p + u)[1..] == p[1..] + u;
      TrimStartOfPadded(p[1..], u);
    }
  }

  lemma {:induction false} TrimEndOfPadded(u: string, q: string)
    requires AllWhiteSpace(q)
    requires u == [] || !IsWhiteSpace(u[|u| - 1])
    ensures TrimEnd(u + q) == u
  {
    if q == [] {
      assert u + q == u;
    } else {
      var q' := q[..|q| - 1];
      assert (u + q)[..|u + q| - 1] == u + q';
      TrimEndOfPadded(u, q');
    }
  }

  /** Trim's result is the only text that is padded into the input by white
      space on both sides and is itself trimmed. */
  lemma TrimUnique(p: string, t: string, q: string)
    requires AllWhiteSpace(p) && AllWhiteSpace(q)
    requires Trimmed(t)
    ensures Trim(p + t + q) == t
  {
    if t == [] {
      assert p + t + q == (p + q) + [];
      assert AllWhiteSpace(p + q) by {
        forall i | 0 <= i < |p + q| ensures IsWhiteSpace((p + q)[i]) {
          if i < |p| { assert (p + q)[i] == p[i]; } else { assert (p + q)[i] == q[i - |p|]; }
        }
      }
      TrimStartOfPadded(p + q, []);
    } else {
      assert p + t + q == p + (t + q);
      TrimStartOfPadded(p, t + q);
      TrimEndOfPadded(t, q);
    }
  }

  lemma TrimIdempotent(s: string)
    ensures Trim(Trim(s)) == Trim(s)
  {
    assert [] + Trim(s) + [] == Trim(s);
    TrimUnique([], Trim(s), []);
  }
}
