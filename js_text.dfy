/** The JavaScript string primitives the client relies on: `String.prototype.trim`,
    `toLowerCase` (ASCII letters only, see README) and `includes`. */
module JsText {

  /** WhiteSpace and LineTerminator code points that `trim` removes
      (ECMAScript: TAB, VT, FF, SP, NBSP, ZWNBSP, category Zs, LF, CR, LS, PS). */
  predicate IsWhite(c: char) {
    || c == '\t' || c == '\n' || c == '\U{000B}' || c == '\U{000C}' || c == '\r'
    || c == ' ' || c == '\U{00A0}' || c == '\U{1680}'
    || ('\U{2000}' <= c <= '\U{200A}')
    || c == '\U{2028}' || c == '\U{2029}' || c == '\U{202F}' || c == '\U{205F}'
    || c == '\U{3000}' || c == '\U{FEFF}'
  }

  /** The characters that `.` in a regular expression without the `s` flag refuses. */
  predicate IsLineTerminator(c: char) {
    c == '\n' || c == '\r' || c == '\U{2028}' || c == '\U{2029}'
  }

  predicate AllWhite(s: string) {
    forall i :: 0 <= i < |s| ==> IsWhite(s[i])
  }

  /** Neither starts nor ends with white space. */
  predicate IsTrimmed(s: string) {
    s == [] || (!IsWhite(s[0]) && !IsWhite(s[|s| - 1]))
  }

  /** Number of white-space characters at the start of `s`. */
  function LeadingWhite(s: string): (n: nat)
    ensures n <= |s|
    ensures forall i :: 0 <= i < n ==> IsWhite(s[i])
    ensures n == |s| || !IsWhite(s[n])
  {
    if |s| > 0 && IsWhite(s[0]) then 1 + LeadingWhite(s[1..]) else 0
  }

  /** Number of white-space characters at the end of `s`. */
  function TrailingWhite(s: string): (n: nat)
    ensures n <= |s|
    ensures forall i :: |s| - n <= i < |s| ==> IsWhite(s[i])
    ensures n == |s| || !IsWhite(s[|s| - 1 - n])
  {
    if |s| > 0 && IsWhite(s[|s| - 1]) then 1 + TrailingWhite(s[..|s| - 1]) else 0
  }

  /** `s.trim()`. */
  function Trim(s: string): (r: string)
    ensures IsTrimmed(r)
    ensures |r| <= |s|
  {
    var t := s[LeadingWhite(s)..];
    t[..|t| - TrailingWhite(t)]
  }

  /** Trim removes exactly a white prefix and a white suffix: padding a trimmed
      string with white space on both sides and trimming gives it back. */
  lemma TrimPadded(p: string, x: string, q: string)
    requires AllWhite(p) && AllWhite(q) && IsTrimmed(x)
    ensures Trim(p + x + q) == x
  {
    var s := p + x + q;
    var a := LeadingWhite(s);
    if x == [] {
      assert s == p + q;
      assert AllWhite(s);
      assert a == |s|;
    } else {
      assert s[|p|] == x[0];
      assert a == |p|;
      var t := s[a..];
      assert t == x + q;
      var b := TrailingWhite(t);
      assert t[|x| - 1] == x[|x| - 1];
      assert b == |q|;
      assert t[..|t| - b] == x;
    }
  }

  /** Every string is a trimmed core between a white prefix and a white suffix, and
      that core is what Trim returns. */
  lemma TrimSplits(s: string) returns (i: nat)
    ensures i + |Trim(s)| <= |s|
    ensures s == s[..i] + Trim(s) + s[i + |Trim(s)|..]
    ensures AllWhite(s[..i]) && AllWhite(s[i + |Trim(s)|..])
  {
    var j;
    i, j := TrimBounds(s);
    WhiteSlice(s, 0, i);
    WhiteSlice(s, j, |s|);
    assert s[..i] == s[0..i] && s[j..] == s[j..|s|];
    ThreeParts(s, i, j);
  }

  /** Trim keeps the slice between the leading and the trailing white space. */
  lemma TrimBounds(s: string) returns (i: nat, j: nat)
    ensures i <= j <= |s| && Trim(s) == s[i..j]
    ensures forall k :: 0 <= k < i ==> IsWhite(s[k])
    ensures forall k :: j <= k < |s| ==> IsWhite(s[k])
  {
    i := LeadingWhite(s);
    var t := s[i..];
    var b := TrailingWhite(t);
    j := |s| - b;
    assert forall k :: j <= k < |s| ==> s[k] == t[k - i];
    assert Trim(s) == t[..|t| - b];
    assert forall k :: 0 <= k < j - i ==> t[..|t| - b][k] == s[i..j][k];
  }

  /** A string is its prefix, a middle slice and its suffix. */
  lemma ThreeParts(s: string, i: nat, j: nat)
    requires i <= j <= |s|
    ensures s == s[..i] + s[i..j] + s[j..]
  {
    assert s == s[..i] + s[i..];
    assert s[i..] == s[i..j] + s[j..];
  }

  /** A run of white space characters, as a slice. */
  lemma WhiteSlice(s: string, a: nat, b: nat)
    requires a <= b <= |s| && forall k :: a <= k < b ==> IsWhite(s[k])
    ensures AllWhite(s[a..b])
  {
    forall k | 0 <= k < b - a
      ensures IsWhite(s[a..b][k])
    {
      assert s[a..b][k] == s[a + k];
    }
  }

  /** A string trims to the empty string exactly when it is all white space. */
  lemma TrimEmptyIff(s: string)
    ensures Trim(s) == [] <==> AllWhite(s)
  {
    if AllWhite(s) {
      assert s == s + [] + [];
      TrimPadded(s, [], []);
    }
    if Trim(s) == [] {
      var j := TrimSplits(s);
      forall k | 0 <= k < |s| ensures IsWhite(s[k]) {
        if k < j { assert s[..j][k] == s[k]; } else { assert s[j..][k - j] == s[k]; }
      }
    }
  }

  /** `c.toLowerCase()` for one character: A-Z are folded, everything else is kept. */
  function LowerChar(c: char): char {
    if 'A' <= c <= 'Z' then (c as int + 32) as char else c
  }

  /** `s.toLowerCase()`. */
  function Lower(s: string): (r: string)
    ensures |r| == |s|
  {
    seq(|s|, i requires 0 <= i < |s| => LowerChar(s[i]))
  }

  /** `s` is "true" in any mix of upper and lower case. */
  predicate SpellsTrue(s: string) {
    |s| == 4 && s[0] in "tT" && s[1] in "rR" && s[2] in "uU" && s[3] in "eE"
  }

  /** Comparing the lowered text with "true" is a case-insensitive comparison. */
  lemma LowerIsTrueIff(s: string)
    ensures Lower(s) == "true" <==> SpellsTrue(s)
  {
    if SpellsTrue(s) {
      assert Lower(s)[0] == 't' && Lower(s)[1] == 'r' && Lower(s)[2] == 'u' && Lower(s)[3] == 'e';
    }
    if Lower(s) == "true" {
      assert Lower(s)[0] == 't' && Lower(s)[1] == 'r';
      assert Lower(s)[2] == 'u' && Lower(s)[3] == 'e';
    }
  }

  /** `sub` occurs in `s` starting at index `i`. */
  predicate OccursAt(sub: string, s: string, i: nat) {
    i + |sub| <= |s| && s[i..i + |sub|] == sub
  }

  /** An occurrence inside a slice is an occurrence in the whole string. */
  lemma OccursInSlice(sub: string, s: string, k: nat, j: nat, i: nat)
    requires k <= j <= |s| && OccursAt(sub, s[k..j], i)
    ensures OccursAt(sub, s, k + i)
  {
    var c := s[k..j];
    assert i + |sub| <= |c|;
    var a, b := s[k + i..k + i + |sub|], c[i..i + |sub|];
    assert forall t :: 0 <= t < |sub| ==> a[t] == b[t];
  }

  /** `s.includes(sub)`. */
  predicate Includes(s: string, sub: string)
    ensures Includes(s, sub) ==> |sub| <= |s|
  {
    exists i: nat | i <= |s| :: OccursAt(sub, s, i)
  }
}
