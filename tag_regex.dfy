/** The two regular-expression shapes the response interpreter uses, with the exact
    ECMAScript semantics for them:
      - `/<T>(.*?)<\/T>/`   lazy content that never crosses a line terminator,
        used without `g` (first match only) and with `g` (all matches, leftmost first,
        non-overlapping, the scan resuming one character later where a match fails);
      - `/<\/?T>/g` with `replace(..., '')`, one left-to-right pass removing the tags. */
module TagRegex {
  import opened Wrappers
  import opened JsText

  /** The tag names the client searches for are plain words (`Name`, `Ready`, ...). */
  predicate TagName(tag: string) {
    |tag| > 0 && forall i :: 0 <= i < |tag| ==> 'A' <= tag[i] <= 'Z' || 'a' <= tag[i] <= 'z'
  }

  /** Text with no `<` in it. */
  predicate NoBracket(s: string) {
    forall i :: 0 <= i < |s| ==> s[i] != '<'
  }

  function Open(tag: string): string { "<" + tag + ">" }

  function Close(tag: string): string { "</" + tag + ">" }

  /** One match of `<T>(.*?)</T>`: where it starts and where its closing tag starts. */
  datatype Match = Match(start: nat, closeAt: nat)

  /** Index just past the closing tag, where a global scan resumes. */
  function End(tag: string, m: Match): nat { m.closeAt + |Close(tag)| }

  /** `j` is where the lazy `.*?` stops when the content starts at `k`: the first
      closing tag at or after `k`, with no line terminator on the way. */
  predicate LazyClose(s: string, close: string, k: nat, j: nat) {
    && k <= j
    && OccursAt(close, s, j)
    && forall m :: k <= m < j ==> !IsLineTerminator(s[m]) && !OccursAt(close, s, m)
  }

  /** The regular expression matches at `m.start` and its group spans
      `m.start + |Open(tag)|` up to `m.closeAt`. */
  predicate IsMatch(s: string, tag: string, m: Match) {
    OccursAt(Open(tag), s, m.start) && LazyClose(s, Close(tag), m.start + |Open(tag)|, m.closeAt)
  }

  /** The lazy quantifier: try the closing tag at `k`, otherwise consume one
      character that is not a line terminator and try again. */
  function CloseFrom(s: string, close: string, k: nat): (r: Option<nat>)
    requires k <= |s|
    ensures r.Some? ==> LazyClose(s, close, k, r.value)
    ensures r.None? ==> forall j :: k <= j <= |s| ==> !LazyClose(s, close, k, j)
    decreases |s| - k
  {
    if OccursAt(close, s, k) then Some(k)
    else if k == |s| || IsLineTerminator(s[k]) then None
    else
      assert forall j :: k < j <= |s| && LazyClose(s, close, k, j) ==> LazyClose(s, close, k + 1, j);
      CloseFrom(s, close, k + 1)
  }

  /** The regular expression anchored at index `i`. */
  function MatchAt(s: string, tag: string, i: nat): (r: Option<Match>)
    ensures r.Some? ==> r.value.start == i && IsMatch(s, tag, r.value)
    ensures r.None? ==> forall j :: !IsMatch(s, tag, Match(i, j))
  {
    if OccursAt(Open(tag), s, i) then
      match CloseFrom(s, Close(tag), i + |Open(tag)|)
      case Some(j) => Some(Match(i, j))
      case None => None
    else None
  }

  /** `RegExp.prototype.exec` from index `from`: the leftmost match at or after it. */
  function FirstMatch(s: string, tag: string, from: nat): (r: Option<Match>)
    ensures r.Some? ==> from <= r.value.start && MatchAt(s, tag, r.value.start) == r
    ensures r.Some? ==> forall i :: from <= i < r.value.start ==> MatchAt(s, tag, i).None?
    ensures r.None? ==> forall i :: from <= i ==> MatchAt(s, tag, i).None?
    decreases |s| - from
  {
    if from >= |s| then None
    else match MatchAt(s, tag, from)
      case Some(m) => Some(m)
      case None => FirstMatch(s, tag, from + 1)
  }

  /** `s.match(/<T>(.*?)<\/T>/g)` as match positions, scanning from `from`; the
      empty sequence stands for the `null` that `match` returns when nothing matches. */
  function AllMatches(s: string, tag: string, from: nat): (r: seq<Match>)
    ensures forall k :: 0 <= k < |r| ==> from <= r[k].start && MatchAt(s, tag, r[k].start) == Some(r[k])
    ensures forall k :: 0 <= k < |r| - 1 ==> End(tag, r[k]) <= r[k + 1].start
    decreases |s| - from
  {
    match FirstMatch(s, tag, from)
    case None => []
    case Some(m) => [m] + AllMatches(s, tag, End(tag, m))
  }

  /** The global scan misses nothing: every index where the expression would match
      lies inside one of the matches found (a match is never overlapped by another). */
  lemma {:induction false} AllMatchesCover(s: string, tag: string, from: nat, i: nat)
    requires from <= i && MatchAt(s, tag, i).Some?
    ensures exists k ::
      && 0 <= k < |AllMatches(s, tag, from)|
      && AllMatches(s, tag, from)[k].start <= i < End(tag, AllMatches(s, tag, from)[k])
    decreases |s| - from
  {
    var ms := AllMatches(s, tag, from);
    var m := FirstMatch(s, tag, from).value;
    assert ms[0] == m;
    if i >= End(tag, m) {
      AllMatchesCover(s, tag, End(tag, m), i);
      var rest := AllMatches(s, tag, End(tag, m));
      var k :| 0 <= k < |rest| && rest[k].start <= i < End(tag, rest[k]);
      assert ms[k + 1] == rest[k];
    }
  }

  /** Without the `g` flag only the first match counts, and it is the first of the
      matches the global scan finds. */
  lemma FirstIsHeadOfAll(s: string, tag: string)
    ensures FirstMatch(s, tag, 0).None? <==> AllMatches(s, tag, 0) == []
    ensures FirstMatch(s, tag, 0).Some? ==> AllMatches(s, tag, 0)[0] == FirstMatch(s, tag, 0).value
  {
  }

  /** The group `(.*?)` of a match. */
  function Content(s: string, tag: string, m: Match): (c: string)
    requires IsMatch(s, tag, m)
    ensures forall i :: 0 <= i < |c| ==> !IsLineTerminator(c[i])
    ensures forall i :: 0 <= i <= |c| ==> !OccursAt(Close(tag), c, i)
  {
    var k := m.start + |Open(tag)|;
    var c := s[k..m.closeAt];
    assert forall i :: 0 <= i <= |c| && OccursAt(Close(tag), c, i) ==> OccursAt(Close(tag), s, k + i) by {
      forall i | 0 <= i <= |c| && OccursAt(Close(tag), c, i) ensures OccursAt(Close(tag), s, k + i) {
        OccursInSlice(Close(tag), s, k, m.closeAt, i);
      }
    }
    c
  }

  /** The whole matched text `<T>...</T>`. */
  function Text(s: string, tag: string, m: Match): (t: string)
    requires IsMatch(s, tag, m)
    ensures t == Open(tag) + Content(s, tag, m) + Close(tag)
  {
    s[m.start..End(tag, m)]
  }

  /** The strings in the array `s.match(/<T>(.*?)<\/T>/g)` returns. */
  function MatchTexts(s: string, tag: string): (r: seq<string>)
    ensures |r| == |AllMatches(s, tag, 0)|
  {
    var ms := AllMatches(s, tag, 0);
    seq(|ms|, k requires 0 <= k < |ms| => Text(s, tag, ms[k]))
  }

  /** `match[1]` of `s.match(/<T>(.*?)<\/T>/)`, or None when it returns `null`. */
  function FirstContent(s: string, tag: string): (r: Option<string>)
    ensures r.None? <==> forall i :: MatchAt(s, tag, i).None?
  {
    match FirstMatch(s, tag, 0)
    case None => None
    case Some(m) => Some(Content(s, tag, m))
  }

  /** `s.replace(/<\/?T>/g, '')`: a single left-to-right pass; text that becomes a
      tag only once another tag is removed is not removed again. */
  function StripTag(s: string, tag: string): (r: string)
    ensures |r| <= |s|
    decreases |s|
  {
    if s == [] then []
    else if OccursAt(Close(tag), s, 0) then StripTag(s[|Close(tag)|..], tag)
    else if OccursAt(Open(tag), s, 0) then StripTag(s[|Open(tag)|..], tag)
    else [s[0]] + StripTag(s[1..], tag)
  }

  /** In a tag `<T>` or `</T>` of a plain word, `<` appears only in front. */
  lemma BracketOnlyInFront(tag: string)
    requires TagName(tag)
    ensures forall i :: 0 < i < |Open(tag)| ==> Open(tag)[i] != '<'
    ensures forall i :: 0 < i < |Close(tag)| ==> Close(tag)[i] != '<'
  {
    forall i | 0 < i < |Close(tag)| ensures Close(tag)[i] != '<' {
      if 2 <= i < |Close(tag)| - 1 { assert Close(tag)[i] == tag[i - 2]; }
    }
    forall i | 0 < i < |Open(tag)| ensures Open(tag)[i] != '<' {
      if i < |Open(tag)| - 1 { assert Open(tag)[i] == tag[i - 1]; }
    }
  }

  /** No tag straddles a boundary in front of a `<`, so the replacement pass can be
      split there. */
  lemma {:induction false} StripTagAppend(a: string, b: string, tag: string)
    requires TagName(tag)
    requires b == [] || b[0] == '<'
    ensures StripTag(a + b, tag) == StripTag(a, tag) + StripTag(b, tag)
    decreases |a|
  {
    var s := a + b;
    var C, O := Close(tag), Open(tag);
    if a == [] {
      assert s == b;
    } else {
      BracketOnlyInFront(tag);
      if |a| < |C| && |b| > 0 {
        assert s[|a|] == '<' && C[|a|] != '<';
      }
      if |a| < |O| && |b| > 0 {
        assert s[|a|] == '<' && O[|a|] != '<';
      }
      if OccursAt(C, s, 0) {
        assert a[..|C|] == s[..|C|];
        assert s[|C|..] == a[|C|..] + b;
        StripTagAppend(a[|C|..], b, tag);
      } else if OccursAt(O, s, 0) {
        assert a[..|O|] == s[..|O|];
        assert !OccursAt(C, a, 0) by {
          if |C| <= |a| { assert a[..|C|] == s[..|C|]; }
        }
        assert s[|O|..] == a[|O|..] + b;
        StripTagAppend(a[|O|..], b, tag);
      } else {
        assert !OccursAt(C, a, 0) by {
          if |C| <= |a| { assert a[..|C|] == s[..|C|]; }
        }
        assert !OccursAt(O, a, 0) by {
          if |O| <= |a| { assert a[..|O|] == s[..|O|]; }
        }
        assert s[1..] == a[1..] + b;
        StripTagAppend(a[1..], b, tag);
      }
    }
  }

  /** Text without any `<` passes through the replacement unchanged. */
  lemma {:induction false} StripTagPlain(c: string, tag: string)
    requires NoBracket(c)
    ensures StripTag(c, tag) == c
    decreases |c|
  {
    if c != [] {
      assert !OccursAt(Close(tag), c, 0) by {
        if |Close(tag)| <= |c| { assert c[..|Close(tag)|][0] == c[0]; }
      }
      assert !OccursAt(Open(tag), c, 0) by {
        if |Open(tag)| <= |c| { assert c[..|Open(tag)|][0] == c[0]; }
      }
      StripTagPlain(c[1..], tag);
    }
  }

  /** Removing `<T>` and `</T>` from a matched `<T>...</T>` leaves its group with
      every `<T>` inside it removed (the group holds no `</T>`, see Content). */
  lemma StripTagOfMatch(s: string, tag: string, m: Match)
    requires TagName(tag) && IsMatch(s, tag, m)
    ensures StripTag(Text(s, tag, m), tag) == StripTag(Content(s, tag, m), tag)
    ensures NoBracket(Content(s, tag, m)) ==> StripTag(Text(s, tag, m), tag) == Content(s, tag, m)
  {
    var c := Content(s, tag, m);
    var C, O := Close(tag), Open(tag);
    assert Text(s, tag, m) == O + (c + C);
    BracketOnlyInFront(tag);
    assert !OccursAt(C, O + (c + C), 0) by {
      assert (O + (c + C))[1] == tag[0] != '/';
    }
    assert (O + (c + C))[|O|..] == c + C;
    StripTagAppend(c, C, tag);
    assert C[|C|..] == [];
    if NoBracket(c) {
      StripTagPlain(c, tag);
    }
  }

  /** Text without any `<` holds no match. */
  lemma NoMatchWithoutBracket(s: string, tag: string)
    requires NoBracket(s)
    ensures forall i :: MatchAt(s, tag, i).None?
  {
    forall i: nat ensures !OccursAt(Open(tag), s, i) {
      if i + |Open(tag)| <= |s| {
        assert s[i..i + |Open(tag)|][0] == s[i];
      }
    }
  }

  /** StripTagOfMatch for the `i`-th string of the global match array. */
  lemma StripTagOfMatchText(s: string, tag: string, i: nat)
    requires TagName(tag) && i < |AllMatches(s, tag, 0)|
    ensures StripTag(MatchTexts(s, tag)[i], tag) == StripTag(Content(s, tag, AllMatches(s, tag, 0)[i]), tag)
    ensures NoBracket(Content(s, tag, AllMatches(s, tag, 0)[i])) ==>
      StripTag(MatchTexts(s, tag)[i], tag) == Content(s, tag, AllMatches(s, tag, 0)[i])
  {
    var m := AllMatches(s, tag, 0)[i];
    assert MatchTexts(s, tag)[i] == Text(s, tag, m);
    StripTagOfMatch(s, tag, m);
  }
}
