/** The string operations the install pipeline relies on, with the meaning
    JavaScript gives them: `startsWith`, `endsWith`, `includes`, and
    `replace` with a global literal pattern, characterised through
    `split`/`join`. */
module Strings {

  /** `s.startsWith(prefix)`. */
  predicate StartsWith(s: string, prefix: string)
  {
    |prefix| <= |s| && s[..|prefix|] == prefix
  }

  /** `s.endsWith(suffix)`. */
  predicate EndsWith(s: string, suffix: string)
  {
    |suffix| <= |s| && s[|s| - |suffix|..] == suffix
  }

  /** `s.includes(t)`, scanning s from the left. */
  predicate Contains(s: string, t: string)
    decreases |s|
  {
    StartsWith(s, t) || (|s| > 0 && Contains(s[1..], t))
  }

  /** t occurs in s at position i. */
  ghost predicate OccursAt(s: string, t: string, i: int)
  {
    0 <= i && i + |t| <= |s| && s[i..i + |t|] == t
  }

  /** An occurrence at position i is found by the left-to-right scan. */
  lemma {:induction false} OccursAtContains(s: string, t: string, i: int)
    requires OccursAt(s, t, i)
    ensures Contains(s, t)
    decreases i
  {
    if i == 0 {
      assert s[..|t|] == s[0..|t|];
    } else {
      assert s[1..][i - 1..i - 1 + |t|] == s[i..i + |t|];
      OccursAtContains(s[1..], t, i - 1);
    }
  }

  /** What the left-to-right scan finds is an occurrence. */
  lemma {:induction false} ContainsOccurs(s: string, t: string)
    requires Contains(s, t)
    ensures exists i :: OccursAt(s, t, i)
    decreases |s|
  {
    if StartsWith(s, t) {
      assert OccursAt(s, t, 0);
    } else {
      ContainsOccurs(s[1..], t);
      var i :| OccursAt(s[1..], t, i);
      assert s[1..][i..i + |t|] == s[i + 1..i + 1 + |t|];
      assert OccursAt(s, t, i + 1);
    }
  }

  /** `includes` holds exactly when there is a position at which t occurs. */
  lemma ContainsIff(s: string, t: string)
    ensures Contains(s, t) <==> exists i :: OccursAt(s, t, i)
  {
    if Contains(s, t) {
      ContainsOccurs(s, t);
    }
    forall i | OccursAt(s, t, i)
      ensures Contains(s, t)
    {
      OccursAtContains(s, t, i);
    }
  }

  /** An occurrence needs room: t is no longer than any string containing it. */
  lemma {:induction false} ContainsLength(s: string, t: string)
    requires Contains(s, t)
    ensures |t| <= |s|
    decreases |s|
  {
    if !StartsWith(s, t) {
      ContainsLength(s[1..], t);
    }
  }

  /** A prefix of a string that starts with p makes the whole string start with p. */
  lemma StartsWithExtends(a: string, b: string, p: string)
    requires StartsWith(a, p) && a <= b
    ensures StartsWith(b, p)
  {
    assert b[..|p|] == a[..|p|];
  }

  /** `s.replace(/pat/g, rep)` for a pattern with no regular-expression
      metacharacters: scanning from the left, each occurrence of pat is
      replaced by rep and scanning resumes after it. */
  function ReplaceAll(s: string, pat: string, rep: string): string
    requires |pat| > 0
    decreases |s|
  {
    if StartsWith(s, pat) then rep + ReplaceAll(s[|pat|..], pat, rep)
    else if |s| == 0 then s
    else [s[0]] + ReplaceAll(s[1..], pat, rep)
  }

  /** A character that does not begin an occurrence is copied. */
  lemma ReplaceAllPastChar(c: char, s: string, pat: string, rep: string)
    requires |pat| > 0 && !StartsWith([c] + s, pat)
    ensures ReplaceAll([c] + s, pat, rep) == [c] + ReplaceAll(s, pat, rep)
  {
    assert ([c] + s)[1..] == s;
  }

  /** The pattern alone becomes the replacement. */
  lemma ReplaceAllOfPattern(pat: string, rep: string)
    requires |pat| > 0
    ensures ReplaceAll(pat, pat, rep) == rep
  {
    assert StartsWith(pat, pat);
    assert pat[|pat|..] == "";
    assert !StartsWith("", pat);
  }

  /** With pat a character c followed by rep, rewriting pat to rep once
      turns c + pat into pat, which a second pass rewrites again. */
  lemma ReplaceAllOnePass(c: char, rep: string)
    requires |rep| > 0 && rep[0] != c
    ensures var pat := [c] + rep;
      && ReplaceAll([c] + pat, pat, rep) == pat
      && ReplaceAll(pat, pat, rep) == rep != pat
  {
    var pat := [c] + rep;
    assert !StartsWith([c] + pat, pat) by {
      assert ([c] + pat)[1] != pat[1];
    }
    ReplaceAllPastChar(c, pat, pat, rep);
    ReplaceAllOfPattern(pat, rep);
  }

  /** `s.split(pat)`: the pieces of s between the leftmost non-overlapping
      occurrences of pat. */
  function Split(s: string, pat: string): (pieces: seq<string>)
    requires |pat| > 0
    ensures |pieces| >= 1
    decreases |s|
  {
    if StartsWith(s, pat) then [""] + Split(s[|pat|..], pat)
    else if |s| == 0 then [""]
    else
      var rest := Split(s[1..], pat);
      [[s[0]] + rest[0]] + rest[1..]
  }

  /** `pieces.join(sep)`. */
  function Join(pieces: seq<string>, sep: string): string
    requires |pieces| >= 1
    decreases |pieces|
  {
    if |pieces| == 1 then pieces[0] else pieces[0] + sep + Join(pieces[1..], sep)
  }

  lemma JoinPrepend(c: char, pieces: seq<string>, sep: string)
    requires |pieces| >= 1
    ensures Join([[c] + pieces[0]] + pieces[1..], sep) == [c] + Join(pieces, sep)
  {
    var q := [[c] + pieces[0]] + pieces[1..];
    assert q[1..] == pieces[1..];
  }

  lemma JoinCons(x: string, pieces: seq<string>, sep: string)
    requires |pieces| >= 1
    ensures Join([x] + pieces, sep) == x + sep + Join(pieces, sep)
  {
    assert ([x] + pieces)[1..] == pieces;
  }

  /** Joining the pieces back with the pattern gives the original string. */
  lemma {:induction false} SplitJoin(s: string, pat: string)
    requires |pat| > 0
    ensures Join(Split(s, pat), pat) == s
    decreases |s|
  {
    if StartsWith(s, pat) {
      var rest := s[|pat|..];
      var u := Split(rest, pat);
      SplitJoin(rest, pat);
      JoinCons("", u, pat);
      assert Split(s, pat) == [""] + u;
      assert s == pat + rest;
    } else if |s| > 0 {
      var t := Split(s[1..], pat);
      SplitJoin(s[1..], pat);
      JoinPrepend(s[0], t, pat);
      assert Split(s, pat) == [[s[0]] + t[0]] + t[1..];
      assert s == [s[0]] + s[1..];
    }
  }

  /** The global replacement is the split pieces joined with the replacement. */
  lemma {:induction false} ReplaceAllIsSplitJoin(s: string, pat: string, rep: string)
    requires |pat| > 0
    ensures ReplaceAll(s, pat, rep) == Join(Split(s, pat), rep)
    decreases |s|
  {
    if StartsWith(s, pat) {
      ReplaceAllIsSplitJoin(s[|pat|..], pat, rep);
      var ps := Split(s, pat);
      assert ps[1..] == Split(s[|pat|..], pat);
    } else if |s| == 0 {
    } else {
      ReplaceAllIsSplitJoin(s[1..], pat, rep);
      JoinPrepend(s[0], Split(s[1..], pat), rep);
    }
  }

  lemma {:induction false} SplitHeadIsPrefix(s: string, pat: string)
    requires |pat| > 0
    ensures Split(s, pat)[0] <= s
    decreases |s|
  {
    if !StartsWith(s, pat) && |s| > 0 {
      SplitHeadIsPrefix(s[1..], pat);
      assert s == [s[0]] + s[1..];
    }
  }

  /** No piece contains the pattern: every occurrence was split on. */
  lemma {:induction false} SplitPiecesFree(s: string, pat: string)
    requires |pat| > 0
    ensures forall k :: 0 <= k < |Split(s, pat)| ==> !Contains(Split(s, pat)[k], pat)
    decreases |s|
  {
    var ps := Split(s, pat);
    if StartsWith(s, pat) {
      SplitPiecesFree(s[|pat|..], pat);
      assert ps[1..] == Split(s[|pat|..], pat);
      assert !Contains(ps[0], pat);
    } else if |s| == 0 {
    } else {
      var t := Split(s[1..], pat);
      SplitPiecesFree(s[1..], pat);
      SplitHeadIsPrefix(s[1..], pat);
      var x := [s[0]] + t[0];
      assert x[1..] == t[0];
      if StartsWith(x, pat) {
        StartsWithExtends(x, s, pat);
      }
      assert !Contains(x, pat);
      forall k | 1 <= k < |ps|
        ensures !Contains(ps[k], pat)
      {
        assert ps[k] == t[k];
      }
    }
  }

  /** Each split point is the leftmost occurrence after the previous one:
      no occurrence starts inside a piece and runs into the pattern that
      follows it. */
  lemma {:induction false} SplitLeftmost(s: string, pat: string)
    requires |pat| > 0
    ensures forall k :: 0 <= k < |Split(s, pat)| - 1 ==>
              !Contains(Split(s, pat)[k] + pat[..|pat| - 1], pat)
    decreases |s|
  {
    if StartsWith(s, pat) {
      SplitLeftmost(s[|pat|..], pat);
      SplitLeftmostAtMatch(s, pat);
    } else if |s| > 0 {
      SplitLeftmost(s[1..], pat);
      SplitLeftmostPastChar(s, pat);
    }
  }

  lemma SplitLeftmostAtMatch(s: string, pat: string)
    requires |pat| > 0 && StartsWith(s, pat)
    requires forall k :: 0 <= k < |Split(s[|pat|..], pat)| - 1 ==>
               !Contains(Split(s[|pat|..], pat)[k] + pat[..|pat| - 1], pat)
    ensures forall k :: 0 <= k < |Split(s, pat)| - 1 ==>
              !Contains(Split(s, pat)[k] + pat[..|pat| - 1], pat)
  {
    var ps := Split(s, pat);
    var pat' := pat[..|pat| - 1];
    var u := Split(s[|pat|..], pat);
    assert ps == [""] + u;
    if Contains(ps[0] + pat', pat) {
      ContainsLength(ps[0] + pat', pat);
    }
    forall k | 1 <= k < |ps| - 1
      ensures !Contains(ps[k] + pat', pat)
    {
      assert ps[k] == u[k - 1];
    }
  }

  /** When there is a cut, the first piece followed by the pattern begins s. */
  lemma SplitHeadThenPattern(s: string, pat: string)
    requires |pat| > 0 && |Split(s, pat)| >= 2
    ensures Split(s, pat)[0] + pat[..|pat| - 1] <= s
  {
    var t := Split(s, pat);
    SplitJoin(s, pat);
    JoinCons(t[0], t[1..], pat);
    assert [t[0]] + t[1..] == t;
    assert s == t[0] + pat + Join(t[1..], pat);
  }

  lemma PrependPrefix(c: char, a: string, b: string)
    requires a <= b
    ensures [c] + a <= [c] + b
  {
  }

  lemma SplitHeadPastChar(s: string, pat: string)
    requires |pat| > 0 && !StartsWith(s, pat) && |s| > 0
    requires |Split(s[1..], pat)| >= 2
    requires !Contains(Split(s[1..], pat)[0] + pat[..|pat| - 1], pat)
    ensures !Contains([s[0]] + Split(s[1..], pat)[0] + pat[..|pat| - 1], pat)
  {
    var pat' := pat[..|pat| - 1];
    var t0 := Split(s[1..], pat)[0];
    var y := [s[0]] + t0 + pat';
    SplitHeadThenPattern(s[1..], pat);
    PrependPrefix(s[0], t0 + pat', s[1..]);
    assert [s[0]] + (t0 + pat') == y;
    assert [s[0]] + s[1..] == s;
    assert y[1..] == t0 + pat';
    if StartsWith(y, pat) {
      StartsWithExtends(y, s, pat);
    }
  }

  lemma SplitLeftmostPastChar(s: string, pat: string)
    requires |pat| > 0 && !StartsWith(s, pat) && |s| > 0
    requires forall k :: 0 <= k < |Split(s[1..], pat)| - 1 ==>
               !Contains(Split(s[1..], pat)[k] + pat[..|pat| - 1], pat)
    ensures forall k :: 0 <= k < |Split(s, pat)| - 1 ==>
              !Contains(Split(s, pat)[k] + pat[..|pat| - 1], pat)
  {
    var t := Split(s[1..], pat);
    if |t| >= 2 {
      SplitHeadPastChar(s, pat);
    }
    LeftmostReplaceHead(t, [s[0]] + t[0], pat[..|pat| - 1], pat);
  }

  lemma LeftmostReplaceHead(t: seq<string>, x: string, tail: string, pat: string)
    requires |t| >= 1
    requires forall k :: 0 <= k < |t| - 1 ==> !Contains(t[k] + tail, pat)
    requires |t| >= 2 ==> !Contains(x + tail, pat)
    ensures forall k :: 0 <= k < |[x] + t[1..]| - 1 ==> !Contains(([x] + t[1..])[k] + tail, pat)
  {
    var ps := [x] + t[1..];
    forall k | 1 <= k < |ps| - 1
      ensures !Contains(ps[k] + tail, pat)
    {
      assert ps[k] == t[k];
    }
  }

  /** A string free of the pattern is a single piece. */
  lemma {:induction false} SplitAbsent(s: string, pat: string)
    requires |pat| > 0
    ensures |Split(s, pat)| == 1 <==> !Contains(s, pat)
    decreases |s|
  {
    if !Contains(s, pat) {
      if |s| > 0 {
        SplitAbsent(s[1..], pat);
      }
    } else {
      SplitJoin(s, pat);
      SplitPiecesFree(s, pat);
    }
  }

  /** Joining with a shorter separator gives a string shorter by the
      difference once per separator. */
  lemma {:induction false} JoinLengths(pieces: seq<string>, a: string, b: string)
    requires |pieces| >= 1
    ensures |Join(pieces, a)| - |Join(pieces, b)| == (|pieces| - 1) * (|a| - |b|)
    decreases |pieces|
  {
    if |pieces| > 1 {
      JoinLengths(pieces[1..], a, b);
    }
  }

  /** Each separator of a longer string adds at least one character. */
  lemma {:induction false} JoinLonger(pieces: seq<string>, a: string, b: string)
    requires |pieces| >= 1 && |a| < |b|
    ensures |Join(pieces, a)| + |pieces| - 1 <= |Join(pieces, b)|
    decreases |pieces|
  {
    if |pieces| > 1 {
      JoinLonger(pieces[1..], a, b);
    }
  }

  /** A replacement of a different length leaves the string unchanged
      exactly when the pattern does not occur in it. */
  lemma ReplaceAllUnchangedIff(s: string, pat: string, rep: string)
    requires |pat| > 0 && |rep| != |pat|
    ensures ReplaceAll(s, pat, rep) == s <==> !Contains(s, pat)
  {
    ReplaceAllIsSplitJoin(s, pat, rep);
    SplitJoin(s, pat);
    SplitAbsent(s, pat);
    var ps := Split(s, pat);
    if |ps| == 1 {
      assert Join(ps, rep) == ps[0] == Join(ps, pat);
    } else {
      if |rep| < |pat| {
        JoinLonger(ps, rep, pat);
      } else {
        JoinLonger(ps, pat, rep);
      }
    }
  }
}
