/**
 * The two regular expressions of the resolver, written as scanners. Each pattern
 * is first stated declaratively (what a match at a position is); the scanner is
 * then proved to return the capture of the leftmost match, which is what the
 * regex crate's `captures` returns for these patterns.
 */
module Patterns {
  import opened Options

  const Quotes: set<char> := {'\'', '"'}

  /** The first index at or after `k` holding a character of `stop`, or `|text|` if there is none. */
  function Find(text: string, k: nat, stop: set<char>): (j: nat)
    requires k <= |text|
    ensures k <= j <= |text|
    ensures forall m :: k <= m < j ==> text[m] !in stop
    ensures j < |text| ==> text[j] in stop
    decreases |text| - k
  {
    if k == |text| || text[k] in stop then k else Find(text, k + 1, stop)
  }

  /** No `stop` character from `k` up to `j`, and one at `j`: `Find` stops at `j`. */
  lemma FindStopsAt(text: string, k: nat, stop: set<char>, j: nat)
    requires k <= j <= |text|
    requires forall m :: k <= m < j ==> text[m] !in stop
    requires j < |text| ==> text[j] in stop
    ensures Find(text, k, stop) == j
  {
  }

  // ---------------------------------------------------------------------------
  // Gradle: (?m)^version ['"](?P<version>[^'"]+)['"]$
  // ---------------------------------------------------------------------------

  /** Where `^` can match under the `m` flag: the start of the text or just after a `\n`. */
  predicate LineStart(text: string, i: int) {
    0 <= i <= |text| && (i == 0 || text[i - 1] == '\n')
  }

  /**
   * The Gradle pattern matches at `i` capturing `v`: a line start, `version `,
   * either quote, one or more characters that are neither quote (newlines
   * included), either quote, then a `\n` or the end of the text.
   */
  predicate IsGradleMatch(text: string, i: int, v: string) {
    && LineStart(text, i)
    && |v| > 0
    && i + 10 + |v| <= |text|
    && text[i..i + 8] == "version "
    && text[i + 8] in Quotes
    && text[i + 9..i + 9 + |v|] == v
    && (forall k :: 0 <= k < |v| ==> v[k] !in Quotes)
    && text[i + 9 + |v|] in Quotes
    && (i + 10 + |v| == |text| || text[i + 10 + |v|] == '\n')
  }

  /** A match that no match starts before. */
  ghost predicate IsLeftmostGradleMatch(text: string, i: int, v: string) {
    IsGradleMatch(text, i, v) && forall j, w :: 0 <= j < i ==> !IsGradleMatch(text, j, w)
  }

  /** The capture of the Gradle pattern anchored at `i`, if it matches there. */
  function GradleMatchAt(text: string, i: nat): Option<string>
    requires i <= |text|
  {
    if LineStart(text, i) && i + 9 <= |text| && text[i..i + 8] == "version " && text[i + 8] in Quotes then
      var j := Find(text, i + 9, Quotes);
      if i + 9 < j < |text| && (j + 1 == |text| || text[j + 1] == '\n') then Some(text[i + 9..j]) else None
    else None
  }

  /** What `GradleMatchAt` returns is a match. */
  lemma GradleMatchAtSound(text: string, i: nat)
    requires i <= |text|
    ensures GradleMatchAt(text, i).Some? ==> IsGradleMatch(text, i, GradleMatchAt(text, i).value)
  {
    if GradleMatchAt(text, i).Some? {
      var v := GradleMatchAt(text, i).value;
      assert forall k :: 0 <= k < |v| ==> v[k] == text[i + 9 + k];
    }
  }

  /** Every match at `i` is what `GradleMatchAt` returns: the value ends at the first quote. */
  lemma GradleMatchAtComplete(text: string, i: nat, v: string)
    requires i <= |text|
    ensures IsGradleMatch(text, i, v) ==> GradleMatchAt(text, i) == Some(v)
  {
    if IsGradleMatch(text, i, v) {
      forall m | i + 9 <= m < i + 9 + |v|
        ensures text[m] !in Quotes
      {
        assert text[m] == v[m - i - 9];
      }
      FindStopsAt(text, i + 9, Quotes, i + 9 + |v|);
    }
  }

  /** `GradleMatchAt` finds the match at `i` exactly when there is one. */
  lemma GradleMatchAtCorrect(text: string, i: nat)
    requires i <= |text|
    ensures GradleMatchAt(text, i).Some? ==> IsGradleMatch(text, i, GradleMatchAt(text, i).value)
    ensures GradleMatchAt(text, i).None? ==> forall v :: !IsGradleMatch(text, i, v)
  {
    GradleMatchAtSound(text, i);
    forall v
      ensures GradleMatchAt(text, i).None? ==> !IsGradleMatch(text, i, v)
    {
      GradleMatchAtComplete(text, i, v);
    }
  }

  /** At most one capture at any position. */
  lemma GradleMatchUnique(text: string, i: nat, v: string, w: string)
    requires i <= |text|
    requires IsGradleMatch(text, i, v) && IsGradleMatch(text, i, w)
    ensures v == w
  {
    GradleMatchAtComplete(text, i, v);
    GradleMatchAtComplete(text, i, w);
  }

  /** The leftmost Gradle match at or after `i`, with its position. */
  function GradleSearch(text: string, i: nat): Option<(nat, string)>
    requires i <= |text|
    decreases |text| - i
  {
    match GradleMatchAt(text, i)
    case Some(v) => Some((i, v))
    case None =>
      var k := Find(text, i, {'\n'});
      if k == |text| then None else GradleSearch(text, k + 1)
  }

  /** The search returns a match, and no match starts between `i` and it. */
  lemma {:induction false} GradleSearchCorrect(text: string, i: nat)
    requires i <= |text|
    ensures GradleSearch(text, i).Some? ==>
      var (m, v) := GradleSearch(text, i).value; i <= m && IsGradleMatch(text, m, v)
    ensures forall j, w :: i <= j && (GradleSearch(text, i).None? || j < GradleSearch(text, i).value.0) ==> !IsGradleMatch(text, j, w)
    decreases |text| - i
  {
    GradleMatchAtCorrect(text, i);
    if GradleMatchAt(text, i).None? {
      var k := Find(text, i, {'\n'});
      if k < |text| {
        GradleSearchCorrect(text, k + 1);
      }
      forall j, w | i < j <= k
        ensures !IsGradleMatch(text, j, w)
      {
        if j <= |text| {
          assert text[j - 1] != '\n';
        }
      }
    }
  }

  /** `re.captures(text)` followed by `caps["version"]` for the Gradle pattern. */
  function GradleCapture(text: string): Option<string> {
    match GradleSearch(text, 0)
    case Some((_, v)) => Some(v)
    case None => None
  }

  /** The capture is the value of the leftmost match, and there is none only when nothing matches. */
  lemma GradleCaptureCorrect(text: string)
    ensures GradleCapture(text).Some? ==> exists i :: IsLeftmostGradleMatch(text, i, GradleCapture(text).value)
    ensures GradleCapture(text).None? <==> forall i, v :: !IsGradleMatch(text, i, v)
  {
    GradleSearchCorrect(text, 0);
    if GradleSearch(text, 0).Some? {
      var (i, v) := GradleSearch(text, 0).value;
      assert IsLeftmostGradleMatch(text, i, v);
    }
  }

  /** The leftmost match is unique: the capture is determined by the text. */
  lemma LeftmostGradleMatchUnique(text: string, i: int, v: string, j: int, w: string)
    requires IsLeftmostGradleMatch(text, i, v) && IsLeftmostGradleMatch(text, j, w)
    ensures i == j && v == w
  {
    if i == j {
      GradleMatchUnique(text, i, v, w);
    }
  }

  // ---------------------------------------------------------------------------
  // Mix: (?m)version: "(?P<version>[^"]+)"   (no anchors, so the m flag has no effect)
  // ---------------------------------------------------------------------------

  /**
   * The Mix pattern matches at `i` capturing `v`: `version: "`, one or more
   * characters other than `"` (newlines included), then `"`.
   */
  predicate IsMixMatch(text: string, i: int, v: string) {
    && 0 <= i
    && |v| > 0
    && i + 11 + |v| <= |text|
    && text[i..i + 10] == "version: \""
    && text[i + 10..i + 10 + |v|] == v
    && (forall k :: 0 <= k < |v| ==> v[k] != '"')
    && text[i + 10 + |v|] == '"'
  }

  ghost predicate IsLeftmostMixMatch(text: string, i: int, v: string) {
    IsMixMatch(text, i, v) && forall j, w :: 0 <= j < i ==> !IsMixMatch(text, j, w)
  }

  /** The capture of the Mix pattern starting exactly at `i`, if it matches there. */
  function MixMatchAt(text: string, i: nat): Option<string>
    requires i <= |text|
  {
    if i + 10 <= |text| && text[i..i + 10] == "version: \"" then
      var j := Find(text, i + 10, {'"'});
      if i + 10 < j < |text| then Some(text[i + 10..j]) else None
    else None
  }

  /** What `MixMatchAt` returns is a match. */
  lemma MixMatchAtSound(text: string, i: nat)
    requires i <= |text|
    ensures MixMatchAt(text, i).Some? ==> IsMixMatch(text, i, MixMatchAt(text, i).value)
  {
    if MixMatchAt(text, i).Some? {
      var v := MixMatchAt(text, i).value;
      assert forall k :: 0 <= k < |v| ==> v[k] == text[i + 10 + k];
    }
  }

  /** Every match at `i` is what `MixMatchAt` returns: the value ends at the first `"`. */
  lemma MixMatchAtComplete(text: string, i: nat, v: string)
    requires i <= |text|
    ensures IsMixMatch(text, i, v) ==> MixMatchAt(text, i) == Some(v)
  {
    if IsMixMatch(text, i, v) {
      forall m | i + 10 <= m < i + 10 + |v|
        ensures text[m] !in {'"'}
      {
        assert text[m] == v[m - i - 10];
      }
      FindStopsAt(text, i + 10, {'"'}, i + 10 + |v|);
    }
  }

  /** `MixMatchAt` finds the match at `i` exactly when there is one. */
  lemma MixMatchAtCorrect(text: string, i: nat)
    requires i <= |text|
    ensures MixMatchAt(text, i).Some? ==> IsMixMatch(text, i, MixMatchAt(text, i).value)
    ensures MixMatchAt(text, i).None? ==> forall v :: !IsMixMatch(text, i, v)
  {
    MixMatchAtSound(text, i);
    forall v
      ensures MixMatchAt(text, i).None? ==> !IsMixMatch(text, i, v)
    {
      MixMatchAtComplete(text, i, v);
    }
  }

  /** At most one capture at any position. */
  lemma MixMatchUnique(text: string, i: nat, v: string, w: string)
    requires i <= |text|
    requires IsMixMatch(text, i, v) && IsMixMatch(text, i, w)
    ensures v == w
  {
    MixMatchAtComplete(text, i, v);
    MixMatchAtComplete(text, i, w);
  }

  /** The leftmost Mix match at or after `i`, with its position. */
  function MixSearch(text: string, i: nat): Option<(nat, string)>
    requires i <= |text|
    decreases |text| - i
  {
    match MixMatchAt(text, i)
    case Some(v) => Some((i, v))
    case None => if i == |text| then None else MixSearch(text, i + 1)
  }

  /** The search returns a match, and no match starts between `i` and it. */
  lemma {:induction false} MixSearchCorrect(text: string, i: nat)
    requires i <= |text|
    ensures MixSearch(text, i).Some? ==>
      var (m, v) := MixSearch(text, i).value; i <= m && IsMixMatch(text, m, v)
    ensures forall j, w :: i <= j && (MixSearch(text, i).None? || j < MixSearch(text, i).value.0) ==> !IsMixMatch(text, j, w)
    decreases |text| - i
  {
    MixMatchAtCorrect(text, i);
    if MixMatchAt(text, i).None? && i < |text| {
      MixSearchCorrect(text, i + 1);
    }
  }

  /** `re.captures(text)` followed by `caps["version"]` for the Mix pattern. */
  function MixCapture(text: string): Option<string> {
    match MixSearch(text, 0)
    case Some((_, v)) => Some(v)
    case None => None
  }

  /** The capture is the value of the leftmost match, and there is none only when nothing matches. */
  lemma MixCaptureCorrect(text: string)
    ensures MixCapture(text).Some? ==> exists i :: IsLeftmostMixMatch(text, i, MixCapture(text).value)
    ensures MixCapture(text).None? <==> forall i, v :: !IsMixMatch(text, i, v)
  {
    MixSearchCorrect(text, 0);
    if MixSearch(text, 0).Some? {
      var (i, v) := MixSearch(text, 0).value;
      assert IsLeftmostMixMatch(text, i, v);
    }
  }

  lemma LeftmostMixMatchUnique(text: string, i: int, v: string, j: int, w: string)
    requires IsLeftmostMixMatch(text, i, v) && IsLeftmostMixMatch(text, j, w)
    ensures i == j && v == w
  {
    if i == j {
      MixMatchUnique(text, i, v, w);
    }
  }
}

/**
 * How the two scanners behave on texts built line by line, the shape of the
 * Gradle and Mix files they are meant for.
 */
module PatternFacts {
  import opened Options
  import opened Patterns

  /** Each line followed by a newline. */
  function JoinLines(lines: seq<string>): string {
    if lines == [] then [] else lines[0] + "\n" + JoinLines(lines[1..])
  }

  predicate StartsWith(s: string, prefix: string) {
    |prefix| <= |s| && s[..|prefix|] == prefix
  }

  /** A Gradle capture is fixed by any leftmost match. */
  lemma GradleCaptureOfLeftmost(text: string, i: int, v: string)
    requires IsLeftmostGradleMatch(text, i, v)
    ensures GradleCapture(text) == Some(v)
  {
    GradleCaptureCorrect(text);
    var r := GradleCapture(text);
    assert r.Some?;
    var i' :| IsLeftmostGradleMatch(text, i', r.value);
    LeftmostGradleMatchUnique(text, i, v, i', r.value);
  }

  /** A slice of `rest` is the same slice of `pre + rest`, shifted by `|pre|`. */
  lemma SliceOfAppend(pre: string, rest: string, a: nat, b: nat)
    requires a <= b <= |rest|
    ensures (pre + rest)[|pre| + a..|pre| + b] == rest[a..b]
  {
    assert forall m :: 0 <= m < b - a ==> (pre + rest)[|pre| + a..|pre| + b][m] == rest[a..b][m];
  }

  /** After a newline (or at the start) matching is unaffected by the text before. */
  lemma GradleShift(pre: string, rest: string, j: nat, w: string)
    requires pre == [] || pre[|pre| - 1] == '\n'
    ensures IsGradleMatch(pre + rest, |pre| + j, w) <==> IsGradleMatch(rest, j, w)
  {
    var t := pre + rest;
    var k := |pre| + j;
    if j + 10 + |w| <= |rest| {
      assert LineStart(t, k) == LineStart(rest, j) by {
        if j > 0 {
          assert t[k - 1] == rest[j - 1];
        }
      }
      SliceOfAppend(pre, rest, j, j + 8);
      assert t[k + 8] == rest[j + 8];
      SliceOfAppend(pre, rest, j + 9, j + 9 + |w|);
      assert t[k + 9 + |w|] == rest[j + 9 + |w|];
      assert k + 10 + |w| == |t| <==> j + 10 + |w| == |rest|;
      if j + 10 + |w| < |rest| {
        assert t[k + 10 + |w|] == rest[j + 10 + |w|];
      }
    }
  }

  /** No match in `pre`, nor in the first `n` positions of `rest`: none in the first `|pre| + n` of the whole. */
  lemma GradleNoMatchBefore(pre: string, rest: string, n: int)
    requires pre == [] || pre[|pre| - 1] == '\n'
    requires forall j, w :: 0 <= j < |pre| ==> !IsGradleMatch(pre + rest, j, w)
    requires forall j, w :: 0 <= j < n ==> !IsGradleMatch(rest, j, w)
    ensures forall j, w :: 0 <= j < |pre| + n ==> !IsGradleMatch(pre + rest, j, w)
  {
    forall j, w | |pre| <= j < |pre| + n
      ensures !IsGradleMatch(pre + rest, j, w)
    {
      GradleShift(pre, rest, j - |pre|, w);
    }
  }

  /** Text ending in a newline in which no match starts can be dropped from the front. */
  lemma GradleSkipsPrefix(pre: string, rest: string)
    requires pre == [] || pre[|pre| - 1] == '\n'
    requires forall j, w :: 0 <= j < |pre| ==> !IsGradleMatch(pre + rest, j, w)
    ensures GradleCapture(pre + rest) == GradleCapture(rest)
  {
    GradleCaptureCorrect(rest);
    if GradleCapture(rest).Some? {
      var v := GradleCapture(rest).value;
      var i :| IsLeftmostGradleMatch(rest, i, v);
      GradleShift(pre, rest, i, v);
      GradleNoMatchBefore(pre, rest, i);
      GradleCaptureOfLeftmost(pre + rest, |pre| + i, v);
    } else {
      GradleNoMatchBefore(pre, rest, |rest|);
      GradleCaptureCorrect(pre + rest);
    }
  }

  /** No Gradle match starts inside, or right after, a line not beginning with `version `. */
  lemma GradleNoMatchInLine(line: string, rest: string, j: int, w: string)
    requires '\n' !in line && !StartsWith(line, "version ")
    requires 0 <= j <= |line|
    ensures !IsGradleMatch(line + "\n" + rest, j, w)
  {
    var t := line + "\n" + rest;
    if j == 0 {
      if |line| >= 8 {
        assert t[..8] == line[..8];
      } else {
        assert t[|line|] == '\n';
        assert "version "[|line|] != '\n';
      }
    } else {
      assert t[j - 1] == line[j - 1];
    }
  }

  /** A line that does not begin with `version ` never yields the Gradle version. */
  lemma GradleSkipsLine(line: string, rest: string)
    requires '\n' !in line && !StartsWith(line, "version ")
    ensures GradleCapture(line + "\n" + rest) == GradleCapture(rest)
  {
    var pre := line + "\n";
    assert pre + rest == line + "\n" + rest;
    forall j, w | 0 <= j < |pre|
      ensures !IsGradleMatch(pre + rest, j, w)
    {
      GradleNoMatchInLine(line, rest, j, w);
    }
    GradleSkipsPrefix(pre, rest);
  }

  /** Lines none of which begins with `version ` are passed over. */
  lemma {:induction false} GradleSkipsLines(lines: seq<string>, rest: string)
    requires forall k :: 0 <= k < |lines| ==> '\n' !in lines[k] && !StartsWith(lines[k], "version ")
    ensures GradleCapture(JoinLines(lines) + rest) == GradleCapture(rest)
  {
    if lines == [] {
      assert JoinLines(lines) + rest == rest;
    } else {
      GradleSkipsLines(lines[1..], rest);
      assert JoinLines(lines) + rest == lines[0] + "\n" + (JoinLines(lines[1..]) + rest);
      GradleSkipsLine(lines[0], JoinLines(lines[1..]) + rest);
    }
  }

  /** A text that begins with a `version` line yields that line's quoted value. */
  lemma GradleVersionLine(open: char, v: string, close: char, rest: string)
    requires open in Quotes && close in Quotes
    requires v != [] && forall k :: 0 <= k < |v| ==> v[k] !in Quotes
    requires rest == [] || rest[0] == '\n'
    ensures GradleCapture("version " + [open] + v + [close] + rest) == Some(v)
  {
    var t := "version " + [open] + v + [close] + rest;
    assert t[..8] == "version " && t[8] == open && t[9..9 + |v|] == v && t[9 + |v|] == close;
    assert rest != [] ==> t[10 + |v|] == rest[0];
    GradleCaptureOfLeftmost(t, 0, v);
  }

  /** A single line that does not begin with `version ` has no Gradle version. */
  lemma GradleNoVersionInLine(line: string)
    requires '\n' !in line && !StartsWith(line, "version ")
    ensures GradleCapture(line) == None
  {
    forall j, w | true
      ensures !IsGradleMatch(line, j, w)
    {
      if j > 0 && j <= |line| {
        assert line[j - 1] in line;
      }
    }
    GradleCaptureCorrect(line);
  }

  /** A Mix capture is fixed by any leftmost match. */
  lemma MixCaptureOfLeftmost(text: string, i: int, v: string)
    requires IsLeftmostMixMatch(text, i, v)
    ensures MixCapture(text) == Some(v)
  {
    MixCaptureCorrect(text);
    var r := MixCapture(text);
    assert r.Some?;
    var i' :| IsLeftmostMixMatch(text, i', r.value);
    LeftmostMixMatchUnique(text, i, v, i', r.value);
  }

  lemma MixShift(pre: string, rest: string, j: nat, w: string)
    ensures IsMixMatch(pre + rest, |pre| + j, w) <==> IsMixMatch(rest, j, w)
  {
    var t := pre + rest;
    var k := |pre| + j;
    if j + 11 + |w| <= |rest| {
      assert t[k..k + 10] == rest[j..j + 10];
      assert t[k + 10..k + 10 + |w|] == rest[j + 10..j + 10 + |w|];
      assert t[k + 10 + |w|] == rest[j + 10 + |w|];
    }
  }

  /** No match in `pre`, nor in the first `n` positions of `rest`: none in the first `|pre| + n` of the whole. */
  lemma MixNoMatchBefore(pre: string, rest: string, n: int)
    requires forall j, w :: 0 <= j < |pre| ==> !IsMixMatch(pre + rest, j, w)
    requires forall j, w :: 0 <= j < n ==> !IsMixMatch(rest, j, w)
    ensures forall j, w :: 0 <= j < |pre| + n ==> !IsMixMatch(pre + rest, j, w)
  {
    forall j, w | |pre| <= j < |pre| + n
      ensures !IsMixMatch(pre + rest, j, w)
    {
      MixShift(pre, rest, j - |pre|, w);
    }
  }

  /** Text in which no match starts can be dropped from the front. */
  lemma MixSkipsUnmatched(pre: string, rest: string)
    requires forall j, w :: 0 <= j < |pre| ==> !IsMixMatch(pre + rest, j, w)
    ensures MixCapture(pre + rest) == MixCapture(rest)
  {
    MixCaptureCorrect(rest);
    if MixCapture(rest).Some? {
      var v := MixCapture(rest).value;
      var i :| IsLeftmostMixMatch(rest, i, v);
      MixShift(pre, rest, i, v);
      MixNoMatchBefore(pre, rest, i);
      MixCaptureOfLeftmost(pre + rest, |pre| + i, v);
    } else {
      MixNoMatchBefore(pre, rest, |rest|);
      MixCaptureCorrect(pre + rest);
    }
  }

  /** Text without a `v` cannot hold the start of a Mix match. */
  lemma MixSkipsPrefix(pre: string, rest: string)
    requires 'v' !in pre
    ensures MixCapture(pre + rest) == MixCapture(rest)
  {
    forall j, w | 0 <= j < |pre|
      ensures !IsMixMatch(pre + rest, j, w)
    {
      assert (pre + rest)[j] == pre[j] && pre[j] in pre;
    }
    MixSkipsUnmatched(pre, rest);
  }

  /** Lines without a `v` are passed over. */
  lemma {:induction false} MixSkipsLines(lines: seq<string>, rest: string)
    requires forall k :: 0 <= k < |lines| ==> 'v' !in lines[k]
    ensures MixCapture(JoinLines(lines) + rest) == MixCapture(rest)
  {
    if lines == [] {
      assert JoinLines(lines) + rest == rest;
    } else {
      MixSkipsLines(lines[1..], rest);
      assert JoinLines(lines) + rest == (lines[0] + "\n") + (JoinLines(lines[1..]) + rest);
      MixSkipsPrefix(lines[0] + "\n", JoinLines(lines[1..]) + rest);
    }
  }

  /** A text that begins with `version: "` yields everything up to the next `"`. */
  lemma MixVersionFirst(v: string, rest: string)
    requires v != [] && forall k :: 0 <= k < |v| ==> v[k] != '"'
    ensures MixCapture("version: \"" + v + "\"" + rest) == Some(v)
  {
    var t := "version: \"" + v + "\"" + rest;
    assert t[..10] == "version: \"" && t[10..10 + |v|] == v && t[10 + |v|] == '"';
    MixCaptureOfLeftmost(t, 0, v);
  }
}
