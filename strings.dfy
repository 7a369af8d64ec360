/**
 * The three pieces of Rust's string library the version formatter relies on:
 * `char::is_whitespace`, `str::replace('"', "")` and `str::trim`.
 */
module Str {

  /** Rust's `char::is_whitespace`: the characters with the Unicode White_Space property. */
  predicate IsWhitespace(c: char) {
    || c == '\t' || c == '\n' || c == '\U{000B}' || c == '\U{000C}' || c == '\r' || c == ' '
    || c == '\U{0085}' || c == '\U{00A0}' || c == '\U{1680}'
    || ('\U{2000}' <= c <= '\U{200A}')
    || c == '\U{2028}' || c == '\U{2029}' || c == '\U{202F}' || c == '\U{205F}' || c == '\U{3000}'
  }

  predicate AllWhitespace(s: string) {
    forall i :: 0 <= i < |s| ==> IsWhitespace(s[i])
  }

  /** Neither the first nor the last character is whitespace. */
  predicate Trimmed(s: string) {
    s == [] || (!IsWhitespace(s[0]) && !IsWhitespace(s[|s| - 1]))
  }

  /**
   * `s.replace('"', "")`: every double quote deleted, every other character
   * kept with its multiplicity.
   */
  function RemoveQuotes(s: string): (r: string)
    ensures '"' !in r
    ensures '"' !in s ==> r == s
  {
    if s == [] then []
    else if s[0] == '"' then RemoveQuotes(s[1..])
    else
      assert s == [s[0]] + s[1..];
      [s[0]] + RemoveQuotes(s[1..])
  }

  /** RemoveQuotes keeps every character other than `"` with its multiplicity. */
  lemma {:induction false} RemoveQuotesMultiset(s: string)
    ensures multiset(RemoveQuotes(s)) == multiset(s)['"' := 0]
  {
    if s != [] {
      assert s == [s[0]] + s[1..];
      RemoveQuotesMultiset(s[1..]);
    }
  }

  /** Deleting quotes from a concatenation deletes them from each part. */
  lemma {:induction false} RemoveQuotesAppend(a: string, b: string)
    ensures RemoveQuotes(a + b) == RemoveQuotes(a) + RemoveQuotes(b)
  {
    if a == [] {
      assert a + b == b;
    } else {
      assert (a + b)[0] == a[0] && (a + b)[1..] == a[1..] + b;
      RemoveQuotesAppend(a[1..], b);
    }
  }

  /** Every character left by RemoveQuotes was already in the input. */
  lemma RemoveQuotesKeepsOnlyInputChars(s: string, i: nat)
    requires i < |RemoveQuotes(s)|
    ensures RemoveQuotes(s)[i] in s && RemoveQuotes(s)[i] != '"'
  {
    var r := RemoveQuotes(s);
    RemoveQuotesMultiset(s);
    assert r[i] in multiset(r);
  }

  /** The first index at or after `i` that does not hold whitespace, or `|s|` if there is none. */
  function SkipForward(s: string, i: nat): (k: nat)
    requires i <= |s|
    ensures i <= k <= |s|
    ensures forall m :: i <= m < k ==> IsWhitespace(s[m])
    ensures k < |s| ==> !IsWhitespace(s[k])
    decreases |s| - i
  {
    if i == |s| || !IsWhitespace(s[i]) then i else SkipForward(s, i + 1)
  }

  /** The first index of the all-whitespace run that ends at `j`, going no lower than `lo`. */
  function SkipBackward(s: string, lo: nat, j: nat): (k: nat)
    requires lo <= j <= |s|
    ensures lo <= k <= j
    ensures forall m :: k <= m < j ==> IsWhitespace(s[m])
    ensures k > lo ==> !IsWhitespace(s[k - 1])
    decreases j
  {
    if j == lo || !IsWhitespace(s[j - 1]) then j else SkipBackward(s, lo, j - 1)
  }

  /** `r` is the slice of `s` at `i`, and everything around it is whitespace. */
  predicate CutFrom(s: string, r: string, i: int) {
    0 <= i <= |s| - |r| && r == s[i..i + |r|] && AllWhitespace(s[..i]) && AllWhitespace(s[i + |r|..])
  }

  /**
   * `s.trim()`: the result is a slice of `s` with no whitespace at either end,
   * and everything cut away on both sides is whitespace.
   */
  function Trim(s: string): (r: string)
    ensures Trimmed(r)
    ensures exists i :: CutFrom(s, r, i)
  {
    var i := SkipForward(s, 0);
    var j := SkipBackward(s, i, |s|);
    assert CutFrom(s, s[i..j], i);
    s[i..j]
  }

  /** Every character Trim keeps was in the input. */
  lemma TrimKeepsOnlyInputChars(s: string, k: nat)
    requires k < |Trim(s)|
    ensures Trim(s)[k] in s
  {
    var i := SkipForward(s, 0);
    assert Trim(s)[k] == s[i + k];
  }

  /** Whitespace up to `k` and none at `k` fixes where SkipForward stops. */
  lemma SkipForwardStopsAt(s: string, i: nat, k: nat)
    requires i <= k <= |s|
    requires forall m :: i <= m < k ==> IsWhitespace(s[m])
    requires k < |s| ==> !IsWhitespace(s[k])
    ensures SkipForward(s, i) == k
  {
  }

  /** Whitespace from `k` up to `j` and none just before `k` fixes where SkipBackward stops. */
  lemma SkipBackwardStopsAt(s: string, lo: nat, j: nat, k: nat)
    requires lo <= k <= j <= |s|
    requires forall m :: k <= m < j ==> IsWhitespace(s[m])
    requires k > lo ==> !IsWhitespace(s[k - 1])
    ensures SkipBackward(s, lo, j) == k
  {
  }

  /** Trimming a trimmed core surrounded by whitespace gives back exactly the core. */
  lemma TrimPadded(w1: string, x: string, w2: string)
    requires AllWhitespace(w1) && AllWhitespace(w2) && Trimmed(x)
    ensures Trim(w1 + x + w2) == x
  {
    var t := w1 + x + w2;
    var i, j := |w1|, |w1| + |x|;
    assert forall m :: 0 <= m < i ==> t[m] == w1[m];
    assert forall m :: j <= m < |t| ==> t[m] == w2[m - j];
    if x == [] {
      SkipForwardStopsAt(t, 0, |t|);
      SkipBackwardStopsAt(t, |t|, |t|, |t|);
    } else {
      assert t[i] == x[0] && t[j - 1] == x[|x| - 1];
      SkipForwardStopsAt(t, 0, i);
      SkipBackwardStopsAt(t, i, |t|, j);
    }
    assert t[i..j] == x;
  }
}
