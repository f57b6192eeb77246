/**
  The few JavaScript string built-ins the scraper relies on: the white-space
  class shared by the regular-expression escape `\s` and `String.prototype.trim`,
  `trim` itself, and the leftmost search that `indexOf` and a
  literal regular expression perform.

  A Dafny `char` is a Unicode scalar value, while JavaScript strings count
  UTF-16 code units: `|s|` equals `s.length` only for text within the Basic
  Multilingual Plane. A character outside it (most emoji) counts 1 here and 2
  in JavaScript.
 */
module JsString {

  datatype Option<T> = None | Some(value: T)

  /** WhiteSpace and LineTerminator code points of ECMAScript: the set matched
      by `\s` and removed by `trim`. */
  predicate IsSpace(c: char) {
    || c == '\t' || c == '\n' || c == '\U{000B}' || c == '\U{000C}' || c == '\r'
    || c == ' ' || c == '\U{00A0}' || c == '\U{1680}'
    || ('\U{2000}' <= c <= '\U{200A}')
    || c == '\U{2028}' || c == '\U{2029}' || c == '\U{202F}' || c == '\U{205F}'
    || c == '\U{3000}' || c == '\U{FEFF}'
  }

  predicate AllSpace(s: string) {
    forall i :: 0 <= i < |s| ==> IsSpace(s[i])
  }

  /** Neither end of `s` is white space: what `trim` leaves behind. */
  predicate IsTrimmed(s: string) {
    |s| == 0 || (!IsSpace(s[0]) && !IsSpace(s[|s| - 1]))
  }

  /** `s` holds something other than white space: `s.trim()` is truthy. */
  predicate HasContent(s: string) {
    !AllSpace(s)
  }

  /** Every position from `i` up to `j` holds white space. */
  predicate SpacesBetween(s: string, i: int, j: int) {
    forall k :: i <= k < j && 0 <= k < |s| ==> IsSpace(s[k])
  }

  /** The first position at or after `i` that is not white space (`|s|` when
      there is none). */
  function SkipSpace(s: string, i: nat): (j: nat)
    requires i <= |s|
    ensures i <= j <= |s|
    ensures j < |s| ==> !IsSpace(s[j])
    decreases |s| - i
  {
    if i == |s| || !IsSpace(s[i]) then i else SkipSpace(s, i + 1)
  }

  /** Everything `SkipSpace` skips is white space. */
  lemma {:induction false} SkipSpaceSkipsSpace(s: string, i: nat)
    requires i <= |s|
    ensures SpacesBetween(s, i, SkipSpace(s, i))
    decreases |s| - i
  {
    if i < |s| && IsSpace(s[i]) {
      SkipSpaceSkipsSpace(s, i + 1);
    }
  }

  /** The start of the white-space run that ends at `j`. */
  function BackSpace(s: string, j: nat): (i: nat)
    requires j <= |s|
    ensures i <= j
    ensures SpacesBetween(s, i, j)
    ensures 0 < i ==> !IsSpace(s[i - 1])
  {
    if j == 0 || !IsSpace(s[j - 1]) then j else BackSpace(s, j - 1)
  }

  lemma SkipSpaceUnique(s: string, i: nat, j: nat)
    requires i <= j <= |s| && SpacesBetween(s, i, j) && (j < |s| ==> !IsSpace(s[j]))
    ensures SkipSpace(s, i) == j
    decreases j - i
  {
    if i < j {
      SkipSpaceUnique(s, i + 1, j);
    }
  }

  lemma BackSpaceUnique(s: string, i: nat, j: nat)
    requires i <= j <= |s| && SpacesBetween(s, i, j) && (0 < i ==> !IsSpace(s[i - 1]))
    ensures BackSpace(s, j) == i
  {
  }

  /** `s.trim()`. */
  function Trim(s: string): (r: string)
    ensures IsTrimmed(r)
  {
    var a := SkipSpace(s, 0);
    var b := BackSpace(s, |s|);
    if a < b then s[a..b] else []
  }

  /** `s.trim()` is falsy, that is `""`, exactly when `s` is white space
      only. */
  lemma TrimEmptyIff(s: string)
    ensures Trim(s) == [] <==> !HasContent(s)
  {
    var a := SkipSpace(s, 0);
    var b := BackSpace(s, |s|);
    SkipSpaceSkipsSpace(s, 0);
    if HasContent(s) {
      var i :| 0 <= i < |s| && !IsSpace(s[i]);
      assert a <= i < b;
    } else {
      SkipSpaceUnique(s, 0, |s|);
    }
  }

  /** The declarative reading of `trim`: whatever white space surrounds a
      trimmed core, `trim` returns exactly that core. */
  lemma TrimSurrounded(w1: string, t: string, w2: string)
    requires AllSpace(w1) && AllSpace(w2) && IsTrimmed(t)
    ensures Trim(w1 + t + w2) == t
  {
    var s := w1 + t + w2;
    var e := |w1| + |t|;
    ThreeParts(w1, t, w2);
    if |t| == 0 {
      assert SpacesBetween(s, 0, |s|);
      TrimEmptyIff(s);
    } else {
      assert s[|w1|] == t[0] && s[e - 1] == t[|t| - 1];
      SkipSpaceUnique(s, 0, |w1|);
      BackSpaceUnique(s, e, |s|);
    }
  }

  /** Where the parts of `a + b + d` sit. */
  lemma ThreeParts<T>(a: seq<T>, b: seq<T>, d: seq<T>)
    ensures var s := a + b + d;
            && (forall k :: 0 <= k < |a| ==> s[k] == a[k])
            && (forall k :: 0 <= k < |b| ==> s[|a| + k] == b[k])
            && (forall k :: 0 <= k < |d| ==> s[|a| + |b| + k] == d[k])
            && s[|a|..|a| + |b|] == b
  {
  }

  lemma SliceCons<T>(s: seq<T>, i: nat)
    requires i < |s|
    ensures s[i..] == [s[i]] + s[i + 1..]
  {
  }

  /** `trim` removes only white space: every string is its trimmed core with
      white space around it. */
  lemma TrimSplit(s: string) returns (w1: string, w2: string)
    ensures AllSpace(w1) && AllSpace(w2) && s == w1 + Trim(s) + w2
  {
    var a := SkipSpace(s, 0);
    var b := BackSpace(s, |s|);
    SkipSpaceSkipsSpace(s, 0);
    if a < b {
      w1, w2 := s[..a], s[b..];
      SpacesSlice(s, 0, a);
      SpacesSlice(s, b, |s|);
      SplitThree(s, a, b);
    } else {
      w1, w2 := s, [];
      assert SpacesBetween(s, 0, |s|);
      SpacesSlice(s, 0, |s|);
      SplitThree(s, |s|, |s|);
    }
  }

  lemma SplitThree<T>(s: seq<T>, a: nat, b: nat)
    requires a <= b <= |s|
    ensures s == s[0..a] + s[a..b] + s[b..|s|]
    ensures s[0..a] == s[..a] && s[b..|s|] == s[b..] && s[0..|s|] == s
  {
  }

  lemma SpacesSlice(s: string, i: nat, j: nat)
    requires i <= j <= |s| && SpacesBetween(s, i, j)
    ensures AllSpace(s[i..j])
  {
    assert forall k :: 0 <= k < j - i ==> s[i..j][k] == s[i + k];
  }

  /** Trimming a trimmed string changes nothing, so `trim` is idempotent. */
  lemma TrimTrimmed(s: string)
    requires IsTrimmed(s)
    ensures Trim(s) == s
  {
    TrimSurrounded([], s, []);
    assert [] + s + [] == s;
  }

  /** Leading white space makes no difference to `trim`. */
  lemma TrimDropsLeadingSpace(c: char, s: string)
    requires IsSpace(c)
    ensures Trim([c] + s) == Trim(s)
  {
    var t := Trim(s);
    var w1, w2 := TrimSplit(s);
    var cw1 := [c] + w1;
    assert AllSpace(cw1) by {
      assert forall k :: 0 < k < |cw1| ==> cw1[k] == w1[k - 1];
    }
    ConsAppend(c, w1, t, w2);
    TrimSurrounded(cw1, t, w2);
  }

  lemma ConsAppend<T>(c: T, a: seq<T>, b: seq<T>, d: seq<T>)
    ensures [c] + (a + b + d) == ([c] + a) + b + d
  {
  }

  /** A prefix that starts and ends with non-white-space survives `trim`. */
  lemma TrimKeepsOpening(u: string, p: string)
    requires p <= u && |p| > 0 && !IsSpace(p[0]) && !IsSpace(p[|p| - 1])
    ensures p <= Trim(u)
  {
    assert u[0] == p[0] && u[|p| - 1] == p[|p| - 1];
    SkipSpaceUnique(u, 0, 0);
    assert |p| <= BackSpace(u, |u|);
  }

  /** `s.substring(k, k + |pat|) === pat`. */
  predicate OccursAt(s: string, pat: string, k: int) {
    0 <= k && k + |pat| <= |s| && s[k..k + |pat|] == pat
  }

  predicate Contains(s: string, pat: string) {
    exists k :: 0 <= k <= |s| && OccursAt(s, pat, k)
  }

  /** The leftmost occurrence of `pat` in `s` at or after `from`. */
  function IndexOfFrom(s: string, pat: string, from: nat): (r: Option<nat>)
    requires from <= |s|
    ensures r.Some? ==> from <= r.value && OccursAt(s, pat, r.value)
    ensures r.Some? ==> forall k :: from <= k < r.value ==> !OccursAt(s, pat, k)
    ensures r.None? ==> forall k :: from <= k ==> !OccursAt(s, pat, k)
    decreases |s| - from
  {
    if from + |pat| > |s| then None
    else if s[from..from + |pat|] == pat then Some(from)
    else IndexOfFrom(s, pat, from + 1)
  }

  /** `s.indexOf(pat)`, with `None` for JavaScript's `-1`. */
  function IndexOf(s: string, pat: string): (r: Option<nat>)
    ensures r.Some? ==> OccursAt(s, pat, r.value)
    ensures r.Some? ==> forall k :: 0 <= k < r.value ==> !OccursAt(s, pat, k)
    ensures r.None? <==> !Contains(s, pat)
  {
    IndexOfFrom(s, pat, 0)
  }

  /** `s.endsWith(pat)`. */
  predicate EndsWith(s: string, pat: string) {
    |pat| <= |s| && s[|s| - |pat|..] == pat
  }

  function Min(a: int, b: int): int {
    if a <= b then a else b
  }
}
