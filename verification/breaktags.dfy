/**
  The line-break rewrite the selector applies to each message's inner HTML
  before stripping markup: `html.replace(/<br\s*\/?>/ig, '\n')`
  (scraper/scraper.js:31). Every `<br>`, `<br/>`, `<BR />`, `<bR\t>`, ... is
  replaced by a single newline; the scan is the global leftmost one of a
  JavaScript regular expression, resuming after each match.

  Positions are indices into the whole text rather than slices of it.
 */
module BreakTags {
  import opened JsString

  predicate IsB(c: char) { c == 'b' || c == 'B' }
  predicate IsR(c: char) { c == 'r' || c == 'R' }

  /** `s` holds the letters `<br`, in either case, at `i`. */
  predicate OpensAt(s: string, i: int) {
    0 <= i && i + 3 <= |s| && s[i] == '<' && IsB(s[i + 1]) && IsR(s[i + 2])
  }

  /** `s[i..k]` is, as a whole, a match of `<br\s*\/?>` ignoring case. */
  predicate TagSpans(s: string, i: nat, k: nat) {
    && i + 4 <= k <= |s|
    && OpensAt(s, i)
    && s[k - 1] == '>'
    && (SpacesBetween(s, i + 3, k - 1) || (s[k - 2] == '/' && SpacesBetween(s, i + 3, k - 2)))
  }

  /** `t` is a break tag and nothing else. */
  predicate IsBreakTag(t: string) {
    TagSpans(t, 0, |t|)
  }

  /** The length of the break tag starting at `i`, or 0 when none starts
      there. */
  function TagLengthAt(s: string, i: nat): (n: nat)
    requires i <= |s|
    ensures i + n <= |s|
    ensures n == 0 || n >= 4
  {
    if OpensAt(s, i) then
      var w := SkipSpace(s, i + 3);
      if w < |s| && s[w] == '>' then w + 1 - i
      else if w + 1 < |s| && s[w] == '/' && s[w + 1] == '>' then w + 2 - i
      else 0
    else
      0
  }

  /** The pattern admits at most one match at a given position: after the
      greedy white-space run only `>` or `/>` may follow, and giving white
      space back leaves a white-space character in their place. So any tag
      starting at `i` is the one `TagLengthAt` measures. */
  lemma TagLengthAtUnique(s: string, i: nat, k: nat)
    requires TagSpans(s, i, k)
    ensures TagLengthAt(s, i) == k - i
  {
    if SpacesBetween(s, i + 3, k - 1) {
      SkipSpaceUnique(s, i + 3, k - 1);
    } else {
      SkipSpaceUnique(s, i + 3, k - 2);
    }
  }

  /** What `TagLengthAt` measures is a tag. */
  lemma TagLengthAtSound(s: string, i: nat)
    requires i <= |s| && TagLengthAt(s, i) > 0
    ensures TagSpans(s, i, i + TagLengthAt(s, i))
  {
    SkipSpaceSkipsSpace(s, i + 3);
  }

  /** A tag starts at `i` and ends at `k` exactly when `TagLengthAt` measures
      `k - i` there: the scan finds the one match of the pattern, and only it. */
  lemma TagLengthAtMatches(s: string, i: nat, k: nat)
    requires i < k <= |s|
    ensures TagSpans(s, i, k) <==> k == i + TagLengthAt(s, i)
  {
    if TagSpans(s, i, k) {
      TagLengthAtUnique(s, i, k);
    } else if k == i + TagLengthAt(s, i) {
      TagLengthAtSound(s, i);
    }
  }

  /** `s` contains a break tag at or after `i`. */
  predicate ContainsTagFrom(s: string, i: nat) {
    exists j :: i <= j < |s| && TagLengthAt(s, j) > 0
  }

  predicate ContainsTag(s: string) {
    ContainsTagFrom(s, 0)
  }

  /** The rewrite of `s[i..]`. */
  function ReplaceFrom(s: string, i: nat): (r: string)
    requires i <= |s|
    ensures |r| <= |s| - i
    decreases |s| - i
  {
    if i == |s| then []
    else
      var n := TagLengthAt(s, i);
      var next := if n > 0 then i + n else i + 1;
      [if n > 0 then '\n' else s[i]] + ReplaceFrom(s, next)
  }

  /** `s.replace(/<br\s*\/?>/ig, '\n')`. A tag anywhere makes the output
      strictly shorter (each tag has at least four characters and becomes one);
      a text without tags is left exactly as it is. */
  function ReplaceBreaks(s: string): (r: string)
    ensures ContainsTag(s) <==> |r| < |s|
    ensures !ContainsTag(s) <==> r == s
  {
    ReplaceFromChangesIffTag(s, 0);
    assert s[0..] == s;
    ReplaceFrom(s, 0)
  }

  /** The rewrite of `s[i..]` shortens it exactly when a tag starts at or
      after `i`, and copies it exactly when none does. */
  lemma {:induction false} ReplaceFromChangesIffTag(s: string, i: nat)
    requires i <= |s|
    ensures ContainsTagFrom(s, i) <==> |ReplaceFrom(s, i)| < |s| - i
    ensures !ContainsTagFrom(s, i) <==> ReplaceFrom(s, i) == s[i..]
    decreases |s| - i
  {
    if i < |s| {
      if TagLengthAt(s, i) > 0 {
        ChangesAtTag(s, i);
      } else {
        ReplaceFromChangesIffTag(s, i + 1);
        ChangesAfterPlainChar(s, i);
      }
    }
  }

  /** A tag at `i` shortens the output. */
  lemma ChangesAtTag(s: string, i: nat)
    requires i < |s| && TagLengthAt(s, i) > 0
    ensures ContainsTagFrom(s, i) && |ReplaceFrom(s, i)| < |s| - i
  {
    var n := TagLengthAt(s, i);
    assert ReplaceFrom(s, i) == "\n" + ReplaceFrom(s, i + n);
  }

  /** A character starting no tag is copied, so the output changes exactly
      when the rest of it does. */
  lemma ChangesAfterPlainChar(s: string, i: nat)
    requires i < |s| && TagLengthAt(s, i) == 0
    requires ContainsTagFrom(s, i + 1) <==> |ReplaceFrom(s, i + 1)| < |s| - (i + 1)
    requires !ContainsTagFrom(s, i + 1) <==> ReplaceFrom(s, i + 1) == s[i + 1..]
    ensures ContainsTagFrom(s, i) <==> |ReplaceFrom(s, i)| < |s| - i
    ensures !ContainsTagFrom(s, i) <==> ReplaceFrom(s, i) == s[i..]
  {
    var rest := ReplaceFrom(s, i + 1);
    assert ReplaceFrom(s, i) == [s[i]] + rest;
    NoTagHere(s, i);
    SliceCons(s, i);
  }

  lemma NoTagHere(s: string, i: nat)
    requires i < |s| && TagLengthAt(s, i) == 0
    ensures ContainsTagFrom(s, i) <==> ContainsTagFrom(s, i + 1)
  {
    if ContainsTagFrom(s, i) {
      var j :| i <= j < |s| && TagLengthAt(s, j) > 0;
      assert i + 1 <= j;
    }
  }

  /** The characters a break tag can be made of. */
  predicate IsTagChar(c: char) {
    IsSpace(c) || c == '<' || c == '>' || c == '/' || IsB(c) || IsR(c)
  }

  /** The characters of `s` from `i` on, less every character a break tag
      could be made of. */
  function ResidueFrom(s: string, i: nat): (r: string)
    requires i <= |s|
    ensures |r| <= |s| - i
    decreases |s| - i
  {
    if i == |s| then []
    else (if IsTagChar(s[i]) then [] else [s[i]]) + ResidueFrom(s, i + 1)
  }

  function Residue(s: string): (r: string)
    ensures |r| <= |s|
  {
    ResidueFrom(s, 0)
  }

  lemma {:induction false} ResidueSkipsTagChars(s: string, i: nat, k: nat)
    requires i <= k <= |s|
    requires forall j :: i <= j < k ==> IsTagChar(s[j])
    ensures ResidueFrom(s, i) == ResidueFrom(s, k)
    decreases k - i
  {
    if i < k {
      ResidueSkipsTagChars(s, i + 1, k);
    }
  }

  lemma {:induction false} ResidueFromShift(c: char, x: string, i: nat)
    requires i <= |x|
    ensures ResidueFrom([c] + x, i + 1) == ResidueFrom(x, i)
    decreases |x| - i
  {
    if i < |x| {
      assert ([c] + x)[i + 1] == x[i];
      ResidueFromShift(c, x, i + 1);
    }
  }

  lemma ResidueCons(c: char, x: string)
    ensures Residue([c] + x) == (if IsTagChar(c) then [] else [c]) + Residue(x)
  {
    ResidueFromShift(c, x, 0);
  }

  /** A break tag is made of tag characters only. */
  lemma TagIsTagChars(s: string, i: nat, k: nat)
    requires TagSpans(s, i, k)
    ensures ResidueFrom(s, i) == ResidueFrom(s, k)
  {
    forall j | i <= j < k ensures IsTagChar(s[j]) {
      if i + 3 <= j < k - 2 {
        assert IsSpace(s[j]);
      }
    }
    ResidueSkipsTagChars(s, i, k);
  }

  /** The rewrite leaves every other character untouched: apart from white
      space and the characters of `<br/>` (in either case), its output holds
      exactly the characters of its input, in the same order. */
  lemma {:induction false} ReplaceFromKeepsText(s: string, i: nat)
    requires i <= |s|
    ensures Residue(ReplaceFrom(s, i)) == ResidueFrom(s, i)
    decreases |s| - i
  {
    if i < |s| {
      var n := TagLengthAt(s, i);
      var next := if n > 0 then i + n else i + 1;
      ReplaceFromKeepsText(s, next);
      KeepsTextStep(s, i, next);
    }
  }

  /** One step of the scan emits a newline for a tag, whose characters all
      drop out of the residue, or copies one character. */
  lemma KeepsTextStep(s: string, i: nat, next: nat)
    requires i < |s|
    requires next == (if TagLengthAt(s, i) > 0 then i + TagLengthAt(s, i) else i + 1)
    requires Residue(ReplaceFrom(s, next)) == ResidueFrom(s, next)
    ensures Residue(ReplaceFrom(s, i)) == ResidueFrom(s, i)
  {
    var rest := ReplaceFrom(s, next);
    ReplaceFromHead(s, i);
    if TagLengthAt(s, i) > 0 {
      ResidueCons('\n', rest);
      TagLengthAtSound(s, i);
      TagIsTagChars(s, i, next);
    } else {
      ResidueCons(s[i], rest);
    }
  }

  lemma ReplaceBreaksKeepsText(s: string)
    ensures Residue(ReplaceBreaks(s)) == Residue(s)
  {
    ReplaceFromKeepsText(s, 0);
  }

  /** Every `<br` (either case) in `s` opens a complete break tag. */
  predicate NoDanglingBreakOpener(s: string) {
    forall i :: 0 <= i <= |s| && OpensAt(s, i) ==> TagLengthAt(s, i) > 0
  }

  /** The newline a tag becomes can complete a tag whose `<br` was left
      dangling: `<br<br>>` becomes `<br\n>`, which a second pass turns into a
      newline. So the rewrite is not idempotent in general. */
  lemma ReplaceBreaksNotIdempotent()
    ensures ReplaceBreaks("<br<br>>") == "<br\n>"
    ensures ReplaceBreaks(ReplaceBreaks("<br<br>>")) == "\n"
  {
    var s := "<br<br>>";
    assert SkipSpace(s, 3) == 3;
    assert TagLengthAt(s, 0) == 0;
    assert TagLengthAt(s, 1) == 0 && TagLengthAt(s, 2) == 0;
    assert SkipSpace(s, 6) == 6;
    assert TagLengthAt(s, 3) == 4;
    assert TagLengthAt(s, 7) == 0;
    assert ReplaceFrom(s, 7) == ">";
    var t := "<br\n>";
    assert SkipSpace(t, 3) == 4;
    assert TagLengthAt(t, 0) == 5;
  }

  /** `q` sits in `s` from `d` to the end. */
  predicate AlignedAt(s: string, d: nat, q: string) {
    d <= |s| && s[d..] == q
  }

  /** Text in front of `y` moves its tags along unchanged. */
  lemma TagSpansAligned(s: string, d: nat, y: string, k: nat, m: nat)
    requires AlignedAt(s, d, y) && k <= m <= |y|
    ensures TagSpans(s, d + k, d + m) <==> TagSpans(y, k, m)
  {
    if k + 4 <= m {
      assert s[d + k] == y[k] && s[d + k + 1] == y[k + 1] && s[d + k + 2] == y[k + 2];
      assert s[d + m - 1] == y[m - 1] && s[d + m - 2] == y[m - 2];
      assert OpensAt(s, d + k) <==> OpensAt(y, k);
      SpacesAligned(s, d, y, k + 3, m - 1);
      if k + 5 <= m {
        SpacesAligned(s, d, y, k + 3, m - 2);
      }
    }
  }

  lemma SpacesAligned(s: string, d: nat, y: string, i: nat, j: nat)
    requires AlignedAt(s, d, y) && i <= j <= |y|
    ensures SpacesBetween(s, d + i, d + j) <==> SpacesBetween(y, i, j)
  {
    if SpacesBetween(y, i, j) {
      forall k | d + i <= k < d + j && 0 <= k < |s| ensures IsSpace(s[k]) {
        assert s[d + (k - d)] == y[k - d];
      }
    }
    if SpacesBetween(s, d + i, d + j) {
      forall k | i <= k < j && 0 <= k < |y| ensures IsSpace(y[k]) {
        assert s[d + k] == y[k];
      }
    }
  }

  /** The tag measured at a position depends only on the text from there on. */
  lemma TagLengthAligned(s: string, d: nat, y: string, k: nat)
    requires AlignedAt(s, d, y) && k <= |y|
    ensures TagLengthAt(s, d + k) == TagLengthAt(y, k)
  {
    var n := TagLengthAt(y, k);
    var m := TagLengthAt(s, d + k);
    if n > 0 {
      TagLengthAtSound(y, k);
      TagSpansAligned(s, d, y, k, k + n);
      TagLengthAtUnique(s, d + k, d + k + n);
    } else if m > 0 {
      TagLengthAtSound(s, d + k);
      TagSpansAligned(s, d, y, k, k + m);
      TagLengthAtUnique(y, k, k + m);
    }
  }

  /** The first output character is the first input character unless a tag
      starts there, in which case it is a newline. */
  lemma ReplaceFromHead(s: string, i: nat)
    requires i < |s|
    ensures TagLengthAt(s, i) > 0 ==> ReplaceFrom(s, i) == "\n" + ReplaceFrom(s, i + TagLengthAt(s, i))
    ensures TagLengthAt(s, i) == 0 ==> ReplaceFrom(s, i) == [s[i]] + ReplaceFrom(s, i + 1)
  {
  }

  /** An output that opens with `<br` comes from an input that opens with a
      `<br` starting no tag. */
  lemma OutputOpener(s: string, i: nat)
    requires i <= |s| && OpensAt(ReplaceFrom(s, i), 0)
    ensures OpensAt(s, i) && TagLengthAt(s, i) == 0
  {
    var r := ReplaceFrom(s, i);
    ReplaceFromHead(s, i);
    assert TagLengthAt(s, i) == 0 && s[i] == '<';
    var r1 := ReplaceFrom(s, i + 1);
    assert r1[0] == r[1] && r1[1] == r[2];
    ReplaceFromHead(s, i + 1);
    assert TagLengthAt(s, i + 1) == 0 && s[i + 1] == r[1];
    var r2 := ReplaceFrom(s, i + 2);
    assert r2[0] == r[2];
    ReplaceFromHead(s, i + 2);
    assert s[i + 2] == r[2];
  }

  /** A replacement newline starts no tag and cannot be the `<`, `b` or `r` of
      one, so the output holds a tag only if the input left a `<br` dangling. */
  lemma {:induction false} OutputTagNeedsDanglingOpener(s: string, i: nat)
    requires i <= |s| && NoDanglingBreakOpener(s)
    ensures !ContainsTag(ReplaceFrom(s, i))
    decreases |s| - i
  {
    if i < |s| {
      var n := TagLengthAt(s, i);
      var next := if n > 0 then i + n else i + 1;
      OutputTagNeedsDanglingOpener(s, next);
      NoTagAfterStep(s, i, next);
    }
  }

  /** One step of the scan adds a newline or a copied character in front of
      a tag-free rest, and neither starts a tag. */
  lemma NoTagAfterStep(s: string, i: nat, next: nat)
    requires i < |s| && NoDanglingBreakOpener(s)
    requires next == (if TagLengthAt(s, i) > 0 then i + TagLengthAt(s, i) else i + 1)
    requires !ContainsTag(ReplaceFrom(s, next))
    ensures !ContainsTag(ReplaceFrom(s, i))
  {
    var r := ReplaceFrom(s, i);
    var rt := ReplaceFrom(s, next);
    var h := if TagLengthAt(s, i) > 0 then '\n' else s[i];
    ReplaceFromHead(s, i);
    assert r == [h] + rt;
    forall q | 0 <= q < |r| ensures TagLengthAt(r, q) == 0 {
      if q == 0 {
        if TagLengthAt(r, 0) > 0 {
          TagLengthAtSound(r, 0);
          OutputOpener(s, i);
        }
      } else {
        assert AlignedAt(r, 1, rt);
        TagLengthAligned(r, 1, rt, q - 1);
      }
    }
  }

  /** When every `<br` in the input opens a real tag, rewriting twice is the
      same as rewriting once. */
  lemma ReplaceBreaksIdempotent(s: string)
    requires NoDanglingBreakOpener(s)
    ensures ReplaceBreaks(ReplaceBreaks(s)) == ReplaceBreaks(s)
  {
    OutputTagNeedsDanglingOpener(s, 0);
  }

  /** The characters before `k` start no tag, so the scan copies them and
      then goes on as it does from `k`. */
  lemma {:induction false} CopyThen(s: string, i: nat, k: nat, rest: string)
    requires i <= k <= |s|
    requires forall j :: i <= j < k ==> TagLengthAt(s, j) == 0
    requires ReplaceFrom(s, k) == rest
    ensures ReplaceFrom(s, i) == s[i..k] + rest
    decreases k - i
  {
    if i < k {
      CopyThen(s, i + 1, k, rest);
      ReplaceFromNext(s, i, i + 1, s[i]);
      ConsSlice(s, i, k, rest);
    } else {
      assert s[i..k] == [];
    }
  }

  lemma ConsSlice<T>(s: seq<T>, i: nat, k: nat, rest: seq<T>)
    requires i < k <= |s|
    ensures [s[i]] + (s[i + 1..k] + rest) == s[i..k] + rest
  {
    assert s[i..k] == [s[i]] + s[i + 1..k];
  }

  /** The scan emits one character and moves on to `next`. */
  lemma ReplaceFromNext(s: string, i: nat, next: nat, h: char)
    requires i < |s|
    requires next == (if TagLengthAt(s, i) > 0 then i + TagLengthAt(s, i) else i + 1)
    requires h == (if TagLengthAt(s, i) > 0 then '\n' else s[i])
    ensures ReplaceFrom(s, i) == [h] + ReplaceFrom(s, next)
  {
  }

  /** What the scan does from `d` on depends only on the text from `d` on:
      no tag reaches back before where the scan stands. */
  lemma {:induction false} ReplaceFromAligned(s: string, d: nat, q: string, i: nat, j: nat)
    requires AlignedAt(s, d, q) && i <= |q| && j == d + i
    ensures ReplaceFrom(s, j) == ReplaceFrom(q, i)
    decreases |q| - i
  {
    if i < |q| {
      var n := TagLengthAt(q, i);
      var next := if n > 0 then i + n else i + 1;
      ReplaceFromAligned(s, d, q, next, d + next);
      TagLengthAligned(s, d, q, i);
      AlignedStep(s, j, q, i, d + next, next);
    } else {
      assert |s| == j;
    }
  }

  /** One step of the scan reads the same character, or the same tag, at
      `j` in `s` as at `i` in `q`; if the scans agree from the next position
      on, they agree from here. */
  lemma AlignedStep(s: string, j: nat, q: string, i: nat, jn: nat, next: nat)
    requires i < |q| && j < |s|
    requires TagLengthAt(s, j) == TagLengthAt(q, i)
    requires s[j] == q[i]
    requires next == (if TagLengthAt(q, i) > 0 then i + TagLengthAt(q, i) else i + 1)
    requires jn == j + (next - i)
    requires ReplaceFrom(s, jn) == ReplaceFrom(q, next)
    ensures ReplaceFrom(s, j) == ReplaceFrom(q, i)
  {
    var h := if TagLengthAt(q, i) > 0 then '\n' else q[i];
    ReplaceFromNext(s, j, jn, h);
    ReplaceFromNext(q, i, next, h);
  }

  /** A break tag at `k` becomes one newline, after which the scan goes on
      as it does from the end of the tag. */
  lemma TagThenRest(s: string, k: nat, n: nat, rest: string)
    requires k < |s| && TagLengthAt(s, k) == n > 0
    requires ReplaceFrom(s, k + n) == rest
    ensures ReplaceFrom(s, k) == ['\n'] + rest
  {
    ReplaceFromNext(s, k, k + n, '\n');
  }

  /** A break tag inside a text is a match at its position. */
  lemma TagSpansInside(p: string, t: string, q: string)
    requires IsBreakTag(t)
    ensures TagSpans(p + t + q, |p|, |p| + |t|)
  {
    var u := t + q;
    assert p + t + q == p + u;
    assert AlignedAt(p + u, |p|, u);
    TagSpansAligned(p + u, |p|, u, 0, |t|);
    assert u[0] == t[0] && u[1] == t[1] && u[2] == t[2];
    assert u[|t| - 1] == t[|t| - 1] && u[|t| - 2] == t[|t| - 2];
    assert forall j :: 0 <= j < |t| ==> u[j] == t[j];
  }

  /** The global replace, one match at a time: text up to the first break tag
      is copied as it is, that tag becomes exactly one newline, and the scan
      resumes right after it on the rest alone. With the tag-free case of
      `ReplaceBreaks`, this fixes the output of every input. */
  lemma ReplaceBreaksAtFirstTag(p: string, t: string, q: string)
    requires IsBreakTag(t)
    requires forall j :: 0 <= j < |p| ==> TagLengthAt(p + t + q, j) == 0
    ensures ReplaceBreaks(p + t + q) == p + "\n" + ReplaceBreaks(q)
  {
    TagAfterPrefix(p, t, q);
    FirstTagAt(p + t + q, p, |t|, q);
  }

  /** In `p + t + q` the tag `t` is measured right after `p`, and after it
      the scan reads `q` on its own. */
  lemma TagAfterPrefix(p: string, t: string, q: string)
    requires IsBreakTag(t)
    ensures var s := p + t + q;
            && |p| < |s| && TagLengthAt(s, |p|) == |t| > 0 && s[..|p|] == p
            && ReplaceFrom(s, |p| + |t|) == ReplaceFrom(q, 0)
  {
    var s := p + t + q;
    TagSpansInside(p, t, q);
    TagLengthAtUnique(s, |p|, |p| + |t|);
    assert s[..|p|] == p;
    RestAfterTag(p, t, q);
  }

  /** After `p + t` the scan reads `q` on its own. */
  lemma RestAfterTag(p: string, t: string, q: string)
    ensures ReplaceFrom(p + t + q, |p| + |t|) == ReplaceFrom(q, 0)
  {
    var s := p + t + q;
    assert s[|p| + |t|..] == q;
    ReplaceFromAligned(s, |p| + |t|, q, 0, |p| + |t|);
  }

  /** The same, for a text `s` that holds `p`, then a tag of length `n`,
      after which the scan reads as it does on `q`. */
  lemma FirstTagAt(s: string, p: string, n: nat, q: string)
    requires |p| < |s| && TagLengthAt(s, |p|) == n > 0
    requires forall j :: 0 <= j < |p| ==> TagLengthAt(s, j) == 0
    requires s[..|p|] == p
    requires ReplaceFrom(s, |p| + n) == ReplaceFrom(q, 0)
    ensures ReplaceBreaks(s) == p + "\n" + ReplaceBreaks(q)
  {
    var r := ReplaceFrom(q, 0);
    TagThenRest(s, |p|, n, r);
    CopyThen(s, 0, |p|, ['\n'] + r);
    Assemble(s, p, ['\n'] + r, r);
  }

  lemma Assemble(s: string, p: string, rest: string, r: string)
    requires |p| <= |s| && s[..|p|] == p && rest == ['\n'] + r
    requires ReplaceFrom(s, 0) == s[0..|p|] + rest
    ensures ReplaceFrom(s, 0) == p + "\n" + r
  {
    assert s[0..|p|] == p;
  }
}
