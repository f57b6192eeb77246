/**
  Message selection in `scrapeTelegram` (scraper/scraper.js:22-39): from the
  parsed channel page, pick the text handed to extraction.

  The page arrives already parsed: the inner HTML of every
  `.tgme_widget_message_text` node in document order (oldest post first) and
  the text of `body`. Turning markup into text (`cheerio.load(...).text()`)
  is a parameter, `strip`, about which nothing is assumed.
 */
module Selector {
  import opened JsString
  import opened BreakTags

  /** How much of the body text the fallback keeps (`substring(0, 1500)`). */
  const FallbackLength: nat := 1500
  /** How many of the newest message nodes are looked at (`slice(-3)`). */
  const WindowSize: nat := 3
  /** A candidate must be strictly longer than this (`t.length > 30`). */
  const MinLength: nat := 30

  /** A parsed page. A node whose `.html()` is null contributes `""`. */
  datatype Page = Page(messages: seq<string>, bodyText: string)

  /** `cheerio.load(html).text()`: markup to plain text. */
  type Stripper = string -> string

  /** `messages.slice(-3)`: the newest nodes, all of them when there are fewer. */
  function Window(messages: seq<string>): (w: seq<string>)
    ensures |w| == Min(WindowSize, |messages|)
    ensures messages == messages[..|messages| - |w|] + w
  {
    messages[|messages| - Min(WindowSize, |messages|)..]
  }

  /** One message node's text: line breaks as `\n`, markup stripped, trimmed.
      It is the stripped text with only white space taken off either end. */
  function Candidate(html: string, strip: Stripper): (t: string)
    ensures IsTrimmed(t)
    ensures exists w1, w2 :: AllSpace(w1) && AllSpace(w2) && strip(ReplaceBreaks(html)) == w1 + t + w2
  {
    var stripped := strip(ReplaceBreaks(html));
    assert exists w1, w2 :: AllSpace(w1) && AllSpace(w2) && stripped == w1 + Trim(stripped) + w2 by {
      var w1, w2 := TrimSplit(stripped);
    }
    Trim(stripped)
  }

  function Candidates(nodes: seq<string>, strip: Stripper): (ts: seq<string>)
    ensures |ts| == |nodes|
    ensures forall i :: 0 <= i < |nodes| ==> ts[i] == Candidate(nodes[i], strip)
  {
    seq(|nodes|, i requires 0 <= i < |nodes| => Candidate(nodes[i], strip))
  }

  predicate Qualifies(t: string) {
    |t| > MinLength
  }

  /** `texts.filter(t => t.length > 30)`. */
  function KeepQualifying(ts: seq<string>): (kept: seq<string>)
    ensures forall t {:trigger t in kept} :: t in kept <==> t in ts && Qualifies(t)
    ensures |kept| <= |ts|
    ensures (forall i :: 0 <= i < |ts| ==> Qualifies(ts[i])) ==> kept == ts
  {
    if |ts| == 0 then []
    else
      var last := ts[|ts| - 1];
      KeepQualifying(ts[..|ts| - 1]) + (if Qualifies(last) then [last] else [])
  }

  /** `filter` works element by element: filtering a concatenation filters
      each part, so the kept texts stay in their input order. */
  lemma {:induction false} KeepQualifyingAppend(a: seq<string>, b: seq<string>)
    ensures KeepQualifying(a + b) == KeepQualifying(a) + KeepQualifying(b)
    decreases |b|
  {
    if |b| == 0 {
      assert a + b == a;
    } else {
      var n := |b| - 1;
      assert (a + b)[..|a + b| - 1] == a + b[..n];
      assert (a + b)[|a + b| - 1] == b[n];
      KeepQualifyingAppend(a, b[..n]);
    }
  }

  /** A single text is kept exactly when it qualifies. */
  lemma KeepQualifyingSingle(t: string)
    ensures KeepQualifying([t]) == (if Qualifies(t) then [t] else [])
  {
    assert [t][..0] == [];
  }

  /** `kept[kept.length - 1]` when there is one, the initial `''` otherwise. */
  function LastOrEmpty(kept: seq<string>): string {
    if |kept| == 0 then "" else kept[|kept| - 1]
  }

  /** The text `scrapeTelegram` returns for a page. */
  function SelectText(page: Page, strip: Stripper): (text: string)
    ensures |page.messages| == 0 ==>
              text <= page.bodyText && |text| == Min(FallbackLength, |page.bodyText|)
    ensures |page.messages| > 0 ==> text == "" || (Qualifies(text) && IsTrimmed(text))
  {
    if |page.messages| == 0 then
      page.bodyText[..Min(FallbackLength, |page.bodyText|)]
    else
      var ts := Candidates(Window(page.messages), strip);
      var kept := KeepQualifying(ts);
      LastKeptIsTrimmed(ts, strip, Window(page.messages));
      LastOrEmpty(kept)
  }

  /** The text taken from the filtered candidates is one of them, so it is
      trimmed, and it qualifies. */
  lemma LastKeptIsTrimmed(ts: seq<string>, strip: Stripper, nodes: seq<string>)
    requires ts == Candidates(nodes, strip)
    ensures var text := LastOrEmpty(KeepQualifying(ts)); text == "" || (Qualifies(text) && IsTrimmed(text))
  {
    var kept := KeepQualifying(ts);
    if kept != [] {
      var last := kept[|kept| - 1];
      assert last in kept;
      var i :| 0 <= i < |ts| && ts[i] == last;
      assert IsTrimmed(Candidate(nodes[i], strip));
    }
  }

  /** No candidate after position `k` qualifies. */
  ghost predicate NoneQualifyAfter(ts: seq<string>, k: int) {
    forall j :: k < j < |ts| && 0 <= j ==> !Qualifies(ts[j])
  }

  /** The independent reading of the selection: the text is the newest
      qualifying candidate, or empty when none qualifies. */
  ghost predicate IsNewestQualifying(ts: seq<string>, text: string) {
    || (text == "" && NoneQualifyAfter(ts, -1))
    || (exists k :: 0 <= k < |ts| && ts[k] == text && Qualifies(text) && NoneQualifyAfter(ts, k))
  }

  /** Filtering and taking the last kept text picks the newest qualifying one. */
  lemma {:induction false} FilterLastIsNewest(ts: seq<string>)
    ensures IsNewestQualifying(ts, LastOrEmpty(KeepQualifying(ts)))
    decreases |ts|
  {
    if |ts| > 0 {
      var n := |ts| - 1;
      var init := ts[..n];
      var text := LastOrEmpty(KeepQualifying(ts));
      if Qualifies(ts[n]) {
        assert text == ts[n];
        assert NoneQualifyAfter(ts, n);
      } else {
        FilterLastIsNewest(init);
        assert KeepQualifying(ts) == KeepQualifying(init) + [];
        assert text == LastOrEmpty(KeepQualifying(init));
        if text == "" && NoneQualifyAfter(init, -1) {
          assert NoneQualifyAfter(ts, -1);
        } else {
          var k :| 0 <= k < n && init[k] == text && Qualifies(text) && NoneQualifyAfter(init, k);
          assert ts[k] == text;
          assert NoneQualifyAfter(ts, k);
        }
      }
    }
  }

  /** With message nodes present, the selection is the newest candidate in the
      window longer than 30 characters, or `""` when no candidate there is. */
  lemma SelectIsNewestQualifying(page: Page, strip: Stripper)
    requires |page.messages| > 0
    ensures IsNewestQualifying(Candidates(Window(page.messages), strip), SelectText(page, strip))
  {
    FilterLastIsNewest(Candidates(Window(page.messages), strip));
  }

  /** The selection is empty exactly when no candidate in the window is longer
      than 30 characters, whatever older nodes contain. */
  lemma SelectEmptyIff(page: Page, strip: Stripper)
    requires |page.messages| > 0
    ensures var w := Window(page.messages);
            SelectText(page, strip) == "" <==>
              forall j :: 0 <= j < |w| ==> !Qualifies(Candidate(w[j], strip))
  {
    SelectIsNewestQualifying(page, strip);
    NewestEmptyIff(Candidates(Window(page.messages), strip), SelectText(page, strip));
  }

  lemma NewestEmptyIff(ts: seq<string>, text: string)
    requires IsNewestQualifying(ts, text)
    ensures text == "" <==> forall j :: 0 <= j < |ts| ==> !Qualifies(ts[j])
  {
    if text != "" {
      var k :| 0 <= k < |ts| && ts[k] == text && Qualifies(text) && NoneQualifyAfter(ts, k);
      assert Qualifies(ts[k]);
    }
  }

  /** Only the newest three nodes matter: replacing any older node, or the
      body text, never changes the selection. */
  lemma OlderMessagesIgnored(page: Page, strip: Stripper, i: nat, html: string, body: string)
    requires i + WindowSize < |page.messages|
    ensures SelectText(Page(page.messages[i := html], body), strip) == SelectText(page, strip)
  {
    var m := page.messages;
    var m' := m[i := html];
    assert Window(m') == Window(m) by {
      assert forall j :: |m| - WindowSize <= j < |m| ==> m'[j] == m[j];
    }
  }
}
