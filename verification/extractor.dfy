/**
  Clean-up of the language model's reply in `extractDataWithGemini`
  (scraper/scraper.js:70-74), producing the text handed to `JSON.parse`.

  The reply is trimmed. Only when it then starts with three backticks are two
  literal regular-expression replacements applied, followed by a second trim:
  `/```json\n?/` removes the FIRST "```json" anywhere in the text, with one
  newline right after it when present, and `/```$/` removes three backticks at
  the very end.
 */
module Extractor {
  import opened JsString

  const Fence: string := "```"
  const JsonOpener: string := "```json"

  /** What is left of the text after an opener once the newline right after
      it, if any, is gone. */
  function AfterOpener(rest: string): string {
    if |rest| > 0 && rest[0] == '\n' then rest[1..] else rest
  }

  /** `pat` occurs at `i` and nowhere before it. */
  predicate FirstOccurrence(s: string, pat: string, i: nat) {
    OccursAt(s, pat, i) && forall k :: 0 <= k < i ==> !OccursAt(s, pat, k)
  }

  /** `s.replace(/```json\n?/, '')`: without the global flag only the first
      "```json" goes, wherever it is, with one newline right after it. */
  function RemoveJsonOpener(s: string): (r: string)
    ensures !Contains(s, JsonOpener) ==> r == s
    ensures Contains(s, JsonOpener) ==>
              exists i: nat :: FirstOccurrence(s, JsonOpener, i) && r == s[..i] + AfterOpener(s[i + |JsonOpener|..])
    ensures JsonOpener <= s ==> r == AfterOpener(s[|JsonOpener|..])
  {
    match IndexOf(s, JsonOpener)
    case None => s
    case Some(i) =>
      assert FirstOccurrence(s, JsonOpener, i);
      assert JsonOpener <= s ==> OccursAt(s, JsonOpener, 0) && i == 0 && s[..i] == [];
      s[..i] + AfterOpener(s[i + 7..])
  }

  /** The first "```json" need not open the text: after a bare fence it is
      still the one removed. */
  lemma OpenerAfterBareFence()
    ensures RemoveJsonOpener(Fence + "\n" + JsonOpener + "\n{}") == Fence + "\n{}"
  {
    var head := Fence + "\n";
    var s := head + JsonOpener + "\n{}";
    assert s[..4] == head && s[4..11] == JsonOpener && s[11..] == "\n{}";
    forall k | 0 <= k < 4 ensures !OccursAt(s, JsonOpener, k) {
      assert s[k + 3] != JsonOpener[3];
      assert s[k..k + 7][3] == s[k + 3];
    }
    assert FirstOccurrence(s, JsonOpener, 4);
  }

  /** `s.replace(/```$/, '')`: without the multiline flag `$` is the end of
      the text, so only a closing fence at the very end goes. */
  function RemoveClosingFence(s: string): (r: string)
    ensures EndsWith(s, Fence) ==> r + Fence == s
    ensures !EndsWith(s, Fence) ==> r == s
  {
    if EndsWith(s, Fence) then s[..|s| - 3] else s
  }

  /** The text `extractDataWithGemini` hands to `JSON.parse`. */
  function CleanResponse(response: string): (text: string)
    ensures IsTrimmed(text)
    ensures !(Fence <= Trim(response)) ==> text == Trim(response)
    ensures Fence <= Trim(response) ==> text == Trim(RemoveClosingFence(RemoveJsonOpener(Trim(response))))
  {
    var t := Trim(response);
    if Fence <= t then Trim(RemoveClosingFence(RemoveJsonOpener(t)))
    else t
  }

  /** A reply without a fence is passed on with only its surrounding white
      space removed: a bare JSON object arrives unchanged. */
  lemma UnfencedReplyUnchanged(w1: string, body: string, w2: string)
    requires AllSpace(w1) && AllSpace(w2) && IsTrimmed(body) && !(Fence <= body)
    ensures CleanResponse(w1 + body + w2) == body
  {
    TrimSurrounded(w1, body, w2);
  }

  /** A reply fenced as "```json" ... "```" yields exactly the trimmed payload,
      whatever white space surrounds the fence. */
  lemma JsonFenceRoundTrip(w1: string, payload: string, w2: string)
    requires AllSpace(w1) && AllSpace(w2)
    ensures CleanResponse(w1 + (JsonOpener + payload + Fence) + w2) == Trim(payload)
  {
    var fenced := JsonOpener + payload + Fence;
    var p := AfterOpener(payload);
    FencedIsTrimmed(payload);
    TrimSurrounded(w1, fenced, w2);
    OpenerRemoved(payload);
    ClosingFenceRemoved(p);
    NewlineAfterOpener(payload);
  }

  /** A reply that opens with "```json" but has no closing fence (it was cut
      off, or text follows the object) still loses its opener: "```json\n{}"
      cleans to "{}". */
  lemma UnclosedJsonFence(w1: string, payload: string, w2: string)
    requires AllSpace(w1) && AllSpace(w2)
    requires |payload| > 0 && !IsSpace(payload[|payload| - 1]) && !EndsWith(payload, Fence)
    ensures CleanResponse(w1 + (JsonOpener + payload) + w2) == Trim(payload)
  {
    var reply := JsonOpener + payload;
    assert reply[0] == '`' && reply[|reply| - 1] == payload[|payload| - 1];
    TrimSurrounded(w1, reply, w2);
    OpenerRemovedUnclosed(payload);
    NoClosingFenceAfterOpener(payload);
    NewlineAfterOpener(payload);
  }

  lemma OpenerRemovedUnclosed(payload: string)
    ensures var reply := JsonOpener + payload;
            Fence <= reply && RemoveJsonOpener(reply) == AfterOpener(payload)
  {
    var reply := JsonOpener + payload;
    assert reply[..3] == Fence && reply[..7] == JsonOpener && reply[7..] == payload;
  }

  lemma NoClosingFenceAfterOpener(payload: string)
    requires !EndsWith(payload, Fence)
    ensures RemoveClosingFence(AfterOpener(payload)) == AfterOpener(payload)
  {
  }

  lemma FencedIsTrimmed(payload: string)
    ensures IsTrimmed(JsonOpener + payload + Fence)
  {
    var fenced := JsonOpener + payload + Fence;
    assert fenced[0] == '`' && fenced[|fenced| - 1] == '`';
  }

  lemma OpenerRemoved(payload: string)
    ensures var fenced := JsonOpener + payload + Fence;
            Fence <= fenced && RemoveJsonOpener(fenced) == AfterOpener(payload) + Fence
  {
    var fenced := JsonOpener + payload + Fence;
    assert fenced[..3] == Fence;
    assert fenced[..7] == JsonOpener;
    assert fenced[7..] == payload + Fence;
    if |payload| > 0 && payload[0] == '\n' {
      assert (payload + Fence)[1..] == payload[1..] + Fence;
    }
  }

  lemma ClosingFenceRemoved(p: string)
    ensures RemoveClosingFence(p + Fence) == p
  {
    assert (p + Fence)[|p|..] == Fence;
    assert (p + Fence)[..|p|] == p;
  }

  lemma NewlineAfterOpener(payload: string)
    ensures Trim(AfterOpener(payload)) == Trim(payload)
  {
    if |payload| > 0 && payload[0] == '\n' {
      assert payload == [payload[0]] + payload[1..];
      TrimDropsLeadingSpace(payload[0], payload[1..]);
    }
  }

  /** Only a "```json" opener is removed. A reply fenced with a bare "```"
      (or "```JSON") keeps its opening fence, so the text handed to
      `JSON.parse` still starts with backticks. */
  lemma BareFenceSurvives(response: string)
    requires var t := Trim(response); Fence <= t && |t| >= 2 * |Fence| && !Contains(t, JsonOpener)
    ensures Fence <= CleanResponse(response)
  {
    var t := Trim(response);
    var u := RemoveClosingFence(t);
    assert Fence <= u && |u| >= |Fence|;
    TrimKeepsOpening(u, Fence);
  }
}
