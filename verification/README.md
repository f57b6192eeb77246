# goldDollar scraper: selection, reply clean-up and run guard

A Dafny model of the decision logic in the goldDollar scraper
(`scraper/scraper.js`). The scraper fetches a public Telegram channel page,
picks the newest message that looks like a rate announcement, asks a language
model to turn it into a JSON record, and overwrites `data.json` with that
record. The model covers the three pure parts of that pipeline:

- **Message selection** (`scrapeTelegram`), module `Selector`. A page is the
  inner HTML of each `.tgme_widget_message_text` node, oldest first, plus the
  body text. With no nodes, the selection is the first 1500 characters of the
  body text, untrimmed and unfiltered. Otherwise only the newest three nodes
  are used. In each one every `<br>` tag becomes `\n`, the markup is stripped
  and the text is trimmed. The selection is the newest of these texts longer
  than 30 characters, or `""` when there is none.
- **The `<br>` rewrite** `replace(/<br\s*\/?>/ig, '\n')`, module `BreakTags`.
  It is modelled as the leftmost, non-overlapping scan a JavaScript global
  replace performs, with JavaScript's exact `\s` set. A replacement changes
  nothing but the tag: every character outside white space and `<br/>` letters
  survives in order. The rewrite is idempotent when every `<br` in the input
  opens a real tag. It is not idempotent in general: `<br<br>>` becomes
  `<br\n>`, and a second pass turns that into `\n`.
- **Reply clean-up** (`extractDataWithGemini`), module `Extractor`. The reply
  is trimmed. Only if it then starts with three backticks, the first
  "```json" (and one newline after it) is removed, a final "```" is removed,
  and the text is trimmed again. A "```json" fence round-trips to its
  trimmed payload. A bare "```" opener is not removed, so such a reply still
  starts with backticks when it reaches `JSON.parse`.
- **One run** (`main`), module `Pipeline`. Extraction is called only when the
  selected text holds something besides white space. The snapshot is written
  only after extraction has returned a parsed value. Every failure before the
  write leaves the previous snapshot as it was; a failing write is taken to
  leave it as well (see "Left out").

`JsString` models the JavaScript built-ins used: the white-space set shared
by `\s` and `trim`, `trim`, and the leftmost search of a literal pattern.
A Dafny `char` is a Unicode scalar value, while JavaScript's `s.length`
counts UTF-16 code units. The two agree for text within the Basic
Multilingual Plane; a character outside it counts 1 here and 2 in JavaScript
(see "Left out"). No claim is made about normalisation.

Details of the code's behaviour that the model keeps:
- A message qualifies when it has strictly more than 30 characters. A text of
  exactly 30 characters is rejected.
- The fallback body prefix can be empty or white space only. In that case the
  run stops at `main`'s guard, not in the selector.
- `JSON.parse`'s result is written as it is. There is no check of the five
  fields, and no rejection of numbers written as strings.

## Model

| member | source | states |
|---|---|---|
| `JsString.Trim` | scraper/scraper.js:31 | `trim` returns a string with no white space at either end |
| `JsString.TrimEmptyIff` | scraper/scraper.js:89 | `s.trim()` is `""` exactly when `s` holds nothing but white space, which is the condition the run guard tests |
| `JsString.TrimSurrounded` | scraper/scraper.js:70 | whatever white space surrounds a trimmed core, `trim` returns exactly that core |
| `JsString.TrimSplit` | scraper/scraper.js:70 | `trim` removes only white space: every string is white space, then its trimmed core, then white space |
| `JsString.TrimTrimmed` | scraper/scraper.js:73 | trimming text that is already trimmed changes nothing, so `trim` is idempotent |
| `JsString.TrimDropsLeadingSpace` | scraper/scraper.js:73 | one leading white-space character, such as the newline after a fence, makes no difference to `trim` |
| `JsString.TrimKeepsOpening` | scraper/scraper.js:73 | a prefix whose first and last characters are not white space is still a prefix after `trim` |
| `JsString.IndexOf` | scraper/scraper.js:73 | the position found holds the pattern and no earlier position does; nothing is found exactly when the pattern occurs nowhere |
| `BreakTags.TagLengthAtMatches` | scraper/scraper.js:31 | a case-insensitive `<br\s*\/?>` match runs from position `i` to `k` exactly when the scan measures a tag of length `k - i` at `i`, so the scan finds the one match there and no other |
| `BreakTags.ReplaceBreaks` | scraper/scraper.js:31 | the rewrite shortens the text exactly when it contains a break tag, and leaves it unchanged exactly when it contains none |
| `BreakTags.ReplaceBreaksAtFirstTag` | scraper/scraper.js:31 | when `p` starts no tag and `t` is a whole break tag, rewriting `p + t + q` gives `p` verbatim, one newline for `t`, then the rewrite of `q`; with the tag-free case above this fixes the output of every input |
| `BreakTags.ReplaceBreaksKeepsText` | scraper/scraper.js:31 | apart from white space and the letters of `<br/>`, the output holds exactly the input's characters, in order; this is a corollary, and `ReplaceBreaksAtFirstTag` is the exact statement |
| `BreakTags.ReplaceBreaksIdempotent` | scraper/scraper.js:31 | when every `<br` in the input opens a complete tag, rewriting twice equals rewriting once |
| `BreakTags.ReplaceBreaksNotIdempotent` | scraper/scraper.js:31 | `<br<br>>` rewrites to `<br\n>`, which rewrites again to `\n`, so the rewrite is not idempotent in general |
| `Selector.Window` | scraper/scraper.js:29 | the window is the last min(3, n) nodes: the nodes are what comes before it followed by it |
| `Selector.Candidate` | scraper/scraper.js:30-31 | each message's text is the stripped, rewritten HTML with only white space removed from either end, and the result is trimmed |
| `Selector.KeepQualifying` | scraper/scraper.js:32 | a text is kept exactly when it is among the inputs and longer than 30 characters; when every input qualifies, all are kept in order |
| `Selector.KeepQualifyingAppend` | scraper/scraper.js:32 | filtering a concatenation is the concatenation of the filtered parts, so kept texts keep their input order; with the single-text case this fixes the filter's output |
| `Selector.KeepQualifyingSingle` | scraper/scraper.js:32 | a single text is kept exactly when it is longer than 30 characters |
| `Selector.SelectText` | scraper/scraper.js:22-39 | with no message nodes the selection is a prefix of the body text of length min(1500, body length); otherwise it is `""` or a trimmed text longer than 30 characters |
| `Selector.Candidates` | scraper/scraper.js:29-31 | one candidate per window node, in node order, each the `Candidate` of that node's HTML |
| `Selector.FilterLastIsNewest` | scraper/scraper.js:32-36 | filtering by length and taking the last kept text (`LastOrEmpty`, which starts from `''`) yields the newest qualifying text, with none qualifying after it, or `""` when none qualifies |
| `Selector.SelectIsNewestQualifying` | scraper/scraper.js:29-36 | with message nodes, the selection is the newest qualifying candidate among the last three nodes, or `""` |
| `Selector.SelectEmptyIff` | scraper/scraper.js:29-36 | with message nodes, the selection is `""` exactly when no candidate among the last three nodes is longer than 30 characters |
| `Selector.OlderMessagesIgnored` | scraper/scraper.js:29 | replacing any node older than the newest three, or the body text, never changes the selection |
| `Extractor.RemoveJsonOpener` | scraper/scraper.js:73 | a text without "```json" is unchanged; otherwise the first "```json", wherever it is, goes together with one newline right after it, and everything before it is kept |
| `Extractor.OpenerAfterBareFence` | scraper/scraper.js:73 | after a bare "```" line, the later "```json" is still the one removed: "```\n```json\n{}" becomes "```\n{}" |
| `Extractor.RemoveClosingFence` | scraper/scraper.js:73 | a text ending in "```" loses exactly that suffix; any other text is unchanged |
| `Extractor.CleanResponse` | scraper/scraper.js:70-74 | the text handed to `JSON.parse` is trimmed, and is just the trimmed reply when that does not start with "```"; a fenced reply loses its first "```json" opener and a final "```", in that order, and is trimmed again |
| `Extractor.UnfencedReplyUnchanged` | scraper/scraper.js:70-72 | a trimmed reply without an opening fence, with any white space around it, arrives unchanged |
| `Extractor.JsonFenceRoundTrip` | scraper/scraper.js:70-74 | a reply "```json" + payload + "```", with any white space around it, cleans to the trimmed payload |
| `Extractor.UnclosedJsonFence` | scraper/scraper.js:70-74 | a reply "```json" + payload with no closing fence, such as "```json\n{}", still loses its opener and cleans to the trimmed payload |
| `Extractor.BareFenceSurvives` | scraper/scraper.js:72-73 | a fenced reply of at least six characters without "```json" still starts with "```" after clean-up |
| `Pipeline.Extract` | scraper/scraper.js:69-80 | extraction succeeds exactly when the model replies and the cleaned reply parses, and then returns what parsing produced; a failed model call is a model failure, and a reply that does not parse is a parse failure |
| `Pipeline.Proceed` | scraper/scraper.js:89-100 | after selection, the run succeeds exactly when the text has content, extraction succeeds and the write succeeds; text without content stops after the fetch with `NoText`; a failed extraction stops after the model call with that failure; a successful extraction is followed by a write of its rendering, and a write failure happens only there; a failed run keeps the previous snapshot |
| `Pipeline.RunOnce` | scraper/scraper.js:84-101 | a run succeeds exactly when the page was fetched, the selection has content, extraction succeeds and the write succeeds; a failed fetch, a selection without content and a failed extraction each end the run with their own failure and the calls made so far; a successful extraction is followed by a write of its rendering, so a write failure happens only there; every write directly follows an extraction call; a failed run keeps the previous snapshot |
| `Pipeline.ShortMessagesAbort` | scraper/scraper.js:84-92 | when none of the newest three messages is longer than 30 characters, the run fails with no text after one fetch and leaves the snapshot alone |
| `Pipeline.RunTwiceSameSnapshot` | scraper/scraper.js:99-100 | running again against the same outside world, with the same page and the same model reply, leaves the same snapshot; the real model is not deterministic, so this is not a claim that two runs of the program agree |
| `Pipeline.WrittenRecordIsParsedReply` | scraper/scraper.js:94-100 | a successful run fetches, asks the model about the selected text, and writes the rendering of what parsing the cleaned reply produced |

## Left out

- The HTTP fetch and its headers (scraper/scraper.js:13-19): network I/O. A fetch is an optional page in `Pipeline.World`.
- Cheerio's parsing, the CSS selector and `.text()` (scraper/scraper.js:20, 23, 26, 30-31): a foreign library. The page arrives as node HTML strings plus body text, and markup stripping is an arbitrary function parameter.
- The model client, the model name and the prompt text (scraper/scraper.js:7, 49-69): an external, non-deterministic service. Its reply to a text is a function parameter that may fail.
- `JSON.parse`, `JSON.stringify` and the file path (scraper/scraper.js:76, 99-100): library and filesystem work. Parsing is a partial function parameter and rendering a total one.
- Pipeline.RunOnce: a failing `writeFileSync` is taken to leave the previous file as it was; a write that fails half-way through is not modelled.
- Pipeline.Proceed: the same all-or-nothing write. `writeFileSync` truncates the file when it opens it, so a write that fails after the open leaves a truncated file, while the model keeps the previous snapshot on `WriteFailed`.
- Extractor.BareFenceSurvives: stated only for trimmed replies of at least six characters. A shorter reply such as "```" alone cleans to fewer backticks or to `""`.
- Selector.Qualifies: lengths count Unicode scalar values, while `t.length > 30` (scraper/scraper.js:32) counts UTF-16 code units. A text with characters outside the Basic Multilingual Plane can qualify in JavaScript and not here.
- Selector.SelectText: the fallback keeps 1500 Unicode scalar values, while `substring(0, 1500)` (scraper/scraper.js:26) keeps 1500 UTF-16 code units and can split a surrogate pair. Bodies with characters outside the Basic Multilingual Plane are not modelled exactly.
- `process.exit`, console logging and `dotenv` loading: process plumbing. Each exit is a `Failed` outcome.
- `frontend/src/App.jsx`: the display client and its currency formatting, a thin wrapper over `Intl.NumberFormat`.
