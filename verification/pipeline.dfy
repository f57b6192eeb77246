/**
  One run of the scraper's `main` (scraper/scraper.js:83-102): select the text,
  stop unless it holds something other than white space, extract a record from
  it, then overwrite the snapshot file with that record.

  Everything outside the process is a field of `World`: the fetched page, the
  markup stripper, the model's reply, `JSON.parse`, `JSON.stringify` and
  whether the file can be written. Every failure ends the process with exit
  status 1; here it is a `Failed` outcome instead.
 */
module Pipeline {
  import opened JsString
  import opened Selector
  import opened Extractor

  /** Why a run stops. */
  datatype Failure =
    | FetchFailed   // fetching or parsing the page threw; `scrapeTelegram` exits
    | NoText        // the selected text is empty or white space only; `main` exits
    | ModelFailed   // the model call threw; `extractDataWithGemini` exits
    | NotJson       // `JSON.parse` threw on the cleaned reply; same handler exits
    | WriteFailed   // `writeFileSync` threw, which nothing catches

  datatype Outcome<J> = Done(record: J) | Failed(failure: Failure)

  /** What one run meets outside the process. `J` is whatever `JSON.parse`
      returns: no shape is checked before the record is written. */
  datatype World<!J> = World(
    page: Option<Page>,                // None: the fetch threw
    strip: Stripper,                   // cheerio's markup-to-text
    reply: string -> Option<string>,   // the model's reply to the prompt built around a text; None: it threw
    parse: string -> Option<J>,        // JSON.parse; None: it threw
    render: J -> string,               // JSON.stringify(record, null, 2)
    canWrite: bool)                    // whether writeFileSync succeeds

  /** The outside calls a run makes, in the order it makes them. */
  datatype Call = Fetch | Generate(text: string) | Write(contents: string)

  /** A finished run: its calls, its outcome and the snapshot file afterwards
      (None: no file). */
  datatype Run<J> = Run(calls: seq<Call>, outcome: Outcome<J>, snapshot: Option<string>)

  /** `extractDataWithGemini`: one model call, the reply cleaned, then parsed. */
  function Extract<J>(text: string, world: World<J>): (out: Outcome<J>)
    ensures out.Done? <==> world.reply(text).Some? && world.parse(CleanResponse(world.reply(text).value)).Some?
    ensures out.Failed? ==> out.failure in {ModelFailed, NotJson}
    ensures world.reply(text).None? ==> out == Failed(ModelFailed)
    ensures world.reply(text).Some? && world.parse(CleanResponse(world.reply(text).value)).None? ==>
              out == Failed(NotJson)
    ensures out.Done? ==> world.parse(CleanResponse(world.reply(text).value)) == Some(out.record)
  {
    match world.reply(text)
    case None => Failed(ModelFailed)
    case Some(response) =>
      match world.parse(CleanResponse(response))
      case None => Failed(NotJson)
      case Some(record) => Done(record)
  }

  /** The order `main` keeps: the page is fetched first, the model is asked
      only after that and only about text that holds something, and a write
      comes only right after a model call that returned. */
  ghost predicate CallInOrder(calls: seq<Call>, i: nat)
    requires i < |calls|
  {
    match calls[i]
    case Fetch => i == 0
    case Generate(text) => 0 < i && calls[i - 1] == Fetch && HasContent(text)
    case Write(_) => 0 < i && calls[i - 1].Generate?
  }

  ghost predicate InOrder(calls: seq<Call>) {
    forall i: nat {:trigger CallInOrder(calls, i)} :: i < |calls| ==> CallInOrder(calls, i)
  }

  ghost predicate NoWrite(calls: seq<Call>) {
    forall i :: 0 <= i < |calls| ==> !calls[i].Write?
  }

  /** The rest of `main` once `scrapeTelegram` has returned `text`: the
      guard, extraction, and the write. */
  function Proceed<J>(world: World<J>, text: string, previous: Option<string>): (run: Run<J>)
    ensures run.outcome.Done? <==> HasContent(text) && Extract(text, world).Done? && world.canWrite
    ensures InOrder(run.calls)
    ensures HasContent(text) <==> Generate(text) in run.calls
    ensures run.outcome.Done? ==> run.snapshot == Some(world.render(run.outcome.record))
    ensures run.outcome.Failed? ==> run.snapshot == previous
    ensures run.outcome.Failed? && run.outcome.failure != WriteFailed ==> NoWrite(run.calls)
    ensures !HasContent(text) ==> run == Run([Fetch], Failed(NoText), previous)
    ensures HasContent(text) && Extract(text, world).Failed? ==>
              run == Run([Fetch, Generate(text)], Extract(text, world), previous)
    ensures HasContent(text) && Extract(text, world).Done? ==>
              run.calls == [Fetch, Generate(text), Write(world.render(Extract(text, world).record))]
    ensures run.outcome == Failed(WriteFailed) ==>
              HasContent(text) && Extract(text, world).Done? && !world.canWrite
  {
    if !HasContent(text) then
      FetchAlone();
      Run([Fetch], Failed(NoText), previous)
    else
      ModelCallInOrder(text);
      match Extract(text, world)
      case Failed(f) => Run([Fetch, Generate(text)], Failed(f), previous)
      case Done(record) =>
        var contents := world.render(record);
        var calls := [Fetch, Generate(text), Write(contents)];
        WriteInOrder(text, contents);
        if world.canWrite then Run(calls, Done(record), Some(contents))
        else Run(calls, Failed(WriteFailed), previous)
  }

  lemma FetchAlone()
    ensures InOrder([Fetch])
  {
    assert CallInOrder([Fetch], 0);
  }

  lemma ModelCallInOrder(text: string)
    requires HasContent(text)
    ensures InOrder([Fetch, Generate(text)])
  {
    var calls := [Fetch, Generate(text)];
    assert CallInOrder(calls, 0) && CallInOrder(calls, 1);
  }

  lemma WriteInOrder(text: string, contents: string)
    requires HasContent(text)
    ensures InOrder([Fetch, Generate(text), Write(contents)])
  {
    var calls := [Fetch, Generate(text), Write(contents)];
    assert CallInOrder(calls, 0) && CallInOrder(calls, 1) && CallInOrder(calls, 2);
  }

  /** One run of `main`, starting from the snapshot `previous`. */
  function RunOnce<J>(world: World<J>, previous: Option<string>): (run: Run<J>)
    ensures world.page.None? ==> run == Run([Fetch], Failed(FetchFailed), previous)
    ensures run.outcome.Done? <==>
              && world.page.Some?
              && HasContent(SelectText(world.page.value, world.strip))
              && Extract(SelectText(world.page.value, world.strip), world).Done?
              && world.canWrite
    ensures InOrder(run.calls)
    ensures run.outcome.Done? ==> run.snapshot == Some(world.render(run.outcome.record))
    ensures run.outcome.Failed? ==> run.snapshot == previous
    ensures run.outcome.Failed? && run.outcome.failure != WriteFailed ==> NoWrite(run.calls)
    ensures world.page.Some? && !HasContent(SelectText(world.page.value, world.strip)) ==>
              run == Run([Fetch], Failed(NoText), previous)
    ensures world.page.Some? && HasContent(SelectText(world.page.value, world.strip)) ==>
              var text := SelectText(world.page.value, world.strip);
              Extract(text, world).Failed? ==>
                run == Run([Fetch, Generate(text)], Extract(text, world), previous)
    ensures world.page.Some? && HasContent(SelectText(world.page.value, world.strip)) ==>
              var text := SelectText(world.page.value, world.strip);
              Extract(text, world).Done? ==>
                run.calls == [Fetch, Generate(text), Write(world.render(Extract(text, world).record))]
    ensures run.outcome == Failed(WriteFailed) ==>
              && world.page.Some?
              && var text := SelectText(world.page.value, world.strip);
              && HasContent(text) && Extract(text, world).Done? && !world.canWrite
  {
    match world.page
    case None => Run([Fetch], Failed(FetchFailed), previous)
    case Some(page) => Proceed(world, SelectText(page, world.strip), previous)
  }

  /** When none of the newest three messages is longer than 30 characters the
      run stops before extraction and leaves the snapshot alone, however long
      older messages are. */
  lemma ShortMessagesAbort<J>(world: World<J>, previous: Option<string>)
    requires world.page.Some? && |world.page.value.messages| > 0
    requires var w := Window(world.page.value.messages);
             forall j :: 0 <= j < |w| ==> !Qualifies(Candidate(w[j], world.strip))
    ensures var run := RunOnce(world, previous);
            run.outcome == Failed(NoText) && run.calls == [Fetch] && run.snapshot == previous
  {
    SelectEmptyIff(world.page.value, world.strip);
  }

  /** With the same page and the same model reply, the snapshot a run leaves
      is determined by the world alone once a run has succeeded: running again
      against the same world leaves the same file, and a failing world never
      touches it. The real model call is not deterministic, so this is no
      promise that two runs of the program agree. */
  lemma RunTwiceSameSnapshot<J>(world: World<J>, previous: Option<string>)
    ensures var once := RunOnce(world, previous).snapshot;
            RunOnce(world, once).snapshot == once
  {
  }

  /** A record written by a run is exactly what parsing the cleaned reply to
      the selected text produced. */
  lemma WrittenRecordIsParsedReply<J>(world: World<J>, previous: Option<string>)
    ensures var run := RunOnce(world, previous);
            run.outcome.Done? ==>
              var text := SelectText(world.page.value, world.strip);
              && world.reply(text).Some?
              && world.parse(CleanResponse(world.reply(text).value)) == Some(run.outcome.record)
              && run.calls == [Fetch, Generate(text), Write(world.render(run.outcome.record))]
  {
  }
}
