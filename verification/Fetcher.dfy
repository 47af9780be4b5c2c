/** From the retrying client through the browser upstream to the metric label: what a
    failed Reddit fetch is reported as, end to end. */
module Fetcher {
  import opened Wrappers
  import opened Failures
  import opened Retry

  /** The label of a failed client call, through classification and any wrapping. */
  function ClientLabel(e: Error, fallback: Kind, texts: seq<string>): string {
    Reason(Some(WrapAll(ClassifyClientError(e, fallback), texts)))
  }

  // The attempt that settled the call.
  function Settling(c: Config, trials: seq<Trial>, n: nat): Attempt {
    TrialAt(trials, if n < c.maxAttempts || n == 0 then n else n - 1).attempt
  }

  /** The label depends on the last attempt alone: exhausted 429s, exhausted server errors,
      an ended context, or anything else. */
  lemma LabelOfLastAttempt(config: Config, trials: seq<Trial>, n: nat, r: Result, fallback: Kind, texts: seq<string>)
    requires IsOutcome(WithDefaults(config), trials, n, r) && r.Failed? && ForeignErrors(trials)
    ensures var last := Settling(WithDefaults(config), trials, n);
      && (last.Answered? ==> Retried(last))
      && ClientLabel(r.error, fallback, texts)
           == if last.Answered? && last.status == 429 then "http_429"
              else if !last.Answered? && IsContextError(FailureOf(last)) then "timeout"
              else KindName(fallback)
  {
    var c := WithDefaults(config);
    OutcomeStatuses(config, trials, n, r);
    WrappingKeepsReason(ClassifyClientError(r.error, fallback), texts);
    if n >= c.maxAttempts && n > 0 {
      assert !Ends(c, trials, n - 1);
    }
  }

  // -------------------------------------------------------- the browser upstream

  // The page Reddit served to the in-page fetch.
  datatype Page = Page(status: int, body: string, isJson: bool, marker: Option<string>)

  // The first script result: not a string, a string that is no envelope, or an envelope.
  datatype ScriptResult = NotAString | NoEnvelope | Envelope(page: Page)

  datatype CrawlResult = CrawlResult(success: bool, scripts: seq<ScriptResult>)

  // The body of the upstream's answer.
  datatype Answer =
    | Unreadable(error: Error)
    | Undecodable
    | Decoded(success: bool, results: seq<CrawlResult>)

  datatype Fetched = Body(body: string) | Failure(error: Error)

  function Fail(kind: Kind, status: int): Fetched {
    Failure(FetchError(kind, status, "", Some(Plain("upstream"))))
  }

  function PageOf(page: Page): Fetched {
    if page.status != 200 then Fail(KindForStatus(page.status), page.status)
    else if page.isJson then Body(page.body)
    else if page.marker.Some? then Failure(FetchError(Captcha, page.status, page.marker.value, None))
    else Fail(BotBlock, 0)
  }

  function FromScript(script: ScriptResult): Fetched {
    match script
    case NotAString => Fail(BadResponse, 0)
    case NoEnvelope => Failure(Plain("decode fetch envelope"))
    case Envelope(page) => PageOf(page)
  }

  function Unpack(answer: Answer): Fetched {
    match answer
    case Unreadable(e) => Failure(e)
    case Undecodable => Fail(BadResponse, 0)
    case Decoded(success, results) =>
      if !success || |results| == 0 || !results[0].success || |results[0].scripts| == 0 then Fail(BotBlock, 0)
      else FromScript(results[0].scripts[0])
  }

  /** One fetch through the browser: the client call, then the layers of the answer. */
  function BrowserFetch(configured: bool, call: Result, answer: Answer): Fetched {
    if !configured then Failure(Plain("endpoint not configured"))
    else
      match call
      case Failed(e) => Failure(ClassifyClientError(e, BotBlock))
      case Response(status) =>
        if status != 200 && !answer.Unreadable? then Fail(KindForStatus(status), status) else Unpack(answer)
      case _ => Failure(Plain("no response"))
  }

  /** The page that came all the way through, if one did. */
  function Delivered(configured: bool, call: Result, answer: Answer): Option<Page> {
    if configured && call == Response(200) && answer.Decoded? && answer.success && |answer.results| > 0
       && answer.results[0].success && |answer.results[0].scripts| > 0 && answer.results[0].scripts[0].Envelope?
    then Some(answer.results[0].scripts[0].page) else None
  }

  function Label(f: Fetched, texts: seq<string>): string {
    match f
    case Body(_) => Reason(None)
    case Failure(e) => Reason(Some(WrapAll(e, texts)))
  }

  /** What a Reddit label means, for the single attempt the browser path makes and however
      deeply the error is wrapped afterwards. */
  lemma BrowserLabels(base: Config, trials: seq<Trial>, n: nat, call: Result, configured: bool, answer: Answer,
                      texts: seq<string>)
    requires base.maxAttempts == 1 && IsOutcome(WithDefaults(base), trials, n, call) && ForeignErrors(trials)
    requires answer.Unreadable? ==> AsFetch(answer.error) == None && AsStatus(answer.error) == None
    ensures var f := BrowserFetch(configured, call, answer);
      var shown := Label(f, texts);
      var first := TrialAt(trials, 0).attempt;
      var page := Delivered(configured, call, answer);
      && (shown == "ok" <==> page.Some? && page.value.status == 200 && page.value.isJson)
      && (f.Body? ==> page.Some? && f.body == page.value.body)
      && (shown == "captcha" <==>
            page.Some? && page.value.status == 200 && !page.value.isJson && page.value.marker.Some?)
      && (shown == "upstream_error" <==> page.Some? && page.value.status >= 500)
      && (page.Some? && page.value.status == 403 ==> shown == "http_403")
      && (configured && first.Answered? && first.status >= 500 ==> shown == "bot_block")
      && (configured && first.Answered? && first.status == 429 ==> shown == "http_429")
      && (configured && !first.Answered? && IsContextError(FailureOf(first)) ==> shown == "timeout")
  {
    var f := BrowserFetch(configured, call, answer);
    var c := WithDefaults(base);
    OutcomeStatuses(base, trials, n, call);
    if f.Failure? {
      WrappingKeepsReason(f.error, texts);
    }
    OneAttempt(base, trials, n, call);
    if configured && call.Failed? {
      LabelOfLastAttempt(base, trials, n, call, BotBlock, texts);
    }
    DistinctLabels();
  }

  /** The label a page is reported under. */
  ghost predicate PageLabel(page: Page, shown: string) {
    && (page.status == 200 ==>
          shown == if page.isJson then "ok" else if page.marker.Some? then "captcha" else "bot_block")
    && (page.status != 200 ==> shown == StatusName(page.status))
  }

  function StatusName(status: int): string {
    if status == 403 then "http_403" else if status == 429 then "http_429"
    else if status >= 500 then "upstream_error" else "error"
  }

  lemma StatusNames(status: int)
    ensures KindName(KindForStatus(status)) == StatusName(status)
  {
  }

  /** Every label of the browser path, from the one attempt it makes to the page inside the
      script result of the upstream's answer. */
  lemma BrowserLabelTable(base: Config, trials: seq<Trial>, n: nat, call: Result, answer: Answer, texts: seq<string>)
    requires base.maxAttempts == 1 && IsOutcome(WithDefaults(base), trials, n, call) && ForeignErrors(trials)
    requires answer.Unreadable? ==> AsFetch(answer.error) == None
    ensures Label(BrowserFetch(false, call, answer), texts) == "error"
    ensures var shown := Label(BrowserFetch(true, call, answer), texts);
      match TrialAt(trials, 0).attempt
      case Answered(status, _) =>
        if status == 429 then shown == "http_429"
        else if status >= 500 then shown == "bot_block"
        else if answer.Unreadable? then
          shown == if DeadlineExceeded in Chain(answer.error) || Canceled in Chain(answer.error) then "timeout" else "error"
        else if status != 200 then shown == StatusName(status)
        else AnswerLabel(answer, shown)
      case a =>
        shown ==
          if DeadlineExceeded in Chain(FailureOf(a)) || Canceled in Chain(FailureOf(a)) then "timeout" else "bot_block"
  {
    hide IsOutcome, TrialAt, IsContextError, Chain, KindForStatus, StatusName, AnswerLabel;
    OneAttempt(base, trials, n, call);
    var f := BrowserFetch(true, call, answer);
    if f.Failure? {
      WrappingKeepsReason(f.error, texts);
    }
    NotConfigured(call, answer, texts);
    match TrialAt(trials, 0).attempt {
      case Answered(status, _) =>
        if status == 429 || status >= 500 {
          LabelOfLastAttempt(base, trials, n, call, BotBlock, texts);
        } else if answer.Unreadable? {
          ContextErrorMeans(answer.error);
        } else if status != 200 {
          StatusNames(status);
        } else {
          AnswerLabels(answer, texts);
        }
      case a =>
        ContextErrorMeans(FailureOf(a));
        LabelOfLastAttempt(base, trials, n, call, BotBlock, texts);
    }
  }

  lemma NotConfigured(call: Result, answer: Answer, texts: seq<string>)
    ensures Label(BrowserFetch(false, call, answer), texts) == "error"
  {
    WrappingKeepsReason(Plain("endpoint not configured"), texts);
  }

  /** A rejected page fails with its status, a wall of bot checks also with its marker, and
      failures without a page carry no status. */
  lemma FailuresCarry(page: Page, answer: Answer)
    requires answer.Undecodable? || (answer.Decoded? && (!answer.success || answer.results == []))
    ensures PageOf(page).Failure? && page.status != 200 ==>
              PageOf(page).error.FetchError? && PageOf(page).error.status == page.status && PageOf(page).error.marker == ""
    ensures PageOf(page).Failure? && page.status == 200 ==>
              PageOf(page).error.FetchError? && PageOf(page).error.status == (if page.marker.Some? then 200 else 0)
    ensures page.status == 200 && !page.isJson && page.marker.Some? ==> PageOf(page).error.marker == page.marker.value
    ensures Unpack(answer).Failure? && Unpack(answer).error.FetchError? && Unpack(answer).error.status == 0
  {
  }

  /** The label an answer of the upstream is reported under. */
  ghost predicate AnswerLabel(answer: Answer, shown: string)
    requires !answer.Unreadable?
  {
    match answer
    case Undecodable => shown == "bad_response"
    case Decoded(success, results) =>
      if success && results != [] && results[0].success && results[0].scripts != [] then
        match results[0].scripts[0]
        case NotAString => shown == "bad_response"
        case NoEnvelope => shown == "error"
        case Envelope(page) => PageLabel(page, shown)
      else shown == "bot_block"
  }

  lemma AnswerLabels(answer: Answer, texts: seq<string>)
    requires !answer.Unreadable?
    ensures AnswerLabel(answer, Label(Unpack(answer), texts))
  {
    var f := Unpack(answer);
    if f.Failure? {
      WrappingKeepsReason(f.error, texts);
    }
    if answer.Decoded? && answer.results != [] && answer.results[0].scripts != [] && answer.results[0].scripts[0].Envelope? {
      StatusNames(answer.results[0].scripts[0].page.status);
    }
  }

  lemma OneAttempt(base: Config, trials: seq<Trial>, n: nat, call: Result)
    requires base.maxAttempts == 1 && IsOutcome(WithDefaults(base), trials, n, call)
    ensures Settling(WithDefaults(base), trials, n) == TrialAt(trials, 0).attempt
    ensures match TrialAt(trials, 0).attempt
      case Answered(status, _) =>
        call == if status >= 500 || status == 429 then Failed(StatusError(status)) else Response(status)
      case a => call == Failed(FailureOf(a))
  {
    var c := WithDefaults(base);
    if n > 0 {
      assert !Ends(c, trials, 0);
    }
  }

  lemma DistinctLabels()
    ensures forall a, b :: KindName(a) == KindName(b) ==> a == b
    ensures forall a :: KindName(a) != "ok"
  {
    forall a, b | KindName(a) == KindName(b) ensures a == b {
      LabelsAreDistinct(a, b);
    }
    forall a ensures KindName(a) != "ok" {
      LabelsAreDistinct(a, a);
    }
  }
}
