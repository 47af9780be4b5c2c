/** The loader's fan-out: one goroutine per URL, each taking at most one limiter slot,
    joined by a wait group before the reply. A machine over the atomic steps of the
    handler and its workers, composed with the limiter protocol. */
module Loader {
  import opened Wrappers
  import opened Limiter
  import opened LimiterHistory
  import opened LimiterLaws
  import opened LimiterDelay

  type Url = string

  datatype Document = Document(content: string, metadata: map<string, string>)

  // What the registry's crawl of a URL comes back with.
  datatype CrawlResult = Crawled(doc: Document) | CrawlFailed

  const FAILURE_TEXT := "Error crawling URL (see server logs for details)"

  /** What the reply shows for one URL. */
  function CrawlOne(url: Url, result: CrawlResult): Document {
    match result
    case Crawled(doc) => doc
    case CrawlFailed => Document(FAILURE_TEXT, map["source" := url, "error" := "true"])
  }

  // A goroutine works on the index and the URL it was handed when it was spawned. It may
  // reach Acquire; its limiter call is then `call`.
  datatype Worker =
    | Unspawned
    | Spawned(idx: nat, url: Url)
    | Crawling(idx: nat, url: Url, call: nat)
    | Returned(idx: nat, doc: Document)
    | Written
    | Done

  datatype Crawl = Crawl(url: Url, result: CrawlResult)

  // The limiter is given by the schedule of its events so far; it may already be busy
  // with the calls of other requests. `crawls` records what each goroutine asked the
  // registry for and was told; it guides no step.
  datatype Server = Server(
    schedule: seq<Event>,
    urls: seq<Url>,
    workers: seq<Worker>,
    pending: nat,
    results: seq<Option<Document>>,
    replied: bool,
    crawls: map<nat, Crawl>)

  datatype Action =
    | Spawn(i: nat)
    | Reach(i: nat, host: Host)
    | Limit(at: int, id: nat, jitterMs: nat)
    | Other(at: int, host: Host)
    | Return(i: nat, result: CrawlResult)
    | Write(i: nat)
    | Finish(i: nat)
    | Reply

  function Calls(cfg: Config, v: Server): seq<Call> {
    match Trace(cfg, v.schedule)
    case None => []
    case Some(t) => t.state.calls
  }

  function Now(cfg: Config, v: Server): int {
    match Trace(cfg, v.schedule)
    case None => 0
    case Some(t) => t.state.now
  }

  // The crawl is over: it never reached the limiter, or its call has released its slot.
  predicate CrawlOver(cfg: Config, v: Server, w: Worker) {
    w.Spawned? || (w.Crawling? && w.call < |Calls(cfg, v)| && Calls(cfg, v)[w.call].phase == Finished)
  }

  function Start(schedule: seq<Event>, urls: seq<Url>): Server {
    Server(schedule, urls, seq(|urls|, _ => Unspawned), 0, seq(|urls|, _ => None), false, map[])
  }

  function Become(v: Server, i: nat, w: Worker): Server
    requires i < |v.workers|
  {
    v.(workers := v.workers[i := w])
  }

  /** One atomic step of goroutine i, spawned in index order; None when not enabled. */
  function Work(cfg: Config, v: Server, i: nat, a: Action): Option<Server>
    requires i < |v.workers|
  {
    var w := v.workers[i];
    match a
    case Spawn(_) =>
      if w.Unspawned? && i < |v.urls| && (i == 0 || !v.workers[i - 1].Unspawned?)
      then Some(Become(v, i, Spawned(i, v.urls[i])).(pending := v.pending + 1)) else None
    case Reach(_, host) =>
      var arrived := v.schedule + [Event(Now(cfg, v), Arrive(host))];
      if w.Spawned? && Trace(cfg, arrived).Some?
      then Some(Become(v, i, Crawling(w.idx, w.url, |Calls(cfg, v)|)).(schedule := arrived)) else None
    case Return(_, result) =>
      if CrawlOver(cfg, v, w)
      then Some(Become(v, i, Returned(w.idx, CrawlOne(w.url, result))).(crawls := v.crawls[i := Crawl(w.url, result)]))
      else None
    case Write(_) =>
      if w.Returned? && w.idx < |v.results|
      then Some(Become(v, i, Written).(results := v.results[w.idx := Some(w.doc)])) else None
    case Finish(_) =>
      if w.Written? && v.pending > 0 then Some(Become(v, i, Done).(pending := v.pending - 1)) else None
    case _ => None
  }

  /** One atomic step of a goroutine, of the limiter or of the handler; or a call of
      another request arrives at the limiter, at any time. */
  function Act(cfg: Config, v: Server, a: Action): Option<Server> {
    match a
    case Limit(at, id, jitterMs) =>
      var moved := v.schedule + [Event(at, Advance(id, jitterMs))];
      if Trace(cfg, moved).Some? then Some(v.(schedule := moved)) else None
    case Other(at, host) =>
      var arrived := v.schedule + [Event(at, Arrive(host))];
      if Trace(cfg, arrived).Some? then Some(v.(schedule := arrived)) else None
    case Reply =>
      if !v.replied && v.pending == 0 && (forall i :: 0 <= i < |v.workers| ==> !v.workers[i].Unspawned?)
      then Some(v.(replied := true)) else None
    case _ => if a.i < |v.workers| then Work(cfg, v, a.i, a) else None
  }

  // ------------------------------------------------------------------- invariant

  function Active(workers: seq<Worker>): nat {
    if workers == [] then 0
    else
      var w := workers[|workers| - 1];
      Active(workers[..|workers| - 1]) + if w.Unspawned? || w.Done? then 0 else 1
  }

  ghost predicate Running(cfg: Config, v: Server) {
    && Trace(cfg, v.schedule).Some?
    && |v.workers| == |v.urls| == |v.results|
  }

  /** The slot of URL i holds what the crawl of URL i came back with. */
  ghost predicate Answers(v: Server, i: nat, slot: Option<Document>)
    requires i < |v.urls|
  {
    i in v.crawls && v.crawls[i].url == v.urls[i] && slot == Some(CrawlOne(v.urls[i], v.crawls[i].result))
  }

  /** Goroutine i works for index i and URL i, and its slot is filled by its write. */
  ghost predicate OnItsJob(v: Server, i: nat)
    requires i < |v.workers| && |v.workers| == |v.urls| == |v.results|
  {
    match v.workers[i]
    case Unspawned => v.results[i] == None && i !in v.crawls
    case Spawned(idx, url) => idx == i && url == v.urls[i] && v.results[i] == None && i !in v.crawls
    case Crawling(idx, url, _) => idx == i && url == v.urls[i] && v.results[i] == None && i !in v.crawls
    case Returned(idx, doc) => idx == i && v.results[i] == None && Answers(v, i, Some(doc))
    case _ => Answers(v, i, v.results[i])
  }

  ghost predicate Sound(cfg: Config, v: Server) {
    && Running(cfg, v)
    && v.pending == Active(v.workers)
    && (forall i: nat :: i < |v.workers| ==> OnItsJob(v, i))
    && (forall i :: 0 <= i < |v.workers| && v.workers[i].Crawling? ==> v.workers[i].call < |Calls(cfg, v)|)
    && (v.replied ==> forall i :: 0 <= i < |v.workers| ==> v.workers[i] == Done)
  }

  lemma {:induction false} ActiveUpdate(workers: seq<Worker>, i: nat, w: Worker)
    requires i < |workers|
    ensures Active(workers[i := w]) == Active(workers)
      - (if workers[i].Unspawned? || workers[i].Done? then 0 else 1) + if w.Unspawned? || w.Done? then 0 else 1
  {
    var n := |workers| - 1;
    if i < n {
      assert workers[i := w][..n] == workers[..n][i := w];
      ActiveUpdate(workers[..n], i, w);
    } else {
      assert workers[i := w][..n] == workers[..n];
    }
  }

  lemma {:induction false} NoneActive(workers: seq<Worker>, i: nat)
    requires Active(workers) == 0 && i < |workers|
    ensures workers[i].Unspawned? || workers[i].Done?
  {
    if i < |workers| - 1 {
      NoneActive(workers[..|workers| - 1], i);
    }
  }

  lemma {:induction false} NoneStarted(workers: seq<Worker>)
    requires forall i :: 0 <= i < |workers| ==> workers[i] == Unspawned
    ensures Active(workers) == 0
  {
    if workers != [] {
      NoneStarted(workers[..|workers| - 1]);
    }
  }

  lemma StartIsSound(cfg: Config, schedule: seq<Event>, urls: seq<Url>)
    requires Trace(cfg, schedule).Some?
    ensures Sound(cfg, Start(schedule, urls))
  {
    NoneStarted(Start(schedule, urls).workers);
  }

  /** One more limiter event, in terms of the machine. */
  lemma OneEvent(cfg: Config, schedule: seq<Event>, e: Event)
    requires Trace(cfg, schedule).Some?
    ensures var next := Step(cfg, Trace(cfg, schedule).value.state, e);
      if next.None? then Trace(cfg, schedule + [e]) == None
      else Trace(cfg, schedule + [e]).Some? && Trace(cfg, schedule + [e]).value.state == next.value
  {
    hide Step, Record;
    assert (schedule + [e])[..|schedule|] == schedule;
  }

  /** Limiter events never remove a call. */
  lemma CallsOnlyGrow(cfg: Config, schedule: seq<Event>, e: Event)
    requires Trace(cfg, schedule + [e]).Some?
    ensures Trace(cfg, schedule).Some?
    ensures |Trace(cfg, schedule).value.state.calls| <= |Trace(cfg, schedule + [e]).value.state.calls|
    ensures e.action.Arrive? ==>
      Trace(cfg, schedule + [e]).value.state.calls
      == Trace(cfg, schedule).value.state.calls + [Call(e.action.host, Started)]
  {
    hide Trace, Step;
    TraceHasPrefix(cfg, schedule, e);
    OneEvent(cfg, schedule, e);
    StepGrows(cfg, Trace(cfg, schedule).value.state, e);
  }

  lemma StepGrows(cfg: Config, s: State, e: Event)
    requires Step(cfg, s, e).Some?
    ensures |s.calls| <= |Step(cfg, s, e).value.calls|
    ensures e.action.Arrive? ==> Step(cfg, s, e).value.calls == s.calls + [Call(e.action.host, Started)]
  {
    hide CheckDelay;
  }

  lemma TraceHasPrefix(cfg: Config, schedule: seq<Event>, e: Event)
    requires Trace(cfg, schedule + [e]).Some?
    ensures Trace(cfg, schedule).Some?
  {
    hide Step, Record;
    assert (schedule + [e])[..|schedule|] == schedule;
  }

  lemma ActKeepsJobs(cfg: Config, v: Server, a: Action, v': Server)
    requires Sound(cfg, v) && Act(cfg, v, a) == Some(v')
    ensures |v'.workers| == |v'.urls| == |v'.results| && forall k: nat :: k < |v'.workers| ==> OnItsJob(v', k)
  {
    hide Trace, Active, CrawlOne, Now, Calls;
    if !a.Limit? && !a.Other? && !a.Reply? {
      assert OnItsJob(v, a.i);
    }
    forall k: nat | k < |v'.workers| ensures OnItsJob(v', k) {
      assert OnItsJob(v, k);
    }
  }

  /** Every step keeps the wait-group count and every goroutine on the job it was handed. */
  lemma ActKeepsSound(cfg: Config, v: Server, a: Action, v': Server)
    requires Sound(cfg, v) && Act(cfg, v, a) == Some(v')
    ensures Sound(cfg, v')
  {
    hide Trace, Active, CrawlOne, OnItsJob;
    ActKeepsJobs(cfg, v, a, v');
    match a {
      case Limit(at, id, j) => CallsOnlyGrow(cfg, v.schedule, Event(at, Advance(id, j)));
      case Other(at, host) => CallsOnlyGrow(cfg, v.schedule, Event(at, Arrive(host)));
      case Reply =>
        forall i: nat | i < |v.workers| ensures v.workers[i] == Done {
          NoneActive(v.workers, i);
        }
      case Reach(i, host) =>
        ActiveUpdate(v.workers, i, v'.workers[i]);
        CallsOnlyGrow(cfg, v.schedule, Event(Now(cfg, v), Arrive(host)));
      case _ => ActiveUpdate(v.workers, a.i, v'.workers[a.i]);
    }
  }

  // ------------------------------------------------------------ progress and the end

  function WorkerRank(w: Worker): nat {
    match w
    case Unspawned => 11
    case Spawned(_, _) => 10
    case Crawling(_, _, _) => 3
    case Returned(_, _) => 2
    case Written => 1
    case Done => 0
  }

  function WorkersLeft(workers: seq<Worker>): nat {
    if workers == [] then 0 else WorkersLeft(workers[..|workers| - 1]) + WorkerRank(workers[|workers| - 1])
  }

  lemma {:induction false} WorkersLeftUpdate(workers: seq<Worker>, i: nat, w: Worker)
    requires i < |workers|
    ensures WorkersLeft(workers[i := w]) == WorkersLeft(workers) - WorkerRank(workers[i]) + WorkerRank(w)
  {
    var n := |workers| - 1;
    if i < n {
      assert workers[i := w][..n] == workers[..n][i := w];
      WorkersLeftUpdate(workers[..n], i, w);
    } else {
      assert workers[i := w][..n] == workers[..n];
    }
  }

  /** Steps left, an upper bound: of the limiter calls, the workers and the reply. */
  function StepsLeft(cfg: Config, v: Server): nat {
    Remaining(Calls(cfg, v)) + WorkersLeft(v.workers) + if v.replied then 0 else 1
  }

  lemma LimitDecreases(cfg: Config, schedule: seq<Event>, at: int, id: nat, j: nat)
    requires Trace(cfg, schedule).Some? && Trace(cfg, schedule + [Event(at, Advance(id, j))]).Some?
    ensures Remaining(Trace(cfg, schedule + [Event(at, Advance(id, j))]).value.state.calls)
          < Remaining(Trace(cfg, schedule).value.state.calls)
  {
    hide Step, Record, Remaining;
    var e := Event(at, Advance(id, j));
    assert (schedule + [e])[..|schedule|] == schedule;
    AdvanceDecreases(cfg, Trace(cfg, schedule).value.state, at, id, j, Trace(cfg, schedule + [e]).value.state);
  }

  lemma RemainingArrive(calls: seq<Call>, host: Host)
    ensures Remaining(calls + [Call(host, Started)]) == Remaining(calls) + 6
  {
    assert (calls + [Call(host, Started)])[..|calls|] == calls;
  }

  /** Every step of the handler, of a worker or of the limiter leaves fewer to make; a call
      of another request adds six. */
  lemma ActDecreases(cfg: Config, v: Server, a: Action, v': Server)
    requires Sound(cfg, v) && Act(cfg, v, a) == Some(v')
    ensures if a.Other? then StepsLeft(cfg, v') == StepsLeft(cfg, v) + 6 else StepsLeft(cfg, v') < StepsLeft(cfg, v)
  {
    hide Trace, Remaining, WorkersLeft, Active, CrawlOne;
    match a {
      case Limit(at, id, j) => LimitDecreases(cfg, v.schedule, at, id, j);
      case Other(at, host) =>
        CallsOnlyGrow(cfg, v.schedule, Event(at, Arrive(host)));
        RemainingArrive(Calls(cfg, v), host);
      case Reply =>
      case Reach(i, host) =>
        WorkersLeftUpdate(v.workers, i, v'.workers[i]);
        CallsOnlyGrow(cfg, v.schedule, Event(Now(cfg, v), Arrive(host)));
        RemainingArrive(Calls(cfg, v), host);
      case _ => WorkersLeftUpdate(v.workers, a.i, v'.workers[a.i]);
    }
  }

  lemma {:induction false} FirstUnspawned(workers: seq<Worker>, k: nat) returns (i: nat)
    requires k < |workers| && workers[k].Unspawned?
    ensures i <= k && workers[i].Unspawned? && (i == 0 || !workers[i - 1].Unspawned?)
  {
    if k > 0 && workers[k - 1].Unspawned? {
      i := FirstUnspawned(workers, k - 1);
    } else {
      i := k;
    }
  }

  lemma {:induction false} ActivePositive(workers: seq<Worker>, i: nat)
    requires i < |workers| && !workers[i].Unspawned? && !workers[i].Done?
    ensures Active(workers) > 0
  {
    if i < |workers| - 1 {
      ActivePositive(workers[..|workers| - 1], i);
    }
  }

  lemma {:induction false} AllSettled(workers: seq<Worker>)
    requires forall i :: 0 <= i < |workers| ==> workers[i] == Done
    ensures Active(workers) == 0
  {
    if workers != [] {
      AllSettled(workers[..|workers| - 1]);
    }
  }

  lemma LimiterMoves(cfg: Config, schedule: seq<Event>, k: nat) returns (id: nat, at: int)
    requires cfg.capacity >= 1 && Trace(cfg, schedule).Some? && k < |Trace(cfg, schedule).value.state.calls|
    requires Trace(cfg, schedule).value.state.calls[k].phase != Finished
    ensures Trace(cfg, schedule + [Event(at, Advance(id, 0))]).Some?
  {
    hide Step, Record;
    id, at := SomeCallCanMove(cfg, schedule, k);
    var t := Trace(cfg, schedule).value;
    TraceExtends(cfg, schedule, t, Event(at, Advance(id, 0)), Step(cfg, t.state, Event(at, Advance(id, 0))).value);
  }

  /** A goroutine outside the limiter can always move; inside, some call can. */
  lemma WorkerCanAct(cfg: Config, v: Server, i: nat) returns (a: Action)
    requires Sound(cfg, v) && i < |v.workers| && !v.workers[i].Unspawned? && !v.workers[i].Done?
    requires cfg.capacity >= 1 || !v.workers[i].Crawling?
    ensures Act(cfg, v, a).Some? && !a.Other?
  {
    hide Trace, Active;
    assert OnItsJob(v, i);
    match v.workers[i] {
      case Spawned(_, _) => a := Return(i, CrawlFailed);
      case Returned(_, _) => a := Write(i);
      case Written =>
        ActivePositive(v.workers, i);
        a := Finish(i);
      case Crawling(_, _, call) =>
        if Calls(cfg, v)[call].phase == Finished {
          a := Return(i, CrawlFailed);
        } else {
          var id, at := LimiterMoves(cfg, v.schedule, call);
          a := Limit(at, id, 0);
        }
    }
  }

  /** No deadlock: while no goroutine waits for a limiter without tokens, an unanswered
      request always has an enabled step of its own or of the limiter. */
  lemma NeverStuck(cfg: Config, v: Server) returns (a: Action)
    requires Sound(cfg, v) && !v.replied
    requires cfg.capacity >= 1 || forall i :: 0 <= i < |v.workers| ==> !v.workers[i].Crawling?
    ensures Act(cfg, v, a).Some? && !a.Other?
  {
    if k :| 0 <= k < |v.workers| && v.workers[k].Unspawned? {
      var i := FirstUnspawned(v.workers, k);
      a := Spawn(i);
    } else if k :| 0 <= k < |v.workers| && !v.workers[k].Done? {
      a := WorkerCanAct(cfg, v, k);
    } else {
      AllSettled(v.workers);
      a := Reply;
    }
  }

  // ------------------------------------------------------------------------- runs

  function Run(cfg: Config, v: Server, actions: seq<Action>): Option<Server> {
    if actions == [] then Some(v)
    else
      match Run(cfg, v, actions[..|actions| - 1])
      case None => None
      case Some(w) => Act(cfg, w, actions[|actions| - 1])
  }

  /** Calls of other requests that arrive during a run. */
  function Others(actions: seq<Action>): nat {
    if actions == [] then 0
    else Others(actions[..|actions| - 1]) + if actions[|actions| - 1].Other? then 1 else 0
  }

  /** No run is longer than the steps left at its start, and seven more for every call of
      another request that arrives. */
  lemma {:induction false} RunsAreBounded(cfg: Config, v: Server, actions: seq<Action>)
    requires Sound(cfg, v) && Run(cfg, v, actions).Some?
    ensures var w := Run(cfg, v, actions).value;
      Sound(cfg, w) && |actions| + StepsLeft(cfg, w) <= StepsLeft(cfg, v) + 7 * Others(actions)
  {
    if actions != [] {
      hide Act, Sound, StepsLeft;
      var n := |actions| - 1;
      RunsAreBounded(cfg, v, actions[..n]);
      var w := Run(cfg, v, actions[..n]).value;
      ActKeepsSound(cfg, w, actions[n], Run(cfg, v, actions).value);
      ActDecreases(cfg, w, actions[n], Run(cfg, v, actions).value);
    }
  }

  lemma {:induction false} UrlsStay(cfg: Config, v: Server, actions: seq<Action>)
    requires Run(cfg, v, actions).Some?
    ensures Run(cfg, v, actions).value.urls == v.urls
  {
    hide Act;
    if actions != [] {
      var n := |actions| - 1;
      UrlsStay(cfg, v, actions[..n]);
      ActKeepsUrls(cfg, Run(cfg, v, actions[..n]).value, actions[n], Run(cfg, v, actions).value);
    }
  }

  lemma ActKeepsUrls(cfg: Config, v: Server, a: Action, v': Server)
    requires Act(cfg, v, a) == Some(v')
    ensures v'.urls == v.urls
  {
    hide Trace, Calls, Now, CrawlOne;
  }

  /** Nothing is left to do unless another request calls the limiter. */
  ghost predicate Maximal(cfg: Config, v: Server) {
    forall a: Action :: !a.Other? ==> Act(cfg, v, a) == None
  }

  lemma RunIsSound(cfg: Config, schedule: seq<Event>, urls: seq<Url>, actions: seq<Action>)
    requires Trace(cfg, schedule).Some? && Run(cfg, Start(schedule, urls), actions).Some?
    ensures Sound(cfg, Run(cfg, Start(schedule, urls), actions).value)
    ensures Run(cfg, Start(schedule, urls), actions).value.urls == urls
  {
    hide Sound, Run;
    StartIsSound(cfg, schedule, urls);
    UrlsStay(cfg, Start(schedule, urls), actions);
    RunsAreBounded(cfg, Start(schedule, urls), actions);
  }

  /** A successful crawl is shown as the document it came back with, a failed one as the
      fixed text, marked as an error of its URL. */
  ghost predicate ShowsCrawl(url: Url, result: CrawlResult, slot: Option<Document>) {
    && (result.Crawled? ==> slot == Some(result.doc))
    && (result.CrawlFailed? ==>
          && slot.Some? && slot.value.content == "Error crawling URL (see server logs for details)"
          && slot.value.metadata == map["source" := url, "error" := "true"])
  }

  lemma CrawlOneShows(url: Url, result: CrawlResult)
    ensures ShowsCrawl(url, result, Some(CrawlOne(url, result)))
  {
  }

  /** A run that can go no further has replied, and on every such run slot i of the reply
      holds what the crawl of URL i came back with, however busy other requests keep the
      limiter before and during the run. */
  lemma EveryRunReplies(cfg: Config, schedule: seq<Event>, urls: seq<Url>, actions: seq<Action>)
    requires cfg.capacity >= 1 && Trace(cfg, schedule).Some?
    requires Run(cfg, Start(schedule, urls), actions).Some?
    requires Maximal(cfg, Run(cfg, Start(schedule, urls), actions).value)
    ensures var v := Run(cfg, Start(schedule, urls), actions).value;
      && v.replied && v.urls == urls && |v.results| == |urls|
      && forall i: nat :: i < |urls| ==>
           i in v.crawls && v.crawls[i].url == urls[i] && ShowsCrawl(urls[i], v.crawls[i].result, v.results[i])
  {
    RunIsSound(cfg, schedule, urls, actions);
    var v := Run(cfg, Start(schedule, urls), actions).value;
    hide Run, Act, ShowsCrawl, CrawlOne;
    if !v.replied {
      var a := NeverStuck(cfg, v);
      assert false;
    }
    forall i: nat | i < |urls|
      ensures i in v.crawls && v.crawls[i].url == urls[i] && ShowsCrawl(urls[i], v.crawls[i].result, v.results[i])
    {
      assert OnItsJob(v, i);
      CrawlOneShows(urls[i], v.crawls[i].result);
    }
  }

  // ------------------------------------------------------------ a limiter without tokens

  lemma NoTokensActStays(cfg: Config, v: Server, a: Action, v': Server, i: nat)
    requires cfg.capacity == 0 && Sound(cfg, v) && i < |v.workers| && v.workers[i].Crawling?
    requires Act(cfg, v, a) == Some(v')
    ensures i < |v'.workers| && v'.workers[i] == v.workers[i] && !v'.replied
  {
    NoTokensNoGrants(cfg, v.schedule);
    hide Trace, Active, CrawlOne;
    if a.Reply? {
      ActivePositive(v.workers, i);
    }
  }

  /** With capacity 0 a goroutine that has reached the limiter stays there on every run,
      and its request is never answered. */
  lemma {:induction false} NoTokensHang(cfg: Config, v: Server, actions: seq<Action>, i: nat)
    requires cfg.capacity == 0 && Sound(cfg, v) && i < |v.workers| && v.workers[i].Crawling?
    requires Run(cfg, v, actions).Some?
    ensures var w := Run(cfg, v, actions).value;
      i < |w.workers| && w.workers[i] == v.workers[i] && !w.replied
  {
    hide Sound, Act;
    if actions == [] {
      StuckIsUnanswered(cfg, v, i);
    } else {
      var n := |actions| - 1;
      NoTokensHang(cfg, v, actions[..n], i);
      RunsAreBounded(cfg, v, actions[..n]);
      NoTokensActStays(cfg, Run(cfg, v, actions[..n]).value, actions[n], Run(cfg, v, actions).value, i);
    }
  }

  lemma StuckIsUnanswered(cfg: Config, v: Server, i: nat)
    requires Sound(cfg, v) && i < |v.workers| && v.workers[i].Crawling?
    ensures !v.replied
  {
  }

  /** So with capacity 0 a run that can go no further has replied exactly when none of its
      goroutines reached the limiter. */
  lemma NoTokensReply(cfg: Config, schedule: seq<Event>, urls: seq<Url>, actions: seq<Action>)
    requires cfg.capacity == 0 && Trace(cfg, schedule).Some?
    requires Run(cfg, Start(schedule, urls), actions).Some?
    requires Maximal(cfg, Run(cfg, Start(schedule, urls), actions).value)
    ensures var v := Run(cfg, Start(schedule, urls), actions).value;
      v.replied <==> forall i :: 0 <= i < |v.workers| ==> !v.workers[i].Crawling?
  {
    RunIsSound(cfg, schedule, urls, actions);
    var v := Run(cfg, Start(schedule, urls), actions).value;
    hide Run, Act;
    if !v.replied && forall i :: 0 <= i < |v.workers| ==> !v.workers[i].Crawling? {
      var a := NeverStuck(cfg, v);
      assert false;
    }
  }

  lemma {:induction false} RunConcat(cfg: Config, v: Server, a: seq<Action>, b: seq<Action>)
    requires Run(cfg, v, a).Some?
    ensures Run(cfg, v, a + b) == Run(cfg, Run(cfg, v, a).value, b)
  {
    hide Act;
    if b == [] {
      assert a + b == a;
    } else {
      var n := |b| - 1;
      assert (a + b)[..|a + b| - 1] == a + b[..n];
      RunConcat(cfg, v, a, b[..n]);
    }
  }

  /** Every run can be driven until no step is left. */
  lemma {:induction false} RunOut(cfg: Config, v: Server, actions: seq<Action>) returns (more: seq<Action>)
    requires Sound(cfg, v) && Run(cfg, v, actions).Some?
    ensures actions <= more && Run(cfg, v, more).Some? && Maximal(cfg, Run(cfg, v, more).value)
    decreases StepsLeft(cfg, v) + 7 * Others(actions) - |actions|
  {
    hide Sound, Act, StepsLeft;
    RunsAreBounded(cfg, v, actions);
    more := actions;
    if a: Action :| !a.Other? && Act(cfg, Run(cfg, v, actions).value, a) != None {
      assert (actions + [a])[..|actions|] == actions;
      RunsAreBounded(cfg, v, actions + [a]);
      more := RunOut(cfg, v, actions + [a]);
    }
  }

  /** A request for one URL whose goroutine reaches an idle limiter. */
  lemma ReachLimiter(cfg: Config, url: Url, host: Host) returns (actions: seq<Action>)
    ensures Run(cfg, Start([], [url]), actions).Some?
    ensures var v := Run(cfg, Start([], [url]), actions).value;
      |v.workers| == 1 && v.workers[0].Crawling?
  {
    var v := Start([], [url]);
    var spawned := Server([], [url], [Spawned(0, url)], 1, [None], false, map[]);
    ReachSteps(cfg, v, spawned, host);
    hide Act;
    OneAction(cfg, v, Spawn(0));
    OneAction(cfg, spawned, Reach(0, host));
    RunConcat(cfg, v, [Spawn(0)], [Reach(0, host)]);
    actions := [Spawn(0)] + [Reach(0, host)];
  }

  lemma ReachSteps(cfg: Config, v: Server, spawned: Server, host: Host)
    requires |v.urls| == 1 && v == Start([], v.urls)
    requires spawned == Server([], v.urls, [Spawned(0, v.urls[0])], 1, [None], false, map[])
    ensures Act(cfg, v, Spawn(0)) == Some(spawned)
    ensures var reached := Act(cfg, spawned, Reach(0, host));
      reached.Some? && |reached.value.workers| == 1 && reached.value.workers[0].Crawling?
  {
    assert v.results == [None] && v.workers[0 := Spawned(0, v.urls[0])] == [Spawned(0, v.urls[0])];
    FirstArrival(cfg, host);
    hide Trace, Step;
  }

  lemma FirstArrival(cfg: Config, host: Host)
    ensures Trace(cfg, []) == Some(Traced(INITIAL, BLANK)) && Trace(cfg, [] + [Event(0, Arrive(host))]).Some?
  {
    OneEvent(cfg, [], Event(0, Arrive(host)));
  }

  lemma OneAction(cfg: Config, v: Server, a: Action)
    ensures Run(cfg, v, [a]) == Act(cfg, v, a)
  {
    hide Act;
    assert [a][..0] == [];
    assert Run(cfg, v, []) == Some(v);
  }

  ghost predicate AlwaysReplies(cfg: Config) {
    forall schedule: seq<Event>, urls: seq<Url>, actions: seq<Action> ::
      Trace(cfg, schedule).Some? && Run(cfg, Start(schedule, urls), actions).Some? ==>
        Maximal(cfg, Run(cfg, Start(schedule, urls), actions).value) ==>
          Run(cfg, Start(schedule, urls), actions).value.replied
  }

  /** Every run of every request ends with a reply exactly when the configured
      concurrency is at least one. */
  lemma RepliesExactlyWithTokens(cfg: Config)
    ensures AlwaysReplies(cfg) <==> cfg.capacity >= 1
  {
    if cfg.capacity >= 1 {
      forall schedule: seq<Event>, urls: seq<Url>, actions: seq<Action> |
        Trace(cfg, schedule).Some? && Run(cfg, Start(schedule, urls), actions).Some?
        && Maximal(cfg, Run(cfg, Start(schedule, urls), actions).value)
        ensures Run(cfg, Start(schedule, urls), actions).value.replied
      {
        EveryRunReplies(cfg, schedule, urls, actions);
      }
    } else {
      var url, host := "https://reddit.com/r/a", "reddit.com";
      assert Trace(cfg, []).Some?;
      hide Trace, Act;
      var reached := ReachLimiter(cfg, url, host);
      var v := Run(cfg, Start([], [url]), reached).value;
      RunIsSound(cfg, [], [url], reached);
      var more := RunOut(cfg, v, []);
      NoTokensHang(cfg, v, more, 0);
      RunConcat(cfg, Start([], [url]), reached, more);
    }
  }
}
