/** The readiness probe and its cached result: one call in place, and many overlapping
    calls as a machine over their two atomic steps. Times only grow. */
module Health {
  import opened Sequences
  import opened VirtualLanes
  import opened Wrappers

  // What one readiness check reports: nothing, or why it is not ready.
  type Outcome = Option<string>

  datatype Ready = Ready(at: int, failure: Outcome)

  /** The direct check: the first failure among the checks in order. */
  function FirstFailure(outcomes: seq<Outcome>): Outcome {
    if outcomes == [] then None
    else if outcomes[0].Some? then outcomes[0]
    else FirstFailure(outcomes[1..])
  }

  /** The first failing check's failure, or readiness when none fails. */
  ghost predicate IsFirstFailure(outcomes: seq<Outcome>, answer: Outcome) {
    && (answer.None? ==> forall j :: 0 <= j < |outcomes| ==> outcomes[j] == None)
    && (answer.Some? ==>
          exists i :: 0 <= i < |outcomes| && outcomes[i] == answer && forall j :: 0 <= j < i ==> outcomes[j] == None)
  }

  lemma {:induction false} FirstFailureMeans(outcomes: seq<Outcome>)
    ensures IsFirstFailure(outcomes, FirstFailure(outcomes))
  {
    if outcomes != [] && outcomes[0].None? {
      var answer := FirstFailure(outcomes[1..]);
      FirstFailureMeans(outcomes[1..]);
      assert forall j :: 1 <= j < |outcomes| ==> outcomes[j] == outcomes[1..][j - 1];
      if answer.Some? {
        var i :| 0 <= i < |outcomes| - 1 && outcomes[1..][i] == answer
                 && forall j :: 0 <= j < i ==> outcomes[1..][j] == None;
        assert outcomes[i + 1] == answer;
      }
    }
  }

  predicate Usable(cached: Option<Ready>, now: int, ttl: int) {
    cached.Some? && now - cached.value.at < ttl
  }

  lemma {:induction false} FirstFailureIsFirst(outcomes: seq<Outcome>, i: nat)
    requires i <= |outcomes| && forall j :: 0 <= j < i ==> outcomes[j] == None
    ensures FirstFailure(outcomes) == FirstFailure(outcomes[i..])
  {
    if i > 0 {
      FirstFailureIsFirst(outcomes[1..], i - 1);
      assert outcomes[1..][i - 1..] == outcomes[i..];
    }
  }

  class Probe {
    var cached: Option<Ready>
    const ttl: int

    constructor (ttl: int)
      ensures this.ttl == ttl && cached == None
    {
      this.ttl := ttl;
      cached := None;
    }

    /** A call with no other in flight: tests the age at `probed`, runs the checks in order
        up to the first failure, stores the result at `done`. */
    method Check(probed: int, outcomes: seq<Outcome>, done: int) returns (answer: Outcome, ran: nat)
      modifies this`cached
      ensures Usable(old(cached), probed, ttl) ==>
                answer == old(cached).value.failure && cached == old(cached) && ran == 0
      ensures !Usable(old(cached), probed, ttl) ==>
                && answer == FirstFailure(outcomes)
                && cached == Some(Ready(done, answer))
                && ran <= |outcomes|
                && (forall j :: 0 <= j < ran - 1 ==> outcomes[j] == None)
                && (answer.Some? ==> ran > 0 && outcomes[ran - 1] == answer)
                && (answer.None? ==> ran == |outcomes|)
                && (answer.None? <==> forall j :: 0 <= j < |outcomes| ==> outcomes[j] == None)
      ensures Usable(old(cached), probed, ttl) <==> old(cached).Some? && probed - old(cached).value.at < ttl
    {
      FirstFailureMeans(outcomes);
      ran := 0;
      if cached.Some? && probed - cached.value.at < ttl {
        return cached.value.failure, 0;
      }
      while ran < |outcomes|
        invariant ran <= |outcomes| && forall j :: 0 <= j < ran ==> outcomes[j] == None
      {
        FirstFailureIsFirst(outcomes, ran);
        ran := ran + 1;
        if outcomes[ran - 1].Some? {
          answer := outcomes[ran - 1];
          cached := Some(Ready(done, answer));
          return;
        }
      }
      FirstFailureIsFirst(outcomes, ran);
      answer := None;
      cached := Some(Ready(done, None));
    }
  }

  // ------------------------------------------------------------- overlapping calls

  // A call tests the age of the cache; if that fails, it later completes its own checks.
  datatype Step = Test(id: nat) | Complete(id: nat, outcomes: seq<Outcome>)

  datatype Event = Event(at: int, step: Step)

  // An answer is the stored result the age test accepted, or a fresh evaluation.
  datatype Answer =
    | Stored(tested: int, result: Ready)
    | Evaluated(outcomes: seq<Outcome>, failure: Outcome)

  // `stores` and `answers` record the run; they guide no step.
  datatype State = State(now: int, cached: Option<Ready>, open: set<nat>, stores: seq<Ready>, answers: seq<Answer>)

  const INITIAL := State(0, None, {}, [], [])

  function Next(ttl: int, s: State, e: Event): Option<State> {
    if e.at < s.now then None
    else
      match e.step
      case Test(id) =>
        if id in s.open then None
        else if Usable(s.cached, e.at, ttl) then
          Some(s.(now := e.at, answers := s.answers + [Stored(e.at, s.cached.value)]))
        else Some(s.(now := e.at, open := s.open + {id}))
      case Complete(id, outcomes) =>
        if id !in s.open then None
        else
          var r := Ready(e.at, FirstFailure(outcomes));
          Some(State(e.at, Some(r), s.open - {id}, s.stores + [r], s.answers + [Evaluated(outcomes, r.failure)]))
  }

  function Trace(ttl: int, events: seq<Event>): Option<State> {
    if events == [] then Some(INITIAL)
    else
      match Trace(ttl, events[..|events| - 1])
      case None => None
      case Some(s) => Next(ttl, s, events[|events| - 1])
  }

  ghost predicate Justified(ttl: int, stores: seq<Ready>, a: Answer) {
    match a
    case Evaluated(outcomes, failure) => IsFirstFailure(outcomes, failure)
    case Stored(tested, result) => result in stores && result.at <= tested < result.at + ttl
  }

  ghost predicate Consistent(ttl: int, s: State) {
    && s.cached == (if s.stores == [] then None else Some(s.stores[|s.stores| - 1]))
    && (forall i :: 0 <= i < |s.stores| ==> s.stores[i].at <= s.now)
    && (forall i, j :: 0 <= i < j < |s.stores| ==> s.stores[i].at <= s.stores[j].at)
    && (forall i :: 0 <= i < |s.answers| ==> Justified(ttl, s.stores, s.answers[i]))
  }

  /** However calls overlap, every answer is a fresh evaluation of the checks up to the
      first failure, or one stored less than the time-to-live before it was accepted. */
  lemma {:induction false} AnswersAgree(ttl: int, events: seq<Event>)
    requires Trace(ttl, events).Some?
    ensures Consistent(ttl, Trace(ttl, events).value)
  {
    if events != [] {
      var before, after := Trace(ttl, events[..|events| - 1]).value, Trace(ttl, events).value;
      hide Trace, FirstFailure;
      AnswersAgree(ttl, events[..|events| - 1]);
      if events[|events| - 1].step.Complete? {
        FirstFailureMeans(events[|events| - 1].step.outcomes);
      }
      forall i | 0 <= i < |after.answers| ensures Justified(ttl, after.stores, after.answers[i]) {
        assert i < |before.answers| ==> Justified(ttl, before.stores, before.answers[i]);
      }
    }
  }

  function StoreTimes(stores: seq<Ready>): (times: seq<int>)
    ensures |times| == |stores| && forall i :: 0 <= i < |times| ==> times[i] == stores[i].at
  {
    seq(|stores|, i requires 0 <= i < |stores| => stores[i].at)
  }

  // ------------------------------------------------ evaluations in a window

  /** At no time are more than `width` evaluations open. */
  ghost predicate AtMostOpen(ttl: int, events: seq<Event>, width: nat) {
    forall k :: 0 <= k <= |events| && Trace(ttl, events[..k]).Some? ==> |Trace(ttl, events[..k]).value.open| <= width
  }

  lemma AtMostOpenPrefix(ttl: int, events: seq<Event>, width: nat, n: nat)
    requires AtMostOpen(ttl, events, width) && n <= |events|
    ensures AtMostOpen(ttl, events[..n], width)
  {
    forall k | 0 <= k <= n && Trace(ttl, events[..n][..k]).Some?
      ensures |Trace(ttl, events[..n][..k]).value.open| <= width
    {
      assert events[..n][..k] == events[..k];
    }
  }

  // Open evaluations and occupied lanes correspond one to one.

  ghost predicate HasLane(lanes: seq<Option<nat>>, id: nat) {
    exists l :: 0 <= l < |lanes| && lanes[l] == Some(id)
  }

  ghost predicate LanesMatch(s: State, lanes: seq<Option<nat>>) {
    && InUse(lanes) == |s.open|
    && (forall id :: id in s.open ==> HasLane(lanes, id))
    && (forall l :: 0 <= l < |lanes| && lanes[l].Some? ==> lanes[l].value in s.open)
    && (forall l, m :: 0 <= l < m < |lanes| && lanes[l].Some? ==> lanes[l] != lanes[m])
  }

  // An evaluation opens only when everything stored before is at least ttl old.
  ghost predicate LaneRested(ttl: int, s: State, lanes: seq<Option<nat>>, marks: seq<Mark>, l: nat)
    requires l < |lanes|
  {
    lanes[l].Some? ==> forall i :: 0 <= i < |marks| && marks[i].lane == l ==> marks[i].at + ttl <= s.now
  }

  /** A history beside the run: each store is marked in the lane its evaluation held. */
  ghost predicate InLanes(ttl: int, s: State, lanes: seq<Option<nat>>, marks: seq<Mark>) {
    && LanesMatch(s, lanes)
    && Times(marks) == StoreTimes(s.stores)
    && (forall i :: 0 <= i < |marks| ==> marks[i].lane < |lanes|)
    && Rested(marks, ttl)
    && (forall l: nat :: l < |lanes| ==> LaneRested(ttl, s, lanes, marks, l))
  }

  lemma {:induction false} EvaluationsInLanes(ttl: int, events: seq<Event>, width: nat)
    returns (lanes: seq<Option<nat>>, marks: seq<Mark>)
    requires Trace(ttl, events).Some? && AtMostOpen(ttl, events, width)
    ensures |lanes| == width && InLanes(ttl, Trace(ttl, events).value, lanes, marks)
  {
    if events == [] {
      lanes, marks := EmptyLanes(width), [];
      InUseOfEmpty(lanes);
    } else {
      var n := |events| - 1;
      var s, s' := Trace(ttl, events[..n]).value, Trace(ttl, events).value;
      assert events[..|events|] == events;
      assert |s'.open| <= width;
      AtMostOpenPrefix(ttl, events, width, n);
      lanes, marks := EvaluationsInLanes(ttl, events[..n], width);
      AnswersAgree(ttl, events[..n]);
      hide Trace, AtMostOpen, Consistent, InLanes;
      match events[n].step {
        case Test(id) =>
          if s'.open == s.open {
            StoredAnswerKeepsLanes(ttl, s, events[n].at, id, s', lanes, marks);
          } else {
            lanes := OpenKeepsLanes(ttl, s, events[n].at, id, s', lanes, marks);
          }
        case Complete(id, outcomes) =>
          lanes, marks := CompleteKeepsLanes(ttl, s, events[n].at, id, outcomes, s', lanes, marks);
      }
    }
  }

  lemma StoredAnswerKeepsLanes(ttl: int, s: State, at: int, id: nat, s': State, lanes: seq<Option<nat>>, marks: seq<Mark>)
    requires InLanes(ttl, s, lanes, marks)
    requires Next(ttl, s, Event(at, Test(id))) == Some(s') && s'.open == s.open
    ensures InLanes(ttl, s', lanes, marks)
  {
    hide InUse, Rested;
    forall m: nat | m < |lanes| ensures LaneRested(ttl, s', lanes, marks, m) {
      assert LaneRested(ttl, s, lanes, marks, m);
    }
  }

  lemma OpenKeepsLanes(ttl: int, s: State, at: int, id: nat, s': State, lanes: seq<Option<nat>>, marks: seq<Mark>)
    returns (lanes': seq<Option<nat>>)
    requires Consistent(ttl, s) && InLanes(ttl, s, lanes, marks) && |s'.open| <= |lanes|
    requires Next(ttl, s, Event(at, Test(id))) == Some(s') && s'.open != s.open
    ensures |lanes'| == |lanes| && InLanes(ttl, s', lanes', marks)
  {
    FreeLaneIsFree(lanes);
    var l := FreeLane(lanes);
    OccupyMatches(s, s', lanes, l, id);
    EverythingIsOld(ttl, s, at, marks);
    hide InUse, FreeLane, Justified, Rested, Times, StoreTimes, LanesMatch, Consistent;
    lanes' := lanes[l := Some(id)];
    forall m: nat | m < |lanes'| ensures LaneRested(ttl, s', lanes', marks, m) {
    }
  }

  lemma OccupyMatches(s: State, s': State, lanes: seq<Option<nat>>, l: nat, id: nat)
    requires LanesMatch(s, lanes) && l < |lanes| && lanes[l] == None
    requires id !in s.open && s'.open == s.open + {id}
    ensures LanesMatch(s', lanes[l := Some(id)])
  {
    InUseUpdate(lanes, l, Some(id));
    hide InUse;
    var lanes' := lanes[l := Some(id)];
    forall other | other in s'.open ensures HasLane(lanes', other) {
      if other == id {
        assert lanes'[l] == Some(id);
      } else {
        var m :| 0 <= m < |lanes| && lanes[m] == Some(other);
        assert lanes'[m] == Some(other);
      }
    }
  }

  lemma EverythingIsOld(ttl: int, s: State, at: int, marks: seq<Mark>)
    requires Consistent(ttl, s) && Times(marks) == StoreTimes(s.stores) && !Usable(s.cached, at, ttl)
    ensures forall i :: 0 <= i < |marks| ==> marks[i].at + ttl <= at
  {
    hide Justified;
    forall i | 0 <= i < |marks| ensures marks[i].at + ttl <= at {
      assert Times(marks)[i] == s.stores[i].at;
    }
  }

  lemma VacateMatches(s: State, s': State, lanes: seq<Option<nat>>, l: nat, id: nat)
    requires LanesMatch(s, lanes) && l < |lanes| && lanes[l] == Some(id) && s'.open == s.open - {id}
    ensures LanesMatch(s', lanes[l := None])
  {
    InUseUpdate(lanes, l, None);
    hide InUse;
    var lanes' := lanes[l := None];
    forall other | other in s'.open ensures HasLane(lanes', other) {
      assert HasLane(lanes, other);
      var m :| 0 <= m < |lanes| && lanes[m] == Some(other);
      assert lanes'[m] == Some(other);
    }
  }

  lemma CompleteKeepsLanes(ttl: int, s: State, at: int, id: nat, outcomes: seq<Outcome>, s': State,
                           lanes: seq<Option<nat>>, marks: seq<Mark>)
    returns (lanes': seq<Option<nat>>, marks': seq<Mark>)
    requires InLanes(ttl, s, lanes, marks) && Next(ttl, s, Event(at, Complete(id, outcomes))) == Some(s')
    ensures |lanes'| == |lanes| && InLanes(ttl, s', lanes', marks')
  {
    assert HasLane(lanes, id);
    var l :| 0 <= l < |lanes| && lanes[l] == Some(id);
    VacateMatches(s, s', lanes, l, id);
    hide LanesMatch, FirstFailure;
    lanes', marks' := lanes[l := None], marks + [Mark(at, l)];
    assert Times(marks') == Times(marks) + [at];
    assert StoreTimes(s'.stores) == StoreTimes(s.stores) + [at];
    assert LaneRested(ttl, s, lanes, marks, l);
    forall m: nat | m < |lanes'| ensures LaneRested(ttl, s', lanes', marks', m) {
      assert LaneRested(ttl, s, lanes, marks, m);
    }
  }

  /** When at most w evaluations are ever open at once, at most w * (L / ttl + 1) complete
      in any closed window of length L. */
  lemma EvaluationsInWindow(ttl: int, events: seq<Event>, width: nat, from: int, length: nat)
    requires Trace(ttl, events).Some? && AtMostOpen(ttl, events, width) && ttl > 0
    ensures CountWithin(StoreTimes(Trace(ttl, events).value.stores), from, from + length) <= width * (length / ttl + 1)
  {
    var lanes, marks := EvaluationsInLanes(ttl, events, width);
    MarksInWindow(marks, ttl, from, length, width);
  }

  /** Calls that come one after another keep their completed evaluations ttl apart. */
  lemma SequentialStoresAreSpaced(ttl: int, events: seq<Event>)
    requires Trace(ttl, events).Some? && AtMostOpen(ttl, events, 1)
    ensures Spaced(StoreTimes(Trace(ttl, events).value.stores), ttl)
  {
    var lanes, marks := EvaluationsInLanes(ttl, events, 1);
    hide Trace, AtMostOpen;
    var times := Times(marks);
    forall i, j | 0 <= i < j < |times| ensures times[i] + ttl <= times[j] {
      assert marks[i].lane == marks[j].lane == 0;
    }
  }

  lemma AtMostOpenExtends(ttl: int, events: seq<Event>, e: Event, width: nat)
    requires AtMostOpen(ttl, events, width)
    requires Trace(ttl, events + [e]).Some? ==> |Trace(ttl, events + [e]).value.open| <= width
    ensures AtMostOpen(ttl, events + [e], width)
  {
    var more := events + [e];
    forall k | 0 <= k <= |more| && Trace(ttl, more[..k]).Some? ensures |Trace(ttl, more[..k]).value.open| <= width {
      if k <= |events| {
        assert more[..k] == events[..k];
      } else {
        assert more[..k] == more;
      }
    }
  }

  lemma OneMore(ttl: int, events: seq<Event>, e: Event)
    requires Trace(ttl, events).Some?
    ensures Trace(ttl, events + [e]) == Next(ttl, Trace(ttl, events).value, e)
  {
    hide Next;
    assert (events + [e])[..|events|] == events;
  }

  /** At time zero: the evaluations k..width-1 are open, k have completed. */
  ghost predicate Midway(s: State, k: nat, width: nat) {
    && s.now == 0 && |s.open| + k == width && (forall id: nat :: id in s.open <==> k <= id < width)
    && CountWithin(StoreTimes(s.stores), 0, 0) == k
  }

  ghost predicate Opened(s: State, k: nat) {
    s.cached == None && s.stores == [] && Midway(s, 0, k)
  }

  lemma OpenOne(ttl: int, s: State, k: nat)
    requires Opened(s, k)
    ensures var next := Next(ttl, s, Event(0, Test(k)));
      next.Some? && |next.value.open| == k + 1 && Opened(next.value, k + 1)
  {
    assert |s.open + {k}| == k + 1;
  }

  lemma {:induction false} OpenTogether(ttl: int, k: nat) returns (events: seq<Event>)
    ensures Trace(ttl, events).Some? && AtMostOpen(ttl, events, k)
    ensures Opened(Trace(ttl, events).value, k)
  {
    if k == 0 {
      events := [];
    } else {
      events := OpenTogether(ttl, k - 1);
      hide Trace, Next, Opened;
      var e := Event(0, Test(k - 1));
      OneMore(ttl, events, e);
      OpenOne(ttl, Trace(ttl, events).value, k - 1);
      AtMostOpenExtends(ttl, events, e, k);
      events := events + [e];
    }
  }

  lemma CompleteOne(ttl: int, s: State, k: nat, width: nat)
    requires Midway(s, k, width) && k < width
    ensures var next := Next(ttl, s, Event(0, Complete(k, [])));
      next.Some? && |next.value.open| <= width && Midway(next.value, k + 1, width)
  {
    hide CountWithin;
    CountWithinSnoc(StoreTimes(s.stores), 0, 0, 0);
    assert StoreTimes(s.stores + [Ready(0, None)]) == StoreTimes(s.stores) + [0];
    assert |s.open - {k}| == |s.open| - 1;
  }

  lemma {:induction false} CompleteTogether(ttl: int, width: nat, k: nat) returns (events: seq<Event>)
    requires k <= width
    ensures Trace(ttl, events).Some? && AtMostOpen(ttl, events, width)
    ensures Midway(Trace(ttl, events).value, k, width)
  {
    hide Trace, AtMostOpen, Midway, Next;
    if k == 0 {
      events := OpenTogether(ttl, width);
    } else {
      events := CompleteTogether(ttl, width, k - 1);
      var e := Event(0, Complete(k - 1, []));
      OneMore(ttl, events, e);
      CompleteOne(ttl, Trace(ttl, events).value, k - 1, width);
      AtMostOpenExtends(ttl, events, e, width);
      events := events + [e];
    }
  }

  /** The bound is reached: w overlapping calls can complete w evaluations at one moment. */
  lemma BoundIsReached(ttl: int, width: nat) returns (events: seq<Event>)
    requires ttl > 0
    ensures Trace(ttl, events).Some? && AtMostOpen(ttl, events, width)
    ensures CountWithin(StoreTimes(Trace(ttl, events).value.stores), 0, 0) == width * (0 / ttl + 1)
  {
    events := CompleteTogether(ttl, width, width);
  }
}
