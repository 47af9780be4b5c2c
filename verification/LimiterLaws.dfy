/** What the limiter guarantees on every schedule, and what it does not. */
module LimiterLaws {
  import opened Limiter
  import opened LimiterHistory
  import opened LimiterSafety
  import opened Sequences
  import opened VirtualLanes
  import opened Wrappers

  // ------------------------------------------------------------- reachable states

  lemma TickKeepsInv(cfg: Config, s: State, h: History, at: int)
    requires Inv(cfg, s, h) && at >= s.now
    ensures Inv(cfg, s.(now := at), h)
  {
    var s' := s.(now := at);
    hide LastRelease, InUse, LaneGaps, LaneClock;
    assert LanesFit(cfg, s', h);
    forall k: nat | k < |s'.calls| ensures CallHasLane(cfg, s', h, k) {
      assert CallHasLane(cfg, s, h, k);
    }
    forall x, m: nat | x in h.lanes && m < cfg.capacity
      ensures LaneHasCall(cfg, s', h, x, m) && LaneOnTime(cfg, s', h, x, m)
    {
      assert LaneHasCall(cfg, s, h, x, m) && LaneOnTime(cfg, s, h, x, m);
    }
    forall x | x in s'.slots ensures HostOnTime(s', h, x) {
      assert HostOnTime(s, h, x);
    }
  }

  lemma ArriveKeepsInv(cfg: Config, s: State, h: History, host: Host)
    requires Inv(cfg, s, h)
    ensures Inv(cfg, s.(calls := s.calls + [Call(host, Started)]), h.(laneOf := h.laneOf + [0]))
  {
    var s', h' := s.(calls := s.calls + [Call(host, Started)]), h.(laneOf := h.laneOf + [0]);
    hide LastRelease, InUse, LaneGaps, LaneClock;
    assert LanesFit(cfg, s', h');
    forall k: nat | k < |s'.calls| ensures CallHasLane(cfg, s', h', k) {
      assert k < |s.calls| ==> CallHasLane(cfg, s, h, k);
    }
    forall x, m: nat | x in h'.lanes && m < cfg.capacity
      ensures LaneHasCall(cfg, s', h', x, m) && LaneOnTime(cfg, s', h', x, m)
    {
      assert LaneHasCall(cfg, s, h, x, m) && LaneOnTime(cfg, s, h, x, m);
    }
    forall x | x in s'.slots ensures HostOnTime(s', h', x) {
      assert HostOnTime(s, h, x);
    }
  }

  lemma StepKeepsInv(cfg: Config, s: State, h: History, e: Event, s': State)
    requires Inv(cfg, s, h) && Step(cfg, s, e) == Some(s')
    ensures |h.laneOf| == |s.calls| && Inv(cfg, s', Record(cfg, s, h, e))
  {
    TickKeepsInv(cfg, s, h, e.at);
    hide LanesMatch, Timing, AdvanceCall, RecordAdvance;
    match e.action {
      case Arrive(host) => ArriveKeepsInv(cfg, s.(now := e.at), h, host);
      case Advance(id, j) =>
        AdvanceKeepsInv(cfg, s.(now := e.at), h, id, j, s');
        RecordIgnoresClock(cfg, s, h, id, e.at, j);
    }
  }

  lemma RecordIgnoresClock(cfg: Config, s: State, h: History, id: nat, at: int, j: nat)
    requires id < |s.calls| && |h.laneOf| == |s.calls|
    ensures RecordAdvance(cfg, s.(now := at), h, id, at, j) == RecordAdvance(cfg, s, h, id, at, j)
  {
  }

  lemma {:induction false} ReachableInv(cfg: Config, events: seq<Event>)
    requires Trace(cfg, events).Some?
    ensures Inv(cfg, Trace(cfg, events).value.state, Trace(cfg, events).value.history)
  {
    if events != [] {
      hide Inv, Step, Record;
      var before := Trace(cfg, events[..|events| - 1]).value;
      ReachableInv(cfg, events[..|events| - 1]);
      StepKeepsInv(cfg, before.state, before.history, events[|events| - 1], Trace(cfg, events).value.state);
    }
  }

  lemma TraceExtends(cfg: Config, events: seq<Event>, t: Traced, e: Event, s': State)
    requires Trace(cfg, events) == Some(t) && Step(cfg, t.state, e) == Some(s')
    ensures Trace(cfg, events + [e]) == Some(Traced(s', Record(cfg, t.state, t.history, e)))
  {
    assert (events + [e])[..|events|] == events;
    hide Step, Record;
  }

  // ------------------------------------------------------------------- mutual limit

  lemma {:induction false} HoldersUpdate(calls: seq<Call>, id: nat, p: Phase, x: Host)
    requires id < |calls|
    ensures Holders(calls[id := calls[id].(phase := p)], x)
         == Holders(calls, x) + if calls[id].host != x || InSlot(p) == InSlot(calls[id].phase) then 0
                                else if InSlot(p) then 1 else -1
  {
    var n := |calls| - 1;
    var calls' := calls[id := calls[id].(phase := p)];
    if id < n {
      assert calls'[..n] == calls[..n][id := calls[id].(phase := p)];
      HoldersUpdate(calls[..n], id, p, x);
    } else {
      assert calls'[..n] == calls[..n];
    }
  }

  lemma HoldersSnoc(calls: seq<Call>, host: Host, x: Host)
    ensures Holders(calls + [Call(host, Started)], x) == Holders(calls, x)
  {
    assert (calls + [Call(host, Started)])[..|calls|] == calls;
  }

  ghost predicate Counted(cfg: Config, s: State, x: Host) {
    var inUse := if x in s.slots then s.slots[x].inUse else 0;
    Holders(s.calls, x) == inUse <= cfg.capacity
  }

  lemma StepKeepsCount(cfg: Config, s: State, e: Event, s': State, x: Host)
    requires Step(cfg, s, e) == Some(s') && Counted(cfg, s, x)
    ensures Counted(cfg, s', x)
  {
    hide CheckDelay, Holders;
    match e.action {
      case Arrive(host) => HoldersSnoc(s.calls, host, x);
      case Advance(id, j) => HoldersUpdate(s.calls, id, s'.calls[id].phase, x);
    }
  }

  /** In every reachable state the calls of a host between their send and their receive
      are as many as the tokens in its channel, and at most the capacity. */
  lemma {:induction false} HoldersWithinCapacity(cfg: Config, events: seq<Event>, x: Host)
    requires Trace(cfg, events).Some?
    ensures Counted(cfg, Trace(cfg, events).value.state, x)
  {
    if events != [] {
      hide Step, Record;
      var before := Trace(cfg, events[..|events| - 1]).value;
      HoldersWithinCapacity(cfg, events[..|events| - 1], x);
      StepKeepsCount(cfg, before.state, events[|events| - 1], Trace(cfg, events).value.state, x);
    }
  }

  lemma NoTokensStep(cfg: Config, s: State, h: History, e: Event, s': State)
    requires cfg.capacity == 0 && Step(cfg, s, e) == Some(s') && |h.laneOf| == |s.calls|
    requires forall id :: 0 <= id < |s.calls| ==> s.calls[id].phase == Started || s.calls[id].phase == Waiting
    ensures forall id :: 0 <= id < |s'.calls| ==> s'.calls[id].phase == Started || s'.calls[id].phase == Waiting
    ensures Record(cfg, s, h, e).log == h.log
  {
    hide CheckDelay, FreeLane, EmptyLanes;
  }

  /** A channel without room lets nobody through: no call ever gets past its send. */
  lemma {:induction false} NoTokensNoGrants(cfg: Config, events: seq<Event>)
    requires cfg.capacity == 0 && Trace(cfg, events).Some?
    ensures var t := Trace(cfg, events).value;
      && (forall id :: 0 <= id < |t.state.calls| ==>
            t.state.calls[id].phase == Started || t.state.calls[id].phase == Waiting)
      && t.history.log == []
  {
    if events != [] {
      hide Step, Record;
      var before := Trace(cfg, events[..|events| - 1]).value;
      NoTokensNoGrants(cfg, events[..|events| - 1]);
      NoTokensStep(cfg, before.state, before.history, events[|events| - 1], Trace(cfg, events).value.state);
    }
  }

  // ------------------------------------------------------------- grants in a window

  function CountGrants(log: seq<Entry>, x: Host, from: int, to: int): nat {
    if log == [] then 0
    else
      var e := log[|log| - 1];
      CountGrants(log[..|log| - 1], x, from, to) + if e.Grant? && e.host == x && from <= e.at <= to then 1 else 0
  }

  /** The grants of one host, each in its lane. */
  function GrantMarks(log: seq<Entry>, x: Host): seq<Mark> {
    if log == [] then []
    else
      var e := log[|log| - 1];
      if e.Grant? && e.host == x then GrantMarks(log[..|log| - 1], x) + [Mark(e.at, e.lane)]
      else GrantMarks(log[..|log| - 1], x)
  }

  lemma {:induction false} GrantsAreMarked(log: seq<Entry>, x: Host, from: int, to: int)
    ensures CountGrants(log, x, from, to) == CountWithin(Times(GrantMarks(log, x)), from, to)
  {
    if log != [] {
      var n := |log| - 1;
      GrantsAreMarked(log[..n], x, from, to);
      var marks := GrantMarks(log[..n], x);
      CountWithinSnoc(Times(marks), log[n].at, from, to);
      assert Times(marks + [Mark(log[n].at, log[n].lane)]) == Times(marks) + [log[n].at];
    }
  }

  lemma {:induction false} MarksAreRested(cfg: Config, log: seq<Entry>, x: Host)
    requires LaneGaps(cfg, log) && forall i :: 0 <= i < |log| ==> log[i].lane < cfg.capacity
    ensures Rested(GrantMarks(log, x), cfg.minDelay)
    ensures forall k :: 0 <= k < |GrantMarks(log, x)| ==>
              GrantMarks(log, x)[k].lane < cfg.capacity
              && exists i :: 0 <= i < |log| && log[i] == Grant(x, GrantMarks(log, x)[k].lane, GrantMarks(log, x)[k].at)
  {
    if log != [] {
      var n := |log| - 1;
      var marks := GrantMarks(log[..n], x);
      MarksAreRested(cfg, log[..n], x);
      if log[n].Grant? && log[n].host == x {
        forall k | 0 <= k < |marks| && marks[k].lane == log[n].lane ensures marks[k].at + cfg.minDelay <= log[n].at {
          var i :| 0 <= i < n && log[..n][i] == Grant(x, marks[k].lane, marks[k].at);
          assert InLane(log[i], x, log[n].lane);
        }
        assert log[n] == Grant(x, log[n].lane, log[n].at);
      }
      forall k | 0 <= k < |marks|
        ensures exists i :: 0 <= i < |log| && log[i] == Grant(x, marks[k].lane, marks[k].at)
      {
        var i :| 0 <= i < n && log[..n][i] == Grant(x, marks[k].lane, marks[k].at);
        assert log[i] == Grant(x, marks[k].lane, marks[k].at);
      }
    }
  }

  lemma LogOfRun(cfg: Config, events: seq<Event>)
    requires Trace(cfg, events).Some?
    ensures var log := Trace(cfg, events).value.history.log;
      LaneGaps(cfg, log) && forall i :: 0 <= i < |log| ==> log[i].lane < cfg.capacity
  {
    ReachableInv(cfg, events);
    hide Trace, LaneGaps, Clocks, LanesMatch, InUse;
  }

  /** What one step of a call may do, and when: it waits for room, checks the delay, sleeps
      until the delay is over and less than half a second more, stamps, gives back. */
  lemma PhaseByPhase(cfg: Config, s: State, at: int, id: nat, jitterMs: nat)
    requires at >= s.now && id < |s.calls| && jitterMs < 500
    ensures var next := Step(cfg, s, Event(at, Advance(id, jitterMs)));
      var x, phase := s.calls[id].host, s.calls[id].phase;
      var slot := if x in s.slots then s.slots[x] else Slot(0, None);
      && (next.Some? <==>
            && (phase == Waiting ==> slot.inUse < cfg.capacity)
            && (phase.Sleeping? ==> at >= phase.until)
            && (phase == Stamped ==> slot.inUse > 0)
            && phase != Finished)
      && (next.Some? ==>
            var phase' := next.value.calls[id].phase;
            && next.value == State(at, s.slots[x := next.value.slots[x]], s.calls[id := Call(x, phase')])
            && (phase == Started ==> phase' == Waiting)
            && (phase == Waiting ==> phase' == Holding && next.value.slots[x] == Slot(slot.inUse + 1, slot.lastSend))
            && (phase == Granted ==> phase' == Stamped && next.value.slots[x] == Slot(slot.inUse, Some(at)))
            && (phase == Stamped ==> phase' == Finished && next.value.slots[x] == Slot(slot.inUse - 1, slot.lastSend))
            && (phase.Sleeping? ==> phase' == Granted)
            && (phase == Holding ==>
                  if slot.lastSend.None? || at - slot.lastSend.value >= cfg.minDelay then phase' == Granted
                  else phase'.Sleeping? && 0 <= phase'.until - (slot.lastSend.value + cfg.minDelay) < 500_000_000)
            && (phase == Started || phase == Holding || phase.Sleeping? ==> next.value.slots[x] == slot))
  {
  }

  /** The log gets a grant when a call returns from Acquire, a release when its time is
      stamped, and nothing else. */
  lemma LogGrows(cfg: Config, s: State, h: History, e: Event, s': State)
    requires Step(cfg, s, e) == Some(s') && |h.laneOf| == |s.calls|
    ensures Record(cfg, s, h, e).log == h.log +
            match e.action
            case Arrive(_) => []
            case Advance(id, _) =>
              if s'.calls[id].phase == Granted then [Grant(s.calls[id].host, h.laneOf[id], e.at)]
              else if s'.calls[id].phase == Stamped then [Release(s.calls[id].host, h.laneOf[id], e.at)]
              else []
  {
    hide FreeLane, EmptyLanes;
  }

  predicate Returned(p: Phase) {
    p == Granted || p == Stamped || p == Finished
  }

  /** Calls of one host that have returned from Acquire. */
  function Returns(calls: seq<Call>, x: Host): nat {
    if calls == [] then 0
    else
      var last := calls[|calls| - 1];
      Returns(calls[..|calls| - 1], x) + if last.host == x && Returned(last.phase) then 1 else 0
  }

  lemma {:induction false} ReturnsUpdate(calls: seq<Call>, id: nat, p: Phase, x: Host)
    requires id < |calls|
    ensures Returns(calls[id := calls[id].(phase := p)], x)
         == Returns(calls, x) + if calls[id].host != x || Returned(p) == Returned(calls[id].phase) then 0
                                else if Returned(p) then 1 else -1
  {
    var n := |calls| - 1;
    var calls' := calls[id := calls[id].(phase := p)];
    if id < n {
      assert calls'[..n] == calls[..n][id := calls[id].(phase := p)];
      ReturnsUpdate(calls[..n], id, p, x);
    } else {
      assert calls'[..n] == calls[..n];
    }
  }

  lemma StepKeepsReturns(cfg: Config, s: State, h: History, e: Event, s': State, x: Host)
    requires Step(cfg, s, e) == Some(s') && |h.laneOf| == |s.calls|
    requires |GrantMarks(h.log, x)| == Returns(s.calls, x)
    ensures |GrantMarks(Record(cfg, s, h, e).log, x)| == Returns(s'.calls, x)
  {
    LogGrows(cfg, s, h, e, s');
    hide Record, Returns, AdvanceCall, GrantMarks;
    match e.action {
      case Arrive(host) => ReturnsSnoc(s.calls, host, x);
      case Advance(id, j) =>
        PhaseByPhase(cfg, s, e.at, id, j);
        hide Step;
        ReturnsUpdate(s.calls, id, s'.calls[id].phase, x);
        GrantMarksSnoc(h.log, Grant(s.calls[id].host, h.laneOf[id], e.at), x);
        GrantMarksSnoc(h.log, Release(s.calls[id].host, h.laneOf[id], e.at), x);
    }
  }

  lemma ReturnsSnoc(calls: seq<Call>, host: Host, x: Host)
    ensures Returns(calls + [Call(host, Started)], x) == Returns(calls, x)
  {
    assert (calls + [Call(host, Started)])[..|calls|] == calls;
  }

  lemma GrantMarksSnoc(log: seq<Entry>, e: Entry, x: Host)
    ensures |GrantMarks(log + [e], x)| == |GrantMarks(log, x)| + if e.Grant? && e.host == x then 1 else 0
  {
    assert (log + [e])[..|log|] == log;
  }

  /** On every schedule the grants counted for a host are its calls that have returned from
      Acquire, each once. */
  lemma {:induction false} GrantsAreReturns(cfg: Config, events: seq<Event>, x: Host)
    requires Trace(cfg, events).Some?
    ensures var t := Trace(cfg, events).value;
      |GrantMarks(t.history.log, x)| == Returns(t.state.calls, x)
  {
    if events != [] {
      hide Step, Record, GrantMarks, Returns;
      var before := Trace(cfg, events[..|events| - 1]).value;
      GrantsAreReturns(cfg, events[..|events| - 1], x);
      StepKeepsReturns(cfg, before.state, before.history, events[|events| - 1], Trace(cfg, events).value.state, x);
    }
  }

  /** On every schedule, at most c * (L / minDelay + 1) grants for one host fall in any
      closed window of length L. */
  lemma GrantsInWindow(cfg: Config, events: seq<Event>, x: Host, from: int, length: nat)
    requires Trace(cfg, events).Some? && cfg.minDelay > 0
    ensures CountGrants(Trace(cfg, events).value.history.log, x, from, from + length)
         <= cfg.capacity * (length / cfg.minDelay + 1)
  {
    hide Trace, LaneGaps, GrantMarks, CountGrants, Inv;
    LogOfRun(cfg, events);
    var log := Trace(cfg, events).value.history.log;
    GrantsAreMarked(log, x, from, from + length);
    MarksAreRested(cfg, log, x);
    MarksInWindow(GrantMarks(log, x), cfg.minDelay, from, length, cfg.capacity);
  }
}
