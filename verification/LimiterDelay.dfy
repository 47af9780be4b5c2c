/** When the minimum delay separates every two requests to a host, and when it does not;
    progress of the limiter. */
module LimiterDelay {
  import opened Limiter
  import opened LimiterHistory
  import opened LimiterLaws
  import opened VirtualLanes
  import opened Wrappers

  // ------------------------------------------------------------------ the timestamp

  lemma {:induction false} LastReleaseIsLatest(log: seq<Entry>, x: Host)
    requires forall i, j :: 0 <= i < j < |log| ==> log[i].at <= log[j].at
    ensures match LastRelease(log, x)
      case None => forall i :: 0 <= i < |log| && log[i].Release? ==> log[i].host != x
      case Some(t) =>
        && (exists i :: 0 <= i < |log| && log[i] == Release(x, log[i].lane, t))
        && forall i :: 0 <= i < |log| && log[i].Release? && log[i].host == x ==> log[i].at <= t
  {
    if log != [] {
      var n := |log| - 1;
      LastReleaseIsLatest(log[..n], x);
      if log[n].Release? && log[n].host == x {
        assert log[n] == Release(x, log[n].lane, log[n].at);
      } else if LastRelease(log[..n], x).Some? {
        var i :| 0 <= i < n && log[..n][i] == Release(x, log[..n][i].lane, LastRelease(log[..n], x).value);
        assert log[i] == Release(x, log[i].lane, LastRelease(log[..n], x).value);
      }
    }
  }

  /** In every reachable state the stored time is the largest stamped release time. */
  lemma LastSendIsLatestRelease(cfg: Config, events: seq<Event>, x: Host)
    requires Trace(cfg, events).Some? && x in Trace(cfg, events).value.state.slots
    ensures var t := Trace(cfg, events).value;
      match t.state.slots[x].lastSend
      case None => forall i :: 0 <= i < |t.history.log| && t.history.log[i].Release? ==> t.history.log[i].host != x
      case Some(at) =>
        && (exists i :: 0 <= i < |t.history.log| && t.history.log[i] == Release(x, t.history.log[i].lane, at))
        && forall i :: 0 <= i < |t.history.log| && t.history.log[i].Release? && t.history.log[i].host == x ==>
             t.history.log[i].at <= at
  {
    ReachableInv(cfg, events);
    var t := Trace(cfg, events).value;
    assert HostOnTime(t.state, t.history, x);
    hide Trace;
    LastReleaseIsLatest(t.history.log, x);
  }

  // ------------------------------------------------- delay between any two requests

  /** Every grant comes at least minDelay after every earlier grant and release of its host. */
  ghost predicate DelayedLog(cfg: Config, log: seq<Entry>) {
    forall i, j :: 0 <= i < j < |log| && log[j].Grant? && log[i].host == log[j].host ==>
      log[i].at + cfg.minDelay <= log[j].at
  }

  ghost predicate DelayAlwaysHolds(cfg: Config) {
    forall events: seq<Event> :: Trace(cfg, events).Some? ==> DelayedLog(cfg, Trace(cfg, events).value.history.log)
  }

  lemma SingleTokenDelays(cfg: Config, events: seq<Event>)
    requires cfg.capacity <= 1 || cfg.minDelay <= 0
    requires Trace(cfg, events).Some?
    ensures DelayedLog(cfg, Trace(cfg, events).value.history.log)
  {
    ReachableInv(cfg, events);
    var t := Trace(cfg, events).value;
    assert LogFits(cfg, t.state, t.history.log) && LaneGaps(cfg, t.history.log);
    if cfg.minDelay > 0 {
      assert forall i :: 0 <= i < |t.history.log| ==> t.history.log[i].lane == 0;
    }
  }

  /** Call `id` makes one enabled step at the current time. */
  lemma Next(cfg: Config, events: seq<Event>, id: nat) returns (more: seq<Event>)
    requires Trace(cfg, events).Some? && id < |Trace(cfg, events).value.state.calls|
    requires AdvanceCall(cfg, Trace(cfg, events).value.state, id, 0).Some?
    ensures var t := Trace(cfg, events).value;
      Trace(cfg, more) == Some(Traced(AdvanceCall(cfg, t.state, id, 0).value,
                                      RecordAdvance(cfg, t.state, t.history, id, t.state.now, 0)))
  {
    hide AdvanceCall, RecordAdvance;
    var t := Trace(cfg, events).value;
    assert t.state.(now := t.state.now) == t.state;
    TraceExtends(cfg, events, t, Event(t.state.now, Advance(id, 0)), AdvanceCall(cfg, t.state, id, 0).value);
    more := events + [Event(t.state.now, Advance(id, 0))];
  }

  function TokensOut(s: State, x: Host): nat {
    if x in s.slots then s.slots[x].inUse else 0
  }

  ghost predicate NeverReleased(s: State, x: Host) {
    x in s.slots ==> s.slots[x].lastSend == None
  }

  /** Before a host's first release, a call that finds a token is granted at once. */
  lemma GrantedAtOnce(cfg: Config, events: seq<Event>, id: nat, x: Host) returns (more: seq<Event>, lane: nat)
    requires Trace(cfg, events).Some? && id < |Trace(cfg, events).value.state.calls|
    requires Trace(cfg, events).value.state.calls[id] == Call(x, Started)
    requires NeverReleased(Trace(cfg, events).value.state, x)
    requires TokensOut(Trace(cfg, events).value.state, x) < cfg.capacity
    ensures Trace(cfg, more).Some?
    ensures var t, t' := Trace(cfg, events).value, Trace(cfg, more).value;
      && t'.state.now == t.state.now
      && t'.state.calls == t.state.calls[id := Call(x, Granted)]
      && NeverReleased(t'.state, x) && TokensOut(t'.state, x) == TokensOut(t.state, x) + 1
      && t'.history.log == t.history.log + [Grant(x, lane, t.state.now)]
  {
    hide Trace, FreeLane, EmptyLanes;
    var waiting := Next(cfg, events, id);
    var holding := Next(cfg, waiting, id);
    more := Next(cfg, holding, id);
    lane := Trace(cfg, holding).value.history.laneOf[id];
  }

  lemma Arrival(cfg: Config, events: seq<Event>, x: Host) returns (more: seq<Event>)
    requires Trace(cfg, events).Some?
    ensures Trace(cfg, more).Some?
    ensures var t, t' := Trace(cfg, events).value, Trace(cfg, more).value;
      t'.state == t.state.(calls := t.state.calls + [Call(x, Started)]) && t'.history.log == t.history.log
  {
    var t := Trace(cfg, events).value;
    var e := Event(t.state.now, Arrive(x));
    TraceExtends(cfg, events, t, e, Step(cfg, t.state, e).value);
    more := events + [e];
  }

  /** Two calls for one host are granted at the same moment when there are two tokens. */
  lemma TwoTokensTwoGrants(cfg: Config, x: Host) returns (events: seq<Event>, a: nat, b: nat)
    requires cfg.capacity >= 2
    ensures Trace(cfg, events).Some?
    ensures Trace(cfg, events).value.history.log == [Grant(x, a, 0), Grant(x, b, 0)]
  {
    assert Trace(cfg, []) == Some(Traced(INITIAL, BLANK));
    hide Trace, Step;
    events := Arrival(cfg, [], x);
    events := Arrival(cfg, events, x);
    events, a := GrantedAtOnce(cfg, events, 0, x);
    events, b := GrantedAtOnce(cfg, events, 1, x);
  }

  /** The minimum delay separates all requests to a host on every schedule exactly when
      there is at most one token per host (or no delay to keep). */
  lemma DelayHoldsForOneTokenOnly(cfg: Config)
    ensures DelayAlwaysHolds(cfg) <==> cfg.capacity <= 1 || cfg.minDelay <= 0
  {
    if cfg.capacity <= 1 || cfg.minDelay <= 0 {
      forall events: seq<Event> | Trace(cfg, events).Some?
        ensures DelayedLog(cfg, Trace(cfg, events).value.history.log)
      {
        SingleTokenDelays(cfg, events);
      }
    } else {
      var events, a, b := TwoTokensTwoGrants(cfg, "reddit.com");
      hide Trace;
      var log := Trace(cfg, events).value.history.log;
      assert log[1] == Grant("reddit.com", b, 0) && log[0].at + cfg.minDelay > log[1].at;
      assert !DelayedLog(cfg, log);
    }
  }

  // ------------------------------------------------------------------------ progress

  function Rank(p: Phase): nat {
    match p
    case Started => 6
    case Waiting => 5
    case Holding => 4
    case Sleeping(_) => 3
    case Granted => 2
    case Stamped => 1
    case Finished => 0
  }

  /** Steps still to be made, an upper bound. */
  function Remaining(calls: seq<Call>): nat {
    if calls == [] then 0 else Remaining(calls[..|calls| - 1]) + Rank(calls[|calls| - 1].phase)
  }

  lemma {:induction false} RemainingUpdate(calls: seq<Call>, id: nat, c: Call)
    requires id < |calls|
    ensures Remaining(calls[id := c]) == Remaining(calls) - Rank(calls[id].phase) + Rank(c.phase)
  {
    var n := |calls| - 1;
    if id < n {
      assert calls[id := c][..n] == calls[..n][id := c];
      RemainingUpdate(calls[..n], id, c);
    } else {
      assert calls[id := c][..n] == calls[..n];
    }
  }

  /** Every step of a call brings it closer to the end; nothing is ever undone. */
  lemma AdvanceDecreases(cfg: Config, s: State, at: int, id: nat, j: nat, s': State)
    requires Step(cfg, s, Event(at, Advance(id, j))) == Some(s')
    ensures Remaining(s'.calls) < Remaining(s.calls)
  {
    RemainingUpdate(s.calls, id, s'.calls[id]);
  }

  lemma {:induction false} SomeHolder(calls: seq<Call>, x: Host) returns (id: nat)
    requires Holders(calls, x) > 0
    ensures id < |calls| && calls[id].host == x && InSlot(calls[id].phase)
  {
    var n := |calls| - 1;
    if calls[n].host == x && InSlot(calls[n].phase) {
      id := n;
    } else {
      id := SomeHolder(calls[..n], x);
    }
  }

  lemma InSlotIsEnabled(cfg: Config, s: State, id: nat) returns (at: int)
    requires id < |s.calls| && InSlot(s.calls[id].phase)
    requires s.calls[id].phase == Stamped ==> s.calls[id].host in s.slots && s.slots[s.calls[id].host].inUse > 0
    ensures at >= s.now && Step(cfg, s, Event(at, Advance(id, 0))).Some?
  {
    at := s.now;
    match s.calls[id].phase {
      case Sleeping(until) =>
        if until > at {
          at := until;
        }
      case _ =>
    }
  }

  /** No deadlock: with at least one token per host, as long as some call is unfinished
      some call can take its next step. */
  lemma SomeCallCanMove(cfg: Config, events: seq<Event>, k: nat) returns (id: nat, at: int)
    requires cfg.capacity >= 1 && Trace(cfg, events).Some?
    requires var s := Trace(cfg, events).value.state;
      k < |s.calls| && s.calls[k].phase != Finished
    ensures Step(cfg, Trace(cfg, events).value.state, Event(at, Advance(id, 0))).Some?
  {
    var s := Trace(cfg, events).value.state;
    var x := s.calls[k].host;
    HoldersWithinCapacity(cfg, events, x);
    hide Trace;
    id, at := k, s.now;
    assert s.(now := at) == s;
    if InSlot(s.calls[k].phase) {
      HoldersPositive(s.calls, k);
      at := InSlotIsEnabled(cfg, s, k);
    } else if s.calls[k].phase == Waiting && !Step(cfg, s, Event(at, Advance(k, 0))).Some? {
      id := SomeHolder(s.calls, x);
      at := InSlotIsEnabled(cfg, s, id);
    }
  }

  lemma {:induction false} HoldersPositive(calls: seq<Call>, id: nat)
    requires id < |calls| && InSlot(calls[id].phase)
    ensures Holders(calls, calls[id].host) > 0
  {
    if id < |calls| - 1 {
      HoldersPositive(calls[..|calls| - 1], id);
    }
  }
}
