/** The limiter as the program keeps it: one slot object per host, shared by the calls
    that looked it up. Every step performed on the objects is a step of the protocol. */
module LimiterObjects {
  import opened Limiter
  import opened LimiterHistory
  import opened LimiterLaws
  import opened Wrappers

  class DomainSlot {
    const capacity: nat
    var inUse: nat
    var lastSend: Option<int>

    constructor (capacity: nat)
      ensures this.capacity == capacity && Value() == NEW_SLOT
    {
      this.capacity := capacity;
      inUse, lastSend := 0, None;
    }

    function Value(): Slot
      reads this
    {
      Slot(inUse, lastSend)
    }

    /** The channel send; it blocks (does nothing) while the channel is full. */
    method TrySend() returns (sent: bool)
      modifies this
      ensures sent <==> old(inUse) < capacity
      ensures Value() == if sent then AfterSend(old(Value())) else old(Value())
    {
      sent := inUse < capacity;
      if sent {
        inUse := inUse + 1;
      }
    }

    /** The check made under the lock; the caller sleeps for the returned delay. */
    method Check(cfg: Config, now: int, jitterMs: nat) returns (v: Verdict)
      ensures v == CheckDelay(cfg, Value(), now, jitterMs) && Value() == old(Value())
    {
      v := CheckDelay(cfg, Value(), now, jitterMs);
    }

    /** First half of release: the time is stamped under the lock. */
    method Stamp(now: int)
      modifies this
      ensures Value() == AfterStamp(old(Value()), now)
    {
      lastSend := Some(now);
    }

    /** Second half of release: a token comes back out of the channel. */
    method TryReceive() returns (received: bool)
      modifies this
      ensures received <==> old(inUse) > 0
      ensures Value() == if received then AfterReceive(old(Value())) else old(Value())
    {
      received := inUse > 0;
      if received {
        inUse := inUse - 1;
      }
    }
  }

  /** One Acquire with its release: it looks its slot up once and keeps the reference. */
  class Acquisition {
    const host: Host
    var slot: DomainSlot?
    var phase: Phase

    constructor (host: Host)
      ensures this.host == host && phase == Started && slot == null
    {
      this.host := host;
      phase, slot := Started, null;
    }
  }

  lemma StepIsAdvance(cfg: Config, s: State, at: int, id: nat, jitterMs: nat)
    ensures Step(cfg, s, Event(at, Advance(id, jitterMs)))
         == if at < s.now || id >= |s.calls| || jitterMs >= JITTER_MS then None
            else AdvanceCall(cfg, s.(now := at), id, jitterMs)
  {
    hide AdvanceCall;
  }

  class DomainLimiter {
    const cfg: Config
    var now: int
    var limits: map<Host, DomainSlot>
    var calls: seq<Acquisition>
    ghost var schedule: seq<Event>

    ghost function SlotValues(): map<Host, Slot>
      reads this`limits, limits.Values
    {
      map h | h in limits :: limits[h].Value()
    }

    ghost function CallValues(): seq<Call>
      reads this`calls, calls
    {
      var all := calls;
      seq(|all|, i requires 0 <= i < |all| reads all => Call(all[i].host, all[i].phase))
    }

    ghost function View(): State
      reads this`now, this`limits, this`calls, limits.Values, calls
    {
      State(now, SlotValues(), CallValues())
    }

    /** No two hosts share a slot, no two calls an object, and every call that has looked
        its slot up holds the one stored for its host. */
    ghost predicate Separate()
      reads this`limits, this`calls, limits.Values, calls
    {
      && (forall g, h :: g in limits && h in limits && limits[g] == limits[h] ==> g == h)
      && (forall h :: h in limits ==> limits[h].capacity == cfg.capacity)
      && (forall i, j :: 0 <= i < j < |calls| ==> calls[i] != calls[j])
      && (forall i :: 0 <= i < |calls| && calls[i].phase != Started ==>
            calls[i].host in limits && calls[i].slot == limits[calls[i].host])
    }

    /** The objects are where the protocol is after the schedule performed so far. */
    ghost predicate Valid()
      reads this, limits.Values, calls
    {
      && Separate()
      && Trace(cfg, schedule).Some?
      && Trace(cfg, schedule).value.state == View()
    }

    constructor (cfg: Config)
      ensures Valid() && this.cfg == cfg && View() == INITIAL && schedule == []
    {
      this.cfg := cfg;
      now, limits, calls, schedule := 0, map[], [], [];
    }

    /** Loads the host's slot, or stores a new one; a stored slot is never replaced. */
    method SlotFor(host: Host) returns (s: DomainSlot)
      requires Separate()
      modifies this`limits
      ensures Separate() && host in limits && limits[host] == s
      ensures limits.Keys == old(limits).Keys + {host}
      ensures forall h :: h in old(limits) ==> limits[h] == old(limits)[h]
      ensures host !in old(limits) ==> fresh(s) && s.Value() == NEW_SLOT
      ensures SlotValues() == if host in old(limits) then old(SlotValues()) else old(SlotValues())[host := NEW_SLOT]
      ensures CallValues() == old(CallValues())
    {
      hide CallValues;
      var candidate := new DomainSlot(cfg.capacity);
      if host in limits {
        s := limits[host];
      } else {
        limits := limits[host := candidate];
        s := candidate;
      }
    }

    /** Call `id` is now in the given phase and holds the slot of its host. */
    method Keep(id: nat, s: DomainSlot, phase: Phase)
      requires Separate() && id < |calls| && phase != Started && calls[id].host in limits && limits[calls[id].host] == s
      modifies calls[id]
      ensures Separate() && calls[id].slot == s && SlotValues() == old(SlotValues())
      ensures CallValues() == old(CallValues())[id := Call(calls[id].host, phase)]
    {
      hide SlotValues;
      calls[id].slot, calls[id].phase := s, phase;
    }

    /** Sends a token into the call's slot. */
    method Send(id: nat) returns (moved: bool)
      requires Separate() && id < |calls| && calls[id].phase == Waiting
      modifies limits.Values, calls
      ensures Separate()
      ensures forall j :: AdvanceCall(cfg, old(View()), id, j) == if moved then Some(View()) else None
      ensures !moved ==> View() == old(View())
    {
      var s: DomainSlot := calls[id].slot;
      SameSlot(id);
      moved := s.TrySend();
      assert SlotValues() == old(SlotValues())[calls[id].host := s.Value()];
      hide SlotValues;
      if moved {
        Keep(id, s, Holding);
      }
    }

    /** Returns to the caller when the delay has passed, or sleeps until it has. */
    method Return(id: nat, jitterMs: nat) returns (moved: bool)
      requires Separate() && id < |calls| && (calls[id].phase == Holding || calls[id].phase.Sleeping?)
      modifies calls
      ensures Separate()
      ensures AdvanceCall(cfg, old(View()), id, jitterMs) == if moved then Some(View()) else None
      ensures !moved ==> View() == old(View())
    {
      SameSlot(id);
      hide SlotValues, CheckDelay;
      var s: DomainSlot := calls[id].slot;
      match calls[id].phase {
        case Holding =>
          var v := s.Check(cfg, now, jitterMs);
          Keep(id, s, if v.Proceed? then Granted else Sleeping(now + v.delay));
          moved := true;
        case Sleeping(until) =>
          moved := now >= until;
          if moved {
            Keep(id, s, Granted);
          }
      }
    }

    /** First half of release. */
    method Stamp(id: nat)
      requires Separate() && id < |calls| && calls[id].phase == Granted
      modifies limits.Values, calls
      ensures Separate()
      ensures forall j :: AdvanceCall(cfg, old(View()), id, j) == Some(View())
    {
      var s: DomainSlot := calls[id].slot;
      SameSlot(id);
      s.Stamp(now);
      assert SlotValues() == old(SlotValues())[calls[id].host := s.Value()];
      hide SlotValues;
      Keep(id, s, Stamped);
    }

    /** Second half of release. */
    method Receive(id: nat) returns (moved: bool)
      requires Separate() && id < |calls| && calls[id].phase == Stamped
      modifies limits.Values, calls
      ensures Separate()
      ensures forall j :: AdvanceCall(cfg, old(View()), id, j) == if moved then Some(View()) else None
      ensures !moved ==> View() == old(View())
    {
      var s: DomainSlot := calls[id].slot;
      SameSlot(id);
      moved := s.TryReceive();
      assert SlotValues() == old(SlotValues())[calls[id].host := s.Value()];
      hide SlotValues;
      if moved {
        Keep(id, s, Finished);
      }
    }

    lemma SameSlot(id: nat)
      requires id < |calls| && calls[id].host in limits
      ensures var x := calls[id].host;
        x in SlotValues() && SlotValues()[x] == limits[x].Value() && SlotValues()[x := SlotValues()[x]] == SlotValues()
      ensures CallValues()[id] == Call(calls[id].host, calls[id].phase) && |CallValues()| == |calls|
    {
    }

    /** A call looks its slot up and keeps it. */
    method LookUp(id: nat)
      requires Separate() && id < |calls| && calls[id].phase == Started
      modifies this`limits, calls[id]
      ensures Separate()
      ensures forall j :: AdvanceCall(cfg, old(View()), id, j) == Some(View())
      ensures forall h :: h in old(limits) ==> h in limits && limits[h] == old(limits)[h]
    {
      NoNewHost(calls[id].host);
      var s := SlotFor(calls[id].host);
      SameSlot(id);
      hide SlotValues, CallValues, Separate;
      Keep(id, s, Waiting);
    }

    lemma AsManyCalls()
      ensures |CallValues()| == |calls|
    {
    }

    lemma NoNewHost(h: Host)
      ensures h in SlotValues() <==> h in limits
      ensures h in SlotValues() ==> SlotValues()[h := SlotValues()[h]] == SlotValues()
    {
    }

    lemma FinishedIsStill(id: nat, jitterMs: nat)
      requires id < |calls| && calls[id].phase == Finished
      ensures AdvanceCall(cfg, View(), id, jitterMs) == None
    {
    }

    method TryAdvance(id: nat, jitterMs: nat) returns (moved: bool)
      requires Separate() && id < |calls|
      modifies this`limits, limits.Values, calls
      ensures Separate()
      ensures AdvanceCall(cfg, old(View()), id, jitterMs) == if moved then Some(View()) else None
      ensures !moved ==> View() == old(View())
      ensures forall h :: h in old(limits) ==> h in limits && limits[h] == old(limits)[h]
    {
      hide AdvanceCall;
      match calls[id].phase {
        case Started =>
          LookUp(id);
          moved := true;
        case Waiting => moved := Send(id);
        case Holding => moved := Return(id, jitterMs);
        case Sleeping(_) => moved := Return(id, jitterMs);
        case Granted =>
          Stamp(id);
          moved := true;
        case Stamped => moved := Receive(id);
        case Finished =>
          FinishedIsStill(id, jitterMs);
          moved := false;
      }
    }

    /** Records a performed step in the schedule. */
    ghost method Performed(e: Event)
      requires Separate() && Trace(cfg, schedule).Some?
      requires Step(cfg, Trace(cfg, schedule).value.state, e) == Some(View())
      modifies this`schedule
      ensures Valid() && schedule == old(schedule) + [e] && View() == old(View())
    {
      hide Trace, Record, Step;
      TraceExtends(cfg, schedule, Trace(cfg, schedule).value, e, View());
      schedule := schedule + [e];
    }

    /** A goroutine calls Acquire. */
    method Arrive(at: int, host: Host) returns (moved: bool)
      requires Valid()
      modifies this`now, this`calls, this`schedule
      ensures Valid()
      ensures moved <==> at >= old(now)
      ensures schedule == if moved then old(schedule) + [Event(at, Limiter.Arrive(host))] else old(schedule)
    {
      hide Trace, Record;
      if at < now {
        return false;
      }
      var c := new Acquisition(host);
      ghost var before := View();
      now, calls := at, calls + [c];
      assert CallValues() == before.calls + [Call(host, Started)];
      Performed(Event(at, Limiter.Arrive(host)));
      moved := true;
    }

    /** Call `id` performs its next step, or is blocked. Performing it on the objects is
        the protocol's step, and a stored slot object is never replaced. */
    method Advance(at: int, id: nat, jitterMs: nat) returns (moved: bool)
      requires Valid()
      modifies this, limits.Values, calls
      ensures Valid()
      ensures Step(cfg, old(View()), Event(at, Limiter.Advance(id, jitterMs))) == if moved then Some(View()) else None
      ensures schedule == if moved then old(schedule) + [Event(at, Limiter.Advance(id, jitterMs))] else old(schedule)
      ensures !moved ==> View() == old(View())
      ensures forall h :: h in old(limits) ==> h in limits && limits[h] == old(limits)[h]
    {
      hide Trace, Record, AdvanceCall, Step, SlotValues, CallValues, Separate;
      StepIsAdvance(cfg, View(), at, id, jitterMs);
      AsManyCalls();
      if at < now || id >= |calls| || jitterMs >= JITTER_MS {
        return false;
      }
      ghost var before := View();
      var was := now;
      now := at;
      assert View() == before.(now := at);
      moved := TryAdvance(id, jitterMs);
      if moved {
        Performed(Event(at, Limiter.Advance(id, jitterMs)));
      } else {
        now := was;
      }
    }
  }

  /** So every law of the schedules holds of the objects, however their steps interleave:
      at most c * (L / minDelay + 1) grants for a host in a window, and no more calls of
      one host between their send and their receive than there are tokens out. */
  lemma ObjectsKeepLimits(d: DomainLimiter, x: Host, from: int, length: nat)
    requires d.Valid()
    ensures d.cfg.minDelay > 0 ==>
      CountGrants(Trace(d.cfg, d.schedule).value.history.log, x, from, from + length)
        <= d.cfg.capacity * (length / d.cfg.minDelay + 1)
    ensures Holders(d.View().calls, x) == (if x in d.limits then d.limits[x].inUse else 0) <= d.cfg.capacity
  {
    hide Trace;
    if d.cfg.minDelay > 0 {
      GrantsInWindow(d.cfg, d.schedule, x, from, length);
    }
    HoldersWithinCapacity(d.cfg, d.schedule, x);
  }
}
