/** Every event keeps the lane invariant, so it holds after every schedule. */
module LimiterSafety {
  import opened Limiter
  import opened LimiterHistory
  import opened VirtualLanes
  import opened Wrappers

  // ------------------------------------------------------- occupied lanes and calls

  lemma AddHostKeepsLanes(cfg: Config, s: State, h: History, x: Host)
    requires Lanes(cfg, s, h) && x !in s.slots
    ensures Lanes(cfg, s.(slots := s.slots[x := NEW_SLOT]), h.(lanes := h.lanes[x := EmptyLanes(cfg.capacity)]))
  {
    var s', h' := s.(slots := s.slots[x := NEW_SLOT]), h.(lanes := h.lanes[x := EmptyLanes(cfg.capacity)]);
    InUseOfEmpty(EmptyLanes(cfg.capacity));
    assert LanesFit(cfg, s', h');
    forall k: nat | k < |s'.calls| ensures CallHasLane(cfg, s', h', k) {
      assert CallHasLane(cfg, s, h, k);
    }
    forall y, m: nat | y in h'.lanes && m < cfg.capacity ensures LaneHasCall(cfg, s', h', y, m) {
      assert y in h.lanes ==> LaneHasCall(cfg, s, h, y, m);
    }
  }

  /** A step that neither sends nor receives leaves the lanes as they are. */
  lemma PhaseKeepsLanes(cfg: Config, s: State, h: History, id: nat, slot: Slot, phase: Phase, log: seq<Entry>)
    requires Lanes(cfg, s, h) && id < |s.calls| && s.calls[id].host in s.slots
    requires slot.inUse == s.slots[s.calls[id].host].inUse
    requires InSlot(phase) == InSlot(s.calls[id].phase)
    ensures Lanes(cfg, Move(s, id, slot, phase), h.(log := log))
  {
    hide InSlot, InUse;
    var s', h' := Move(s, id, slot, phase), h.(log := log);
    assert LanesFit(cfg, s', h');
    forall k: nat | k < |s'.calls| ensures CallHasLane(cfg, s', h', k) {
      assert CallHasLane(cfg, s, h, k);
    }
    forall y, m: nat | y in h'.lanes && m < cfg.capacity ensures LaneHasCall(cfg, s', h', y, m) {
      assert LaneHasCall(cfg, s, h, y, m);
    }
  }

  /** Giving lane l of a host to call id, or taking it back. */
  function Occupy(h: History, x: Host, l: nat, id: nat): History
    requires x in h.lanes && l < |h.lanes[x]| && id < |h.laneOf|
  {
    h.(lanes := h.lanes[x := h.lanes[x][l := Some(id)]], laneOf := h.laneOf[id := l])
  }

  function Vacate(h: History, x: Host, l: nat): History
    requires x in h.lanes && l < |h.lanes[x]|
  {
    h.(lanes := h.lanes[x := h.lanes[x][l := None]])
  }

  lemma SendKeepsLanes(cfg: Config, s: State, h: History, id: nat, l: nat, slot: Slot)
    requires Lanes(cfg, s, h) && id < |s.calls| && s.calls[id].phase == Waiting && s.calls[id].host in s.slots
    requires slot.inUse == s.slots[s.calls[id].host].inUse + 1
    requires l < cfg.capacity && h.lanes[s.calls[id].host][l] == None
    ensures Lanes(cfg, Move(s, id, slot, Holding), Occupy(h, s.calls[id].host, l, id))
  {
    var x := s.calls[id].host;
    var s', h' := Move(s, id, slot, Holding), Occupy(h, x, l, id);
    InUseUpdate(h.lanes[x], l, Some(id));
    hide InUse;
    assert LanesFit(cfg, s', h');
    forall k: nat | k < |s'.calls| ensures CallHasLane(cfg, s', h', k) {
      assert CallHasLane(cfg, s, h, k);
    }
    forall y, m: nat | y in h'.lanes && m < cfg.capacity ensures LaneHasCall(cfg, s', h', y, m) {
      assert LaneHasCall(cfg, s, h, y, m);
    }
  }

  lemma ReceiveKeepsLanes(cfg: Config, s: State, h: History, id: nat, slot: Slot)
    requires Lanes(cfg, s, h) && id < |s.calls| && s.calls[id].phase == Stamped && s.calls[id].host in s.slots
    requires slot.inUse == s.slots[s.calls[id].host].inUse - 1
    requires h.laneOf[id] < cfg.capacity
    ensures Lanes(cfg, Move(s, id, slot, Finished), Vacate(h, s.calls[id].host, h.laneOf[id]))
  {
    var x, l := s.calls[id].host, h.laneOf[id];
    var s', h' := Move(s, id, slot, Finished), Vacate(h, x, l);
    assert CallHasLane(cfg, s, h, id);
    InUseUpdate(h.lanes[x], l, None);
    hide InUse;
    assert LanesFit(cfg, s', h');
    forall k: nat | k < |s'.calls| ensures CallHasLane(cfg, s', h', k) {
      assert CallHasLane(cfg, s, h, k);
    }
    forall y, m: nat | y in h'.lanes && m < cfg.capacity ensures LaneHasCall(cfg, s', h', y, m) {
      assert LaneHasCall(cfg, s, h, y, m);
    }
  }

  // ------------------------------------------------------------------- the clocks

  lemma LastReleaseSnoc(log: seq<Entry>, e: Entry, x: Host)
    ensures LastRelease(log + [e], x) == if e.Release? && e.host == x then Some(e.at) else LastRelease(log, x)
  {
    assert (log + [e])[..|log|] == log;
  }

  lemma AppendKeepsLog(cfg: Config, s: State, log: seq<Entry>, e: Entry)
    requires LogFits(cfg, s, log) && LaneGaps(cfg, log)
    requires e.at == s.now && e.host in s.slots && e.lane < cfg.capacity
    requires e.Grant? ==> Before(log, e.host, e.lane, s.now - cfg.minDelay)
    ensures LogFits(cfg, s, log + [e]) && LaneGaps(cfg, log + [e])
  {
  }

  lemma AppendElsewhere(cfg: Config, log: seq<Entry>, e: Entry, x: Host, l: nat, last: Option<int>, phase: Phase)
    requires LaneClock(cfg, log, x, l, last, phase) && !InLane(e, x, l)
    ensures LaneClock(cfg, log + [e], x, l, last, phase)
  {
  }

  lemma LaterReleaseKeeps(cfg: Config, log: seq<Entry>, x: Host, l: nat, last: Option<int>, now: int, phase: Phase)
    requires LaneClock(cfg, log, x, l, last, phase) && forall i :: 0 <= i < |log| ==> log[i].at <= now
    ensures LaneClock(cfg, log, x, l, Some(now), phase)
  {
  }

  lemma {:induction false} UnknownHostIsUnlogged(cfg: Config, s: State, log: seq<Entry>, x: Host)
    requires LogFits(cfg, s, log) && x !in s.slots
    ensures LastRelease(log, x) == None
    ensures forall l: nat :: Quiet(log, x, l, None)
  {
    if log != [] {
      assert log[|log| - 1].host != x;
      UnknownHostIsUnlogged(cfg, s, log[..|log| - 1], x);
    }
  }

  lemma AddHostKeepsTiming(cfg: Config, s: State, h: History, x: Host)
    requires Lanes(cfg, s, h) && Timing(cfg, s, h) && x !in s.slots
    requires Lanes(cfg, s.(slots := s.slots[x := NEW_SLOT]), h.(lanes := h.lanes[x := EmptyLanes(cfg.capacity)]))
    ensures Timing(cfg, s.(slots := s.slots[x := NEW_SLOT]), h.(lanes := h.lanes[x := EmptyLanes(cfg.capacity)]))
  {
    UnknownHostIsUnlogged(cfg, s, h.log, x);
    var s', h' := s.(slots := s.slots[x := NEW_SLOT]), h.(lanes := h.lanes[x := EmptyLanes(cfg.capacity)]);
    hide LastRelease, InUse, LanesMatch, LaneGaps;
    forall y | y in s'.slots ensures HostOnTime(s', h', y) {
      assert y in s.slots ==> HostOnTime(s, h, y);
    }
    forall y, m: nat | y in h'.lanes && m < cfg.capacity ensures LaneOnTime(cfg, s', h', y, m) {
      assert y in h.lanes ==> LaneOnTime(cfg, s, h, y, m);
    }
  }

  lemma PhaseElsewhere(cfg: Config, s: State, h: History, id: nat, slot: Slot, phase: Phase, log: seq<Entry>,
                       y: Host, m: nat)
    requires Lanes(cfg, s, h) && id < |s.calls| && s.calls[id].host in s.slots && y in h.lanes && m < cfg.capacity
    requires InSlot(s.calls[id].phase) ==> y != s.calls[id].host || m != h.laneOf[id]
    ensures LanePhase(Move(s, id, slot, phase), h.(log := log), y, m) == LanePhase(s, h, y, m)
  {
    assert LaneHasCall(cfg, s, h, y, m);
  }

  /** A log extended, if at all, by one entry of lane l of host x. */
  ghost predicate ExtendsInLane(log: seq<Entry>, log': seq<Entry>, x: Host, l: nat) {
    log' == log || (|log'| == |log| + 1 && log <= log' && InLane(log'[|log|], x, l))
  }

  lemma ElsewhereKeeps(cfg: Config, log: seq<Entry>, log': seq<Entry>, x: Host, l: nat, y: Host, m: nat,
                       last: Option<int>, phase: Phase)
    requires ExtendsInLane(log, log', x, l) && (y != x || m != l) && LaneClock(cfg, log, y, m, last, phase)
    ensures LaneClock(cfg, log', y, m, last, phase)
  {
    if log' != log {
      assert log' == log + [log'[|log|]];
      AppendElsewhere(cfg, log, log'[|log|], y, m, last, phase);
    }
  }

  /** A step of a call that stays inside its slot. */
  lemma InSlotMoveKeepsTiming(cfg: Config, s: State, h: History, id: nat, slot: Slot, phase: Phase, log: seq<Entry>)
    requires Lanes(cfg, s, h) && Timing(cfg, s, h) && id < |s.calls| && s.calls[id].host in s.slots
    requires InSlot(s.calls[id].phase) && InSlot(phase) && h.laneOf[id] < cfg.capacity
    requires Lanes(cfg, Move(s, id, slot, phase), h.(log := log))
    requires LogFits(cfg, s, log) && LaneGaps(cfg, log)
    requires ExtendsInLane(h.log, log, s.calls[id].host, h.laneOf[id])
    requires slot.lastSend == s.slots[s.calls[id].host].lastSend || slot.lastSend == Some(s.now)
    requires forall y :: y in s.slots ==>
               LastRelease(log, y) == if y == s.calls[id].host then slot.lastSend else LastRelease(h.log, y)
    requires LaneClock(cfg, log, s.calls[id].host, h.laneOf[id], slot.lastSend, phase)
    ensures Timing(cfg, Move(s, id, slot, phase), h.(log := log))
  {
    var x, l := s.calls[id].host, h.laneOf[id];
    var s', h' := Move(s, id, slot, phase), h.(log := log);
    hide LastRelease, InUse, LaneGaps, LaneClock;
    assert LanePhase(s', h', x, l) == phase by {
      assert CallHasLane(cfg, s, h, id);
    }
    forall y | y in s'.slots ensures HostOnTime(s', h', y) {
      assert HostOnTime(s, h, y);
    }
    forall y, m: nat | y in h'.lanes && m < cfg.capacity ensures LaneOnTime(cfg, s', h', y, m) {
      if y != x || m != l {
        assert LaneOnTime(cfg, s, h, y, m);
        PhaseElsewhere(cfg, s, h, id, slot, phase, log, y, m);
        ElsewhereKeeps(cfg, h.log, log, x, l, y, m, s.slots[y].lastSend, LanePhase(s, h, y, m));
        if y == x && slot.lastSend == Some(s.now) {
          LaterReleaseKeeps(cfg, log, y, m, s.slots[y].lastSend, s.now, LanePhase(s, h, y, m));
        }
      }
    }
  }

  /** A call that is not yet inside its slot occupies no lane. */
  lemma OutsideMoveKeepsTiming(cfg: Config, s: State, h: History, id: nat, phase: Phase)
    requires Lanes(cfg, s, h) && Timing(cfg, s, h) && id < |s.calls| && s.calls[id].host in s.slots
    requires !InSlot(s.calls[id].phase)
    requires Lanes(cfg, Move(s, id, s.slots[s.calls[id].host], phase), h)
    ensures Timing(cfg, Move(s, id, s.slots[s.calls[id].host], phase), h)
  {
    var s' := Move(s, id, s.slots[s.calls[id].host], phase);
    hide LastRelease, InUse, LaneGaps, LaneClock;
    assert h.(log := h.log) == h;
    forall y | y in s'.slots ensures HostOnTime(s', h, y) {
      assert HostOnTime(s, h, y);
    }
    forall y, m: nat | y in h.lanes && m < cfg.capacity ensures LaneOnTime(cfg, s', h, y, m) {
      assert LaneOnTime(cfg, s, h, y, m);
      PhaseElsewhere(cfg, s, h, id, s.slots[s.calls[id].host], phase, h.log, y, m);
    }
  }

  lemma SendKeepsTiming(cfg: Config, s: State, h: History, id: nat, l: nat, slot: Slot)
    requires Lanes(cfg, s, h) && Timing(cfg, s, h) && id < |s.calls| && s.calls[id].host in s.slots
    requires s.calls[id].phase == Waiting && slot.lastSend == s.slots[s.calls[id].host].lastSend
    requires l < cfg.capacity && h.lanes[s.calls[id].host][l] == None
    requires Lanes(cfg, Move(s, id, slot, Holding), Occupy(h, s.calls[id].host, l, id))
    ensures Timing(cfg, Move(s, id, slot, Holding), Occupy(h, s.calls[id].host, l, id))
  {
    var x := s.calls[id].host;
    var s', h' := Move(s, id, slot, Holding), Occupy(h, x, l, id);
    hide LastRelease, InUse, LaneGaps, LanesMatch, Quiet;
    forall y | y in s'.slots ensures HostOnTime(s', h', y) {
      assert HostOnTime(s, h, y);
    }
    forall y, m: nat | y in h'.lanes && m < cfg.capacity ensures LaneOnTime(cfg, s', h', y, m) {
      assert LaneOnTime(cfg, s, h, y, m);
      OccupyPhase(cfg, s, h, id, l, slot, y, m);
    }
  }

  lemma OccupyPhase(cfg: Config, s: State, h: History, id: nat, l: nat, slot: Slot, y: Host, m: nat)
    requires Lanes(cfg, s, h) && id < |s.calls| && s.calls[id].host in s.slots && s.calls[id].phase == Waiting
    requires l < cfg.capacity && h.lanes[s.calls[id].host][l] == None && y in h.lanes && m < cfg.capacity
    ensures LanePhase(Move(s, id, slot, Holding), Occupy(h, s.calls[id].host, l, id), y, m)
         == if y == s.calls[id].host && m == l then Holding else LanePhase(s, h, y, m)
  {
    hide InUse;
    assert LaneHasCall(cfg, s, h, y, m);
  }

  lemma ReceiveKeepsTiming(cfg: Config, s: State, h: History, id: nat, slot: Slot)
    requires Lanes(cfg, s, h) && Timing(cfg, s, h) && id < |s.calls| && s.calls[id].host in s.slots
    requires s.calls[id].phase == Stamped && slot.lastSend == s.slots[s.calls[id].host].lastSend
    requires h.laneOf[id] < cfg.capacity
    requires Lanes(cfg, Move(s, id, slot, Finished), Vacate(h, s.calls[id].host, h.laneOf[id]))
    ensures Timing(cfg, Move(s, id, slot, Finished), Vacate(h, s.calls[id].host, h.laneOf[id]))
  {
    var x, l := s.calls[id].host, h.laneOf[id];
    var s', h' := Move(s, id, slot, Finished), Vacate(h, x, l);
    hide LastRelease, InUse, LaneGaps, LanesMatch, LaneClock;
    forall y | y in s'.slots ensures HostOnTime(s', h', y) {
      assert HostOnTime(s, h, y);
    }
    forall y, m: nat | y in h'.lanes && m < cfg.capacity ensures LaneOnTime(cfg, s', h', y, m) {
      assert LaneOnTime(cfg, s, h, y, m);
      VacateKeepsPhase(cfg, s, h, id, slot, y, m);
    }
  }

  /** Giving a lane back leaves it as quiet as its stamped holder had. */
  lemma VacateKeepsPhase(cfg: Config, s: State, h: History, id: nat, slot: Slot, y: Host, m: nat)
    requires Lanes(cfg, s, h) && id < |s.calls| && s.calls[id].phase == Stamped && s.calls[id].host in s.slots
    requires h.laneOf[id] < cfg.capacity && y in h.lanes && m < cfg.capacity
    ensures LanePhase(Move(s, id, slot, Finished), Vacate(h, s.calls[id].host, h.laneOf[id]), y, m)
         == LanePhase(s, h, y, m)
  {
    hide InUse;
    assert CallHasLane(cfg, s, h, id);
    assert LaneHasCall(cfg, s, h, y, m);
  }

  // ------------------------------------------------------------- one step, any phase

  lemma LastReleaseAfter(s: State, log: seq<Entry>, e: Entry)
    ensures forall y :: y in s.slots ==>
              LastRelease(log + [e], y) == if e.Release? && y == e.host then Some(e.at) else LastRelease(log, y)
  {
    forall y | y in s.slots
      ensures LastRelease(log + [e], y) == if e.Release? && y == e.host then Some(e.at) else LastRelease(log, y)
    {
      LastReleaseSnoc(log, e, y);
    }
  }

  lemma StartedStep(cfg: Config, s: State, h: History, id: nat)
    requires Inv(cfg, s, h) && id < |s.calls| && s.calls[id].phase == Started
    ensures var x := s.calls[id].host;
      if x in s.slots then Inv(cfg, Move(s, id, s.slots[x], Waiting), h.(lanes := h.lanes[x := h.lanes[x]]))
      else Inv(cfg, Move(s, id, NEW_SLOT, Waiting), h.(lanes := h.lanes[x := EmptyLanes(cfg.capacity)]))
  {
    hide LanesMatch, Timing, LastRelease, InUse;
    var x := s.calls[id].host;
    var s1, h1 := s, h;
    if x !in s.slots {
      s1, h1 := s.(slots := s.slots[x := NEW_SLOT]), h.(lanes := h.lanes[x := EmptyLanes(cfg.capacity)]);
      AddHostKeepsLanes(cfg, s, h, x);
      AddHostKeepsTiming(cfg, s, h, x);
    }
    assert h1.(lanes := h1.lanes[x := h1.lanes[x]]) == h1 && h1.(log := h1.log) == h1;
    PhaseKeepsLanes(cfg, s1, h1, id, s1.slots[x], Waiting, h1.log);
    OutsideMoveKeepsTiming(cfg, s1, h1, id, Waiting);
    assert Move(s1, id, s1.slots[x], Waiting) == Move(s, id, s1.slots[x], Waiting);
  }

  lemma WaitingStep(cfg: Config, s: State, h: History, id: nat)
    requires Inv(cfg, s, h) && id < |s.calls| && s.calls[id].phase == Waiting
    ensures s.calls[id].host in s.slots
    ensures var x := s.calls[id].host;
      var slot, l := s.slots[x], FreeLane(h.lanes[x]);
      slot.inUse < cfg.capacity ==>
        && l < |h.lanes[x]|
        && Inv(cfg, Move(s, id, AfterSend(slot), Holding), Occupy(h, x, l, id))
  {
    var x := s.calls[id].host;
    var slot := s.slots[x];
    if slot.inUse < cfg.capacity {
      FreeLaneIsFree(h.lanes[x]);
      hide LanesMatch, Timing, LastRelease, InUse, FreeLane;
      SendKeepsLanes(cfg, s, h, id, FreeLane(h.lanes[x]), AfterSend(slot));
      SendKeepsTiming(cfg, s, h, id, FreeLane(h.lanes[x]), AfterSend(slot));
    }
  }

  /** The call goes to sleep until its lane has rested for minDelay. */
  lemma SleepStep(cfg: Config, s: State, h: History, id: nat, d: int)
    requires Inv(cfg, s, h) && id < |s.calls| && s.calls[id].phase == Holding && s.calls[id].host in s.slots
    requires s.slots[s.calls[id].host].lastSend.Some?
    requires s.now + d >= s.slots[s.calls[id].host].lastSend.value + cfg.minDelay
    ensures Inv(cfg, Move(s, id, s.slots[s.calls[id].host], Sleeping(s.now + d)), h)
  {
    var x := s.calls[id].host;
    var slot := s.slots[x];
    var l := h.laneOf[id];
    LaneOfCall(cfg, s, h, id);
    assert Clocks(cfg, s, h);
    HostsOnTime(cfg, s, h);
    assert LaneOnTime(cfg, s, h, x, l);
    assert Quiet(h.log, x, l, slot.lastSend);
    assert LaneClock(cfg, h.log, x, l, slot.lastSend, Sleeping(s.now + d));
    hide Clocks, LastRelease, InUse, LanesMatch;
    assert h.(log := h.log) == h;
    PhaseKeepsLanes(cfg, s, h, id, slot, Sleeping(s.now + d), h.log);
    InSlotMoveKeepsTiming(cfg, s, h, id, slot, Sleeping(s.now + d), h.log);
  }

  lemma LaneOfCall(cfg: Config, s: State, h: History, id: nat)
    requires Lanes(cfg, s, h) && id < |s.calls| && InSlot(s.calls[id].phase)
    ensures s.calls[id].host in h.lanes && h.laneOf[id] < cfg.capacity
    ensures LanePhase(s, h, s.calls[id].host, h.laneOf[id]) == s.calls[id].phase
  {
    assert CallHasLane(cfg, s, h, id);
  }

  lemma HostsOnTime(cfg: Config, s: State, h: History)
    requires Inv(cfg, s, h)
    ensures forall y :: y in s.slots ==> LastRelease(h.log, y) == s.slots[y].lastSend
  {
    forall y | y in s.slots ensures LastRelease(h.log, y) == s.slots[y].lastSend {
      assert HostOnTime(s, h, y);
    }
  }

  /** When a call may be granted, everything in its lane is at least minDelay old. */
  lemma LaneHasRested(cfg: Config, s: State, h: History, id: nat)
    requires Inv(cfg, s, h) && id < |s.calls| && (s.calls[id].phase == Holding || s.calls[id].phase.Sleeping?)
    requires s.calls[id].host in s.slots
    requires var last := s.slots[s.calls[id].host].lastSend;
      match s.calls[id].phase
      case Sleeping(until) => s.now >= until
      case _ => last.Some? ==> s.now >= last.value + cfg.minDelay
    ensures Before(h.log, s.calls[id].host, h.laneOf[id], s.now - cfg.minDelay)
  {
    hide InUse, LastRelease, LaneGaps, LogFits;
    LaneOfCall(cfg, s, h, id);
    assert LaneOnTime(cfg, s, h, s.calls[id].host, h.laneOf[id]);
  }

  /** Acquire returns: the grant comes minDelay after everything earlier in its lane. */
  lemma GrantStep(cfg: Config, s: State, h: History, id: nat)
    requires Inv(cfg, s, h) && id < |s.calls| && (s.calls[id].phase == Holding || s.calls[id].phase.Sleeping?)
    requires s.calls[id].host in s.slots
    requires var last := s.slots[s.calls[id].host].lastSend;
      match s.calls[id].phase
      case Sleeping(until) => s.now >= until
      case _ => last.Some? ==> s.now >= last.value + cfg.minDelay
    ensures var x := s.calls[id].host;
      Inv(cfg, Move(s, id, s.slots[x], Granted), h.(log := h.log + [Grant(x, h.laneOf[id], s.now)]))
  {
    var x := s.calls[id].host;
    var slot, l := s.slots[x], h.laneOf[id];
    var e := Grant(x, l, s.now);
    LaneOfCall(cfg, s, h, id);
    LaneHasRested(cfg, s, h, id);
    HostsOnTime(cfg, s, h);
    hide Clocks, LastRelease, InUse, LanesMatch, LaneGaps, LogFits;
    AppendKeepsLog(cfg, s, h.log, e);
    LastReleaseAfter(s, h.log, e);
    PhaseKeepsLanes(cfg, s, h, id, slot, Granted, h.log + [e]);
    InSlotMoveKeepsTiming(cfg, s, h, id, slot, Granted, h.log + [e]);
  }

  lemma StampStep(cfg: Config, s: State, h: History, id: nat)
    requires Inv(cfg, s, h) && id < |s.calls| && s.calls[id].phase == Granted && s.calls[id].host in s.slots
    ensures var x := s.calls[id].host;
      Inv(cfg, Move(s, id, AfterStamp(s.slots[x], s.now), Stamped),
          h.(log := h.log + [Release(x, h.laneOf[id], s.now)]))
  {
    var x := s.calls[id].host;
    var slot, l := AfterStamp(s.slots[x], s.now), h.laneOf[id];
    var e := Release(x, l, s.now);
    LaneOfCall(cfg, s, h, id);
    AppendKeepsLog(cfg, s, h.log, e);
    assert Quiet(h.log + [e], x, l, Some(s.now));
    HostsOnTime(cfg, s, h);
    LastReleaseAfter(s, h.log, e);
    hide Clocks, LastRelease, InUse, LanesMatch, LaneGaps, LogFits;
    PhaseKeepsLanes(cfg, s, h, id, slot, Stamped, h.log + [e]);
    InSlotMoveKeepsTiming(cfg, s, h, id, slot, Stamped, h.log + [e]);
  }

  lemma ReceiveStep(cfg: Config, s: State, h: History, id: nat)
    requires Inv(cfg, s, h) && id < |s.calls| && s.calls[id].phase == Stamped
    ensures s.calls[id].host in s.slots && h.laneOf[id] < |h.lanes[s.calls[id].host]|
    ensures var x := s.calls[id].host;
      var slot := s.slots[x];
      slot.inUse > 0 ==>
        Inv(cfg, Move(s, id, AfterReceive(slot), Finished), Vacate(h, x, h.laneOf[id]))
  {
    var x := s.calls[id].host;
    var slot := s.slots[x];
    LaneOfCall(cfg, s, h, id);
    if slot.inUse > 0 {
      hide LanesMatch, Timing, LastRelease, InUse;
      ReceiveKeepsLanes(cfg, s, h, id, AfterReceive(slot));
      ReceiveKeepsTiming(cfg, s, h, id, AfterReceive(slot));
    }
  }

  lemma AdvanceKeepsInv(cfg: Config, s: State, h: History, id: nat, j: nat, s': State)
    requires Inv(cfg, s, h) && id < |s.calls| && AdvanceCall(cfg, s, id, j) == Some(s')
    ensures Inv(cfg, s', RecordAdvance(cfg, s, h, id, s.now, j))
  {
    assert s.calls[id].phase != Started && s.calls[id].phase != Finished ==> s.calls[id].host in s.slots;
    hide Inv, InUse, FreeLane, EmptyLanes;
    match s.calls[id].phase {
      case Started => StartedStep(cfg, s, h, id);
      case Waiting => WaitingStep(cfg, s, h, id);
      case Holding =>
        match CheckDelay(cfg, s.slots[s.calls[id].host], s.now, j) {
          case Proceed => GrantStep(cfg, s, h, id);
          case Wait(d) => SleepStep(cfg, s, h, id, d);
        }
      case Sleeping(_) => GrantStep(cfg, s, h, id);
      case Granted => StampStep(cfg, s, h, id);
      case Stamped => ReceiveStep(cfg, s, h, id);
      case Finished =>
    }
  }
}
