/** Virtual lanes: a history kept beside a run of the limiter. A host with capacity c has
    c lanes; a token travels in the lane it was given when it was sent. The history reads
    the machine and never guides it. */
module LimiterHistory {
  import opened Limiter
  import opened VirtualLanes
  import opened Wrappers

  datatype Entry =
    | Grant(host: Host, lane: nat, at: int)
    | Release(host: Host, lane: nat, at: int)

  datatype History = History(lanes: map<Host, seq<Option<nat>>>, laneOf: seq<nat>, log: seq<Entry>)

  const BLANK := History(map[], [], [])

  /** The history after call `id` takes a step out of state s at time `at`. */
  function RecordAdvance(cfg: Config, s: State, h: History, id: nat, at: int, jitterMs: nat): History
    requires id < |s.calls| && |h.laneOf| == |s.calls|
  {
    var c := s.calls[id];
    var lanes := if c.host in h.lanes then h.lanes[c.host] else EmptyLanes(cfg.capacity);
    var lane := h.laneOf[id];
    match c.phase
    case Started => h.(lanes := h.lanes[c.host := lanes])
    case Waiting =>
      var free := FreeLane(lanes);
      if free < |lanes| then h.(lanes := h.lanes[c.host := lanes[free := Some(id)]], laneOf := h.laneOf[id := free])
      else h
    case Holding =>
      var slot := if c.host in s.slots then s.slots[c.host] else NEW_SLOT;
      if CheckDelay(cfg, slot, at, jitterMs).Proceed? then h.(log := h.log + [Grant(c.host, lane, at)]) else h
    case Sleeping(_) => h.(log := h.log + [Grant(c.host, lane, at)])
    case Granted => h.(log := h.log + [Release(c.host, lane, at)])
    case Stamped => if lane < |lanes| then h.(lanes := h.lanes[c.host := lanes[lane := None]]) else h
    case Finished => h
  }

  function Record(cfg: Config, s: State, h: History, e: Event): History
    requires |h.laneOf| == |s.calls|
  {
    match e.action
    case Arrive(_) => h.(laneOf := h.laneOf + [0])
    case Advance(id, jitterMs) => if id < |s.calls| then RecordAdvance(cfg, s, h, id, e.at, jitterMs) else h
  }

  datatype Traced = Traced(state: State, history: History)

  /** State and history at the end of a schedule; None if some event was not enabled. */
  function Trace(cfg: Config, events: seq<Event>): (t: Option<Traced>)
    ensures t.Some? ==> |t.value.history.laneOf| == |t.value.state.calls|
  {
    if events == [] then Some(Traced(INITIAL, BLANK))
    else
      var e := events[|events| - 1];
      match Trace(cfg, events[..|events| - 1])
      case None => None
      case Some(t) =>
        match Step(cfg, t.state, e)
        case None => None
        case Some(next) => Some(Traced(next, Record(cfg, t.state, t.history, e)))
  }

  // ------------------------------------------------------------------- invariants

  function LastRelease(log: seq<Entry>, host: Host): Option<int> {
    if log == [] then None
    else
      var e := log[|log| - 1];
      if e.Release? && e.host == host then Some(e.at) else LastRelease(log[..|log| - 1], host)
  }

  ghost predicate LanesFit(cfg: Config, s: State, h: History) {
    && h.lanes.Keys == s.slots.Keys
    && |h.laneOf| == |s.calls|
    && (forall x :: x in h.lanes ==> |h.lanes[x]| == cfg.capacity && s.slots[x].inUse == InUse(h.lanes[x]))
    && (forall id :: 0 <= id < |s.calls| && (s.calls[id].phase.Waiting? || InSlot(s.calls[id].phase)) ==>
          s.calls[id].host in s.slots)
  }

  // Calls inside a slot and occupied lanes correspond one to one.

  ghost predicate CallHasLane(cfg: Config, s: State, h: History, id: nat)
    requires LanesFit(cfg, s, h) && id < |s.calls|
  {
    InSlot(s.calls[id].phase) ==>
      h.laneOf[id] < cfg.capacity && h.lanes[s.calls[id].host][h.laneOf[id]] == Some(id)
  }

  ghost predicate LaneHasCall(cfg: Config, s: State, h: History, x: Host, l: nat)
    requires LanesFit(cfg, s, h) && x in h.lanes && l < cfg.capacity
  {
    h.lanes[x][l].Some? ==>
      var id := h.lanes[x][l].value;
      id < |s.calls| && InSlot(s.calls[id].phase) && s.calls[id].host == x && h.laneOf[id] == l
  }

  ghost predicate LanesMatch(cfg: Config, s: State, h: History)
    requires LanesFit(cfg, s, h)
  {
    && (forall id :: 0 <= id < |s.calls| ==> CallHasLane(cfg, s, h, id))
    && (forall x, l: nat :: x in h.lanes && l < cfg.capacity ==> LaneHasCall(cfg, s, h, x, l))
  }

  ghost predicate InLane(e: Entry, x: Host, l: nat) {
    e.host == x && e.lane == l
  }

  // Everything that happened in the lane is covered by the host's latest release.
  ghost predicate Quiet(log: seq<Entry>, x: Host, l: nat, last: Option<int>) {
    forall i :: 0 <= i < |log| && InLane(log[i], x, l) ==> last.Some? && log[i].at <= last.value
  }

  ghost predicate Before(log: seq<Entry>, x: Host, l: nat, limit: int) {
    forall i :: 0 <= i < |log| && InLane(log[i], x, l) ==> log[i].at <= limit
  }

  ghost predicate LaneClock(cfg: Config, log: seq<Entry>, x: Host, l: nat, last: Option<int>, phase: Phase) {
    match phase
    case Sleeping(until) => Before(log, x, l, until - cfg.minDelay)
    case Granted => true
    case _ => Quiet(log, x, l, last)
  }

  // A free lane is as quiet as one whose holder has stamped.
  function LanePhase(s: State, h: History, x: Host, l: nat): Phase
    requires x in h.lanes && l < |h.lanes[x]|
  {
    match h.lanes[x][l]
    case None => Stamped
    case Some(id) => if id < |s.calls| then s.calls[id].phase else Stamped
  }

  // The stored time is that of the host's latest release.
  ghost predicate HostOnTime(s: State, h: History, x: Host)
    requires x in s.slots
  {
    s.slots[x].lastSend == LastRelease(h.log, x)
  }

  ghost predicate LaneOnTime(cfg: Config, s: State, h: History, x: Host, l: nat)
    requires LanesFit(cfg, s, h) && x in h.lanes && l < cfg.capacity
  {
    LaneClock(cfg, h.log, x, l, s.slots[x].lastSend, LanePhase(s, h, x, l))
  }

  ghost predicate Clocks(cfg: Config, s: State, h: History)
    requires LanesFit(cfg, s, h)
  {
    && (forall x :: x in s.slots ==> HostOnTime(s, h, x))
    && (forall x, l: nat :: x in h.lanes && l < cfg.capacity ==> LaneOnTime(cfg, s, h, x, l))
  }

  ghost predicate LogFits(cfg: Config, s: State, log: seq<Entry>) {
    && (forall i :: 0 <= i < |log| ==> log[i].at <= s.now && log[i].host in s.slots && log[i].lane < cfg.capacity)
    && (forall i, j :: 0 <= i < j < |log| ==> log[i].at <= log[j].at)
  }

  /** Each grant comes at least minDelay after everything earlier in its lane. */
  ghost predicate LaneGaps(cfg: Config, log: seq<Entry>) {
    forall i, j :: 0 <= i < j < |log| && log[j].Grant? && InLane(log[i], log[j].host, log[j].lane) ==>
      log[i].at + cfg.minDelay <= log[j].at
  }

  ghost predicate Lanes(cfg: Config, s: State, h: History) {
    LanesFit(cfg, s, h) && LanesMatch(cfg, s, h)
  }

  ghost predicate Timing(cfg: Config, s: State, h: History)
    requires LanesFit(cfg, s, h)
  {
    Clocks(cfg, s, h) && LogFits(cfg, s, h.log) && LaneGaps(cfg, h.log)
  }

  ghost predicate Inv(cfg: Config, s: State, h: History) {
    Lanes(cfg, s, h) && Timing(cfg, s, h)
  }
}
