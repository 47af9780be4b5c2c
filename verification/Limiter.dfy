/** The per-host limiter: what its critical sections do to a slot, as functions, and the
    protocol of concurrent Acquire and release calls as a machine over their atomic steps.
    Times are in nanoseconds. */
module Limiter {
  import opened Durations
  import opened Wrappers

  type Host = string

  datatype Config = Config(capacity: nat, minDelay: int)

  // A slot: tokens in the semaphore channel, and the time of the latest release.
  datatype Slot = Slot(inUse: nat, lastSend: Option<int>)

  const NEW_SLOT := Slot(0, None)
  const JITTER_MS: nat := 500

  datatype Verdict = Proceed | Wait(delay: int)

  /** The check made under the lock. The zero time is further back than any delay. */
  function CheckDelay(cfg: Config, slot: Slot, now: int, jitterMs: nat): (v: Verdict)
    ensures v.Proceed? <==> slot.lastSend.None? || now >= slot.lastSend.value + cfg.minDelay
    ensures v.Wait? ==>
              var due := slot.lastSend.value + cfg.minDelay;
              due <= now + v.delay <= due + jitterMs * MILLISECOND
  {
    match slot.lastSend
    case None => Proceed
    case Some(last) =>
      var since := now - last;
      if since < cfg.minDelay then Wait(cfg.minDelay - since + jitterMs * MILLISECOND) else Proceed
  }

  // A token goes out, a release is stamped, the token comes back.

  function AfterSend(slot: Slot): Slot {
    slot.(inUse := slot.inUse + 1)
  }

  function AfterStamp(slot: Slot, now: int): Slot {
    slot.(lastSend := Some(now))
  }

  function AfterReceive(slot: Slot): Slot
    requires slot.inUse > 0
  {
    slot.(inUse := slot.inUse - 1)
  }

  // ------------------------------------------------------------------ the protocol

  // Where one Acquire/release pair stands: asked for, slot looked up, token sent,
  // asleep, returned to the caller, time stamped by release, token given back.
  datatype Phase =
    | Started
    | Waiting
    | Holding
    | Sleeping(until: int)
    | Granted
    | Stamped
    | Finished

  datatype Call = Call(host: Host, phase: Phase)

  datatype State = State(now: int, slots: map<Host, Slot>, calls: seq<Call>)

  // Either a goroutine calls Acquire, or call `id` performs its next atomic step.
  datatype Action =
    | Arrive(host: Host)
    | Advance(id: nat, jitterMs: nat)

  datatype Event = Event(at: int, action: Action)

  function Move(s: State, id: nat, slot: Slot, phase: Phase): State
    requires id < |s.calls|
  {
    var c := s.calls[id];
    s.(slots := s.slots[c.host := slot], calls := s.calls[id := c.(phase := phase)])
  }

  /** The next atomic step of one call; None while it is blocked or finished. */
  function AdvanceCall(cfg: Config, s: State, id: nat, jitterMs: nat): Option<State>
    requires id < |s.calls|
  {
    var c := s.calls[id];
    var slot := if c.host in s.slots then s.slots[c.host] else NEW_SLOT;
    match c.phase
    case Started => Some(Move(s, id, slot, Waiting))
    case Waiting =>
      if slot.inUse < cfg.capacity then Some(Move(s, id, AfterSend(slot), Holding)) else None
    case Holding =>
      (match CheckDelay(cfg, slot, s.now, jitterMs)
       case Proceed => Some(Move(s, id, slot, Granted))
       case Wait(d) => Some(Move(s, id, slot, Sleeping(s.now + d))))
    case Sleeping(until) => if s.now >= until then Some(Move(s, id, slot, Granted)) else None
    case Granted => Some(Move(s, id, AfterStamp(slot, s.now), Stamped))
    case Stamped => if slot.inUse > 0 then Some(Move(s, id, AfterReceive(slot), Finished)) else None
    case Finished => None
  }

  /** One event of the machine; the clock never goes back. */
  function Step(cfg: Config, s: State, e: Event): Option<State> {
    if e.at < s.now then None
    else
      match e.action
      case Arrive(host) => Some(s.(now := e.at, calls := s.calls + [Call(host, Started)]))
      case Advance(id, jitterMs) =>
        if id < |s.calls| && jitterMs < JITTER_MS then AdvanceCall(cfg, s.(now := e.at), id, jitterMs) else None
  }

  const INITIAL := State(0, map[], [])

  predicate InSlot(p: Phase) {
    p.Holding? || p.Sleeping? || p.Granted? || p.Stamped?
  }

  /** Calls of one host between their send and their receive. */
  function Holders(calls: seq<Call>, host: Host): nat {
    if calls == [] then 0
    else
      var last := calls[|calls| - 1];
      Holders(calls[..|calls| - 1], host) + if last.host == host && InSlot(last.phase) then 1 else 0
  }
}
