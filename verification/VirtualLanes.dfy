/** Lanes: an occupant holds one of a fixed number of lanes while it is inside, and leaves
    marks in it. When the marks of each lane are spaced, few of them fit in a window. */
module VirtualLanes {
  import opened Sequences
  import opened Wrappers

  function EmptyLanes(capacity: nat): (lanes: seq<Option<nat>>)
    ensures |lanes| == capacity && forall l :: 0 <= l < capacity ==> lanes[l] == None
  {
    seq(capacity, _ => None)
  }

  function InUse(lanes: seq<Option<nat>>): nat {
    if lanes == [] then 0
    else InUse(lanes[..|lanes| - 1]) + if lanes[|lanes| - 1].Some? then 1 else 0
  }

  // The last free lane, or 0 when there is none.
  function FreeLane(lanes: seq<Option<nat>>): nat {
    if lanes == [] then 0
    else if lanes[|lanes| - 1].None? then |lanes| - 1
    else FreeLane(lanes[..|lanes| - 1])
  }

  lemma {:induction false} FreeLaneIsFree(lanes: seq<Option<nat>>)
    requires InUse(lanes) < |lanes|
    ensures FreeLane(lanes) < |lanes| && lanes[FreeLane(lanes)] == None
  {
    if lanes[|lanes| - 1].Some? {
      FreeLaneIsFree(lanes[..|lanes| - 1]);
    }
  }

  lemma {:induction false} InUseUpdate(lanes: seq<Option<nat>>, l: nat, v: Option<nat>)
    requires l < |lanes|
    ensures InUse(lanes[l := v]) == InUse(lanes) - (if lanes[l].Some? then 1 else 0) + if v.Some? then 1 else 0
  {
    var n := |lanes| - 1;
    if l < n {
      assert lanes[l := v][..n] == lanes[..n][l := v];
      InUseUpdate(lanes[..n], l, v);
    } else {
      assert lanes[l := v][..n] == lanes[..n];
    }
  }

  lemma {:induction false} InUseOfEmpty(lanes: seq<Option<nat>>)
    requires forall l :: 0 <= l < |lanes| ==> lanes[l] == None
    ensures InUse(lanes) == 0
  {
    if lanes != [] {
      InUseOfEmpty(lanes[..|lanes| - 1]);
    }
  }

  // -------------------------------------------------------------- marks in a window

  datatype Mark = Mark(at: int, lane: nat)

  function Times(marks: seq<Mark>): (times: seq<int>)
    ensures |times| == |marks| && forall i :: 0 <= i < |times| ==> times[i] == marks[i].at
  {
    seq(|marks|, i requires 0 <= i < |marks| => marks[i].at)
  }

  /** Each mark comes at least `gap` after everything earlier in its lane. */
  ghost predicate Rested(marks: seq<Mark>, gap: int) {
    forall i, j :: 0 <= i < j < |marks| && marks[i].lane == marks[j].lane ==> marks[i].at + gap <= marks[j].at
  }

  function LaneTimes(marks: seq<Mark>, l: nat): seq<int> {
    if marks == [] then []
    else if marks[|marks| - 1].lane == l then LaneTimes(marks[..|marks| - 1], l) + [marks[|marks| - 1].at]
    else LaneTimes(marks[..|marks| - 1], l)
  }

  lemma {:induction false} LaneTimesAreSpaced(marks: seq<Mark>, gap: int, l: nat)
    requires Rested(marks, gap)
    ensures Spaced(LaneTimes(marks, l), gap)
    ensures forall t :: t in LaneTimes(marks, l) ==> Mark(t, l) in marks
  {
    if marks != [] {
      var n := |marks| - 1;
      var times := LaneTimes(marks[..n], l);
      LaneTimesAreSpaced(marks[..n], gap, l);
      if marks[n].lane == l {
        forall k | 0 <= k < |times| ensures times[k] + gap <= marks[n].at {
          assert Mark(times[k], l) in marks[..n];
        }
      }
    }
  }

  function SumLanes(marks: seq<Mark>, from: int, to: int, lanes: nat): nat {
    if lanes == 0 then 0
    else SumLanes(marks, from, to, lanes - 1) + CountWithin(LaneTimes(marks, lanes - 1), from, to)
  }

  lemma CountWithinSnoc(times: seq<int>, t: int, from: int, to: int)
    ensures CountWithin(times + [t], from, to) == CountWithin(times, from, to) + if from <= t <= to then 1 else 0
  {
    assert (times + [t])[..|times|] == times;
  }

  lemma {:induction false} SumLanesStep(marks: seq<Mark>, from: int, to: int, lanes: nat)
    requires marks != []
    ensures var m := marks[|marks| - 1];
      SumLanes(marks, from, to, lanes) == SumLanes(marks[..|marks| - 1], from, to, lanes)
        + if m.lane < lanes && from <= m.at <= to then 1 else 0
  {
    if lanes > 0 {
      SumLanesStep(marks, from, to, lanes - 1);
      CountWithinSnoc(LaneTimes(marks[..|marks| - 1], lanes - 1), marks[|marks| - 1].at, from, to);
    }
  }

  lemma {:induction false} SumLanesOfNone(from: int, to: int, lanes: nat)
    ensures SumLanes([], from, to, lanes) == 0
  {
    if lanes > 0 {
      SumLanesOfNone(from, to, lanes - 1);
    }
  }

  lemma {:induction false} MarksAreSummedByLane(marks: seq<Mark>, from: int, to: int, lanes: nat)
    requires forall i :: 0 <= i < |marks| ==> marks[i].lane < lanes
    ensures CountWithin(Times(marks), from, to) == SumLanes(marks, from, to, lanes)
  {
    if marks == [] {
      SumLanesOfNone(from, to, lanes);
    } else {
      var n := |marks| - 1;
      MarksAreSummedByLane(marks[..n], from, to, lanes);
      SumLanesStep(marks, from, to, lanes);
      assert Times(marks)[..n] == Times(marks[..n]);
    }
  }

  lemma {:induction false} SumLanesBound(marks: seq<Mark>, gap: int, from: int, length: nat, lanes: nat)
    requires Rested(marks, gap) && gap > 0
    ensures SumLanes(marks, from, from + length, lanes) <= lanes * (length / gap + 1)
  {
    if lanes > 0 {
      SumLanesBound(marks, gap, from, length, lanes - 1);
      LaneTimesAreSpaced(marks, gap, lanes - 1);
      SpacedCount(LaneTimes(marks, lanes - 1), gap, from, length);
      var b := length / gap + 1;
      assert lanes * b == (lanes - 1) * b + b;
    }
  }

  /** At most one mark per lane and per started gap falls in a closed window. */
  lemma MarksInWindow(marks: seq<Mark>, gap: int, from: int, length: nat, lanes: nat)
    requires Rested(marks, gap) && gap > 0
    requires forall i :: 0 <= i < |marks| ==> marks[i].lane < lanes
    ensures CountWithin(Times(marks), from, from + length) <= lanes * (length / gap + 1)
  {
    MarksAreSummedByLane(marks, from, from + length, lanes);
    SumLanesBound(marks, gap, from, length, lanes);
  }
}
