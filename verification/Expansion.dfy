/** Whole runs of gap expansion against an arbitrary server. A run is described by
    position: the thread after k merged rounds, the IDs asked for in each call, and
    where and why the run stops. */
module Expansion {
  import opened Sequences
  import opened RedditTypes
  import opened GapQueue

  // A server that has stopped answering fails every further fetch.
  function AnswerAt(answers: seq<Answer>, i: nat): Answer {
    if i < |answers| then answers[i] else FetchFailed
  }

  predicate EmptyAnswer(a: Answer) {
    a.Parsed? && a.comments == [] && a.gaps == []
  }

  /** The thread once the first k answers have been merged. */
  function After(t: Thread, answers: seq<Answer>, k: nat): Thread {
    if k == 0 then t
    else
      var before := After(t, answers, k - 1);
      match AnswerAt(answers, k - 1)
      case Parsed(newC, newG) => Round(before, newC, newG)
      case _ => before
  }

  function PendingAfter(t: Thread, answers: seq<Answer>, k: nat): seq<Id> {
    Pending(After(t, answers, k).gaps)
  }

  datatype Stop = NothingPending | RoundCap | FetchError | ParseError | EmptyReply

  // `calls` lists the IDs of every fetch made, including one that failed.
  datatype Run = Run(rounds: nat, calls: seq<seq<Id>>, stop: Stop)

  /** Round i is attempted: the cap allows it and IDs are pending. */
  predicate Attempted(t: Thread, answers: seq<Answer>, maxRounds: int, i: nat) {
    i < maxRounds && PendingAfter(t, answers, i) != []
  }

  predicate StopsFor(t: Thread, answers: seq<Answer>, maxRounds: int, rounds: nat, stop: Stop) {
    match stop
    case EmptyReply => rounds > 0 && EmptyAnswer(AnswerAt(answers, rounds - 1))
    case NothingPending => rounds < maxRounds && PendingAfter(t, answers, rounds) == []
    case RoundCap => maxRounds <= rounds
    case FetchError => Attempted(t, answers, maxRounds, rounds) && AnswerAt(answers, rounds).FetchFailed?
    case ParseError => Attempted(t, answers, maxRounds, rounds) && AnswerAt(answers, rounds).ParseFailed?
  }

  function FailedCalls(stop: Stop): nat {
    if stop == FetchError || stop == ParseError then 1 else 0
  }

  predicate IsRun(t: Thread, answers: seq<Answer>, maxRounds: int, r: Run) {
    && (forall i :: 0 <= i < r.rounds ==> Attempted(t, answers, maxRounds, i) && AnswerAt(answers, i).Parsed?)
    && (forall i :: 0 <= i < r.rounds ==>
          (EmptyAnswer(AnswerAt(answers, i)) <==> i == r.rounds - 1 && r.stop == EmptyReply))
    && StopsFor(t, answers, maxRounds, r.rounds, r.stop)
    && |r.calls| == r.rounds + FailedCalls(r.stop)
    && forall i :: 0 <= i < |r.calls| ==> r.calls[i] == BatchIds(After(t, answers, i).gaps)
  }

  // How the round loop builds its run; the cap is reached so far, and one more round
  // either ends the run or extends it.

  lemma RunStart(t: Thread, answers: seq<Answer>)
    ensures After(t, answers, 0) == t
    ensures IsRun(t, answers, 0, Run(0, [], RoundCap))
  {
  }

  lemma RunEnd(t: Thread, answers: seq<Answer>, maxRounds: int, k: nat, calls: seq<seq<Id>>)
    requires IsRun(t, answers, k, Run(k, calls, RoundCap)) && (k == maxRounds || (k == 0 && maxRounds < 0))
    ensures IsRun(t, answers, maxRounds, Run(k, calls, RoundCap))
  {
  }

  lemma RunStep(t: Thread, answers: seq<Answer>, maxRounds: int, k: nat, calls: seq<seq<Id>>)
    requires IsRun(t, answers, k, Run(k, calls, RoundCap)) && k < maxRounds
    ensures var ids := BatchIds(After(t, answers, k).gaps);
      if ids == [] then IsRun(t, answers, maxRounds, Run(k, calls, NothingPending))
      else match AnswerAt(answers, k)
        case FetchFailed => IsRun(t, answers, maxRounds, Run(k, calls + [ids], FetchError))
        case ParseFailed => IsRun(t, answers, maxRounds, Run(k, calls + [ids], ParseError))
        case Parsed(newC, newG) =>
          if newC == [] && newG == []
          then IsRun(t, answers, maxRounds, Run(k + 1, calls + [ids], EmptyReply))
          else IsRun(t, answers, k + 1, Run(k + 1, calls + [ids], RoundCap))
  {
    hide After, Pending, BatchIds, AnswerAt;
    BatchEmpty(After(t, answers, k).gaps);
    CapRaised(t, answers, maxRounds, k);
    CapRaised(t, answers, k + 1, k);
  }

  lemma CapRaised(t: Thread, answers: seq<Answer>, cap: int, k: nat)
    requires k < cap && forall i :: 0 <= i < k ==> Attempted(t, answers, k, i)
    ensures forall i :: 0 <= i < k ==> Attempted(t, answers, cap, i)
    ensures PendingAfter(t, answers, k) != [] ==> Attempted(t, answers, cap, k)
  {
    forall i | 0 <= i < k ensures Attempted(t, answers, cap, i) {
      assert Attempted(t, answers, k, i);
    }
  }

  lemma AfterMerge(t: Thread, answers: seq<Answer>, k: nat)
    requires AnswerAt(answers, k).Parsed?
    ensures var a := AnswerAt(answers, k);
      After(t, answers, k + 1) == Round(After(t, answers, k), a.comments, a.gaps)
  {
    hide Round;
  }

  ghost predicate SomePending(gaps: seq<Gap>) {
    exists i :: 0 <= i < |gaps| && gaps[i].kind == More && gaps[i].children != []
  }

  /** What a run is, read off the thread and the answers: every round but the last brought
      something, and had a "more" gap with children to ask about under the cap; the stop
      reason is the first that applies; each call asks for the first 100 children. */
  lemma RunReads(t: Thread, answers: seq<Answer>, maxRounds: int, r: Run)
    requires IsRun(t, answers, maxRounds, r)
    ensures r.rounds <= |answers|
    ensures forall i :: 0 <= i < |r.calls| ==>
              && i < maxRounds && SomePending(After(t, answers, i).gaps)
              && exists used :: IsBatch(After(t, answers, i).gaps, r.calls[i], used)
    ensures forall i :: 0 <= i < r.rounds ==> answers[i].Parsed? && (answers[i] == Parsed([], []) ==> i == r.rounds - 1)
    ensures match r.stop
      case EmptyReply => 0 < r.rounds == |r.calls| && answers[r.rounds - 1] == Parsed([], [])
      case NothingPending => |r.calls| == r.rounds < maxRounds && !SomePending(After(t, answers, r.rounds).gaps)
      case RoundCap => |r.calls| == r.rounds && r.rounds == if maxRounds < 0 then 0 else maxRounds
      case FetchError => |r.calls| == r.rounds + 1 && (r.rounds < |answers| ==> answers[r.rounds] == FetchFailed)
      case ParseError => |r.calls| == r.rounds + 1 && r.rounds < |answers| && answers[r.rounds] == ParseFailed
    ensures r.stop != EmptyReply && r.rounds > 0 ==> answers[r.rounds - 1] != Parsed([], [])
  {
    hide After, Pending, BatchIds, IsBatch;
    forall i | 0 <= i < r.rounds
      ensures AnswerAt(answers, i).Parsed? && i < |answers| && i < maxRounds
      ensures answers[i] == Parsed([], []) ==> i == r.rounds - 1
    {
      assert Attempted(t, answers, maxRounds, i);
      assert EmptyAnswer(AnswerAt(answers, i)) <==> i == r.rounds - 1 && r.stop == EmptyReply;
    }
    forall i | 0 <= i < |r.calls|
      ensures i < maxRounds && SomePending(After(t, answers, i).gaps)
      ensures exists used :: IsBatch(After(t, answers, i).gaps, r.calls[i], used)
    {
      assert Attempted(t, answers, maxRounds, i);
      NothingPendingMeans(After(t, answers, i).gaps);
      BatchIsHead(After(t, answers, i).gaps);
    }
    NothingPendingMeans(After(t, answers, r.rounds).gaps);
    if r.rounds > 0 {
      assert EmptyAnswer(AnswerAt(answers, r.rounds - 1)) <==> r.stop == EmptyReply;
    }
  }

  /** The "continue" markers announced by the first k answers. */
  function AnnouncedContinues(answers: seq<Answer>, k: nat): seq<Gap> {
    if k == 0 then []
    else
      AnnouncedContinues(answers, k - 1)
      + match AnswerAt(answers, k - 1)
        case Parsed(_, newG) => Continues(newG)
        case _ => []
  }

  /** No round loses, changes or reorders a "continue" marker. */
  lemma {:induction false} ContinuesStay(t: Thread, answers: seq<Answer>, k: nat)
    ensures Continues(After(t, answers, k).gaps) == Continues(t.gaps) + AnnouncedContinues(answers, k)
  {
    hide Round, Continues;
    if k > 0 {
      ContinuesStay(t, answers, k - 1);
      match AnswerAt(answers, k - 1) {
        case Parsed(newC, newG) => RoundKeepsContinues(After(t, answers, k - 1), newC, newG);
        case _ =>
      }
    }
  }

  /** The description leaves no choice: a thread, a server and a cap have one run. */
  lemma RunIsDetermined(t: Thread, answers: seq<Answer>, maxRounds: int, r: Run, r': Run)
    requires IsRun(t, answers, maxRounds, r) && IsRun(t, answers, maxRounds, r')
    ensures r == r'
  {
    StopsNoLater(t, answers, maxRounds, r, r');
    StopsNoLater(t, answers, maxRounds, r', r);
    assert r.stop == r'.stop;
    assert r.calls == r'.calls;
  }

  lemma RunsPast(t: Thread, answers: seq<Answer>, maxRounds: int, r: Run, i: nat, stop: Stop)
    requires IsRun(t, answers, maxRounds, r) && i < r.rounds && stop != EmptyReply
    ensures !StopsFor(t, answers, maxRounds, i, stop)
  {
    assert Attempted(t, answers, maxRounds, i);
  }

  lemma StopsNoLater(t: Thread, answers: seq<Answer>, maxRounds: int, r: Run, r': Run)
    requires IsRun(t, answers, maxRounds, r) && IsRun(t, answers, maxRounds, r')
    ensures r.rounds <= r'.rounds
  {
    if r'.rounds < r.rounds {
      if r'.stop != EmptyReply {
        RunsPast(t, answers, maxRounds, r, r'.rounds, r'.stop);
      }
      assert false;
    }
  }

  // -------------------------------------------------------------------- the ledger

  /** IDs announced by the first k answers, in order. */
  function Announced(answers: seq<Answer>, k: nat): seq<Id> {
    if k == 0 then []
    else
      Announced(answers, k - 1)
      + match AnswerAt(answers, k - 1)
        case Parsed(_, newG) => Pending(newG)
        case _ => []
  }

  /** IDs asked for in the first k rounds, in order. */
  function Requested(t: Thread, answers: seq<Answer>, k: nat): seq<Id> {
    if k == 0 then [] else Requested(t, answers, k - 1) + BatchIds(After(t, answers, k - 1).gaps)
  }

  ghost predicate AllParsed(answers: seq<Answer>, k: nat) {
    forall i :: 0 <= i < k ==> AnswerAt(answers, i).Parsed?
  }

  /** Everything ever announced is a queue; rounds move its head from "pending" to
      "requested" and never reorder, lose or repeat an ID. */
  lemma {:induction false} Ledger(t: Thread, answers: seq<Answer>, k: nat)
    requires AllParsed(answers, k)
    requires Distinct(Pending(t.gaps) + Announced(answers, k))
    ensures Requested(t, answers, k) + PendingAfter(t, answers, k) == Pending(t.gaps) + Announced(answers, k)
  {
    hide Round, Pending;
    if k > 0 {
      var known := Pending(t.gaps) + Announced(answers, k - 1);
      var newG := AnswerAt(answers, k - 1).gaps;
      assert Pending(t.gaps) + Announced(answers, k) == known + Pending(newG);
      DistinctParts(known, Pending(newG));
      Ledger(t, answers, k - 1);
      var before := After(t, answers, k - 1);
      DistinctParts(Requested(t, answers, k - 1), Pending(before.gaps));
      RoundIsDequeueEnqueue(before, AnswerAt(answers, k - 1).comments, newG);
      SplitAndJoin(Requested(t, answers, k - 1), Pending(before.gaps), |BatchIds(before.gaps)|, Pending(newG));
    }
  }

  lemma SplitAndJoin(a: seq<Id>, b: seq<Id>, h: nat, c: seq<Id>)
    requires h <= |b|
    ensures (a + b[..h]) + (b[h..] + c) == (a + b) + c
  {
  }

  lemma {:induction false} RequestedAtMost(t: Thread, answers: seq<Answer>, k: nat)
    ensures |Requested(t, answers, k)| <= MAX_BATCH * k
  {
    hide Round;
    if k > 0 {
      RequestedAtMost(t, answers, k - 1);
      var gaps := After(t, answers, k - 1).gaps;
      assert |BatchIds(gaps)| <= MAX_BATCH;
    }
  }

  lemma FlattenStep(calls: seq<seq<Id>>, k: nat)
    requires k < |calls|
    ensures Flatten(calls[..k + 1]) == Flatten(calls[..k]) + calls[k]
  {
    assert calls[..k + 1][..k] == calls[..k];
  }

  lemma {:induction false} RequestedIsFlattenedCalls(t: Thread, answers: seq<Answer>, calls: seq<seq<Id>>, k: nat)
    requires k <= |calls|
    requires forall i :: 0 <= i < k ==> calls[i] == BatchIds(After(t, answers, i).gaps)
    ensures Flatten(calls[..k]) == Requested(t, answers, k)
  {
    hide After, BatchIds;
    if k > 0 {
      RequestedIsFlattenedCalls(t, answers, calls, k - 1);
      var gaps := After(t, answers, k - 1).gaps;
      assert calls[k - 1] == BatchIds(gaps);
      FlattenStep(calls, k - 1);
    }
  }

  /** At exit every announced ID is in exactly one of "requested in a merged round" and
      "still pending", in announcement order and none twice, if and only if the server
      announced every ID once. */
  lemma RunLedger(t: Thread, answers: seq<Answer>, maxRounds: int, r: Run)
    requires IsRun(t, answers, maxRounds, r)
    ensures var requested, pending := Flatten(r.calls[..r.rounds]), PendingAfter(t, answers, r.rounds);
      var announced := Pending(t.gaps) + Announced(answers, r.rounds);
      && (Distinct(announced) <==>
            && requested + pending == announced
            && Distinct(requested) && Distinct(pending) && Elements(requested) !! Elements(pending))
      && |requested| <= 100 * r.rounds
  {
    hide Pending, BatchIds, After, Announced, Requested;
    RequestedIsFlattenedCalls(t, answers, r.calls, r.rounds);
    RequestedAtMost(t, answers, r.rounds);
    var requested, pending := Requested(t, answers, r.rounds), PendingAfter(t, answers, r.rounds);
    if Distinct(Pending(t.gaps) + Announced(answers, r.rounds)) {
      Ledger(t, answers, r.rounds);
      DistinctParts(requested, pending);
    } else if Distinct(requested) && Distinct(pending) && Elements(requested) !! Elements(pending) {
      DistinctJoin(requested, pending);
    }
  }

  /** One successful round neither loses nor invents an ID. */
  lemma RoundLosesNothing(t: Thread, newC: seq<Comment>, newG: seq<Gap>)
    ensures Elements(BatchIds(t.gaps)) + Elements(Pending(Round(t, newC, newG).gaps))
         == Elements(Pending(t.gaps)) + Elements(Pending(newG))
  {
    RoundProgress(t, newC, newG);
    var struck := StrikeAt(t.gaps, Elements(BatchIds(t.gaps)), UsedGaps(t.gaps, |t.gaps|));
    var carried := Pending(Surviving(struck));
    SubMultisetElements(carried, Pending(t.gaps));
    ElementsOfConcat(carried, Pending(newG));
    assert Elements(BatchIds(t.gaps)) <= Elements(Pending(t.gaps));
  }

  lemma {:induction false} NothingIsLostAfter(t: Thread, answers: seq<Answer>, k: nat)
    requires AllParsed(answers, k)
    ensures Elements(Requested(t, answers, k)) + Elements(PendingAfter(t, answers, k))
         == Elements(Pending(t.gaps)) + Elements(Announced(answers, k))
  {
    hide Round, Pending, BatchIds;
    if k > 0 {
      NothingIsLostAfter(t, answers, k - 1);
      var before := After(t, answers, k - 1);
      var newC, newG := AnswerAt(answers, k - 1).comments, AnswerAt(answers, k - 1).gaps;
      RoundLosesNothing(before, newC, newG);
      ElementsOfConcat(Requested(t, answers, k - 1), BatchIds(before.gaps));
      ElementsOfConcat(Announced(answers, k - 1), Pending(newG));
    }
  }

  lemma SubMultisetElements(a: seq<Id>, b: seq<Id>)
    requires multiset(a) <= multiset(b)
    ensures Elements(a) <= Elements(b)
  {
    forall x | x in a ensures x in b {
      assert x in multiset(a);
    }
  }

  /** With no assumption on the server: no announced ID is lost and none is invented. */
  lemma NothingIsLost(t: Thread, answers: seq<Answer>, maxRounds: int, r: Run)
    requires IsRun(t, answers, maxRounds, r)
    ensures Elements(Flatten(r.calls[..r.rounds])) + Elements(PendingAfter(t, answers, r.rounds))
         == Elements(Pending(t.gaps)) + Elements(Announced(answers, r.rounds))
  {
    RequestedIsFlattenedCalls(t, answers, r.calls, r.rounds);
    NothingIsLostAfter(t, answers, r.rounds);
  }

  /** For one: a server that announces an ID again after it was fetched gets asked for it
      again. */
  lemma AnnouncedAgainIsRequestedAgain(c: Comment, id: Id)
    ensures var g := Gap(More, c.id, 0, 1, [id]);
      Requested(Thread([], [g]), [Parsed([c], [g]), Parsed([c], [g])], 2) == [id, id]
  {
    var g := Gap(More, c.id, 0, 1, [id]);
    var t, answers := Thread([], [g]), [Parsed([c], [g]), Parsed([c], [g])];
    hide Round, Pending, Requested;
    SingletonPending(g);
    RoundIsDequeueEnqueue(t, [c], [g]);
    assert After(t, answers, 1) == Round(After(t, answers, 0), [c], [g]);
    FirstTwoRequests(t, answers, id);
  }

  lemma SingletonPending(g: Gap)
    ensures Pending([g]) == Waiting(g)
  {
    PendingSnoc([], g);
    assert [] + [g] == [g];
  }

  lemma FirstTwoRequests(t: Thread, answers: seq<Answer>, id: Id)
    requires PendingAfter(t, answers, 0) == [id] && PendingAfter(t, answers, 1) == [id]
    ensures Requested(t, answers, 2) == [id, id]
  {
    hide Round, Pending;
    assert BatchIds(After(t, answers, 0).gaps) == [id];
    assert BatchIds(After(t, answers, 1).gaps) == [id];
    assert Requested(t, answers, 1) == [id];
  }

  // ---------------------------------------------------------------------- comments

  /** All comments received in the first k answers. */
  function Received(answers: seq<Answer>, k: nat): seq<Comment> {
    if k == 0 then []
    else
      Received(answers, k - 1)
      + match AnswerAt(answers, k - 1)
        case Parsed(newC, _) => newC
        case _ => []
  }

  lemma {:induction false} CommentsAfter(t: Thread, answers: seq<Answer>, k: nat)
    ensures After(t, answers, k).comments == Extend(t.comments, Received(answers, k))
  {
    hide Extend, Pending, StrikeAt, UsedGaps, BatchIds, Surviving;
    if k == 0 {
      ExtendByNone(t.comments);
    } else {
      CommentsAfter(t, answers, k - 1);
      match AnswerAt(answers, k - 1) {
        case Parsed(newC, _) =>
          ExtendTwice(t.comments, Received(answers, k - 1), newC);
        case _ =>
          assert Received(answers, k) == Received(answers, k - 1);
      }
    }
  }

  /** The final comment list is the first-occurrence deduplication of the initial list
      followed by every merged answer; it starts with the initial list and keeps IDs
      distinct, and merging any received answer again would add nothing. */
  lemma RunComments(t: Thread, answers: seq<Answer>, k: nat)
    requires Distinct(IdSeq(t.comments))
    ensures var final := After(t, answers, k).comments;
      && final == Extend([], t.comments + Received(answers, k))
      && t.comments <= final
      && Distinct(IdSeq(final))
      && Extend(final, Received(answers, k)) == final
  {
    var received := Received(answers, k);
    CommentsAfter(t, answers, k);
    DistinctIsItsOwnExtension(t.comments);
    ExtendTwice([], t.comments, received);
    ExtendIds(t.comments, received);
    ExtendDistinct(t.comments, received);
    IdsOfConcat(t.comments, received);
    ExtendNothingNew(Extend(t.comments, received), received);
  }

  // ---------------------------------------------------------------- exit and coverage

  /** A run makes at most one call more than the rounds it reports, and exactly one more
      when a call failed; calls ask for 1 to 100 IDs and stay within the cap. */
  lemma RunCalls(t: Thread, answers: seq<Answer>, maxRounds: int, r: Run)
    requires IsRun(t, answers, maxRounds, r)
    ensures r.rounds <= |r.calls| <= r.rounds + 1
    ensures |r.calls| == r.rounds + 1 <==>
            Attempted(t, answers, maxRounds, r.rounds) && !AnswerAt(answers, r.rounds).Parsed? && r.stop != EmptyReply
    ensures maxRounds <= 0 ==> r.calls == []
    ensures maxRounds > 0 ==> |r.calls| <= maxRounds
    ensures forall i :: 0 <= i < |r.calls| ==> 1 <= |r.calls[i]| <= 100
  {
    hide Pending, After;
    forall i | 0 <= i < |r.calls| ensures 1 <= |r.calls[i]| <= MAX_BATCH && i < maxRounds {
      assert Attempted(t, answers, maxRounds, i);
      assert r.calls[i] == BatchIds(After(t, answers, i).gaps);
    }
    if |r.calls| > 0 {
      assert 1 <= |r.calls[|r.calls| - 1]|;
    }
  }

  lemma RunRequestsAtMost(t: Thread, answers: seq<Answer>, maxRounds: int, r: Run)
    requires IsRun(t, answers, maxRounds, r)
    ensures |Flatten(r.calls)| <= 100 * |r.calls|
  {
    hide After, Pending;
    RequestedIsFlattenedCalls(t, answers, r.calls, |r.calls|);
    assert r.calls[..|r.calls|] == r.calls;
    RequestedAtMost(t, answers, |r.calls|);
  }

  ghost predicate QuietServer(answers: seq<Answer>, k: nat) {
    forall i :: 0 <= i < k ==>
      AnswerAt(answers, i).Parsed? && !EmptyAnswer(AnswerAt(answers, i)) && Pending(AnswerAt(answers, i).gaps) == []
  }

  /** When no answer announces further IDs, k rounds take exactly the first 100k. */
  lemma {:induction false} DrainedAfter(t: Thread, answers: seq<Answer>, k: nat)
    requires Distinct(Pending(t.gaps)) && QuietServer(answers, k)
    ensures PendingAfter(t, answers, k) == Pending(t.gaps)[Min(MAX_BATCH * k, |Pending(t.gaps)|)..]
  {
    hide Round, Pending, BatchIds;
    if k > 0 {
      DrainedAfter(t, answers, k - 1);
      var all := Pending(t.gaps);
      var queue := PendingAfter(t, answers, k - 1);
      var taken := Min(MAX_BATCH * (k - 1), |all|);
      var last := AnswerAt(answers, k - 1);
      DropTwice(all, taken, k);
      DistinctParts(all[..taken], queue);
      assert last.Parsed? && Pending(last.gaps) == [];
      RoundIsDequeueEnqueue(After(t, answers, k - 1), last.comments, last.gaps);
    }
  }

  lemma DropTwice(all: seq<Id>, taken: nat, k: nat)
    requires k > 0 && taken == Min(MAX_BATCH * (k - 1), |all|)
    ensures all == all[..taken] + all[taken..]
    ensures var queue := all[taken..];
      queue[Min(MAX_BATCH, |queue|)..] + [] == all[Min(MAX_BATCH * k, |all|)..]
  {
  }

  /** Against such a server a run stops at the cap or with an empty queue. */
  lemma QuietRunStops(t: Thread, answers: seq<Answer>, maxRounds: nat, r: Run)
    requires IsRun(t, answers, maxRounds, r) && QuietServer(answers, maxRounds)
    ensures r.rounds <= maxRounds && QuietServer(answers, r.rounds)
    ensures r.rounds == maxRounds || PendingAfter(t, answers, r.rounds) == []
  {
    hide After, Pending, BatchIds, AnswerAt, EmptyAnswer;
    if r.rounds > 0 {
      assert Attempted(t, answers, maxRounds, r.rounds - 1);
    }
  }

  /** Then a run drains the queue exactly when the cap allows 100 IDs a round. */
  lemma RunDrains(t: Thread, answers: seq<Answer>, maxRounds: nat, r: Run)
    requires IsRun(t, answers, maxRounds, r)
    requires Distinct(Pending(t.gaps)) && QuietServer(answers, maxRounds)
    ensures PendingAfter(t, answers, r.rounds) == [] <==> |Pending(t.gaps)| <= 100 * maxRounds
    ensures |PendingAfter(t, answers, r.rounds)| == if |Pending(t.gaps)| <= 100 * maxRounds then 0
                                                    else |Pending(t.gaps)| - 100 * maxRounds
  {
    hide IsRun, QuietServer, PendingAfter, Pending;
    QuietRunStops(t, answers, maxRounds, r);
    DrainedAfter(t, answers, r.rounds);
  }

  /** Duplicated IDs only make the queue drain faster. */
  lemma {:induction false} DrainedAtLeast(t: Thread, answers: seq<Answer>, k: nat)
    requires QuietServer(answers, k)
    ensures |PendingAfter(t, answers, k)| <= |Pending(t.gaps)| - Min(MAX_BATCH * k, |Pending(t.gaps)|)
  {
    hide Round, Pending;
    if k > 0 {
      DrainedAtLeast(t, answers, k - 1);
      var last := AnswerAt(answers, k - 1);
      assert last.Parsed? && Pending(last.gaps) == [];
      RoundProgress(After(t, answers, k - 1), last.comments, last.gaps);
    }
  }
}
