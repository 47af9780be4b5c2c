/** The gap list of a thread seen as a queue of pending child IDs: what one expansion
    round requests and what merging its answer does, as functions on values, and the
    laws those functions obey for every thread and every answer. */
module GapQueue {
  import opened Sequences
  import opened RedditTypes

  const MAX_BATCH: nat := 100

  predicate Usable(g: Gap) {
    g.kind == More && g.children != []
  }

  /** The IDs a gap contributes to the queue. */
  function Waiting(g: Gap): seq<Id> {
    if g.kind == More then g.children else []
  }

  /** Child IDs still waiting to be requested, in gap-list order. */
  function Pending(gaps: seq<Gap>): seq<Id> {
    if gaps == [] then [] else Pending(gaps[..|gaps| - 1]) + Waiting(gaps[|gaps| - 1])
  }

  /** A round asks for the oldest pending IDs, at most MAX_BATCH of them. */
  function BatchIds(gaps: seq<Gap>): seq<Id> {
    var pending := Pending(gaps);
    pending[..Min(MAX_BATCH, |pending|)]
  }

  /** A gap takes part in the round when it has children and the gaps before it
      do not already fill the batch. */
  predicate TakesPart(gaps: seq<Gap>, i: nat)
    requires i < |gaps|
  {
    Usable(gaps[i]) && |Pending(gaps[..i])| < MAX_BATCH
  }

  /** Indices of the gaps that take part, in order. */
  function UsedGaps(gaps: seq<Gap>, n: nat): seq<nat>
    requires n <= |gaps|
  {
    if n == 0 then []
    else if TakesPart(gaps, n - 1) then UsedGaps(gaps, n - 1) + [n - 1]
    else UsedGaps(gaps, n - 1)
  }

  /** A gap after the fulfilled IDs are struck from it. */
  function Strike(g: Gap, fulfilled: set<Id>): Gap {
    var left := Without(g.children, fulfilled);
    g.(children := left, count := |left|)
  }

  /** Only the named gaps are struck; an index beyond the list names nothing. */
  function StrikeAt(gaps: seq<Gap>, fulfilled: set<Id>, used: seq<nat>): (r: seq<Gap>)
    ensures |r| == |gaps|
    ensures forall i :: 0 <= i < |r| ==> r[i] == if i in used then Strike(gaps[i], fulfilled) else gaps[i]
  {
    seq(|gaps|, i requires 0 <= i < |gaps| => if i in used then Strike(gaps[i], fulfilled) else gaps[i])
  }

  lemma StrikeAtNone(gaps: seq<Gap>, fulfilled: set<Id>)
    ensures StrikeAt(gaps, fulfilled, []) == gaps
  {
  }

  /** Striking one more index, which may repeat an earlier one or lie beyond the list. */
  lemma StrikeAtStep(gaps: seq<Gap>, fulfilled: set<Id>, used: seq<nat>, k: nat)
    requires k < |used|
    ensures var done := StrikeAt(gaps, fulfilled, used[..k]);
      StrikeAt(gaps, fulfilled, used[..k + 1])
      == if used[k] < |gaps| then done[used[k] := Strike(done[used[k]], fulfilled)] else done
  {
    assert used[..k + 1] == used[..k] + [used[k]];
    if used[k] < |gaps| {
      WithoutTwice(gaps[used[k]].children, fulfilled);
    }
  }

  predicate Emptied(g: Gap) {
    g.kind == More && g.children == []
  }

  /** The gap list without its emptied "more" markers. */
  function Surviving(gaps: seq<Gap>): seq<Gap> {
    if gaps == [] then []
    else
      var kept := Surviving(gaps[..|gaps| - 1]);
      if Emptied(gaps[|gaps| - 1]) then kept else kept + [gaps[|gaps| - 1]]
  }

  /** `base` followed by the members of `more` whose ID has not occurred earlier,
      neither in `base` nor in `more`. */
  function Extend(base: seq<Comment>, more: seq<Comment>): seq<Comment> {
    if more == [] then base
    else
      var before := more[..|more| - 1];
      var c := more[|more| - 1];
      if c.id in Ids(base + before) then Extend(base, before) else Extend(base, before) + [c]
  }

  function Merge(t: Thread, newC: seq<Comment>, newG: seq<Gap>, requested: seq<Id>, used: seq<nat>): Thread {
    Thread(
      Extend(t.comments, newC),
      Surviving(StrikeAt(t.gaps, Elements(requested), used)) + newG)
  }

  /** One successful round. */
  function Round(t: Thread, newC: seq<Comment>, newG: seq<Gap>): Thread {
    Merge(t, newC, newG, BatchIds(t.gaps), UsedGaps(t.gaps, |t.gaps|))
  }

  // ---------------------------------------------------------------- basic facts

  lemma PendingSnoc(gaps: seq<Gap>, g: Gap)
    ensures Pending(gaps + [g]) == Pending(gaps) + Waiting(g)
  {
    assert (gaps + [g])[..|gaps|] == gaps;
  }

  lemma {:induction false} PendingConcat(a: seq<Gap>, b: seq<Gap>)
    ensures Pending(a + b) == Pending(a) + Pending(b)
  {
    if b == [] {
      assert a + b == a;
    } else {
      assert (a + b)[..|a + b| - 1] == a + b[..|b| - 1];
      PendingConcat(a, b[..|b| - 1]);
    }
  }

  lemma {:induction false} PendingOfSurviving(gaps: seq<Gap>)
    ensures Pending(Surviving(gaps)) == Pending(gaps)
  {
    if gaps != [] {
      PendingOfSurviving(gaps[..|gaps| - 1]);
      PendingSnoc(Surviving(gaps[..|gaps| - 1]), gaps[|gaps| - 1]);
    }
  }

  lemma {:induction false} UsedGapsMembers(gaps: seq<Gap>, n: nat)
    requires n <= |gaps|
    ensures forall i: nat :: i in UsedGaps(gaps, n) <==> i < n && TakesPart(gaps, i)
  {
    if n > 0 {
      UsedGapsMembers(gaps, n - 1);
    }
  }

  lemma PendingStep(gaps: seq<Gap>, n: nat)
    requires n < |gaps|
    ensures Pending(gaps[..n + 1]) == Pending(gaps[..n]) + Waiting(gaps[n])
  {
    assert gaps[..n + 1] == gaps[..n] + [gaps[n]];
    PendingSnoc(gaps[..n], gaps[n]);
  }

  lemma {:induction false} PendingPrefix(gaps: seq<Gap>, n: nat)
    requires n <= |gaps|
    ensures Pending(gaps[..n]) <= Pending(gaps)
    decreases |gaps| - n
  {
    if n == |gaps| {
      assert gaps[..n] == gaps;
    } else {
      PendingStep(gaps, n);
      PendingPrefix(gaps, n + 1);
    }
  }

  // --------------------------------------------------------- collecting one batch

  lemma BatchStart(gaps: seq<Gap>)
    ensures Pending(gaps[..0]) == [] && UsedGaps(gaps, 0) == []
  {
  }

  lemma BatchEmpty(gaps: seq<Gap>)
    ensures BatchIds(gaps) == [] <==> Pending(gaps) == []
  {
  }

  lemma BatchSkip(gaps: seq<Gap>, i: nat)
    requires i < |gaps| && !Usable(gaps[i])
    ensures Pending(gaps[..i + 1]) == Pending(gaps[..i])
    ensures UsedGaps(gaps, i + 1) == UsedGaps(gaps, i)
  {
    PendingStep(gaps, i);
  }

  lemma BatchTake(gaps: seq<Gap>, i: nat)
    requires i < |gaps| && TakesPart(gaps, i)
    ensures Pending(gaps[..i + 1]) == Pending(gaps[..i]) + gaps[i].children
    ensures UsedGaps(gaps, i + 1) == UsedGaps(gaps, i) + [i]
  {
    PendingStep(gaps, i);
  }

  /** Once the gaps before k fill the batch, later gaps add nothing to it. */
  lemma {:induction false} UsedGapsSettled(gaps: seq<Gap>, k: nat, n: nat)
    requires k <= n <= |gaps| && |Pending(gaps[..k])| >= MAX_BATCH
    ensures UsedGaps(gaps, n) == UsedGaps(gaps, k)
  {
    if k < n {
      UsedGapsSettled(gaps, k, n - 1);
      PendingPrefix(gaps[..n - 1], k);
      assert gaps[..n - 1][..k] == gaps[..k];
    }
  }

  lemma BatchFull(gaps: seq<Gap>, k: nat)
    requires k <= |gaps| && |Pending(gaps[..k])| >= MAX_BATCH
    ensures BatchIds(gaps) == Pending(gaps[..k])[..MAX_BATCH]
    ensures UsedGaps(gaps, |gaps|) == UsedGaps(gaps, k)
  {
    UsedGapsSettled(gaps, k, |gaps|);
    PendingPrefix(gaps, k);
  }

  lemma BatchExhausted(gaps: seq<Gap>)
    requires |Pending(gaps[..|gaps|])| < MAX_BATCH
    ensures BatchIds(gaps) == Pending(gaps[..|gaps|])
  {
    assert gaps[..|gaps|] == gaps;
  }

  // ------------------------------------------- the queue, with distinct pending IDs

  lemma {:induction false} PendingPointwise(gaps: seq<Gap>, struck: seq<Gap>, gone: set<Id>)
    requires |struck| == |gaps|
    requires forall i :: 0 <= i < |gaps| ==> Waiting(struck[i]) == Without(Waiting(gaps[i]), gone)
    ensures Pending(struck) == Without(Pending(gaps), gone)
  {
    if gaps != [] {
      var n := |gaps| - 1;
      PendingPointwise(gaps[..n], struck[..n], gone);
      WithoutConcat(Pending(gaps[..n]), Waiting(gaps[n]), gone);
    }
  }

  lemma StruckWaiting(gaps: seq<Gap>, i: nat)
    requires i < |gaps| && Distinct(Pending(gaps))
    ensures Waiting(StrikeAt(gaps, Elements(BatchIds(gaps)), UsedGaps(gaps, |gaps|))[i])
         == Without(Waiting(gaps[i]), Elements(BatchIds(gaps)))
  {
    UsedGapsMembers(gaps, |gaps|);
    if gaps[i].kind == More && !TakesPart(gaps, i) {
      UnusedKeepsChildren(gaps, i);
      WithoutUntouched(gaps[i].children, Elements(BatchIds(gaps)));
    }
  }

  /** The children of a gap that does not take part are none of the requested IDs. */
  lemma UnusedKeepsChildren(gaps: seq<Gap>, i: nat)
    requires i < |gaps| && Distinct(Pending(gaps)) && gaps[i].kind == More && !TakesPart(gaps, i)
    ensures Elements(gaps[i].children) !! Elements(BatchIds(gaps))
  {
    if gaps[i].children != [] {
      PendingStep(gaps, i);
      PendingPrefix(gaps, i + 1);
      BeyondHead(Pending(gaps[..i]), gaps[i].children, Pending(gaps), MAX_BATCH);
    }
  }

  lemma BeyondHead(before: seq<Id>, children: seq<Id>, queue: seq<Id>, k: nat)
    requires before + children <= queue && k <= |before| && Distinct(queue)
    ensures Elements(children) !! Elements(queue[..k])
  {
    assert queue == queue[..k] + queue[k..];
    DistinctParts(queue[..k], queue[k..]);
    forall x | x in children ensures x in queue[k..] {
      var j :| 0 <= j < |children| && children[j] == x;
      assert queue[k..][|before| - k + j] == x;
    }
  }

  lemma InsideHead(before: seq<Id>, children: seq<Id>, queue: seq<Id>, k: nat, h: nat)
    requires before + children <= queue && k <= |children| && |before| + k <= h <= |queue|
    ensures Elements(children[..k]) <= Elements(queue[..h])
  {
    forall x | x in children[..k] ensures x in queue[..h] {
      var j :| 0 <= j < k && children[j] == x;
      assert (before + children)[|before| + j] == x;
      assert queue[..h][|before| + j] == x;
    }
  }

  /** A round takes the head of the queue and puts the announced IDs at its tail,
      although the taken IDs are removed from separate gaps by membership. */
  lemma RoundIsDequeueEnqueue(t: Thread, newC: seq<Comment>, newG: seq<Gap>)
    requires Distinct(Pending(t.gaps))
    ensures var k := Min(100, |Pending(t.gaps)|);
      Pending(Round(t, newC, newG).gaps) == Pending(t.gaps)[k..] + Pending(newG)
  {
    var gaps := t.gaps;
    var k := Min(MAX_BATCH, |Pending(gaps)|);
    var struck := StrikeAt(gaps, Elements(BatchIds(gaps)), UsedGaps(gaps, |gaps|));
    forall i | 0 <= i < |gaps|
      ensures Waiting(struck[i]) == Without(Waiting(gaps[i]), Elements(BatchIds(gaps)))
    {
      StruckWaiting(gaps, i);
    }
    PendingPointwise(gaps, struck, Elements(BatchIds(gaps)));
    WithoutPrefix(Pending(gaps), k);
    PendingOfSurviving(struck);
    PendingConcat(Surviving(struck), newG);
  }

  // --------------------------------------------- progress, with no assumption on IDs

  /** How striking one gap, met after `before` pending IDs, shortens the queue. */
  lemma StrikeShrinks(gaps: seq<Gap>, i: nat)
    requires i < |gaps| && TakesPart(gaps, i)
    ensures var before, children := |Pending(gaps[..i])|, gaps[i].children;
      |Without(children, Elements(BatchIds(gaps)))| + Min(MAX_BATCH, before + |children|) <= before + |children|
  {
    var before, children := Pending(gaps[..i]), gaps[i].children;
    var k := Min(MAX_BATCH, |before| + |children|) - |before|;
    PendingStep(gaps, i);
    PendingPrefix(gaps, i + 1);
    InsideHead(before, children, Pending(gaps), k, |BatchIds(gaps)|);
    WithoutShrinks(children, k, Elements(BatchIds(gaps)));
  }

  /** `struck` is what striking leaves of `queue` when `k` requested IDs were in it. */
  ghost predicate Shrunk(queue: seq<Id>, struck: seq<Id>, k: nat, batch: set<Id>) {
    && |struck| + k <= |queue|
    && multiset(struck) <= multiset(queue)
    && Elements(queue) <= Elements(struck) + batch
  }

  lemma ShrunkConcat(q: seq<Id>, s: seq<Id>, k: nat, q': seq<Id>, s': seq<Id>, k': nat, batch: set<Id>)
    requires Shrunk(q, s, k, batch)
    requires |s| + |s'| + k' <= |q| + |q'|
    requires multiset(s') <= multiset(q') && Elements(q') <= Elements(s') + batch
    ensures Shrunk(q + q', s + s', k', batch)
  {
    ElementsOfConcat(q, q');
    ElementsOfConcat(s, s');
  }

  lemma {:induction false} StruckShrinksPrefix(gaps: seq<Gap>, struck: seq<Gap>, n: nat)
    requires n <= |gaps| && struck == StrikeAt(gaps, Elements(BatchIds(gaps)), UsedGaps(gaps, |gaps|))
    ensures var queue := Pending(gaps[..n]);
      Shrunk(queue, Pending(struck[..n]), Min(MAX_BATCH, |queue|), Elements(BatchIds(gaps)))
  {
    hide Pending, UsedGaps, BatchIds;
    if n == 0 {
      BatchStart(gaps);
      BatchStart(struck);
    } else {
      var i := n - 1;
      StruckShrinksPrefix(gaps, struck, i);
      PendingStep(gaps, i);
      PendingStep(struck, i);
      UsedGapsMembers(gaps, |gaps|);
      StruckShrinksStep(gaps, i, Pending(struck[..i]), struck[i]);
    }
  }

  lemma StruckShrinksStep(gaps: seq<Gap>, i: nat, before: seq<Id>, g: Gap)
    requires i < |gaps|
    requires g == if TakesPart(gaps, i) then Strike(gaps[i], Elements(BatchIds(gaps))) else gaps[i]
    requires Shrunk(Pending(gaps[..i]), before, Min(MAX_BATCH, |Pending(gaps[..i])|), Elements(BatchIds(gaps)))
    ensures var queue := Pending(gaps[..i]) + Waiting(gaps[i]);
      Shrunk(queue, before + Waiting(g), Min(MAX_BATCH, |queue|), Elements(BatchIds(gaps)))
  {
    hide Pending, BatchIds, Waiting;
    var queue := Pending(gaps[..i]);
    TouchedWaiting(gaps, i, Elements(BatchIds(gaps)), g);
    ShrunkConcat(
      queue, before, Min(MAX_BATCH, |queue|),
      Waiting(gaps[i]), Waiting(g), Min(MAX_BATCH, |queue| + |Waiting(gaps[i])|), Elements(BatchIds(gaps)));
  }

  /** What one gap contributes to the queue before and after the round. */
  lemma TouchedWaiting(gaps: seq<Gap>, i: nat, batch: set<Id>, g: Gap)
    requires i < |gaps| && batch == Elements(BatchIds(gaps))
    requires g == if TakesPart(gaps, i) then Strike(gaps[i], batch) else gaps[i]
    ensures var now, was, before := Waiting(g), Waiting(gaps[i]), |Pending(gaps[..i])|;
      && |now| <= |was| && multiset(now) <= multiset(was) && Elements(was) <= Elements(now) + batch
      && (before < MAX_BATCH ==> |now| + Min(MAX_BATCH, before + |was|) <= before + |was|)
  {
    hide Pending, BatchIds;
    if TakesPart(gaps, i) {
      WithoutMembers(gaps[i].children, batch);
      StrikeShrinks(gaps, i);
    }
  }

  /** What a successful round leaves of the old gaps is a sub-multiset of the old queue,
      shorter by at least the batch; every ID that vanished was in the batch. */
  lemma RoundProgress(t: Thread, newC: seq<Comment>, newG: seq<Gap>)
    ensures var queue := Pending(t.gaps);
      var carried := Pending(Surviving(StrikeAt(t.gaps, Elements(BatchIds(t.gaps)), UsedGaps(t.gaps, |t.gaps|))));
      && Pending(Round(t, newC, newG).gaps) == carried + Pending(newG)
      && |carried| <= |queue| - |BatchIds(t.gaps)|
      && multiset(carried) <= multiset(queue)
      && Elements(queue) <= Elements(carried) + Elements(BatchIds(t.gaps))
    ensures Pending(t.gaps) != [] ==> 1 <= |BatchIds(t.gaps)| <= MAX_BATCH
  {
    var gaps := t.gaps;
    var struck := StrikeAt(gaps, Elements(BatchIds(gaps)), UsedGaps(gaps, |gaps|));
    StruckShrinksPrefix(gaps, struck, |gaps|);
    assert gaps[..|gaps|] == gaps && struck[..|gaps|] == struck;
    PendingOfSurviving(struck);
    PendingConcat(Surviving(struck), newG);
  }

  /** No requested ID is left in a gap that contributed to the batch, a contributing gap
      reports as its count the number of children it still has, and the rest is as it was. */
  lemma TouchedGaps(t: Thread, i: nat)
    requires i < |t.gaps|
    ensures var batch := BatchIds(t.gaps);
      var g := StrikeAt(t.gaps, Elements(batch), UsedGaps(t.gaps, |t.gaps|))[i];
      if TakesPart(t.gaps, i)
      then && Elements(g.children) == Elements(t.gaps[i].children) - Elements(batch)
           && g == t.gaps[i].(children := g.children, count := |g.children|)
      else g == t.gaps[i]
  {
    UsedGapsMembers(t.gaps, |t.gaps|);
    WithoutMembers(t.gaps[i].children, Elements(BatchIds(t.gaps)));
  }

  /** The surviving list: the "continue" markers and the gaps that still have children,
      each once and in order. */
  lemma {:induction false} SurvivingIsSublist(gaps: seq<Gap>) returns (at: seq<nat>)
    ensures Selects(gaps, Surviving(gaps), at)
    ensures forall i: nat :: i in at <==> i < |gaps| && (gaps[i].kind == Continue || gaps[i].children != [])
  {
    if gaps == [] {
      at := [];
    } else {
      var n := |gaps| - 1;
      at := SurvivingIsSublist(gaps[..n]);
      SelectsNext(gaps, n, Surviving(gaps[..n]), at);
      hide Selects;
      if !Emptied(gaps[n]) {
        at := at + [n];
      }
    }
  }

  /** What a merge makes of the gap list, for any requested IDs and any indices: named gaps
      lose the requested IDs and recount themselves, "continue" markers and gaps that still
      have children stay in order, and the new gaps follow. */
  lemma MergedGaps(t: Thread, newC: seq<Comment>, newG: seq<Gap>, requested: seq<Id>, used: seq<nat>)
    returns (struck: seq<Gap>, at: seq<nat>)
    ensures |struck| == |t.gaps|
    ensures forall i :: 0 <= i < |struck| ==>
              var left := Without(t.gaps[i].children, Elements(requested));
              struck[i] == if i in used then t.gaps[i].(children := left, count := |left|) else t.gaps[i]
    ensures var merged := Merge(t, newC, newG, requested, used).gaps;
      |at| <= |merged| && Selects(struck, merged[..|at|], at) && merged[|at|..] == newG
    ensures forall i: nat :: i in at <==> i < |struck| && (struck[i].kind == Continue || struck[i].children != [])
  {
    hide Without, Surviving;
    struck := StrikeAt(t.gaps, Elements(requested), used);
    at := SurvivingIsSublist(struck);
    assert (Surviving(struck) + newG)[..|at|] == Surviving(struck);
  }

  // ------------------------------------------------------------ "continue" markers

  /** The "continue" markers of a gap list. */
  function Continues(gaps: seq<Gap>): seq<Gap> {
    if gaps == [] then []
    else
      var before := Continues(gaps[..|gaps| - 1]);
      if gaps[|gaps| - 1].kind == Continue then before + [gaps[|gaps| - 1]] else before
  }

  lemma {:induction false} ContinuesSelect(gaps: seq<Gap>) returns (at: seq<nat>)
    ensures Selects(gaps, Continues(gaps), at)
    ensures forall i: nat :: i in at <==> i < |gaps| && gaps[i].kind == Continue
  {
    if gaps == [] {
      at := [];
    } else {
      var n := |gaps| - 1;
      at := ContinuesSelect(gaps[..n]);
      SelectsNext(gaps, n, Continues(gaps[..n]), at);
      hide Selects;
      if gaps[n].kind == Continue {
        at := at + [n];
      }
    }
  }

  lemma {:induction false} ContinuesConcat(a: seq<Gap>, b: seq<Gap>)
    ensures Continues(a + b) == Continues(a) + Continues(b)
  {
    if b == [] {
      assert a + b == a;
    } else {
      var n := |b| - 1;
      assert (a + b)[..|a + b| - 1] == a + b[..n];
      ContinuesConcat(a, b[..n]);
    }
  }

  lemma {:induction false} ContinuesSurvive(gaps: seq<Gap>)
    ensures Continues(Surviving(gaps)) == Continues(gaps)
  {
    if gaps != [] {
      var n := |gaps| - 1;
      ContinuesSurvive(gaps[..n]);
      if !Emptied(gaps[n]) {
        assert Surviving(gaps)[..|Surviving(gaps)| - 1] == Surviving(gaps[..n]);
      }
    }
  }

  lemma {:induction false} SameContinues(a: seq<Gap>, b: seq<Gap>)
    requires |a| == |b|
    requires forall i :: 0 <= i < |a| ==> a[i].kind == b[i].kind && (a[i].kind == Continue ==> a[i] == b[i])
    ensures Continues(a) == Continues(b)
  {
    if a != [] {
      SameContinues(a[..|a| - 1], b[..|b| - 1]);
    }
  }

  ghost predicate NamesMoreOnly(gaps: seq<Gap>, used: seq<nat>) {
    forall i :: i in used && i < |gaps| ==> gaps[i].kind == More
  }

  /** A merge keeps every "continue" marker of the thread, unchanged and in order, and adds
      those of the answer, as long as it is not told to strike from one. */
  lemma MergeKeepsContinues(t: Thread, newC: seq<Comment>, newG: seq<Gap>, requested: seq<Id>, used: seq<nat>)
    requires NamesMoreOnly(t.gaps, used)
    ensures Continues(Merge(t, newC, newG, requested, used).gaps) == Continues(t.gaps) + Continues(newG)
  {
    var struck := StrikeAt(t.gaps, Elements(requested), used);
    SameContinues(t.gaps, struck);
    ContinuesSurvive(struck);
    ContinuesConcat(Surviving(struck), newG);
  }

  lemma RoundKeepsContinues(t: Thread, newC: seq<Comment>, newG: seq<Gap>)
    ensures Continues(Round(t, newC, newG).gaps) == Continues(t.gaps) + Continues(newG)
  {
    UsedGapsMembers(t.gaps, |t.gaps|);
    MergeKeepsContinues(t, newC, newG, BatchIds(t.gaps), UsedGaps(t.gaps, |t.gaps|));
  }

  // ----------------------------------------------------------- what a round asks for

  /** The children of each "more" gap. */
  function ChildLists(gaps: seq<Gap>): (lists: seq<seq<Id>>)
    ensures |lists| == |gaps|
    ensures forall i :: 0 <= i < |lists| ==> lists[i] == if gaps[i].kind == More then gaps[i].children else []
  {
    seq(|gaps|, i requires 0 <= i < |gaps| => if gaps[i].kind == More then gaps[i].children else [])
  }

  lemma {:induction false} PendingIsFlattened(gaps: seq<Gap>)
    ensures Pending(gaps) == Flatten(ChildLists(gaps))
  {
    if gaps != [] {
      var n := |gaps| - 1;
      PendingIsFlattened(gaps[..n]);
      assert ChildLists(gaps)[..n] == ChildLists(gaps[..n]);
    }
  }

  lemma {:induction false} NothingPendingMeans(gaps: seq<Gap>)
    ensures Pending(gaps) == [] <==> forall i :: 0 <= i < |gaps| ==> gaps[i].kind == Continue || gaps[i].children == []
  {
    if gaps != [] {
      var n := |gaps| - 1;
      NothingPendingMeans(gaps[..n]);
      assert forall i :: 0 <= i < n ==> gaps[..n][i] == gaps[i];
      assert Pending(gaps) == [] <==> Pending(gaps[..n]) == [] && (gaps[n].kind == Continue || gaps[n].children == []);
      hide Pending;
    }
  }

  /** The first 100 children of "more" gaps, in order, and the gaps that contribute, in
      order: those with children before which fewer than 100 were found. */
  ghost predicate IsBatch(gaps: seq<Gap>, ids: seq<Id>, used: seq<nat>) {
    var queue := Flatten(ChildLists(gaps));
    && ids == queue[..Min(100, |queue|)]
    && (forall i: nat :: i in used <==>
          i < |gaps| && gaps[i].kind == More && gaps[i].children != [] && |Flatten(ChildLists(gaps[..i]))| < 100)
    && (forall k, l :: 0 <= k < l < |used| ==> used[k] < used[l])
  }

  lemma BatchIsHead(gaps: seq<Gap>)
    ensures IsBatch(gaps, BatchIds(gaps), UsedGaps(gaps, |gaps|))
  {
    hide Pending, UsedGaps, ChildLists, Flatten;
    PendingIsFlattened(gaps);
    UsedGapsGrow(gaps, |gaps|);
    var used := UsedGaps(gaps, |gaps|);
    forall i: nat ensures i in used <==>
          i < |gaps| && gaps[i].kind == More && gaps[i].children != [] && |Flatten(ChildLists(gaps[..i]))| < 100 {
      UsedGapsMembers(gaps, |gaps|);
      if i < |gaps| {
        PendingIsFlattened(gaps[..i]);
      }
    }
  }

  lemma {:induction false} UsedGapsGrow(gaps: seq<Gap>, n: nat)
    requires n <= |gaps|
    ensures forall k, l :: 0 <= k < l < |UsedGaps(gaps, n)| ==> UsedGaps(gaps, n)[k] < UsedGaps(gaps, n)[l]
  {
    if n > 0 {
      UsedGapsGrow(gaps, n - 1);
      UsedGapsMembers(gaps, n - 1);
      var used := UsedGaps(gaps, n - 1);
      forall k | 0 <= k < |used| ensures used[k] < n - 1 {
        assert used[k] in used;
      }
    }
  }

  // ------------------------------------------------------------- merging comments

  lemma IdsOfConcat(a: seq<Comment>, b: seq<Comment>)
    ensures Ids(a + b) == Ids(a) + Ids(b)
  {
    assert forall c :: c in a + b <==> c in a || c in b;
  }

  lemma {:induction false} ExtendIds(base: seq<Comment>, more: seq<Comment>)
    ensures base <= Extend(base, more)
    ensures Ids(Extend(base, more)) == Ids(base + more)
  {
    if more == [] {
      assert base + more == base;
    } else {
      var before, c := more[..|more| - 1], more[|more| - 1];
      ExtendIds(base, before);
      assert base + more == (base + before) + [c];
      IdsOfConcat(base + before, [c]);
      IdsOfConcat(Extend(base, before), [c]);
    }
  }

  /** Member i of `more` has an ID that no member of `base` and no earlier member has. */
  ghost predicate IsNew(base: seq<Comment>, more: seq<Comment>, i: nat)
    requires i < |more|
  {
    && (forall c :: c in base ==> c.id != more[i].id)
    && forall j :: 0 <= j < i ==> more[j].id != more[i].id
  }

  /** A merge appends a received comment exactly when its ID is new, to the list and among
      those received before it; it appends them in order, as they were received. */
  lemma {:induction false} ExtendSelects(base: seq<Comment>, more: seq<Comment>)
      returns (taken: seq<Comment>, at: seq<nat>)
    ensures Extend(base, more) == base + taken && Selects(more, taken, at)
    ensures forall i: nat :: i in at <==> i < |more| && IsNew(base, more, i)
  {
    if more == [] {
      taken, at := [], [];
    } else {
      var n := |more| - 1;
      taken, at := ExtendSelects(base, more[..n]);
      hide Selects, Ids;
      SelectsNext(more, n, taken, at);
      IsNewEarlier(base, more, n);
      IsNewMeans(base, more, n);
      hide IsNew;
      assert (base + taken) + [more[n]] == base + (taken + [more[n]]);
      if more[n].id !in Ids(base + more[..n]) {
        taken, at := taken + [more[n]], at + [n];
      }
    }
  }

  lemma IsNewEarlier(base: seq<Comment>, more: seq<Comment>, n: nat)
    requires n < |more|
    ensures forall i: nat :: i < n ==> (IsNew(base, more[..n], i) <==> IsNew(base, more, i))
  {
  }

  lemma IsNewMeans(base: seq<Comment>, more: seq<Comment>, n: nat)
    requires n < |more|
    ensures IsNew(base, more, n) <==> more[n].id !in Ids(base + more[..n])
  {
    IdsOfConcat(base, more[..n]);
    forall j | 0 <= j < n ensures more[j].id in Ids(more[..n]) {
      assert more[..n][j] in more[..n];
    }
    if forall j :: 0 <= j < n ==> more[j].id != more[n].id {
      forall c | c in more[..n] ensures c.id != more[n].id {
        var j :| 0 <= j < n && more[..n][j] == c;
      }
    }
  }

  lemma ExtendIdsAfter(base: seq<Comment>, a: seq<Comment>, b: seq<Comment>)
    ensures Ids(Extend(base, a) + b) == Ids(base + (a + b))
  {
    ExtendIds(base, a);
    IdsOfConcat(Extend(base, a), b);
    IdsOfConcat(base + a, b);
    assert base + (a + b) == (base + a) + b;
  }

  /** Merging round by round is the same as one merge of everything. */
  lemma {:induction false} ExtendTwice(base: seq<Comment>, a: seq<Comment>, b: seq<Comment>)
    ensures Extend(Extend(base, a), b) == Extend(base, a + b)
  {
    if b == [] {
      assert a + b == a;
    } else {
      var before := b[..|b| - 1];
      ExtendTwice(base, a, before);
      assert (a + b)[..|a + b| - 1] == a + before;
      ExtendIdsAfter(base, a, before);
    }
  }

  /** IDs stay distinct. */
  lemma {:induction false} ExtendDistinct(base: seq<Comment>, more: seq<Comment>)
    requires Distinct(IdSeq(base))
    ensures Distinct(IdSeq(Extend(base, more)))
  {
    if more != [] {
      var before, c := more[..|more| - 1], more[|more| - 1];
      ExtendDistinct(base, before);
      ExtendIds(base, before);
      var e := Extend(base, before);
      if c.id !in Ids(base + before) {
        assert forall i :: 0 <= i < |e| ==> e[i] in e && e[i].id in Ids(e);
      }
    }
  }

  lemma ExtendByNone(base: seq<Comment>)
    ensures Extend(base, []) == base
  {
  }

  /** Merging adds nothing exactly when every received ID was known. */
  lemma {:induction false} ExtendNothingNew(base: seq<Comment>, more: seq<Comment>)
    ensures Extend(base, more) == base <==> Ids(more) <= Ids(base)
  {
    if more != [] {
      var before, c := more[..|more| - 1], more[|more| - 1];
      ExtendNothingNew(base, before);
      ExtendIds(base, before);
      IdsOfConcat(base, before);
      assert more == before + [c];
      IdsOfConcat(before, [c]);
    }
  }

  /** With distinct IDs to start from, the list is the stable first-occurrence
      deduplication of everything received so far. */
  lemma {:induction false} DistinctIsItsOwnExtension(base: seq<Comment>)
    requires Distinct(IdSeq(base))
    ensures Extend([], base) == base
  {
    if base != [] {
      var n := |base| - 1;
      var before := base[..n];
      assert IdSeq(before) == IdSeq(base)[..n];
      DistinctIsItsOwnExtension(before);
      IdsOfConcat([], before);
      assert base[n].id !in Ids(before) by {
        forall d | d in before ensures d.id != base[n].id {
          var i :| 0 <= i < n && before[i] == d;
          assert IdSeq(base)[i] != IdSeq(base)[n];
        }
      }
    }
  }
}
