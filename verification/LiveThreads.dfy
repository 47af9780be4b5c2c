/** The thread as the engine mutates it: a gap list in a growable buffer whose entries
    own child-ID buffers, compacted in place. Every method is proved against the value
    functions of GapQueue and Expansion. */
module LiveThreads {
  import opened Sequences
  import opened RedditTypes
  import opened GapQueue
  import opened Expansion

  // A gap entry: its children are the first `len` cells of its own buffer.
  datatype Slot = Slot(kind: GapKind, parentId: Id, depth: int, count: int, cells: array<Id>, len: nat)

  ghost predicate Sound(s: Slot) {
    s.len <= s.cells.Length
  }

  ghost function ValueOf(s: Slot): Gap
    requires Sound(s)
    reads s.cells
  {
    Gap(s.kind, s.parentId, s.depth, s.count, s.cells[..s.len])
  }

  ghost predicate AllSound(slots: seq<Slot>) {
    forall i :: 0 <= i < |slots| ==> Sound(slots[i])
  }

  ghost predicate Separate(slots: seq<Slot>) {
    forall i, j :: 0 <= i < j < |slots| ==> slots[i].cells != slots[j].cells
  }

  ghost function CellsOf(slots: seq<Slot>): set<array<Id>> {
    set i | 0 <= i < |slots| :: slots[i].cells
  }

  ghost function ValuesOf(slots: seq<Slot>): (values: seq<Gap>)
    requires AllSound(slots)
    reads CellsOf(slots)
    ensures |values| == |slots|
    ensures forall i :: 0 <= i < |slots| ==> values[i] == ValueOf(slots[i])
  {
    if slots == [] then []
    else
      var n := |slots| - 1;
      assert CellsOf(slots[..n]) <= CellsOf(slots);
      assert slots[n].cells in CellsOf(slots);
      ValuesOf(slots[..n]) + [ValueOf(slots[n])]
  }

  lemma SameCells(a: seq<Slot>, b: seq<Slot>)
    requires |a| == |b| && forall i :: 0 <= i < |a| ==> a[i].cells == b[i].cells
    ensures CellsOf(a) == CellsOf(b)
  {
    forall c | c in CellsOf(a) ensures c in CellsOf(b) {
      var i :| 0 <= i < |a| && a[i].cells == c;
      assert b[i].cells == c;
    }
    forall c | c in CellsOf(b) ensures c in CellsOf(a) {
      var i :| 0 <= i < |b| && b[i].cells == c;
      assert a[i].cells == c;
    }
  }

  /** Removes the fulfilled IDs from the first n cells, sliding the others down within
      the same buffer. */
  method CompactChildren(a: array<Id>, n: nat, fulfilled: set<Id>) returns (m: nat)
    requires n <= a.Length
    modifies a
    ensures m <= n && a[..m] == Without(old(a[..n]), fulfilled)
  {
    m := 0;
    ghost var was := a[..n];
    for i := 0 to n
      invariant m <= i
      invariant a[..m] == Without(was[..i], fulfilled)
      invariant forall k :: i <= k < n ==> a[k] == was[k]
    {
      assert was[..i + 1][..i] == was[..i];
      if a[i] !in fulfilled {
        a[m] := a[i];
        m := m + 1;
      }
    }
    assert was[..n] == was;
  }

  predicate Spent(s: Slot) {
    s.kind == More && s.len == 0
  }

  function Kept(slots: seq<Slot>): seq<Slot> {
    if slots == [] then []
    else if Spent(slots[|slots| - 1]) then Kept(slots[..|slots| - 1])
    else Kept(slots[..|slots| - 1]) + [slots[|slots| - 1]]
  }

  lemma KeptStep(slots: seq<Slot>, i: nat)
    requires i < |slots|
    ensures Kept(slots[..i + 1]) == if Spent(slots[i]) then Kept(slots[..i]) else Kept(slots[..i]) + [slots[i]]
  {
    assert slots[..i + 1][..i] == slots[..i];
  }

  /** Drops the spent "more" entries among the first n, in place. */
  method CompactGaps(a: array<Slot>, n: nat) returns (m: nat)
    requires n <= a.Length
    modifies a
    ensures m <= n && a[..m] == Kept(old(a[..n]))
  {
    m := 0;
    ghost var was := a[..n];
    for i := 0 to n
      invariant m <= i
      invariant a[..m] == Kept(was[..i])
      invariant forall k :: i <= k < n ==> a[k] == was[k]
    {
      hide Kept;
      KeptStep(was, i);
      if !(a[i].kind == More && a[i].len == 0) {
        a[m] := a[i];
        m := m + 1;
      }
    }
    assert was[..n] == was;
  }

  lemma CellsOfSnoc(slots: seq<Slot>, s: Slot)
    ensures CellsOf(slots + [s]) == CellsOf(slots) + {s.cells}
  {
    CellsOfConcat(slots, [s]);
    assert CellsOf([s]) == {s.cells} by {
      assert [s][0].cells in CellsOf([s]);
    }
  }

  lemma CellsOfConcat(a: seq<Slot>, b: seq<Slot>)
    ensures CellsOf(a + b) == CellsOf(a) + CellsOf(b)
  {
    var s := a + b;
    forall i | 0 <= i < |a| ensures a[i].cells in CellsOf(s) {
      assert s[i] == a[i];
    }
    forall i | 0 <= i < |b| ensures b[i].cells in CellsOf(s) {
      assert s[|a| + i] == b[i];
    }
  }

  lemma SeparateSnoc(slots: seq<Slot>, s: Slot)
    requires Separate(slots) && s.cells !in CellsOf(slots)
    ensures Separate(slots + [s])
  {
    forall i | 0 <= i < |slots| ensures slots[i].cells != s.cells {
      assert slots[i].cells in CellsOf(slots);
    }
  }

  /** Dropping entries shares no buffer and brings in no new one. */
  lemma {:induction false} KeptWithin(slots: seq<Slot>)
    requires AllSound(slots) && Separate(slots)
    ensures AllSound(Kept(slots)) && Separate(Kept(slots)) && CellsOf(Kept(slots)) <= CellsOf(slots)
  {
    if slots != [] {
      var before, last := slots[..|slots| - 1], slots[|slots| - 1];
      KeptWithin(before);
      assert slots == before + [last];
      CellsOfSnoc(before, last);
      CellsOfSnoc(Kept(before), last);
      assert last.cells !in CellsOf(before) by {
        forall i | 0 <= i < |before| ensures before[i].cells != last.cells {
          assert before[i] == slots[i];
        }
      }
      SeparateSnoc(Kept(before), last);
    }
  }

  lemma {:induction false} KeptValues(slots: seq<Slot>)
    requires AllSound(slots) && AllSound(Kept(slots))
    ensures ValuesOf(Kept(slots)) == Surviving(ValuesOf(slots))
  {
    hide ValuesOf;
    if slots != [] {
      var before := slots[..|slots| - 1];
      assert AllSound(Kept(before)) by {
        assert Kept(before) <= Kept(slots);
      }
      KeptValues(before);
      assert ValuesOf(slots)[..|before|] == ValuesOf(before);
    }
  }

  lemma ValuesOfConcat(a: seq<Slot>, b: seq<Slot>)
    requires AllSound(a) && AllSound(b)
    ensures AllSound(a + b) && ValuesOf(a + b) == ValuesOf(a) + ValuesOf(b)
  {
    hide ValuesOf;
  }

  lemma SeparateConcat(a: seq<Slot>, b: seq<Slot>)
    requires Separate(a) && Separate(b) && CellsOf(a) !! CellsOf(b)
    ensures Separate(a + b)
  {
    forall i, j | 0 <= i < |a| && 0 <= j < |b| ensures a[i].cells != b[j].cells {
      assert a[i].cells in CellsOf(a) && b[j].cells in CellsOf(b);
    }
  }

  /** Buffers for the gaps of an answer; decoding allocates them. */
  method Allocate(gaps: seq<Gap>) returns (slots: seq<Slot>)
    ensures AllSound(slots) && Separate(slots) && ValuesOf(slots) == gaps && fresh(CellsOf(slots))
  {
    slots := [];
    for i := 0 to |gaps|
      invariant |slots| == i && AllSound(slots) && Separate(slots)
      invariant forall j :: 0 <= j < i ==> fresh(slots[j].cells)
      invariant forall j :: 0 <= j < i ==> ValueOf(slots[j]) == gaps[j]
    {
      var g := gaps[i];
      var cells := new Id[|g.children|](k requires 0 <= k < |g.children| => g.children[k]);
      assert cells[..|g.children|] == g.children;
      slots := slots + [Slot(g.kind, g.parentId, g.depth, g.count, cells, |g.children|)];
    }
  }

  /** A list buffer without spare room. */
  method BufferOf(slots: seq<Slot>) returns (a: array<Slot>)
    requires AllSound(slots)
    ensures fresh(a) && a.Length == |slots| && a[..|slots|] == slots
    ensures ValuesOf(slots) == old(ValuesOf(slots))
  {
    hide ValuesOf, CellsOf, AllSound;
    a := new Slot[|slots|](i requires 0 <= i < |slots| => slots[i]);
    assert a[..|slots|] == slots;
  }

  class LiveThread {
    var comments: seq<Comment>
    var gaps: array<Slot>
    var len: nat

    ghost predicate Valid()
      reads this`gaps, this`len, gaps
    {
      len <= gaps.Length && AllSound(gaps[..len]) && Separate(gaps[..len])
    }

    ghost function Cells(): set<array<Id>>
      requires len <= gaps.Length
      reads this`gaps, this`len, gaps
    {
      CellsOf(gaps[..len])
    }

    ghost function Gaps(): seq<Gap>
      requires Valid()
      reads this`gaps, this`len, gaps, Cells()
    {
      ValuesOf(gaps[..len])
    }

    ghost function View(): Thread
      requires Valid()
      reads this, gaps, Cells()
    {
      Thread(comments, Gaps())
    }

    constructor (comments: seq<Comment>, initial: seq<Gap>)
      ensures Valid() && View() == Thread(comments, initial)
      ensures fresh(gaps) && fresh(Cells())
    {
      hide ValuesOf, CellsOf, AllSound, Separate;
      var slots := Allocate(initial);
      var buffer := BufferOf(slots);
      this.comments := comments;
      gaps, len := buffer, |slots|;
      new;
      assert gaps[..len] == slots;
      assert Gaps() == ValuesOf(slots);
    }

    /** Appends the received comments whose ID has not been seen. */
    method MergeComments(newC: seq<Comment>)
      requires Valid()
      modifies this`comments
      ensures Valid() && Gaps() == old(Gaps())
      ensures comments == Extend(old(comments), newC)
    {
      var seen := Ids(comments);
      for i := 0 to |newC|
        invariant Valid() && Gaps() == old(Gaps())
        invariant comments == Extend(old(comments), newC[..i])
        invariant seen == Ids(old(comments) + newC[..i])
      {
        assert newC[..i + 1][..i] == newC[..i];
        assert old(comments) + newC[..i + 1] == (old(comments) + newC[..i]) + [newC[i]];
        IdsOfConcat(old(comments) + newC[..i], [newC[i]]);
        if newC[i].id !in seen {
          comments := comments + [newC[i]];
        }
        seen := seen + {newC[i].id};
      }
      assert newC[..|newC|] == newC;
    }

    /** Strikes the fulfilled IDs from one gap; no other gap changes. */
    method StrikeGap(idx: nat, fulfilled: set<Id>)
      requires Valid() && idx < len
      modifies gaps, gaps[idx].cells
      ensures Valid() && Cells() == old(Cells())
      ensures Gaps() == old(Gaps())[idx := Strike(old(Gaps())[idx], fulfilled)]
    {
      var s := gaps[idx];
      var m := CompactChildren(s.cells, s.len, fulfilled);
      gaps[idx] := s.(len := m, count := m);
      SameCells(old(gaps[..len]), gaps[..len]);
    }

    /** Strikes the requested IDs from the named gaps; an index may repeat or be stale. */
    method StrikeGaps(requested: seq<Id>, used: seq<nat>)
      requires Valid()
      modifies gaps, Cells()
      ensures Valid() && Cells() == old(Cells())
      ensures Gaps() == StrikeAt(old(Gaps()), Elements(requested), used)
    {
      ghost var was := Gaps();
      var fulfilled := Elements(requested);
      StrikeAtNone(was, fulfilled);
      for k := 0 to |used|
        invariant Valid() && Cells() == old(Cells())
        invariant Gaps() == StrikeAt(was, fulfilled, used[..k])
      {
        StrikeAtStep(was, fulfilled, used, k);
        if used[k] < len {
          assert gaps[..len][used[k]].cells in Cells();
          StrikeGap(used[k], fulfilled);
        }
      }
      assert used[..|used|] == used;
    }

    /** Drops the emptied "more" gaps, in place. */
    method DropEmptied()
      requires Valid()
      modifies this`len, gaps
      ensures Valid() && Cells() <= old(Cells())
      ensures Gaps() == Surviving(old(Gaps()))
    {
      hide ValuesOf, Surviving, Kept;
      ghost var was := gaps[..len];
      KeptWithin(was);
      KeptValues(was);
      len := CompactGaps(gaps, len);
      KeptValues(was);
    }

    /** Appends gap entries, reusing the buffer's spare room when there is enough. */
    method AppendGaps(more: seq<Slot>)
      requires Valid() && AllSound(more) && Separate(more) && CellsOf(more) !! Cells()
      modifies this`len, this`gaps, gaps
      ensures Valid() && (gaps == old(gaps) || fresh(gaps))
      ensures Cells() == old(Cells()) + CellsOf(more)
      ensures Gaps() == old(Gaps()) + ValuesOf(more)
    {
      hide ValuesOf, CellsOf, AllSound, Separate;
      var was := gaps[..len];
      ValuesOfConcat(was, more);
      SeparateConcat(was, more);
      CellsOfConcat(was, more);
      WriteBack(was + more);
      ValuesOfConcat(was, more);
    }

    /** Makes the entries `all`, which extend the current ones, the gap list. */
    method WriteBack(all: seq<Slot>)
      requires len <= gaps.Length && gaps[..len] <= all
      modifies this`len, this`gaps, gaps
      ensures len <= gaps.Length && gaps[..len] == all && (gaps == old(gaps) || fresh(gaps))
    {
      if |all| <= gaps.Length {
        forall i | len <= i < |all| {
          gaps[i] := all[i];
        }
      } else {
        var spare: nat :| 0 <= spare;  // growth reserves an unspecified amount of spare room
        gaps := new Slot[|all| + spare](i requires 0 <= i => if i < |all| then all[i] else all[0]);
      }
      len := |all|;
    }

    /** Folds an answer into the thread. */
    method MergeExpanded(newC: seq<Comment>, newG: seq<Slot>, requested: seq<Id>, used: seq<nat>)
      requires Valid() && AllSound(newG) && Separate(newG) && CellsOf(newG) !! Cells()
      modifies this, gaps, Cells()
      ensures Valid() && (gaps == old(gaps) || fresh(gaps)) && Cells() <= old(Cells()) + CellsOf(newG)
      ensures View() == Merge(old(View()), newC, old(ValuesOf(newG)), requested, used)
      ensures NamesMoreOnly(old(Gaps()), used) ==>
                Continues(View().gaps) == Continues(old(Gaps())) + Continues(old(ValuesOf(newG)))
    {
      hide ValuesOf, Extend, Surviving, StrikeAt, Continues;
      if NamesMoreOnly(Gaps(), used) {
        MergeKeepsContinues(View(), newC, ValuesOf(newG), requested, used);
      }
      ghost var added := ValuesOf(newG);
      MergeComments(newC);
      StrikeGaps(requested, used);
      assert ValuesOf(newG) == added;
      DropEmptied();
      assert ValuesOf(newG) == added;
      AppendGaps(newG);
      assert ValuesOf(newG) == added;
    }

    /** The IDs the next round asks for and the indices of the gaps they come from. */
    method CollectBatch() returns (ids: seq<Id>, used: seq<nat>)
      requires Valid()
      ensures Valid() && View() == old(View()) && Cells() == old(Cells())
      ensures ids == BatchIds(Gaps()) && used == UsedGaps(Gaps(), |Gaps()|)
      ensures IsBatch(Gaps(), ids, used)
    {
      hide ValuesOf, Pending, UsedGaps, BatchIds, IsBatch;
      BatchIsHead(Gaps());
      ids, used := [], [];
      BatchStart(Gaps());
      var i := 0;
      while i < len
        invariant i <= len && |ids| < MAX_BATCH
        invariant ids == Pending(Gaps()[..i]) && used == UsedGaps(Gaps(), i)
      {
        var s := gaps[i];
        assert Gaps()[i] == ValueOf(s) && |Gaps()[i].children| == s.len;
        if s.kind != More || s.len == 0 {
          BatchSkip(Gaps(), i);
        } else {
          BatchTake(Gaps(), i);
          ghost var before := ids;
          var j := 0;
          while j < s.len && |ids| < MAX_BATCH
            invariant j <= s.len && ids == before + s.cells[..j] && |ids| <= MAX_BATCH
          {
            ids := ids + [s.cells[j]];
            j := j + 1;
          }
          assert ids == (before + s.cells[..s.len])[..|ids|];
          used := used + [i];
          if |ids| >= MAX_BATCH {
            BatchFull(Gaps(), i + 1);
            return;
          }
        }
        i := i + 1;
      }
      BatchExhausted(Gaps());
    }

    /** Expands gaps round by round until a stop condition; `stop` records which. */
    method ExpandGaps(answers: seq<Answer>, maxRounds: int)
      returns (rounds: nat, calls: seq<seq<Id>>, stop: Stop)
      requires Valid()
      modifies this, gaps, Cells()
      ensures Valid() && (gaps == old(gaps) || fresh(gaps))
      ensures IsRun(old(View()), answers, maxRounds, Run(rounds, calls, stop))
      ensures View() == After(old(View()), answers, rounds)
      ensures Continues(View().gaps) == Continues(old(Gaps())) + AnnouncedContinues(answers, rounds)
    {
      hide ValuesOf, CellsOf, Pending, Merge, After, IsRun, BatchIds, UsedGaps, Continues, IsBatch;
      ghost var t := View();
      rounds, calls, stop := 0, [], RoundCap;
      RunStart(t, answers);
      while rounds < maxRounds
        invariant Valid() && View() == After(t, answers, rounds)
        invariant gaps == old(gaps) || fresh(gaps)
        invariant forall c :: c in Cells() ==> c in old(Cells()) || fresh(c)
        invariant IsRun(t, answers, rounds, Run(rounds, calls, RoundCap))
        invariant stop == RoundCap && (rounds <= maxRounds || rounds == 0)
      {
        var ids, used := CollectBatch();
        RunStep(t, answers, maxRounds, rounds, calls);
        if ids == [] {
          stop := NothingPending;
          ContinuesStay(t, answers, rounds);
          return;
        }
        calls := calls + [ids];
        match AnswerAt(answers, rounds) {
          case FetchFailed =>
            stop := FetchError;
            ContinuesStay(t, answers, rounds);
            return;
          case ParseFailed =>
            stop := ParseError;
            ContinuesStay(t, answers, rounds);
            return;
          case Parsed(newC, newG) =>
            AfterMerge(t, answers, rounds);
            MergeAnswer(newC, newG, ids, used);
            rounds := rounds + 1;
            if newC == [] && newG == [] {
              stop := EmptyReply;
              ContinuesStay(t, answers, rounds);
              return;
            }
        }
      }
      RunEnd(t, answers, maxRounds, rounds, calls);
      ContinuesStay(t, answers, rounds);
    }

    /** Decodes the gaps of an answer into buffers of their own and merges it. */
    method MergeAnswer(newC: seq<Comment>, newG: seq<Gap>, ids: seq<Id>, used: seq<nat>)
      requires Valid()
      modifies this, gaps, Cells()
      ensures Valid() && (gaps == old(gaps) || fresh(gaps))
      ensures forall c :: c in Cells() ==> c in old(Cells()) || fresh(c)
      ensures View() == Merge(old(View()), newC, newG, ids, used)
    {
      var slots := Allocate(newG);
      hide ValuesOf, Extend, Surviving, StrikeAt;
      MergeExpanded(newC, slots, ids, used);
    }

    /** Forgets the child IDs of every "more" gap before the thread is encoded. */
    method StripChildren()
      requires Valid()
      modifies gaps
      ensures Valid() && Cells() == old(Cells())
      ensures View() == Thread(old(comments), StrippedUpTo(old(Gaps()), |old(Gaps())|))
    {
      hide ValuesOf, StrippedUpTo;
      ghost var was := Gaps();
      StrippedStep(was, 0);
      for i := 0 to len
        invariant Valid() && Cells() == old(Cells())
        invariant Gaps() == StrippedUpTo(was, i)
      {
        StrippedStep(was, i);
        assert gaps[..len][i] == gaps[i];
        if gaps[i].kind == More {
          StripGap(i);
        }
      }
    }

    method StripGap(i: nat)
      requires Valid() && i < len
      modifies gaps
      ensures Valid() && Cells() == old(Cells())
      ensures Gaps() == old(Gaps())[i := old(Gaps())[i].(children := [])]
    {
      gaps[i] := gaps[i].(len := 0);
      SameCells(old(gaps[..len]), gaps[..len]);
    }
  }

  function StripOne(g: Gap): Gap {
    if g.kind == More then g.(children := []) else g
  }

  function StrippedUpTo(gaps: seq<Gap>, n: nat): seq<Gap>
    requires n <= |gaps|
  {
    seq(|gaps|, i requires 0 <= i < |gaps| => if i < n then StripOne(gaps[i]) else gaps[i])
  }

  lemma StrippedStep(gaps: seq<Gap>, n: nat)
    requires n <= |gaps|
    ensures n == 0 ==> StrippedUpTo(gaps, n) == gaps
    ensures n < |gaps| ==>
      StrippedUpTo(gaps, n)[n] == gaps[n] && StrippedUpTo(gaps, n + 1) == StrippedUpTo(gaps, n)[n := StripOne(gaps[n])]
  {
  }
}
