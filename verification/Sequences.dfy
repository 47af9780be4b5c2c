/** Facts about sequences used by several models: distinctness, order-preserving
    removal, and counting the members of an interval in a spaced sequence of times. */
module Sequences {

  ghost predicate Distinct<T>(s: seq<T>) {
    forall i, j :: 0 <= i < j < |s| ==> s[i] != s[j]
  }

  function Elements<T>(s: seq<T>): set<T> {
    set x | x in s
  }

  function Min(a: int, b: int): int {
    if a <= b then a else b
  }

  lemma ElementsOfConcat<T>(a: seq<T>, b: seq<T>)
    ensures Elements(a + b) == Elements(a) + Elements(b)
  {
  }

  lemma DistinctParts<T>(a: seq<T>, b: seq<T>)
    requires Distinct(a + b)
    ensures Distinct(a) && Distinct(b)
    ensures Elements(a) !! Elements(b)
  {
    var s := a + b;
    assert forall i :: 0 <= i < |a| ==> s[i] == a[i];
    assert forall i :: 0 <= i < |b| ==> s[|a| + i] == b[i];
  }

  lemma DistinctJoin<T>(a: seq<T>, b: seq<T>)
    requires Distinct(a) && Distinct(b) && Elements(a) !! Elements(b)
    ensures Distinct(a + b)
  {
    forall i, j | 0 <= i < j < |a + b| ensures (a + b)[i] != (a + b)[j] {
      if i < |a| <= j {
        assert a[i] in Elements(a) && b[j - |a|] in Elements(b);
      }
    }
  }

  /** Order-preserving removal of every member of `gone`. */
  function Without<T(==)>(s: seq<T>, gone: set<T>): seq<T> {
    if s == [] then []
    else
      var kept := Without(s[..|s| - 1], gone);
      if s[|s| - 1] in gone then kept else kept + [s[|s| - 1]]
  }

  lemma {:induction false} WithoutConcat<T>(a: seq<T>, b: seq<T>, gone: set<T>)
    ensures Without(a + b, gone) == Without(a, gone) + Without(b, gone)
  {
    if b == [] {
      assert a + b == a;
    } else {
      assert (a + b)[..|a + b| - 1] == a + b[..|b| - 1];
      WithoutConcat(a, b[..|b| - 1], gone);
    }
  }

  lemma {:induction false} WithoutUntouched<T>(s: seq<T>, gone: set<T>)
    requires Elements(s) !! gone
    ensures Without(s, gone) == s
  {
    if s != [] {
      assert s == s[..|s| - 1] + [s[|s| - 1]];
      ElementsOfConcat(s[..|s| - 1], [s[|s| - 1]]);
      assert s[|s| - 1] in Elements(s);
      WithoutUntouched(s[..|s| - 1], gone);
    }
  }

  lemma {:induction false} WithoutAll<T>(s: seq<T>, gone: set<T>)
    requires Elements(s) <= gone
    ensures Without(s, gone) == []
  {
    if s != [] {
      assert s == s[..|s| - 1] + [s[|s| - 1]];
      ElementsOfConcat(s[..|s| - 1], [s[|s| - 1]]);
      assert s[|s| - 1] in Elements(s);
      WithoutAll(s[..|s| - 1], gone);
    }
  }

  /** Exactly the members outside `gone` stay, and no member is gained. */
  lemma {:induction false} WithoutMembers<T>(s: seq<T>, gone: set<T>)
    ensures Elements(Without(s, gone)) == Elements(s) - gone
    ensures |Without(s, gone)| <= |s|
    ensures multiset(Without(s, gone)) <= multiset(s)
  {
    if s != [] {
      assert s == s[..|s| - 1] + [s[|s| - 1]];
      ElementsOfConcat(s[..|s| - 1], [s[|s| - 1]]);
      WithoutMembers(s[..|s| - 1], gone);
      ElementsOfConcat(Without(s[..|s| - 1], gone), [s[|s| - 1]]);
    }
  }

  lemma WithoutTwice<T>(s: seq<T>, gone: set<T>)
    ensures Without(Without(s, gone), gone) == Without(s, gone)
  {
    WithoutMembers(s, gone);
    WithoutUntouched(Without(s, gone), gone);
  }

  /** Removing a prefix of a distinct sequence, by membership, leaves the suffix. */
  lemma WithoutPrefix<T>(s: seq<T>, k: nat)
    requires k <= |s| && Distinct(s)
    ensures Without(s, Elements(s[..k])) == s[k..]
  {
    assert s == s[..k] + s[k..];
    DistinctParts(s[..k], s[k..]);
    WithoutConcat(s[..k], s[k..], Elements(s[..k]));
    WithoutAll(s[..k], Elements(s[..k]));
    WithoutUntouched(s[k..], Elements(s[..k]));
  }

  /** Removing a set that covers the first k members removes at least k of them. */
  lemma WithoutShrinks<T>(s: seq<T>, k: nat, gone: set<T>)
    requires k <= |s| && Elements(s[..k]) <= gone
    ensures |Without(s, gone)| <= |s| - k
  {
    assert s == s[..k] + s[k..];
    WithoutConcat(s[..k], s[k..], gone);
    WithoutAll(s[..k], gone);
    WithoutMembers(s[k..], gone);
  }

  lemma Overlap<T>(a: seq<T>, b: seq<T>, c: seq<T>, d: seq<T>)
    requires a + b == c + d && |a| <= |c|
    ensures a == c[..|a|] && b == c[|a|..] + d
  {
    assert (a + b)[..|a|] == a && (c + d)[..|a|] == c[..|a|];
    assert (a + b)[|a|..] == b && (c + d)[|a|..] == c[|a|..] + d;
  }

  /** r lists the members of s at the increasing positions `at`. */
  ghost predicate Selects<T>(s: seq<T>, r: seq<T>, at: seq<nat>) {
    && |at| == |r|
    && (forall k :: 0 <= k < |at| ==> at[k] < |s| && r[k] == s[at[k]])
    && (forall k, l :: 0 <= k < l < |at| ==> at[k] < at[l])
  }

  /** One more member, taken or not. */
  lemma SelectsNext<T>(s: seq<T>, n: nat, r: seq<T>, at: seq<nat>)
    requires n < |s| && Selects(s[..n], r, at)
    ensures Selects(s, r, at) && Selects(s, r + [s[n]], at + [n])
    ensures forall i: nat :: i in at + [n] <==> i in at || i == n
    ensures forall i: nat :: i in at ==> i < n
  {
  }

  /** Removal keeps exactly the members outside the set, each once and in order. */
  lemma {:induction false} WithoutSelects<T>(s: seq<T>, gone: set<T>) returns (at: seq<nat>)
    ensures Selects(s, Without(s, gone), at)
    ensures forall i: nat :: i in at <==> i < |s| && s[i] !in gone
  {
    if s == [] {
      at := [];
    } else {
      var n := |s| - 1;
      at := WithoutSelects(s[..n], gone);
      SelectsNext(s, n, Without(s[..n], gone), at);
      hide Selects;
      if s[n] !in gone {
        at := at + [n];
      }
    }
  }

  function Flatten<T>(ss: seq<seq<T>>): seq<T> {
    if ss == [] then [] else Flatten(ss[..|ss| - 1]) + ss[|ss| - 1]
  }

  /** Members of `times` in the closed interval from..to. */
  function CountWithin(times: seq<int>, from: int, to: int): nat {
    if times == [] then 0
    else
      CountWithin(times[..|times| - 1], from, to)
      + if from <= times[|times| - 1] <= to then 1 else 0
  }

  ghost predicate Spaced(times: seq<int>, gap: int) {
    forall i, j :: 0 <= i < j < |times| ==> times[i] + gap <= times[j]
  }

  lemma {:induction false} NoneWithin(times: seq<int>, from: int, to: int)
    requires forall i :: 0 <= i < |times| ==> times[i] < from
    ensures CountWithin(times, from, to) == 0
  {
    if times != [] {
      NoneWithin(times[..|times| - 1], from, to);
    }
  }

  lemma {:induction false} NarrowWindow(times: seq<int>, from: int, to: int, last: int)
    requires last <= to
    requires forall i :: 0 <= i < |times| ==> times[i] <= last
    ensures CountWithin(times, from, to) == CountWithin(times, from, last)
  {
    if times != [] {
      NarrowWindow(times[..|times| - 1], from, to, last);
    }
  }

  lemma OneMoreGap(m: nat, gap: int, length: int)
    requires 0 <= gap <= length && (m >= 1 ==> (m - 1) * gap <= length - gap)
    ensures m * gap <= length
  {
    assert m * gap == (m - 1) * gap + gap;
  }

  lemma {:induction false} SpacedCountTimesGap(times: seq<int>, gap: int, from: int, to: int)
    requires Spaced(times, gap) && gap >= 0 && from <= to
    ensures CountWithin(times, from, to) >= 1 ==> (CountWithin(times, from, to) - 1) * gap <= to - from
  {
    if times != [] {
      var last, rest := times[|times| - 1], times[..|times| - 1];
      if from <= last <= to {
        if last - gap < from {
          NoneWithin(rest, from, to);
        } else {
          NarrowWindow(rest, from, to, last - gap);
          SpacedCountTimesGap(rest, gap, from, last - gap);
          OneMoreGap(CountWithin(rest, from, to), gap, last - from);
        }
      } else {
        SpacedCountTimesGap(rest, gap, from, to);
      }
    }
  }

  lemma QuotientBound(n: nat, gap: int, length: int)
    requires gap > 0 && length >= 0 && (n >= 1 ==> (n - 1) * gap <= length)
    ensures n <= length / gap + 1
  {
    if n >= 1 && n - 1 > length / gap {
      assert length < (length / gap + 1) * gap;
      assert (length / gap + 1) * gap <= (n - 1) * gap by {
        MultiplyMonotone(length / gap + 1, n - 1, gap);
      }
    }
  }

  lemma MultiplyMonotone(a: int, b: int, c: int)
    requires a <= b && c >= 0
    ensures a * c <= b * c
  {
    assert (b - a) * c >= 0;
    assert b * c == a * c + (b - a) * c;
  }

  /** At most length/gap + 1 members of a gap-spaced sequence fit in a closed window. */
  lemma SpacedCount(times: seq<int>, gap: int, from: int, length: int)
    requires Spaced(times, gap) && gap > 0 && length >= 0
    ensures CountWithin(times, from, from + length) <= length / gap + 1
  {
    SpacedCountTimesGap(times, gap, from, from + length);
    QuotientBound(CountWithin(times, from, from + length), gap, length);
  }
}
