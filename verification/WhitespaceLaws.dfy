/** The two-pass normaliser equals a one-pass map over maximal runs of blanks; its
    fixpoints are exactly the tidy, trimmed texts. */
module WhitespaceLaws {
  import opened Whitespace

  /** What becomes of one maximal run of blanks. */
  function NormalRun(run: string): string {
    var k := Newlines(run);
    if k == 0 then (if |run| <= 1 then run else " ")
    else if k == 1 then "\n"
    else "\n\n"
  }

  function OnePass(s: string): string
    decreases |s|
  {
    if s == [] then []
    else if !Blank(s[0]) then [s[0]] + OnePass(s[1..])
    else
      var n := BlankPrefix(s);
      NormalRun(s[..n]) + OnePass(s[n..])
  }

  ghost predicate StartsSolid(s: string) {
    s == [] || !Blank(s[0])
  }

  // ---------------------------------------------------- a pass works run by run

  lemma {:induction false} HorizontalPrefixLocal(run: string, rest: string)
    requires StartsSolid(rest)
    ensures HorizontalPrefix(run + rest) == HorizontalPrefix(run)
  {
    if run == [] {
      assert run + rest == rest;
    } else {
      assert (run + rest)[1..] == run[1..] + rest;
      HorizontalPrefixLocal(run[1..], rest);
    }
  }

  lemma {:induction false} NewlineChunksLocal(run: string, rest: string)
    requires StartsSolid(rest)
    ensures NewlineChunks(run + rest) == NewlineChunks(run)
    decreases |run|
  {
    hide HorizontalPrefix;
    if run == [] {
      assert run + rest == rest;
    } else if run[0] == '\n' {
      assert (run + rest)[1..] == run[1..] + rest;
      HorizontalPrefixLocal(run[1..], rest);
      var chunk := 1 + HorizontalPrefix(run[1..]);
      assert (run + rest)[chunk..] == run[chunk..] + rest;
      NewlineChunksLocal(run[chunk..], rest);
    }
  }

  lemma MatchLocal(p: Pattern, run: string, rest: string)
    requires StartsSolid(rest)
    ensures MatchLength(p, run + rest) == MatchLength(p, run)
  {
    HorizontalPrefixLocal(run, rest);
    var h := HorizontalPrefix(run);
    assert (run + rest)[h..] == run[h..] + rest;
    NewlineChunksLocal(run[h..], rest);
  }

  lemma {:induction false} ReplaceAllLocal(p: Pattern, run: string, rest: string)
    requires StartsSolid(rest)
    ensures ReplaceAll(p, run + rest) == ReplaceAll(p, run) + ReplaceAll(p, rest)
    decreases |run|
  {
    hide MatchLength, Replacement;
    if run == [] {
      assert run + rest == rest;
    } else {
      MatchLocal(p, run, rest);
      var n := MatchLength(p, run);
      var k := if n > 0 then n else 1;
      assert (run + rest)[k..] == run[k..] + rest;
      assert (run + rest)[..n] == run[..n];
      ReplaceAllLocal(p, run[k..], rest);
    }
  }

  lemma ReplaceAllSolid(p: Pattern, s: string)
    requires s != [] && !Blank(s[0])
    ensures ReplaceAll(p, s) == [s[0]] + ReplaceAll(p, s[1..])
  {
  }

  lemma ReplaceAllStartsSolid(p: Pattern, s: string)
    requires StartsSolid(s)
    ensures StartsSolid(ReplaceAll(p, s))
  {
  }

  // ------------------------------------------------------------ one run on its own

  lemma {:induction false} HorizontalPassOnRun(run: string)
    requires AllBlank(run)
    ensures AllBlank(ReplaceAll(HorizontalRun, run))
    ensures Newlines(ReplaceAll(HorizontalRun, run)) == Newlines(run)
    ensures Newlines(run) == 0 ==> ReplaceAll(HorizontalRun, run) == if |run| <= 1 then run else " "
    decreases |run|
  {
    if run != [] {
      var n := MatchLength(HorizontalRun, run);
      HorizontalPrefixIsMaximal(run);
      if n > 0 {
        NewlinesAfterHorizontal(run, n);
        HorizontalPassOnRun(run[n..]);
        if n < |run| {
          assert run[n] == '\n';
        }
      } else {
        HorizontalPassOnRun(run[1..]);
        assert ([run[0]] + ReplaceAll(HorizontalRun, run[1..]))[1..] == ReplaceAll(HorizontalRun, run[1..]);
        if |run| > 1 && run[0] != '\n' {
          assert run[1] == '\n';
        }
      }
    }
  }

  lemma {:induction false} NewlinesAfterHorizontal(s: string, n: nat)
    requires n <= |s| && AllHorizontal(s[..n])
    ensures Newlines(s) == Newlines(s[n..])
  {
    if n > 0 {
      assert Horizontal(s[..n][0]);
      assert s[1..][..n - 1] == s[..n][1..];
      NewlinesAfterHorizontal(s[1..], n - 1);
      assert s[1..][n - 1..] == s[n..];
    }
  }

  lemma {:induction false} SomeNewline(s: string) returns (i: nat)
    requires Newlines(s) > 0
    ensures i < |s| && s[i] == '\n'
  {
    if s[0] == '\n' {
      i := 0;
    } else {
      i := SomeNewline(s[1..]);
      i := i + 1;
    }
  }

  lemma NewlinePassOnRun(run: string)
    requires AllBlank(run) && Newlines(run) > 0
    ensures ReplaceAll(NewlineRun, run) == Replacement(NewlineRun, run)
  {
    hide MatchLength, Replacement;
    var i := SomeNewline(run);
    assert run[..|run|] == run && run[|run|..] == [];
    MatchIsLongest(NewlineRun, run, |run|);
  }

  lemma RunIsNormalised(run: string)
    requires run != [] && AllBlank(run)
    ensures ReplaceAll(NewlineRun, ReplaceAll(HorizontalRun, run)) == NormalRun(run)
  {
    HorizontalPassOnRun(run);
    var h := ReplaceAll(HorizontalRun, run);
    if Newlines(run) > 0 {
      NewlinePassOnRun(h);
    } else {
      assert |h| == 1 && h[0] != '\n';
      assert h[1..] == [];
    }
  }

  /** The pipeline of two passes is the one-pass map over maximal blank runs. */
  lemma {:induction false} TwoPassesAreOne(s: string)
    ensures ReplaceAll(NewlineRun, ReplaceAll(HorizontalRun, s)) == OnePass(s)
    decreases |s|
  {
    if s == [] {
    } else if !Blank(s[0]) {
      ReplaceAllSolid(HorizontalRun, s);
      var first := ReplaceAll(HorizontalRun, s);
      assert first[1..] == ReplaceAll(HorizontalRun, s[1..]);
      ReplaceAllSolid(NewlineRun, first);
      TwoPassesAreOne(s[1..]);
    } else {
      var n := BlankPrefix(s);
      var run, rest := s[..n], s[n..];
      assert s == run + rest;
      ReplaceAllLocal(HorizontalRun, run, rest);
      ReplaceAllStartsSolid(HorizontalRun, rest);
      ReplaceAllLocal(NewlineRun, ReplaceAll(HorizontalRun, run), ReplaceAll(HorizontalRun, rest));
      RunIsNormalised(run);
      TwoPassesAreOne(rest);
    }
  }

  // ---------------------------------------------------------------- tidy texts

  /** No two adjacent blanks other than a pair of newlines, and no three in a row:
      no repeated horizontal space, none beside a newline, no blank-line spam. */
  ghost predicate Tidy(s: string) {
    && (forall i :: 0 <= i < |s| - 1 && Blank(s[i]) && Blank(s[i + 1]) ==> s[i] == s[i + 1] == '\n')
    && (forall i :: 0 <= i < |s| - 2 ==> !(Blank(s[i]) && Blank(s[i + 1]) && Blank(s[i + 2])))
  }

  lemma TidyConcat(a: string, b: string)
    requires Tidy(a) && Tidy(b)
    requires StartsSolid(b) || (a != [] && !Blank(a[|a| - 1]))
    ensures Tidy(a + b)
  {
  }

  lemma TidySlice(s: string, i: nat, j: nat)
    requires i <= j <= |s| && Tidy(s)
    ensures Tidy(s[i..j])
  {
  }

  lemma NormalRunIsTidy(run: string)
    ensures Tidy(NormalRun(run)) && |NormalRun(run)| <= 2
    ensures AllBlank(run) && run != [] ==> AllBlank(NormalRun(run)) && 1 <= |NormalRun(run)| <= |run|
  {
    NewlinesAtMostLength(run);
  }

  lemma {:induction false} NewlinesAtMostLength(s: string)
    ensures Newlines(s) <= |s|
  {
    if s != [] {
      NewlinesAtMostLength(s[1..]);
    }
  }

  lemma {:induction false} OnePassIsTidy(s: string)
    ensures Tidy(OnePass(s)) && |OnePass(s)| <= |s|
    ensures StartsSolid(s) ==> StartsSolid(OnePass(s))
    decreases |s|
  {
    if s == [] {
    } else if !Blank(s[0]) {
      OnePassIsTidy(s[1..]);
      TidyConcat([s[0]], OnePass(s[1..]));
    } else {
      var n := BlankPrefix(s);
      NormalRunIsTidy(s[..n]);
      OnePassIsTidy(s[n..]);
      TidyConcat(NormalRun(s[..n]), OnePass(s[n..]));
    }
  }

  lemma NewlinesOfPair(a: char, b: char)
    ensures Newlines([a]) == (if a == '\n' then 1 else 0)
    ensures Newlines([a, b]) == (if a == '\n' then 1 else 0) + Newlines([b])
  {
    assert [a][1..] == [] && [a, b][1..] == [b];
  }

  lemma LongBlankRunIsUntidy(run: string)
    requires AllBlank(run) && |run| >= 3
    ensures !Tidy(run)
  {
    assert Blank(run[0]) && Blank(run[1]) && Blank(run[2]);
  }

  lemma TidyRunIsFixed(run: string)
    requires run != [] && AllBlank(run) && Tidy(run)
    ensures NormalRun(run) == run
  {
    hide Newlines;
    if |run| >= 3 {
      LongBlankRunIsUntidy(run);
      assert false;
    } else if |run| == 1 {
      NewlinesOfPair(run[0], run[0]);
      assert run == [run[0]];
    } else {
      assert Blank(run[0]) && Blank(run[1]);
      NewlinesOfPair(run[0], run[1]);
      NewlinesOfPair(run[1], run[1]);
      assert run == [run[0], run[1]];
    }
  }

  lemma {:induction false} TidyIsFixed(s: string)
    requires Tidy(s)
    ensures OnePass(s) == s
    decreases |s|
  {
    hide NormalRun;
    if s == [] {
    } else if !Blank(s[0]) {
      TidySlice(s, 1, |s|);
      TidyIsFixed(s[1..]);
    } else {
      var n := BlankPrefix(s);
      TidySlice(s, 0, n);
      TidyRunIsFixed(s[..n]);
      assert s == s[..n] + s[n..];
      TidySlice(s, n, |s|);
      TidyIsFixed(s[n..]);
    }
  }

  // --------------------------------------------------------------- visible text

  function Visible(s: string): string {
    if s == [] then []
    else if IsSpace(s[0]) then Visible(s[1..])
    else [s[0]] + Visible(s[1..])
  }

  lemma {:induction false} VisibleConcat(a: string, b: string)
    ensures Visible(a + b) == Visible(a) + Visible(b)
  {
    if a == [] {
      assert a + b == b;
    } else {
      assert (a + b)[1..] == a[1..] + b;
      VisibleConcat(a[1..], b);
    }
  }

  lemma {:induction false} BlankIsInvisible(s: string)
    requires AllBlank(s)
    ensures Visible(s) == []
  {
    if s != [] {
      BlankIsInvisible(s[1..]);
    }
  }

  lemma {:induction false} OnePassKeepsVisible(s: string)
    ensures Visible(OnePass(s)) == Visible(s)
    decreases |s|
  {
    if s == [] {
    } else if !Blank(s[0]) {
      OnePassKeepsVisible(s[1..]);
      assert OnePass(s)[1..] == OnePass(s[1..]);
    } else {
      var n := BlankPrefix(s);
      assert s == s[..n] + s[n..];
      NormalRunIsTidy(s[..n]);
      VisibleConcat(s[..n], s[n..]);
      VisibleConcat(NormalRun(s[..n]), OnePass(s[n..]));
      BlankIsInvisible(s[..n]);
      BlankIsInvisible(NormalRun(s[..n]));
      OnePassKeepsVisible(s[n..]);
    }
  }

  // ----------------------------------------------------------------- the trim

  ghost predicate Trimmed(s: string) {
    s != [] ==> !IsSpace(s[0]) && !IsSpace(s[|s| - 1])
  }

  lemma {:induction false} TrimLeftIsSuffix(s: string) returns (i: nat)
    ensures i <= |s| && TrimLeft(s) == s[i..]
    ensures forall k :: 0 <= k < i ==> IsSpace(s[k])
    ensures i < |s| ==> !IsSpace(s[i])
    ensures Visible(s[i..]) == Visible(s)
  {
    if s != [] && IsSpace(s[0]) {
      i := TrimLeftIsSuffix(s[1..]);
      assert s[1..][i..] == s[i + 1..];
      i := i + 1;
    } else {
      i := 0;
    }
  }

  lemma {:induction false} TrimRightIsPrefix(s: string) returns (j: nat)
    ensures j <= |s| && TrimRight(s) == s[..j]
    ensures forall k :: j <= k < |s| ==> IsSpace(s[k])
    ensures j > 0 ==> !IsSpace(s[j - 1])
    ensures Visible(s[..j]) == Visible(s)
  {
    if s != [] && IsSpace(s[|s| - 1]) {
      var n := |s| - 1;
      j := TrimRightIsPrefix(s[..n]);
      assert s[..n][..j] == s[..j];
      assert s == s[..n] + [s[n]];
      VisibleConcat(s[..n], [s[n]]);
    } else {
      j := |s|;
      assert s[..j] == s;
    }
  }

  lemma TrimSpaceIsSlice(s: string) returns (i: nat, j: nat)
    ensures i <= j <= |s| && TrimSpace(s) == s[i..j] && Trimmed(s[i..j])
    ensures forall k :: 0 <= k < i || j <= k < |s| ==> IsSpace(s[k])
    ensures Visible(s[i..j]) == Visible(s)
  {
    i := TrimLeftIsSuffix(s);
    var k := TrimRightIsPrefix(s[i..]);
    j := i + k;
    assert s[i..][..k] == s[i..j];
    assert forall m :: j <= m < |s| ==> s[m] == s[i..][m - i];
  }

  lemma TrimmedIsFixed(s: string)
    requires Trimmed(s)
    ensures TrimSpace(s) == s
  {
  }

  // ------------------------------------------------------ the one pass, from outside

  lemma OnePassSolid(s: string)
    requires s != [] && !Blank(s[0])
    ensures OnePass(s) == [s[0]] + OnePass(s[1..])
  {
  }

  lemma {:induction false} BlankPrefixLocal(run: string, rest: string)
    requires AllBlank(run) && StartsSolid(rest)
    ensures BlankPrefix(run + rest) == |run|
  {
    assert (run + rest)[..|run|] == run && (run + rest)[|run|..] == rest;
    BlankPrefixSkips(run + rest, |run|);
  }

  /** Text without blanks passes unchanged, and what follows is treated on its own. */
  lemma {:induction false} OnePassOfWord(word: string, rest: string)
    requires forall i :: 0 <= i < |word| ==> !Blank(word[i])
    ensures OnePass(word + rest) == word + OnePass(rest)
  {
    if word == [] {
      assert word + rest == rest;
    } else {
      assert (word + rest)[1..] == word[1..] + rest;
      OnePassSolid(word + rest);
      OnePassOfWord(word[1..], rest);
    }
  }

  lemma {:induction false} NewlinesAreCounted(s: string)
    ensures Newlines(s) == multiset(s)['\n']
  {
    if s != [] {
      assert s == [s[0]] + s[1..];
      NewlinesAreCounted(s[1..]);
    }
  }

  /** A maximal run of blanks becomes "\n\n" when it has two newlines or more, "\n" when it
      has one, and otherwise one blank: itself when it is alone, a space when it is not. */
  lemma OnePassOfRun(run: string, rest: string)
    requires run != [] && AllBlank(run) && StartsSolid(rest)
    ensures OnePass(run + rest)
         == (if multiset(run)['\n'] >= 2 then "\n\n" else if multiset(run)['\n'] == 1 then "\n"
             else if |run| == 1 then run else " ") + OnePass(rest)
  {
    BlankPrefixLocal(run, rest);
    NewlinesAreCounted(run);
    assert (run + rest)[..|run|] == run && (run + rest)[|run|..] == rest;
  }

  /** The characters that regular expressions and trim treat as space. */
  lemma SpaceCharacters(c: char)
    ensures Horizontal(c) <==> c in {' ', '\t', '\U{000B}', '\U{000C}'}
    ensures Blank(c) <==> c in {' ', '\t', '\U{000B}', '\U{000C}', '\n'}
    ensures IsSpace(c) <==>
            c in " \t\n\r\U{000B}\U{000C}\U{0085}\U{00A0}\U{1680}\U{2028}\U{2029}\U{202F}\U{205F}\U{3000}"
            || '\U{2000}' <= c <= '\U{200A}'
  {
  }

  // -------------------------------------------------------------- main results

  /** Normalising is the one pass over blank runs and a trim, for every text. */
  lemma CleanBodyIsOnePass(s: string)
    ensures CleanBody(s) == TrimSpace(OnePass(s))
  {
    TwoPassesAreOne(s);
  }

  /** The normalised body is tidy and trimmed, no longer than the original, and has the
      same non-space characters in the same order. */
  lemma CleanBodyNormalises(s: string)
    ensures Tidy(CleanBody(s)) && Trimmed(CleanBody(s))
    ensures |CleanBody(s)| <= |s|
    ensures Visible(CleanBody(s)) == Visible(s)
  {
    if s != [] {
      TwoPassesAreOne(s);
      OnePassIsTidy(s);
      OnePassKeepsVisible(s);
      var i, j := TrimSpaceIsSlice(OnePass(s));
      TidySlice(OnePass(s), i, j);
    }
  }

  /** A text is left alone exactly when it is tidy and trimmed. */
  lemma CleanBodyFixpoints(s: string)
    ensures CleanBody(s) == s <==> Tidy(s) && Trimmed(s)
  {
    CleanBodyNormalises(s);
    if Tidy(s) && Trimmed(s) && s != [] {
      TwoPassesAreOne(s);
      TidyIsFixed(s);
      TrimmedIsFixed(s);
    }
  }

  lemma CleanBodyIdempotent(s: string)
    ensures CleanBody(CleanBody(s)) == CleanBody(s)
  {
    CleanBodyNormalises(s);
    CleanBodyFixpoints(CleanBody(s));
  }
}
