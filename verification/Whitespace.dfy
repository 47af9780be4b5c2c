/** Body normalisation: two regular-expression passes and a trim, and the one-pass
    reading of them. Text is a sequence of Unicode characters. */
module Whitespace {

  // The class [ \t\f\v].
  predicate Horizontal(c: char) {
    c == ' ' || c == '\t' || c == '\U{000C}' || c == '\U{000B}'
  }

  predicate Blank(c: char) {
    Horizontal(c) || c == '\n'
  }

  // unicode.IsSpace, which decides what the final trim removes.
  predicate IsSpace(c: char) {
    || Blank(c) || c == '\r' || c == '\U{0085}' || c == '\U{00A0}' || c == '\U{1680}'
    || '\U{2000}' <= c <= '\U{200A}' || c == '\U{2028}' || c == '\U{2029}'
    || c == '\U{202F}' || c == '\U{205F}' || c == '\U{3000}'
  }

  // -------------------------------------------------------------------- the passes

  // HorizontalRun is [ \t\f\v]{2,} and NewlineRun is [ \t\f\v]*(?:\n[ \t\f\v]*)+
  datatype Pattern = HorizontalRun | NewlineRun

  function HorizontalPrefix(s: string): (n: nat)
    ensures n <= |s|
  {
    if s != [] && Horizontal(s[0]) then 1 + HorizontalPrefix(s[1..]) else 0
  }

  // Greedy repetition of: one newline, then horizontal whitespace.
  function NewlineChunks(s: string): (n: nat)
    ensures n <= |s|
  {
    if s != [] && s[0] == '\n' then
      var chunk := 1 + HorizontalPrefix(s[1..]);
      chunk + NewlineChunks(s[chunk..])
    else 0
  }

  /** Length of the match at the start of s; 0 when there is none. */
  function MatchLength(p: Pattern, s: string): (n: nat)
    ensures n <= |s|
  {
    var h := HorizontalPrefix(s);
    match p
    case HorizontalRun => if h >= 2 then h else 0
    case NewlineRun =>
      var chunks := NewlineChunks(s[h..]);
      if chunks > 0 then h + chunks else 0
  }

  function Newlines(s: string): nat {
    if s == [] then 0 else (if s[0] == '\n' then 1 else 0) + Newlines(s[1..])
  }

  function Replacement(p: Pattern, found: string): string {
    match p
    case HorizontalRun => " "
    case NewlineRun => if Newlines(found) >= 2 then "\n\n" else "\n"
  }

  /** Leftmost, non-overlapping replacement. */
  function ReplaceAll(p: Pattern, s: string): string
    decreases |s|
  {
    if s == [] then []
    else
      var n := MatchLength(p, s);
      if n > 0 then Replacement(p, s[..n]) + ReplaceAll(p, s[n..])
      else [s[0]] + ReplaceAll(p, s[1..])
  }

  function TrimLeft(s: string): string {
    if s != [] && IsSpace(s[0]) then TrimLeft(s[1..]) else s
  }

  function TrimRight(s: string): string {
    if s != [] && IsSpace(s[|s| - 1]) then TrimRight(s[..|s| - 1]) else s
  }

  function TrimSpace(s: string): string {
    TrimRight(TrimLeft(s))
  }

  function CleanBody(s: string): string {
    if s == [] then s else TrimSpace(ReplaceAll(NewlineRun, ReplaceAll(HorizontalRun, s)))
  }

  // -------------------------------------- the scanners match what the patterns denote

  ghost predicate AllBlank(s: string) {
    forall i :: 0 <= i < |s| ==> Blank(s[i])
  }

  ghost predicate AllHorizontal(s: string) {
    forall i :: 0 <= i < |s| ==> Horizontal(s[i])
  }

  /** The strings a pattern matches as a whole. */
  ghost predicate Denotes(p: Pattern, m: string) {
    match p
    case HorizontalRun => |m| >= 2 && AllHorizontal(m)
    case NewlineRun => AllBlank(m) && exists i :: 0 <= i < |m| && m[i] == '\n'
  }

  function BlankPrefix(s: string): (n: nat)
    ensures n <= |s|
    ensures AllBlank(s[..n])
    ensures n < |s| ==> !Blank(s[n])
  {
    if s != [] && Blank(s[0]) then 1 + BlankPrefix(s[1..]) else 0
  }

  lemma {:induction false} HorizontalPrefixIsMaximal(s: string)
    ensures AllHorizontal(s[..HorizontalPrefix(s)])
    ensures HorizontalPrefix(s) < |s| ==> !Horizontal(s[HorizontalPrefix(s)])
  {
    if s != [] && Horizontal(s[0]) {
      HorizontalPrefixIsMaximal(s[1..]);
    }
  }

  lemma {:induction false} ChunksAreBlankPrefix(s: string)
    requires s != [] && s[0] == '\n'
    ensures NewlineChunks(s) == BlankPrefix(s)
    decreases |s|
  {
    var h := HorizontalPrefix(s[1..]);
    HorizontalPrefixIsMaximal(s[1..]);
    BlankPrefixSkips(s, 1 + h);
    if 1 + h < |s| && s[1 + h] == '\n' {
      ChunksAreBlankPrefix(s[1 + h..]);
    }
  }

  lemma {:induction false} BlankPrefixSkips(s: string, k: nat)
    requires k <= |s| && AllBlank(s[..k])
    ensures BlankPrefix(s) == k + BlankPrefix(s[k..])
  {
    if k > 0 {
      assert Blank(s[..k][0]);
      assert s[1..][..k - 1] == s[..k][1..];
      BlankPrefixSkips(s[1..], k - 1);
      assert s[1..][k - 1..] == s[k..];
    }
  }

  lemma {:induction false} HorizontalPrefixCovers(s: string, k: nat)
    requires k <= |s| && AllHorizontal(s[..k])
    ensures k <= HorizontalPrefix(s)
  {
    if k > 0 {
      assert Horizontal(s[..k][0]);
      assert s[1..][..k - 1] == s[..k][1..];
      HorizontalPrefixCovers(s[1..], k - 1);
    }
  }

  lemma NewlineMatch(s: string)
    ensures var h := HorizontalPrefix(s);
      MatchLength(NewlineRun, s) == if h < |s| && s[h] == '\n' then BlankPrefix(s) else 0
  {
    var h := HorizontalPrefix(s);
    HorizontalPrefixIsMaximal(s);
    BlankPrefixSkips(s, h);
    if h < |s| && s[h] == '\n' {
      ChunksAreBlankPrefix(s[h..]);
    }
  }

  /** The scanner finds the longest prefix the pattern denotes, or reports none. */
  lemma MatchIsLongest(p: Pattern, s: string, k: nat)
    requires k <= |s|
    ensures MatchLength(p, s) > 0 ==> Denotes(p, s[..MatchLength(p, s)])
    ensures Denotes(p, s[..k]) ==> k <= MatchLength(p, s)
  {
    hide HorizontalPrefix, NewlineChunks, BlankPrefix;
    var h := HorizontalPrefix(s);
    HorizontalPrefixIsMaximal(s);
    match p {
      case HorizontalRun =>
        if AllHorizontal(s[..k]) {
          HorizontalPrefixCovers(s, k);
        }
      case NewlineRun =>
        NewlineMatch(s);
        var b := BlankPrefix(s);
        if h < b && s[h] == '\n' {
          assert s[..b][h] == '\n';
        }
        if Denotes(p, s[..k]) {
          NewlineMatchCovers(s, k);
        }
    }
  }

  lemma NoNewlineBefore(s: string, h: nat, i: nat)
    requires h <= |s| && i < |s| && AllHorizontal(s[..h])
    ensures i < h ==> s[i] != '\n'
  {
    if i < h {
      assert Horizontal(s[..h][i]);
    }
  }

  lemma NewlineMatchCovers(s: string, k: nat)
    requires k <= |s| && Denotes(NewlineRun, s[..k])
    ensures k <= MatchLength(NewlineRun, s)
  {
    hide HorizontalPrefix, NewlineChunks, BlankPrefix, MatchLength;
    var h := HorizontalPrefix(s);
    HorizontalPrefixIsMaximal(s);
    NewlineMatch(s);
    BlankPrefixSkips(s, k);
    var i :| 0 <= i < k && s[..k][i] == '\n';
    NoNewlineBefore(s, h, i);
    assert Blank(s[..k][h]);
  }
}
