/** Canonical thread permalinks and the browser session key derived from them. Works on
    the path of an already parsed URL. */
module Permalink {
  import opened Wrappers

  datatype CharClass = NotSlash | IdChar | SlugChar

  predicate Member(k: CharClass, c: char) {
    match k
    case NotSlash => c != '/'
    case IdChar => 'a' <= c <= 'z' || '0' <= c <= '9'
    case SlugChar => c != '/' && c != '?' && c != '#'
  }

  ghost predicate All(k: CharClass, s: string) {
    forall i :: 0 <= i < |s| ==> Member(k, s[i])
  }

  /** Length of the longest prefix made of members of the class. */
  function Prefix(k: CharClass, s: string): (n: nat)
    ensures n <= |s| && All(k, s[..n])
    ensures n < |s| ==> !Member(k, s[n])
  {
    if s != "" && Member(k, s[0]) then 1 + Prefix(k, s[1..]) else 0
  }

  // (?:/[^/?#]+)?
  function SlugPart(s: string): (n: nat)
    ensures n <= |s|
  {
    if s != "" && s[0] == '/' && Prefix(SlugChar, s[1..]) > 0 then 1 + Prefix(SlugChar, s[1..]) else 0
  }

  // /comments/[a-z0-9]+(?:/[^/?#]+)?
  function CommentsPart(s: string): (n: nat)
    ensures n <= |s|
  {
    if !("/comments/" <= s) then 0
    else
      var id := Prefix(IdChar, s[10..]);
      if id == 0 then 0 else 10 + id + SlugPart(s[10 + id..])
  }

  /** Length of the capture of /r/[^/]+/comments/[a-z0-9]+(?:/[^/?#]+)? when the pattern
      matches at the start of s, 0 when it does not. */
  function MatchHere(s: string): (n: nat)
    ensures n <= |s|
  {
    if !("/r/" <= s) then 0
    else
      var sub := Prefix(NotSlash, s[3..]);
      var rest := CommentsPart(s[3 + sub..]);
      if sub == 0 || rest == 0 then 0 else 3 + sub + rest
  }

  /** The capture of the leftmost match. */
  function Find(s: string): (r: Option<string>)
    ensures r.Some? ==> |r.value| <= |s|
  {
    if MatchHere(s) > 0 then Some(s[..MatchHere(s)])
    else if s == "" then None
    else Find(s[1..])
  }

  predicate EndsWith(s: string, suffix: string) {
    |suffix| <= |s| && s[|s| - |suffix|..] == suffix
  }

  function TrimSuffix(s: string, suffix: string): (r: string)
    ensures |r| <= |s|
  {
    if EndsWith(s, suffix) then s[..|s| - |suffix|] else s
  }

  function NormalizePath(path: string): Option<string> {
    Find(TrimSuffix(TrimSuffix(path, "/"), ".json"))
  }

  // ------------------------------------------------------------- canonical permalinks

  /** /r/{sub}/comments/{id}[/{slug}], the slug being absent when empty. */
  function Canonical(sub: string, id: string, slug: string): string {
    "/r/" + sub + "/comments/" + id + Tail(slug)
  }

  /** A subreddit without slashes, an ID of lower-case letters and digits, and a slug
      without the characters that end it. */
  ghost predicate WellFormed(sub: string, id: string, slug: string) {
    && sub != "" && '/' !in sub
    && id != "" && (forall i :: 0 <= i < |id| ==> 'a' <= id[i] <= 'z' || '0' <= id[i] <= '9')
    && '/' !in slug && '?' !in slug && '#' !in slug
  }

  lemma WellFormedParts(sub: string, id: string, slug: string)
    ensures WellFormed(sub, id, slug) <==>
            sub != "" && All(NotSlash, sub) && id != "" && All(IdChar, id) && All(SlugChar, slug)
  {
  }

  lemma {:induction false} PrefixOf(k: CharClass, run: string, rest: string)
    requires All(k, run) && (rest == "" || !Member(k, rest[0]))
    ensures Prefix(k, run + rest) == |run|
  {
    if run == "" {
      assert run + rest == rest;
    } else {
      assert Member(k, run[0]);
      assert (run + rest)[1..] == run[1..] + rest;
      PrefixOf(k, run[1..], rest);
    }
  }

  function Tail(slug: string): string {
    if slug == "" then "" else "/" + slug
  }

  lemma SlugMatches(slug: string, end: string)
    requires All(SlugChar, slug) && (end == "" || end == "/")
    ensures SlugPart(Tail(slug) + end) == |Tail(slug)|
  {
    var s := Tail(slug) + end;
    if slug != "" {
      assert s[1..] == slug + end;
      PrefixOf(SlugChar, slug, end);
    } else if end == "/" {
      assert s == "/" && s[1..] == "";
    } else {
      assert s == "";
    }
  }

  lemma CommentsMatches(id: string, slug: string, end: string)
    requires id != "" && All(IdChar, id) && All(SlugChar, slug) && (end == "" || end == "/")
    ensures var s := "/comments/" + (id + (Tail(slug) + end));
      CommentsPart(s) == 10 + |id| + |Tail(slug)|
  {
    hide SlugPart, Prefix;
    var tail := Tail(slug) + end;
    Halves("/comments/", id + tail);
    Halves(id, tail);
    Halves("/comments/" + id, tail);
    assert "/comments/" + (id + tail) == "/comments/" + id + tail;
    PrefixOf(IdChar, id, tail);
    SlugMatches(slug, end);
  }

  lemma Halves(a: string, b: string)
    ensures a <= a + b && (a + b)[..|a|] == a && (a + b)[|a|..] == b
  {
  }

  /** A canonical permalink, alone or followed by a slash, is matched as a whole. */
  lemma MatchesWhole(sub: string, id: string, slug: string, end: string)
    requires WellFormed(sub, id, slug) && (end == "" || end == "/")
    ensures MatchHere(Canonical(sub, id, slug) + end) == |Canonical(sub, id, slug)|
  {
    hide CommentsPart, Prefix, Tail;
    var rest := "/comments/" + (id + (Tail(slug) + end));
    var s := Canonical(sub, id, slug) + end;
    assert s == "/r/" + (sub + rest);
    assert s[3..] == sub + rest && s[3 + |sub|..] == rest;
    PrefixOf(NotSlash, sub, rest);
    CommentsMatches(id, slug, end);
  }

  lemma FoundAtOnce(sub: string, id: string, slug: string, end: string)
    requires WellFormed(sub, id, slug) && (end == "" || end == "/")
    ensures Find(Canonical(sub, id, slug) + end) == Some(Canonical(sub, id, slug))
  {
    hide MatchHere, Canonical;
    var p := Canonical(sub, id, slug);
    MatchesWhole(sub, id, slug, end);
    CanonicalNotEmpty(sub, id, slug);
    assert (p + end)[..|p|] == p;
  }

  lemma CanonicalNotEmpty(sub: string, id: string, slug: string)
    requires WellFormed(sub, id, slug)
    ensures var p := Canonical(sub, id, slug);
      p != "" && p[|p| - 1] != '/'
  {
    var p := Canonical(sub, id, slug);
    if slug == "" {
      assert p[|p| - 1] == id[|id| - 1] && Member(IdChar, id[|id| - 1]);
    } else {
      assert p[|p| - 1] == slug[|slug| - 1] && Member(SlugChar, slug[|slug| - 1]);
    }
  }

  lemma TrimAdded(s: string, suffix: string)
    ensures TrimSuffix(s + suffix, suffix) == s
  {
    assert (s + suffix)[|s|..] == suffix && (s + suffix)[..|s|] == s;
  }

  /** A permalink, its directory form and both .json forms all normalise to the permalink;
      the first two exactly when its slug does not itself end in .json. */
  lemma NormalisesToItself(sub: string, id: string, slug: string)
    requires WellFormed(sub, id, slug)
    ensures var p := Canonical(sub, id, slug);
      && NormalizePath(p + ".json") == Some(p) && NormalizePath(p + ".json/") == Some(p)
      && (NormalizePath(p) == Some(p) <==> !EndsWith(p, ".json"))
      && (NormalizePath(p + "/") == Some(p) <==> !EndsWith(p, ".json"))
  {
    hide Find, Canonical;
    var p := Canonical(sub, id, slug);
    CanonicalNotEmpty(sub, id, slug);
    FoundAtOnce(sub, id, slug, "");
    assert p + "" == p;
    TrimAdded(p, ".json");
    TrimAdded(p, "/");
    TrimAdded(p + ".json", "/");
    assert p + ".json" + "/" == p + ".json/";
    assert !EndsWith(p, "/") && !EndsWith(p + ".json", "/");
  }

  lemma DiffersFromSuffix(s: string, suffix: string, k: nat)
    requires k < |suffix| <= |s| && s[|s| - |suffix| + k] != suffix[k]
    ensures !EndsWith(s, suffix)
  {
    assert s[|s| - |suffix|..][k] == s[|s| - |suffix| + k];
  }

  lemma JsonEndsTheSlug(sub: string, id: string, slug: string)
    requires WellFormed(sub, id, slug)
    ensures EndsWith(Canonical(sub, id, slug), ".json") <==> EndsWith(slug, ".json")
  {
    var p := Canonical(sub, id, slug);
    var last := if slug == "" then id else slug;
    var n := |p| - |last|;
    assert n >= 5 && p[n..] == last && p[n - 1] == '/';
    if |last| < 5 {
      DiffersFromSuffix(p, ".json", 4 - |last|);
    } else if slug == "" {
      assert Member(IdChar, id[|id| - 5]);
      DiffersFromSuffix(p, ".json", 0);
    } else {
      assert p[|p| - 5..] == slug[|slug| - 5..];
    }
  }

  // ------------------------------------------------- every result is a canonical permalink

  lemma SlugPartShape(s: string) returns (slug: string)
    ensures All(SlugChar, slug) && s[..SlugPart(s)] == Tail(slug)
  {
    if SlugPart(s) > 0 {
      var n := Prefix(SlugChar, s[1..]);
      slug := s[1..][..n];
      assert s[..1 + n] == "/" + slug;
    } else {
      slug := "";
    }
  }

  lemma CommentsPartShape(s: string) returns (id: string, slug: string)
    requires CommentsPart(s) > 0
    ensures id != "" && All(IdChar, id) && All(SlugChar, slug)
    ensures s[..CommentsPart(s)] == "/comments/" + id + Tail(slug)
  {
    hide SlugPart, Tail;
    var n := Prefix(IdChar, s[10..]);
    id := s[10..][..n];
    slug := SlugPartShape(s[10 + n..]);
    ThreeSlices(s, 10, n, SlugPart(s[10 + n..]));
  }

  lemma ThreeSlices(s: string, a: nat, b: nat, c: nat)
    requires a + b + c <= |s|
    ensures s[..a + b + c] == s[..a] + s[a..][..b] + s[a + b..][..c]
  {
  }

  lemma MatchShape(s: string) returns (sub: string, id: string, slug: string)
    requires MatchHere(s) > 0
    ensures WellFormed(sub, id, slug) && s[..MatchHere(s)] == Canonical(sub, id, slug)
  {
    hide CommentsPart, Tail;
    var n := Prefix(NotSlash, s[3..]);
    sub := s[3..][..n];
    id, slug := CommentsPartShape(s[3 + n..]);
    ThreeSlices(s, 3, n, CommentsPart(s[3 + n..]));
    assert "/r/" + sub + ("/comments/" + id + Tail(slug)) == Canonical(sub, id, slug);
  }

  lemma {:induction false} FindShape(s: string) returns (sub: string, id: string, slug: string)
    requires Find(s).Some?
    ensures WellFormed(sub, id, slug) && Find(s) == Some(Canonical(sub, id, slug))
  {
    if MatchHere(s) > 0 {
      sub, id, slug := MatchShape(s);
    } else {
      sub, id, slug := FindShape(s[1..]);
    }
  }

  /** Normalising yields a canonical permalink or nothing, and doing it again changes
      nothing exactly when the permalink does not end in .json. */
  lemma NormaliseTwice(path: string) returns (sub: string, id: string, slug: string)
    requires NormalizePath(path).Some?
    ensures WellFormed(sub, id, slug) && NormalizePath(path) == Some(Canonical(sub, id, slug))
    ensures NormalizePath(NormalizePath(path).value) == NormalizePath(path) <==> !EndsWith(slug, ".json")
  {
    hide Find, Canonical, TrimSuffix;
    sub, id, slug := FindShape(TrimSuffix(TrimSuffix(path, "/"), ".json"));
    NormalisesToItself(sub, id, slug);
    JsonEndsTheSlug(sub, id, slug);
  }

  // ------------------------------------------------------ which permalink is found

  /** No longer canonical permalink starts where the match starts. */
  lemma MatchIsLongest(s: string, sub: string, id: string, slug: string)
    requires WellFormed(sub, id, slug) && Canonical(sub, id, slug) <= s
    ensures |Canonical(sub, id, slug)| <= MatchHere(s)
  {
    hide CommentsPart, Prefix, Tail, WellFormed;
    WellFormedParts(sub, id, slug);
    var rest := s[|Canonical(sub, id, slug)|..];
    var after := "/comments/" + (id + (Tail(slug) + rest));
    assert s == Canonical(sub, id, slug) + rest;
    CanonicalThen(sub, id, slug, rest);
    hide Canonical, Tail;
    AfterSubreddit(sub, after);
    PrefixOf(NotSlash, sub, after);
    CommentsCovers(id, slug, rest);
  }

  lemma CanonicalThen(sub: string, id: string, slug: string, rest: string)
    ensures Canonical(sub, id, slug) + rest == "/r/" + (sub + ("/comments/" + (id + (Tail(slug) + rest))))
    ensures |Canonical(sub, id, slug)| == 13 + |sub| + |id| + |Tail(slug)|
  {
    hide Tail;
  }

  lemma AfterSubreddit(sub: string, after: string)
    ensures var s := "/r/" + (sub + after);
      s[3..] == sub + after && s[3 + |sub|..] == after
  {
  }

  lemma {:induction false} PrefixCovers(k: CharClass, run: string, rest: string)
    requires All(k, run)
    ensures |run| <= Prefix(k, run + rest)
  {
    if run != "" {
      assert Member(k, run[0]);
      assert (run + rest)[1..] == run[1..] + rest;
      PrefixCovers(k, run[1..], rest);
    }
  }

  lemma CommentsCovers(id: string, slug: string, rest: string)
    requires id != "" && All(IdChar, id) && All(SlugChar, slug)
    ensures 10 + |id| + |Tail(slug)| <= CommentsPart("/comments/" + (id + (Tail(slug) + rest)))
  {
    hide SlugPart, Prefix, CommentsPart, Tail;
    var tail := Tail(slug) + rest;
    var s := "/comments/" + (id + tail);
    CommentsPartAt(id, tail);
    if slug == "" {
      NoTail();
      PrefixCovers(IdChar, id, tail);
    } else {
      SomeTail(slug, rest);
      PrefixOf(IdChar, id, tail);
      SlugCovers(slug, rest);
    }
  }

  lemma CommentsPartAt(id: string, tail: string)
    requires id != "" && All(IdChar, id)
    ensures var n := Prefix(IdChar, id + tail);
      && n >= |id|
      && CommentsPart("/comments/" + (id + tail)) == 10 + n + SlugPart((id + tail)[n..])
    ensures (id + tail)[|id|..] == tail
  {
    hide SlugPart, Prefix;
    var s := "/comments/" + (id + tail);
    Halves("/comments/", id + tail);
    assert |"/comments/"| == 10 && s[10..] == id + tail;
    PrefixCovers(IdChar, id, tail);
    var n := Prefix(IdChar, id + tail);
    assert s[10 + n..] == (id + tail)[n..];
  }

  lemma NoTail()
    ensures Tail("") == ""
  {
  }

  lemma SomeTail(slug: string, rest: string)
    requires slug != ""
    ensures Tail(slug) + rest == "/" + (slug + rest) && |Tail(slug)| == 1 + |slug|
  {
  }

  lemma SlugCovers(slug: string, rest: string)
    requires slug != "" && All(SlugChar, slug)
    ensures 1 + |slug| <= SlugPart("/" + (slug + rest))
  {
    assert ("/" + (slug + rest))[1..] == slug + rest;
    PrefixCovers(SlugChar, slug, rest);
  }

  ghost predicate StartsCanonical(s: string) {
    exists sub, id, slug :: WellFormed(sub, id, slug) && Canonical(sub, id, slug) <= s
  }

  lemma StartsWhenMatched(s: string)
    ensures StartsCanonical(s) <==> MatchHere(s) > 0
  {
    hide Canonical, WellFormed;
    if MatchHere(s) > 0 {
      var sub, id, slug := MatchShape(s);
      assert Canonical(sub, id, slug) <= s;
    } else if StartsCanonical(s) {
      var sub, id, slug :| WellFormed(sub, id, slug) && Canonical(sub, id, slug) <= s;
      MatchIsLongest(s, sub, id, slug);
      CanonicalNotEmpty(sub, id, slug);
    }
  }

  /** The result is the longest canonical permalink at the leftmost place where one starts:
      whatever precedes it, and whatever follows the slug, is dropped. */
  lemma {:induction false} FindIsLeftmost(s: string)
    ensures Find(s).None? ==> forall i :: 0 <= i <= |s| ==> !StartsCanonical(s[i..])
    ensures Find(s).Some? ==>
              exists i :: 0 <= i <= |s| && LongestAt(s, i, Find(s).value)
                          && forall j :: 0 <= j < i ==> !StartsCanonical(s[j..])
  {
    hide MatchHere, StartsCanonical, LongestAt;
    StartsWhenMatched(s);
    assert s[0..] == s;
    if MatchHere(s) > 0 {
      LongestHere(s);
    } else {
      if s != "" {
        FindIsLeftmost(s[1..]);
        assert forall i :: 1 <= i <= |s| ==> s[1..][i - 1..] == s[i..];
        if Find(s).Some? {
          var i :| 0 <= i <= |s| - 1 && LongestAt(s[1..], i, Find(s).value)
                   && forall j :: 0 <= j < i ==> !StartsCanonical(s[1..][j..]);
          LongestFurther(s, i, Find(s).value);
          assert forall j :: 1 <= j < i + 1 ==> s[1..][j - 1..] == s[j..];
        }
      }
    }
  }

  ghost predicate LongestAt(s: string, i: nat, p: string) {
    && i <= |s| && p <= s[i..]
    && (exists sub, id, slug :: WellFormed(sub, id, slug) && Canonical(sub, id, slug) == p)
    && forall sub, id, slug :: WellFormed(sub, id, slug) && Canonical(sub, id, slug) <= s[i..] ==>
         |Canonical(sub, id, slug)| <= |p|
  }

  lemma LongestHere(s: string)
    requires MatchHere(s) > 0
    ensures LongestAt(s, 0, s[..MatchHere(s)])
  {
    hide Canonical, WellFormed, MatchHere;
    var sub, id, slug := MatchShape(s);
    assert s[0..] == s;
    forall sub', id', slug' | WellFormed(sub', id', slug') && Canonical(sub', id', slug') <= s[0..]
      ensures |Canonical(sub', id', slug')| <= MatchHere(s)
    {
      MatchIsLongest(s, sub', id', slug');
    }
  }

  lemma LongestFurther(s: string, i: nat, p: string)
    requires s != "" && LongestAt(s[1..], i, p)
    ensures LongestAt(s, i + 1, p)
  {
    hide Canonical, WellFormed;
    assert s[1..][i..] == s[i + 1..];
  }

  // ---------------------------------------------------------------- the session key

  const SESSION_PREFIX := "carp-reddit-"

  function TrimLeftSlashes(s: string): string {
    if s != "" && s[0] == '/' then TrimLeftSlashes(s[1..]) else s
  }

  function TrimRightSlashes(s: string): string {
    if s != "" && s[|s| - 1] == '/' then TrimRightSlashes(s[..|s| - 1]) else s
  }

  /** The segments between slashes; one more than there are slashes. */
  function Split(s: string): (parts: seq<string>)
    ensures |parts| >= 1
  {
    var n := Prefix(NotSlash, s);
    if n == |s| then [s] else [s[..n]] + Split(s[n + 1..])
  }

  function Segments(permalink: string): seq<string> {
    Split(TrimRightSlashes(TrimLeftSlashes(permalink)))
  }

  ghost predicate FirstComments(parts: seq<string>, i: nat) {
    i + 1 < |parts| && parts[i] == "comments" && forall j :: 0 <= j < i ==> parts[j] != "comments"
  }

  /** The key names the segment after the first "comments"; empty when there is none. */
  method ThreadSession(permalink: string) returns (key: string)
    ensures forall i: nat :: FirstComments(Segments(permalink), i) ==>
              key == "carp-reddit-" + Segments(permalink)[i + 1]
    ensures (forall i: nat :: !FirstComments(Segments(permalink), i)) ==> key == ""
  {
    var parts := Segments(permalink);
    var i := 0;
    while i + 1 < |parts|
      invariant i < |parts| && forall j :: 0 <= j < i ==> parts[j] != "comments"
    {
      if parts[i] == "comments" {
        assert FirstComments(parts, i);
        return SESSION_PREFIX + parts[i + 1];
      }
      i := i + 1;
    }
    return "";
  }

  /** The key the expansion calls use: derived from the post's full name. */
  function ExpansionSession(linkId: string): string {
    SESSION_PREFIX + if "t3_" <= linkId then linkId[3..] else linkId
  }

  lemma ExpansionKeys(linkId: string)
    ensures ExpansionSession("t3_" + linkId) == "carp-reddit-" + linkId
    ensures !("t3_" <= linkId) ==> ExpansionSession(linkId) == "carp-reddit-" + linkId
  {
    assert ("t3_" + linkId)[3..] == linkId;
  }

  function Joined(parts: seq<string>): string {
    if parts == [] then "" else if |parts| == 1 then parts[0] else parts[0] + "/" + Joined(parts[1..])
  }

  lemma SplitAt(s: string)
    ensures var n := Prefix(NotSlash, s);
      && n <= |s| && '/' !in s[..n]
      && (n == |s| ==> Split(s) == [s])
      && (n < |s| ==> Split(s) == [s[..n]] + Split(s[n + 1..]) && s == s[..n] + "/" + s[n + 1..])
  {
    hide Prefix;
    var n := Prefix(NotSlash, s);
    NoSlash(s[..n]);
    if n < |s| {
      hide Split;
      CutAt(s, n);
    }
  }

  lemma CutAt(s: string, n: nat)
    requires n < |s| && s[n] == '/'
    ensures s == s[..n] + "/" + s[n + 1..]
  {
  }

  lemma {:induction false} SplitJoins(s: string)
    ensures Split(s) != [] && Joined(Split(s)) == s
    decreases |s|
  {
    SplitAt(s);
    var n := Prefix(NotSlash, s);
    hide Split, Prefix;
    if n < |s| {
      SplitJoins(s[n + 1..]);
      JoinedStep(s[..n], Split(s[n + 1..]));
      hide Joined;
    }
  }

  lemma {:induction false} SplitPieces(s: string)
    ensures forall i :: 0 <= i < |Split(s)| ==> '/' !in Split(s)[i]
    decreases |s|
  {
    SplitAt(s);
    var n := Prefix(NotSlash, s);
    hide Split, Prefix;
    if n < |s| {
      SplitPieces(s[n + 1..]);
    }
  }

  lemma JoinedStep(run: string, parts: seq<string>)
    requires parts != []
    ensures Joined([run] + parts) == run + "/" + Joined(parts)
  {
    assert ([run] + parts)[1..] == parts;
  }

  lemma NoSlash(s: string)
    requires All(NotSlash, s)
    ensures '/' !in s
  {
  }

  lemma {:induction false} TrimLeftSlashesIs(s: string) returns (i: nat)
    ensures i <= |s| && TrimLeftSlashes(s) == s[i..] && (i < |s| ==> s[i] != '/')
    ensures forall k :: 0 <= k < i ==> s[k] == '/'
  {
    if s != "" && s[0] == '/' {
      i := TrimLeftSlashesIs(s[1..]);
      assert forall k :: 1 <= k < i + 1 ==> s[k] == s[1..][k - 1];
      i := i + 1;
    } else {
      i := 0;
    }
  }

  lemma {:induction false} TrimRightSlashesIs(s: string) returns (j: nat)
    ensures j <= |s| && TrimRightSlashes(s) == s[..j] && (j > 0 ==> s[j - 1] != '/')
    ensures forall k :: j <= k < |s| ==> s[k] == '/'
  {
    if s != "" && s[|s| - 1] == '/' {
      j := TrimRightSlashesIs(s[..|s| - 1]);
      assert s[..|s| - 1][..j] == s[..j];
    } else {
      j := |s|;
    }
  }

  /** The segments joined by slashes are the permalink without the slashes around it, and no
      segment contains one. */
  lemma SegmentsRead(permalink: string) returns (i: nat, j: nat)
    ensures i <= j <= |permalink| && Joined(Segments(permalink)) == permalink[i..j]
    ensures forall k :: 0 <= k < i || j <= k < |permalink| ==> permalink[k] == '/'
    ensures i < j ==> permalink[i] != '/' && permalink[j - 1] != '/'
    ensures forall k :: 0 <= k < |Segments(permalink)| ==> '/' !in Segments(permalink)[k]
  {
    hide Split, Joined, TrimLeftSlashes, TrimRightSlashes;
    i, j := SlashesTrimmed(permalink);
    SplitJoins(permalink[i..j]);
    SplitPieces(permalink[i..j]);
  }

  lemma SlashesTrimmed(permalink: string) returns (i: nat, j: nat)
    ensures i <= j <= |permalink| && TrimRightSlashes(TrimLeftSlashes(permalink)) == permalink[i..j]
    ensures forall k :: 0 <= k < i || j <= k < |permalink| ==> permalink[k] == '/'
    ensures i < j ==> permalink[i] != '/' && permalink[j - 1] != '/'
  {
    hide TrimLeftSlashes, TrimRightSlashes;
    i := TrimLeftSlashesIs(permalink);
    var rest := permalink[i..];
    var n := TrimRightSlashesIs(rest);
    j := i + n;
    assert rest[..n] == permalink[i..j];
    assert forall k :: j <= k < |permalink| ==> permalink[k] == rest[k - i];
  }

  lemma SplitStep(run: string, rest: string)
    requires All(NotSlash, run)
    ensures Split(run + "/" + rest) == [run] + Split(rest)
  {
    var s := run + "/" + rest;
    assert s == run + ("/" + rest);
    PrefixOf(NotSlash, run, "/" + rest);
    assert s[..|run|] == run && s[|run| + 1..] == rest;
  }

  lemma SplitLast(run: string)
    requires All(NotSlash, run)
    ensures Split(run) == [run]
  {
    assert run + "" == run;
    PrefixOf(NotSlash, run, "");
  }

  lemma SegmentsOfCanonical(sub: string, id: string, slug: string)
    requires WellFormed(sub, id, slug)
    ensures Segments(Canonical(sub, id, slug)) == ["r", sub, "comments", id] + if slug == "" then [] else [slug]
  {
    hide Split, Canonical, WellFormed, TrimLeftSlashes, TrimRightSlashes;
    TrimmedCanonical(sub, id, slug);
    SplitCanonical(sub, id, slug);
  }

  lemma TrimmedCanonical(sub: string, id: string, slug: string)
    requires WellFormed(sub, id, slug)
    ensures var tail := if slug == "" then id else id + "/" + slug;
      TrimRightSlashes(TrimLeftSlashes(Canonical(sub, id, slug))) == "r" + "/" + (sub + "/" + ("comments" + "/" + tail))
  {
    hide WellFormed;
    var p := Canonical(sub, id, slug);
    CanonicalNotEmpty(sub, id, slug);
    CanonicalSlashes(sub, id, slug);
    hide Canonical;
    assert p[1..][0] == 'r' && p[1..][|p| - 2] == p[|p| - 1];
  }

  lemma SplitCanonical(sub: string, id: string, slug: string)
    requires WellFormed(sub, id, slug)
    ensures var tail := if slug == "" then id else id + "/" + slug;
      Split("r" + "/" + (sub + "/" + ("comments" + "/" + tail)))
      == ["r", sub, "comments", id] + if slug == "" then [] else [slug]
  {
    hide Split, Prefix;
    var tail := if slug == "" then id else id + "/" + slug;
    SplitStep("r", sub + "/" + ("comments" + "/" + tail));
    SplitStep(sub, "comments" + "/" + tail);
    SplitStep("comments", tail);
    if slug == "" {
      SplitLast(id);
    } else {
      SplitStep(id, slug);
      SplitLast(slug);
    }
  }

  lemma CanonicalSlashes(sub: string, id: string, slug: string)
    ensures var tail := if slug == "" then id else id + "/" + slug;
      Canonical(sub, id, slug) == "/" + ("r" + "/" + (sub + "/" + ("comments" + "/" + tail)))
  {
    assert "/r/" == "/" + "r" + "/" && "/comments/" == "/" + "comments" + "/";
    Regroup("/", "r", sub, "comments", id, Tail(slug));
    assert id + Tail(slug) == if slug == "" then id else id + "/" + slug;
  }

  lemma Regroup(slash: string, r: string, sub: string, c: string, id: string, tail: string)
    ensures (slash + r + slash) + sub + (slash + c + slash) + id + tail
         == slash + (r + slash + (sub + slash + (c + slash + (id + tail))))
  {
  }

  /** The thread fetch and the expansion of the same post share a session exactly when the
      subreddit is not itself called "comments" (or the post is). */
  lemma SessionsAgree(sub: string, id: string, slug: string)
    requires WellFormed(sub, id, slug)
    ensures var parts := Segments(Canonical(sub, id, slug));
      var i := if sub == "comments" then 1 else 2;
      && FirstComments(parts, i)
      && (SESSION_PREFIX + parts[i + 1] == ExpansionSession("t3_" + id) <==> sub != "comments" || id == "comments")
  {
    SegmentsOfCanonical(sub, id, slug);
    hide Segments, Canonical;
    assert ("t3_" + id)[3..] == id;
    var parts := Segments(Canonical(sub, id, slug));
    assert parts[0] == "r" && parts[1] == sub && parts[2] == "comments" && parts[3] == id;
    assert "r" != "comments";
    assert forall a: string, b: string :: SESSION_PREFIX + a == SESSION_PREFIX + b ==> a == b by {
      SamePrefix();
    }
  }

  lemma SamePrefix()
    ensures forall a: string, b: string :: SESSION_PREFIX + a == SESSION_PREFIX + b ==> a == b
  {
    forall a: string, b: string | SESSION_PREFIX + a == SESSION_PREFIX + b ensures a == b {
      assert a == (SESSION_PREFIX + a)[|SESSION_PREFIX|..];
      assert b == (SESSION_PREFIX + b)[|SESSION_PREFIX|..];
    }
  }
}
