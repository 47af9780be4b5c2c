/** When parents and depths in the rows leave one place for every removed comment that has
    live replies below it. */
module ToldPlaces {
  import opened CommentTree
  import opened Listings
  import opened RedditTypes
  import opened RemovedPlaces
  import opened Sequences
  import opened Wrappers

  // ------------------------------------------------------------------- the condition

  ghost predicate HasLive(places: seq<Place>) {
    exists i :: 0 <= i < |places| && places[i].Live?
  }

  // Some row shows the place: its own, or that of a live reply.
  ghost predicate Named(p: Place) {
    p.Live? || HasLive(p.replies)
  }

  /** No part of what is below a comment could hang from another removed comment: its last
      reply is live, and so is the first when the comment itself was removed. */
  predicate Whole(p: Place) {
    var r := p.replies;
    if p.Live? then r == [] || r[|r| - 1].Live?
    else |r| <= 1 || (r[0].Live? && r[|r| - 1].Live?)
  }

  /** Two neighbours could not be one comment. */
  ghost predicate Apart(p: Place, next: Place) {
    next.Gone? ==> Named(p) && Named(next)
  }

  ghost predicate Fixed(places: seq<Place>) {
    places != [] ==>
      && Whole(places[0]) && Fixed(places[0].replies)
      && (|places| > 1 ==> Apart(places[0], places[1]))
      && Fixed(places[1..])
  }

  // --------------------------------------------------------------- what has a place

  /** A listing of nothing but comments that have a row or a row below them. */
  ghost predicate Trimmed(nodes: seq<Node>) {
    nodes != [] ==>
      && nodes[0].CommentNode? && (IsRemoved(nodes[0].data) ==> nodes[0].replies != [])
      && Trimmed(nodes[0].replies) && Trimmed(nodes[1..])
  }

  function Trim(nodes: seq<Node>): seq<Node> {
    if nodes == [] then []
    else
      match nodes[0]
      case CommentNode(data, replies) =>
        var below := Trim(replies);
        if IsRemoved(data) && below == [] then Trim(nodes[1..]) else [CommentNode(data, below)] + Trim(nodes[1..])
      case _ => Trim(nodes[1..])
  }

  lemma {:induction false} TrimmedShows(nodes: seq<Node>, opts: Options)
    requires Trimmed(nodes)
    ensures Rows(Preorder(nodes), opts) == [] <==> nodes == []
    ensures Places(nodes, opts) == [] <==> nodes == []
    decreases nodes
  {
    hide Preorder, Rows, MakeComment, IsRemoved, Places;
    if nodes == [] {
      PreorderOfNone();
      RowsOfNone(opts);
    } else {
      RowsSplit(nodes, opts);
      TrimmedShows(nodes[0].replies, opts);
    }
    NoRowsNoPlaces(nodes, opts);
  }

  function PlaceOf(n: Node, opts: Options): Place
    requires n.CommentNode?
  {
    if Kept(n) then Live(MakeComment(n.data, opts), Places(n.replies, opts)) else Gone(Places(n.replies, opts))
  }

  lemma PlacesSplit(nodes: seq<Node>, opts: Options)
    requires Trimmed(nodes) && nodes != []
    ensures Places(nodes, opts) == [PlaceOf(nodes[0], opts)] + Places(nodes[1..], opts)
  {
    hide IsRemoved, MakeComment;
    TrimmedShows(nodes[0].replies, opts);
  }

  /** In a trimmed listing every node has its place. */
  lemma {:induction false} PlaceAt(nodes: seq<Node>, k: nat, opts: Options)
    requires Trimmed(nodes) && k < |nodes|
    ensures nodes[k].CommentNode? && |Places(nodes, opts)| == |nodes|
    ensures Places(nodes, opts)[k] == PlaceOf(nodes[k], opts)
    ensures Trimmed([nodes[k]])
  {
    hide IsRemoved, MakeComment, Places;
    PlacesSplit(nodes, opts);
    if k > 0 {
      PlaceAt(nodes[1..], k - 1, opts);
    } else if |nodes| > 1 {
      PlaceAt(nodes[1..], 0, opts);
    } else {
      TrimmedShows(nodes[1..], opts);
    }
  }

  lemma {:induction false} TrimKeeps(nodes: seq<Node>, opts: Options)
    ensures Trimmed(Trim(nodes))
    ensures Rows(Preorder(Trim(nodes)), opts) == Rows(Preorder(nodes), opts)
    ensures Places(Trim(nodes), opts) == Places(nodes, opts)
    ensures forall x :: CommentIds(Trim(nodes))[x] <= CommentIds(nodes)[x]
    decreases nodes
  {
    hide Preorder, Rows, MakeComment, IsRemoved, CommentIds;
    if nodes != [] {
      var n, later := nodes[0], Trim(nodes[1..]);
      TrimKeeps(nodes[1..], opts);
      RowsSplit(nodes, opts);
      if n.CommentNode? {
        TrimKeeps(n.replies, opts);
        TrimmedShows(Trim(n.replies), opts);
        if Trim(nodes) != later {
          assert Trim(nodes)[1..] == later;
          RowsSplit(Trim(nodes), opts);
        }
      }
      forall x ensures CommentIds(Trim(nodes))[x] <= CommentIds(nodes)[x] {
        CommentIdsUnfold(nodes, x);
        if Trim(nodes) != later {
          CommentIdsUnfold(Trim(nodes), x);
        }
      }
    }
  }

  lemma {:induction false} TrimKeepsNames(nodes: seq<Node>, id: Id, depth: int)
    ensures NamesParents(nodes, id) ==> NamesParents(Trim(nodes), id)
    ensures NamesDepths(nodes, depth) ==> NamesDepths(Trim(nodes), depth)
    decreases nodes
  {
    hide IsRemoved, StripFullnamePrefix;
    if nodes != [] {
      TrimKeepsNames(nodes[1..], id, depth);
      if nodes[0].CommentNode? {
        TrimKeepsNames(nodes[0].replies, nodes[0].data.id, depth + 1);
      }
    }
  }

  // -------------------------------------------------------------- rows of one tree

  function TreeRows(n: Node, opts: Options): seq<Comment> {
    Rows(Preorder([n]), opts)
  }

  lemma RowsByTree(nodes: seq<Node>, opts: Options)
    requires nodes != []
    ensures Rows(Preorder(nodes), opts) == TreeRows(nodes[0], opts) + Rows(Preorder(nodes[1..]), opts)
  {
    hide Preorder, Rows;
    assert nodes == [nodes[0]] + nodes[1..];
    PreorderConcat([nodes[0]], nodes[1..]);
    RowsConcat(Preorder([nodes[0]]), Preorder(nodes[1..]), opts);
  }

  lemma TreeRowsAre(n: Node, opts: Options)
    requires n.CommentNode?
    ensures var below := Rows(Preorder(n.replies), opts);
      TreeRows(n, opts) == if Kept(n) then [MakeComment(n.data, opts)] + below else below
  {
    hide Preorder, Rows, IsRemoved, MakeComment;
    RowsSplit([n], opts);
    PreorderOfNone();
    RowsOfNone(opts);
    assert [n][1..] == [];
    assert Rows(Preorder(n.replies), opts) + [] == Rows(Preorder(n.replies), opts);
  }

  /** A row at the depth of the listing sits directly in it; the others are deeper. */
  lemma {:induction false} RowDepth(nodes: seq<Node>, id: Id, depth: int, c: Comment, opts: Options)
    requires NamesParents(nodes, id) && NamesDepths(nodes, depth) && opts.keepDepth
    requires c in Rows(Preorder(nodes), opts)
    ensures c.depth.Some? && c.depth.value >= depth
    ensures c.depth.value == depth ==> c.parentId == id
    decreases nodes
  {
    hide Preorder, Rows, IsRemoved;
    PreorderOfNone();
    RowsOfNone(opts);
    RowsSplit(nodes, opts);
    if c in Rows(Preorder(nodes[1..]), opts) {
      RowDepth(nodes[1..], id, depth, c, opts);
    } else if nodes[0].CommentNode? && c in Rows(Preorder(nodes[0].replies), opts) {
      RowDepth(nodes[0].replies, nodes[0].data.id, depth + 1, c, opts);
    }
  }

  /** What a row of a tree says about the tree's own ID. */
  lemma RowTells(n: Node, id: Id, depth: int, c: Comment, opts: Options)
    requires n.CommentNode? && NamesParents([n], id) && NamesDepths([n], depth) && opts.keepDepth
    requires c in TreeRows(n, opts)
    ensures c.depth == Some(depth) ==> c.id == n.data.id
    ensures c.depth == Some(depth + 1) ==> c.parentId == n.data.id
    ensures c.depth != Some(depth) ==> c in Rows(Preorder(n.replies), opts)
    ensures c in Rows(Preorder(n.replies), opts) ==> c.depth.Some? && c.depth.value > depth
  {
    hide Preorder, Rows, IsRemoved;
    TreeRowsAre(n, opts);
    if c in Rows(Preorder(n.replies), opts) {
      RowDepth(n.replies, n.data.id, depth + 1, c, opts);
    }
  }

  ghost predicate Faithful(nodes: seq<Node>, id: Id, depth: int) {
    Listing(nodes, id) && NamesDepths(nodes, depth)
  }

  lemma FaithfulParts(nodes: seq<Node>, id: Id, depth: int)
    requires Faithful(nodes, id, depth) && nodes != []
    ensures Faithful(nodes[1..], id, depth)
    ensures NamesParents([nodes[0]], id) && NamesDepths([nodes[0]], depth)
    ensures nodes[0].CommentNode? ==> Faithful(nodes[0].replies, nodes[0].data.id, depth + 1)
  {
    hide CommentIds, NoRepeats;
    ListingParts(nodes, id);
    assert [nodes[0]][1..] == [];
  }

  /** A reply among those of a tree. */
  lemma ReplyRow(n: Node, k: nat, depth: int, opts: Options) returns (c: Comment)
    requires n.CommentNode? && Trimmed([n]) && NamesParents(n.replies, n.data.id) && NamesDepths(n.replies, depth + 1)
    requires opts.keepDepth && k < |n.replies| && k < |PlaceOf(n, opts).replies| && PlaceOf(n, opts).replies[k].Live?
    ensures n.replies[k].CommentNode? && Kept(n.replies[k]) && c == MakeComment(n.replies[k].data, opts)
    ensures c.depth == Some(depth + 1) && c.parentId == n.data.id
  {
    hide Preorder, Rows, IsRemoved, Places;
    PlaceAt(n.replies, k, opts);
    c := MakeComment(n.replies[k].data, opts);
    NamesAt(n.replies, k, n.data.id, depth + 1);
  }

  lemma {:induction false} NamesAt(nodes: seq<Node>, k: nat, id: Id, depth: int)
    requires NamesParents(nodes, id) && NamesDepths(nodes, depth) && k < |nodes| && nodes[k].CommentNode?
    ensures StripFullnamePrefix(nodes[k].data.parentId) == id && nodes[k].data.depth == depth
    ensures NamesParents([nodes[k]], id) && NamesDepths([nodes[k]], depth)
  {
    hide StripFullnamePrefix;
    if k > 0 {
      NamesAt(nodes[1..], k - 1, id, depth);
    } else {
      assert [nodes[k]][1..] == [];
    }
  }

  /** The rows of reply k are among those of the tree, after those of the replies before. */
  lemma {:induction false} RowsUpTo(nodes: seq<Node>, k: nat, opts: Options)
    requires k < |nodes|
    ensures Rows(Preorder(nodes), opts)
         == Rows(Preorder(nodes[..k]), opts) + (TreeRows(nodes[k], opts) + Rows(Preorder(nodes[k + 1..]), opts))
  {
    hide Preorder, Rows;
    assert nodes == nodes[..k] + nodes[k..];
    PreorderConcat(nodes[..k], nodes[k..]);
    RowsConcat(Preorder(nodes[..k]), Preorder(nodes[k..]), opts);
    RowsByTree(nodes[k..], opts);
    assert nodes[k..][1..] == nodes[k + 1..];
  }

  /** A row that tells the ID of a named place. */
  lemma NamingRow(n: Node, id: Id, depth: int, opts: Options) returns (c: Comment)
    requires n.CommentNode? && Trimmed([n]) && NamesParents([n], id) && NamesDepths([n], depth) && opts.keepDepth
    requires Named(PlaceOf(n, opts))
    ensures c in TreeRows(n, opts)
    ensures c.depth == Some(depth) || c.depth == Some(depth + 1)
  {
    hide Preorder, Rows, IsRemoved, Places;
    TreeRowsAre(n, opts);
    if Kept(n) {
      c := MakeComment(n.data, opts);
    } else {
      var k: nat :| k < |PlaceOf(n, opts).replies| && PlaceOf(n, opts).replies[k].Live?;
      AsManyPlaces(n.replies, opts);
      c := ReplyRow(n, k, depth, opts);
      RowsUpTo(n.replies, k, opts);
      TreeRowsAre(n.replies[k], opts);
      assert c == TreeRows(n.replies[k], opts)[0];
    }
  }

  lemma AsManyPlaces(nodes: seq<Node>, opts: Options)
    requires Trimmed(nodes)
    ensures |Places(nodes, opts)| == |nodes|
  {
    hide Places;
    TrimmedShows(nodes, opts);
    if nodes != [] {
      PlaceAt(nodes, 0, opts);
    }
  }

  // ------------------------------------------------------------- one place for each

  lemma {:induction false} FixedAt(places: seq<Place>, k: nat)
    requires Fixed(places) && k < |places|
    ensures Whole(places[k]) && Fixed(places[k].replies)
  {
    if k > 0 {
      FixedAt(places[1..], k - 1);
    }
  }

  /** The first row of a tree tells its ID, when it is live or its first reply is. */
  lemma FirstTells(n: Node, id: Id, depth: int, opts: Options) returns (c: Comment)
    requires n.CommentNode? && Trimmed([n]) && NamesParents([n], id) && NamesDepths([n], depth) && opts.keepDepth
    requires PlaceOf(n, opts).Live? || (PlaceOf(n, opts).replies != [] && PlaceOf(n, opts).replies[0].Live?)
    ensures TreeRows(n, opts) != [] && c == TreeRows(n, opts)[0]
    ensures if Kept(n) then c.id == n.data.id else c.depth == Some(depth + 1) && c.parentId == n.data.id
  {
    hide Preorder, Rows, IsRemoved, Places;
    TreeRowsAre(n, opts);
    if Kept(n) {
      c := MakeComment(n.data, opts);
    } else {
      AsManyPlaces(n.replies, opts);
      c := ReplyRow(n, 0, depth, opts);
      RowsByTree(n.replies, opts);
      TreeRowsAre(n.replies[0], opts);
    }
  }

  /** Wherever the rows of a whole tree are cut, a later row names a comment that an
      earlier row shows or names. */
  lemma {:induction false} Bridge(n: Node, id: Id, depth: int, i: nat, opts: Options) returns (x: Comment, y: Comment)
    requires n.CommentNode? && Trimmed([n]) && NamesParents([n], id) && NamesDepths([n], depth) && opts.keepDepth
    requires Whole(PlaceOf(n, opts)) && Fixed(PlaceOf(n, opts).replies) && 0 < i < |TreeRows(n, opts)|
    ensures x in TreeRows(n, opts)[..i] && y in TreeRows(n, opts)[i..]
    ensures y.parentId == x.id || (y.parentId == x.parentId && x.depth.Some? && x.depth.value > depth)
    decreases n
  {
    hide Preorder, Rows, IsRemoved, Places, MakeComment, Fixed, TreeRows, NamesParents, NamesDepths;
    NamesBelow(n, id, depth);
    var rows, k := TreeRows(n, opts), |n.replies| - 1;
    var start := LastReply(n, opts);
    var last := TreeRows(n.replies[k], opts);
    FixedAt(PlaceOf(n, opts).replies, k);
    PlaceAt(n.replies, k, opts);
    NamesAt(n.replies, k, n.data.id, depth + 1);
    if i > start {
      x, y := Bridge(n.replies[k], n.data.id, depth + 1, i - start, opts);
      CutInside(rows, last, start, i);
    } else {
      y := ReplyRow(n, k, depth, opts);
      OwnFirst(n.replies[k], opts);
      x := FirstTells(n, id, depth, opts);
      CutBefore(rows, start, i);
    }
  }

  lemma NamesBelow(n: Node, id: Id, depth: int)
    requires n.CommentNode? && NamesParents([n], id) && NamesDepths([n], depth)
    ensures NamesParents(n.replies, n.data.id) && NamesDepths(n.replies, depth + 1)
  {
  }

  lemma CutInside(rows: seq<Comment>, last: seq<Comment>, start: nat, i: nat)
    requires start < i <= |rows| && rows[start..] == last
    ensures forall c :: c in last[..i - start] ==> c in rows[..i]
    ensures forall c :: c in last[i - start..] ==> c in rows[i..]
  {
    assert last[i - start..] == rows[i..] && last[..i - start] == rows[start..i];
  }

  lemma CutBefore(rows: seq<Comment>, start: nat, i: nat)
    requires 0 < i <= start < |rows|
    ensures rows[0] in rows[..i] && rows[start..][0] in rows[i..]
  {
    assert rows[i..][start - i] == rows[start] && rows[..i][0] == rows[0];
  }

  lemma OwnFirst(n: Node, opts: Options)
    requires Kept(n)
    ensures TreeRows(n, opts) != [] && TreeRows(n, opts)[0] == MakeComment(n.data, opts)
  {
    hide Preorder, Rows, IsRemoved, MakeComment;
    TreeRowsAre(n, opts);
  }

  /** Where the rows of the last reply begin. */
  lemma LastReply(n: Node, opts: Options) returns (start: nat)
    requires n.CommentNode? && Trimmed([n]) && |TreeRows(n, opts)| > 1
    ensures n.replies != [] && |PlaceOf(n, opts).replies| == |n.replies|
    ensures start <= |TreeRows(n, opts)| && TreeRows(n, opts)[start..] == TreeRows(n.replies[|n.replies| - 1], opts)
    ensures start > 0 && !Kept(n) ==> |n.replies| > 1
  {
    hide Preorder, Rows, IsRemoved, Places, MakeComment;
    var r := n.replies;
    TreeRowsAre(n, opts);
    TrimmedShows(r, opts);
    AsManyPlaces(r, opts);
    var k := |r| - 1;
    RowsUpTo(r, k, opts);
    PreorderOfNone();
    RowsOfNone(opts);
    assert r[k + 1..] == [] && (k == 0 ==> r[..k] == []);
    start := |TreeRows(n, opts)| - |TreeRows(r[k], opts)|;
  }

  /** With the same rows, the first tree of a fixed listing is at least as long. */
  lemma FirstTreeReaches(f: seq<Node>, g: seq<Node>, p: Id, q: Id, depth: int, opts: Options)
    requires Trimmed(f) && Trimmed(g) && Faithful(f, p, depth) && Faithful(g, q, depth) && opts.keepDepth
    requires f != [] && g != [] && Rows(Preorder(f), opts) == Rows(Preorder(g), opts) && Fixed(Places(f, opts))
    ensures |TreeRows(g[0], opts)| <= |TreeRows(f[0], opts)|
  {
    hide Preorder, Rows, IsRemoved, Places, MakeComment, Fixed, Listing;
    var i := |TreeRows(f[0], opts)|;
    RowsByTree(f, opts);
    RowsByTree(g, opts);
    TrimmedShows(f[1..], opts);
    TrimmedShows([f[0]], opts);
    PlaceAt(f, 0, opts);
    PlaceAt(g, 0, opts);
    FaithfulParts(f, p, depth);
    FaithfulParts(g, q, depth);
    if i < |TreeRows(g[0], opts)| {
      Overlap(TreeRows(f[0], opts), Rows(Preorder(f[1..]), opts), TreeRows(g[0], opts), Rows(Preorder(g[1..]), opts));
      assert |f| > 1;
      var x, y := SecondTree(f, p, depth, opts);
      assert x == TreeRows(g[0], opts)[i] && y in TreeRows(g[0], opts);
      LaterRow(g[0], q, depth, i, opts);
      RowTells(g[0], q, depth, x, opts);
      RowTells(g[0], q, depth, y, opts);
      RowTells(f[0], p, depth, y, opts);
      DistinctTops(f, p);
    }
  }

  /** The first row of a second tree in a fixed listing, and a row naming the first tree. */
  lemma SecondTree(f: seq<Node>, p: Id, depth: int, opts: Options) returns (x: Comment, y: Comment)
    requires Trimmed(f) && Faithful(f, p, depth) && opts.keepDepth && |f| > 1 && Fixed(Places(f, opts))
    ensures f[0].CommentNode? && f[1].CommentNode?
    ensures var i := |TreeRows(f[0], opts)|;
      i < |Rows(Preorder(f), opts)| && x == Rows(Preorder(f), opts)[i] && y in TreeRows(f[0], opts)
    ensures x.depth == Some(depth) || (x.depth == Some(depth + 1) && x.parentId == f[1].data.id)
    ensures x.depth != Some(depth) ==> y.depth == Some(depth) || y.depth == Some(depth + 1)
  {
    hide Preorder, Rows, IsRemoved, Places, MakeComment, Listing, Whole;
    PlaceAt(f, 0, opts);
    PlaceAt(f, 1, opts);
    FaithfulParts(f, p, depth);
    FaithfulParts(f[1..], p, depth);
    RowsByTree(f, opts);
    RowsByTree(f[1..], opts);
    TrimmedShows([f[0]], opts);
    y := TreeRows(f[0], opts)[0];
    if Kept(f[1]) {
      x := FirstTells(f[1], p, depth, opts);
      OwnDepth(f[1], p, depth, opts);
    } else {
      FixedAt(Places(f, opts), 1);
      FirstLive(PlaceOf(f[1], opts));
      x := FirstTells(f[1], p, depth, opts);
      y := NamingRow(f[0], p, depth, opts);
    }
  }

  lemma FirstLive(p: Place)
    requires p.Gone? && Named(p) && Whole(p)
    ensures p.replies != [] && p.replies[0].Live?
  {
  }

  lemma OwnDepth(n: Node, id: Id, depth: int, opts: Options)
    requires Kept(n) && NamesDepths([n], depth) && opts.keepDepth
    ensures TreeRows(n, opts) != [] && TreeRows(n, opts)[0].depth == Some(depth)
  {
    hide Preorder, Rows;
    TreeRowsAre(n, opts);
  }

  /** Only the first row of a tree can be its top. */
  lemma LaterRow(n: Node, id: Id, depth: int, i: nat, opts: Options)
    requires n.CommentNode? && NamesParents([n], id) && NamesDepths([n], depth) && opts.keepDepth
    requires 0 < i < |TreeRows(n, opts)|
    ensures TreeRows(n, opts)[i].depth != Some(depth)
  {
    hide Preorder, Rows, IsRemoved, MakeComment;
    TreeRowsAre(n, opts);
    RowTells(n, id, depth, TreeRows(n, opts)[i], opts);
  }

  lemma DistinctTops(f: seq<Node>, p: Id)
    requires Listing(f, p) && |f| > 1 && f[0].CommentNode? && f[1].CommentNode?
    ensures f[0].data.id != f[1].data.id
  {
    hide CommentIds;
    CommentIdsUnfold(f, f[0].data.id);
    CommentIdsUnfold(f[1..], f[0].data.id);
    assert (multiset{p} + CommentIds(f))[f[0].data.id] <= 1;
  }

  /** With the same rows, the first tree of a fixed listing is at most as long. */
  lemma FirstTreeEnds(f: seq<Node>, g: seq<Node>, p: Id, q: Id, depth: int, opts: Options)
    requires Trimmed(f) && Trimmed(g) && Faithful(f, p, depth) && Faithful(g, q, depth) && opts.keepDepth
    requires f != [] && g != [] && Rows(Preorder(f), opts) == Rows(Preorder(g), opts) && Fixed(Places(f, opts))
    ensures |TreeRows(f[0], opts)| <= |TreeRows(g[0], opts)|
  {
    hide Preorder, Rows, IsRemoved, Places, MakeComment, Listing;
    var i := |TreeRows(g[0], opts)|;
    if i < |TreeRows(f[0], opts)| {
      RowsByTree(f, opts);
      RowsByTree(g, opts);
      PlaceAt(f, 0, opts);
      FaithfulParts(f, p, depth);
      FaithfulParts(g, q, depth);
      PlaceAt(g, 0, opts);
      TrimmedShows([g[0]], opts);
      var x, y := Bridge(f[0], p, depth, i, opts);
      Overlap(TreeRows(g[0], opts), Rows(Preorder(g[1..]), opts), TreeRows(f[0], opts), Rows(Preorder(f[1..]), opts));
      RowTells(g[0], q, depth, x, opts);
      NamedElsewhere(g, q, depth, x, y, opts);
    }
  }

  /** A row of a later tree does not name what a row of the first tree shows or names
      below its top. */
  lemma NamedElsewhere(g: seq<Node>, q: Id, depth: int, x: Comment, y: Comment, opts: Options)
    requires Faithful(g, q, depth) && g != [] && g[0].CommentNode? && opts.keepDepth
    requires x in TreeRows(g[0], opts) && y in Rows(Preorder(g[1..]), opts)
    ensures y.parentId != x.id && (x.depth != Some(depth) ==> y.parentId != x.parentId)
  {
    hide Preorder, Rows, IsRemoved, CommentIds, MakeComment;
    FaithfulParts(g, q, depth);
    RowTells(g[0], q, depth, x, opts);
    if x in Rows(Preorder(g[0].replies), opts) {
      RowSits(g[0].replies, g[0].data.id, x, opts);
    }
    RowSits(g[1..], q, y, opts);
    CommentIdsUnfold(g, y.parentId);
    assert (multiset{q} + CommentIds(g))[y.parentId] <= 1;
  }

  lemma SameTop(n: Node, m: Node, p: Id, q: Id, depth: int, opts: Options)
    requires n.CommentNode? && m.CommentNode? && TreeRows(n, opts) == TreeRows(m, opts) && Trimmed([n]) && opts.keepDepth
    requires NamesParents([n], p) && NamesDepths([n], depth) && NamesParents([m], q) && NamesDepths([m], depth)
    ensures Kept(n) <==> Kept(m)
    ensures Rows(Preorder(n.replies), opts) == Rows(Preorder(m.replies), opts)
    ensures Kept(n) ==> MakeComment(n.data, opts) == MakeComment(m.data, opts)
  {
    hide Preorder, Rows, IsRemoved, MakeComment;
    TrimmedShows([n], opts);
    var c := TreeRows(n, opts)[0];
    RowTells(n, p, depth, c, opts);
    RowTells(m, q, depth, c, opts);
    TreeRowsAre(n, opts);
    TreeRowsAre(m, opts);
    if Kept(n) {
      OwnDepth(n, p, depth, opts);
      assert TreeRows(n, opts)[1..] == Rows(Preorder(n.replies), opts);
    }
    if Kept(m) {
      OwnDepth(m, q, depth, opts);
      assert TreeRows(m, opts)[1..] == Rows(Preorder(m.replies), opts);
    }
  }

  lemma {:induction false} SamePlaces(f: seq<Node>, g: seq<Node>, p: Id, q: Id, depth: int, opts: Options)
    requires Trimmed(f) && Trimmed(g) && Faithful(f, p, depth) && Faithful(g, q, depth) && opts.keepDepth
    requires Rows(Preorder(f), opts) == Rows(Preorder(g), opts) && Fixed(Places(f, opts))
    ensures Places(f, opts) == Places(g, opts)
    decreases f
  {
    hide Preorder, Rows, IsRemoved, Places, MakeComment, Listing;
    TrimmedShows(f, opts);
    TrimmedShows(g, opts);
    if f != [] {
      FirstTreeReaches(f, g, p, q, depth, opts);
      FirstTreeEnds(f, g, p, q, depth, opts);
      RowsByTree(f, opts);
      RowsByTree(g, opts);
      Overlap(TreeRows(f[0], opts), Rows(Preorder(f[1..]), opts), TreeRows(g[0], opts), Rows(Preorder(g[1..]), opts));
      FaithfulParts(f, p, depth);
      FaithfulParts(g, q, depth);
      PlacesSplit(f, opts);
      PlacesSplit(g, opts);
      SameTop(f[0], g[0], p, q, depth, opts);
      SamePlaces(f[0].replies, g[0].replies, f[0].data.id, g[0].data.id, depth + 1, opts);
      SamePlaces(f[1..], g[1..], p, q, depth, opts);
    }
  }
}
