/** Comments arrive out of visit order when gaps are expanded. Whatever the order, parent
    IDs relate the comments of the final thread as the listing on the server does. */
module Ancestry {
  import opened CommentTree
  import opened Expansion
  import opened GapQueue
  import opened Listings
  import opened Rebuild
  import opened RedditCrawl
  import opened RedditTypes

  /** Each comment of the path names the one before it, the first names `id`. */
  ghost predicate Linked(path: seq<Comment>, id: Id) {
    path != [] ==> path[0].parentId == id && Linked(path[1..], path[0].id)
  }

  /** Two views of one comment: its score and text may have changed in between. */
  predicate SameLinks(a: Comment, b: Comment) {
    a.id == b.id && a.parentId == b.parentId
  }

  /** A path down from the top of a forest. */
  ghost predicate Branch(forest: seq<Tree>, path: seq<Comment>) {
    path != [] ==>
      exists i :: 0 <= i < |forest| && SameLinks(forest[i].comment, path[0]) && Branch(forest[i].replies, path[1..])
  }

  ghost predicate Within(path: seq<Comment>, comments: seq<Comment>) {
    forall i :: 0 <= i < |path| ==> path[i] in comments
  }

  function Replies(n: Node): seq<Node> {
    if n.CommentNode? then n.replies else []
  }

  predicate IsOwn(n: Node, c: Comment, opts: Options) {
    Kept(n) && c == MakeComment(n.data, opts)
  }

  lemma RowsOfHead(nodes: seq<Node>, c: Comment, opts: Options)
    requires nodes != []
    ensures c in Rows(Preorder(nodes), opts)
            <==> IsOwn(nodes[0], c, opts) || c in Rows(Preorder(Replies(nodes[0])), opts)
                 || c in Rows(Preorder(nodes[1..]), opts)
  {
    hide Preorder, Rows, IsRemoved, MakeComment;
    RowsSplit(nodes, opts);
    PreorderOfNone();
    RowsOfNone(opts);
  }

  /** A reply to a comment of the first tree, or of the later ones, is found there too. */
  lemma SameSide(nodes: seq<Node>, id: Id, x: Comment, y: Comment, opts: Options)
    requires Listing(nodes, id) && nodes != [] && x in Rows(Preorder(nodes), opts) && x.parentId == y.id
    ensures IsOwn(nodes[0], y, opts) || y in Rows(Preorder(Replies(nodes[0])), opts) ==>
              x in Rows(Preorder(Replies(nodes[0])), opts)
    ensures y in Rows(Preorder(nodes[1..]), opts) ==> x in Rows(Preorder(nodes[1..]), opts)
  {
    hide Preorder, Rows, IsRemoved, CommentIds, IsOwn;
    var n := nodes[0];
    assert (multiset{id} + CommentIds(nodes))[y.id] <= 1;
    RowsOfHead(nodes, x, opts);
    CommentIdsUnfold(nodes, y.id);
    ListingParts(nodes, id);
    NoReplies(n, opts);
    Sits(nodes, id, x, opts);
    Sits(nodes, id, y, opts);
  }

  lemma NoReplies(n: Node, opts: Options)
    ensures !n.CommentNode? ==> Rows(Preorder(Replies(n)), opts) == []
  {
    PreorderOfNone();
    RowsOfNone(opts);
  }

  /** Where a row of the first tree, or of the later ones, sits. */
  lemma Sits(nodes: seq<Node>, id: Id, c: Comment, opts: Options)
    requires NamesParents(nodes, id) && nodes != []
    ensures IsOwn(nodes[0], c, opts) ==> nodes[0].CommentNode? && c.id == nodes[0].data.id && c.parentId == id
    ensures nodes[0].CommentNode? && c in Rows(Preorder(nodes[0].replies), opts) ==>
              && c.id in CommentIds(nodes[0].replies)
              && (c.parentId == nodes[0].data.id || c.parentId in CommentIds(nodes[0].replies))
    ensures c in Rows(Preorder(nodes[1..]), opts) ==>
              c.id in CommentIds(nodes[1..]) && (c.parentId == id || c.parentId in CommentIds(nodes[1..]))
  {
    hide Preorder, Rows, IsRemoved, CommentIds;
    if nodes[0].CommentNode? && c in Rows(Preorder(nodes[0].replies), opts) {
      RowSits(nodes[0].replies, nodes[0].data.id, c, opts);
    }
    if c in Rows(Preorder(nodes[1..]), opts) {
      RowSits(nodes[1..], id, c, opts);
    }
  }

  /** A linked path stays on the side it starts on. */
  lemma {:induction false} PathOnOneSide(nodes: seq<Node>, id: Id, path: seq<Comment>, y: Comment, opts: Options)
    requires Listing(nodes, id) && nodes != [] && Linked(path, y.id) && Within(path, Rows(Preorder(nodes), opts))
    ensures IsOwn(nodes[0], y, opts) || y in Rows(Preorder(Replies(nodes[0])), opts) ==>
              Within(path, Rows(Preorder(Replies(nodes[0])), opts))
    ensures y in Rows(Preorder(nodes[1..]), opts) ==> Within(path, Rows(Preorder(nodes[1..]), opts))
    decreases |path|
  {
    hide Preorder, Rows, IsOwn, Listing;
    if path != [] {
      SameSide(nodes, id, path[0], y, opts);
      PathOnOneSide(nodes, id, path[1..], path[0], opts);
      assert forall i :: 1 <= i < |path| ==> path[i] == path[1..][i - 1];
    }
  }

  lemma {:induction false} LinkedIsBranch(nodes: seq<Node>, id: Id, path: seq<Comment>, opts: Options)
    requires Listing(nodes, id) && Linked(path, id) && Within(path, Rows(Preorder(nodes), opts))
    ensures Branch(Erase(nodes, opts), path)
    decreases nodes
  {
    hide Preorder, Rows, IsRemoved, MakeComment, Listing, Within;
    if path != [] {
      HeadOfPath(nodes, id, path, opts);
      ListingParts(nodes, id);
      var n, forest := nodes[0], Erase(nodes, opts);
      if IsOwn(n, path[0], opts) {
        LinkedIsBranch(n.replies, n.data.id, path[1..], opts);
        assert forest[0] == Tree(path[0], Erase(n.replies, opts));
      } else {
        LinkedIsBranch(nodes[1..], id, path, opts);
        var i :| 0 <= i < |Erase(nodes[1..], opts)| && SameLinks(Erase(nodes[1..], opts)[i].comment, path[0])
                 && Branch(Erase(nodes[1..], opts)[i].replies, path[1..]);
        assert forest[if Kept(n) then i + 1 else i] == Erase(nodes[1..], opts)[i];
      }
    }
  }

  /** A linked path starts at the first comment and goes on below it, or lies beyond. */
  lemma HeadOfPath(nodes: seq<Node>, id: Id, path: seq<Comment>, opts: Options)
    requires Listing(nodes, id) && path != [] && Linked(path, id) && Within(path, Rows(Preorder(nodes), opts))
    ensures nodes != []
    ensures if IsOwn(nodes[0], path[0], opts)
            then path[0].id == nodes[0].data.id && Within(path[1..], Rows(Preorder(nodes[0].replies), opts))
            else Within(path, Rows(Preorder(nodes[1..]), opts))
  {
    hide Preorder, Rows, IsOwn;
    PreorderOfNone();
    RowsOfNone(opts);
    assert path[0] in Rows(Preorder(nodes), opts);
    assert forall i :: 1 <= i < |path| ==> path[i] == path[1..][i - 1];
    RowsOfHead(nodes, path[0], opts);
    Sits(nodes, id, path[0], opts);
    NoReplies(nodes[0], opts);
    PostIsNoComment(nodes, id);
    CommentIdsUnfold(nodes, id);
    PathOnOneSide(nodes, id, path[1..], path[0], opts);
  }

  lemma {:induction false} BranchIsLinked(nodes: seq<Node>, id: Id, path: seq<Comment>, opts: Options)
    requires NamesParents(nodes, id) && Branch(Erase(nodes, opts), path)
    ensures Linked(path, id)
    decreases nodes
  {
    hide IsRemoved, MakeComment, StripFullnamePrefix;
    if path != [] {
      var n, forest := nodes[0], Erase(nodes, opts);
      var i :| 0 <= i < |forest| && SameLinks(forest[i].comment, path[0]) && Branch(forest[i].replies, path[1..]);
      if Kept(n) && i == 0 {
        BranchIsLinked(n.replies, n.data.id, path[1..], opts);
        OwnRow(n, forest[0].comment, opts);
      } else {
        assert Erase(nodes[1..], opts)[if Kept(n) then i - 1 else i] == forest[i];
        BranchIsLinked(nodes[1..], id, path, opts);
      }
    }
  }

  lemma {:induction false} ExtendMembers(base: seq<Comment>, more: seq<Comment>, c: Comment)
    requires c in Extend(base, more)
    ensures c in base || c in more
  {
    if more != [] && c in Extend(base, more[..|more| - 1]) {
      ExtendMembers(base, more[..|more| - 1], c);
    }
  }

  ghost predicate Listed(c: Comment, comments: seq<Comment>) {
    exists i :: 0 <= i < |comments| && SameLinks(c, comments[i])
  }

  /** Paths that differ in scores and texts only are linked alike and branch alike. */
  lemma {:induction false} SameLinksSamePath(forest: seq<Tree>, a: seq<Comment>, b: seq<Comment>, id: Id)
    requires |a| == |b| && forall i :: 0 <= i < |a| ==> SameLinks(a[i], b[i])
    ensures Linked(a, id) <==> Linked(b, id)
    ensures Branch(forest, a) <==> Branch(forest, b)
    decreases |a|
  {
    if a != [] {
      forall i | 0 <= i < |a| - 1 ensures SameLinks(a[1..][i], b[1..][i]) {
        assert SameLinks(a[i + 1], b[i + 1]);
      }
      SameLinksSamePath([], a[1..], b[1..], a[0].id);
      forall i | 0 <= i < |forest| ensures Branch(forest[i].replies, a[1..]) <==> Branch(forest[i].replies, b[1..]) {
        SameLinksSamePath(forest[i].replies, a[1..], b[1..], id);
      }
    }
  }

  /** The listing and every merged reply show comments of one forest on the server, with
      the IDs and parents they have there. */
  ghost predicate OneSource(source: seq<Node>, listing: seq<Node>, replies: seq<Reply>, rounds: nat, opts: Options) {
    var rows := Rows(Preorder(source), opts);
    && (forall c :: c in ParseThread(listing, opts).comments ==> Listed(c, rows))
    && (forall c :: c in Received(ParseReplies(replies, opts), rounds) ==> Listed(c, rows))
  }

  lemma {:induction false} OnTheServer(path: seq<Comment>, rows: seq<Comment>) returns (there: seq<Comment>)
    requires forall i :: 0 <= i < |path| ==> Listed(path[i], rows)
    ensures |there| == |path| && Within(there, rows)
    ensures forall i :: 0 <= i < |path| ==> SameLinks(path[i], there[i])
  {
    there := [];
    if path != [] {
      var k :| 0 <= k < |rows| && SameLinks(path[0], rows[k]);
      forall i | 0 <= i < |path| - 1 ensures Listed(path[1..][i], rows) {
        assert Listed(path[i + 1], rows);
      }
      var more := OnTheServer(path[1..], rows);
      there := [rows[k]] + more;
      assert forall i :: 1 <= i < |path| ==> path[i] == path[1..][i - 1];
    }
  }

  /** In the final thread, in whatever order its comments arrived, a path follows parent
      IDs from the post exactly when it is a path of live comments on the server. */
  lemma FinalThreadKeepsAncestry(source: seq<Node>, postId: Id, listing: seq<Node>, replies: seq<Reply>, rounds: nat,
                                 opts: Options, path: seq<Comment>)
    requires Listing(source, postId) && OneSource(source, listing, replies, rounds, opts)
    requires Within(path, Extend(ParseThread(listing, opts).comments, Received(ParseReplies(replies, opts), rounds)))
    ensures Linked(path, postId) <==> Branch(Erase(source, opts), path)
  {
    hide Rows, Preorder, Extend, Received, Erase, Branch, Linked, CommentIds, Listed;
    var base, more := ParseThread(listing, opts).comments, Received(ParseReplies(replies, opts), rounds);
    forall i | 0 <= i < |path| ensures Listed(path[i], Rows(Preorder(source), opts)) {
      ExtendMembers(base, more, path[i]);
    }
    var there := OnTheServer(path, Rows(Preorder(source), opts));
    SameLinksSamePath(Erase(source, opts), path, there, postId);
    if Linked(there, postId) {
      LinkedIsBranch(source, postId, there, opts);
    } else if Branch(Erase(source, opts), there) {
      BranchIsLinked(source, postId, there, opts);
    }
  }
}
