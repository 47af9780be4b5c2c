/** What the rows give back whatever was removed: once the rows without a known parent are
    dropped, the parser reads off every comment that live comments connect to the post. */
module PrunedRows {
  import opened CommentTree
  import opened Listings
  import opened Rebuild
  import opened RedditTypes

  /** Drops each row whose parent is neither known nor a row kept before. */
  function Prune(rows: seq<Comment>, known: set<Id>): seq<Comment> {
    if rows == [] then []
    else if rows[0].parentId in known then [rows[0]] + Prune(rows[1..], known + {rows[0].id})
    else Prune(rows[1..], known)
  }

  ghost predicate Unseen(ids: multiset<Id>, known: set<Id>) {
    forall x :: x in known ==> ids[x] == 0
  }

  /** Below a comment whose row is gone, every row is dropped. */
  lemma {:induction false} PruneDrops(nodes: seq<Node>, id: Id, known: set<Id>, opts: Options, rest: seq<Comment>)
    requires NamesParents(nodes, id) && id !in known && Unseen(CommentIds(nodes), known)
    ensures Prune(Rows(Preorder(nodes), opts) + rest, known) == Prune(rest, known)
    decreases nodes
  {
    hide Preorder, Rows, IsRemoved;
    if nodes == [] {
      PreorderOfNone();
      RowsOfNone(opts);
      assert [] + rest == rest;
    } else {
      var n := nodes[0];
      var later := Rows(Preorder(nodes[1..]), opts) + rest;
      RowsUnfold(nodes, opts, rest);
      PruneDrops(nodes[1..], id, known, opts, rest);
      if n.CommentNode? {
        assert n.data.id !in known by {
          assert CommentIds(nodes)[n.data.id] > 0;
        }
        PruneDrops(n.replies, n.data.id, known, opts, later);
        if Kept(n) {
          PruneHead(MakeComment(n.data, opts), Rows(Preorder(n.replies), opts) + later, known);
        }
      } else {
        assert [] + later == later;
      }
    }
  }

  lemma PruneHead(c: Comment, rows: seq<Comment>, known: set<Id>)
    ensures Prune([c] + rows, known)
         == if c.parentId in known then [c] + Prune(rows, known + {c.id}) else Prune(rows, known)
  {
    assert ([c] + rows)[1..] == rows;
  }

  function RowIds(rows: seq<Comment>): set<Id> {
    set c | c in rows :: c.id
  }

  lemma UnknownParts(nodes: seq<Node>, id: Id, known: set<Id>, seen: set<Id>)
    requires Listing(nodes, id) && nodes != [] && nodes[0].CommentNode? && Unseen(CommentIds(nodes), known)
    requires forall x :: x in seen ==> x == nodes[0].data.id || x in CommentIds(nodes[0].replies)
    ensures nodes[0].data.id !in known
    ensures Unseen(CommentIds(nodes[0].replies), known + {nodes[0].data.id})
    ensures Unseen(CommentIds(nodes[1..]), known + seen)
  {
    hide CommentIds, NamesParents;
    var all := multiset{id} + CommentIds(nodes);
    forall x ensures all[x] <= 1 && (x in known ==> CommentIds(nodes)[x] == 0) {
    }
    CommentIdsUnfold(nodes, nodes[0].data.id);
    forall x | x in known + {nodes[0].data.id} ensures CommentIds(nodes[0].replies)[x] == 0 {
      CommentIdsUnfold(nodes, x);
    }
    forall x | x in known + seen ensures CommentIds(nodes[1..])[x] == 0 {
      CommentIdsUnfold(nodes, x);
    }
  }

  lemma UnknownLater(nodes: seq<Node>, known: set<Id>)
    requires nodes != [] && Unseen(CommentIds(nodes), known)
    ensures Unseen(CommentIds(nodes[1..]), known)
    ensures nodes[0].CommentNode? ==> Unseen(CommentIds(nodes[0].replies), known)
  {
    hide CommentIds;
    forall x | x in known
      ensures CommentIds(nodes[1..])[x] == 0 && (nodes[0].CommentNode? ==> CommentIds(nodes[0].replies)[x] == 0)
    {
      CommentIdsUnfold(nodes, x);
    }
  }

  lemma RowIdsJoin(c: Comment, a: seq<Comment>, b: seq<Comment>, known: set<Id>)
    ensures known + RowIds([c] + (a + b)) == known + ({c.id} + RowIds(a)) + RowIds(b)
  {
  }

  lemma {:induction false} FlatIds(nodes: seq<Node>, opts: Options)
    ensures forall c :: c in Flat(Erase(nodes, opts)) ==> c.id in CommentIds(nodes)
    decreases nodes
  {
    hide IsRemoved, Flat, CommentIds;
    FlatOfNone();
    if nodes != [] {
      FlatIds(nodes[1..], opts);
      if Kept(nodes[0]) {
        FlatIds(nodes[0].replies, opts);
        FlatUnfold(Erase(nodes, opts));
        assert Erase(nodes, opts)[1..] == Erase(nodes[1..], opts);
      }
      forall c | c in Flat(Erase(nodes, opts)) ensures c.id in CommentIds(nodes) {
        CommentIdsUnfold(nodes, c.id);
      }
    }
  }

  /** Exactly the rows of the comments that live comments connect to the post survive. */
  lemma {:induction false} PruneKeeps(nodes: seq<Node>, id: Id, known: set<Id>, opts: Options, rest: seq<Comment>)
    requires Listing(nodes, id) && id in known && Unseen(CommentIds(nodes), known)
    ensures var kept := Flat(Erase(nodes, opts));
      Prune(Rows(Preorder(nodes), opts) + rest, known) == kept + Prune(rest, known + RowIds(kept))
    decreases nodes
  {
    hide Preorder, Rows, IsRemoved, Flat, Prune, Unseen, Listing, CommentIds;
    FlatOfNone();
    if nodes == [] {
      PreorderOfNone();
      RowsOfNone(opts);
      assert [] + rest == rest && known + RowIds([]) == known;
      assert [] + Prune(rest, known) == Prune(rest, known);
    } else {
      var n, others := nodes[0], nodes[1..];
      var later := Rows(Preorder(others), opts) + rest;
      RowsUnfold(nodes, opts, rest);
      ListingParts(nodes, id);
      UnknownLater(nodes, known);
      if Kept(n) {
        var c, below := MakeComment(n.data, opts), Flat(Erase(n.replies, opts));
        FlatIds(n.replies, opts);
        UnknownParts(nodes, id, known, {});
        PruneKeeps(n.replies, c.id, known + {c.id}, opts, later);
        var known' := known + ({c.id} + RowIds(below));
        UnknownParts(nodes, id, known, {c.id} + RowIds(below));
        PruneKeeps(others, id, known', opts, rest);
        assert known + {c.id} + RowIds(below) == known';
        FlatUnfold(Erase(nodes, opts));
        assert Erase(nodes, opts)[1..] == Erase(others, opts);
        PruneHead(c, Rows(Preorder(n.replies), opts) + later, known);
        RowIdsJoin(c, below, Flat(Erase(others, opts)), known);
        assert c.parentId == id by {
          NamesFirst(nodes, id);
        }
      } else if n.CommentNode? {
        UnknownParts(nodes, id, known, {});
        NamesReplies(nodes, id);
        PruneDrops(n.replies, n.data.id, known, opts, later);
        PruneKeeps(others, id, known, opts, rest);
      } else {
        assert [] + later == later;
        PruneKeeps(others, id, known, opts, rest);
      }
    }
  }

  /** Distinct IDs tell the levels of the live comments apart. */
  lemma {:induction false} ListingIsScoped(nodes: seq<Node>, id: Id, opts: Options)
    requires Listing(nodes, id)
    ensures Scoped(ByParent, Erase(nodes, opts), UnderId(id))
    decreases nodes
  {
    hide IsRemoved, Flat, Listing, CommentIds;
    if nodes != [] {
      var n := nodes[0];
      ListingParts(nodes, id);
      ListingIsScoped(nodes[1..], id, opts);
      if Kept(n) {
        var t := Tree(MakeComment(n.data, opts), Erase(n.replies, opts));
        ListingIsScoped(n.replies, n.data.id, opts);
        FlatIds(n.replies, opts);
        CommentIdsUnfold(nodes, n.data.id);
        CommentIdsUnfold(nodes, id);
        assert Erase(nodes, opts)[1..] == Erase(nodes[1..], opts);
        NamesFirst(nodes, id);
        PostIsNoComment(nodes, id);
        assert n.data.id != id;
        forall i | 0 <= i < |Flat(t.replies)| ensures Flat(t.replies)[i].id != id {
          assert Flat(t.replies)[i] in Flat(t.replies);
        }
        assert NoneBelow(ByParent, Flat(t.replies), UnderId(id));
      }
    }
  }

  /** Whatever was removed, the rows give back every comment that live comments connect to
      the post: the parser reads them off once the rows without a known parent are gone. */
  lemma PrunedRowsRebuild(nodes: seq<Node>, postId: Id, opts: Options)
    requires Listing(nodes, postId)
    ensures Build(ByParent, Prune(Rows(Preorder(nodes), opts), {postId}), UnderId(postId))
         == Built(Erase(nodes, opts), [])
  {
    hide Rows, Preorder, Listing, Prune, Build, Flat, Erase;
    PostIsNoComment(nodes, postId);
    var rows := Rows(Preorder(nodes), opts);
    PruneKeeps(nodes, postId, {postId}, opts, []);
    PruneOfNone({postId} + RowIds(Flat(Erase(nodes, opts))));
    assert rows + [] == rows;
    assert Flat(Erase(nodes, opts)) + [] == Flat(Erase(nodes, opts));
    ListingIsScoped(nodes, postId, opts);
    BuildWhole(ByParent, Erase(nodes, opts), UnderId(postId));
  }

  lemma PruneOfNone(known: set<Id>)
    ensures Prune([], known) == []
  {
  }
}
