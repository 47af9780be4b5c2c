/** Listings whose comments, removed or not, name the comment or post they are listed
    under, and share no ID. */
module Listings {
  import opened CommentTree
  import opened RedditTypes

  function CommentIds(nodes: seq<Node>): multiset<Id> {
    if nodes == [] then multiset{}
    else
      (if nodes[0].CommentNode? then multiset{nodes[0].data.id} + CommentIds(nodes[0].replies) else multiset{})
      + CommentIds(nodes[1..])
  }

  /** Every comment, removed or not, names as parent the comment or post it is listed under. */
  ghost predicate NamesParents(nodes: seq<Node>, id: Id) {
    nodes != [] ==>
      && (nodes[0].CommentNode? ==>
            StripFullnamePrefix(nodes[0].data.parentId) == id && NamesParents(nodes[0].replies, nodes[0].data.id))
      && NamesParents(nodes[1..], id)
  }

  /** Every comment, removed or not, reports the depth it is listed at. */
  ghost predicate NamesDepths(nodes: seq<Node>, depth: int) {
    nodes != [] ==>
      && (nodes[0].CommentNode? ==> nodes[0].data.depth == depth && NamesDepths(nodes[0].replies, depth + 1))
      && NamesDepths(nodes[1..], depth)
  }

  ghost predicate NoRepeats(ids: multiset<Id>) {
    forall x :: ids[x] <= 1
  }

  /** A listing below a post: faithful parent IDs, and no two comments share an ID. */
  ghost predicate Listing(nodes: seq<Node>, id: Id) {
    NamesParents(nodes, id) && NoRepeats(multiset{id} + CommentIds(nodes))
  }

  lemma FewerRepeats(ids: multiset<Id>, all: multiset<Id>)
    requires NoRepeats(all) && forall x :: ids[x] <= all[x]
    ensures NoRepeats(ids)
  {
    forall x ensures ids[x] <= 1 {
      assert all[x] <= 1;
    }
  }

  lemma CommentIdsUnfold(nodes: seq<Node>, x: Id)
    requires nodes != []
    ensures CommentIds(nodes)[x]
         == (if nodes[0].CommentNode? then (if x == nodes[0].data.id then 1 else 0) + CommentIds(nodes[0].replies)[x] else 0)
            + CommentIds(nodes[1..])[x]
  {
  }

  lemma ListingParts(nodes: seq<Node>, id: Id)
    requires Listing(nodes, id) && nodes != []
    ensures Listing(nodes[1..], id)
    ensures nodes[0].CommentNode? ==> Listing(nodes[0].replies, nodes[0].data.id)
  {
    hide CommentIds, NoRepeats;
    var all := multiset{id} + CommentIds(nodes);
    forall x ensures (multiset{id} + CommentIds(nodes[1..]))[x] <= all[x] {
      CommentIdsUnfold(nodes, x);
    }
    FewerRepeats(multiset{id} + CommentIds(nodes[1..]), all);
    if nodes[0].CommentNode? {
      var below := multiset{nodes[0].data.id} + CommentIds(nodes[0].replies);
      forall x ensures below[x] <= all[x] {
        CommentIdsUnfold(nodes, x);
      }
      FewerRepeats(below, all);
    }
  }

  lemma NamesFirst(nodes: seq<Node>, id: Id)
    requires Listing(nodes, id) && nodes != [] && nodes[0].CommentNode?
    ensures StripFullnamePrefix(nodes[0].data.parentId) == id
  {
  }

  lemma NamesReplies(nodes: seq<Node>, id: Id)
    requires Listing(nodes, id) && nodes != [] && nodes[0].CommentNode?
    ensures NamesParents(nodes[0].replies, nodes[0].data.id)
  {
  }

  lemma PostIsNoComment(nodes: seq<Node>, id: Id)
    requires Listing(nodes, id)
    ensures id !in CommentIds(nodes)
  {
    assert (multiset{id} + CommentIds(nodes))[id] <= 1;
  }

  /** A row sits under the ID it names. */
  lemma {:induction false} RowSits(nodes: seq<Node>, id: Id, c: Comment, opts: Options)
    requires NamesParents(nodes, id) && c in Rows(Preorder(nodes), opts)
    ensures c.id in CommentIds(nodes)
    ensures c.parentId == id || c.parentId in CommentIds(nodes)
    decreases nodes
  {
    hide Preorder, Rows, IsRemoved, CommentIds, MakeComment;
    PreorderOfNone();
    RowsOfNone(opts);
    RowsSplit(nodes, opts);
    CommentIdsUnfold(nodes, c.id);
    CommentIdsUnfold(nodes, c.parentId);
    if c in Rows(Preorder(nodes[1..]), opts) {
      RowSits(nodes[1..], id, c, opts);
    } else if nodes[0].CommentNode? && c in Rows(Preorder(nodes[0].replies), opts) {
      RowSits(nodes[0].replies, nodes[0].data.id, c, opts);
      CommentIdsUnfold(nodes, nodes[0].data.id);
    } else {
      assert c == MakeComment(nodes[0].data, opts);
      OwnRow(nodes[0], c, opts);
    }
  }

  lemma OwnRow(n: Node, c: Comment, opts: Options)
    requires Kept(n) && c == MakeComment(n.data, opts)
    ensures c.id == n.data.id && c.parentId == StripFullnamePrefix(n.data.parentId)
  {
  }
}
