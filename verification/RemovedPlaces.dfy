/** Where removed comments with live replies stood: parent IDs tell it exactly when there
    are none. */
module RemovedPlaces {
  import opened CommentTree
  import opened Listings
  import opened PrunedRows
  import opened Rebuild
  import opened RedditTypes

  /** The forest of the live comments and of the places of the removed ones above them. */
  datatype Place = Live(comment: Comment, replies: seq<Place>) | Gone(replies: seq<Place>)

  function Places(nodes: seq<Node>, opts: Options): seq<Place> {
    if nodes == [] then []
    else
      var n, later := nodes[0], Places(nodes[1..], opts);
      if Kept(n) then [Live(MakeComment(n.data, opts), Places(n.replies, opts))] + later
      else if n.CommentNode? && Places(n.replies, opts) != [] then [Gone(Places(n.replies, opts))] + later
      else later
  }

  lemma {:induction false} NoRowsNoPlaces(nodes: seq<Node>, opts: Options)
    ensures Places(nodes, opts) == [] <==> Rows(Preorder(nodes), opts) == []
    decreases nodes
  {
    hide Preorder, Rows, IsRemoved, MakeComment;
    if nodes == [] {
      PreorderOfNone();
      RowsOfNone(opts);
    } else {
      RowsSplit(nodes, opts);
      NoRowsNoPlaces(nodes[1..], opts);
      if nodes[0].CommentNode? {
        NoRowsNoPlaces(nodes[0].replies, opts);
      }
    }
  }

  function AllLive(forest: seq<Tree>): seq<Place> {
    if forest == [] then []
    else [Live(forest[0].comment, AllLive(forest[0].replies))] + AllLive(forest[1..])
  }

  lemma {:induction false} NoOrphansAllLive(nodes: seq<Node>, opts: Options)
    requires NoOrphans(nodes, opts)
    ensures Places(nodes, opts) == AllLive(Erase(nodes, opts))
    decreases nodes
  {
    hide IsRemoved, MakeComment, Rows, Preorder;
    if nodes != [] {
      NoOrphansAllLive(nodes[1..], opts);
      if Kept(nodes[0]) {
        NoOrphansAllLive(nodes[0].replies, opts);
        assert Erase(nodes, opts)[1..] == Erase(nodes[1..], opts);
      } else if nodes[0].CommentNode? {
        NoRowsNoPlaces(nodes[0].replies, opts);
      }
    }
  }

  // ------------------------------------------------------------------ by parent IDs

  function RemovedIds(nodes: seq<Node>): multiset<Id> {
    if nodes == [] then multiset{}
    else
      (if nodes[0].CommentNode?
       then (if IsRemoved(nodes[0].data) then multiset{nodes[0].data.id} else multiset{}) + RemovedIds(nodes[0].replies)
       else multiset{})
      + RemovedIds(nodes[1..])
  }

  function LiveIds(rows: seq<Comment>): multiset<Id> {
    multiset(IdSeq(rows))
  }

  lemma LiveIdsJoin(a: seq<Comment>, b: seq<Comment>)
    ensures LiveIds(a + b) == LiveIds(a) + LiveIds(b)
  {
    assert IdSeq(a + b) == IdSeq(a) + IdSeq(b);
  }

  lemma NoIds()
    ensures LiveIds([]) == multiset{}
  {
    assert IdSeq([]) == [];
  }

  lemma RemovedIdsUnfold(nodes: seq<Node>, x: Id)
    requires nodes != []
    ensures var n := nodes[0];
      RemovedIds(nodes)[x]
        == (if !n.CommentNode? then 0 else if IsRemoved(n.data) && x == n.data.id then 1 + RemovedIds(n.replies)[x]
            else RemovedIds(n.replies)[x]) + RemovedIds(nodes[1..])[x]
  {
    hide IsRemoved;
  }

  lemma LiveIdsUnfold(nodes: seq<Node>, x: Id, opts: Options)
    requires nodes != []
    ensures var n := nodes[0];
      LiveIds(Rows(Preorder(nodes), opts))[x]
        == (if !n.CommentNode? then 0
            else (if Kept(n) && x == n.data.id then 1 else 0) + LiveIds(Rows(Preorder(n.replies), opts))[x])
           + LiveIds(Rows(Preorder(nodes[1..]), opts))[x]
  {
    hide Preorder, Rows, IsRemoved, LiveIds;
    var n := nodes[0];
    var below := if n.CommentNode? then Rows(Preorder(n.replies), opts) else [];
    var later := Rows(Preorder(nodes[1..]), opts);
    RowsSplit(nodes, opts);
    LiveIdsJoin(below, later);
    NoIds();
    if Kept(n) {
      LiveIdsJoin([MakeComment(n.data, opts)], below + later);
      OwnId(MakeComment(n.data, opts));
    }
  }

  /** Every comment is a row or was removed. */
  lemma {:induction false} LiveOrRemoved(nodes: seq<Node>, x: Id, opts: Options)
    ensures CommentIds(nodes)[x] == LiveIds(Rows(Preorder(nodes), opts))[x] + RemovedIds(nodes)[x]
    decreases nodes
  {
    hide Preorder, Rows, IsRemoved, LiveIds;
    if nodes == [] {
      PreorderOfNone();
      RowsOfNone(opts);
      NoIds();
    } else {
      hide CommentIds, RemovedIds;
      CommentIdsUnfold(nodes, x);
      RemovedIdsUnfold(nodes, x);
      LiveIdsUnfold(nodes, x, opts);
      LiveOrRemoved(nodes[1..], x, opts);
      if nodes[0].CommentNode? {
        LiveOrRemoved(nodes[0].replies, x, opts);
      }
    }
  }

  lemma {:induction false} ParentsAreRows(nodes: seq<Node>, id: Id, opts: Options)
    requires NamesParents(nodes, id) && NoOrphans(nodes, opts)
    ensures forall c :: c in Rows(Preorder(nodes), opts) ==>
              c.parentId == id || c.parentId in LiveIds(Rows(Preorder(nodes), opts))
    decreases nodes
  {
    hide Preorder, Rows, IsRemoved, LiveIds;
    if nodes == [] {
      PreorderOfNone();
      RowsOfNone(opts);
    } else {
      var n := nodes[0];
      var below := if n.CommentNode? then Rows(Preorder(n.replies), opts) else [];
      var later := Rows(Preorder(nodes[1..]), opts);
      RowsSplit(nodes, opts);
      ParentsAreRows(nodes[1..], id, opts);
      LiveIdsJoin(below, later);
      if Kept(n) {
        var c := MakeComment(n.data, opts);
        ParentsAreRows(n.replies, n.data.id, opts);
        LiveIdsJoin([c], below + later);
        OwnId(c);
      }
    }
  }

  lemma OwnId(c: Comment)
    ensures LiveIds([c]) == multiset{c.id}
  {
    assert IdSeq([c]) == [c.id];
  }

  /** A first row below the comments listed under `id` names it, or a removed comment. */
  lemma {:induction false} TopRow(nodes: seq<Node>, id: Id, opts: Options) returns (c: Comment)
    requires NamesParents(nodes, id) && Rows(Preorder(nodes), opts) != []
    ensures c in Rows(Preorder(nodes), opts) && (c.parentId == id || c.parentId in RemovedIds(nodes))
    decreases nodes
  {
    hide Preorder, Rows, IsRemoved;
    PreorderOfNone();
    RowsOfNone(opts);
    var n := nodes[0];
    RowsSplit(nodes, opts);
    if Kept(n) {
      c := MakeComment(n.data, opts);
    } else if n.CommentNode? && Rows(Preorder(n.replies), opts) != [] {
      c := TopRow(n.replies, n.data.id, opts);
    } else {
      c := TopRow(nodes[1..], id, opts);
    }
  }

  lemma {:induction false} OrphanRow(nodes: seq<Node>, id: Id, opts: Options) returns (c: Comment)
    requires NamesParents(nodes, id) && !NoOrphans(nodes, opts)
    ensures c in Rows(Preorder(nodes), opts) && c.parentId in RemovedIds(nodes)
    decreases nodes
  {
    hide Preorder, Rows, IsRemoved;
    var n := nodes[0];
    RowsSplit(nodes, opts);
    if n.CommentNode? && IsRemoved(n.data) && Rows(Preorder(n.replies), opts) != [] {
      c := TopRow(n.replies, n.data.id, opts);
    } else if Kept(n) && !NoOrphans(n.replies, opts) {
      c := OrphanRow(n.replies, n.data.id, opts);
    } else {
      c := OrphanRow(nodes[1..], id, opts);
    }
  }

  lemma RemovedIsNoRow(nodes: seq<Node>, id: Id, x: Id, opts: Options)
    requires Listing(nodes, id) && x in RemovedIds(nodes)
    ensures x != id && x !in LiveIds(Rows(Preorder(nodes), opts))
  {
    hide Preorder, Rows, LiveIds, NamesParents, CommentIds, RemovedIds;
    LiveOrRemoved(nodes, x, opts);
    assert (multiset{id} + CommentIds(nodes))[x] <= 1;
  }

  /** The rows show whether a removed comment has a live reply: some row then names as its
      parent neither the post nor a row. */
  lemma OrphansShow(f: seq<Node>, g: seq<Node>, postId: Id, opts: Options)
    requires Listing(f, postId) && Listing(g, postId) && Rows(Preorder(f), opts) == Rows(Preorder(g), opts)
    ensures NoOrphans(f, opts) ==> NoOrphans(g, opts)
  {
    if NoOrphans(f, opts) && !NoOrphans(g, opts) {
      hide Preorder, Rows, NoOrphans, LiveIds, NamesParents, CommentIds, RemovedIds;
      var c := OrphanRow(g, postId, opts);
      ParentsAreRows(f, postId, opts);
      RemovedIsNoRow(g, postId, c.parentId, opts);
    }
  }

  function Size(places: seq<Place>): nat {
    if places == [] then 0 else 1 + Size(places[0].replies) + Size(places[1..])
  }

  function Placeholder(id: Id, parentId: string, depth: int): CommentData {
    CommentData(id, parentId, "", 0, "", depth, 0.0)
  }

  lemma SizeCons(p: Place, rest: seq<Place>)
    ensures Size([p] + rest) == 1 + Size(p.replies) + Size(rest)
  {
    assert ([p] + rest)[1..] == rest;
  }

  lemma PlacesCons(n: Node, others: seq<Node>, opts: Options)
    ensures Size(Places([n] + others, opts)) == Size(Places(others, opts))
      + if n.CommentNode? && (Kept(n) || Rows(Preorder(n.replies), opts) != []) then 1 + Size(Places(n.replies, opts)) else 0
  {
    hide IsRemoved, MakeComment, Rows, Preorder, Size;
    assert ([n] + others)[1..] == others;
    if n.CommentNode? {
      var below := Places(n.replies, opts);
      NoRowsNoPlaces(n.replies, opts);
      SizeCons(if Kept(n) then Live(MakeComment(n.data, opts), below) else Gone(below), Places(others, opts));
    }
  }

  /** What a node contributes to each reading of a listing. */
  lemma Cons(n: Node, others: seq<Node>, id: Id, opts: Options)
    ensures NamesParents([n] + others, id)
        <==> (n.CommentNode? ==> StripFullnamePrefix(n.data.parentId) == id && NamesParents(n.replies, n.data.id))
             && NamesParents(others, id)
    ensures CommentIds([n] + others)
         == CommentIds(others) + if n.CommentNode? then multiset{n.data.id} + CommentIds(n.replies) else multiset{}
    ensures var below := if n.CommentNode? then Rows(Preorder(n.replies), opts) else [];
      var after := below + Rows(Preorder(others), opts);
      Rows(Preorder([n] + others), opts) == if Kept(n) then [MakeComment(n.data, opts)] + after else after
    ensures Size(Places([n] + others, opts)) == Size(Places(others, opts))
      + if n.CommentNode? && (Kept(n) || Rows(Preorder(n.replies), opts) != []) then 1 + Size(Places(n.replies, opts)) else 0
  {
    hide IsRemoved, MakeComment, Rows, Preorder, Size, Places, StripFullnamePrefix;
    assert ([n] + others)[1..] == others;
    RowsSplit([n] + others, opts);
    PlacesCons(n, others, opts);
  }

  /** One more removed comment, with ID q, that leaves no trace in the rows. */
  ghost predicate Wrapped(nodes: seq<Node>, g: seq<Node>, id: Id, q: Id, opts: Options) {
    && NamesParents(g, id)
    && CommentIds(g) == CommentIds(nodes) + multiset{q}
    && Rows(Preorder(g), opts) == Rows(Preorder(nodes), opts)
    && Size(Places(g, opts)) == Size(Places(nodes, opts)) + 1
  }

  /** A removed comment with a live reply can be wrapped in another removed comment. */
  lemma {:induction false} Wrap(nodes: seq<Node>, id: Id, q: Id, opts: Options) returns (g: seq<Node>)
    requires NamesParents(nodes, id) && !NoOrphans(nodes, opts)
    ensures Wrapped(nodes, g, id, q, opts)
    decreases nodes
  {
    hide Preorder, Rows, IsRemoved, NamesParents, Wrapped;
    var n, others := nodes[0], nodes[1..];
    assert nodes == [n] + others;
    Cons(n, others, id, opts);
    if n.CommentNode? && IsRemoved(n.data) && Rows(Preorder(n.replies), opts) != [] {
      g := WrapNode(n, others, id, q, opts);
    } else if Kept(n) && !NoOrphans(n.replies, opts) {
      var inner := Wrap(n.replies, n.data.id, q, opts);
      g := [CommentNode(n.data, inner)] + others;
      WrapReplies(n, inner, others, id, q, opts);
    } else {
      var inner := Wrap(others, id, q, opts);
      g := [n] + inner;
      WrapLater(n, others, inner, id, q, opts);
    }
  }

  lemma WrapReplies(n: Node, inner: seq<Node>, others: seq<Node>, id: Id, q: Id, opts: Options)
    requires NamesParents([n] + others, id) && Kept(n) && Wrapped(n.replies, inner, n.data.id, q, opts)
    ensures Wrapped([n] + others, [CommentNode(n.data, inner)] + others, id, q, opts)
  {
    hide Preorder, Rows, IsRemoved, Size, Places, NamesParents, CommentIds, MakeComment, StripFullnamePrefix;
    Cons(n, others, id, opts);
    Cons(CommentNode(n.data, inner), others, id, opts);
  }

  lemma WrapLater(n: Node, others: seq<Node>, inner: seq<Node>, id: Id, q: Id, opts: Options)
    requires NamesParents([n] + others, id) && Wrapped(others, inner, id, q, opts)
    ensures Wrapped([n] + others, [n] + inner, id, q, opts)
  {
    hide Preorder, Rows, IsRemoved, Size, Places, NamesParents, CommentIds, MakeComment, StripFullnamePrefix;
    Cons(n, others, id, opts);
    Cons(n, inner, id, opts);
  }

  lemma WrapNode(n: Node, others: seq<Node>, id: Id, q: Id, opts: Options) returns (g: seq<Node>)
    requires NamesParents([n] + others, id) && n.CommentNode? && IsRemoved(n.data)
    requires Rows(Preorder(n.replies), opts) != []
    ensures Wrapped([n] + others, g, id, q, opts)
  {
    var inner := CommentNode(n.data.(parentId := "t1_" + q), n.replies);
    var outer := CommentNode(Placeholder(q, "t1_" + id, n.data.depth), [inner]);
    g := [outer] + others;
    assert StripFullnamePrefix("t1_" + id) == id && StripFullnamePrefix("t1_" + q) == q;
    assert IsRemoved(outer.data) && IsRemoved(inner.data);
    assert NamesParents([], q) && CommentIds([]) == multiset{} && Places([], opts) == [] && Size([]) == 0;
    assert [inner] + [] == [inner];
    PreorderOfNone();
    RowsOfNone(opts);
    Cons(n, others, id, opts);
    Cons(inner, [], q, opts);
    Cons(outer, others, id, opts);
    hide Preorder, Rows, IsRemoved, Size, Places, NamesParents, CommentIds, MakeComment, StripFullnamePrefix;
    assert Rows(Preorder([inner]), opts) == Rows(Preorder(n.replies), opts);
  }

  lemma {:induction false} LongestId(nodes: seq<Node>) returns (n: nat)
    ensures forall x :: x in CommentIds(nodes) ==> |x| <= n
  {
    if nodes == [] {
      n := 0;
    } else {
      hide CommentIds;
      n := LongestId(nodes[1..]);
      if nodes[0].CommentNode? {
        var m := LongestId(nodes[0].replies);
        n := n + m + |nodes[0].data.id|;
      }
      forall x | x in CommentIds(nodes) ensures |x| <= n {
        CommentIdsUnfold(nodes, x);
      }
    }
  }

  lemma FreshId(nodes: seq<Node>, id: Id) returns (q: Id)
    ensures q !in CommentIds(nodes) && q != id
  {
    var n := LongestId(nodes);
    q := seq(n + |id| + 1, _ => 'x');
  }

  /** Every listing with these rows has its removed comments at the same places. */
  ghost predicate ParentsTellPlaces(nodes: seq<Node>, postId: Id, opts: Options) {
    forall g: seq<Node> :: Listing(g, postId) && Rows(Preorder(g), opts) == Rows(Preorder(nodes), opts) ==>
      Places(g, opts) == Places(nodes, opts)
  }

  /** ID, parent and order tell where the removed comments stood exactly when none of them
      has a live reply. */
  lemma ParentsTellPlacesWhen(nodes: seq<Node>, postId: Id, opts: Options)
    requires Listing(nodes, postId)
    ensures ParentsTellPlaces(nodes, postId, opts) <==> NoOrphans(nodes, opts)
  {
    hide Rows, Preorder, NoOrphans, Places, NamesParents, CommentIds, Erase, Build, Prune;
    if NoOrphans(nodes, opts) {
      PrunedRowsRebuild(nodes, postId, opts);
      NoOrphansAllLive(nodes, opts);
      forall g: seq<Node> | Listing(g, postId) && Rows(Preorder(g), opts) == Rows(Preorder(nodes), opts)
        ensures Places(g, opts) == Places(nodes, opts)
      {
        OrphansShow(nodes, g, postId, opts);
        PrunedRowsRebuild(g, postId, opts);
        NoOrphansAllLive(g, opts);
      }
    } else {
      var q := FreshId(nodes, postId);
      var g := Wrap(nodes, postId, q, opts);
      var ids := multiset{postId} + CommentIds(nodes);
      forall x ensures (multiset{postId} + CommentIds(g))[x] <= 1 {
        assert ids[x] <= 1;
      }
      assert Listing(g, postId);
    }
  }
}
