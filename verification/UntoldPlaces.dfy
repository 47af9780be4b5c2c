/** When parents and depths leave a removed comment more than one place: another faithful
    listing has the same rows. */
module UntoldPlaces {
  import opened CommentTree
  import opened Listings
  import opened Rebuild
  import opened RedditTypes
  import opened RemovedPlaces
  import opened ToldPlaces

  /** The comments of a list, listed under q instead; only removed ones may move. */
  function Reparent(nodes: seq<Node>, q: Id): seq<Node> {
    if nodes == [] then []
    else
      [match nodes[0]
       case CommentNode(data, replies) => CommentNode(data.(parentId := "t1_" + q), replies)
       case n => n] + Reparent(nodes[1..], q)
  }

  ghost predicate NoneKept(nodes: seq<Node>) {
    forall i :: 0 <= i < |nodes| ==> !Kept(nodes[i])
  }

  // --------------------------------------- what nodes contribute to each reading

  ghost predicate Names(nodes: seq<Node>, id: Id, depth: int) {
    NamesParents(nodes, id) && NamesDepths(nodes, depth)
  }

  lemma ConsNames(n: Node, others: seq<Node>, id: Id, depth: int)
    ensures Names([n] + others, id, depth)
        <==> (n.CommentNode? ==> StripFullnamePrefix(n.data.parentId) == id && n.data.depth == depth
                                 && Names(n.replies, n.data.id, depth + 1))
             && Names(others, id, depth)
  {
    hide StripFullnamePrefix;
    assert ([n] + others)[1..] == others;
  }

  lemma {:induction false} JoinNames(a: seq<Node>, b: seq<Node>, id: Id, depth: int)
    ensures Names(a + b, id, depth) <==> Names(a, id, depth) && Names(b, id, depth)
  {
    if a == [] {
      assert a + b == b;
    } else {
      assert a == [a[0]] + a[1..] && a + b == [a[0]] + (a[1..] + b);
      hide Names, StripFullnamePrefix;
      JoinNames(a[1..], b, id, depth);
      ConsNames(a[0], a[1..], id, depth);
      ConsNames(a[0], a[1..] + b, id, depth);
    }
  }

  lemma ConsIds(n: Node, others: seq<Node>, x: Id)
    ensures CommentIds([n] + others)[x]
         == (if n.CommentNode? then (if x == n.data.id then 1 else 0) + CommentIds(n.replies)[x] else 0)
            + CommentIds(others)[x]
  {
    hide CommentIds;
    assert ([n] + others)[1..] == others;
    CommentIdsUnfold([n] + others, x);
  }

  lemma {:induction false} JoinIds(a: seq<Node>, b: seq<Node>, x: Id)
    ensures CommentIds(a + b)[x] == CommentIds(a)[x] + CommentIds(b)[x]
  {
    if a == [] {
      assert a + b == b;
    } else {
      assert (a + b)[1..] == a[1..] + b;
      hide CommentIds;
      JoinIds(a[1..], b, x);
      CommentIdsUnfold(a, x);
      CommentIdsUnfold(a + b, x);
    }
  }

  lemma ConsRows(n: Node, others: seq<Node>, opts: Options)
    requires n.CommentNode?
    ensures Rows(Preorder([n] + others), opts) == TreeRows(n, opts) + Rows(Preorder(others), opts)
    ensures var below := Rows(Preorder(n.replies), opts);
      TreeRows(n, opts) == if Kept(n) then [MakeComment(n.data, opts)] + below else below
  {
    hide Preorder, Rows, IsRemoved, MakeComment;
    assert ([n] + others)[1..] == others;
    RowsByTree([n] + others, opts);
    TreeRowsAre(n, opts);
  }

  lemma JoinRows(a: seq<Node>, b: seq<Node>, opts: Options)
    ensures Rows(Preorder(a + b), opts) == Rows(Preorder(a), opts) + Rows(Preorder(b), opts)
  {
    hide Preorder, Rows;
    PreorderConcat(a, b);
    RowsConcat(Preorder(a), Preorder(b), opts);
  }

  function Count(nodes: seq<Node>, opts: Options): nat {
    Size(Places(nodes, opts))
  }

  lemma ConsCount(n: Node, others: seq<Node>, opts: Options)
    ensures Count([n] + others, opts) == Count(others, opts)
      + if n.CommentNode? && (Kept(n) || Rows(Preorder(n.replies), opts) != []) then 1 + Count(n.replies, opts) else 0
  {
    hide Preorder, Rows, IsRemoved, Size, Places;
    PlacesCons(n, others, opts);
  }

  lemma {:induction false} JoinCount(a: seq<Node>, b: seq<Node>, opts: Options)
    ensures Count(a + b, opts) == Count(a, opts) + Count(b, opts)
  {
    if a == [] {
      assert a + b == b;
    } else {
      assert a == [a[0]] + a[1..] && a + b == [a[0]] + (a[1..] + b);
      hide Preorder, Rows, IsRemoved, Count;
      JoinCount(a[1..], b, opts);
      ConsCount(a[0], a[1..], opts);
      ConsCount(a[0], a[1..] + b, opts);
    }
  }

  // ------------------------------------------------------------- moving comments

  lemma {:induction false} ReparentNames(nodes: seq<Node>, id: Id, q: Id, depth: int)
    requires Names(nodes, id, depth)
    ensures Names(Reparent(nodes, q), q, depth)
  {
    if nodes != [] {
      assert StripFullnamePrefix("t1_" + q) == q;
      hide StripFullnamePrefix;
      ReparentNames(nodes[1..], id, q, depth);
    }
  }

  lemma {:induction false} ReparentKeeps(nodes: seq<Node>, q: Id, opts: Options)
    requires NoneKept(nodes)
    ensures CommentIds(Reparent(nodes, q)) == CommentIds(nodes)
    ensures Rows(Preorder(Reparent(nodes, q)), opts) == Rows(Preorder(nodes), opts)
    ensures Count(Reparent(nodes, q), opts) == Count(nodes, opts)
  {
    if nodes != [] {
      var n, others := nodes[0], nodes[1..];
      var moved := Reparent(nodes, q);
      assert nodes == [n] + others && moved == [moved[0]] + Reparent(others, q) && moved[1..] == Reparent(others, q);
      assert !Kept(n) && !Kept(moved[0]);
      hide Preorder, Rows, IsRemoved, Count, Reparent;
      ReparentKeeps(others, q, opts);
      RowsSplit(nodes, opts);
      RowsSplit(moved, opts);
      ConsCount(n, others, opts);
      ConsCount(moved[0], Reparent(others, q), opts);
    }
  }

  /** Another listing with the same rows and at most one new ID, whose places differ. */
  ghost predicate Rearranged(nodes: seq<Node>, g: seq<Node>, id: Id, depth: int, q: Id, opts: Options) {
    && Names(g, id, depth)
    && (forall x :: CommentIds(g)[x] <= CommentIds(nodes)[x] + if x == q then 1 else 0)
    && Rows(Preorder(g), opts) == Rows(Preorder(nodes), opts)
    && Count(g, opts) != Count(nodes, opts)
  }

  lemma RearrangedBelow(n: Node, inner: seq<Node>, others: seq<Node>, id: Id, depth: int, q: Id, opts: Options)
    requires Names([n] + others, id, depth) && n.CommentNode?
    requires Rearranged(n.replies, inner, n.data.id, depth + 1, q, opts)
    requires Kept(n) || Rows(Preorder(n.replies), opts) != []
    ensures Rearranged([n] + others, [CommentNode(n.data, inner)] + others, id, depth, q, opts)
  {
    hide Preorder, Rows, IsRemoved, Count, Names, CommentIds, MakeComment, StripFullnamePrefix;
    var m := CommentNode(n.data, inner);
    ConsNames(n, others, id, depth);
    ConsNames(m, others, id, depth);
    ConsRows(n, others, opts);
    ConsRows(m, others, opts);
    ConsCount(n, others, opts);
    ConsCount(m, others, opts);
    forall x ensures CommentIds([m] + others)[x] <= CommentIds([n] + others)[x] + if x == q then 1 else 0 {
      ConsIds(n, others, x);
      ConsIds(m, others, x);
    }
  }

  lemma RearrangedLater(n: Node, others: seq<Node>, inner: seq<Node>, id: Id, depth: int, q: Id, opts: Options)
    requires Names([n] + others, id, depth) && n.CommentNode? && Rearranged(others, inner, id, depth, q, opts)
    ensures Rearranged([n] + others, [n] + inner, id, depth, q, opts)
  {
    hide Preorder, Rows, IsRemoved, Count, Names, CommentIds, MakeComment, StripFullnamePrefix;
    ConsNames(n, others, id, depth);
    ConsNames(n, inner, id, depth);
    ConsRows(n, others, opts);
    ConsRows(n, inner, opts);
    ConsCount(n, others, opts);
    ConsCount(n, inner, opts);
    forall x ensures CommentIds([n] + inner)[x] <= CommentIds([n] + others)[x] + if x == q then 1 else 0 {
      ConsIds(n, others, x);
      ConsIds(n, inner, x);
    }
  }

  /** One comment for two that follow each other, or two for one: the same rows come from
      the replies a and b of both together. */
  lemma SplitInTwo(whole: Node, first: Node, second: Node, a: seq<Node>, b: seq<Node>, others: seq<Node>, opts: Options)
    requires whole.CommentNode? && first.CommentNode? && second.CommentNode? && whole.replies == a + b
    requires Rows(Preorder(first.replies), opts) == Rows(Preorder(a), opts) && Count(first.replies, opts) == Count(a, opts)
    requires Rows(Preorder(second.replies), opts) == Rows(Preorder(b), opts) && Count(second.replies, opts) == Count(b, opts)
    requires Kept(whole) == Kept(first) && !Kept(second) && (Kept(whole) ==> whole.data == first.data)
    requires Rows(Preorder(b), opts) != [] && (Kept(first) || Rows(Preorder(a), opts) != [])
    ensures Rows(Preorder([whole] + others), opts) == Rows(Preorder([first] + ([second] + others)), opts)
    ensures Count([whole] + others, opts) + 1 == Count([first] + ([second] + others), opts)
  {
    hide Preorder, Rows, IsRemoved, Count, MakeComment;
    JoinRows(a, b, opts);
    JoinCount(a, b, opts);
    ConsRows(whole, others, opts);
    ConsRows(first, [second] + others, opts);
    ConsRows(second, others, opts);
    ConsCount(whole, others, opts);
    ConsCount(first, [second] + others, opts);
    ConsCount(second, others, opts);
  }

  lemma NamesPair(first: Node, second: Node, others: seq<Node>, id: Id, depth: int)
    ensures Names([first] + ([second] + others), id, depth)
        <==> Names([first], id, depth) && Names([second], id, depth) && Names(others, id, depth)
  {
    hide Names;
    JoinNames([first], [second] + others, id, depth);
    JoinNames([second], others, id, depth);
  }

  lemma NamesOne(n: Node, id: Id, depth: int)
    requires n.CommentNode?
    ensures Names([n], id, depth)
        <==> StripFullnamePrefix(n.data.parentId) == id && n.data.depth == depth && Names(n.replies, n.data.id, depth + 1)
  {
    ConsNames(n, [], id, depth);
    assert [n] + [] == [n];
  }

  function Outer(q: Id, id: Id, depth: int, replies: seq<Node>): (n: Node)
    ensures n.CommentNode? && !Kept(n) && StripFullnamePrefix(n.data.parentId) == id
  {
    var d := Placeholder(q, "t1_" + id, depth);
    assert IsRemoved(d) && StripFullnamePrefix("t1_" + id) == id;
    CommentNode(d, replies)
  }

  /** The replies from c on, all removed, may hang from another removed comment q after n. */
  lemma SplitBack(n: Node, c: nat, others: seq<Node>, id: Id, depth: int, q: Id, opts: Options) returns (g: seq<Node>)
    requires Names([n] + others, id, depth) && n.CommentNode? && c <= |n.replies| && NoneKept(n.replies[c..])
    requires Rows(Preorder(n.replies[c..]), opts) != [] && (Kept(n) || Rows(Preorder(n.replies[..c]), opts) != [])
    ensures Rearranged([n] + others, g, id, depth, q, opts)
  {
    hide Preorder, Rows, IsRemoved, Count, Names, CommentIds, Outer, Reparent;
    var a, b := n.replies[..c], n.replies[c..];
    var first, second := CommentNode(n.data, a), Outer(q, id, depth, Reparent(b, q));
    g := [first] + ([second] + others);
    assert n.replies == a + b;
    ReparentKeeps(b, q, opts);
    OuterIs(q, id, depth, Reparent(b, q));
    SplitInTwo(n, first, second, a, b, others, opts);
    assert Names(g, id, depth) by {
      ConsNames(n, others, id, depth);
      JoinNames(a, b, n.data.id, depth + 1);
      ReparentNames(b, n.data.id, q, depth + 1);
      NamesOne(first, id, depth);
      NamesOne(second, id, depth);
      NamesPair(first, second, others, id, depth);
    }
    forall x ensures CommentIds(g)[x] <= CommentIds([n] + others)[x] + if x == q then 1 else 0 {
      ConsIds(n, others, x);
      JoinIds(a, b, x);
      ConsIds(first, [second] + others, x);
      ConsIds(second, others, x);
    }
  }

  lemma OuterIs(q: Id, id: Id, depth: int, replies: seq<Node>)
    ensures var n := Outer(q, id, depth, replies);
      n.data.id == q && n.data.depth == depth && n.replies == replies
  {
  }

  /** The replies before c, all removed, may hang from another removed comment q before a
      removed n. */
  lemma SplitFront(n: Node, c: nat, others: seq<Node>, id: Id, depth: int, q: Id, opts: Options) returns (g: seq<Node>)
    requires Names([n] + others, id, depth) && n.CommentNode? && !Kept(n) && c <= |n.replies| && NoneKept(n.replies[..c])
    requires Rows(Preorder(n.replies[c..]), opts) != [] && Rows(Preorder(n.replies[..c]), opts) != []
    ensures Rearranged([n] + others, g, id, depth, q, opts)
  {
    hide Preorder, Rows, IsRemoved, Count, Names, CommentIds, Outer, Reparent;
    var a, b := n.replies[..c], n.replies[c..];
    var first, second := Outer(q, id, depth, Reparent(a, q)), CommentNode(n.data, b);
    g := [first] + ([second] + others);
    assert n.replies == a + b;
    ReparentKeeps(a, q, opts);
    OuterIs(q, id, depth, Reparent(a, q));
    SplitInTwo(n, first, second, a, b, others, opts);
    assert Names(g, id, depth) by {
      ConsNames(n, others, id, depth);
      JoinNames(a, b, n.data.id, depth + 1);
      ReparentNames(a, n.data.id, q, depth + 1);
      NamesOne(first, id, depth);
      NamesOne(second, id, depth);
      NamesPair(first, second, others, id, depth);
    }
    forall x ensures CommentIds(g)[x] <= CommentIds([n] + others)[x] + if x == q then 1 else 0 {
      ConsIds(n, others, x);
      JoinIds(a, b, x);
      ConsIds(first, [second] + others, x);
      ConsIds(second, others, x);
    }
  }

  /** A removed comment without a live reply may be part of the comment before it. */
  lemma MergeBack(w: Node, z: Node, others: seq<Node>, id: Id, depth: int, q: Id, opts: Options) returns (g: seq<Node>)
    requires Names([w] + ([z] + others), id, depth) && w.CommentNode? && z.CommentNode? && !Kept(z) && NoneKept(z.replies)
    requires Rows(Preorder(z.replies), opts) != [] && (Kept(w) || Rows(Preorder(w.replies), opts) != [])
    ensures Rearranged([w] + ([z] + others), g, id, depth, q, opts)
  {
    hide Preorder, Rows, IsRemoved, Count, Names, CommentIds, Reparent;
    var moved := Reparent(z.replies, w.data.id);
    var whole := CommentNode(w.data, w.replies + moved);
    g := [whole] + others;
    ReparentKeeps(z.replies, w.data.id, opts);
    SplitInTwo(whole, w, z, w.replies, moved, others, opts);
    assert Names(g, id, depth) by {
      NamesPair(w, z, others, id, depth);
      NamesOne(w, id, depth);
      NamesOne(z, id, depth);
      ReparentNames(z.replies, z.data.id, w.data.id, depth + 1);
      JoinNames(w.replies, moved, w.data.id, depth + 1);
      ConsNames(whole, others, id, depth);
    }
    forall x ensures CommentIds(g)[x] <= CommentIds([w] + ([z] + others))[x] + if x == q then 1 else 0 {
      ConsIds(w, [z] + others, x);
      ConsIds(z, others, x);
      JoinIds(w.replies, moved, x);
      ConsIds(whole, others, x);
    }
  }

  /** A removed comment without a live reply may be part of a removed comment after it. */
  lemma MergeFront(w: Node, z: Node, others: seq<Node>, id: Id, depth: int, q: Id, opts: Options) returns (g: seq<Node>)
    requires Names([w] + ([z] + others), id, depth) && w.CommentNode? && z.CommentNode? && !Kept(z) && !Kept(w)
    requires NoneKept(w.replies) && Rows(Preorder(z.replies), opts) != [] && Rows(Preorder(w.replies), opts) != []
    ensures Rearranged([w] + ([z] + others), g, id, depth, q, opts)
  {
    hide Preorder, Rows, IsRemoved, Count, Names, CommentIds, Reparent;
    var moved := Reparent(w.replies, z.data.id);
    var whole := CommentNode(z.data, moved + z.replies);
    g := [whole] + others;
    ReparentKeeps(w.replies, z.data.id, opts);
    SplitInTwo(whole, w, z, moved, z.replies, others, opts);
    assert Names(g, id, depth) by {
      NamesPair(w, z, others, id, depth);
      NamesOne(w, id, depth);
      NamesOne(z, id, depth);
      ReparentNames(w.replies, w.data.id, z.data.id, depth + 1);
      JoinNames(moved, z.replies, z.data.id, depth + 1);
      ConsNames(whole, others, id, depth);
    }
    forall x ensures CommentIds(g)[x] <= CommentIds([w] + ([z] + others))[x] + if x == q then 1 else 0 {
      ConsIds(w, [z] + others, x);
      ConsIds(z, others, x);
      JoinIds(moved, z.replies, x);
      ConsIds(whole, others, x);
    }
  }

  lemma NoLiveNoneKept(nodes: seq<Node>, opts: Options)
    requires Trimmed(nodes) && !HasLive(Places(nodes, opts))
    ensures NoneKept(nodes)
  {
    hide Places, IsRemoved;
    forall k | 0 <= k < |nodes| ensures !Kept(nodes[k]) {
      PlaceAt(nodes, k, opts);
    }
  }

  lemma {:induction false} TrimmedParts(nodes: seq<Node>, c: nat, opts: Options)
    requires Trimmed(nodes) && c <= |nodes|
    ensures Trimmed(nodes[..c]) && Trimmed(nodes[c..])
    ensures Rows(Preorder(nodes[..c]), opts) == [] <==> c == 0
    ensures Rows(Preorder(nodes[c..]), opts) == [] <==> c == |nodes|
  {
    hide Preorder, Rows, IsRemoved;
    if c > 0 {
      TrimmedParts(nodes[1..], c - 1, opts);
      assert nodes[..c][1..] == nodes[1..][..c - 1] && nodes[1..][c - 1..] == nodes[c..];
    } else {
      assert nodes[c..] == nodes;
    }
    TrimmedShows(nodes[..c], opts);
    TrimmedShows(nodes[c..], opts);
  }

  /** A comment some of whose replies could hang elsewhere. */
  lemma RearrangeReplies(n: Node, others: seq<Node>, id: Id, depth: int, q: Id, opts: Options) returns (g: seq<Node>)
    requires Names([n] + others, id, depth) && n.CommentNode? && Trimmed([n]) && !Whole(PlaceOf(n, opts))
    ensures Rearranged([n] + others, g, id, depth, q, opts)
  {
    hide Preorder, Rows, IsRemoved, Names, Places, Rearranged;
    var r := n.replies;
    AsManyPlaces(r, opts);
    var k := |r| - 1;
    PlaceAt(r, k, opts);
    PlaceAt(r, 0, opts);
    if !Kept(r[k]) {
      TrimmedParts(r, k, opts);
      g := SplitBack(n, k, others, id, depth, q, opts);
    } else {
      TrimmedParts(r, 1, opts);
      g := SplitFront(n, 1, others, id, depth, q, opts);
    }
  }

  /** Two neighbours that could be one comment. */
  lemma RearrangePair(w: Node, z: Node, others: seq<Node>, id: Id, depth: int, q: Id, opts: Options) returns (g: seq<Node>)
    requires Names([w] + ([z] + others), id, depth) && w.CommentNode? && z.CommentNode? && Trimmed([w]) && Trimmed([z])
    requires !Apart(PlaceOf(w, opts), PlaceOf(z, opts))
    ensures Rearranged([w] + ([z] + others), g, id, depth, q, opts)
  {
    hide Preorder, Rows, IsRemoved, Names, Places, Rearranged, HasLive;
    TrimmedShows(w.replies, opts);
    TrimmedShows(z.replies, opts);
    if !Named(PlaceOf(z, opts)) {
      NoLiveNoneKept(z.replies, opts);
      g := MergeBack(w, z, others, id, depth, q, opts);
    } else {
      NoLiveNoneKept(w.replies, opts);
      g := MergeFront(w, z, others, id, depth, q, opts);
    }
  }

  lemma {:induction false} Rearrange(nodes: seq<Node>, id: Id, depth: int, q: Id, opts: Options) returns (g: seq<Node>)
    requires Trimmed(nodes) && Names(nodes, id, depth) && !Fixed(Places(nodes, opts))
    ensures Rearranged(nodes, g, id, depth, q, opts)
    decreases nodes
  {
    hide Preorder, Rows, IsRemoved, Names, Places, Rearranged, Whole, Apart;
    TrimmedShows(nodes, opts);
    var n, others := nodes[0], nodes[1..];
    assert nodes == [n] + others;
    PlacesSplit(nodes, opts);
    PlaceAt(nodes, 0, opts);
    ConsNames(n, others, id, depth);
    if !Whole(PlaceOf(n, opts)) {
      g := RearrangeReplies(n, others, id, depth, q, opts);
    } else if !Fixed(PlaceOf(n, opts).replies) {
      var inner := Rearrange(n.replies, n.data.id, depth + 1, q, opts);
      TrimmedShows(n.replies, opts);
      RearrangedBelow(n, inner, others, id, depth, q, opts);
      g := [CommentNode(n.data, inner)] + others;
    } else if !Fixed(Places(others, opts)) {
      var inner := Rearrange(others, id, depth, q, opts);
      RearrangedLater(n, others, inner, id, depth, q, opts);
      g := [n] + inner;
    } else {
      AsManyPlaces(nodes, opts);
      PlaceAt(nodes, 1, opts);
      assert others == [nodes[1]] + nodes[2..];
      g := RearrangePair(n, nodes[1], nodes[2..], id, depth, q, opts);
    }
  }

  // ----------------------------------------------------------------- the main result

  /** Every faithful listing with these rows has its removed comments at the same places. */
  ghost predicate RowsTellPlaces(nodes: seq<Node>, postId: Id, depth: int, opts: Options) {
    forall g: seq<Node> :: Faithful(g, postId, depth) && Rows(Preorder(g), opts) == Rows(Preorder(nodes), opts) ==>
      Places(g, opts) == Places(nodes, opts)
  }

  function Redepth(nodes: seq<Node>, depth: int): seq<Node> {
    if nodes == [] then []
    else
      [match nodes[0]
       case CommentNode(data, replies) => CommentNode(data.(depth := depth), Redepth(replies, depth + 1))
       case n => n] + Redepth(nodes[1..], depth)
  }

  /** Depths that are not shown can be made faithful. */
  lemma {:induction false} RedepthKeeps(nodes: seq<Node>, id: Id, depth: int, opts: Options)
    requires !opts.keepDepth
    ensures NamesDepths(Redepth(nodes, depth), depth)
    ensures NamesParents(nodes, id) ==> NamesParents(Redepth(nodes, depth), id)
    ensures CommentIds(Redepth(nodes, depth)) == CommentIds(nodes)
    ensures Rows(Preorder(Redepth(nodes, depth)), opts) == Rows(Preorder(nodes), opts)
    ensures Places(Redepth(nodes, depth), opts) == Places(nodes, opts)
    decreases nodes
  {
    if nodes != [] {
      var n, moved := nodes[0], Redepth(nodes, depth);
      assert moved[1..] == Redepth(nodes[1..], depth);
      if n.CommentNode? {
        assert IsRemoved(moved[0].data) == IsRemoved(n.data);
        assert MakeComment(moved[0].data, opts) == MakeComment(n.data, opts);
      }
      hide Preorder, Rows, IsRemoved, MakeComment, StripFullnamePrefix;
      RedepthKeeps(nodes[1..], id, depth, opts);
      RowsSplit(nodes, opts);
      RowsSplit(moved, opts);
      if n.CommentNode? {
        RedepthKeeps(n.replies, n.data.id, depth + 1, opts);
      }
    }
  }

  lemma TrimIsFaithful(nodes: seq<Node>, id: Id, depth: int, opts: Options)
    requires Faithful(nodes, id, depth)
    ensures Faithful(Trim(nodes), id, depth)
  {
    hide NamesParents, NamesDepths, CommentIds, NoRepeats;
    TrimKeeps(nodes, opts);
    TrimKeepsNames(nodes, id, depth);
    FewerRepeats(multiset{id} + CommentIds(Trim(nodes)), multiset{id} + CommentIds(nodes));
  }

  /** With parents and depths, the places are told exactly when they are fixed. */
  lemma DepthsAndParentsTell(nodes: seq<Node>, postId: Id, depth: int, opts: Options)
    requires Faithful(nodes, postId, depth) && opts.keepDepth
    ensures RowsTellPlaces(nodes, postId, depth, opts) <==> Fixed(Places(nodes, opts))
  {
    hide Rows, Preorder, Places, Fixed, Faithful, Rearranged, Trimmed, Trim;
    var f := Trim(nodes);
    TrimKeeps(nodes, opts);
    TrimIsFaithful(nodes, postId, depth, opts);
    if Fixed(Places(nodes, opts)) {
      forall g: seq<Node> | Faithful(g, postId, depth) && Rows(Preorder(g), opts) == Rows(Preorder(nodes), opts)
        ensures Places(g, opts) == Places(nodes, opts)
      {
        TrimKeeps(g, opts);
        TrimIsFaithful(g, postId, depth, opts);
        SamePlaces(f, Trim(g), postId, postId, depth, opts);
      }
    } else {
      var q := FreshId(f, postId);
      AreNamed(f, postId, depth);
      var g := Rearrange(f, postId, depth, q, opts);
      RearrangedIsFaithful(f, g, postId, depth, q, opts);
    }
  }

  lemma AreNamed(nodes: seq<Node>, id: Id, depth: int)
    requires Faithful(nodes, id, depth)
    ensures Names(nodes, id, depth)
  {
  }

  lemma RearrangedIsFaithful(f: seq<Node>, g: seq<Node>, id: Id, depth: int, q: Id, opts: Options)
    requires Faithful(f, id, depth) && Rearranged(f, g, id, depth, q, opts) && q !in CommentIds(f) && q != id
    ensures Faithful(g, id, depth)
    ensures Rows(Preorder(g), opts) == Rows(Preorder(f), opts) && Places(g, opts) != Places(f, opts)
  {
    hide Rows, Preorder, Places, CommentIds, NamesParents, NamesDepths;
    forall x ensures (multiset{id} + CommentIds(g))[x] <= 1 {
      assert (multiset{id} + CommentIds(f))[x] <= 1;
    }
  }

  /** What the rows of a listing tell about where its removed comments stood. Without the
      depth column, everything exactly when none of them has a live reply; with it, exactly
      when the places are fixed. */
  lemma RowsTellPlacesWhen(nodes: seq<Node>, postId: Id, depth: int, opts: Options)
    requires Faithful(nodes, postId, depth)
    ensures RowsTellPlaces(nodes, postId, depth, opts)
            <==> if opts.keepDepth then Fixed(Places(nodes, opts)) else NoOrphans(nodes, opts)
  {
    hide Rows, Preorder, Places, Fixed, NoOrphans, CommentIds, NamesParents, NamesDepths, NoRepeats;
    if opts.keepDepth {
      DepthsAndParentsTell(nodes, postId, depth, opts);
    } else {
      ParentsTellPlacesWhen(nodes, postId, opts);
      if !NoOrphans(nodes, opts) {
        var g: seq<Node> :| Listing(g, postId) && Rows(Preorder(g), opts) == Rows(Preorder(nodes), opts)
                            && Places(g, opts) != Places(nodes, opts);
        RedepthKeeps(g, postId, depth, opts);
        assert Faithful(Redepth(g, depth), postId, depth);
      }
    }
  }
}
