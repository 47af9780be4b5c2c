/** A parser over the flat rows, reading either parent IDs or depths: it gives back the
    comment forest of a listing in which no removed comment has a live reply. */
module Rebuild {
  import opened RedditTypes
  import opened Wrappers
  import opened CommentTree

  datatype Tree = Tree(comment: Comment, replies: seq<Tree>)

  // What a row says about nesting: the level it sits at and the level its replies sit at.
  datatype Level = UnderId(id: Id) | AtDepth(depth: int) | Unknown

  datatype Scheme = ByParent | ByDepth

  function Above(scheme: Scheme, c: Comment): Level {
    match scheme
    case ByParent => UnderId(c.parentId)
    case ByDepth => if c.depth.Some? then AtDepth(c.depth.value) else Unknown
  }

  function Below(scheme: Scheme, c: Comment): Level {
    match scheme
    case ByParent => UnderId(c.id)
    case ByDepth => if c.depth.Some? then AtDepth(c.depth.value + 1) else Unknown
  }

  datatype Built = Built(forest: seq<Tree>, rest: seq<Comment>)

  /** Reads as many trees of the given level as the rows start with. */
  function Build(scheme: Scheme, rows: seq<Comment>, level: Level): (b: Built)
    ensures |b.rest| <= |rows|
    decreases |rows|
  {
    if rows == [] || Above(scheme, rows[0]) != level then Built([], rows)
    else
      var replies := Build(scheme, rows[1..], Below(scheme, rows[0]));
      var siblings := Build(scheme, replies.rest, level);
      Built([Tree(rows[0], replies.forest)] + siblings.forest, siblings.rest)
  }

  /** The rows of a forest, parents first. */
  function Flat(forest: seq<Tree>): seq<Comment> {
    if forest == [] then []
    else [forest[0].comment] + (Flat(forest[0].replies) + Flat(forest[1..]))
  }

  ghost predicate NoneBelow(scheme: Scheme, rows: seq<Comment>, level: Level) {
    forall i :: 0 <= i < |rows| ==> Below(scheme, rows[i]) != level
  }

  /** Levels are told apart: every tree sits at its level, and no comment in it opens
      that level again. */
  ghost predicate Scoped(scheme: Scheme, forest: seq<Tree>, level: Level) {
    forest != [] ==>
      && var t := forest[0];
      && Above(scheme, t.comment) == level
      && Below(scheme, t.comment) != level
      && NoneBelow(scheme, Flat(t.replies), level)
      && Scoped(scheme, t.replies, Below(scheme, t.comment))
      && Scoped(scheme, forest[1..], level)
  }

  /** The rows that follow a forest belong to none of its levels. */
  ghost predicate Leaves(scheme: Scheme, forest: seq<Tree>, level: Level, rest: seq<Comment>) {
    rest == [] || (Above(scheme, rest[0]) != level && NoneBelow(scheme, Flat(forest), Above(scheme, rest[0])))
  }

  lemma BuildStep(scheme: Scheme, rows: seq<Comment>, level: Level, t: Tree, after: seq<Comment>, b: Built)
    requires rows != [] && rows[0] == t.comment && Above(scheme, t.comment) == level
    requires Build(scheme, rows[1..], Below(scheme, t.comment)) == Built(t.replies, after)
    requires Build(scheme, after, level) == b
    ensures Build(scheme, rows, level) == Built([t] + b.forest, b.rest)
  {
    hide Above, Below;
  }

  lemma FlatUnfold(forest: seq<Tree>)
    requires forest != []
    ensures Flat(forest) == [forest[0].comment] + (Flat(forest[0].replies) + Flat(forest[1..]))
  {
  }

  lemma Regroup(c: Comment, a: seq<Comment>, b: seq<Comment>, rest: seq<Comment>)
    ensures var rows := ([c] + (a + b)) + rest;
      rows[0] == c && rows[1..] == a + (b + rest)
  {
  }

  lemma BuildStops(scheme: Scheme, rest: seq<Comment>, level: Level)
    requires Leaves(scheme, [], level, rest)
    ensures Build(scheme, Flat([]) + rest, level) == Built([], rest)
  {
    assert Flat([]) + rest == rest;
  }

  lemma {:induction false} BuildOfFlat(scheme: Scheme, forest: seq<Tree>, level: Level, rest: seq<Comment>)
    requires Scoped(scheme, forest, level) && Leaves(scheme, forest, level, rest)
    ensures Build(scheme, Flat(forest) + rest, level) == Built(forest, rest)
    decreases forest
  {
    hide Above, Below, Build, Scoped, Leaves, Flat;
    if forest == [] {
      BuildStops(scheme, rest, level);
    } else {
      var t, others := forest[0], forest[1..];
      var after := Flat(others) + rest;
      var rows := Flat(forest) + rest;
      FlatUnfold(forest);
      Regroup(t.comment, Flat(t.replies), Flat(others), rest);
      assert forest == [t] + others;
      LeavesParts(scheme, t, others, level, rest);
      BuildOfFlat(scheme, t.replies, Below(scheme, t.comment), after);
      BuildOfFlat(scheme, others, level, rest);
      BuildStep(scheme, rows, level, t, after, Built(others, rest));
    }
  }

  /** Whatever it reads, the parser neither drops nor reorders a row. */
  lemma {:induction false} BuildKeepsRows(scheme: Scheme, rows: seq<Comment>, level: Level)
    ensures var b := Build(scheme, rows, level);
      Flat(b.forest) + b.rest == rows
    decreases |rows|
  {
    hide Above, Below, Flat;
    FlatOfNone();
    var b := Build(scheme, rows, level);
    if rows != [] && Above(scheme, rows[0]) == level {
      var replies := Build(scheme, rows[1..], Below(scheme, rows[0]));
      BuildKeepsRows(scheme, rows[1..], Below(scheme, rows[0]));
      BuildKeepsRows(scheme, replies.rest, level);
      FlatUnfold(b.forest);
      assert b.forest[1..] == Build(scheme, replies.rest, level).forest;
      assert rows == [rows[0]] + rows[1..];
    }
  }

  lemma FlatOfNone()
    ensures Flat([]) == []
  {
  }

  lemma LeavesParts(scheme: Scheme, t: Tree, others: seq<Tree>, level: Level, rest: seq<Comment>)
    requires Scoped(scheme, [t] + others, level) && Leaves(scheme, [t] + others, level, rest)
    ensures Scoped(scheme, t.replies, Below(scheme, t.comment)) && Scoped(scheme, others, level)
    ensures Above(scheme, t.comment) == level
    ensures Leaves(scheme, others, level, rest)
    ensures Leaves(scheme, t.replies, Below(scheme, t.comment), Flat(others) + rest)
  {
    hide Above, Below;
    assert ([t] + others)[1..] == others;
    var rows := Flat([t] + others);
    assert rows[0] == t.comment;
    assert rows[1..] == Flat(t.replies) + Flat(others);
    forall i | 0 <= i < |Flat(t.replies)| ensures Flat(t.replies)[i] == rows[1 + i] {
    }
    forall i | 0 <= i < |Flat(others)| ensures Flat(others)[i] == rows[1 + |Flat(t.replies)| + i] {
    }
    if others != [] {
      assert (Flat(others) + rest)[0] == others[0].comment;
    } else {
      assert Flat(others) + rest == rest;
    }
  }

  // ------------------------------------------------- from the wire forest to the rows

  /** The comments that live comments connect to the post: markers, skipped nodes and
      removed comments are erased, with everything below them. */
  function Erase(nodes: seq<Node>, opts: Options): seq<Tree> {
    if nodes == [] then []
    else if Kept(nodes[0]) then
      [Tree(MakeComment(nodes[0].data, opts), Erase(nodes[0].replies, opts))] + Erase(nodes[1..], opts)
    else Erase(nodes[1..], opts)
  }

  /** A removed comment has no surviving reply. */
  ghost predicate NoOrphans(nodes: seq<Node>, opts: Options) {
    nodes != [] ==>
      && (nodes[0].CommentNode? ==>
            if IsRemoved(nodes[0].data) then Rows(Preorder(nodes[0].replies), opts) == []
            else NoOrphans(nodes[0].replies, opts))
      && NoOrphans(nodes[1..], opts)
  }

  lemma {:induction false} FlatOfErase(nodes: seq<Node>, opts: Options)
    requires NoOrphans(nodes, opts)
    ensures Flat(Erase(nodes, opts)) == Rows(Preorder(nodes), opts)
    decreases nodes
  {
    hide MakeComment, IsRemoved, Preorder, Rows;
    PreorderOfNone();
    RowsOfNone(opts);
    if nodes != [] {
      var n, others := nodes[0], nodes[1..];
      var below := if n.CommentNode? then Preorder(n.replies) else [];
      FlatOfErase(others, opts);
      if Kept(n) {
        FlatOfErase(n.replies, opts);
        FlatUnfold(Erase(nodes, opts));
      }
      PreorderUnfold(nodes);
      SingleNode(n, opts);
      RowsConcat([n] + below, Preorder(others), opts);
      RowsConcat([n], below, opts);
    }
  }

  /** Every tree sits at its level. */
  ghost predicate Placed(scheme: Scheme, forest: seq<Tree>, level: Level) {
    forest != [] ==>
      && Above(scheme, forest[0].comment) == level
      && Placed(scheme, forest[0].replies, Below(scheme, forest[0].comment))
      && Placed(scheme, forest[1..], level)
  }

  /** No row reuses an ID, nor the ID its forest hangs from. */
  ghost predicate FreshIds(id: Id, rows: seq<Comment>) {
    && (forall i :: 0 <= i < |rows| ==> rows[i].id != id)
    && (forall i, j :: 0 <= i < j < |rows| ==> rows[i].id != rows[j].id)
  }

  lemma FreshIdsParts(id: Id, c: Comment, a: seq<Comment>, b: seq<Comment>)
    requires FreshIds(id, [c] + (a + b))
    ensures c.id != id && FreshIds(c.id, a) && FreshIds(id, a) && FreshIds(id, b)
  {
    var rows := [c] + (a + b);
    assert rows[0] == c;
    forall i | 0 <= i < |a| ensures a[i] == rows[1 + i] {
    }
    forall i | 0 <= i < |b| ensures b[i] == rows[1 + |a| + i] {
    }
  }

  lemma {:induction false} FreshIdsAreScoped(forest: seq<Tree>, id: Id)
    requires Placed(ByParent, forest, UnderId(id)) && FreshIds(id, Flat(forest))
    ensures Scoped(ByParent, forest, UnderId(id))
    decreases forest
  {
    if forest != [] {
      hide Flat;
      var t := forest[0];
      FlatUnfold(forest);
      FreshIdsParts(id, t.comment, Flat(t.replies), Flat(forest[1..]));
      FreshIdsAreScoped(t.replies, t.comment.id);
      FreshIdsAreScoped(forest[1..], id);
    }
  }

  lemma {:induction false} DepthsOnlyGrow(forest: seq<Tree>, depth: int)
    requires Placed(ByDepth, forest, AtDepth(depth))
    ensures forall i :: 0 <= i < |Flat(forest)| ==>
              Flat(forest)[i].depth.Some? && Flat(forest)[i].depth.value >= depth
    decreases forest
  {
    if forest != [] {
      var t := forest[0];
      assert t.comment.depth == Some(depth);
      DepthsOnlyGrow(t.replies, depth + 1);
      DepthsOnlyGrow(forest[1..], depth);
    }
  }

  lemma {:induction false} DepthsAreScoped(forest: seq<Tree>, depth: int)
    requires Placed(ByDepth, forest, AtDepth(depth))
    ensures Scoped(ByDepth, forest, AtDepth(depth))
    decreases forest
  {
    if forest != [] {
      hide Flat;
      var t := forest[0];
      assert t.comment.depth == Some(depth);
      DepthsOnlyGrow(t.replies, depth + 1);
      DepthsAreScoped(t.replies, depth + 1);
      DepthsAreScoped(forest[1..], depth);
    }
  }

  /** Kept comments name as parent the comment (or post) they are listed under. */
  ghost predicate ParentsFaithful(nodes: seq<Node>, id: Id) {
    nodes != [] ==>
      && (Kept(nodes[0]) ==>
            StripFullnamePrefix(nodes[0].data.parentId) == id && ParentsFaithful(nodes[0].replies, nodes[0].data.id))
      && ParentsFaithful(nodes[1..], id)
  }

  /** Kept comments report the depth they are listed at. */
  ghost predicate DepthsFaithful(nodes: seq<Node>, depth: int) {
    nodes != [] ==>
      && (Kept(nodes[0]) ==> nodes[0].data.depth == depth && DepthsFaithful(nodes[0].replies, depth + 1))
      && DepthsFaithful(nodes[1..], depth)
  }

  lemma {:induction false} FaithfulParentsArePlaced(nodes: seq<Node>, id: Id, opts: Options)
    requires ParentsFaithful(nodes, id)
    ensures Placed(ByParent, Erase(nodes, opts), UnderId(id))
    decreases nodes
  {
    if nodes != [] {
      FaithfulParentsArePlaced(nodes[1..], id, opts);
      if Kept(nodes[0]) {
        FaithfulParentsArePlaced(nodes[0].replies, nodes[0].data.id, opts);
        assert Erase(nodes, opts)[1..] == Erase(nodes[1..], opts);
      }
    }
  }

  lemma {:induction false} FaithfulDepthsArePlaced(nodes: seq<Node>, depth: int, opts: Options)
    requires DepthsFaithful(nodes, depth) && opts.keepDepth
    ensures Placed(ByDepth, Erase(nodes, opts), AtDepth(depth))
    decreases nodes
  {
    if nodes != [] {
      FaithfulDepthsArePlaced(nodes[1..], depth, opts);
      if Kept(nodes[0]) {
        FaithfulDepthsArePlaced(nodes[0].replies, depth + 1, opts);
        assert Erase(nodes, opts)[1..] == Erase(nodes[1..], opts);
      }
    }
  }

  lemma BuildWhole(scheme: Scheme, forest: seq<Tree>, level: Level)
    requires Scoped(scheme, forest, level)
    ensures Build(scheme, Flat(forest), level) == Built(forest, [])
  {
    assert Flat(forest) + [] == Flat(forest);
    BuildOfFlat(scheme, forest, level, []);
  }

  // ------------------------------------------------------------------ main results

  /** With distinct IDs and faithful parent IDs, when no removed comment has a live reply,
      the rows of a listing give back its comment forest, markers erased. */
  lemma BuildFromParents(nodes: seq<Node>, postId: Id, opts: Options)
    requires ParentsFaithful(nodes, postId) && FreshIds(postId, Rows(Preorder(nodes), opts)) && NoOrphans(nodes, opts)
    ensures Build(ByParent, Rows(Preorder(nodes), opts), UnderId(postId)) == Built(Erase(nodes, opts), [])
  {
    FlatOfErase(nodes, opts);
    FaithfulParentsArePlaced(nodes, postId, opts);
    FreshIdsAreScoped(Erase(nodes, opts), postId);
    BuildWhole(ByParent, Erase(nodes, opts), UnderId(postId));
  }

  /** When depths are kept, order and depth alone give it back, whatever the IDs are. */
  lemma BuildFromDepths(nodes: seq<Node>, depth: int, opts: Options)
    requires DepthsFaithful(nodes, depth) && opts.keepDepth && NoOrphans(nodes, opts)
    ensures Build(ByDepth, Rows(Preorder(nodes), opts), AtDepth(depth)) == Built(Erase(nodes, opts), [])
  {
    FlatOfErase(nodes, opts);
    FaithfulDepthsArePlaced(nodes, depth, opts);
    DepthsAreScoped(Erase(nodes, opts), depth);
    BuildWhole(ByDepth, Erase(nodes, opts), AtDepth(depth));
  }
}
