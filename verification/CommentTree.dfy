/** Flattening the reply forest of a listing into comment rows and gap markers. The wire
    form is already decoded: a child is a comment, a "more" marker, or something skipped
    (another kind, or a child that does not decode). */
module CommentTree {
  import opened RedditTypes
  import opened Wrappers
  import opened Whitespace
  import opened WhitespaceLaws

  datatype CommentData = CommentData(
    id: Id, parentId: string, author: string, score: int, body: string, depth: int, createdUtc: real)

  datatype MoreData = MoreData(parentId: string, depth: int, count: int, children: seq<Id>)

  datatype Node =
    | CommentNode(data: CommentData, replies: seq<Node>)
    | MoreNode(more: MoreData)
    | SkippedNode

  function StripFullnamePrefix(s: string): string {
    if "t1_" <= s || "t3_" <= s then s[3..] else s
  }

  predicate IsRemoved(d: CommentData) {
    && (d.author == "[deleted]" || d.author == "")
    && (d.body == "" || d.body == "[removed]" || d.body == "[deleted]" || d.body == "[ Removed by Reddit ]")
  }

  // Conversion of a float to an integer drops the fraction.
  function Truncate(x: real): int {
    if x >= 0.0 then x.Floor else -((-x).Floor)
  }

  function MakeComment(d: CommentData, opts: Options): Comment {
    Comment(d.id, StripFullnamePrefix(d.parentId), d.author, d.score, CleanBody(d.body),
            if opts.keepDepth then Some(d.depth) else None,
            if opts.keepCreated then Some(Truncate(d.createdUtc)) else None)
  }

  function MakeGap(m: MoreData): Gap {
    if m.count == 0 then Gap(Continue, StripFullnamePrefix(m.parentId), m.depth, 0, [])
    else Gap(More, StripFullnamePrefix(m.parentId), m.depth, m.count, m.children)
  }

  // -------------------------------------------------------------------- visit order

  /** Every node of the forest, parents before their replies, siblings in order. */
  function Preorder(forest: seq<Node>): seq<Node> {
    if forest == [] then []
    else
      match forest[0]
      case CommentNode(_, replies) => [forest[0]] + Preorder(replies) + Preorder(forest[1..])
      case _ => [forest[0]] + Preorder(forest[1..])
  }

  predicate Kept(n: Node) {
    n.CommentNode? && !IsRemoved(n.data)
  }

  /** The comment rows of the listed nodes. */
  function Rows(nodes: seq<Node>, opts: Options): seq<Comment> {
    if nodes == [] then []
    else if Kept(nodes[0]) then [MakeComment(nodes[0].data, opts)] + Rows(nodes[1..], opts)
    else Rows(nodes[1..], opts)
  }

  /** The gap markers of the listed nodes. */
  function Markers(nodes: seq<Node>): seq<Gap> {
    if nodes == [] then []
    else if nodes[0].MoreNode? then [MakeGap(nodes[0].more)] + Markers(nodes[1..])
    else Markers(nodes[1..])
  }

  lemma {:induction false} PreorderConcat(a: seq<Node>, b: seq<Node>)
    ensures Preorder(a + b) == Preorder(a) + Preorder(b)
  {
    if a == [] {
      assert a + b == b;
    } else {
      assert (a + b)[1..] == a[1..] + b;
      PreorderConcat(a[1..], b);
    }
  }

  lemma {:induction false} RowsConcat(a: seq<Node>, b: seq<Node>, opts: Options)
    ensures Rows(a + b, opts) == Rows(a, opts) + Rows(b, opts)
  {
    if a == [] {
      assert a + b == b;
    } else {
      assert (a + b)[1..] == a[1..] + b;
      RowsConcat(a[1..], b, opts);
    }
  }

  lemma {:induction false} MarkersConcat(a: seq<Node>, b: seq<Node>)
    ensures Markers(a + b) == Markers(a) + Markers(b)
  {
    if a == [] {
      assert a + b == b;
    } else {
      assert (a + b)[1..] == a[1..] + b;
      MarkersConcat(a[1..], b);
    }
  }

  /** One more child at the end of the list. */
  lemma NextChild(children: seq<Node>, i: nat, opts: Options)
    requires i < |children|
    ensures var c := children[i];
      var below := if c.CommentNode? then Preorder(c.replies) else [];
      && Rows(Preorder(children[..i + 1]), opts)
           == (if Kept(c) then Rows(Preorder(children[..i]), opts) + [MakeComment(c.data, opts)]
               else Rows(Preorder(children[..i]), opts)) + Rows(below, opts)
      && Markers(Preorder(children[..i + 1]))
           == (if c.MoreNode? then Markers(Preorder(children[..i])) + [MakeGap(c.more)]
               else Markers(Preorder(children[..i]))) + Markers(below)
  {
    hide MakeComment, MakeGap, Kept, Preorder, Rows, Markers;
    var c := children[i];
    var before := Preorder(children[..i]);
    var below := if c.CommentNode? then Preorder(c.replies) else [];
    assert children[..i + 1] == children[..i] + [c];
    PreorderConcat(children[..i], [c]);
    SingleNode(c, opts);
    assert before + Preorder([c]) == (before + [c]) + below;
    RowsConcat(before + [c], below, opts);
    RowsConcat(before, [c], opts);
    MarkersConcat(before + [c], below);
    MarkersConcat(before, [c]);
  }

  lemma SingleNode(c: Node, opts: Options)
    ensures Preorder([c]) == [c] + if c.CommentNode? then Preorder(c.replies) else []
    ensures Rows([c], opts) == if Kept(c) then [MakeComment(c.data, opts)] else []
    ensures Markers([c]) == if c.MoreNode? then [MakeGap(c.more)] else []
  {
    hide MakeComment, MakeGap, IsRemoved;
    assert [c][1..] == [];
  }

  /** Emits the rows of the non-removed comments and the gap markers, both in preorder. */
  method WalkChildren(children: seq<Node>, opts: Options) returns (comments: seq<Comment>, gaps: seq<Gap>)
    ensures comments == Rows(Preorder(children), opts)
    ensures gaps == Markers(Preorder(children))
    decreases children
  {
    hide MakeComment, MakeGap, IsRemoved;
    comments, gaps := [], [];
    assert children[..0] == [];
    for i := 0 to |children|
      invariant comments == Rows(Preorder(children[..i]), opts)
      invariant gaps == Markers(Preorder(children[..i]))
    {
      NextChild(children, i, opts);
      match children[i] {
        case CommentNode(data, replies) =>
          if !IsRemoved(data) {
            comments := comments + [MakeComment(data, opts)];
          }
          var subComments, subGaps := WalkChildren(replies, opts);
          comments := comments + subComments;
          gaps := gaps + subGaps;
        case MoreNode(more) =>
          gaps := gaps + [MakeGap(more)];
        case SkippedNode =>
      }
    }
    assert children[..|children|] == children;
  }

  // ------------------------------------------------------------- what is emitted

  /** A row says about its comment what the listing says, with a normalised body, an
      unprefixed parent and only the requested optional columns. */
  ghost predicate RowOf(c: Comment, d: CommentData, opts: Options) {
    && c.id == d.id && c.author == d.author && c.score == d.score
    && c.body == TrimSpace(OnePass(d.body))
    && Tidy(c.body) && Trimmed(c.body) && Visible(c.body) == Visible(d.body)
    && (d.parentId == c.parentId || d.parentId == "t1_" + c.parentId || d.parentId == "t3_" + c.parentId)
    && ("t1_" <= d.parentId || "t3_" <= d.parentId ==> |c.parentId| == |d.parentId| - 3)
    && c.depth == (if opts.keepDepth then Some(d.depth) else None)
    && (c.created.Some? <==> opts.keepCreated)
    && (opts.keepCreated && d.createdUtc >= 0.0 ==>
          c.created.value as real <= d.createdUtc < c.created.value as real + 1.0)
    && (opts.keepCreated && d.createdUtc < 0.0 ==>
          c.created.value as real - 1.0 < d.createdUtc <= c.created.value as real)
  }

  lemma MakeCommentIsRow(d: CommentData, opts: Options)
    ensures RowOf(MakeComment(d, opts), d, opts)
  {
    CleanBodyNormalises(d.body);
    CleanBodyIsOnePass(d.body);
    hide CleanBody, Tidy, Trimmed, Visible, TrimSpace, OnePass;
    if "t1_" <= d.parentId || "t3_" <= d.parentId {
      assert d.parentId == d.parentId[..3] + d.parentId[3..];
    }
  }

  /** A comment counts as removed when its author was scrubbed and its text is one of the
      standard placeholders. */
  lemma RemovedMeans(d: CommentData)
    ensures IsRemoved(d) <==>
            && d.author in {"", "[deleted]"}
            && d.body in {"", "[removed]", "[deleted]", "[ Removed by Reddit ]"}
  {
  }

  /** A marker says what the listing says: "continue" without children when the count is
      zero, and otherwise "more" with its count and children. */
  ghost predicate MarkerOf(g: Gap, m: MoreData) {
    && g.depth == m.depth
    && (m.parentId == g.parentId || m.parentId == "t1_" + g.parentId || m.parentId == "t3_" + g.parentId)
    && ("t1_" <= m.parentId || "t3_" <= m.parentId ==> |g.parentId| == |m.parentId| - 3)
    && (m.count == 0 ==> g.kind == Continue && g.count == 0 && g.children == [])
    && (m.count != 0 ==> g.kind == More && g.count == m.count && g.children == m.children)
  }

  lemma MakeGapIsMarker(m: MoreData)
    ensures MarkerOf(MakeGap(m), m)
  {
    if "t1_" <= m.parentId || "t3_" <= m.parentId {
      assert m.parentId == m.parentId[..3] + m.parentId[3..];
    }
  }

  /** The markers are those of the "more" nodes, each once and in visit order. */
  lemma {:induction false} MarkersReflectNodes(nodes: seq<Node>) returns (at: seq<nat>)
    ensures |at| == |Markers(nodes)|
    ensures forall k :: 0 <= k < |at| ==>
              at[k] < |nodes| && nodes[at[k]].MoreNode? && MarkerOf(Markers(nodes)[k], nodes[at[k]].more)
    ensures forall k, l :: 0 <= k < l < |at| ==> at[k] < at[l]
    ensures forall i :: 0 <= i < |nodes| && nodes[i].MoreNode? ==> i in at
  {
    hide MakeGap, MarkerOf, Markers;
    if nodes == [] {
      MarkersOfNone();
      at := [];
    } else {
      var n := |nodes| - 1;
      at := MarkersReflectNodes(nodes[..n]);
      assert nodes == nodes[..n] + [nodes[n]];
      MarkersConcat(nodes[..n], [nodes[n]]);
      SingleNode(nodes[n], Options(false, false, 0, ""));
      if nodes[n].MoreNode? {
        MakeGapIsMarker(nodes[n].more);
        at := at + [n];
      }
    }
  }

  lemma MarkersOfNone()
    ensures Markers([]) == []
  {
  }

  /** The rows are the kept comments, each once and in visit order. */
  lemma {:induction false} RowsReflectNodes(nodes: seq<Node>, opts: Options) returns (at: seq<nat>)
    ensures |at| == |Rows(nodes, opts)|
    ensures forall k :: 0 <= k < |at| ==>
              at[k] < |nodes| && Kept(nodes[at[k]]) && RowOf(Rows(nodes, opts)[k], nodes[at[k]].data, opts)
    ensures forall k, l :: 0 <= k < l < |at| ==> at[k] < at[l]
    ensures forall i :: 0 <= i < |nodes| ==>
              (i in at <==> nodes[i].CommentNode? && !IsRemoved(nodes[i].data))
  {
    hide MakeComment, IsRemoved, RowOf, Rows;
    if nodes == [] {
      RowsOfNone(opts);
      at := [];
    } else {
      var n := |nodes| - 1;
      at := RowsReflectNodes(nodes[..n], opts);
      assert nodes == nodes[..n] + [nodes[n]];
      RowsConcat(nodes[..n], [nodes[n]], opts);
      SingleNode(nodes[n], opts);
      if Kept(nodes[n]) {
        MakeCommentIsRow(nodes[n].data, opts);
        at := at + [n];
      }
    }
  }

  lemma RowsOfNone(opts: Options)
    ensures Rows([], opts) == []
  {
  }

  function Removed(nodes: seq<Node>): nat {
    if nodes == [] then 0
    else (if nodes[0].CommentNode? && IsRemoved(nodes[0].data) then 1 else 0) + Removed(nodes[1..])
  }

  function Skipped(nodes: seq<Node>): nat {
    if nodes == [] then 0 else (if nodes[0].SkippedNode? then 1 else 0) + Skipped(nodes[1..])
  }

  /** Every visited node is a row, a removed comment, a gap marker or skipped. */
  lemma {:induction false} NodesAreAccountedFor(nodes: seq<Node>, opts: Options)
    ensures |Rows(nodes, opts)| + Removed(nodes) + |Markers(nodes)| + Skipped(nodes) == |nodes|
  {
    hide MakeComment, MakeGap, IsRemoved;
    if nodes != [] {
      NodesAreAccountedFor(nodes[1..], opts);
    }
  }

  lemma PreorderOfNone()
    ensures Preorder([]) == []
  {
  }

  lemma PreorderUnfold(forest: seq<Node>)
    requires forest != []
    ensures Preorder(forest)
         == [forest[0]] + (if forest[0].CommentNode? then Preorder(forest[0].replies) else []) + Preorder(forest[1..])
  {
  }

  /** The rows of a node, its replies and its later siblings. */
  lemma RowsUnfold(nodes: seq<Node>, opts: Options, rest: seq<Comment>)
    requires nodes != []
    ensures var below := if nodes[0].CommentNode? then Rows(Preorder(nodes[0].replies), opts) else [];
      var after := below + (Rows(Preorder(nodes[1..]), opts) + rest);
      Rows(Preorder(nodes), opts) + rest
        == if Kept(nodes[0]) then [MakeComment(nodes[0].data, opts)] + after else after
  {
    hide MakeComment, IsRemoved, Preorder, Rows;
    var n := nodes[0];
    var below := if n.CommentNode? then Preorder(n.replies) else [];
    PreorderUnfold(nodes);
    RowsConcat([n] + below, Preorder(nodes[1..]), opts);
    RowsConcat([n], below, opts);
    SingleNode(n, opts);
    RowsOfNone(opts);
    var later := Rows(Preorder(nodes[1..]), opts);
    assert Rows(Preorder(nodes), opts) == Rows([n], opts) + Rows(below, opts) + later;
    assert Rows([n], opts) + Rows(below, opts) + later + rest == Rows([n], opts) + (Rows(below, opts) + (later + rest));
  }

  lemma RowsSplit(nodes: seq<Node>, opts: Options)
    requires nodes != []
    ensures var below := if nodes[0].CommentNode? then Rows(Preorder(nodes[0].replies), opts) else [];
      var after := below + Rows(Preorder(nodes[1..]), opts);
      Rows(Preorder(nodes), opts) == if Kept(nodes[0]) then [MakeComment(nodes[0].data, opts)] + after else after
  {
    hide MakeComment, IsRemoved, Preorder, Rows;
    RowsUnfold(nodes, opts, []);
    assert Rows(Preorder(nodes), opts) + [] == Rows(Preorder(nodes), opts);
    assert Rows(Preorder(nodes[1..]), opts) + [] == Rows(Preorder(nodes[1..]), opts);
  }

  /** A slice that continues with `below` inside `whole` does so in a text around it. */
  lemma Inside(all: seq<Node>, a: seq<Node>, whole: seq<Node>, b: seq<Node>, k: nat, below: seq<Node>)
    requires all == a + whole + b && k < |whole| && whole[..k + 1] + below <= whole
    ensures all[|a| + k] == whole[k] && all[..|a| + k + 1] + below <= all
  {
    var found := whole[..k + 1] + below;
    assert all[..|a| + k + 1] == a + whole[..k + 1];
    assert all[..|a| + |found|] == a + found;
  }

  /** In the visit order a comment is followed at once by its whole reply subtree. */
  lemma {:induction false} RepliesFollow(forest: seq<Node>, p: nat)
    requires p < |Preorder(forest)| && Preorder(forest)[p].CommentNode?
    ensures var below := Preorder(Preorder(forest)[p].replies);
      Preorder(forest)[..p + 1] + below <= Preorder(forest)
  {
    hide Preorder;
    var all := Preorder(forest);
    PreorderOfNone();
    if forest != [] {
      PreorderUnfold(forest);
      var inner := if forest[0].CommentNode? then Preorder(forest[0].replies) else [];
      var rest := Preorder(forest[1..]);
      if p == 0 {
        assert all[..1] + inner == [forest[0]] + inner;
      } else if p <= |inner| {
        RepliesFollow(forest[0].replies, p - 1);
        Inside(all, [forest[0]], inner, rest, p - 1, Preorder(inner[p - 1].replies));
      } else {
        var q := p - 1 - |inner|;
        RepliesFollow(forest[1..], q);
        Inside(all, [forest[0]] + inner, rest, [], q, Preorder(rest[q].replies));
      }
    }
  }

  /** So the rows below a comment come directly after its own row, and when the comment
      was removed they take its place: no reply is lost or moved. */
  lemma RowsBelowFollow(forest: seq<Node>, p: nat, opts: Options)
    requires p < |Preorder(forest)| && Preorder(forest)[p].CommentNode?
    ensures var all := Preorder(forest);
      var own := if IsRemoved(all[p].data) then [] else [MakeComment(all[p].data, opts)];
      Rows(all[..p], opts) + own + Rows(Preorder(all[p].replies), opts) <= Rows(all, opts)
  {
    hide MakeComment, IsRemoved, Preorder, Rows;
    var all := Preorder(forest);
    var below := Preorder(all[p].replies);
    RepliesFollow(forest, p);
    var head := all[..p + 1] + below;
    assert all == head + all[|head|..];
    RowsConcat(head, all[|head|..], opts);
    RowsConcat(all[..p + 1], below, opts);
    assert all[..p + 1] == all[..p] + [all[p]];
    RowsConcat(all[..p], [all[p]], opts);
    SingleNode(all[p], opts);
  }
}
