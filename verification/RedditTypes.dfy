/** The values exchanged by the Reddit engine: comments, gap markers and threads. */
module RedditTypes {

  import opened Wrappers

  type Id = string

  datatype Comment = Comment(
    id: Id,
    parentId: Id,
    author: string,
    score: int,
    body: string,
    depth: Option<int>,
    created: Option<int>)

  // A gap marker is either "more" (its children can be requested by ID) or "continue".
  datatype GapKind = More | Continue

  datatype Gap = Gap(kind: GapKind, parentId: Id, depth: int, count: int, children: seq<Id>)

  datatype Thread = Thread(comments: seq<Comment>, gaps: seq<Gap>)

  datatype Options = Options(keepDepth: bool, keepCreated: bool, maxRounds: int, format: string)

  // What one /api/morechildren round can come back with.
  datatype Answer =
    | FetchFailed
    | ParseFailed
    | Parsed(comments: seq<Comment>, gaps: seq<Gap>)

  function Ids(comments: seq<Comment>): set<Id> {
    set c | c in comments :: c.id
  }

  // IDs in list order.
  function IdSeq(comments: seq<Comment>): (ids: seq<Id>)
    ensures |ids| == |comments|
    ensures forall i :: 0 <= i < |ids| ==> ids[i] == comments[i].id
  {
    seq(|comments|, i requires 0 <= i < |comments| => comments[i].id)
  }
}
