/** The whole Reddit crawl: flatten the listing, expand its gaps, forget the child IDs. */
module RedditCrawl {
  import opened CommentTree
  import opened Expansion
  import opened GapQueue
  import opened LiveThreads
  import opened RedditTypes

  // What a morechildren request comes back with, before its things are flattened.
  datatype Reply = NoReply | NotJson | Things(nodes: seq<Node>)

  function ParseReply(r: Reply, opts: Options): Answer {
    match r
    case NoReply => FetchFailed
    case NotJson => ParseFailed
    case Things(nodes) => Parsed(Rows(Preorder(nodes), opts), Markers(Preorder(nodes)))
  }

  function ParseReplies(replies: seq<Reply>, opts: Options): (answers: seq<Answer>)
    ensures |answers| == |replies|
    ensures forall i :: 0 <= i < |answers| ==> answers[i] == ParseReply(replies[i], opts)
  {
    seq(|replies|, i requires 0 <= i < |replies| => ParseReply(replies[i], opts))
  }

  /** A reply shows its own comments and markers, in visit order, and fails only when it
      did not arrive or is not JSON. */
  lemma RepliesShow(replies: seq<Reply>, opts: Options, i: nat)
    requires i < |replies|
    ensures match AnswerAt(ParseReplies(replies, opts), i)
      case FetchFailed => replies[i] == NoReply
      case ParseFailed => replies[i] == NotJson
      case Parsed(comments, gaps) =>
        && replies[i].Things?
        && comments == Rows(Preorder(replies[i].nodes), opts) && gaps == Markers(Preorder(replies[i].nodes))
  {
    hide Rows, Markers, Preorder;
  }

  /** The thread a listing starts from. */
  function ParseThread(listing: seq<Node>, opts: Options): Thread {
    Thread(Rows(Preorder(listing), opts), Markers(Preorder(listing)))
  }

  /** Crawls a thread against a server described by its replies. The comments are those of
      the listing and of every merged reply, each ID at its first occurrence; the gaps are
      those left in the queue, without their child IDs. */
  method Crawl(listing: seq<Node>, replies: seq<Reply>, opts: Options)
    returns (t: LiveThread, rounds: nat, calls: seq<seq<Id>>, stop: Stop)
    ensures t.Valid()
    ensures IsRun(ParseThread(listing, opts), ParseReplies(replies, opts), opts.maxRounds, Run(rounds, calls, stop))
    ensures var start, answers := ParseThread(listing, opts), ParseReplies(replies, opts);
      && t.View().comments == Extend(start.comments, Received(answers, rounds))
      && var left := After(start, answers, rounds).gaps;
         && t.View().gaps == StrippedUpTo(left, |left|)
         && Pending(t.View().gaps) == []
    ensures Continues(t.View().gaps)
         == Continues(Markers(Preorder(listing))) + AnnouncedContinues(ParseReplies(replies, opts), rounds)
  {
    hide Continues, IsRun, After, Rows, Markers, Preorder, ParseReplies, Pending, StrippedUpTo, Extend, Received;
    hide ValuesOf, CellsOf, AllSound, Separate;
    var comments, gaps := WalkChildren(listing, opts);
    t := new LiveThread(comments, gaps);
    rounds, calls, stop := t.ExpandGaps(ParseReplies(replies, opts), opts.maxRounds);
    ghost var expanded := t.View();
    CommentsAfter(ParseThread(listing, opts), ParseReplies(replies, opts), rounds);
    t.StripChildren();
    assert t.View() == Thread(expanded.comments, StrippedUpTo(expanded.gaps, |expanded.gaps|));
    StrippedIsDrained(expanded.gaps);
  }

  /** Stripping leaves nothing to request but keeps every marker's place and count. */
  lemma StrippedIsDrained(gaps: seq<Gap>)
    ensures var stripped := StrippedUpTo(gaps, |gaps|);
      && Pending(stripped) == []
      && |stripped| == |gaps|
      && (forall i :: 0 <= i < |gaps| ==>
            stripped[i] == if gaps[i].kind == More then gaps[i].(children := []) else gaps[i])
      && Continues(stripped) == Continues(gaps)
  {
    SameContinues(StrippedUpTo(gaps, |gaps|), gaps);
    NothingWaiting(StrippedUpTo(gaps, |gaps|));
  }

  lemma {:induction false} NothingWaiting(gaps: seq<Gap>)
    requires forall i :: 0 <= i < |gaps| ==> Waiting(gaps[i]) == []
    ensures Pending(gaps) == []
  {
    if gaps != [] {
      NothingWaiting(gaps[..|gaps| - 1]);
    }
  }
}
