# omnifeed, modelled and proved

A Dafny model of the parts of omnifeed where its promises are hardest to see from the code: the
bounded expansion of collapsed Reddit replies, the flattening of the reply tree, the body
normaliser, the per-domain limiter and the loader's fan-out as concurrent protocols, the retrying
client with the failure labels derived from it, permalinks and session keys, crawl options, and the
readiness cache.

What is proved, in the system's own terms:

- **Gap expansion** (`GapQueue`, `Expansion`, `LiveThread`, `RedditCrawl`). The gap list, with its
  child IDs scattered over gaps and compacted in place, behaves as one first-in-first-out queue. A
  server is any sequence of answers (a run of an adaptive server is one such sequence). Over whole
  runs every announced ID is either requested in a merged round or still pending, in announcement
  order; comments are the first-occurrence deduplication of everything received; calls and IDs stay
  within the round cap. `LiveThread` does the same work on buffers, in place, and is proved equal to
  those functions.
- **Reply tree** (`CommentTree`, `Rebuild`, `Listings`, `PrunedRows`, `RemovedPlaces`, `ToldPlaces`,
  `UntoldPlaces`, `Ancestry`). The two flat lists are the visit order of the forest. Whatever was
  removed, a parser over the rows gives back every comment that live comments connect to the post.
  Where removed comments with live replies stood is told exactly in these cases: rows without depths
  tell it when there are none; rows with parents and depths when no part of the forest could hang
  from one removed comment more or less. Expansion appends comments out of visit order, and parent
  IDs still relate the final thread as the server does.
- **Body text** (`Whitespace`, `WhitespaceLaws`). The two regular-expression passes equal one pass
  over maximal blank runs; a text is left alone if and only if it is tidy and trimmed.
- **Limiter** (`Limiter`, `LimiterHistory`, `LimiterSafety`, `LimiterLaws`, `LimiterDelay`,
  `LimiterObjects`). Calls are interleaved step by step under a clock that only grows. Each token
  travels in a virtual lane (`VirtualLanes`), a history kept beside the run that guides no step. The
  shared slot objects take exactly the steps of that protocol, so its laws hold of them.
- **Loader** (`Loader`). The fan-out composed with the limiter, which other requests keep calling
  before and during the run. Each goroutine works on the index and URL it was handed: no deadlock,
  bounded runs, and in every slot what the crawl of its URL came back with; always a reply if and
  only if the per-domain concurrency is at least one.
- **Retries and labels** (`Retry`, `Failures`, `Fetcher`). 64-bit durations with wrap-around, the
  backoff in closed form, and the metric label of a failed fetch from end to end.
- **Options, permalinks, readiness** (`CrawlOptions`, `Permalink`, `Health`). Overlapping
  readiness evaluations are not merged: w open at once give at most w per started time-to-live.

Where the code does not do what its own documentation or comments say, the model follows the code:

- The README and the limiter's comment promise a minimum delay between requests to one domain.
  The time is stamped on release only, so this holds exactly for at most one token per host
  (`LimiterDelay.DelayHoldsForOneTokenOnly`); the default is two.
- A per-domain concurrency of 0 is accepted by the configuration and makes every crawl that reaches
  the limiter hang, and its request with it (`Loader.NoTokensHang`, `Loader.RepliesExactlyWithTokens`).
- `?expand=0` does not turn expansion off but selects the default, and with a default above 40 it
  is the one request that escapes the 40-round cap (`CrawlOptions.LoaderRounds`).
- `?nocreated=1` cannot drop a creation time that the defaults keep (`CrawlOptions.LoaderFields`).
- A negative number of attempts yields neither a response nor an error
  (`Retry.NeitherOnlyWithoutAttempts`); a Retry-After of 9223372037 seconds or more can wrap to a
  negative duration, and the next random draw panics (`Retry.OverflowingRetryAfterPanics`; exactly
  when is in `Retry.PanicsOnNegativeWait`).
- Normalising a permalink twice can differ from normalising it once, exactly when its slug ends in
  `.json` (`Permalink.NormaliseTwice`); a subreddit called "comments" gets two session keys
  (`Permalink.SessionsAgree`).
- Live replies of removed comments are kept, but not always their place in the thread: other faithful
  threads can have the same rows (`UntoldPlaces.RowsTellPlacesWhen` says when none does).

## Model

| member | source | states |
|---|---|---|
| GapQueue.RoundIsDequeueEnqueue | internal/engine/reddit/engine.go:189-220 | with distinct pending IDs a merged round removes exactly the oldest min(100, n) pending IDs and appends the announced ones, although they are struck from separate gaps by membership |
| GapQueue.RoundProgress | internal/engine/reddit/parser.go:182-209 | with no assumption on IDs: what the old gaps still hold is a sub-multiset of the old queue, shorter by at least the batch, and every ID that vanished was requested |
| GapQueue.TouchedGaps | internal/engine/reddit/parser.go:186-198 | no requested ID survives in a gap that contributed, its count is its number of remaining children, nothing else of it changes, and other gaps are untouched |
| GapQueue.SurvivingIsSublist | internal/engine/reddit/parser.go:200-207 | kept are exactly the "continue" markers and the gaps that still have children, each once, in their old order |
| GapQueue.MergedGaps | internal/engine/reddit/parser.go:182-209 | for any requested IDs and indices: named gaps lose the requested IDs and recount themselves, the others stay as they were, emptied "more" gaps go, "continue" markers stay, and the new gaps follow |
| GapQueue.MergeKeepsContinues | internal/engine/reddit/parser.go:200-209 | a merge keeps every "continue" marker unchanged and in order, and adds those of the answer |
| GapQueue.BatchIsHead | internal/engine/reddit/engine.go:189-206 | a round asks for the first 100 children of "more" gaps and names exactly the gaps it took some from |
| GapQueue.ExtendSelects | internal/engine/reddit/parser.go:169-180 | a received comment is appended, as received and in order, exactly when its ID is new to the list and among those received before it |
| GapQueue.ExtendIds | internal/engine/reddit/parser.go:169-180 | merging keeps the known comments as a prefix and ends with exactly the known and received IDs |
| GapQueue.ExtendTwice | internal/engine/reddit/parser.go:169-180 | merging round by round equals one merge of everything |
| GapQueue.ExtendDistinct | internal/engine/reddit/parser.go:169-180 | distinct comment IDs stay distinct |
| GapQueue.ExtendNothingNew | internal/engine/reddit/parser.go:174-180 | a merge adds no comment exactly when every received ID was known |
| Expansion.RunIsDetermined | internal/engine/reddit/engine.go:185-227 | thread, answers and cap determine rounds, calls and stop reason: the first round at which some stop condition holds |
| Expansion.RunReads | internal/engine/reddit/engine.go:185-227 | read off thread and answers: each call had pending children under the cap and asked for the first 100; every round but the last brought something; the stop reason is an empty answer, nothing pending, the cap, a failed fetch or a failed parse, exactly as it happened |
| Expansion.ContinuesStay | internal/engine/reddit/engine.go:185-227 | after any number of rounds the "continue" markers are those of the start followed by the announced ones, in order |
| Expansion.Ledger | internal/engine/reddit/engine.go:188-221 | requested IDs followed by pending IDs are the announced IDs in order, after any number of merged rounds |
| Expansion.RunLedger | internal/engine/reddit/engine.go:185-227 | at exit the announced IDs are split, in order and without repetition, into requested and pending ones exactly when the server announced every ID once; at most 100 were requested a round, always |
| Expansion.NothingIsLost | internal/engine/reddit/engine.go:185-227 | for any server at all: no announced ID is lost and none is invented |
| Expansion.AnnouncedAgainIsRequestedAgain | internal/engine/reddit/engine.go:188-221 | a server that announces a fetched ID again is asked for it again |
| Expansion.RunComments | internal/engine/reddit/engine.go:220 | final comments are the first-occurrence deduplication of the initial list and all merged answers; the initial list stays a prefix, IDs stay distinct, and merging the answers again adds nothing |
| Expansion.RunCalls | internal/engine/reddit/engine.go:188-226 | fetch calls exceed reported rounds by one exactly when a fetch or parse failed; every call asks for 1 to 100 IDs; calls stay within the cap |
| Expansion.RunRequestsAtMost | internal/engine/reddit/engine.go:188-210 | a run asks for at most 100 IDs per call in all |
| Expansion.RunDrains | internal/engine/reddit/engine.go:188-226 | when answers announce nothing more, the queue is drained exactly if it held at most 100 IDs per allowed round, and otherwise that many fewer remain |
| Expansion.DrainedAtLeast | internal/engine/reddit/engine.go:188-221 | repeated IDs only make the queue drain faster |
| LiveThreads.CompactChildren | internal/engine/reddit/parser.go:190-196 | sliding children down within their own buffer leaves exactly the unfulfilled ones, in order, no unread one overwritten |
| LiveThreads.CompactGaps | internal/engine/reddit/parser.go:200-207 | sliding gaps down within the list's buffer leaves exactly those not emptied, in order |
| LiveThreads.Allocate | internal/engine/reddit/parser.go:151-164 | decoded gaps get separate new child buffers holding their children |
| LiveThreads.LiveThread.constructor | internal/engine/reddit/parser.go:61-64 | a parsed thread starts with the given comments and gaps in buffers nobody else holds |
| LiveThreads.LiveThread.MergeComments | internal/engine/reddit/parser.go:170-180 | appends each unseen comment once and leaves the gaps alone |
| LiveThreads.LiveThread.StrikeGap | internal/engine/reddit/parser.go:190-197 | strikes fulfilled IDs from one gap; all other gaps keep their children |
| LiveThreads.LiveThread.StrikeGaps | internal/engine/reddit/parser.go:182-198 | strikes them from exactly the named gaps, for repeated and stale indices too |
| LiveThreads.LiveThread.DropEmptied | internal/engine/reddit/parser.go:200-207 | removes exactly the emptied "more" gaps and mixes up no child buffers |
| LiveThreads.LiveThread.AppendGaps | internal/engine/reddit/parser.go:209 | appends the new gaps after the old ones, whether or not the buffer has room |
| LiveThreads.LiveThread.MergeExpanded | internal/engine/reddit/parser.go:169-210 | the in-place merge equals the merge on values, for arbitrary answers, requested IDs and indices, and loses no "continue" marker |
| LiveThreads.LiveThread.CollectBatch | internal/engine/reddit/engine.go:189-206 | the batch is the first 100 children of "more" gaps, and the indices are those of the gaps it came from |
| LiveThreads.LiveThread.ExpandGaps | internal/engine/reddit/engine.go:185-227 | the round loop performs the determined run and leaves the thread as the last successful merge left it, with all its "continue" markers |
| LiveThreads.LiveThread.StripChildren | internal/engine/reddit/engine.go:120-126 | forgets the child IDs of "more" gaps and nothing else |
| CommentTree.WalkChildren | internal/engine/reddit/parser.go:84-121 | emits the kept comments and the gap markers, both in preorder of the forest |
| CommentTree.NodesAreAccountedFor | internal/engine/reddit/parser.go:87-119 | rows, removed comments, markers and skipped nodes add up to the nodes visited |
| CommentTree.RepliesFollow | internal/engine/reddit/parser.go:101-111 | a comment is followed at once by its whole reply subtree |
| CommentTree.RowsBelowFollow | internal/engine/reddit/parser.go:98-111 | the rows below a comment directly follow its own row, or take its place when it was removed: no live reply is lost or moved, and ancestors come first |
| CommentTree.RowsReflectNodes | internal/engine/reddit/parser.go:132-149 | the rows are exactly the comments not removed, once each and in order, with the body's blank runs normalised and trimmed, unprefixed parents and only the requested columns |
| CommentTree.RemovedMeans | internal/engine/reddit/parser.go:222-231 | a comment counts as removed when its author was scrubbed and its text is one of the four placeholders |
| CommentTree.MarkersReflectNodes | internal/engine/reddit/parser.go:151-164 | the markers are those of the "more" nodes, once each and in order: "continue" without children when the count is zero, otherwise "more" with count and children |
| Rebuild.BuildKeepsRows | internal/engine/reddit/parser.go:84-121 | the parser over the rows neither drops nor reorders a row |
| Rebuild.BuildOfFlat | internal/engine/reddit/parser.go:84-121 | parsing the rows of any forest whose levels are told apart gives that forest back and stops where it ends |
| Rebuild.BuildFromParents | internal/engine/reddit/parser.go:84-149 | with distinct row IDs and kept comments naming what they are listed under, ID, parent and order give the comment forest back when no removed comment has a live reply |
| Rebuild.BuildFromDepths | internal/engine/reddit/parser.go:140-143 | the same from order and kept depths alone |
| PrunedRows.PrunedRowsRebuild | internal/engine/reddit/parser.go:96-111 | for every listing, removed comments with live replies included: once rows without a known parent are dropped, the rows give back exactly the comments that live comments connect to the post, nested as listed |
| RemovedPlaces.OrphansShow | internal/engine/reddit/parser.go:96-111 | whether some removed comment has a live reply can be told from the rows |
| ToldPlaces.Bridge | internal/engine/reddit/parser.go:96-111 | wherever the rows below a comment with a fixed place are cut, a later row names a comment that an earlier row shows or names |
| ToldPlaces.SamePlaces | internal/engine/reddit/parser.go:96-143 | rows with parents and depths leave fixed places no second arrangement: every faithful listing with the same rows has them |
| UntoldPlaces.Rearrange | internal/engine/reddit/parser.go:96-143 | a place that is not fixed has one: replies of a removed comment can be split off it, or two neighbours be one comment, with the same rows |
| UntoldPlaces.RowsTellPlacesWhen | internal/engine/reddit/parser.go:132-143 | among listings with faithful parents, depths and IDs the rows tell where removed comments with live replies stood exactly when: without the depth column, there are none; with it, the last reply of a comment is live (and the first of several, below a removed one), and of two neighbours of which the second was removed each is live or has a live reply |
| Ancestry.FinalThreadKeepsAncestry | internal/engine/reddit/engine.go:185-227 | in the final thread, in whatever order comments arrived and whatever scores and texts changed in between, a path follows parent IDs from the post exactly when it is a path of live comments on the server |
| RedditCrawl.Crawl | internal/engine/reddit/engine.go:108-126 | listing and replies in, deduplicated comments and drained markers out, over a determined run; every "continue" marker of listing and replies comes out |
| RedditCrawl.RepliesShow | internal/engine/reddit/parser.go:67-82 | a reply shows its own comments and markers in visit order, and fails only when it did not arrive or is not JSON |
| RedditCrawl.StrippedIsDrained | internal/engine/reddit/engine.go:120-126 | stripped "more" gaps lose their children and nothing else, "continue" markers nothing at all, and nothing is left to request |
| Whitespace.MatchIsLongest | internal/engine/reddit/parser.go:17-18 | each scanner finds the longest prefix its pattern denotes, and reports none when there is none |
| WhitespaceLaws.TwoPassesAreOne | internal/engine/reddit/parser.go:240-246 | the two passes equal a one-pass map over maximal runs of blanks |
| WhitespaceLaws.CleanBodyIsOnePass | internal/engine/reddit/parser.go:236-248 | for every text, normalising is that one pass and a trim |
| WhitespaceLaws.OnePassOfWord | internal/engine/reddit/parser.go:236-248 | text without blanks passes unchanged, and what follows it is treated on its own |
| WhitespaceLaws.OnePassOfRun | internal/engine/reddit/parser.go:240-246 | a blank run with two newlines or more becomes a paragraph break, with one a newline, without any a single space, so words stay apart |
| WhitespaceLaws.TrimSpaceIsSlice | internal/engine/reddit/parser.go:247 | the trim removes spaces at both ends, all of them, and nothing else |
| WhitespaceLaws.SpaceCharacters | internal/engine/reddit/parser.go:17-18 | which characters count as horizontal space, as blank, and as space for the trim |
| WhitespaceLaws.CleanBodyNormalises | internal/engine/reddit/parser.go:236-248 | no repeated horizontal space, none beside a newline, no triple newline, trimmed, never longer, and the visible characters kept in order |
| WhitespaceLaws.CleanBodyFixpoints | internal/engine/reddit/parser.go:236-248 | a body is unchanged exactly when it is tidy and trimmed |
| WhitespaceLaws.CleanBodyIdempotent | internal/engine/reddit/parser.go:236-248 | normalising twice is normalising once |
| Limiter.CheckDelay | internal/httpx/limiter.go:46-54 | a call proceeds exactly when the delay since the stored time has passed; otherwise it wakes after it has, by at most the jitter |
| LimiterObjects.DomainLimiter.SlotFor | internal/httpx/limiter.go:31-38 | one slot object per host for ever: a stored slot is never replaced or reset, a new one is fresh, and distinct hosts never share |
| LimiterObjects.DomainLimiter.Advance | internal/httpx/limiter.go:42-62 | a step performed in place, on the slot the call looked up once, is the protocol's step for every other call too, and is blocked exactly when that is |
| LimiterObjects.ObjectsKeepLimits | internal/httpx/limiter.go:10-62 | however the steps on the objects interleave, the window bound and the capacity hold of them |
| LimiterLaws.PhaseByPhase | internal/httpx/limiter.go:42-62 | what each step of a call does to its slot, when it is blocked, and that a sleeper wakes after its delay by less than half a second |
| LimiterLaws.GrantsAreReturns | internal/httpx/limiter.go:42-62 | on every schedule the grants counted for a host are its calls that returned from Acquire, each once |
| LimiterSafety.GrantStep | internal/httpx/limiter.go:46-56 | a return from Acquire comes minDelay after everything earlier in its lane |
| LimiterSafety.AdvanceKeepsInv | internal/httpx/limiter.go:42-62 | every atomic step keeps lanes, clocks and spacing |
| LimiterLaws.ReachableInv | internal/httpx/limiter.go:42-62 | the lane invariant holds after every schedule |
| LimiterLaws.HoldersWithinCapacity | internal/httpx/limiter.go:44-60 | calls between send and receive are as many as the tokens out, and at most the capacity |
| LimiterLaws.GrantsInWindow | internal/httpx/limiter.go:42-61 | on every schedule at most c * (L / minDelay + 1) grants for a host fall in any window of length L |
| LimiterLaws.NoTokensNoGrants | internal/httpx/limiter.go:34-44 | with capacity 0 no call ever gets past its send, on any schedule |
| LimiterDelay.LastSendIsLatestRelease | internal/httpx/limiter.go:56-60 | the stored time is the largest stamped release time of the host |
| LimiterDelay.SingleTokenDelays | internal/httpx/limiter.go:42-61 | with one token every grant comes minDelay after every earlier grant and release of its host |
| LimiterDelay.TwoTokensTwoGrants | internal/httpx/limiter.go:42-61 | with two tokens two calls for a host can be granted at the same moment |
| LimiterDelay.DelayHoldsForOneTokenOnly | internal/httpx/limiter.go:10-12 | the minimum delay separates all requests on every schedule exactly when there is at most one token (or no delay) |
| LimiterDelay.AdvanceDecreases | internal/httpx/limiter.go:42-61 | every step brings a call closer to its end |
| LimiterDelay.SomeCallCanMove | internal/httpx/limiter.go:42-61 | with a token per host, some call can move while any is unfinished |
| Loader.ActKeepsSound | internal/transport/openwebui/server.go:128-137 | every step keeps the wait-group count and every goroutine on the index and URL it was handed |
| Loader.ActDecreases | internal/transport/openwebui/server.go:130-137 | every step of handler, worker or limiter leaves fewer to make, and a call of another request adds six |
| Loader.NeverStuck | internal/transport/openwebui/server.go:128-137 | an unanswered request always has an enabled step of its own or of the limiter, while no goroutine waits for a limiter without tokens |
| Loader.RunsAreBounded | internal/transport/openwebui/server.go:128-137 | no run is longer than the steps left at its start and seven for every call of another request that arrives |
| Loader.EveryRunReplies | internal/transport/openwebui/server.go:128-168 | however other requests call the limiter, a run that can go no further has replied, and slot i holds the very document the crawl of URL i came back with, or, when it failed, the fixed failure text marked as an error of that URL |
| Loader.NoTokensHang | internal/httpx/limiter.go:34-44 | with capacity 0, from any state of any run, a goroutine that has reached the limiter stays there and its request is never answered |
| Loader.NoTokensReply | internal/transport/openwebui/server.go:128-137 | with capacity 0 a run that can go no further has replied exactly when none of its goroutines reached the limiter |
| Loader.RepliesExactlyWithTokens | internal/transport/openwebui/server.go:128-141 | every run of every request that nothing but other requests can prolong has replied, exactly when the concurrency is at least one |
| Failures.WrappingKeepsReason | internal/observability/classify.go:15-27 | wrapping an error to any depth never changes its label |
| Failures.LabelsAreDistinct | internal/domain/errors.go:16-25 | labels tell the kinds apart, and none reads as success |
| Failures.ContextErrorMeans | internal/observability/classify.go:20-26 | an error counts as an ended context exactly when a deadline or cancellation is anywhere in its chain |
| Failures.StatusMeans | internal/httpx/retry.go:174-184 | the status of an error is that of the outermost status error in its chain, if there is one |
| Failures.FetchMeans | internal/observability/classify.go:15-20 | the kind of an error is that of the outermost classified error in its chain, if there is one |
| Failures.ClassifiedAs | internal/httpx/retry.go:174-194 | a classified client error wraps its cause, carries its status, and is labelled by 429, 403, ended context or the fallback |
| Retry.DoRetry | internal/httpx/retry.go:61-131 | the loop ends at the first settling attempt, or with the last error; every wait is drawn below the recorded bound |
| Retry.OutcomeIsDetermined | internal/httpx/retry.go:61-131 | configuration and answers determine the number of attempts and the outcome |
| Retry.EndsAsAnswered | internal/httpx/retry.go:69-130 | on the answers alone, when no wait panics: the call returns the first answer below 500 that is no 429 if only 429s, server errors and network errors came before it; it fails with the first ended context or unbuildable request, or with what the last allowed attempt left behind |
| Retry.DefaultsFill | internal/httpx/retry.go:26-36 | unset fields, and only those, become three attempts, half a second and four seconds |
| Retry.WrapsAround | internal/httpx/retry.go:119-139 | 64-bit arithmetic keeps the one value in range that differs by a multiple of 2^64 |
| Retry.DrawsAll | internal/httpx/retry.go:76-82 | a bound can be drawn from exactly when one more is a positive 64-bit number, and every wait up to it can come out |
| Retry.NeitherOnlyWithoutAttempts | internal/httpx/retry.go:26-36 | a call returns neither response nor error exactly when a negative number of attempts is configured |
| Retry.OutcomeStatuses | internal/httpx/retry.go:107-130 | a returned response is below 500 and not 429, a status error is one of those, attempts stay within the limit |
| Retry.BackoffClosedForm | internal/httpx/retry.go:70-139 | the bound before a retry is the capped start times a power of two, the start being the base delay or the latest Retry-After, and lies in 0..maxDelay |
| Retry.BoundsStayInRange | internal/httpx/retry.go:119-139 | bounds stay in 0..maxDelay exactly when no received Retry-After wraps to a negative duration |
| Retry.TotalWait | internal/httpx/retry.go:73-83 | a call whose doublings and received seconds fit 64 bits never panics, draws every wait below a bound in 0..maxDelay, and waits at most (attempts - 1) times maxDelay in all |
| Retry.RetryAfterHonoured | internal/httpx/retry.go:119-124 | the asked wait is honoured up to the maximum exactly when its product fits 64 bits or wraps to at least the maximum |
| Retry.PanicsOnNegativeWait | internal/httpx/retry.go:73-124 | with delays that can be doubled a call panics exactly when its first failed answers, before the last allowed attempt, end with the first Retry-After that wraps to a negative duration |
| Retry.OverflowingRetryAfterPanics | internal/httpx/retry.go:77-120 | after a 503 asking for 9223372037 seconds the second attempt panics |
| Retry.RetryAfterRoundTrip | internal/httpx/retry.go:144-153 | a written number of seconds within 64 bits is read back; negative or empty means none |
| Retry.RetryAfterOther | internal/httpx/retry.go:144-153 | anything but an optional sign and digits means none, and leading zeros do not count |
| Fetcher.LabelOfLastAttempt | internal/httpx/retry.go:174-194 | through retries, classification and wrapping the label depends on the last attempt alone: 429, ended context, or the caller's fallback |
| Fetcher.BrowserLabels | internal/engine/reddit/fetcher.go:217-296 | on the Reddit path a 5xx of the upstream reads bot_block, a 429 http_429, an ended context timeout; captcha, upstream_error and ok each mean exactly one thing about the page |
| Fetcher.BrowserLabelTable | internal/engine/reddit/fetcher.go:217-296 | the label of every case, from the one attempt through the upstream's answer and the script result to the page |
| Fetcher.FailuresCarry | internal/engine/reddit/fetcher.go:243-294 | a rejected page fails with its own status, a bot wall also with its marker, a failed crawl with no status |
| CrawlOptions.RoundsAreCapped | internal/engine/reddit/engine.go:156-181 | a positive request counts up to 40, otherwise the default does, three when that is zero; so the cap holds exactly when the request is positive or the default respects it |
| CrawlOptions.LoaderRounds | internal/transport/openwebui/server.go:188-197 | through the loader the rounds of every kind of request: everything means 40, zero means the default and is the only request that can exceed the cap |
| CrawlOptions.LoaderFields | internal/transport/openwebui/server.go:179-187 | through the loader a query adds depths and picks a known format, and its wish to drop creation times is carried but cannot undo the defaults |
| CrawlOptions.ExpansionBudget | internal/engine/reddit/engine.go:18-22 | under the cap an expansion makes at most 40 calls for at most 4000 IDs |
| Permalink.MatchesWhole | internal/engine/reddit/parser.go:20-23 | the pattern captures the whole of a canonical permalink and no trailing slash |
| Permalink.FindIsLeftmost | internal/engine/reddit/parser.go:20-23 | the result is the longest canonical permalink at the leftmost place where one starts, whatever comes before or after it, and none when none starts anywhere |
| Permalink.NormalisesToItself | internal/engine/reddit/parser.go:253-265 | both .json forms always normalise to the permalink; the plain and directory forms do exactly when it does not itself end in .json |
| Permalink.NormaliseTwice | internal/engine/reddit/parser.go:253-265 | every result is a canonical permalink, and normalising is idempotent on it exactly when its slug does not end in .json |
| Permalink.ThreadSession | internal/engine/reddit/fetcher.go:99-107 | the key names the segment after the first "comments", and is empty when there is none |
| Permalink.SegmentsRead | internal/engine/reddit/fetcher.go:100 | the segments are the slash-free pieces of the path without the slashes around it |
| Permalink.ExpansionKeys | internal/engine/reddit/fetcher.go:63-75 | the expansion key drops one leading t3_ of the full name and nothing else |
| Permalink.SessionsAgree | internal/engine/reddit/fetcher.go:63-75 | thread fetch and expansion share a session exactly when the subreddit is not called "comments" (or the post is) |
| Health.FirstFailureIsFirst | internal/observability/health.go:78-83 | passing checks before a position do not affect the outcome |
| Health.FirstFailureMeans | internal/observability/health.go:78-85 | the outcome is ready exactly when every check passes, and otherwise the failure of the first check that fails |
| Health.Probe.Check | internal/observability/health.go:74-86 | one call answers from the cache and keeps it, or runs the checks up to the first failure and stores that outcome, ready only when all passed |
| Health.AnswersAgree | internal/observability/health.go:74-86 | however calls overlap, an answer is a fresh evaluation or one stored less than the time-to-live before its age test |
| Health.EvaluationsInWindow | internal/observability/health.go:32-36 | when at most w evaluations are open at once, at most w * (L / ttl + 1) complete in any window of length L |
| Health.BoundIsReached | internal/observability/health.go:74-86 | for every w, overlapping calls can complete w evaluations at the same moment |
| Health.SequentialStoresAreSpaced | internal/observability/health.go:74-86 | with one evaluation open at a time, completed ones are at least the time-to-live apart |

## Left out

- JSON decoding and encoding, TOON output, form encoding and the script snippets: the model starts from decoded children and from answers already fetched.
- The post's own fields and its self-text: carried through unchanged, apart from the body normaliser modelled here.
- URL parsing, percent-decoding, host matching and share-link resolution: the model works on the path of a parsed URL.
- Invalid UTF-8: text is a sequence of Unicode characters, as JSON decoding leaves it.
- The HTTP clients of crawl4ai and SearXNG and their request knobs: only the single Acquire/release and the order of failure checks are modelled.
- URL validation, anti-bot marker lists, authentication, configuration loading, logging, metrics, the MCP server and `main`: straight-line wiring without a protocol or an algorithm of their own.
- The integer scan behind `?expand=`: its result is a parameter.
- Random numbers and the wall clock: a draw is any value in its range, and time is any sequence of readings that does not go back.
- The lock around the limiter's timestamp is not a step of its own: each critical section is one atomic step. In the readiness cache, reading the clock and storing the result are one step too.
- A negative per-domain concurrency: the first crawl of a host panics when its channel is made.
- Ancestry.FinalThreadKeepsAncestry: takes the IDs and parents of everything received from one forest on the server, in which what was live when received counts as live.
- Growth of a reallocated gap buffer: any amount of spare room.
- LimiterLaws.GrantsInWindow: assumes durations within 64 bits when the wait is computed, as any configured delay below centuries is.
- Retry.BackoffClosedForm: assumes that doubling the configured delays and converting the received seconds stays within 64 bits; `Retry.BoundsStayInRange` says what happens to the bounds otherwise.
- Loader.EveryRunReplies: takes it as given that a call to the upstream returns; how long it may take is bounded elsewhere by timeouts.
