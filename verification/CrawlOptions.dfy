/** How a request's knobs and the configured defaults become the options of a crawl, and
    what that means for the size of an expansion. */
module CrawlOptions {
  import opened Wrappers
  import opened Sequences
  import opened RedditTypes
  import opened Expansion

  const MAX_EXPANSION_ROUNDS := 40
  const DEFAULT_ROUNDS := 3

  datatype EngineOptions = EngineOptions(format: string, keepDepth: bool, keepCreated: bool, maxRounds: int)

  // The `expand` parameter: absent, one of the words for "everything", or a text from
  // which a leading integer could be scanned or not.
  datatype Expand = Absent | Everything | Text(scanned: Option<int>)

  datatype Query = Query(format: string, depth: string, noCreated: string, expand: Expand)

  /** The loader's translation of a query, starting from its copy of the defaults. */
  function RequestOptions(defaults: Options, q: Query): EngineOptions {
    EngineOptions(
      if q.format == "json" || q.format == "toon" then q.format else defaults.format,
      defaults.keepDepth || q.depth == "1",
      defaults.keepCreated && q.noCreated != "1",
      match q.expand
      case Absent => defaults.maxRounds
      case Everything => MAX_EXPANSION_ROUNDS
      case Text(scanned) => if scanned.Some? && scanned.value >= 0 then scanned.value else defaults.maxRounds)
  }

  /** The engine's merge of a request on top of its own defaults. */
  function ResolveOptions(defaults: Options, eo: EngineOptions): Options {
    var rounds := if eo.maxRounds > 0 then Min(eo.maxRounds, MAX_EXPANSION_ROUNDS) else defaults.maxRounds;
    var format := if eo.format == "toon" || eo.format == "json" then eo.format else defaults.format;
    Options(
      defaults.keepDepth || eo.keepDepth,
      defaults.keepCreated || eo.keepCreated,
      if rounds == 0 then DEFAULT_ROUNDS else rounds,
      if format == "" then "toon" else format)
  }

  /** The cap of 40 rounds is kept exactly when the request names a positive number of
      rounds or the engine's default respects it. */
  lemma RoundsAreCapped(defaults: Options, eo: EngineOptions)
    ensures var r := ResolveOptions(defaults, eo).maxRounds;
      && r == (if eo.maxRounds > 40 then 40 else if eo.maxRounds > 0 then eo.maxRounds
               else if defaults.maxRounds == 0 then 3 else defaults.maxRounds)
      && (r <= MAX_EXPANSION_ROUNDS <==> eo.maxRounds > 0 || defaults.maxRounds <= MAX_EXPANSION_ROUNDS)
  {
  }

  /** Through the loader, whose defaults are the engine's: a request for zero rounds gets
      the default instead, and is the one request that can escape the cap. */
  lemma LoaderRounds(defaults: Options, q: Query)
    ensures var r := ResolveOptions(defaults, RequestOptions(defaults, q)).maxRounds;
      && (q.expand == Text(Some(0)) ==> r == if defaults.maxRounds == 0 then 3 else defaults.maxRounds)
      && (q.expand == Everything ==> r == 40)
      && (forall n :: q.expand == Text(Some(n)) && n > 0 ==> r == if n < 40 then n else 40)
      && (q.expand == Absent || q.expand == Text(None) || (exists n :: n < 0 && q.expand == Text(Some(n))) ==>
            r == if defaults.maxRounds > 40 then 40 else if defaults.maxRounds == 0 then 3 else defaults.maxRounds)
      && (r <= MAX_EXPANSION_ROUNDS <==> defaults.maxRounds <= MAX_EXPANSION_ROUNDS || q.expand != Text(Some(0)))
  {
  }

  /** Through the loader a query can add depths and choose the format, but it cannot drop
      creation times that the defaults keep. */
  lemma LoaderFields(defaults: Options, q: Query)
    ensures var r := ResolveOptions(defaults, RequestOptions(defaults, q));
      && r.keepCreated == defaults.keepCreated
      && (RequestOptions(defaults, q).keepCreated <==> defaults.keepCreated && q.noCreated != "1")
      && (r.keepDepth <==> defaults.keepDepth || q.depth == "1")
      && r.format == (if q.format == "json" || q.format == "toon" then q.format
                      else if defaults.format == "" then "toon" else defaults.format)
      && (defaults.format == "" || defaults.format == "json" || defaults.format == "toon" ==>
            r.format == "json" || r.format == "toon")
  {
  }

  /** An expansion under resolved options makes at most 40 calls asking for at most 4000
      IDs, whatever the request says, when the default respects the cap. */
  lemma ExpansionBudget(defaults: Options, eo: EngineOptions, t: Thread, answers: seq<Answer>, r: Run)
    requires defaults.maxRounds <= MAX_EXPANSION_ROUNDS || eo.maxRounds > 0
    requires IsRun(t, answers, ResolveOptions(defaults, eo).maxRounds, r)
    ensures |r.calls| <= MAX_EXPANSION_ROUNDS && r.rounds <= MAX_EXPANSION_ROUNDS
    ensures |Flatten(r.calls)| <= 4000
  {
    hide IsRun;
    RunCalls(t, answers, ResolveOptions(defaults, eo).maxRounds, r);
    RunRequestsAtMost(t, answers, ResolveOptions(defaults, eo).maxRounds, r);
  }
}
