/** The retrying client: bounded exponential backoff with full jitter, overridden by a
    Retry-After given in seconds (section 10.2.3 of RFC 9110). Durations are 64-bit
    nanosecond counts and wrap around. */
module Retry {
  import opened Durations
  import opened Failures
  import opened Sequences
  import opened Wrappers

  const MAX_INT64: int := 0x7FFF_FFFF_FFFF_FFFF

  function Wrap64(x: int): int {
    (x + 0x8000_0000_0000_0000) % 0x1_0000_0000_0000_0000 - 0x8000_0000_0000_0000
  }

  datatype Config = Config(maxAttempts: int, baseDelay: int, maxDelay: int)

  function WithDefaults(c: Config): Config {
    Config(if c.maxAttempts == 0 then 3 else c.maxAttempts,
           if c.baseDelay == 0 then 500 * MILLISECOND else c.baseDelay,
           if c.maxDelay == 0 then 4 * SECOND else c.maxDelay)
  }

  function NextBackoff(d: int, max: int): int {
    var doubled := Wrap64(d * 2);
    if doubled > max then max else doubled
  }

  predicate AllDigits(s: string) {
    s != "" && forall i :: 0 <= i < |s| ==> '0' <= s[i] <= '9'
  }

  function DigitsValue(s: string): nat
    requires forall i :: 0 <= i < |s| ==> '0' <= s[i] <= '9'
  {
    if s == "" then 0 else DigitsValue(s[..|s| - 1]) * 10 + (s[|s| - 1] as int - '0' as int)
  }

  /** The integer-seconds form only: an optional sign and digits, within 64 bits and not
      negative. */
  function ParseRetryAfter(s: string): (r: Option<nat>)
    ensures r.Some? ==> r.value <= MAX_INT64
  {
    var digits := if s != "" && (s[0] == '+' || s[0] == '-') then s[1..] else s;
    if !AllDigits(digits) then None
    else
      var n := DigitsValue(digits);
      if n > MAX_INT64 || (s[0] == '-' && n > 0) then None else Some(n)
  }

  function RetryAfterDelay(secs: nat, max: int): int {
    var d := Wrap64(secs * SECOND);
    if d > max then max else d
  }

  // What one attempt meets: the context ends while waiting for it, the request cannot be
  // built, sending fails, or the server answers. `draw` fixes the random wait before it.
  datatype Attempt =
    | Abandoned(error: Error)
    | Unbuildable(error: Error)
    | NetworkFailed(error: Error)
    | Answered(status: int, retryAfter: string)

  datatype Trial = Trial(draw: nat, attempt: Attempt)

  datatype Result = Response(status: int) | Failed(error: Error) | Neither | Panicked

  function TrialAt(trials: seq<Trial>, i: nat): Trial {
    if i < |trials| then trials[i] else Trial(0, NetworkFailed(Plain("unreachable")))
  }

  /** Attempts that are followed by another one. */
  predicate Retried(a: Attempt) {
    match a
    case Answered(status, _) => status >= 500 || status == 429
    case NetworkFailed(e) => !IsContextError(e)
    case _ => false
  }

  function FailureOf(a: Attempt): Error {
    match a
    case Answered(status, _) => StatusError(status)
    case Abandoned(e) => e
    case Unbuildable(e) => e
    case NetworkFailed(e) => e
  }

  function NextDelay(c: Config, a: Attempt, delay: int): int {
    match a
    case Answered(_, retryAfter) =>
      (match ParseRetryAfter(retryAfter)
       case Some(secs) => RetryAfterDelay(secs, c.maxDelay)
       case None => NextBackoff(delay, c.maxDelay))
    case _ => NextBackoff(delay, c.maxDelay)
  }

  /** The bound on the wait once k attempts have failed. */
  function DelayAfter(c: Config, trials: seq<Trial>, k: nat): int {
    if k == 0 then c.baseDelay else NextDelay(c, TrialAt(trials, k - 1).attempt, DelayAfter(c, trials, k - 1))
  }

  // The random draw accepts bounds from 0 up to the largest integer but one.
  predicate CanDraw(delay: int) {
    0 <= delay < MAX_INT64
  }

  /** Full jitter: some wait from zero up to the bound. */
  function Jittered(draw: nat, bound: nat): (wait: int)
    ensures 0 <= wait <= bound
  {
    draw % (bound + 1)
  }

  predicate Stuck(c: Config, trials: seq<Trial>, i: nat) {
    i > 0 && !CanDraw(DelayAfter(c, trials, i))
  }

  /** Attempt i is the last one made although more are allowed. */
  predicate Ends(c: Config, trials: seq<Trial>, i: nat) {
    Stuck(c, trials, i) || !Retried(TrialAt(trials, i).attempt)
  }

  function ResultAt(c: Config, trials: seq<Trial>, i: nat): Result {
    if Stuck(c, trials, i) then Panicked
    else
      match TrialAt(trials, i).attempt
      case Answered(status, _) => Response(status)
      case a => Failed(FailureOf(a))
  }

  /** n attempts failed and were followed by another; then the call ended with r. */
  predicate IsOutcome(c: Config, trials: seq<Trial>, n: nat, r: Result) {
    && (forall i :: 0 <= i < n ==> !Ends(c, trials, i))
    && (if n < c.maxAttempts then Ends(c, trials, n) && r == ResultAt(c, trials, n)
        else if n == 0 then r == Neither
        else n == c.maxAttempts && r == Failed(FailureOf(TrialAt(trials, n - 1).attempt)))
  }

  /** The waits of such a call: before each attempt but the first, and before none that
      panicked, a wait between zero and the backoff bound of that attempt. */
  ghost predicate AreWaits(c: Config, trials: seq<Trial>, n: nat, r: Result, bounds: seq<int>, sleeps: seq<int>) {
    && |bounds| == |sleeps|
    && |bounds| == (if n == 0 then 0 else if r == Panicked || n == c.maxAttempts then n - 1 else n)
    && forall i :: 0 <= i < |bounds| ==>
         bounds[i] == DelayAfter(c, trials, i + 1) && 0 <= sleeps[i] <= bounds[i]
  }

  /** Sends the request until an attempt settles it. `bounds` are the backoff bounds drawn
      from and `sleeps` the waits drawn. */
  method DoRetry(config: Config, trials: seq<Trial>)
    returns (r: Result, bounds: seq<int>, sleeps: seq<int>, ghost n: nat)
    ensures IsOutcome(WithDefaults(config), trials, n, r)
    ensures AreWaits(WithDefaults(config), trials, n, r, bounds, sleeps)
  {
    hide ParseRetryAfter, NextBackoff, RetryAfterDelay, IsContextError, Jittered, TrialAt;
    var c := WithDefaults(config);
    var delay := c.baseDelay;
    var attempt := 0;
    r, bounds, sleeps, n := Neither, [], [], 0;
    while attempt < c.maxAttempts
      invariant n == attempt && (attempt <= c.maxAttempts || attempt == 0)
      invariant delay == DelayAfter(c, trials, attempt)
      invariant forall i :: 0 <= i < attempt ==> !Ends(c, trials, i)
      invariant r == if attempt == 0 then Neither else Failed(FailureOf(TrialAt(trials, attempt - 1).attempt))
      invariant |bounds| == |sleeps| == if attempt == 0 then 0 else attempt - 1
      invariant forall i :: 0 <= i < |bounds| ==>
                  bounds[i] == DelayAfter(c, trials, i + 1) && 0 <= sleeps[i] <= bounds[i]
    {
      var trial := TrialAt(trials, attempt);
      if attempt > 0 {
        if !CanDraw(delay) {
          r := Panicked;
          return;
        }
        bounds := bounds + [delay];
        sleeps := sleeps + [Jittered(trial.draw, delay)];
      }
      match trial.attempt {
        case Abandoned(e) =>
          r := Failed(e);
          return;
        case Unbuildable(e) =>
          r := Failed(e);
          return;
        case NetworkFailed(e) =>
          r := Failed(e);
          if IsContextError(e) {
            return;
          }
          delay := NextBackoff(delay, c.maxDelay);
        case Answered(status, retryAfter) =>
          if status < 500 && status != 429 {
            r := Response(status);
            return;
          }
          r := Failed(StatusError(status));
          match ParseRetryAfter(retryAfter) {
            case Some(secs) => delay := RetryAfterDelay(secs, c.maxDelay);
            case None => delay := NextBackoff(delay, c.maxDelay);
          }
      }
      attempt := attempt + 1;
      n := attempt;
    }
  }

  lemma OutcomeIsDetermined(c: Config, trials: seq<Trial>, n: nat, r: Result, n': nat, r': Result)
    requires IsOutcome(c, trials, n, r) && IsOutcome(c, trials, n', r')
    ensures n == n' && r == r'
  {
    hide Ends, ResultAt, FailureOf, TrialAt;
  }

  // ----------------------------------------------------------------- what comes back

  /** A call yields a response or an error and never both; it yields neither exactly when
      a negative number of attempts is configured, which the defaults let through. */
  lemma NeitherOnlyWithoutAttempts(config: Config, trials: seq<Trial>, n: nat, r: Result)
    requires IsOutcome(WithDefaults(config), trials, n, r)
    ensures r == Neither <==> config.maxAttempts < 0
  {
  }

  // Only the client itself produces status errors.
  ghost predicate ForeignErrors(trials: seq<Trial>) {
    forall i :: 0 <= i < |trials| ==> trials[i].attempt.Answered? || AsStatus(FailureOf(trials[i].attempt)) == None
  }

  /** A returned response is neither a 429 nor a server error, and a status error always
      is one of them; attempts stay within the configured number. */
  lemma OutcomeStatuses(config: Config, trials: seq<Trial>, n: nat, r: Result)
    requires IsOutcome(WithDefaults(config), trials, n, r) && ForeignErrors(trials)
    ensures r.Response? ==> r.status < 500 && r.status != 429
    ensures r.Failed? && AsStatus(r.error).Some? ==> AsStatus(r.error).value >= 500 || AsStatus(r.error).value == 429
    ensures config.maxAttempts > 0 ==> n <= config.maxAttempts
  {
    var c := WithDefaults(config);
    if n < c.maxAttempts {
      assert Ends(c, trials, n);
    } else if n > 0 {
      assert !Ends(c, trials, n - 1);
    }
  }

  /** On the answers alone, when no wait can panic: the call returns the first answer below
      500 that is no 429, if only such answers and network errors came before it. */
  lemma RespondsWhen(c: Config, trials: seq<Trial>, n: nat, r: Result, status: int)
    requires IsOutcome(c, trials, n, r) && r != Panicked
    ensures r == Response(status) <==>
            exists k :: 0 <= k < c.maxAttempts && AnsweredAt(trials, k, status) && status < 500 && status != 429
                        && AllTransient(trials, k)
  {
    if r == Response(status) {
      EarlierTransient(c, trials, n);
      assert AnsweredAt(trials, n, status);
    } else if k :| 0 <= k < c.maxAttempts && AnsweredAt(trials, k, status) && status < 500 && status != 429
                   && AllTransient(trials, k) {
      TransientGoesOn(c, trials, n, r, k);
    }
  }

  ghost predicate AnsweredAt(trials: seq<Trial>, k: nat, status: int) {
    TrialAt(trials, k).attempt.Answered? && TrialAt(trials, k).attempt.status == status
  }

  /** The first k attempts each met a 429, a server error, or a network error without an
      ended context. */
  ghost predicate AllTransient(trials: seq<Trial>, k: nat) {
    forall i :: 0 <= i < k ==>
      var a := TrialAt(trials, i).attempt;
      || (a.Answered? && (a.status == 429 || a.status >= 500))
      || (a.NetworkFailed? && DeadlineExceeded !in Chain(a.error) && Canceled !in Chain(a.error))
  }

  /** The error that ends a call at once: the context ended, before or while sending, or the
      request could not be built. */
  ghost predicate EndsWith(trials: seq<Trial>, k: nat, e: Error) {
    match TrialAt(trials, k).attempt
    case Abandoned(x) => x == e
    case Unbuildable(x) => x == e
    case NetworkFailed(x) => x == e && (DeadlineExceeded in Chain(e) || Canceled in Chain(e))
    case Answered(_, _) => false
  }

  /** What the last allowed attempt leaves behind. */
  ghost predicate LeavesBehind(trials: seq<Trial>, k: nat, e: Error) {
    match TrialAt(trials, k).attempt
    case Answered(status, _) => e == StatusError(status)
    case NetworkFailed(x) => e == x
    case _ => false
  }

  /** And it fails with the first error that ends a call, or with what the last attempt left
      behind when every allowed attempt was transient. */
  lemma FailsWhen(c: Config, trials: seq<Trial>, n: nat, r: Result, e: Error)
    requires IsOutcome(c, trials, n, r) && r != Panicked
    ensures r == Failed(e) <==>
            || (exists k :: 0 <= k < c.maxAttempts && EndsWith(trials, k, e) && AllTransient(trials, k))
            || (c.maxAttempts > 0 && AllTransient(trials, c.maxAttempts) && LeavesBehind(trials, c.maxAttempts - 1, e))
  {
    EarlierTransient(c, trials, n);
    if r == Failed(e) {
      if n < c.maxAttempts {
        SettlesWithout(trials, n, e);
        assert EndsWith(trials, n, e);
      }
    } else if k :| 0 <= k < c.maxAttempts && EndsWith(trials, k, e) && AllTransient(trials, k) {
      TransientGoesOn(c, trials, n, r, k);
      SettlesWithout(trials, k, e);
    } else if c.maxAttempts > 0 && AllTransient(trials, c.maxAttempts) {
      TransientGoesOn(c, trials, n, r, c.maxAttempts);
    }
  }

  lemma RetriedMeans(trials: seq<Trial>, i: nat)
    ensures var a := TrialAt(trials, i).attempt;
      Retried(a) <==>
        || (a.Answered? && (a.status == 429 || a.status >= 500))
        || (a.NetworkFailed? && DeadlineExceeded !in Chain(a.error) && Canceled !in Chain(a.error))
  {
    if TrialAt(trials, i).attempt.NetworkFailed? {
      ContextErrorMeans(TrialAt(trials, i).attempt.error);
    }
  }

  lemma SettlesWithout(trials: seq<Trial>, k: nat, e: Error)
    ensures EndsWith(trials, k, e) ==> !Retried(TrialAt(trials, k).attempt) && FailureOf(TrialAt(trials, k).attempt) == e
    ensures var a := TrialAt(trials, k).attempt;
      !Retried(a) && !a.Answered? && FailureOf(a) == e ==> EndsWith(trials, k, e)
  {
    hide TrialAt;
    RetriedMeans(trials, k);
  }

  lemma EarlierTransient(c: Config, trials: seq<Trial>, n: nat)
    requires forall i :: 0 <= i < n ==> !Ends(c, trials, i)
    ensures AllTransient(trials, n)
  {
    hide TrialAt;
    forall i: nat | i < n
      ensures var a := TrialAt(trials, i).attempt;
        || (a.Answered? && (a.status == 429 || a.status >= 500))
        || (a.NetworkFailed? && DeadlineExceeded !in Chain(a.error) && Canceled !in Chain(a.error))
    {
      assert !Ends(c, trials, i);
      RetriedMeans(trials, i);
    }
  }

  /** A call does not end, without a panic, while attempts are transient. */
  lemma TransientGoesOn(c: Config, trials: seq<Trial>, n: nat, r: Result, k: nat)
    requires IsOutcome(c, trials, n, r) && r != Panicked && AllTransient(trials, k) && k <= c.maxAttempts
    ensures n >= k
    ensures k < c.maxAttempts && !Retried(TrialAt(trials, k).attempt) ==> n == k
  {
    hide TrialAt, Retried;
    if n < k {
      RetriedMeans(trials, n);
    }
    if k < n {
      assert !Ends(c, trials, k);
    }
  }

  // ----------------------------------------------------------------- the small pieces

  /** Unset fields, and only those, take the documented defaults: three attempts, half a
      second, four seconds. */
  lemma DefaultsFill(c: Config)
    ensures var d := WithDefaults(c);
      && (c.maxAttempts != 0 ==> d.maxAttempts == c.maxAttempts) && (c.maxAttempts == 0 ==> d.maxAttempts == 3)
      && (c.baseDelay != 0 ==> d.baseDelay == c.baseDelay) && (c.baseDelay == 0 ==> d.baseDelay == 500_000_000)
      && (c.maxDelay != 0 ==> d.maxDelay == c.maxDelay) && (c.maxDelay == 0 ==> d.maxDelay == 4_000_000_000)
  {
  }

  /** 64-bit wrap-around: the one value in range that differs by a multiple of 2^64. */
  lemma WrapsAround(x: int)
    ensures -0x8000_0000_0000_0000 <= Wrap64(x) <= 0x7FFF_FFFF_FFFF_FFFF
    ensures (Wrap64(x) - x) % 0x1_0000_0000_0000_0000 == 0
  {
  }

  /** A bound can be drawn from exactly when one more is a positive 64-bit number; every
      wait up to the bound can come out. */
  lemma DrawsAll(bound: int, wait: int)
    requires -0x8000_0000_0000_0000 <= bound <= 0x7FFF_FFFF_FFFF_FFFF
    ensures CanDraw(bound) <==> Wrap64(bound + 1) > 0
    ensures 0 <= wait <= bound ==> Jittered(wait, bound) == wait
  {
    hide Jittered;
    if 0 <= wait <= bound {
      DrawsIt(bound, wait);
    }
  }

  lemma DrawsIt(bound: nat, wait: nat)
    requires wait <= bound
    ensures Jittered(wait, bound) == wait
  {
  }

  // ------------------------------------------------------------ the backoff in closed form

  function Pow2(j: nat): nat {
    if j == 0 then 1 else 2 * Pow2(j - 1)
  }

  // The delay doubling started from, and the doublings since.
  datatype Anchor = Anchor(from: int, doublings: nat)

  function AnchorAt(c: Config, trials: seq<Trial>, k: nat): Anchor {
    if k == 0 then Anchor(c.baseDelay, 0)
    else
      var a := AnchorAt(c, trials, k - 1);
      match TrialAt(trials, k - 1).attempt
      case Answered(_, retryAfter) =>
        (match ParseRetryAfter(retryAfter)
         case Some(secs) => Anchor(Min(c.maxDelay, secs * SECOND), 0)
         case None => Anchor(a.from, a.doublings + 1))
      case _ => Anchor(a.from, a.doublings + 1)
  }

  /** No duration computed from the configuration or from an answer leaves 64 bits. */
  ghost predicate NoOverflow(c: Config, trials: seq<Trial>, k: nat) {
    && 0 <= 2 * c.baseDelay <= MAX_INT64 && 0 <= 2 * c.maxDelay <= MAX_INT64
    && forall i :: 0 <= i < k && TrialAt(trials, i).attempt.Answered? ==>
         var secs := ParseRetryAfter(TrialAt(trials, i).attempt.retryAfter);
         secs.Some? ==> secs.value * SECOND <= MAX_INT64
  }

  lemma Wrap64Fits(x: int)
    requires 0 <= x <= MAX_INT64
    ensures Wrap64(x) == x
  {
  }

  lemma DoublingMin(m: int, d: int, j: nat)
    requires m >= 0 && d >= 0
    ensures Min(m, 2 * Min(m, d * Pow2(j))) == Min(m, d * Pow2(j + 1))
  {
    assert d * Pow2(j + 1) == 2 * (d * Pow2(j));
    assert d * Pow2(j) >= 0;
  }

  lemma SmallPowers(d: int)
    ensures d * Pow2(0) == d && d * Pow2(1) == 2 * d
  {
    assert Pow2(1) == 2;
  }

  /** The bound before a retry is the starting delay doubled once per failure since, capped:
      the start being the base delay or the latest Retry-After. */
  lemma {:induction false} BackoffClosedForm(c: Config, trials: seq<Trial>, k: nat)
    requires k >= 1 && NoOverflow(c, trials, k)
    ensures var a := AnchorAt(c, trials, k);
      && a.from >= 0
      && DelayAfter(c, trials, k) == Min(c.maxDelay, a.from * Pow2(a.doublings))
      && 0 <= DelayAfter(c, trials, k) <= c.maxDelay
  {
    hide ParseRetryAfter, Wrap64, Pow2, TrialAt;
    var t := TrialAt(trials, k - 1).attempt;
    var a := AnchorAt(c, trials, k - 1);
    SmallPowers(a.from);
    if k > 1 {
      BackoffClosedForm(c, trials, k - 1);
    }
    if t.Answered? && ParseRetryAfter(t.retryAfter).Some? {
      var asked := ParseRetryAfter(t.retryAfter).value * SECOND;
      Wrap64Fits(asked);
      SmallPowers(Min(c.maxDelay, asked));
    } else {
      Wrap64Fits(DelayAfter(c, trials, k - 1) * 2);
      DoublingMin(c.maxDelay, a.from, a.doublings);
    }
  }

  function Sum(s: seq<int>): int {
    if s == [] then 0 else Sum(s[..|s| - 1]) + s[|s| - 1]
  }

  lemma {:induction false} SumBound(s: seq<int>, max: int)
    requires forall i :: 0 <= i < |s| ==> 0 <= s[i] <= max
    ensures 0 <= Sum(s) <= |s| * max
  {
    if s != [] {
      SumBound(s[..|s| - 1], max);
      assert |s| * max == (|s| - 1) * max + max;
    }
  }

  /** A call never panics without an overflow: each of its bounds lies within the maximum,
      and its waits add up to at most one maximum for every attempt but the first. */
  lemma TotalWait(config: Config, trials: seq<Trial>, n: nat, r: Result, bounds: seq<int>, sleeps: seq<int>)
    requires IsOutcome(WithDefaults(config), trials, n, r)
    requires AreWaits(WithDefaults(config), trials, n, r, bounds, sleeps)
    requires NoOverflow(WithDefaults(config), trials, n) && config.maxAttempts >= 0
    ensures r != Panicked
    ensures var c := WithDefaults(config);
      && (forall i :: 0 <= i < |bounds| ==> 0 <= bounds[i] <= c.maxDelay)
      && 0 <= Sum(sleeps) <= (c.maxAttempts - 1) * c.maxDelay
  {
    var c := WithDefaults(config);
    if n > 0 {
      BackoffClosedForm(c, trials, n);
    }
    forall i | 0 <= i < |bounds| ensures 0 <= bounds[i] <= c.maxDelay {
      NoOverflowPrefix(c, trials, n, i + 1);
      BackoffClosedForm(c, trials, i + 1);
    }
    SumBound(sleeps, c.maxDelay);
    MultiplyMonotone(|sleeps|, c.maxAttempts - 1, c.maxDelay);
  }

  lemma NoOverflowPrefix(c: Config, trials: seq<Trial>, n: nat, k: nat)
    requires NoOverflow(c, trials, n) && k <= n
    ensures NoOverflow(c, trials, k)
  {
  }

  // --------------------------------------------------------- Retry-After that overflows

  /** The wait asked for is honoured up to the maximum exactly when the product in
      nanoseconds fits 64 bits, or happens to wrap to at least the maximum. */
  lemma RetryAfterHonoured(secs: nat, max: int)
    requires 0 <= max <= MAX_INT64
    ensures RetryAfterDelay(secs, max) == Min(max, secs * SECOND)
            <==> secs * SECOND <= MAX_INT64 || Wrap64(secs * SECOND) >= max
  {
    if secs * SECOND <= MAX_INT64 {
      Wrap64Fits(secs * SECOND);
    }
  }

  predicate InRange(c: Config, trials: seq<Trial>, i: nat) {
    0 <= DelayAfter(c, trials, i) <= c.maxDelay
  }

  lemma NextInRange(c: Config, trials: seq<Trial>, i: nat)
    requires 0 <= 2 * c.baseDelay <= MAX_INT64 && 0 <= 2 * c.maxDelay <= MAX_INT64
    requires i == 0 || InRange(c, trials, i)
    ensures InRange(c, trials, i + 1) <==> !NegativeWait(TrialAt(trials, i).attempt)
  {
    hide ParseRetryAfter, Wrap64, TrialAt;
    Wrap64Fits(DelayAfter(c, trials, i) * 2);
  }

  /** With configured delays that can be doubled, every bound lies within the maximum
      exactly when no Retry-After received on the way wraps to a negative duration. */
  lemma {:induction false} BoundsStayInRange(c: Config, trials: seq<Trial>, k: nat)
    requires 0 <= 2 * c.baseDelay <= MAX_INT64 && 0 <= 2 * c.maxDelay <= MAX_INT64
    ensures (forall i: nat :: 1 <= i <= k ==> InRange(c, trials, i))
            <==> (forall i: nat :: i < k ==> !NegativeWait(TrialAt(trials, i).attempt))
  {
    hide InRange, NegativeWait, TrialAt;
    if k > 0 {
      BoundsStayInRange(c, trials, k - 1);
      if k == 1 || InRange(c, trials, k - 1) {
        NextInRange(c, trials, k - 1);
      }
    }
  }

  /** The server asked for a number of seconds that wraps to a negative duration. */
  predicate NegativeWait(a: Attempt) {
    a.Answered? && ParseRetryAfter(a.retryAfter).Some? && Wrap64(ParseRetryAfter(a.retryAfter).value * SECOND) < 0
  }

  /** The first k attempts fail, and of them only the last asks for a wait that wraps to a
      negative duration. */
  predicate AsksNegative(trials: seq<Trial>, k: nat)
    requires k > 0
  {
    && (forall i :: 0 <= i < k ==> Retried(TrialAt(trials, i).attempt))
    && (forall i :: 0 <= i < k - 1 ==> !NegativeWait(TrialAt(trials, i).attempt))
    && NegativeWait(TrialAt(trials, k - 1).attempt)
  }

  /** A call panics exactly when its answers ask for a negative wait while another attempt
      is allowed. */
  lemma PanicsOnNegativeWait(c: Config, trials: seq<Trial>, n: nat, r: Result)
    requires IsOutcome(c, trials, n, r)
    requires 0 <= 2 * c.baseDelay <= MAX_INT64 && 0 <= 2 * c.maxDelay <= MAX_INT64
    ensures r == Panicked <==> exists k :: 0 < k < c.maxAttempts && AsksNegative(trials, k)
  {
    hide NegativeWait, Retried, Stuck, TrialAt;
    PanicsAfterNegativeWait(c, trials, n, r);
    if r == Panicked {
      forall i | 0 <= i < n
        ensures Retried(TrialAt(trials, i).attempt) && (i < n - 1 ==> !NegativeWait(TrialAt(trials, i).attempt))
      {
        assert !Ends(c, trials, i);
        NegativeIsStuck(c, trials, i + 1);
        assert i < n - 1 ==> !Ends(c, trials, i + 1);
      }
      assert AsksNegative(trials, n);
    }
    if k :| 0 < k < c.maxAttempts && AsksNegative(trials, k) {
      NegativeIsStuck(c, trials, k);
      BoundsStayInRange(c, trials, k - 1);
      NotStuckBefore(c, trials, k);
      assert n > k ==> !Ends(c, trials, k);
    }
  }

  lemma NotStuckBefore(c: Config, trials: seq<Trial>, k: nat)
    requires 0 <= 2 * c.maxDelay <= MAX_INT64 && 0 < k < c.maxAttempts && AsksNegative(trials, k)
    requires forall i: nat :: 1 <= i <= k - 1 ==> InRange(c, trials, i)
    ensures forall n: nat :: n < k ==> !Ends(c, trials, n)
  {
    hide NegativeWait, Retried, TrialAt, DelayAfter;
    forall n: nat | n < k ensures !Ends(c, trials, n) {
      if n > 0 {
        assert InRange(c, trials, n);
        NegativeIsStuck(c, trials, n);
      }
    }
  }

  lemma PanicsAfterNegativeWait(c: Config, trials: seq<Trial>, n: nat, r: Result)
    requires IsOutcome(c, trials, n, r)
    requires 0 <= 2 * c.baseDelay <= MAX_INT64 && 0 <= 2 * c.maxDelay <= MAX_INT64
    ensures r == Panicked <==> 0 < n < c.maxAttempts && NegativeWait(TrialAt(trials, n - 1).attempt)
  {
    hide ParseRetryAfter, Wrap64, DelayAfter, TrialAt;
    if 0 < n {
      if n > 1 {
        forall i | 0 <= i <= n - 1 ensures !Stuck(c, trials, i) {
          assert !Ends(c, trials, i);
        }
        EarlierInRange(c, trials, n - 1);
      }
      NextInRange(c, trials, n - 1);
      NegativeIsStuck(c, trials, n);
    }
  }

  /** Bounds that were drawn from lie within the maximum. */
  lemma {:induction false} EarlierInRange(c: Config, trials: seq<Trial>, k: nat)
    requires 0 <= 2 * c.baseDelay <= MAX_INT64 && 0 <= 2 * c.maxDelay <= MAX_INT64
    requires k > 0 && forall i :: 0 <= i <= k ==> !Stuck(c, trials, i)
    ensures InRange(c, trials, k)
  {
    hide ParseRetryAfter, Wrap64, DelayAfter, TrialAt;
    if k > 1 {
      EarlierInRange(c, trials, k - 1);
    }
    NextInRange(c, trials, k - 1);
    NegativeIsStuck(c, trials, k);
  }

  lemma NegativeIsStuck(c: Config, trials: seq<Trial>, k: nat)
    requires k > 0 && 0 <= 2 * c.maxDelay <= MAX_INT64
    ensures NegativeWait(TrialAt(trials, k - 1).attempt) ==> Stuck(c, trials, k)
    ensures InRange(c, trials, k) ==> !Stuck(c, trials, k)
  {
    hide ParseRetryAfter, Wrap64, TrialAt;
  }

  /** 9223372037 seconds wrap to a negative duration, and the next draw panics. */
  lemma OverflowingRetryAfterPanics(config: Config)
    requires config.maxAttempts == 0 || config.maxAttempts >= 2
    requires config.maxDelay >= 0
    ensures var trials := [Trial(0, Answered(503, Decimal(9_223_372_037)))];
      IsOutcome(WithDefaults(config), trials, 1, Panicked)
  {
    hide Decimal, ParseRetryAfter;
    var header := Decimal(9_223_372_037);
    var c, trials := WithDefaults(config), [Trial(0, Answered(503, header))];
    RetryAfterRoundTrip(9_223_372_037);
    assert Wrap64(9_223_372_037 * SECOND) < 0;
    assert DelayAfter(c, trials, 0) == c.baseDelay;
    assert DelayAfter(c, trials, 1) == RetryAfterDelay(9_223_372_037, c.maxDelay);
    assert !Ends(c, trials, 0);
  }

  /** How a call ends, on its answers alone, when none of them asks for a negative wait: with
      the first good answer, the first error that ends it, or what the last attempt left
      behind; network errors and overloaded servers are tried again. */
  lemma EndsAsAnswered(c: Config, trials: seq<Trial>, n: nat, r: Result)
    requires IsOutcome(c, trials, n, r)
    requires 0 <= 2 * c.baseDelay <= MAX_INT64 && 0 <= 2 * c.maxDelay <= MAX_INT64
    requires forall i: nat :: i < c.maxAttempts - 1 ==> !NegativeWait(TrialAt(trials, i).attempt)
    ensures r != Panicked
    ensures forall status :: r == Response(status) <==>
              exists k :: 0 <= k < c.maxAttempts && AnsweredAt(trials, k, status) && status < 500 && status != 429
                          && AllTransient(trials, k)
    ensures forall e :: r == Failed(e) <==>
              || (exists k :: 0 <= k < c.maxAttempts && EndsWith(trials, k, e) && AllTransient(trials, k))
              || (c.maxAttempts > 0 && AllTransient(trials, c.maxAttempts) && LeavesBehind(trials, c.maxAttempts - 1, e))
  {
    hide IsOutcome, NegativeWait, AnsweredAt, EndsWith, AllTransient, LeavesBehind, TrialAt;
    PanicsAfterNegativeWait(c, trials, n, r);
    forall status
      ensures r == Response(status) <==>
              exists k :: 0 <= k < c.maxAttempts && AnsweredAt(trials, k, status) && status < 500 && status != 429
                          && AllTransient(trials, k)
    {
      RespondsWhen(c, trials, n, r, status);
    }
    forall e
      ensures r == Failed(e) <==>
              || (exists k :: 0 <= k < c.maxAttempts && EndsWith(trials, k, e) && AllTransient(trials, k))
              || (c.maxAttempts > 0 && AllTransient(trials, c.maxAttempts) && LeavesBehind(trials, c.maxAttempts - 1, e))
    {
      FailsWhen(c, trials, n, r, e);
    }
  }

  // ------------------------------------------------------------- the seconds form

  function Digit(d: nat): char
    requires d < 10
  {
    d as char + '0'
  }

  function Decimal(n: nat): string {
    if n < 10 then [Digit(n)] else Decimal(n / 10) + [Digit(n % 10)]
  }

  lemma DigitsSnoc(s: string, d: char)
    requires '0' <= d <= '9' && forall i :: 0 <= i < |s| ==> '0' <= s[i] <= '9'
    ensures AllDigits(s + [d]) && DigitsValue(s + [d]) == DigitsValue(s) * 10 + (d as int - '0' as int)
  {
    var t := s + [d];
    assert AllDigits(t);
    hide AllDigits;
    assert DigitsValue(t) == DigitsValue(t[..|t| - 1]) * 10 + (t[|t| - 1] as int - '0' as int);
    hide DigitsValue;
    assert t[..|t| - 1] == s;
  }

  lemma {:induction false} DecimalDigits(n: nat)
    ensures AllDigits(Decimal(n)) && DigitsValue(Decimal(n)) == n
  {
    if n < 10 {
      DigitsSnoc("", Digit(n));
      assert "" + [Digit(n)] == [Digit(n)];
    } else {
      DecimalDigits(n / 10);
      DigitsSnoc(Decimal(n / 10), Digit(n % 10));
    }
  }

  /** Anything but an optional sign and digits is no number of seconds, and leading zeros
      do not count. */
  lemma RetryAfterOther(s: string, i: nat)
    requires i < |s|
    ensures !('0' <= s[i] <= '9') && (i > 0 || (s[0] != '+' && s[0] != '-')) ==> ParseRetryAfter(s) == None
    ensures ParseRetryAfter("+") == None && ParseRetryAfter("-") == None
    ensures AllDigits(s) ==> ParseRetryAfter("0" + s) == ParseRetryAfter(s)
  {
    if s[0] == '+' || s[0] == '-' {
      assert i > 0 ==> s[1..][i - 1] == s[i];
    }
    if AllDigits(s) {
      LeadingZero(s);
    }
  }

  lemma {:induction false} LeadingZero(s: string)
    requires forall i :: 0 <= i < |s| ==> '0' <= s[i] <= '9'
    ensures DigitsValue("0" + s) == DigitsValue(s)
  {
    if s != "" {
      var n := |s| - 1;
      assert ("0" + s)[..n + 1] == "0" + s[..n];
      LeadingZero(s[..n]);
    } else {
      assert "0"[..0] == "";
      assert "0" + s == "0";
    }
  }

  /** A written number of seconds is read back, with or without a plus sign, as long as it
      fits 64 bits; a negative one is not a wait. */
  lemma RetryAfterRoundTrip(n: nat)
    ensures ParseRetryAfter(Decimal(n)) == if n <= MAX_INT64 then Some(n) else None
    ensures ParseRetryAfter("+" + Decimal(n)) == if n <= MAX_INT64 then Some(n) else None
    ensures ParseRetryAfter("-" + Decimal(n)) == if n == 0 then Some(0) else None
    ensures ParseRetryAfter("") == None
  {
    hide Decimal, DigitsValue;
    DecimalDigits(n);
    var s := Decimal(n);
    assert '0' <= s[0] <= '9';
    assert ("+" + s)[1..] == s && ("-" + s)[1..] == s;
  }
}
