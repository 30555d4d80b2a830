/** What a delivery reports and how long it waits, in numbers: status codes, reasons,
    milliseconds, seconds. */
module CallbackOutcomes {
  import opened Wrappers
  import opened Text
  import opened RetryAfter
  import opened CallbackDelivery
  import opened CallbackRuns

  // ------------------------------------------------------------ responses

  /** Sizes are added up: the total of one size is that size, of two lists their sum. */
  lemma {:induction false} TotalExactly(a: seq<nat>, b: seq<nat>, size: nat)
    ensures Total([]) == 0 && Total([size]) == size && Total(a + b) == Total(a) + Total(b)
    decreases |b|
  {
    assert [size][..0] == [];
    if b == [] {
      assert a + b == a;
    } else {
      assert (a + b)[..|a + b| - 1] == a + b[..|b| - 1];
      TotalExactly(a, b[..|b| - 1], size);
    }
  }

  /** A response can be read exactly if its declared length is within the limit, reading
      does not fail, and no part of the body takes the size over the limit. */
  lemma ReadableExactly(response: Response, limit: int)
    ensures Readable(response, limit) <==>
      !(response.contentLength.Some? && response.contentLength.value > limit as real) &&
      (response.body.None? ||
        (!response.body.value.fails &&
         forall n :: 1 <= n <= |response.body.value.chunks| ==> Total(response.body.value.chunks[..n]) <= limit))
  {
    if response.body.Some? {
      var chunks := response.body.value.chunks;
      assert chunks[..|chunks|] == chunks;
      forall n | 1 <= n <= |chunks| ensures Total(chunks[..n]) <= Total(chunks) { TotalGrows(chunks, n); }
    }
  }

  /** The attempt got a response that could be read, with this status. */
  predicate Answered(c: Config, r: Round, status: int) {
    !r.abortedAtTop && r.exchange.Responded? && r.exchange.response.status == status && Readable(r.exchange.response, c.maxResponseBytes)
  }

  predicate Accepted(status: int) { 200 <= status < 300 }

  predicate Busy(status: int) { status in {408, 429} || 500 <= status < 600 }

  predicate AnsweredBusy(c: Config, r: Round) {
    r.exchange.Responded? && Busy(r.exchange.response.status) && Answered(c, r, r.exchange.response.status)
  }

  /** The attempt made a request that failed, or a wait after a busy answer that did. */
  predicate Failed(c: Config, k: nat, r: Round) {
    !r.abortedAtTop && (r.exchange.RequestFailed? || (AnsweredBusy(c, r) && k != c.maxAttempts && !r.slept))
  }

  /** What makes the loop go on: another attempt is allowed, and a busy server was waited
      for, or a failure, with no abort before the wait. */
  predicate GoesOn(c: Config, k: nat, r: Round) {
    k != c.maxAttempts && ((AnsweredBusy(c, r) && r.slept) || (Failed(c, k, r) && !r.abortedOnFailure && r.sleptAgain))
  }

  lemma JudgeGoesOn(c: Config, id: string, k: nat, r: Round)
    requires k >= 1
    ensures Judge(c, id, k, r).None? <==> GoesOn(c, k, r)
  {
    hide Readable;
  }

  /** The attempt that settles is the first one that does not go on. */
  lemma SettlesExactly(c: Config, id: string, env: nat -> Round, n: nat)
    ensures Settles(c, id, env, n) <==>
      1 <= n <= c.maxAttempts && !GoesOn(c, n, env(n)) && forall k :: 1 <= k < n ==> GoesOn(c, k, env(k))
  {
    hide Judge, GoesOn;
    forall k: nat | 1 <= k ensures Judge(c, id, k, env(k)).None? <==> GoesOn(c, k, env(k)) { JudgeGoesOn(c, id, k, env(k)); }
  }

  function Reason(o: Outcome): string { if o.NotDelivered? then o.reason else "" }

  function StatusOf(o: Outcome): Option<int> { if o.NotDelivered? then o.status else Some(o.httpStatus) }

  /** What is reported for the attempt that settles: delivered for a status of 200 to 299,
      and otherwise a reason. */
  lemma ReportedExactly(c: Config, id: string, env: nat -> Round, n: nat)
    requires Settles(c, id, env, n)
    ensures var o, r := Judge(c, id, n, env(n)).value, env(n);
      && o.deliveryId == id && o.attempts == (if r.abortedAtTop then n - 1 else n)
      && (o.Delivered? <==> r.exchange.Responded? && Answered(c, r, r.exchange.response.status) && Accepted(r.exchange.response.status))
      && (Reason(o) == "retryable-http-status" <==> AnsweredBusy(c, r) && n == c.maxAttempts)
      && (Reason(o) == "non-retryable-http-status" <==>
            r.exchange.Responded? && Answered(c, r, r.exchange.response.status)
            && !Accepted(r.exchange.response.status) && !Busy(r.exchange.response.status))
      && (Reason(o) == "response-too-large" <==>
            !r.abortedAtTop && r.exchange.Responded? && !Readable(r.exchange.response, c.maxResponseBytes))
      && (StatusOf(o) == if !r.abortedAtTop && r.exchange.Responded? && !Failed(c, n, r)
                         then Some(r.exchange.response.status) else None)
  {
    hide Readable;
    JudgeGoesOn(c, id, n, env(n));
  }

  /** What is reported for a failure: the shutdown if the signal was aborted, the kind of
      the failure at the last attempt, and a wait that failed before it. */
  lemma FailureReported(c: Config, id: string, env: nat -> Round, n: nat)
    requires Settles(c, id, env, n)
    ensures var o, r, failed := Judge(c, id, n, env(n)).value, env(n), Failed(c, n, env(n)) && !env(n).abortedOnFailure;
      && (Reason(o) == "worker-shutdown" <==>
            r.abortedAtTop || (Failed(c, n, r) && r.abortedOnFailure) || (failed && n != c.maxAttempts && r.abortedAfterSleep))
      && (Reason(o) == "request-timeout" <==> failed && n == c.maxAttempts && r.timedOut)
      && (Reason(o) == "network-error" <==> failed && n == c.maxAttempts && !r.timedOut)
      && (Reason(o) == "backoff-failed" <==> failed && n != c.maxAttempts && !r.abortedAfterSleep)
  {
    hide Readable;
    JudgeGoesOn(c, id, n, env(n));
  }

  // ---------------------------------------------------------------- waits

  /** The base of the delay: the initial delay, doubled for every further attempt, and
      never above the maximum. */
  lemma BaseDoubles(c: Config, k: nat)
    requires c.Valid() && k >= 1
    ensures Base(c, 1) == c.initialDelayMs as real
    ensures Base(c, k + 1) == if 2.0 * Base(c, k) <= c.maxDelayMs as real then 2.0 * Base(c, k) else c.maxDelayMs as real
  {
    var before := c.initialDelayMs * Pow2(k - 1);
    assert Pow2(k) == 2 * Pow2(k - 1);
    assert c.initialDelayMs * Pow2(k) == 2 * before;
  }

  /** `delay` is the whole number nearest to `exact`, a half being rounded up, with zero
      and the maximum as limits. */
  predicate Nearest(delay: int, exact: real, maximum: int) {
    && (exact >= maximum as real ==> delay == maximum)
    && (exact <= 0.0 ==> delay == 0)
    && (0.0 <= exact <= maximum as real ==> exact - 0.5 < delay as real <= exact + 0.5)
  }

  /** A whole number between zero and the maximum. */
  function Between(n: int, maximum: int): int { if maximum < n then maximum else if n < 0 then 0 else n }

  lemma BetweenIsNearest(n: int, exact: real, maximum: int)
    requires maximum >= 0 && n as real <= exact + 0.5 < n as real + 1.0
    ensures Nearest(Between(n, maximum), exact, maximum)
  {
    if exact >= maximum as real { assert n >= maximum; }
    if exact <= 0.0 { assert n <= 0; }
    if 0.0 <= exact <= maximum as real { assert 0 <= n <= maximum; }
  }

  lemma CappedIsBetween(n: int, maximum: int)
    requires maximum >= 0
    ensures var capped := Min(maximum as real, n as real);
      (if capped < 0.0 then 0.0 else capped) == Between(n, maximum) as real
  {
  }

  /** From zero to one, the random number scales the base from one jitter ratio below it
      to one above it. */
  lemma JitterEnds(base: real, random: real, ratio: real)
    ensures random == 0.0 ==> Jittered(base, random, ratio) == base - base * ratio
    ensures random == 1.0 ==> Jittered(base, random, ratio) == base + base * ratio
    ensures random == 0.5 ==> Jittered(base, random, ratio) == base
    ensures Jittered(base, random, ratio) - base == (2.0 * random - 1.0) * (base * ratio)
  {
    var x := 2.0 * random - 1.0;
    assert base * (1.0 + x * ratio) == base + base * (x * ratio);
    assert base * (x * ratio) == x * (base * ratio);
  }

  /** The delay is the base, scaled by chance and rounded within its limits. */
  lemma BackoffNearest(c: Config, k: nat, random: real) returns (delay: int)
    requires c.Valid() && k >= 1
    ensures BackoffDelay(c, k, random) == delay as real
    ensures Nearest(delay, Jittered(Base(c, k), random, c.jitterRatio), c.maxDelayMs)
  {
    hide Base, Nearest, Min, Jittered;
    var exact := Jittered(Base(c, k), random, c.jitterRatio);
    var n := (exact + 0.5).Floor;
    delay := Between(n, c.maxDelayMs);
    CappedIsBetween(n, c.maxDelayMs);
    BetweenIsNearest(n, exact, c.maxDelayMs);
  }

  /** The wait after a busy answer: as many seconds as the server asks for, in
      milliseconds, when that is not more than the whole seconds of the maximum; the
      maximum when it is; and the delay of the attempt when it asks for no number. */
  lemma AskedWait(c: Config, k: nat, retryAfter: Option<string>, random: real, most: int)
    requires c.Valid() && k >= 1
    requires 1000 * most <= c.maxDelayMs < 1000 * (most + 1) && most <= 9007199254740991
    ensures retryAfter.None? || retryAfter.value == "" || !AllDigits(retryAfter.value) ==>
      RetryDelay(c, k, retryAfter, random) == BackoffDelay(c, k, random)
    ensures retryAfter.Some? && retryAfter.value != "" && AllDigits(retryAfter.value) ==>
      RetryDelay(c, k, retryAfter, random) ==
        (if DigitsValue(retryAfter.value) <= most then (1000 * DigitsValue(retryAfter.value)) as real else c.maxDelayMs as real)
  {
    hide ParseDeltaSeconds, BackoffDelay;
    var maximum := c.maxDelayMs as real / 1000.0;
    DeltaExactly(retryAfter, maximum);
    assert maximum.Floor == most;
    assert Bounded(maximum) == most;
  }

  /** The bound of the comparison: the whole part of the maximum, and no more than the
      largest integer a `double` tells from its neighbours. */
  lemma BoundedExactly(maximum: real)
    ensures Bounded(maximum) <= 9007199254740991 && Bounded(maximum) as real <= maximum
    ensures Bounded(maximum) == 9007199254740991 || maximum < (Bounded(maximum) + 1) as real
  {
  }

  // ------------------------------------------------------------- requests

  /** Every request is stamped with the whole seconds of its own moment, and signed with
      them, the delivery's id and the caller's bytes. */
  lemma PostExactly(m: Message, sign: (string, string, string, string) -> string, id: string, env: nat -> Round, n: nat, k: nat)
    returns (seconds: int)
    requires k < n
    ensures |Posts(m, sign, id, env, n)| == n && 1000 * seconds <= env(k + 1).nowMs < 1000 * (seconds + 1)
    ensures Posts(m, sign, id, env, n)[k] == Post(m.keyId, IntText(seconds), id, sign(m.secret, IntText(seconds), id, m.rawBody), m.rawBody)
  {
    PostsAreAlike(m, sign, id, env, n);
    seconds := env(k + 1).nowMs / 1000;
    assert Carries(Posts(m, sign, id, env, n)[k], m, sign, id, env(k + 1).nowMs);
  }
}
