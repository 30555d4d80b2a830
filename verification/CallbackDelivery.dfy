/** Delivery of one signed body with retries, against every behaviour of the network,
    the clock, the random source, the sleep and the abort signal. */
module CallbackDelivery {
  import opened Wrappers
  import opened Text
  import opened RetryAfter

  datatype Config = Config(maxAttempts: int, initialDelayMs: int, maxDelayMs: int, jitterRatio: real, maxResponseBytes: int)
  {
    /** What the configuration check lets through. */
    predicate Valid() {
      maxAttempts >= 1 && 1 <= initialDelayMs <= maxDelayMs && 0.0 <= jitterRatio <= 1.0
    }
  }

  datatype Message = Message(rawBody: string, keyId: string, secret: string)

  /** One HTTP request. */
  datatype Post = Post(keyId: string, timestamp: string, deliveryId: string, signature: string, body: string)

  /** `contentLength` is the header when it is a finite number; the body is read in
      chunks of the given sizes, and reading may fail after the last of them. */
  datatype Body = Body(chunks: seq<nat>, fails: bool)
  datatype Response = Response(status: int, contentLength: Option<real>, body: Option<Body>, retryAfter: Option<string>)

  datatype Exchange = Responded(response: Response) | RequestFailed

  /** What the world does during one attempt. `slept` says whether the wait after a
      retryable response, and the wait after a failure, ran to the end. */
  datatype Round = Round(abortedAtTop: bool, nowMs: int, exchange: Exchange, timedOut: bool,
                         random: real, slept: bool, abortedOnFailure: bool,
                         randomAgain: real, sleptAgain: bool, abortedAfterSleep: bool)

  datatype Outcome =
    | Delivered(deliveryId: string, attempts: int, httpStatus: int)
    | NotDelivered(deliveryId: string, attempts: int, reason: string, status: Option<int>)

  // ---------------------------------------------------- responses and delays

  datatype Class = Success | Retry | DoNotRetry

  function Classify(status: int): Class {
    if 200 <= status <= 299 then Success
    else if status == 408 || status == 429 || 500 <= status <= 599 then Retry
    else DoNotRetry
  }

  function Total(sizes: seq<nat>): nat {
    if sizes == [] then 0 else Total(sizes[..|sizes| - 1]) + sizes[|sizes| - 1]
  }

  predicate Readable(response: Response, limit: int) {
    (response.contentLength.Some? ==> response.contentLength.value <= limit as real) &&
    (response.body.Some? ==>
      !response.body.value.fails && (response.body.value.chunks == [] || Total(response.body.value.chunks) <= limit))
  }

  lemma {:induction false} TotalGrows(sizes: seq<nat>, n: nat)
    requires n <= |sizes|
    ensures Total(sizes[..n]) <= Total(sizes)
    decreases |sizes|
  {
    if n < |sizes| {
      assert sizes[..|sizes| - 1][..n] == sizes[..n];
      TotalGrows(sizes[..|sizes| - 1], n);
    } else {
      assert sizes[..n] == sizes;
    }
  }

  /** `readLimitedResponse`: whether the whole body was read within the limit. */
  method ReadLimitedResponse(response: Response, limit: int) returns (ok: bool)
    ensures ok == Readable(response, limit)
  {
    if response.contentLength.Some? && response.contentLength.value > limit as real { return false; }
    if response.body.None? { return true; }
    var chunks := response.body.value.chunks;
    var size, i := 0, 0;
    while i < |chunks|
      invariant 0 <= i <= |chunks| && size == Total(chunks[..i])
      invariant i > 0 ==> size <= limit
    {
      assert chunks[..i + 1][..i] == chunks[..i];
      size := size + chunks[i];
      i := i + 1;
      if size > limit {
        TotalGrows(chunks, i);
        return false;
      }
    }
    assert chunks[..i] == chunks;
    return !response.body.value.fails;
  }

  function Min(a: real, b: real): real { if a <= b then a else b }

  function Pow2(n: nat): (r: nat)
    ensures r > 0
  {
    if n == 0 then 1 else 2 * Pow2(n - 1)
  }

  function Base(c: Config, attempt: nat): real
    requires attempt >= 1
  {
    Min(c.maxDelayMs as real, (c.initialDelayMs * Pow2(attempt - 1)) as real)
  }

  function Jittered(base: real, random: real, ratio: real): real {
    var factor := 1.0 + (random * 2.0 - 1.0) * ratio;
    base * factor
  }

  function BackoffDelay(c: Config, attempt: nat, random: real): real
    requires attempt >= 1
  {
    var rounded := (Jittered(Base(c, attempt), random, c.jitterRatio) + 0.5).Floor as real;
    var capped := Min(c.maxDelayMs as real, rounded);
    if capped < 0.0 then 0.0 else capped
  }

  /** Whatever the random source returns, the delay is between zero and the maximum. */
  lemma BackoffInRange(c: Config, attempt: nat, random: real)
    requires attempt >= 1 && c.maxDelayMs >= 0
    ensures 0.0 <= BackoffDelay(c, attempt, random) <= c.maxDelayMs as real
  {
  }

  /** From the middle of the random range the delay is the doubling base itself. */
  lemma BackoffInTheMiddle(c: Config, attempt: nat, random: real)
    requires attempt >= 1 && c.maxDelayMs >= 0 && c.initialDelayMs >= 0 && random == 0.5
    ensures BackoffDelay(c, attempt, random) == Base(c, attempt)
  {
    var delay := WholeBase(c, attempt);
    NoJitter(Base(c, attempt), random, c.jitterRatio);
    assert (delay as real + 0.5).Floor == delay;
  }

  lemma WholeBase(c: Config, attempt: nat) returns (delay: int)
    requires attempt >= 1 && c.maxDelayMs >= 0 && c.initialDelayMs >= 0
    ensures Base(c, attempt) == delay as real && 0 <= delay <= c.maxDelayMs
  {
    var doubled := c.initialDelayMs * Pow2(attempt - 1);
    assert doubled >= 0;
    delay := if c.maxDelayMs <= doubled then c.maxDelayMs else doubled;
  }

  lemma NoJitter(base: real, random: real, ratio: real)
    requires random == 0.5
    ensures Jittered(base, random, ratio) == base
  {
    assert random * 2.0 - 1.0 == 0.0;
    assert (random * 2.0 - 1.0) * ratio == 0.0;
  }

  /** The wait after a retryable response: what the server asked for, up to the maximum. */
  function RetryDelay(c: Config, attempt: nat, retryAfter: Option<string>, random: real): real
    requires attempt >= 1
  {
    var seconds := ParseDeltaSeconds(retryAfter, c.maxDelayMs as real / 1000.0);
    if seconds.None? then BackoffDelay(c, attempt, random) else seconds.value * 1000.0
  }

  lemma RetryInRange(c: Config, attempt: nat, retryAfter: Option<string>, random: real)
    requires attempt >= 1 && c.maxDelayMs >= 0
    ensures 0.0 <= RetryDelay(c, attempt, retryAfter, random) <= c.maxDelayMs as real
  {
    hide ParseDeltaSeconds, BackoffDelay;
    BackoffInRange(c, attempt, random);
    DeltaExactly(retryAfter, c.maxDelayMs as real / 1000.0);
  }

  // ----------------------------------------------------------- one attempt

  /** How an attempt ends: with an outcome, or with another attempt. */
  function Judge(c: Config, id: string, attempt: nat, r: Round): Option<Outcome> {
    if r.abortedAtTop then Some(NotDelivered(id, attempt - 1, "worker-shutdown", None))
    else if r.exchange.RequestFailed? then AfterFailure(c, id, attempt, r)
    else
      var status := r.exchange.response.status;
      if !Readable(r.exchange.response, c.maxResponseBytes) then
        Some(NotDelivered(id, attempt, "response-too-large", Some(status)))
      else match Classify(status)
        case Success => Some(Delivered(id, attempt, status))
        case DoNotRetry => Some(NotDelivered(id, attempt, "non-retryable-http-status", Some(status)))
        case Retry =>
          if attempt == c.maxAttempts then Some(NotDelivered(id, attempt, "retryable-http-status", Some(status)))
          else if r.slept then None
          else AfterFailure(c, id, attempt, r)
  }

  function AfterFailure(c: Config, id: string, attempt: nat, r: Round): Option<Outcome> {
    if r.abortedOnFailure then Some(NotDelivered(id, attempt, "worker-shutdown", None))
    else if attempt == c.maxAttempts then
      Some(NotDelivered(id, attempt, if r.timedOut then "request-timeout" else "network-error", None))
    else if r.sleptAgain then None
    else Some(NotDelivered(id, attempt, if r.abortedAfterSleep then "worker-shutdown" else "backoff-failed", None))
  }

  /** The attempt got a readable response that asks for a retry. */
  predicate Retryable(c: Config, r: Round) {
    !r.abortedAtTop && r.exchange.Responded? && Readable(r.exchange.response, c.maxResponseBytes) &&
    Classify(r.exchange.response.status).Retry?
  }

  /** The waits that an attempt asks for. */
  function Waits(c: Config, attempt: nat, r: Round): seq<real>
    requires attempt >= 1
  {
    if attempt == c.maxAttempts then []
    else if Retryable(c, r) then
      [RetryDelay(c, attempt, r.exchange.response.retryAfter, r.random)] +
      if r.slept || r.abortedOnFailure then [] else [BackoffDelay(c, attempt, r.randomAgain)]
    else if !r.abortedAtTop && r.exchange.RequestFailed? && !r.abortedOnFailure then [BackoffDelay(c, attempt, r.randomAgain)]
    else []
  }

  function Timestamp(nowMs: int): string { IntText(nowMs / 1000) }

  function PostOf(m: Message, sign: (string, string, string, string) -> string, id: string, r: Round): Post {
    var timestamp := Timestamp(r.nowMs);
    Post(m.keyId, timestamp, id, sign(m.secret, timestamp, id, m.rawBody), m.rawBody)
  }

  // --------------------------------------------------------------- the loop

  /** Attempts before `n` all led to another one. */
  ghost predicate Reached(c: Config, id: string, env: nat -> Round, n: nat) {
    forall k :: 1 <= k < n ==> Judge(c, id, k, env(k)).None?
  }

  /** The attempt that settles the delivery. */
  ghost predicate Settles(c: Config, id: string, env: nat -> Round, n: nat) {
    1 <= n <= c.maxAttempts && Reached(c, id, env, n) && Judge(c, id, n, env(n)).Some?
  }

  function Posts(m: Message, sign: (string, string, string, string) -> string, id: string, env: nat -> Round, n: nat): seq<Post> {
    if n == 0 then [] else Posts(m, sign, id, env, n - 1) + [PostOf(m, sign, id, env(n))]
  }

  function AllWaits(c: Config, env: nat -> Round, n: nat): seq<real> {
    if n == 0 then [] else AllWaits(c, env, n - 1) + Waits(c, n, env(n))
  }

  /** Requests made when attempt `n` settles: none in an attempt that found the signal aborted. */
  function Requests(env: nat -> Round, n: nat): nat
    requires n >= 1
  {
    if env(n).abortedAtTop then n - 1 else n
  }

  /** No two attempts settle one delivery. */
  lemma OneAttemptSettles(c: Config, id: string, env: nat -> Round, n: nat, m: nat)
    requires Settles(c, id, env, n) && Settles(c, id, env, m)
    ensures n == m
  {
  }

  /** The books at the end of the attempt that settles. */
  lemma Ends(c: Config, id: string, env: nat -> Round, n: nat, before: seq<real>, waits: seq<real>)
    requires 1 <= n <= c.maxAttempts && Reached(c, id, env, n) && Judge(c, id, n, env(n)).Some?
    requires before == AllWaits(c, env, n - 1) && waits == before + Waits(c, n, env(n))
    ensures waits == AllWaits(c, env, n) && Settles(c, id, env, n) && forall m :: Settles(c, id, env, m) ==> m == n
  {
    assert Settles(c, id, env, n);
    hide Settles;
    forall m | Settles(c, id, env, m) ensures m == n { OneAttemptSettles(c, id, env, n, m); }
  }

  lemma AllWaitsStep(c: Config, env: nat -> Round, n: nat)
    requires n >= 1
    ensures AllWaits(c, env, n) == AllWaits(c, env, n - 1) + Waits(c, n, env(n))
  {
  }

  lemma NoWaitsYet(c: Config, env: nat -> Round)
    ensures AllWaits(c, env, 0) == []
  {
  }

  lemma NoneSettles(c: Config, id: string, env: nat -> Round)
    requires c.maxAttempts < 1
    ensures forall n :: !Settles(c, id, env, n)
  {
  }

  /** `deliverSignedBody`: the outcome, the requests and the waits are those of the one
      attempt that settles. */
  method DeliverSignedBody(c: Config, m: Message, sign: (string, string, string, string) -> string,
                           deliveryId: string, env: nat -> Round)
    returns (outcome: Outcome, posts: seq<Post>, waits: seq<real>)
    ensures c.maxAttempts < 1 ==>
      outcome == NotDelivered(deliveryId, c.maxAttempts, "delivery-failed", None) && posts == [] && waits == []
    ensures c.maxAttempts >= 1 ==> exists n :: Settles(c, deliveryId, env, n)
    ensures forall n :: Settles(c, deliveryId, env, n) ==>
      outcome == Judge(c, deliveryId, n, env(n)).value &&
      posts == Posts(m, sign, deliveryId, env, Requests(env, n)) && waits == AllWaits(c, env, n)
  {
    hide Settles, AllWaits, Readable, Classify, BackoffDelay, RetryDelay, PostOf, Timestamp;
    NoWaitsYet(c, env);
    posts, waits := [], [];
    var lastStatus: Option<int> := None;
    var lastReason := "delivery-failed";
    var attempt: nat := 1;
    while attempt <= c.maxAttempts
      invariant 1 <= attempt <= c.maxAttempts || attempt == 1 > c.maxAttempts
      invariant attempt == 1 ==> lastStatus.None? && lastReason == "delivery-failed"
      invariant Reached(c, deliveryId, env, attempt)
      invariant posts == Posts(m, sign, deliveryId, env, attempt - 1) && waits == AllWaits(c, env, attempt - 1)
      decreases c.maxAttempts - attempt
    {
      var round := env(attempt);
      ghost var before := waits;
      AllWaitsStep(c, env, attempt);
      if round.abortedAtTop {
        outcome := NotDelivered(deliveryId, attempt - 1, "worker-shutdown", None);
        Ends(c, deliveryId, env, attempt, before, waits);
        return;
      }
      posts := posts + [PostOf(m, sign, deliveryId, round)];
      if round.exchange.Responded? {
        var response := round.exchange.response;
        lastStatus := Some(response.status);
        var ok := ReadLimitedResponse(response, c.maxResponseBytes);
        if !ok {
          lastReason := "response-too-large";
          outcome := NotDelivered(deliveryId, attempt, lastReason, Some(response.status));
          Ends(c, deliveryId, env, attempt, before, waits);
          return;
        }
        var kind := Classify(response.status);
        if kind.Success? {
          outcome := Delivered(deliveryId, attempt, response.status);
          Ends(c, deliveryId, env, attempt, before, waits);
          return;
        }
        lastReason := if kind.Retry? then "retryable-http-status" else "non-retryable-http-status";
        if kind.DoNotRetry? || attempt == c.maxAttempts {
          outcome := NotDelivered(deliveryId, attempt, lastReason, Some(response.status));
          Ends(c, deliveryId, env, attempt, before, waits);
          return;
        }
        waits := waits + [RetryDelay(c, attempt, response.retryAfter, round.random)];
        if round.slept {
          attempt := attempt + 1;
          continue;
        }
      }
      // The request failed, or the wait was cut short.
      if round.abortedOnFailure {
        outcome := NotDelivered(deliveryId, attempt, "worker-shutdown", None);
        Ends(c, deliveryId, env, attempt, before, waits);
        return;
      }
      lastReason := if round.timedOut then "request-timeout" else "network-error";
      if attempt == c.maxAttempts {
        outcome := NotDelivered(deliveryId, attempt, lastReason, None);
        Ends(c, deliveryId, env, attempt, before, waits);
        return;
      }
      waits := waits + [BackoffDelay(c, attempt, round.randomAgain)];
      assert waits == before + Waits(c, attempt, round);
      if !round.sleptAgain {
        outcome := NotDelivered(deliveryId, attempt, if round.abortedAfterSleep then "worker-shutdown" else "backoff-failed", None);
        Ends(c, deliveryId, env, attempt, before, waits);
        return;
      }
      attempt := attempt + 1;
    }
    outcome := NotDelivered(deliveryId, c.maxAttempts, lastReason, lastStatus);
    NoneSettles(c, deliveryId, env);
  }
}
