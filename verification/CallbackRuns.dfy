/** What a delivery may do over all its attempts. */
module CallbackRuns {
  import opened Wrappers
  import opened Text
  import opened RetryAfter
  import opened CallbackDelivery

  // ----------------------------------------------------------- the outcome

  /** An attempt that leads to another: a retryable response or a failure, then a
      wait that ran to its end, with no abort seen on the way. */
  predicate Passes(c: Config, r: Round) {
    !r.abortedAtTop && (Retryable(c, r) || r.exchange.RequestFailed?) &&
    ((Retryable(c, r) && r.slept) || (!r.abortedOnFailure && r.sleptAgain))
  }

  lemma PassesExactly(c: Config, id: string, k: nat, r: Round)
    requires k >= 1
    ensures Judge(c, id, k, r).None? <==> Passes(c, r) && k != c.maxAttempts
  {
  }

  /** With at least one attempt allowed, one of them settles the delivery: the code
      after the loop is never reached. */
  lemma {:induction false} SomeAttemptSettles(c: Config, id: string, env: nat -> Round, k: nat) returns (n: nat)
    requires 1 <= k <= c.maxAttempts && Reached(c, id, env, k)
    ensures Settles(c, id, env, n) && k <= n
    decreases c.maxAttempts - k
  {
    PassesExactly(c, id, k, env(k));
    if Judge(c, id, k, env(k)).Some? {
      n := k;
    } else {
      n := SomeAttemptSettles(c, id, env, k + 1);
    }
  }

  /** The body was accepted with this status at attempt `n`, and every earlier attempt
      got a retryable response or failed, and waited. */
  ghost predicate AcceptedAt(c: Config, env: nat -> Round, n: nat, status: int) {
    1 <= n <= c.maxAttempts && !env(n).abortedAtTop && env(n).exchange.Responded? &&
    env(n).exchange.response.status == status && 200 <= status <= 299 &&
    Readable(env(n).exchange.response, c.maxResponseBytes) &&
    forall k :: 1 <= k < n ==> Passes(c, env(k))
  }

  /** `delivered` is reported exactly for a 2xx response that could be read. */
  lemma DeliveredExactly(c: Config, id: string, env: nat -> Round, n: nat, status: int)
    ensures Settles(c, id, env, n) && Judge(c, id, n, env(n)) == Some(Delivered(id, n, status)) <==>
      AcceptedAt(c, env, n, status)
  {
    if AcceptedAt(c, env, n, status) {
      forall k | 1 <= k < n ensures Judge(c, id, k, env(k)).None? { PassesExactly(c, id, k, env(k)); }
    }
    if Settles(c, id, env, n) {
      forall k | 1 <= k < n ensures Passes(c, env(k)) { PassesExactly(c, id, k, env(k)); }
    }
  }

  /** The number of attempts that is reported is the number of requests made. */
  lemma AttemptsAreRequests(c: Config, m: Message, sign: (string, string, string, string) -> string,
                            id: string, env: nat -> Round, n: nat)
    requires Settles(c, id, env, n)
    ensures Judge(c, id, n, env(n)).value.attempts == |Posts(m, sign, id, env, Requests(env, n))|
    ensures |Posts(m, sign, id, env, Requests(env, n))| <= c.maxAttempts
    ensures Judge(c, id, n, env(n)).value.deliveryId == id
  {
    PostsAreAlike(m, sign, id, env, Requests(env, n));
  }

  predicate Carries(post: Post, m: Message, sign: (string, string, string, string) -> string, id: string, nowMs: int) {
    post.deliveryId == id && post.body == m.rawBody && post.keyId == m.keyId && post.timestamp == Timestamp(nowMs) &&
    post.signature == sign(m.secret, post.timestamp, id, m.rawBody)
  }

  /** All requests of a delivery carry one id and the caller's bytes, each signed for
      its own second. */
  lemma {:induction false} PostsAreAlike(m: Message, sign: (string, string, string, string) -> string,
                                         id: string, env: nat -> Round, n: nat)
    ensures |Posts(m, sign, id, env, n)| == n
    ensures forall k :: 0 <= k < n ==> Carries(Posts(m, sign, id, env, n)[k], m, sign, id, env(k + 1).nowMs)
  {
    if n > 0 { PostsAreAlike(m, sign, id, env, n - 1); }
  }

  /** Once an attempt finds the signal aborted, nothing more is sent: fewer than `k`
      requests are made if the abort is seen at the top of attempt `k`. */
  lemma NothingSentAfterAbort(c: Config, m: Message, sign: (string, string, string, string) -> string,
                              id: string, env: nat -> Round, n: nat, k: nat)
    requires Settles(c, id, env, n) && k >= 1 && env(k).abortedAtTop
    ensures n <= k && |Posts(m, sign, id, env, Requests(env, n))| < k
  {
    assert k < n ==> Judge(c, id, k, env(k)).None?;
    PostsAreAlike(m, sign, id, env, Requests(env, n));
  }

  /** A connection that fails within the limit, after a success status: the delivery is
      given up as too large. */
  lemma LostConnection(c: Config, id: string, status: int, r: Round)
    requires c.maxAttempts >= 1 && c.maxResponseBytes >= 0 && 200 <= status <= 299
    requires !r.abortedAtTop && r.exchange == Responded(Response(status, None, Some(Body([], true)), None))
    ensures Judge(c, id, 1, r) == Some(NotDelivered(id, 1, "response-too-large", Some(status)))
    ensures Settles(c, id, _ => r, 1)
  {
  }

  /** A body that cannot be read is never retried, whatever the status, and is always
      called too large: also when it is within the limit and the connection failed. */
  lemma UnreadableExactly(c: Config, id: string, env: nat -> Round, n: nat)
    requires Settles(c, id, env, n)
    ensures var outcome := Judge(c, id, n, env(n)).value;
      outcome.NotDelivered? && outcome.reason == "response-too-large" <==>
        !env(n).abortedAtTop && env(n).exchange.Responded? && !Readable(env(n).exchange.response, c.maxResponseBytes)
  {
  }

  // --------------------------------------------------------------- waiting

  function Sum(waits: seq<real>): real {
    if waits == [] then 0.0 else Sum(waits[..|waits| - 1]) + waits[|waits| - 1]
  }

  lemma {:induction false} SumConcat(a: seq<real>, b: seq<real>)
    ensures Sum(a + b) == Sum(a) + Sum(b)
  {
    if b == [] {
      assert a + b == a;
    } else {
      assert (a + b)[..|a + b| - 1] == a + b[..|b| - 1];
      SumConcat(a, b[..|b| - 1]);
    }
  }

  /** The wait after a response was cut short although the signal was not aborted. */
  predicate CutShort(c: Config, r: Round) {
    Retryable(c, r) && !r.slept && !r.abortedOnFailure
  }

  lemma WaitsOfOne(c: Config, k: nat, r: Round)
    requires k >= 1 && c.maxDelayMs >= 0
    ensures k == c.maxAttempts ==> Sum(Waits(c, k, r)) == 0.0
    ensures !CutShort(c, r) ==> Sum(Waits(c, k, r)) <= c.maxDelayMs as real
    ensures 0.0 <= Sum(Waits(c, k, r)) <= 2.0 * c.maxDelayMs as real
  {
    hide BackoffDelay, RetryDelay, Readable;
    BackoffInRange(c, k, r.randomAgain);
    if Retryable(c, r) {
      var first, again := RetryDelay(c, k, r.exchange.response.retryAfter, r.random), BackoffDelay(c, k, r.randomAgain);
      RetryInRange(c, k, r.exchange.response.retryAfter, r.random);
      SumConcat([first], [again]);
      assert Sum([first]) == first && Sum([again]) == again;
      assert [first] + [] == [first];
    } else {
      assert Sum([BackoffDelay(c, k, r.randomAgain)]) == BackoffDelay(c, k, r.randomAgain);
    }
  }

  /** A wait is cut short only by an abort, as the built-in sleep does it. */
  ghost predicate FaithfulSleep(c: Config, env: nat -> Round) {
    forall k :: !CutShort(c, env(k))
  }

  /** The sum of `n` equal waits. */
  function Times(n: nat, wait: real): real {
    if n == 0 then 0.0 else Times(n - 1, wait) + wait
  }

  lemma {:induction false} TimesIsProduct(n: nat, wait: real)
    ensures Times(n, wait) == n as real * wait
  {
    if n > 0 {
      TimesIsProduct(n - 1, wait);
      assert n as real * wait == (n - 1) as real * wait + wait;
    }
  }

  lemma {:induction false} TimesGrows(m: nat, n: nat, wait: real)
    requires m <= n && wait >= 0.0
    ensures Times(m, wait) <= Times(n, wait)
  {
    if m < n { TimesGrows(m, n - 1, wait); }
  }

  /** Attempts up to `n` that are not the last allowed one. */
  function NotLast(c: Config, n: nat): nat { if n == c.maxAttempts && n > 0 then n - 1 else n }

  lemma {:induction false} WaitsSoFar(c: Config, env: nat -> Round, n: nat)
    requires c.maxDelayMs >= 0 && n <= c.maxAttempts
    ensures Sum(AllWaits(c, env, n)) <= Times(NotLast(c, n), 2.0 * c.maxDelayMs as real)
    ensures FaithfulSleep(c, env) ==> Sum(AllWaits(c, env, n)) <= Times(NotLast(c, n), c.maxDelayMs as real)
  {
    hide Waits, CutShort;
    if n > 0 {
      WaitsSoFar(c, env, n - 1);
      WaitsOfOne(c, n, env(n));
      SumConcat(AllWaits(c, env, n - 1), Waits(c, n, env(n)));
    }
  }

  /** A delivery asks for at most one maximal delay between two attempts, if sleeping
      is cut short only by an abort, and for at most two otherwise. */
  lemma WaitingIsBounded(c: Config, id: string, env: nat -> Round, n: nat)
    requires c.maxDelayMs >= 0 && Settles(c, id, env, n)
    ensures FaithfulSleep(c, env) ==> Sum(AllWaits(c, env, n)) <= (c.maxAttempts - 1) as real * c.maxDelayMs as real
    ensures Sum(AllWaits(c, env, n)) <= (c.maxAttempts - 1) as real * (2.0 * c.maxDelayMs as real)
  {
    hide FaithfulSleep, Times, AllWaits, Sum, NotLast;
    var most, max := c.maxAttempts - 1, c.maxDelayMs as real;
    WaitsSoFar(c, env, n);
    NotLastBelow(c, n);
    TimesGrows(NotLast(c, n), most, max);
    TimesGrows(NotLast(c, n), most, 2.0 * max);
    TimesIsProduct(most, max);
    TimesIsProduct(most, 2.0 * max);
  }

  lemma NotLastBelow(c: Config, n: nat)
    requires 1 <= n <= c.maxAttempts
    ensures NotLast(c, n) <= c.maxAttempts - 1
  {
  }

  /** An attempt waits twice exactly when its wait after a response is cut short
      without an abort, and another attempt may follow. */
  lemma WaitsTwiceExactly(c: Config, k: nat, r: Round)
    requires k >= 1
    ensures |Waits(c, k, r)| <= 2
    ensures |Waits(c, k, r)| == 2 <==> k != c.maxAttempts && CutShort(c, r)
  {
    hide BackoffDelay, RetryDelay, Readable, Classify;
  }

  /** Which attempts' waits may be cut short without an abort: what a sleep promises. */
  ghost predicate Obeys(c: Config, env: nat -> Round, mayFail: nat -> bool) {
    forall k :: CutShort(c, env(k)) ==> mayFail(k)
  }

  /** One maximal delay between two attempts. */
  ghost predicate OneDelayEach(c: Config, env: nat -> Round, n: nat) {
    Sum(AllWaits(c, env, n)) <= (c.maxAttempts - 1) as real * c.maxDelayMs as real
  }

  /** A server that asks for more than the longest wait, while the waits that may be
      cut short are, although nobody aborts. */
  function BusyServer(c: Config, mayFail: nat -> bool, k: nat): Round
    requires c.maxDelayMs >= 0
  {
    Round(false, 0, Responded(Response(503, None, None, Some(Decimal(c.maxDelayMs)))), false,
          0.5, !mayFail(k), false, 0.5, true, false)
  }

  function Busy(c: Config, mayFail: nat -> bool): nat -> Round
    requires c.maxDelayMs >= 0
  {
    (k: nat) => BusyServer(c, mayFail, k)
  }

  lemma BusyRound(c: Config, mayFail: nat -> bool, id: string, k: nat)
    requires c.Valid() && 1 <= k < c.maxAttempts
    ensures Judge(c, id, k, BusyServer(c, mayFail, k)).None?
    ensures Sum(Waits(c, k, BusyServer(c, mayFail, k))) >= c.maxDelayMs as real + if mayFail(k) then 1.0 else 0.0
  {
    hide BackoffDelay, ParseDeltaSeconds;
    var max := c.maxDelayMs as real;
    DecimalValue(c.maxDelayMs);
    DeltaExactly(Some(Decimal(c.maxDelayMs)), max / 1000.0);
    BackoffInTheMiddle(c, k, 0.5);
    assert c.initialDelayMs * Pow2(k - 1) >= 1;
    var first, again := RetryDelay(c, k, Some(Decimal(c.maxDelayMs)), 0.5), BackoffDelay(c, k, 0.5);
    assert first == max && again >= 1.0;
    assert Waits(c, k, BusyServer(c, mayFail, k)) == if mayFail(k) then [first] + [again] else [first] + [];
    SumConcat([first], [again]);
    assert [first] + [] == [first];
    assert Sum([first]) == first && Sum([again]) == again;
  }

  /** How many of the first `n` attempts may fail to wait. */
  function Failures(mayFail: nat -> bool, n: nat): nat {
    if n == 0 then 0 else Failures(mayFail, n - 1) + if mayFail(n) then 1 else 0
  }

  lemma {:induction false} FailuresFound(mayFail: nat -> bool, n: nat, k: nat)
    requires 1 <= k <= n && mayFail(k)
    ensures Failures(mayFail, n) >= 1
  {
    if k < n { FailuresFound(mayFail, n - 1, k); }
  }

  /** Against the busy server every attempt waits as long as it may, and once more
      whenever its wait fails. */
  lemma {:induction false} WaitingTwice(c: Config, mayFail: nat -> bool, id: string, n: nat)
    requires c.Valid() && n < c.maxAttempts
    ensures Reached(c, id, Busy(c, mayFail), n + 1)
    ensures Sum(AllWaits(c, Busy(c, mayFail), n)) >= Times(n, c.maxDelayMs as real) + Failures(mayFail, n) as real
  {
    hide Waits, Judge, BusyServer;
    if n > 0 {
      WaitingTwice(c, mayFail, id, n - 1);
      BusyRound(c, mayFail, id, n);
      SumConcat(AllWaits(c, Busy(c, mayFail), n - 1), Waits(c, n, BusyServer(c, mayFail, n)));
    }
  }

  /** The bound of one maximal delay per retry holds whatever the server, the network,
      the clock, the random source and the signal do, exactly when no wait before the
      last attempt can be cut short without an abort. */
  lemma WaitingExactly(c: Config, mayFail: nat -> bool)
    requires c.Valid()
    ensures (forall id, env, n: nat :: Obeys(c, env, mayFail) && Settles(c, id, env, n) ==> OneDelayEach(c, env, n)) <==>
      forall k :: 1 <= k < c.maxAttempts ==> !mayFail(k)
  {
    hide Obeys, OneDelayEach, Settles, AllWaits, Sum;
    if k :| 1 <= k < c.maxAttempts && mayFail(k) {
      var env := Busy(c, mayFail);
      BusySettles(c, mayFail);
      BusyObeys(c, mayFail);
      BusyExceeds(c, mayFail, k);
      assert Obeys(c, env, mayFail) && Settles(c, "", env, c.maxAttempts) && !OneDelayEach(c, env, c.maxAttempts);
    } else {
      forall id, env, n: nat | Obeys(c, env, mayFail) && Settles(c, id, env, n) ensures OneDelayEach(c, env, n) {
        ObedientWaits(c, mayFail, id, env, n);
      }
    }
  }

  /** In particular a sleep that may fail at any time keeps the bound only where there
      is no retry. */
  lemma WaitingAnyhow(c: Config)
    requires c.Valid()
    ensures (forall id, env, n: nat :: Settles(c, id, env, n) ==> OneDelayEach(c, env, n)) <==> c.maxAttempts == 1
  {
    hide Settles, OneDelayEach;
    var any: nat -> bool := (k: nat) => true;
    WaitingExactly(c, any);
    assert any(1);
    forall id, env, n: nat | c.maxAttempts == 1 && Settles(c, id, env, n) ensures OneDelayEach(c, env, n) {
      assert Obeys(c, env, any);
    }
  }

  lemma BusyObeys(c: Config, mayFail: nat -> bool)
    requires c.maxDelayMs >= 0
    ensures Obeys(c, Busy(c, mayFail), mayFail)
  {
  }

  lemma BusySettles(c: Config, mayFail: nat -> bool)
    requires c.Valid()
    ensures Settles(c, "", Busy(c, mayFail), c.maxAttempts)
  {
    hide Judge, BusyServer;
    var env := Busy(c, mayFail);
    WaitingTwice(c, mayFail, "", c.maxAttempts - 1);
    PassesExactly(c, "", c.maxAttempts, env(c.maxAttempts));
  }

  lemma BusyExceeds(c: Config, mayFail: nat -> bool, k: nat)
    requires c.Valid() && 1 <= k < c.maxAttempts && mayFail(k)
    ensures !OneDelayEach(c, Busy(c, mayFail), c.maxAttempts)
  {
    hide Waits, BusyServer;
    var most, env := c.maxAttempts - 1, Busy(c, mayFail);
    WaitingTwice(c, mayFail, "", most);
    FailuresFound(mayFail, most, k);
    TimesIsProduct(most, c.maxDelayMs as real);
    NoWaitsAtTheEnd(c, c.maxAttempts, env(c.maxAttempts));
    assert AllWaits(c, env, most) + [] == AllWaits(c, env, most);
  }

  lemma NoWaitsAtTheEnd(c: Config, k: nat, r: Round)
    requires k >= 1 && k == c.maxAttempts
    ensures Waits(c, k, r) == []
  {
  }

  lemma {:induction false} ObedientSoFar(c: Config, mayFail: nat -> bool, env: nat -> Round, n: nat)
    requires c.maxDelayMs >= 0 && n <= c.maxAttempts && Obeys(c, env, mayFail)
    requires forall k :: 1 <= k < c.maxAttempts ==> !mayFail(k)
    ensures Sum(AllWaits(c, env, n)) <= Times(NotLast(c, n), c.maxDelayMs as real)
  {
    hide Waits, CutShort;
    if n > 0 {
      ObedientSoFar(c, mayFail, env, n - 1);
      WaitsOfOne(c, n, env(n));
      SumConcat(AllWaits(c, env, n - 1), Waits(c, n, env(n)));
    }
  }

  lemma ObedientWaits(c: Config, mayFail: nat -> bool, id: string, env: nat -> Round, n: nat)
    requires c.Valid() && Obeys(c, env, mayFail) && Settles(c, id, env, n)
    requires forall k :: 1 <= k < c.maxAttempts ==> !mayFail(k)
    ensures OneDelayEach(c, env, n)
  {
    hide Obeys, Times, AllWaits, Sum, NotLast;
    var most, max := c.maxAttempts - 1, c.maxDelayMs as real;
    ObedientSoFar(c, mayFail, env, n);
    NotLastBelow(c, n);
    TimesGrows(NotLast(c, n), most, max);
    TimesIsProduct(most, max);
  }
}
