/** Every result and every signal of the Rust supervisor, read off the occurrences of a
    run, the child's status and the two streams alone. */
module TokioOutcomes {
  import opened Wrappers
  import opened Processes
  import opened TokioSupervisor
  import opened TokioSupervisorRuns

  // ------------------------------------------------------------- streams

  function Flat(chunks: seq<Bytes>): Bytes {
    if chunks == [] then [] else chunks[0] + Flat(chunks[1..])
  }

  /** Reads that deliver bytes, and then the end of the stream, an error, or nothing more. */
  predicate ReadsAre(parts: seq<Read>, chunks: seq<Bytes>) {
    && |chunks| <= |parts|
    && (forall k :: 0 <= k < |chunks| ==> chunks[k] != [] && parts[k] == Got(chunks[k]))
    && (|chunks| < |parts| ==> parts[|chunks|] == ReadError || parts[|chunks|] == Got([]))
  }

  /** A stream is what its reads delivered before it ended or failed. */
  lemma {:induction false} WholeExactly(parts: seq<Read>, chunks: seq<Bytes>)
    requires ReadsAre(parts, chunks)
    ensures Whole(Some(parts)) == Flat(chunks)
    decreases |chunks|
  {
    if chunks != [] { WholeExactly(parts[1..], chunks[1..]); }
  }

  /** Every stream is of that kind. */
  lemma {:induction false} ReadsSplit(parts: seq<Read>) returns (chunks: seq<Bytes>)
    ensures ReadsAre(parts, chunks)
  {
    chunks := [];
    if parts != [] && parts[0].Got? && parts[0].bytes != [] {
      var rest := ReadsSplit(parts[1..]);
      chunks := [parts[0].bytes] + rest;
      forall k | 0 <= k < |chunks| ensures chunks[k] != [] && parts[k] == Got(chunks[k]) {
        if k > 0 { assert parts[k] == parts[1..][k - 1]; }
      }
      assert |rest| < |parts[1..]| ==> parts[|chunks|] == parts[1..][|rest|];
    }
  }

  /** The deadline's instant: as many milliseconds from now as its time is from the
      present time, and now if it has passed; a difference that is too wide for 64 bits
      counts as the widest. */
  lemma InstantExactly(d: Deadline)
    ensures d.target <= d.utcNow ==> Instant(d) == d.now
    ensures d.utcNow <= d.target <= d.utcNow + 0x7fff_ffff_ffff_ffff ==> Instant(d) - d.now == d.target - d.utcNow
    ensures d.target > d.utcNow + 0x7fff_ffff_ffff_ffff ==> Instant(d) - d.now == 0x7fff_ffff_ffff_ffff
  {
  }

  // ------------------------------------------------------------- results

  predicate Fits(c: Config) {
    |Whole(c.stdout)| <= c.maxStdoutBytes && |Whole(c.stderr)| <= c.maxStderrBytes
  }

  lemma FitsExactly(c: Config)
    ensures Fits(c) <==> !c.TooMuch(Stream.Stdout) && !c.TooMuch(Stream.Stderr)
  {
  }

  /** Which status makes which result, when neither stream is too long. */
  lemma StatusDecides(status: Status, trigger: KillTrigger, out: Bytes, err: Bytes, r: Outcome)
    requires r == Settle(status, trigger, out, err)
    ensures r.Succeeded? <==> status == Exited(0)
    ensures r.Succeeded? ==> r == Succeeded(out, err)
    ensures r.Failed? <==> status.Exited? && status.code != 0
    ensures r.Failed? ==> r == Failed(status.code, out, err)
    ensures r.KilledBy? <==> status.Signaled?
    ensures r.KilledBy? ==> r == KilledBy(trigger, if status.signal == 9 then SIGKILL else SIGTERM, out, err)
    ensures r.SpawnFailed? <==> status.WaitError?
    ensures r.SpawnFailed? ==> r == SpawnFailed(status.message)
    ensures !r.OutputLimit?
  {
  }

  lemma ResultIs(c: Config, es: Run, i: nat)
    requires Legal(c, es) && i < |es| && es[i].event.Waited?
    ensures After(c, es).result.Some?
    ensures After(c, es).result.value.OutputLimit? <==> !Fits(c)
    ensures Fits(c) ==> (After(c, es).result.value ==
      Settle(es[i].event.status, TriggerOf(c, es[..i]), Whole(c.stdout), Whole(c.stderr)))
  {
    hide TriggerOf, Legal, After, Config.TooMuch;
    FitsExactly(c);
    ResultExactly(c, es, i);
  }

  /** Success is reported exactly for exit code zero within both bounds, with both streams whole. */
  lemma SucceededExactly(c: Config, es: Run, i: nat, out: Bytes, err: Bytes)
    requires Legal(c, es) && i < |es| && es[i].event.Waited?
    ensures After(c, es).result == Some(Succeeded(out, err)) <==>
      es[i].event.status == Exited(0) && Fits(c) && out == Whole(c.stdout) && err == Whole(c.stderr)
  {
    hide TriggerOf, Legal, After, Settle, Fits;
    ResultIs(c, es, i);
    StatusDecides(es[i].event.status, TriggerOf(c, es[..i]), Whole(c.stdout), Whole(c.stderr),
                  Settle(es[i].event.status, TriggerOf(c, es[..i]), Whole(c.stdout), Whole(c.stderr)));
  }

  /** Failure is reported exactly for another exit code within both bounds, with that code. */
  lemma FailedExactly(c: Config, es: Run, i: nat, code: int, out: Bytes, err: Bytes)
    requires Legal(c, es) && i < |es| && es[i].event.Waited?
    ensures After(c, es).result == Some(Failed(code, out, err)) <==>
      es[i].event.status == Exited(code) && code != 0 && Fits(c) && out == Whole(c.stdout) && err == Whole(c.stderr)
  {
    hide TriggerOf, Legal, After, Settle, Fits;
    ResultIs(c, es, i);
    StatusDecides(es[i].event.status, TriggerOf(c, es[..i]), Whole(c.stdout), Whole(c.stderr),
                  Settle(es[i].event.status, TriggerOf(c, es[..i]), Whole(c.stdout), Whole(c.stderr)));
  }

  /** A kill is reported exactly for a child that a signal ended within both bounds: as
      SIGKILL for signal 9 and as SIGTERM for any other, under the trigger of the first
      escalation. */
  lemma KilledExactly(c: Config, es: Run, i: nat, trigger: KillTrigger, last: Signal, out: Bytes, err: Bytes)
    requires Legal(c, es) && i < |es| && es[i].event.Waited?
    ensures After(c, es).result == Some(KilledBy(trigger, last, out, err)) <==>
      es[i].event.status.Signaled? && (last == SIGKILL <==> es[i].event.status.signal == 9) && Fits(c)
      && trigger == TriggerOf(c, es[..i]) && out == Whole(c.stdout) && err == Whole(c.stderr)
  {
    hide TriggerOf, Legal, After, Settle, Fits;
    ResultIs(c, es, i);
    StatusDecides(es[i].event.status, TriggerOf(c, es[..i]), Whole(c.stdout), Whole(c.stderr),
                  Settle(es[i].event.status, TriggerOf(c, es[..i]), Whole(c.stdout), Whole(c.stderr)));
  }

  /** An error of the wait is reported exactly when there is one within both bounds, in its words. */
  lemma SpawnFailedExactly(c: Config, es: Run, i: nat, message: string)
    requires Legal(c, es) && i < |es| && es[i].event.Waited?
    ensures After(c, es).result == Some(SpawnFailed(message)) <==> es[i].event.status == WaitError(message) && Fits(c)
  {
    hide TriggerOf, Legal, After, Settle, Fits;
    ResultIs(c, es, i);
    StatusDecides(es[i].event.status, TriggerOf(c, es[..i]), Whole(c.stdout), Whole(c.stderr),
                  Settle(es[i].event.status, TriggerOf(c, es[..i]), Whole(c.stdout), Whole(c.stderr)));
  }

  /** A byte bound is reported exactly when a stream is too long: under the stream whose
      reader was heard first, else under stdout if that is too long; both streams are cut
      at their bounds. */
  lemma OutputLimitExactly(c: Config, es: Run, i: nat, stream: Stream, out: Bytes, err: Bytes)
    requires Legal(c, es) && i < |es| && es[i].event.Waited?
    ensures After(c, es).result == Some(OutputLimit(stream, out, err)) <==>
      && !Fits(c)
      && (match FirstMessage(es[..i])
          case Some(first) => stream == first
          case None => stream == Stream.Stdout <==> |Whole(c.stdout)| > c.maxStdoutBytes)
      && out == (if |Whole(c.stdout)| <= c.maxStdoutBytes then Whole(c.stdout) else Whole(c.stdout)[..c.maxStdoutBytes])
      && err == (if |Whole(c.stderr)| <= c.maxStderrBytes then Whole(c.stderr) else Whole(c.stderr)[..c.maxStderrBytes])
  {
    hide Settle, TriggerOf;
    ResultIs(c, es, i);
    if !Fits(c) {
      ResultStays(c, es, i);
      assert Front(es[..i + 1]) == es[..i] && Last(es[..i + 1]) == es[i];
      LimitSoFar(c, es[..i]);
    }
  }

  // ------------------------------------------------------------- signals

  /** What a run asks for, in order: SIGTERM at the first occasion to escalate, SIGKILL
      for a reader's message, for the end of the child, and for the end of a grace period. */
  function Requests(c: Config, es: Run): seq<Request> {
    if es == [] then (if c.pid != 0 && c.shutdownAtStart then [Request(SIGTERM, c.start)] else [])
    else Requests(c, Front(es)) + RequestOfLast(c, es)
  }

  function RequestOfLast(c: Config, es: Run): seq<Request>
    requires es != []
  {
    match Last(es).event
    case Waited(_) => if c.pid != 0 then [Request(SIGKILL, Last(es).at)] else []
    case LimitMessage(_) => [Request(SIGKILL, Last(es).at)]
    case GraceOver(_) => [Request(SIGKILL, Last(es).at)]
    case _ => if c.pid != 0 && !c.shutdownAtStart && Begins(c, es, |es| - 1) then [Request(SIGTERM, Last(es).at)] else []
  }

  /** In every run exactly these signals are requested. */
  lemma {:induction false} SentExactly(c: Config, es: Run)
    requires Legal(c, es)
    ensures After(c, es).sent == Requests(c, es)
    decreases |es|
  {
    hide Step, Escalates;
    if es != [] {
      var front, o := Front(es), Last(es);
      SentExactly(c, front);
      TaskSoFar(c, front);
      SendsNow(c, After(c, front), o);
      BeginsNow(c, es);
      assert After(c, front).sent + [] == After(c, front).sent;
    }
  }

  lemma SendsNow(c: Config, s: State, o: Occurrence)
    requires Allowed(c, s, o)
    ensures Step(c, s, o).sent == s.sent +
      if o.event.LimitMessage? || o.event.GraceOver? || (o.event.Waited? && c.pid != 0) then [Request(SIGKILL, o.at)]
      else if c.pid != 0 && !s.escalated && Escalates(c, o) then [Request(SIGTERM, o.at)] else []
  {
  }

  lemma BeginsNow(c: Config, es: Run)
    requires es != []
    ensures Begins(c, es, |es| - 1) <==> Calm(c, Front(es)) && Escalates(c, Last(es))
    ensures Escalates(c, Last(es)) ==> Last(es).event.Slept? || Last(es).event.Changed?
  {
  }

  lemma {:induction false} RequestsGrow(c: Config, es: Run, i: nat)
    requires i <= |es|
    ensures Requests(c, es[..i]) <= Requests(c, es)
  {
    if i == |es| {
      assert es[..i] == es;
    } else {
      assert Front(es)[..i] == es[..i];
      RequestsGrow(c, Front(es), i);
    }
  }

  /** A reader's message has SIGKILL requested when it is heard, the end of the child when
      it is waited for, the end of a grace period when it comes, and the first occasion to
      escalate has SIGTERM requested. */
  lemma EventSignals(c: Config, es: Run, j: nat)
    requires Legal(c, es) && j < |es|
    ensures es[j].event.LimitMessage? || es[j].event.GraceOver? || (es[j].event.Waited? && c.pid != 0) ==>
      Request(SIGKILL, es[j].at) in After(c, es).sent
    ensures c.pid != 0 && !c.shutdownAtStart && Begins(c, es, j) ==> Request(SIGTERM, es[j].at) in After(c, es).sent
  {
    hide Legal, After, Escalates, Requests;
    SentExactly(c, es);
    RequestsGrow(c, es, j + 1);
    var some := es[..j + 1];
    LastRequest(c, some);
    assert Last(some) == es[j];
    assert Begins(c, es, j) ==> Begins(c, some, j);
    assert forall r :: r in Requests(c, some) ==> r in Requests(c, es);
  }

  lemma LastRequest(c: Config, es: Run)
    requires es != []
    ensures forall r :: r in RequestOfLast(c, es) ==> r in Requests(c, es)
    ensures var e := Last(es).event;
      e.LimitMessage? || e.GraceOver? || (e.Waited? && c.pid != 0) ==> Request(SIGKILL, Last(es).at) in Requests(c, es)
    ensures c.pid != 0 && !c.shutdownAtStart && Begins(c, es, |es| - 1) ==> Request(SIGTERM, Last(es).at) in Requests(c, es)
  {
    BeginsNow(c, es);
  }
}
