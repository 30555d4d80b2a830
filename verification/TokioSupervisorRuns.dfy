/** Safety of the Rust supervisor over every interleaving of its futures. */
module TokioSupervisorRuns {
  import opened Wrappers
  import opened Processes
  import opened TokioSupervisor

  type Run = seq<Occurrence>

  function Front(es: Run): Run
    requires es != []
  {
    es[..|es| - 1]
  }

  function Last(es: Run): Occurrence
    requires es != []
  {
    es[|es| - 1]
  }

  function Now(c: Config, es: Run): int { if es == [] then c.start else Last(es).at }

  predicate Legal(c: Config, es: Run)
    decreases |es|, 0
  {
    es == [] ||
    (Legal(c, Front(es)) && Now(c, Front(es)) <= Last(es).at && Allowed(c, After(c, Front(es)), Last(es)))
  }

  function After(c: Config, es: Run): State
    requires Legal(c, es)
    decreases |es|, 1
  {
    if es == [] then Start(c) else Step(c, After(c, Front(es)), Last(es))
  }

  /** The child has not been waited for yet. */
  predicate Running(es: Run) { forall k :: 0 <= k < |es| ==> !es[k].event.Waited? }

  predicate Observes(o: Occurrence) {
    match o.event
    case Slept(shutdown) => shutdown
    case Changed(shutdown) => shutdown
    case _ => false
  }

  /** An occurrence that must begin an escalation, if none has begun: shutdown is
      seen, or the timer wakes at or after the kill instant. */
  predicate Escalates(c: Config, o: Occurrence) {
    Observes(o) || (o.event.Slept? && c.KillAt() <= o.at)
  }

  /** The first such occurrence. */
  predicate Begins(c: Config, es: Run, k: nat) {
    k < |es| && Escalates(c, es[k]) && forall j :: 0 <= j < k ==> !Escalates(c, es[j])
  }

  predicate Calm(c: Config, es: Run) { forall j :: 0 <= j < |es| ==> !Escalates(c, es[j]) }

  lemma {:induction false} FirstEscalation(c: Config, es: Run) returns (k: nat)
    requires !Calm(c, es)
    ensures Begins(c, es, k)
  {
    if Calm(c, Front(es)) {
      k := |es| - 1;
    } else {
      k := FirstEscalation(c, Front(es));
    }
  }

  lemma {:induction false} LegalPrefix(c: Config, es: Run, i: nat)
    requires Legal(c, es) && i <= |es|
    ensures Legal(c, es[..i])
    decreases |es|
  {
    if i == |es| {
      assert es[..i] == es;
    } else {
      assert Front(es)[..i] == es[..i];
      LegalPrefix(c, Front(es), i);
    }
  }

  // ----------------------------------------------------------- escalation

  lemma CalmStep(c: Config, s: State, o: Occurrence)
    requires Allowed(c, s, o) && !Escalates(c, o)
    ensures Step(c, s, o).escalated == s.escalated && Step(c, s, o).trigger == s.trigger
  {
  }

  lemma EscalatedStep(c: Config, s: State, o: Occurrence)
    requires Allowed(c, s, o) && s.escalated
    ensures Step(c, s, o).escalated && Step(c, s, o).trigger == s.trigger
  {
  }

  /** Nothing has asked for an escalation: the trigger is the clock that would. */
  lemma {:induction false} StaysCalm(c: Config, es: Run)
    requires Legal(c, es) && !c.shutdownAtStart && Calm(c, es)
    ensures !After(c, es).escalated && After(c, es).trigger == c.Clock()
    decreases |es|
  {
    hide Step;
    if es != [] {
      StaysCalm(c, Front(es));
      CalmStep(c, After(c, Front(es)), Last(es));
    }
  }

  lemma {:induction false} EscalatedFromStart(c: Config, es: Run)
    requires Legal(c, es) && c.shutdownAtStart
    ensures After(c, es).escalated && After(c, es).trigger == Shutdown
    decreases |es|
  {
    hide Step;
    if es != [] {
      EscalatedFromStart(c, Front(es));
      EscalatedStep(c, After(c, Front(es)), Last(es));
    }
  }

  lemma EscalatesNow(c: Config, s: State, o: Occurrence)
    requires Allowed(c, s, o) && Escalates(c, o) && !s.escalated
    ensures var t := Step(c, s, o);
      t.escalated && t.trigger == (if Observes(o) then Shutdown else s.trigger) &&
      (c.pid != 0 ==> t.sent == s.sent + [Request(SIGTERM, o.at)] && t.tasks == s.tasks + [Task(o.at + c.graceMs, true)])
  {
  }

  /** The first occasion decides the trigger for good: shutdown when it is observed
      then, and otherwise the earlier clock, which is over by then. */
  lemma {:induction false} FirstOccasionDecides(c: Config, es: Run, k: nat)
    requires Legal(c, es) && !c.shutdownAtStart && Begins(c, es, k)
    ensures After(c, es).escalated
    ensures After(c, es).trigger == if Observes(es[k]) then Shutdown else c.Clock()
    ensures !Observes(es[k]) ==> c.KillAt() <= es[k].at
    decreases |es|
  {
    hide Step;
    var front := Front(es);
    if k == |es| - 1 {
      StaysCalm(c, front);
      EscalatesNow(c, After(c, front), es[k]);
    } else {
      FirstOccasionDecides(c, front, k);
      EscalatedStep(c, After(c, front), Last(es));
    }
  }

  function Terms(sent: seq<Request>): seq<Request> {
    if sent == [] then []
    else Terms(sent[..|sent| - 1]) + if sent[|sent| - 1].signal.SIGTERM? then [sent[|sent| - 1]] else []
  }

  lemma TermsPush(sent: seq<Request>, r: Request)
    ensures Terms(sent + [r]) == Terms(sent) + if r.signal.SIGTERM? then [r] else []
  {
    assert (sent + [r])[..|sent|] == sent;
  }

  lemma TermsStep(c: Config, s: State, o: Occurrence)
    requires Allowed(c, s, o)
    ensures Terms(Step(c, s, o).sent) ==
      if c.pid != 0 && !s.escalated && Escalates(c, o) then Terms(s.sent) + [Request(SIGTERM, o.at)] else Terms(s.sent)
  {
    hide Terms;
    TermsPush(s.sent, Request(SIGTERM, o.at));
    TermsPush(s.sent, Request(SIGKILL, o.at));
  }

  /** The SIGTERM requests of a run. */
  function Terminations(c: Config, es: Run): seq<Request>
    requires Legal(c, es)
  {
    Terms(After(c, es).sent)
  }

  lemma TermsAfter(c: Config, es: Run)
    requires Legal(c, es) && es != []
    ensures Terminations(c, es) ==
      if c.pid != 0 && !After(c, Front(es)).escalated && Escalates(c, Last(es))
      then Terminations(c, Front(es)) + [Request(SIGTERM, Last(es).at)] else Terminations(c, Front(es))
  {
    hide Step, Terms;
    TermsStep(c, After(c, Front(es)), Last(es));
  }

  lemma {:induction false} TermsFromStart(c: Config, es: Run)
    requires Legal(c, es) && c.pid != 0 && c.shutdownAtStart
    ensures Terminations(c, es) == [Request(SIGTERM, c.start)]
    decreases |es|
  {
    if es == [] {
      StartTerms(c);
    } else {
      hide Terminations;
      TermsFromStart(c, Front(es));
      TermsAfter(c, es);
      EscalatedFromStart(c, Front(es));
    }
  }

  lemma {:induction false} NoTermWhileCalm(c: Config, es: Run)
    requires Legal(c, es) && c.pid != 0 && !c.shutdownAtStart && Calm(c, es)
    ensures Terminations(c, es) == []
    decreases |es|
  {
    if es == [] {
      StartTerms(c);
    } else {
      hide Terminations, After, Escalates;
      NoTermWhileCalm(c, Front(es));
      TermsAfter(c, es);
    }
  }

  lemma {:induction false} OneTermOnceBegun(c: Config, es: Run, k: nat)
    requires Legal(c, es) && c.pid != 0 && !c.shutdownAtStart && Begins(c, es, k)
    ensures Terminations(c, es) == [Request(SIGTERM, es[k].at)]
    decreases |es|
  {
    hide Terminations, After, Escalates;
    var front := Front(es);
    TermsAfter(c, es);
    if k == |es| - 1 {
      StaysCalm(c, front);
      NoTermWhileCalm(c, front);
    } else {
      OneTermOnceBegun(c, front, k);
      FirstOccasionDecides(c, front, k);
    }
  }

  lemma {:induction false} NoTermWithoutPid(c: Config, es: Run)
    requires Legal(c, es) && c.pid == 0
    ensures Terminations(c, es) == []
    decreases |es|
  {
    if es != [] {
      hide Terminations, After, Escalates;
      NoTermWithoutPid(c, Front(es));
      TermsAfter(c, es);
    }
  }

  /** In every run at most one escalation begins: the SIGTERM requests are the one of
      the first occasion, if there was an occasion and there is a process to signal. */
  lemma OneEscalation(c: Config, es: Run)
    requires Legal(c, es)
    ensures c.pid == 0 || (!c.shutdownAtStart && Calm(c, es)) ==> Terminations(c, es) == []
    ensures c.pid != 0 && c.shutdownAtStart ==> Terminations(c, es) == [Request(SIGTERM, c.start)]
    ensures forall k: nat :: c.pid != 0 && !c.shutdownAtStart && Begins(c, es, k) ==>
      Terminations(c, es) == [Request(SIGTERM, es[k].at)]
  {
    hide Legal, Terminations, Escalates;
    if c.pid == 0 {
      NoTermWithoutPid(c, es);
    } else if c.shutdownAtStart {
      TermsFromStart(c, es);
    } else if Calm(c, es) {
      NoTermWhileCalm(c, es);
    } else {
      forall k: nat | Begins(c, es, k) ensures Terminations(c, es) == [Request(SIGTERM, es[k].at)] {
        OneTermOnceBegun(c, es, k);
      }
    }
  }

  lemma StartTerms(c: Config)
    ensures c.pid != 0 && c.shutdownAtStart ==> Terms(Start(c).sent) == [Request(SIGTERM, c.start)]
    ensures !c.shutdownAtStart ==> Terms(Start(c).sent) == []
  {
    TermsPush([], Request(SIGTERM, c.start));
    assert [] + [Request(SIGTERM, c.start)] == [Request(SIGTERM, c.start)];
  }

  // -------------------------------------------------------------- outcome

  /** The trigger that a kill would be reported with, read off the occurrences. */
  ghost function TriggerOf(c: Config, es: Run): KillTrigger {
    if c.shutdownAtStart then Shutdown
    else if exists k: nat :: Begins(c, es, k) && Observes(es[k]) then Shutdown
    else c.Clock()
  }

  lemma TriggerExactly(c: Config, es: Run)
    requires Legal(c, es)
    ensures After(c, es).trigger == TriggerOf(c, es)
  {
    if c.shutdownAtStart {
      EscalatedFromStart(c, es);
    } else if Calm(c, es) {
      StaysCalm(c, es);
    } else {
      var k := FirstEscalation(c, es);
      FirstOccasionDecides(c, es, k);
      assert forall j: nat :: Begins(c, es, j) ==> j == k;
    }
  }

  /** The stream named by the first message from a reader. */
  function FirstMessage(es: Run): Option<Stream> {
    if es == [] then None
    else if FirstMessage(Front(es)).Some? then FirstMessage(Front(es))
    else if Last(es).event.LimitMessage? then Some(Last(es).event.stream) else None
  }

  lemma {:induction false} LimitSoFar(c: Config, es: Run)
    requires Legal(c, es)
    ensures After(c, es).limitHit == FirstMessage(es)
    ensures FirstMessage(es).Some? ==> c.TooMuch(FirstMessage(es).value)
    decreases |es|
  {
    if es != [] { LimitSoFar(c, Front(es)); }
  }

  lemma {:induction false} NoResultYet(c: Config, es: Run)
    requires Legal(c, es) && Running(es)
    ensures After(c, es).result.None?
    decreases |es|
  {
    if es != [] { NoResultYet(c, Front(es)); }
  }

  lemma {:induction false} ResultStays(c: Config, es: Run, i: nat)
    requires Legal(c, es) && i < |es| && es[i].event.Waited?
    ensures Legal(c, es[..i + 1]) && After(c, es).result.Some? && After(c, es).result == After(c, es[..i + 1]).result
    ensures forall k :: i < k < |es| ==> es[k].event.GraceOver?
    decreases |es|
  {
    LegalPrefix(c, es, i + 1);
    if i == |es| - 1 {
      assert es[..i + 1] == es;
    } else {
      assert Front(es)[..i + 1] == es[..i + 1];
      ResultStays(c, Front(es), i);
    }
  }

  /** There is a result exactly when the child has been waited for. */
  lemma ResultOnceWaited(c: Config, es: Run)
    requires Legal(c, es)
    ensures After(c, es).result.Some? <==> !Running(es)
  {
    if Running(es) {
      NoResultYet(c, es);
    } else {
      var i :| 0 <= i < |es| && es[i].event.Waited?;
      ResultStays(c, es, i);
    }
  }

  /** The result in every interleaving: an output limit exactly when a stream is
      longer than its bound, and otherwise the verdict with both streams whole. */
  lemma ResultExactly(c: Config, es: Run, i: nat)
    requires Legal(c, es) && i < |es| && es[i].event.Waited?
    ensures c.TooMuch(Stream.Stdout) || c.TooMuch(Stream.Stderr) ==>
      exists stream :: c.TooMuch(stream) && After(c, es).result == Some(OutputLimit(stream, c.Stdout(), c.Stderr()))
    ensures !c.TooMuch(Stream.Stdout) && !c.TooMuch(Stream.Stderr) ==>
      After(c, es).result == Some(Settle(es[i].event.status, TriggerOf(c, es[..i]), Whole(c.stdout), Whole(c.stderr)))
  {
    hide TriggerOf, Settle;
    ResultStays(c, es, i);
    var before := es[..i];
    assert Front(es[..i + 1]) == before && Last(es[..i + 1]) == es[i];
    LimitSoFar(c, before);
    TriggerExactly(c, before);
    var s := After(c, before);
    if s.limitHit.Some? { assert c.TooMuch(s.limitHit.value); }
  }

  /** Never two results: once the child has been waited for, only a grace period that
      is still running can end. */
  lemma AtMostOneResult(c: Config, es: Run, i: nat, j: nat)
    requires Legal(c, es) && i < |es| && j < |es| && es[i].event.Waited? && es[j].event.Waited?
    ensures i == j
  {
    ResultStays(c, es, i);
    ResultStays(c, es, j);
  }

  // -------------------------------------------------------------- signals

  ghost predicate TermAt(sent: seq<Request>, n: nat, due: int, grace: nat) {
    exists m :: 0 <= m < n && m < |sent| && sent[m] == Request(SIGTERM, due - grace)
  }

  /** Why a SIGKILL was requested at position `k`. */
  ghost predicate KillJustified(c: Config, es: Run, sent: seq<Request>, k: nat)
    requires k < |sent|
  {
    (exists j :: 0 <= j < |es| && (es[j].event.LimitMessage? || es[j].event.Waited?) && es[j].at == sent[k].at) ||
    (exists m :: 0 <= m < k && sent[m].signal == SIGTERM && sent[m].at + c.graceMs <= sent[k].at)
  }

  ghost predicate Accounted(c: Config, es: Run, s: State) {
    (forall k :: 0 <= k < |s.sent| && s.sent[k].signal == SIGKILL ==> KillJustified(c, es, s.sent, k)) &&
    (forall i :: 0 <= i < |s.tasks| ==> TermAt(s.sent, |s.sent|, s.tasks[i].due, c.graceMs))
  }

  lemma JustifiedLater(c: Config, es: Run, o: Occurrence, sent: seq<Request>, more: seq<Request>, k: nat)
    requires k < |sent| && sent <= more && KillJustified(c, es, sent, k)
    ensures KillJustified(c, es + [o], more, k)
  {
    var longer := es + [o];
    if j :| 0 <= j < |es| && (es[j].event.LimitMessage? || es[j].event.Waited?) && es[j].at == sent[k].at {
      assert longer[j] == es[j];
    } else {
      var m :| 0 <= m < k && sent[m].signal == SIGTERM && sent[m].at + c.graceMs <= sent[k].at;
      assert more[m] == sent[m];
    }
  }

  lemma TermAtLater(sent: seq<Request>, more: seq<Request>, due: int, grace: nat)
    requires sent <= more && TermAt(sent, |sent|, due, grace)
    ensures TermAt(more, |more|, due, grace)
  {
    var m :| 0 <= m < |sent| && sent[m] == Request(SIGTERM, due - grace);
    assert more[m] == sent[m];
  }

  lemma EffectsGrow(c: Config, s: State, o: Occurrence)
    requires Allowed(c, s, o)
    ensures var t := Step(c, s, o);
      s.sent <= t.sent && |t.sent| <= |s.sent| + 1 && |s.tasks| <= |t.tasks| <= |s.tasks| + 1 &&
      (forall i :: 0 <= i < |s.tasks| ==> t.tasks[i].due == s.tasks[i].due) &&
      (|t.tasks| > |s.tasks| ==> t.sent == s.sent + [Request(SIGTERM, t.tasks[|s.tasks|].due - c.graceMs)]) &&
      (|t.sent| > |s.sent| ==> t.sent[|s.sent|].at == o.at) &&
      (|t.sent| > |s.sent| && t.sent[|s.sent|].signal == SIGKILL ==>
        o.event.LimitMessage? || o.event.Waited? || o.event.GraceOver?)
  {
  }

  /** SIGKILL is requested only for a byte bound, at the end of the child, or a full
      grace period after the SIGTERM. */
  lemma {:induction false} KillsJustified(c: Config, es: Run)
    requires Legal(c, es)
    ensures Accounted(c, es, After(c, es))
    decreases |es|
  {
    hide Step, KillJustified, TermAt;
    if es == [] {
      StartAccounted(c);
    } else {
      var front, o := Front(es), Last(es);
      var s, t := After(c, front), After(c, es);
      KillsJustified(c, front);
      EffectsGrow(c, s, o);
      assert es == front + [o];
      forall k | 0 <= k < |t.sent| && t.sent[k].signal == SIGKILL ensures KillJustified(c, es, t.sent, k) {
        if k < |s.sent| {
          JustifiedLater(c, front, o, s.sent, t.sent, k);
        } else {
          NewKill(c, es, s, t.sent);
        }
      }
      forall i | 0 <= i < |t.tasks| ensures TermAt(t.sent, |t.sent|, t.tasks[i].due, c.graceMs) {
        if i < |s.tasks| {
          TermAtLater(s.sent, t.sent, s.tasks[i].due, c.graceMs);
        } else {
          NewTask(s.sent, t.sent, t.tasks[i].due, c.graceMs);
        }
      }
    }
  }

  lemma NewTask(sent: seq<Request>, more: seq<Request>, due: int, grace: nat)
    requires more == sent + [Request(SIGTERM, due - grace)]
    ensures TermAt(more, |more|, due, grace)
  {
    assert more[|sent|] == Request(SIGTERM, due - grace);
  }

  lemma NewKill(c: Config, es: Run, s: State, sent: seq<Request>)
    requires es != [] && |sent| == |s.sent| + 1 && s.sent <= sent && sent[|s.sent|].at == Last(es).at
    requires Last(es).event.LimitMessage? || Last(es).event.Waited? || Last(es).event.GraceOver?
    requires Allowed(c, s, Last(es)) && forall i :: 0 <= i < |s.tasks| ==> TermAt(s.sent, |s.sent|, s.tasks[i].due, c.graceMs)
    ensures KillJustified(c, es, sent, |s.sent|)
  {
    var o := Last(es);
    if o.event.GraceOver? {
      var due := s.tasks[o.event.task].due;
      var m :| 0 <= m < |s.sent| && s.sent[m] == Request(SIGTERM, due - c.graceMs);
      assert sent[m] == s.sent[m];
    } else {
      assert es[|es| - 1] == o;
    }
  }

  lemma StartAccounted(c: Config)
    ensures Accounted(c, [], Start(c))
  {
    if c.shutdownAtStart && c.pid != 0 { assert Start(c).sent[0] == Request(SIGTERM, c.start); }
  }

  // ------------------------------------------------- after the result

  /** An escalation began, whether or not there was a process to signal. */
  predicate Escalated(c: Config, es: Run) { c.shutdownAtStart || !Calm(c, es) }

  predicate GraceRan(es: Run) { exists k :: 0 <= k < |es| && es[k].event.GraceOver? }

  /** An escalation of a process spawns one task, which waits until its grace period
      is over. */
  ghost predicate OneTask(c: Config, es: Run, s: State) {
    (s.escalated <==> Escalated(c, es)) &&
    if c.pid != 0 && Escalated(c, es) then |s.tasks| == 1 && (s.tasks[0].waiting <==> !GraceRan(es))
    else s.tasks == [] && !GraceRan(es)
  }

  lemma TaskStep(c: Config, s: State, o: Occurrence)
    requires Allowed(c, s, o) && |s.tasks| <= 1 && (s.tasks != [] ==> s.escalated)
    ensures var t := Step(c, s, o);
      (t.escalated <==> s.escalated || Escalates(c, o)) &&
      (|t.tasks| == if c.pid != 0 && !s.escalated && Escalates(c, o) then |s.tasks| + 1 else |s.tasks|) &&
      (|t.tasks| > |s.tasks| ==> t.tasks[|s.tasks|].waiting) &&
      (s.tasks != [] ==> (t.tasks[0].waiting <==> s.tasks[0].waiting && !o.event.GraceOver?))
  {
  }

  lemma {:induction false} TaskSoFar(c: Config, es: Run)
    requires Legal(c, es)
    ensures OneTask(c, es, After(c, es))
    decreases |es|
  {
    if es != [] {
      hide Step, Escalates;
      var front, o := Front(es), Last(es);
      TaskSoFar(c, front);
      TaskStep(c, After(c, front), o);
      CalmSnoc(c, es);
      GraceSnoc(es);
    }
  }

  lemma CalmSnoc(c: Config, es: Run)
    requires es != []
    ensures Calm(c, es) <==> Calm(c, Front(es)) && !Escalates(c, Last(es))
  {
    hide Escalates;
    assert forall j :: 0 <= j < |es| ==> es[j] == if j < |es| - 1 then Front(es)[j] else Last(es);
  }

  lemma GraceSnoc(es: Run)
    requires es != []
    ensures GraceRan(es) <==> GraceRan(Front(es)) || Last(es).event.GraceOver?
  {
    assert forall j :: 0 <= j < |es| ==> es[j] == if j < |es| - 1 then Front(es)[j] else Last(es);
  }

  /** Some next occurrence makes the host request one more signal. */
  ghost predicate MoreToCome(c: Config, es: Run)
    requires Legal(c, es)
  {
    exists o :: Legal(c, es + [o]) && After(c, es + [o]).sent != After(c, es).sent
  }

  lemma Extended(c: Config, es: Run, o: Occurrence)
    requires Legal(c, es)
    ensures Legal(c, es + [o]) <==> Now(c, es) <= o.at && Allowed(c, After(c, es), o)
    ensures Legal(c, es + [o]) ==> After(c, es + [o]) == Step(c, After(c, es), o)
  {
    assert Front(es + [o]) == es && Last(es + [o]) == o;
  }

  /** Returning does not stop a grace period: once the result is out, a signal is still
      to come exactly when an escalation of a process began and its grace period is
      not over. */
  lemma GraceOutlivesResult(c: Config, es: Run)
    requires Legal(c, es) && After(c, es).result.Some?
    ensures MoreToCome(c, es) <==> c.pid != 0 && Escalated(c, es) && !GraceRan(es)
  {
    hide Legal, After, Escalated, GraceRan;
    TaskSoFar(c, es);
    var s := After(c, es);
    if c.pid != 0 && Escalated(c, es) && !GraceRan(es) {
      var at := if Now(c, es) < s.tasks[0].due then s.tasks[0].due else Now(c, es);
      var o := Occurrence(at, GraceOver(0));
      Extended(c, es, o);
      assert Step(c, s, o).sent == s.sent + [Request(SIGKILL, at)];
      assert Legal(c, es + [o]) && After(c, es + [o]).sent != s.sent;
    }
    if MoreToCome(c, es) {
      var o :| Legal(c, es + [o]) && After(c, es + [o]).sent != s.sent;
      Extended(c, es, o);
      assert o.event.GraceOver?;
    }
  }

  /** A child that ends at once on SIGTERM: the group gets its SIGKILL after the result. */
  lemma LateKill(c: Config, status: Status)
    requires c.pid != 0 && c.shutdownAtStart
    ensures var end, late := Occurrence(c.start, Waited(status)), Occurrence(c.start + c.graceMs, GraceOver(0));
      Legal(c, [end, late]) && After(c, [end]).result.Some? &&
      After(c, [end, late]).sent == After(c, [end]).sent + [Request(SIGKILL, c.start + c.graceMs)]
  {
    var end, late := Occurrence(c.start, Waited(status)), Occurrence(c.start + c.graceMs, GraceOver(0));
    assert Legal(c, []);
    Extended(c, [], end);
    assert [] + [end] == [end];
    Extended(c, [end], late);
    assert [end] + [late] == [end, late];
  }
}
