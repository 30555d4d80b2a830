/** Every signal the TypeScript supervisor requests, and every outcome it reports, read
    off the callbacks of a run alone. */
module NodeSignals {
  import opened Wrappers
  import opened Processes
  import opened NodeSupervisor
  import opened NodeSupervisorRuns

  /** What a run asks for until the child's end, in order: SIGKILL for the first chunk
      that takes a stream over its bound, SIGTERM for an abort and for the wall-clock
      timer, SIGKILL for every other timer. */
  ghost function Requests(c: Config, es: Run): seq<Request> {
    if es == [] then (if c.abortedAtStart then [Request(SIGTERM, c.start)] else [])
    else Requests(c, Front(es)) + RequestOfLast(c, es)
  }

  ghost function RequestOfLast(c: Config, es: Run): seq<Request>
    requires es != []
  {
    match Last(es).event
    case Data(_, _) => if Overflows(c, es, |es| - 1) then [Request(SIGKILL, Last(es).at)] else []
    case Abort => [Request(SIGTERM, Last(es).at)]
    case TimerFires(i) => [Request(if i == WallTimer(c) then SIGTERM else SIGKILL, Last(es).at)]
    case _ => []
  }

  /** While the child runs, exactly these signals are requested, if there is a process. */
  lemma {:induction false} SentExactly(c: Config, es: Run)
    requires Legal(c, es) && Open(es)
    ensures After(c, es).sent == if c.hasPid then Requests(c, es) else []
    decreases |es|
  {
    hide Step, Overflows;
    if es != [] {
      var front, o := Front(es), Last(es);
      SentExactly(c, front);
      WhileOpen(c, front);
      TriggerSoFar(c, front);
      if o.event.Data? {
        ActsOnOverflow(c, es);
        DataSends(c, After(c, front), o);
      } else {
        OtherSends(c, After(c, front), o);
      }
      assert After(c, front).sent + [] == After(c, front).sent;
    }
  }

  predicate Passes(c: Config, s: State, o: Occurrence)
    requires o.event.Data?
  {
    s.limitHit.None? && Counted(s, o.event.stream) + |o.event.chunk| > c.Limit(o.event.stream)
  }

  lemma DataSends(c: Config, s: State, o: Occurrence)
    requires o.event.Data? && !s.settled && s.exitCode.None?
    ensures Step(c, s, o).sent == s.sent + if c.hasPid && Passes(c, s, o) then [Request(SIGKILL, o.at)] else []
  {
  }

  lemma OtherSends(c: Config, s: State, o: Occurrence)
    requires Allowed(s, o) && !Settles(o) && !o.event.Data? && s.exitCode.None? && OneWallTimer(c, s)
    ensures Step(c, s, o).sent == s.sent +
      if !c.hasPid then []
      else if o.event.TimerFires? && o.event.index != WallTimer(c) then [Request(SIGKILL, o.at)]
      else [Request(SIGTERM, o.at)]
  {
    hide Config.TermDue, Config.KillAt, Config.TimerLabel, Config.Grace, WallTimer;
  }

  /** The supervisor acts on a bound at the chunk that overflows, and at no other. */
  lemma ActsOnOverflow(c: Config, es: Run)
    requires Legal(c, es) && Open(es) && es != [] && Last(es).event.Data?
    ensures Passes(c, After(c, Front(es)), Last(es)) <==> Overflows(c, es, |es| - 1)
  {
    var front, j := Front(es), |es| - 1;
    assert es[..j] == front && es[..j + 1] == es;
    WhileOpen(c, front);
    if Within(c, front) {
      AllCaptured(c, front);
    } else {
      hide Within;
      var k := OverflowExists(c, front);
      CapturedUpTo(c, front, k);
    }
  }

  /** Over a whole run the exit adds one last SIGKILL for the group, and an error none;
      nothing is requested after either. */
  lemma SentInAll(c: Config, es: Run, i: nat)
    requires Legal(c, es) && i < |es| && Open(es[..i]) && Settles(es[i])
    ensures After(c, es).sent ==
      if !c.hasPid then []
      else Requests(c, es[..i]) + if es[i].event.Exit? then [Request(SIGKILL, es[i].at)] else []
  {
    hide Requests, Step, Open;
    SilentAfterSettling(c, es, i);
    assert Front(es[..i + 1]) == es[..i] && Last(es[..i + 1]) == es[i];
    LegalPrefix(c, es, i);
    WhileOpen(c, es[..i]);
    SentExactly(c, es[..i]);
    EndSends(c, After(c, es[..i]), es[i]);
    assert Requests(c, es[..i]) + [] == Requests(c, es[..i]);
  }

  lemma EndSends(c: Config, s: State, o: Occurrence)
    requires Settles(o) && !s.settled
    ensures Step(c, s, o).sent == s.sent + if c.hasPid && o.event.Exit? then [Request(SIGKILL, o.at)] else []
  {
  }

  /** What is requested for a prefix of a run is requested in the run. */
  lemma {:induction false} RequestsGrow(c: Config, es: Run, i: nat)
    requires i <= |es|
    ensures Requests(c, es[..i]) <= Requests(c, es)
  {
    if i == |es| {
      assert es[..i] == es;
    } else {
      assert Front(es)[..i] == es[..i];
      RequestsGrow(c, Front(es), i);
    }
  }

  lemma RequestedAt(c: Config, es: Run, j: nat)
    requires j < |es|
    ensures Overflows(c, es, j) && es[j].event.Data? ==> Request(SIGKILL, es[j].at) in Requests(c, es)
    ensures es[j].event.Abort? || es[j].event == TimerFires(WallTimer(c)) ==> Request(SIGTERM, es[j].at) in Requests(c, es)
    ensures es[j].event.TimerFires? && es[j].event.index != WallTimer(c) ==> Request(SIGKILL, es[j].at) in Requests(c, es)
  {
    hide Requests, Overflows;
    RequestsGrow(c, es, j + 1);
    var some := es[..j + 1];
    assert Front(some) == es[..j] && Last(some) == es[j];
    SameOverflow(c, es, j);
    LastRequest(c, some);
    assert forall r :: r in Requests(c, some) ==> r in Requests(c, es);
  }

  lemma SameOverflow(c: Config, es: Run, j: nat)
    requires j < |es|
    ensures Overflows(c, es, j) <==> Overflows(c, es[..j + 1], j)
  {
    assert es[..j + 1][..j] == es[..j] && es[..j + 1][..j + 1] == es[..j + 1];
  }

  lemma LastRequest(c: Config, es: Run)
    requires es != []
    ensures Last(es).event.Data? && Overflows(c, es, |es| - 1) ==> Request(SIGKILL, Last(es).at) in Requests(c, es)
    ensures Last(es).event.Abort? || Last(es).event == TimerFires(WallTimer(c)) ==> Request(SIGTERM, Last(es).at) in Requests(c, es)
    ensures Last(es).event.TimerFires? && Last(es).event.index != WallTimer(c) ==> Request(SIGKILL, Last(es).at) in Requests(c, es)
  {
    hide Overflows, WallTimer;
  }

  /** The chunk that takes a stream over its bound has SIGKILL requested at that instant. */
  lemma OverflowKills(c: Config, es: Run, j: nat)
    requires Legal(c, es) && c.hasPid && j < |es| && Open(es[..j + 1]) && Overflows(c, es, j)
    ensures es[j].event.Data? && Request(SIGKILL, es[j].at) in After(c, es).sent
  {
    hide Overflows, Open;
    LegalPrefix(c, es, j + 1);
    SameOverflow(c, es, j);
    CapturedUpTo(c, es[..j + 1], j);
    RequestedAt(c, es[..j + 1], j);
    SentStays(c, es, j);
  }

  /** An abort and the wall-clock timer have SIGTERM requested when they come, and the end
      of a grace period SIGKILL. */
  lemma CallbackSignals(c: Config, es: Run, j: nat)
    requires Legal(c, es) && c.hasPid && j < |es| && Open(es[..j + 1])
    ensures es[j].event.Abort? ==> Request(SIGTERM, es[j].at) in After(c, es).sent
    ensures es[j].event.TimerFires? ==>
      Request(if es[j].event.index == WallTimer(c) then SIGTERM else SIGKILL, es[j].at) in After(c, es).sent
  {
    hide Open;
    RequestedAt(c, es[..j + 1], j);
    SentStays(c, es, j);
  }

  /** An abort that came before supervision has SIGTERM requested at the start. */
  lemma AbortAtStartSignals(c: Config, es: Run)
    requires Legal(c, es) && c.hasPid && c.abortedAtStart
    ensures Request(SIGTERM, c.start) in After(c, es).sent
  {
    hide Requests, Open, After;
    if Open(es) {
      SentExactly(c, es);
      FirstRequest(c, es);
    } else {
      var i := FirstSettling(es);
      SentInAll(c, es, i);
      FirstRequest(c, es[..i]);
    }
  }

  lemma FirstRequest(c: Config, es: Run)
    requires c.abortedAtStart
    ensures Request(SIGTERM, c.start) in Requests(c, es)
  {
    RequestsGrow(c, es, 0);
    assert es[..0] == [];
    assert Requests(c, [])[0] == Request(SIGTERM, c.start);
  }

  /** The first exit has SIGKILL requested for what is left of the group. */
  lemma ExitKills(c: Config, es: Run, i: nat)
    requires Legal(c, es) && c.hasPid && i < |es| && Open(es[..i]) && es[i].event.Exit?
    ensures Request(SIGKILL, es[i].at) in After(c, es).sent
  {
    hide Requests;
    SentInAll(c, es, i);
  }

  lemma SentStays(c: Config, es: Run, j: nat)
    requires Legal(c, es) && c.hasPid && j < |es| && Open(es[..j + 1])
    ensures forall r :: r in Requests(c, es[..j + 1]) ==> r in After(c, es).sent
  {
    hide Requests, Open, After;
    var i := |es|;
    if Open(es) {
      SentExactly(c, es);
      RequestsGrow(c, es, j + 1);
    } else {
      i := FirstSettling(es);
      assert j < i by { OpenBefore(es, i, j); }
      SentInAll(c, es, i);
      assert es[..i][..j + 1] == es[..j + 1];
      RequestsGrow(c, es[..i], j + 1);
    }
  }

  lemma OpenBefore(es: Run, i: nat, j: nat)
    requires i < |es| && j < |es| && Settles(es[i]) && Open(es[..j + 1])
    ensures j < i
  {
    forall k | 0 <= k <= j ensures !Settles(es[k]) { assert es[..j + 1][k] == es[k]; }
  }

  // ------------------------------------------------------------- outcomes

  /** What the first exit reports within the bounds: a child that SIGTERM or SIGKILL ended
      was killed, by that signal; any other exit succeeded with code zero, failed with
      another code, and failed with -1 without one. */
  lemma ExitReported(c: Config, es: Run, i: nat)
    requires Legal(c, es) && i < |es| && Open(es[..i]) && es[i].event.Exit? && Within(c, es[..i])
    ensures var code, signal := es[i].event.code, es[i].event.signal;
      var stdout, stderr := Arrived(es[..i], Stdout), Arrived(es[..i], Stderr);
      && (signal == Some(Terminated) ==> After(c, es).outcomes == [KilledBy(LastTrigger(c, es[..i]), SIGTERM, stdout, stderr)])
      && (signal == Some(Killed) ==> After(c, es).outcomes == [KilledBy(LastTrigger(c, es[..i]), SIGKILL, stdout, stderr)])
      && (signal in {None, Some(OtherSignal)} && code == Some(0) ==> After(c, es).outcomes == [Succeeded(stdout, stderr)])
      && (signal in {None, Some(OtherSignal)} && code.Some? && code.value != 0 ==>
            After(c, es).outcomes == [Failed(code.value, stdout, stderr)])
      && (signal in {None, Some(OtherSignal)} && code == None ==> After(c, es).outcomes == [Failed(-1, stdout, stderr)])
  {
    hide Within, Arrived, LastTrigger, After, Legal, Open, Overflows;
    OutcomeOfExit(c, es, i);
  }

  // --------------------------------------------------------------- clocks

  /** Until it fires, the wall-clock timer is armed for the end of the wall-time limit or
      for the deadline, whichever comes first, and for the start if that has passed. */
  lemma {:induction false} WallTimerArmed(c: Config, es: Run)
    requires Legal(c, es) && Open(es) && !TimerRan(c, es)
    ensures WallTimer(c) < |After(c, es).timers|
    ensures var t := After(c, es).timers[WallTimer(c)];
      && t.armed && t.purpose.Term? && c.start <= t.due <= c.start + c.wallTimeMs
      && (c.invocationDeadline == None ==> t.due == c.start + c.wallTimeMs)
      && (c.invocationDeadline.Some? && c.invocationDeadline.value <= c.start ==> t.due == c.start)
      && (c.invocationDeadline.Some? && c.start <= c.invocationDeadline.value <= c.start + c.wallTimeMs ==>
            t.due == c.invocationDeadline.value)
      && (c.invocationDeadline.Some? && c.invocationDeadline.value >= c.start + c.wallTimeMs ==> t.due == c.start + c.wallTimeMs)
    decreases |es|
  {
    if es != [] {
      hide Step, Config.TermDue;
      WallTimerArmed(c, Front(es));
      WallTimerStays(c, After(c, Front(es)), Last(es));
    }
  }

  lemma WallTimerStays(c: Config, s: State, o: Occurrence)
    requires Allowed(s, o) && !Settles(o) && o.event != TimerFires(WallTimer(c)) && WallTimer(c) < |s.timers|
    ensures WallTimer(c) < |Step(c, s, o).timers| && Step(c, s, o).timers[WallTimer(c)] == s.timers[WallTimer(c)]
  {
    hide Config.TermDue, Config.KillAt, Config.TimerLabel, Config.Grace, WallTimer;
  }

  /** While the child runs, every SIGTERM has a SIGKILL armed for the end of the grace
      period, five seconds unless it was set otherwise, or requested no earlier. */
  lemma GraceGiven(c: Config, es: Run, m: nat)
    requires Legal(c, es) && Open(es) && m < |After(c, es).sent| && After(c, es).sent[m].signal == SIGTERM
    ensures var s, due := After(c, es), After(c, es).sent[m].at + (if c.graceMs.None? then 5000 else c.graceMs.value);
      (exists t :: t in s.timers && t.purpose.Kill? && t.armed && t.due == due) ||
      (exists r :: r in s.sent && r.signal == SIGKILL && due <= r.at)
  {
    hide After, Legal;
    EscalationsCarriedOut(c, es);
    var s, due := After(c, es), After(c, es).sent[m].at + c.Grace();
    assert NotForgotten(c, s, m);
    if Pending(c, s, due) {
      var i :| 0 <= i < |s.timers| && s.timers[i] == Timer(Kill, due, true);
      assert s.timers[i] in s.timers;
    } else {
      var k :| m < k < |s.sent| && s.sent[k].signal == SIGKILL && due <= s.sent[k].at;
      assert s.sent[k] in s.sent;
    }
  }
}
