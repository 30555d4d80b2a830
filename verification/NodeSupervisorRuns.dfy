/** Safety of the TypeScript supervisor over every order of callbacks. */
module NodeSupervisorRuns {
  import opened Wrappers
  import opened Processes
  import opened NodeSupervisor

  type Run = seq<Occurrence>

  function Front(es: Run): Run
    requires es != []
  {
    es[..|es| - 1]
  }

  function Last(es: Run): Occurrence
    requires es != []
  {
    es[|es| - 1]
  }

  function Clock(c: Config, es: Run): int { if es == [] then c.start else Last(es).at }

  /** Callbacks come one at a time, in the order of the clock, and only when allowed. */
  predicate Legal(c: Config, es: Run)
    decreases |es|, 0
  {
    es == [] ||
    (Legal(c, Front(es)) && Clock(c, Front(es)) <= Last(es).at && Allowed(After(c, Front(es)), Last(es)))
  }

  function After(c: Config, es: Run): State
    requires Legal(c, es)
    decreases |es|, 1
  {
    if es == [] then Start(c) else Step(c, After(c, Front(es)), Last(es))
  }

  lemma {:induction false} LegalPrefix(c: Config, es: Run, i: nat)
    requires Legal(c, es) && i <= |es|
    ensures Legal(c, es[..i])
    decreases |es|
  {
    if i == |es| {
      assert es[..i] == es;
    } else {
      assert Front(es)[..i] == es[..i];
      LegalPrefix(c, Front(es), i);
    }
  }

  predicate Settles(o: Occurrence) { o.event.Exit? || o.event.Error? }

  /** Neither an exit nor an error has been reported yet. */
  predicate Open(es: Run) { forall k :: 0 <= k < |es| ==> !Settles(es[k]) }

  /** Everything that was delivered on one stream. */
  function Arrived(es: Run, stream: Stream): Bytes {
    if es == [] then []
    else Arrived(Front(es), stream)
         + (if Last(es).event.Data? && Last(es).event.stream == stream then Last(es).event.chunk else [])
  }

  predicate Within(c: Config, es: Run) {
    |Arrived(es, Stdout)| <= c.maxStdoutBytes && |Arrived(es, Stderr)| <= c.maxStderrBytes
  }

  /** The first chunk that takes a stream over its bound is delivered at position `j`. */
  predicate Overflows(c: Config, es: Run, j: nat) {
    j < |es| && Within(c, es[..j]) && !Within(c, es[..j + 1])
  }

  lemma {:induction false} OverflowExists(c: Config, es: Run) returns (j: nat)
    requires !Within(c, es)
    ensures Overflows(c, es, j)
    decreases |es|
  {
    var front := Front(es);
    if Within(c, front) {
      j := |es| - 1;
      assert es[..j] == front && es[..j + 1] == es;
    } else {
      j := OverflowExists(c, front);
      assert front[..j] == es[..j] && front[..j + 1] == es[..j + 1];
    }
  }

  // -------------------------------------------------------------- capture

  ghost predicate Counting(s: State) { s.stdoutBytes == |s.stdout| && s.stderrBytes == |s.stderr| }

  lemma {:induction false} WhileOpen(c: Config, es: Run)
    requires Legal(c, es) && Open(es)
    ensures var s := After(c, es); !s.settled && s.outcomes == [] && s.exitCode.None? && Counting(s)
    decreases |es|
  {
    hide Step;
    if es != [] {
      WhileOpen(c, Front(es));
      OpenStep(c, After(c, Front(es)), Last(es));
    }
  }

  lemma OpenStep(c: Config, s: State, o: Occurrence)
    requires Allowed(s, o) && !Settles(o) && !s.settled && s.exitCode.None? && Counting(s)
    ensures var t := Step(c, s, o); !t.settled && t.outcomes == s.outcomes && t.exitCode.None? && Counting(t)
  {
  }

  /** Below both bounds, everything that arrived is captured. */
  lemma {:induction false} AllCaptured(c: Config, es: Run)
    requires Legal(c, es) && Open(es) && Within(c, es)
    ensures var s := After(c, es); s.limitHit.None? && s.stdout == Arrived(es, Stdout) && s.stderr == Arrived(es, Stderr)
    decreases |es|
  {
    if es != [] {
      WhileOpen(c, Front(es));
      AllCaptured(c, Front(es));
    }
  }

  /** Over a bound, what is captured is what arrived before the chunk that overflowed. */
  lemma {:induction false} CapturedUpTo(c: Config, es: Run, j: nat)
    requires Legal(c, es) && Open(es) && Overflows(c, es, j)
    ensures es[j].event.Data?
    ensures var s := After(c, es);
      s.limitHit == Some(es[j].event.stream) &&
      s.stdout == Arrived(es[..j], Stdout) && s.stderr == Arrived(es[..j], Stderr)
    decreases |es|
  {
    var front := Front(es);
    WhileOpen(c, front);
    if j == |es| - 1 {
      assert es[..j] == front && es[..j + 1] == es;
      AllCaptured(c, front);
    } else {
      hide Step;
      assert front[..j] == es[..j] && front[..j + 1] == es[..j + 1];
      CapturedUpTo(c, front, j);
      LimitStays(c, After(c, front), Last(es));
    }
  }

  lemma LimitStays(c: Config, s: State, o: Occurrence)
    requires Allowed(s, o) && !Settles(o) && s.limitHit.Some?
    ensures var t := Step(c, s, o); t.limitHit == s.limitHit && t.stdout == s.stdout && t.stderr == s.stderr
  {
  }

  // ------------------------------------------------------------- settling

  ghost predicate Quiet(s: State) {
    s.settled && !s.listening && forall i :: 0 <= i < |s.timers| ==> !s.timers[i].armed
  }

  /** What a settled supervisor has decided and done. */
  predicate SameEffects(s: State, t: State) {
    s.outcomes == t.outcomes && s.sent == t.sent && s.stdout == t.stdout && s.stderr == t.stderr
  }

  lemma QuietStep(c: Config, s: State, o: Occurrence)
    requires Quiet(s) && Allowed(s, o)
    ensures !o.event.Abort? && !o.event.TimerFires?
    ensures Quiet(Step(c, s, o)) && SameEffects(s, Step(c, s, o))
  {
  }

  lemma SettlesQuietly(c: Config, s: State, o: Occurrence)
    requires Settles(o) && !s.settled
    ensures Quiet(Step(c, s, o)) && |Step(c, s, o).outcomes| == |s.outcomes| + 1
    ensures Step(c, s, o).stdout == s.stdout && Step(c, s, o).stderr == s.stderr
  {
  }

  /** After the first exit or error there is one outcome for good, and neither a timer
      nor the abort listener runs: no further signal is requested. */
  lemma {:induction false} SilentAfterSettling(c: Config, es: Run, i: nat)
    requires Legal(c, es) && i < |es| && Open(es[..i]) && Settles(es[i])
    ensures Legal(c, es[..i + 1]) && Quiet(After(c, es)) && |After(c, es).outcomes| == 1
    ensures SameEffects(After(c, es[..i + 1]), After(c, es))
    ensures forall k :: i < k < |es| ==> !es[k].event.Abort? && !es[k].event.TimerFires?
    decreases |es|
  {
    hide Step;
    var front := Front(es);
    LegalPrefix(c, es, i + 1);
    if i == |es| - 1 {
      assert es[..i] == front && es[..i + 1] == es;
      WhileOpen(c, front);
      SettlesQuietly(c, After(c, front), es[i]);
    } else {
      assert front[..i] == es[..i] && front[..i + 1] == es[..i + 1];
      SilentAfterSettling(c, front, i);
      QuietStep(c, After(c, front), Last(es));
    }
  }

  lemma {:induction false} FirstSettling(es: Run) returns (i: nat)
    requires !Open(es)
    ensures i < |es| && Open(es[..i]) && Settles(es[i])
  {
    if !Open(Front(es)) {
      i := FirstSettling(Front(es));
      assert Front(es)[..i] == es[..i];
    } else {
      i := |es| - 1;
    }
  }

  /** Exactly one outcome once an exit or an error has been reported, none before. */
  lemma OneOutcome(c: Config, es: Run)
    requires Legal(c, es)
    ensures |After(c, es).outcomes| == if Open(es) then 0 else 1
  {
    if Open(es) {
      WhileOpen(c, es);
    } else {
      var i := FirstSettling(es);
      SilentAfterSettling(c, es, i);
    }
  }

  /** The timer that watches the wall clock is the first one registered, or the
      second after an abort that came before everything. */
  function WallTimer(c: Config): nat { if c.abortedAtStart then 1 else 0 }

  /** The trigger of the latest escalation, `wall_time` when there was none. */
  function LastTrigger(c: Config, es: Run): KillTrigger {
    if es == [] then if c.abortedAtStart then Shutdown else WallTime
    else match Last(es).event
      case Abort => Shutdown
      case TimerFires(i) => if i == WallTimer(c) then c.TimerLabel() else LastTrigger(c, Front(es))
      case _ => LastTrigger(c, Front(es))
  }

  lemma {:induction false} TriggerSoFar(c: Config, es: Run)
    requires Legal(c, es) && Open(es)
    ensures After(c, es).killTrigger == LastTrigger(c, es) && OneWallTimer(c, After(c, es))
    decreases |es|
  {
    hide Step;
    if es != [] {
      TriggerSoFar(c, Front(es));
      TriggerStep(c, After(c, Front(es)), Last(es));
    }
  }

  ghost predicate OneWallTimer(c: Config, s: State) {
    WallTimer(c) < |s.timers| && forall i :: 0 <= i < |s.timers| ==> (s.timers[i].purpose.Term? <==> i == WallTimer(c))
  }

  lemma TriggerStep(c: Config, s: State, o: Occurrence)
    requires Allowed(s, o) && !Settles(o) && OneWallTimer(c, s)
    ensures OneWallTimer(c, Step(c, s, o))
    ensures Step(c, s, o).killTrigger == match o.event
      case Abort => Shutdown
      case TimerFires(i) => if i == WallTimer(c) then c.TimerLabel() else s.killTrigger
      case _ => s.killTrigger
  {
    hide OnExit, Settle, Verdict, Config.TermDue, Config.KillAt, Config.TimerLabel, Config.Grace;
    match o.event
    case TimerFires(i) =>
    case Abort =>
    case Data(_, _) =>
  }

  /** The outcome, read off the callbacks alone: the stream that overflowed first,
      or else the verdict on the exit with everything that arrived before it. */
  lemma OutcomeOfExit(c: Config, es: Run, i: nat)
    requires Legal(c, es) && i < |es| && Open(es[..i]) && es[i].event.Exit?
    ensures Within(c, es[..i]) ==>
      After(c, es).outcomes == [Verdict(es[i].event.code, es[i].event.signal, LastTrigger(c, es[..i]),
                                        Arrived(es[..i], Stdout), Arrived(es[..i], Stderr))]
    ensures forall j :: 0 <= j < i && Overflows(c, es[..i], j) ==>
      es[j].event.Data? &&
      After(c, es).outcomes == [OutputLimit(es[j].event.stream, Arrived(es[..j], Stdout), Arrived(es[..j], Stderr))]
  {
    hide Arrived, LastTrigger, Within, Overflows;
    var before := es[..i];
    SilentAfterSettling(c, es, i);
    assert Front(es[..i + 1]) == before && Last(es[..i + 1]) == es[i];
    LegalPrefix(c, es, i);
    WhileOpen(c, before);
    TriggerSoFar(c, before);
    if Within(c, before) { AllCaptured(c, before); }
    forall j | 0 <= j < i && Overflows(c, before, j)
      ensures es[j].event.Data? && After(c, es).outcomes ==
        [OutputLimit(es[j].event.stream, Arrived(es[..j], Stdout), Arrived(es[..j], Stderr))]
    {
      CapturedUpTo(c, before, j);
      assert before[..j] == es[..j];
    }
  }

  lemma OutcomeOfError(c: Config, es: Run, i: nat)
    requires Legal(c, es) && i < |es| && Open(es[..i]) && es[i].event.Error?
    ensures After(c, es).outcomes == [SpawnFailed(es[i].event.message)]
  {
    SilentAfterSettling(c, es, i);
    assert Front(es[..i + 1]) == es[..i] && Last(es[..i + 1]) == es[i];
    WhileOpen(c, es[..i]);
  }

  /** Success is reported exactly when the first settling callback is an exit with
      code zero, by no kill signal, and no bound was passed before it; the streams
      are then complete up to the exit. */
  lemma SucceededExactly(c: Config, es: Run, stdout: Bytes, stderr: Bytes)
    requires Legal(c, es)
    ensures After(c, es).outcomes == [Succeeded(stdout, stderr)] <==>
      exists i :: 0 <= i < |es| && Open(es[..i]) && es[i].event.Exit? && es[i].event.code == Some(0) &&
        es[i].event.signal != Some(Terminated) && es[i].event.signal != Some(Killed) &&
        Within(c, es[..i]) && stdout == Arrived(es[..i], Stdout) && stderr == Arrived(es[..i], Stderr)
  {
    hide Arrived, LastTrigger, Within, Overflows, After, Legal;
    OneOutcome(c, es);
    if !Open(es) {
      var i := FirstSettling(es);
      if es[i].event.Error? {
        OutcomeOfError(c, es, i);
      } else {
        OutcomeOfExit(c, es, i);
        if !Within(c, es[..i]) { var j := OverflowExists(c, es[..i]); OverflowInside(c, es[..i], j); }
      }
    }
  }

  lemma OverflowInside(c: Config, es: Run, j: nat)
    requires Overflows(c, es, j)
    ensures j < |es|
  {
  }

  lemma {:induction false} ArrivedConcat(a: Run, b: Run, stream: Stream)
    ensures Arrived(a + b, stream) == Arrived(a, stream) + Arrived(b, stream)
  {
    if b == [] {
      assert a + b == a;
    } else {
      assert Front(a + b) == a + Front(b) && Last(a + b) == Last(b);
      ArrivedConcat(a, Front(b), stream);
    }
  }

  /** Output that is delivered after the exit callback is lost without notice: a
      successful outcome has the whole of a stream exactly when nothing follows. */
  lemma LateOutputIsLost(c: Config, es: Run, i: nat)
    requires Legal(c, es) && i < |es| && Open(es[..i]) && es[i].event == Exit(Some(0), None) && Within(c, es[..i])
    ensures After(c, es).outcomes == [Succeeded(Arrived(es[..i], Stdout), Arrived(es[..i], Stderr))]
    ensures forall stream :: Arrived(es[..i], stream) == Arrived(es, stream) <==> Arrived(es[i..], stream) == []
  {
    hide After, Legal, Within, Overflows, Arrived;
    OutcomeOfExit(c, es, i);
    assert es == es[..i] + es[i..];
    forall stream ensures Arrived(es[..i], stream) == Arrived(es, stream) <==> Arrived(es[i..], stream) == [] {
      ArrivedConcat(es[..i], es[i..], stream);
    }
  }

  /** In every run, the counters are the sizes of what was captured and within bounds. */
  lemma {:induction false} BoundsHold(c: Config, es: Run)
    requires Legal(c, es)
    ensures Counting(After(c, es))
    ensures After(c, es).stdoutBytes <= c.maxStdoutBytes && After(c, es).stderrBytes <= c.maxStderrBytes
    decreases |es|
  {
    hide Step;
    if es != [] {
      BoundsHold(c, Front(es));
      BoundsStep(c, After(c, Front(es)), Last(es));
    }
  }

  lemma BoundsStep(c: Config, s: State, o: Occurrence)
    requires Allowed(s, o) && Counting(s) && s.stdoutBytes <= c.maxStdoutBytes && s.stderrBytes <= c.maxStderrBytes
    ensures Counting(Step(c, s, o))
    ensures Step(c, s, o).stdoutBytes <= c.maxStdoutBytes && Step(c, s, o).stderrBytes <= c.maxStderrBytes
  {
  }

  /** In every run, one moment explains both captured streams: what had arrived by then. */
  lemma CapturedIsPrefix(c: Config, es: Run) returns (j: nat)
    requires Legal(c, es)
    ensures j <= |es|
    ensures After(c, es).stdout == Arrived(es[..j], Stdout) && After(c, es).stderr == Arrived(es[..j], Stderr)
    ensures Arrived(es[..j], Stdout) <= Arrived(es, Stdout) && Arrived(es[..j], Stderr) <= Arrived(es, Stderr)
  {
    hide After, Within, Legal, Arrived, Overflows;
    var i := |es|;
    if !Open(es) { i := FirstSettling(es); }
    LegalPrefix(c, es, i);
    CapturedSame(c, es, i);
    j := i;
    if Within(c, es[..i]) {
      AllCaptured(c, es[..i]);
    } else {
      j := OverflowExists(c, es[..i]);
      OverflowInside(c, es[..i], j);
      CapturedUpTo(c, es[..i], j);
      assert es[..i][..j] == es[..j];
    }
    assert es == es[..j] + es[j..];
    ArrivedConcat(es[..j], es[j..], Stdout);
    ArrivedConcat(es[..j], es[j..], Stderr);
  }

  lemma CapturedSame(c: Config, es: Run, i: nat)
    requires Legal(c, es) && i <= |es| && Open(es[..i]) && (i < |es| ==> Settles(es[i]))
    ensures Legal(c, es[..i])
    ensures After(c, es).stdout == After(c, es[..i]).stdout && After(c, es).stderr == After(c, es[..i]).stderr
  {
    hide Step;
    LegalPrefix(c, es, i);
    if i < |es| {
      SilentAfterSettling(c, es, i);
      assert Front(es[..i + 1]) == es[..i] && Last(es[..i + 1]) == es[i];
      WhileOpen(c, es[..i]);
      SettlesQuietly(c, After(c, es[..i]), es[i]);
    } else {
      assert es[..i] == es;
    }
  }

  // -------------------------------------------------------------- signals

  ghost predicate GraceOver(c: Config, sent: seq<Request>, n: nat, at: int) {
    exists m :: 0 <= m < n && m < |sent| && sent[m].signal == SIGTERM && sent[m].at + c.Grace() <= at
  }

  ghost predicate Backed(c: Config, sent: seq<Request>, due: int) {
    exists m :: 0 <= m < |sent| && sent[m].signal == SIGTERM && sent[m].at + c.Grace() == due
  }

  ghost predicate OverflowAt(c: Config, es: Run, at: int) {
    exists j :: 0 <= j < |es| && Overflows(c, es, j) && es[j].at == at
  }

  ghost predicate AbortAt(c: Config, es: Run, at: int) {
    (c.abortedAtStart && at == c.start) || exists j :: 0 <= j < |es| && es[j].event.Abort? && es[j].at == at
  }

  /** Why the `k`-th signal was requested. */
  ghost predicate Justified(c: Config, es: Run, sent: seq<Request>, k: nat)
    requires k < |sent|
  {
    match sent[k].signal
    case SIGTERM => AbortAt(c, es, sent[k].at) || c.TermDue() <= sent[k].at
    case SIGKILL => OverflowAt(c, es, sent[k].at) || GraceOver(c, sent, k, sent[k].at)
  }

  /** Every signal so far is justified, and so is every signal a timer would request. */
  ghost predicate Accounted(c: Config, es: Run, s: State) {
    (forall k :: 0 <= k < |s.sent| ==> Justified(c, es, s.sent, k)) &&
    (!c.hasPid ==> s.sent == []) &&
    forall i :: 0 <= i < |s.timers| ==>
      if s.timers[i].purpose.Term? then s.timers[i].due == c.TermDue() else c.hasPid ==> Backed(c, s.sent, s.timers[i].due)
  }

  lemma JustifiedLater(c: Config, es: Run, o: Occurrence, sent: seq<Request>, r: Request, k: nat)
    requires k < |sent| && Justified(c, es, sent, k)
    ensures Justified(c, es + [o], sent, k) && Justified(c, es + [o], sent + [r], k)
  {
    var longer := es + [o];
    var at := sent[k].at;
    if AbortAt(c, es, at) && !(c.abortedAtStart && at == c.start) {
      var j :| 0 <= j < |es| && es[j].event.Abort? && es[j].at == at;
      assert longer[j] == es[j];
    }
    if OverflowAt(c, es, at) {
      var j :| 0 <= j < |es| && Overflows(c, es, j) && es[j].at == at;
      assert longer[..j] == es[..j] && longer[..j + 1] == es[..j + 1] && longer[j] == es[j];
      assert Overflows(c, longer, j);
    }
    if GraceOver(c, sent, k, at) {
      var m :| 0 <= m < k && m < |sent| && sent[m].signal == SIGTERM && sent[m].at + c.Grace() <= at;
      assert (sent + [r])[m] == sent[m];
    }
  }

  lemma BackedLater(c: Config, sent: seq<Request>, r: Request, due: int)
    requires Backed(c, sent, due)
    ensures Backed(c, sent + [r], due)
  {
    var m :| 0 <= m < |sent| && sent[m].signal == SIGTERM && sent[m].at + c.Grace() == due;
    assert (sent + [r])[m] == sent[m];
  }

  /** Requesting one more justified signal keeps the account. */
  lemma AccountedSend(c: Config, es: Run, o: Occurrence, s: State, signal: Signal, t: State)
    requires Accounted(c, es, s) && t.timers == s.timers
    requires t.sent == if c.hasPid then s.sent + [Request(signal, o.at)] else s.sent
    requires c.hasPid ==> Justified(c, es + [o], t.sent, |s.sent|)
    ensures Accounted(c, es + [o], t)
  {
    var r := Request(signal, o.at);
    forall k | 0 <= k < |t.sent| ensures Justified(c, es + [o], t.sent, k) {
      if k < |s.sent| { JustifiedLater(c, es, o, s.sent, r, k); }
    }
    forall i | 0 <= i < |t.timers| && t.timers[i].purpose.Kill? && c.hasPid ensures Backed(c, t.sent, t.timers[i].due) {
      BackedLater(c, s.sent, r, t.timers[i].due);
    }
  }

  lemma AccountedKeep(c: Config, es: Run, o: Occurrence, s: State, t: State)
    requires Accounted(c, es, s) && t.timers == s.timers && t.sent == s.sent
    ensures Accounted(c, es + [o], t)
  {
    forall k | 0 <= k < |t.sent| ensures Justified(c, es + [o], t.sent, k) {
      JustifiedLater(c, es, o, s.sent, Request(SIGTERM, 0), k);
    }
  }

  lemma AccountedEscalate(c: Config, es: Run, o: Occurrence, s: State, trigger: KillTrigger)
    requires Accounted(c, es, s) && s.exitCode.None?
    requires AbortAt(c, es + [o], o.at) || c.TermDue() <= o.at
    ensures Accounted(c, es + [o], Escalate(c, s, trigger, o.at))
  {
    var t := KillGroup(c, s.(killTrigger := trigger), SIGTERM, o.at);
    AccountedSend(c, es, o, s, SIGTERM, t);
    if c.hasPid { assert t.sent[|s.sent|] == Request(SIGTERM, o.at); assert Backed(c, t.sent, o.at + c.Grace()); }
  }

  lemma AccountedTimer(c: Config, es: Run, o: Occurrence, s: State, i: nat)
    requires Accounted(c, es, s) && s.exitCode.None? && i < |s.timers| && s.timers[i].due <= o.at
    ensures Accounted(c, es + [o], OnTimer(c, s, i, o.at))
  {
    hide Justified, AbortAt, Backed, GraceOver, OverflowAt;
    var t := s.(timers := s.timers[i := s.timers[i].(armed := false)]);
    assert Accounted(c, es, t);
    if s.timers[i].purpose.Kill? {
      if c.hasPid { KillIsJustified(c, es + [o], s.sent, s.timers[i].due, o.at); }
      AccountedSend(c, es, o, t, SIGKILL, OnTimer(c, s, i, o.at));
    } else {
      AccountedEscalate(c, es, o, t, c.TimerLabel());
    }
  }

  lemma KillIsJustified(c: Config, es: Run, sent: seq<Request>, due: int, at: int)
    requires Backed(c, sent, due) && due <= at
    ensures Justified(c, es, sent + [Request(SIGKILL, at)], |sent|)
  {
    var m :| 0 <= m < |sent| && sent[m].signal == SIGTERM && sent[m].at + c.Grace() == due;
    assert (sent + [Request(SIGKILL, at)])[m] == sent[m];
  }

  /** Before the exit, SIGTERM is requested only by an abort or once the earlier of
      the two clocks is over, and SIGKILL only at the moment a stream overflows or a
      full grace period after a SIGTERM. */
  lemma {:induction false} SignalsJustified(c: Config, es: Run)
    requires Legal(c, es) && Open(es)
    ensures Accounted(c, es, After(c, es))
    decreases |es|
  {
    hide Accounted, Arrived, Within, Overflows, OverflowAt, Verdict, OnExit;
    if es == [] {
      StartAccounted(c);
    } else {
      var front, o := Front(es), Last(es);
      SignalsJustified(c, front);
      WhileOpen(c, front);
      assert front + [o] == es;
      var s := After(c, front);
      match o.event
      case Abort =>
        assert AbortAt(c, es, o.at);
        AccountedUnlistened(c, front, s);
        AccountedEscalate(c, front, o, s.(listening := false), Shutdown);
      case TimerFires(i) => AccountedTimer(c, front, o, s, i);
      case Data(stream, chunk) =>
        if s.limitHit.None? && Counted(s, stream) + |chunk| > c.Limit(stream) {
          OverflowNow(c, es);
          OverflowJustifies(c, es, s.sent, o.at);
          AccountedSend(c, front, o, s, SIGKILL, After(c, es));
        } else {
          AccountedKeep(c, front, o, s, After(c, es));
        }
    }
  }

  lemma AccountedUnlistened(c: Config, es: Run, s: State)
    requires Accounted(c, es, s)
    ensures Accounted(c, es, s.(listening := false))
  {
  }

  lemma OverflowJustifies(c: Config, es: Run, sent: seq<Request>, at: int)
    requires OverflowAt(c, es, at)
    ensures Justified(c, es, sent + [Request(SIGKILL, at)], |sent|)
  {
  }

  lemma StartAccounted(c: Config)
    ensures Accounted(c, [], Start(c))
  {
    var sent := Start(c).sent;
    if c.abortedAtStart && c.hasPid {
      assert sent[0] == Request(SIGTERM, c.start);
      assert Backed(c, sent, c.start + c.Grace());
    }
  }

  /** The chunk that makes the supervisor act on a bound is the one that overflows. */
  lemma OverflowNow(c: Config, es: Run)
    requires Legal(c, es) && Open(es) && es != [] && Last(es).event.Data?
    requires var s := After(c, Front(es));
      s.limitHit.None? && Counted(s, Last(es).event.stream) + |Last(es).event.chunk| > c.Limit(Last(es).event.stream)
    ensures OverflowAt(c, es, Last(es).at)
  {
    var front, j := Front(es), |es| - 1;
    WhileOpen(c, front);
    if !Within(c, front) {
      var k := OverflowExists(c, front);
      CapturedUpTo(c, front, k);
    }
    AllCaptured(c, front);
    assert es[..j] == front && es[..j + 1] == es;
    assert Overflows(c, es, j);
  }

  // -------------------------------------------------- every SIGTERM is followed up

  ghost predicate Pending(c: Config, s: State, due: int) {
    exists i :: 0 <= i < |s.timers| && s.timers[i] == Timer(Kill, due, true)
  }

  ghost predicate Followed(s: State, m: nat, due: int) {
    exists k :: m < k < |s.sent| && s.sent[k].signal == SIGKILL && due <= s.sent[k].at
  }

  /** The escalation that request `m` began is still pending or has been carried out. */
  ghost predicate NotForgotten(c: Config, s: State, m: nat)
    requires m < |s.sent|
  {
    var due := s.sent[m].at + c.Grace();
    Pending(c, s, due) || Followed(s, m, due)
  }

  ghost predicate NoneForgotten(c: Config, s: State) {
    forall m :: 0 <= m < |s.sent| && s.sent[m].signal == SIGTERM ==> NotForgotten(c, s, m)
  }

  /** What a callback before the exit does to timers and signals. */
  lemma EffectsGrow(c: Config, s: State, o: Occurrence)
    requires s.exitCode.None? && Allowed(s, o) && !Settles(o)
    ensures var t := Step(c, s, o);
      s.sent <= t.sent && |t.sent| <= |s.sent| + 1 && |s.timers| <= |t.timers| &&
      (forall i :: 0 <= i < |s.timers| && o.event != TimerFires(i) ==> t.timers[i] == s.timers[i]) &&
      (|t.sent| > |s.sent| && t.sent[|s.sent|].signal == SIGTERM ==>
        t.timers != [] && t.timers[|t.timers| - 1] == Timer(Kill, t.sent[|s.sent|].at + c.Grace(), true)) &&
      (o.event.TimerFires? && s.timers[o.event.index].purpose.Kill? && c.hasPid ==> t.sent == s.sent + [Request(SIGKILL, o.at)])
  {
  }

  lemma FollowUpStep(c: Config, s: State, o: Occurrence)
    requires NoneForgotten(c, s) && s.exitCode.None? && (!c.hasPid ==> s.sent == []) && Allowed(s, o) && !Settles(o)
    ensures NoneForgotten(c, Step(c, s, o))
  {
    var t := Step(c, s, o);
    EffectsGrow(c, s, o);
    forall m | 0 <= m < |t.sent| && t.sent[m].signal == SIGTERM ensures NotForgotten(c, t, m) {
      hide Step;
      var due := t.sent[m].at + c.Grace();
      if m == |s.sent| {
        assert t.timers[|t.timers| - 1] == Timer(Kill, due, true);
      } else {
        assert t.sent[m] == s.sent[m] && NotForgotten(c, s, m);
        StillFollowedUp(c, s, o, t, m);
      }
    }
  }

  lemma StillFollowedUp(c: Config, s: State, o: Occurrence, t: State, m: nat)
    requires m < |s.sent| && c.hasPid && NotForgotten(c, s, m) && Allowed(s, o) && s.sent <= t.sent && |s.timers| <= |t.timers|
    requires forall i :: 0 <= i < |s.timers| && o.event != TimerFires(i) ==> t.timers[i] == s.timers[i]
    requires o.event.TimerFires? && s.timers[o.event.index].purpose.Kill? ==> t.sent == s.sent + [Request(SIGKILL, o.at)]
    ensures NotForgotten(c, t, m)
  {
    var due := s.sent[m].at + c.Grace();
    if Followed(s, m, due) {
      var k :| m < k < |s.sent| && s.sent[k].signal == SIGKILL && due <= s.sent[k].at;
      assert t.sent[k] == s.sent[k];
    } else {
      var i :| 0 <= i < |s.timers| && s.timers[i] == Timer(Kill, due, true);
      if o.event == TimerFires(i) {
        assert t.sent[|s.sent|] == Request(SIGKILL, o.at);
      } else {
        assert t.timers[i] == s.timers[i];
      }
    }
  }

  /** While the child runs, every SIGTERM has its SIGKILL armed for the end of the
      grace period, or already requested at or after it. */
  lemma {:induction false} EscalationsCarriedOut(c: Config, es: Run)
    requires Legal(c, es) && Open(es)
    ensures NoneForgotten(c, After(c, es))
    decreases |es|
  {
    hide Step, NoneForgotten;
    if es == [] {
      StartFollowedUp(c);
    } else {
      EscalationsCarriedOut(c, Front(es));
      WhileOpen(c, Front(es));
      SignalsJustified(c, Front(es));
      FollowUpStep(c, After(c, Front(es)), Last(es));
    }
  }

  lemma StartFollowedUp(c: Config)
    ensures NoneForgotten(c, Start(c))
  {
    var s := Start(c);
    if c.abortedAtStart { assert s.timers[0] == Timer(Kill, c.start + c.Grace(), true); }
  }

  // --------------------------------------------------------------- budget

  function Weight(timers: seq<Timer>): nat {
    if timers == [] then 0
    else Weight(timers[..|timers| - 1]) +
         var t := timers[|timers| - 1]; if !t.armed then 0 else if t.purpose.Term? then 2 else 1
  }

  lemma {:induction false} WeightFire(timers: seq<Timer>, i: nat)
    requires i < |timers| && timers[i].armed
    ensures Weight(timers[i := timers[i].(armed := false)]) + (if timers[i].purpose.Term? then 2 else 1) == Weight(timers)
    decreases |timers|
  {
    var after := timers[i := timers[i].(armed := false)];
    var n := |timers| - 1;
    if i == n {
      assert after[..n] == timers[..n];
    } else {
      assert after[..n] == timers[..n][i := timers[i].(armed := false)];
      WeightFire(timers[..n], i);
    }
  }

  lemma WeightPush(timers: seq<Timer>, t: Timer)
    ensures Weight(timers + [t]) == Weight(timers) + if !t.armed then 0 else if t.purpose.Term? then 2 else 1
  {
    assert (timers + [t])[..|timers|] == timers;
  }

  /** How many more signals a state can still request. */
  function Budget(s: State): nat {
    if s.settled then 0
    else (if s.listening then 2 else 0) + Weight(s.timers) + (if s.limitHit.None? then 1 else 0) + 1
  }

  lemma BudgetStep(c: Config, s: State, o: Occurrence)
    requires Allowed(s, o) && (s.settled ==> Quiet(s))
    ensures |Step(c, s, o).sent| + Budget(Step(c, s, o)) <= |s.sent| + Budget(s)
  {
    hide Weight;
    match o.event
    case Abort => WeightPush(s.timers, Timer(Kill, o.at + c.Grace(), true));
    case TimerFires(i) =>
      WeightFire(s.timers, i);
      WeightPush(s.timers[i := s.timers[i].(armed := false)], Timer(Kill, o.at + c.Grace(), true));
    case _ =>
  }

  /** Over a whole run at most six signals are requested: two escalations of two, one
      for a byte bound and one at the exit. */
  lemma {:induction false} AtMostSixSignals(c: Config, es: Run)
    requires Legal(c, es)
    ensures |After(c, es).sent| + Budget(After(c, es)) <= 6
    decreases |es|
  {
    hide Step, Budget;
    if es == [] {
      StartBudget(c);
    } else {
      AtMostSixSignals(c, Front(es));
      QuietOnceSettled(c, Front(es));
      BudgetStep(c, After(c, Front(es)), Last(es));
    }
  }

  lemma StartBudget(c: Config)
    ensures |Start(c).sent| + Budget(Start(c)) <= 6
  {
    WeightPush([], Timer(Kill, c.start + c.Grace(), true));
    WeightPush([], Timer(Term, c.TermDue(), true));
    WeightPush([Timer(Kill, c.start + c.Grace(), true)], Timer(Term, c.TermDue(), true));
    assert [] + [Timer(Kill, c.start + c.Grace(), true)] == [Timer(Kill, c.start + c.Grace(), true)];
  }

  lemma QuietOnceSettled(c: Config, es: Run)
    requires Legal(c, es)
    ensures After(c, es).settled ==> Quiet(After(c, es))
  {
    if Open(es) {
      WhileOpen(c, es);
    } else {
      var i := FirstSettling(es);
      SilentAfterSettling(c, es, i);
    }
  }

  // ------------------------------------------------ what the record says

  /** The abort listener has run, at the start or later. */
  predicate AbortRan(c: Config, es: Run) {
    if es == [] then c.abortedAtStart else AbortRan(c, Front(es)) || Last(es).event.Abort?
  }

  /** The wall-clock timer has fired. */
  predicate TimerRan(c: Config, es: Run) {
    es != [] && (TimerRan(c, Front(es)) || Last(es).event == TimerFires(WallTimer(c)))
  }

  /** The trigger of the escalation that came first, `wall_time` when there was none. */
  function FirstTrigger(c: Config, es: Run): KillTrigger {
    if es == [] then LastTrigger(c, [])
    else if AbortRan(c, Front(es)) || TimerRan(c, Front(es)) then FirstTrigger(c, Front(es))
    else LastTrigger(c, es)
  }

  /** The listener is registered until the abort, and the wall-clock timer armed until it fires. */
  ghost predicate Subscribed(c: Config, es: Run, s: State) {
    (s.listening <==> !AbortRan(c, es)) &&
    WallTimer(c) < |s.timers| && (s.timers[WallTimer(c)].armed <==> !TimerRan(c, es))
  }

  lemma SubscribedStep(c: Config, s: State, o: Occurrence)
    requires Allowed(s, o) && !Settles(o) && WallTimer(c) < |s.timers|
    ensures var t := Step(c, s, o);
      (t.listening <==> s.listening && !o.event.Abort?) && WallTimer(c) < |t.timers| &&
      (t.timers[WallTimer(c)].armed <==> s.timers[WallTimer(c)].armed && o.event != TimerFires(WallTimer(c)))
  {
    hide OnExit, Settle, Verdict, Config.TermDue, Config.KillAt, Config.TimerLabel, Config.Grace;
  }

  lemma {:induction false} SubscribedSoFar(c: Config, es: Run)
    requires Legal(c, es) && Open(es)
    ensures Subscribed(c, es, After(c, es))
    decreases |es|
  {
    if es != [] {
      hide Step;
      SubscribedSoFar(c, Front(es));
      SubscribedStep(c, After(c, Front(es)), Last(es));
    }
  }

  /** Which escalations there were, in what order. */
  lemma {:induction false} TriggersSoFar(c: Config, es: Run)
    requires Legal(c, es) && Open(es)
    ensures AbortRan(c, es) && !TimerRan(c, es) ==> FirstTrigger(c, es) == LastTrigger(c, es) == Shutdown
    ensures TimerRan(c, es) && !AbortRan(c, es) ==> FirstTrigger(c, es) == LastTrigger(c, es) == c.TimerLabel()
    ensures !TimerRan(c, es) && !AbortRan(c, es) ==> FirstTrigger(c, es) == LastTrigger(c, es) == WallTime
    ensures AbortRan(c, es) && TimerRan(c, es) ==>
      {FirstTrigger(c, es), LastTrigger(c, es)} == {Shutdown, c.TimerLabel()}
    decreases |es|
  {
    if es != [] {
      hide After, Config.TimerLabel;
      TriggersSoFar(c, Front(es));
      OnceEach(c, es);
    }
  }

  /** Neither the abort listener nor the wall-clock timer runs twice. */
  lemma OnceEach(c: Config, es: Run)
    requires Legal(c, es) && Open(es) && es != []
    ensures Last(es).event.Abort? ==> !AbortRan(c, Front(es))
    ensures Last(es).event == TimerFires(WallTimer(c)) ==> !TimerRan(c, Front(es))
  {
    SubscribedSoFar(c, Front(es));
  }

  /** The trigger on record is that of the first escalation exactly when an abort and
      the wall-clock timer have not both begun one: the later one overwrites it. */
  lemma FirstTriggerKeptExactly(c: Config, es: Run)
    requires Legal(c, es) && Open(es)
    ensures After(c, es).killTrigger == FirstTrigger(c, es) <==> !(AbortRan(c, es) && TimerRan(c, es))
  {
    hide After, FirstTrigger, LastTrigger, AbortRan, TimerRan;
    TriggerSoFar(c, es);
    TriggersSoFar(c, es);
    assert c.TimerLabel() != Shutdown;
    assert AbortRan(c, es) && TimerRan(c, es) ==> Shutdown in {FirstTrigger(c, es), LastTrigger(c, es)};
    assert AbortRan(c, es) && TimerRan(c, es) ==> c.TimerLabel() in {FirstTrigger(c, es), LastTrigger(c, es)};
  }

  /** A child terminated after its clock ran out and then an abort came is reported as
      killed by the shutdown. */
  lemma LaterTriggerWins(c: Config, at: int, later: int, end: int)
    requires !c.abortedAtStart && c.TermDue() <= at <= later <= end
    ensures var es := [Occurrence(at, TimerFires(0)), Occurrence(later, Abort), Occurrence(end, Exit(None, Some(Terminated)))];
      Legal(c, es) && After(c, es).outcomes == [KilledBy(Shutdown, SIGTERM, [], [])]
  {
    var e0, e1, e2 := Occurrence(at, TimerFires(0)), Occurrence(later, Abort), Occurrence(end, Exit(None, Some(Terminated)));
    assert Front([e0]) == [] && Front([e0, e1]) == [e0] && Front([e0, e1, e2]) == [e0, e1];
    assert Legal(c, []) && Legal(c, [e0]) && Legal(c, [e0, e1]);
  }

  /** The clock that the timer watched: the deadline when it is not later than the
      wall-time limit. */
  function ClockThatFired(c: Config): KillTrigger {
    if c.invocationDeadline.Some? && c.invocationDeadline.value <= c.start + c.wallTimeMs then InvocationDeadline else WallTime
  }

  /** A child that dies by a kill signal after the wall-clock timer alone began an
      escalation is reported under the clock that ran out exactly when there is no
      deadline or the deadline is not after the wall-time limit. */
  lemma TimerLabelExactly(c: Config, es: Run, i: nat)
    requires Legal(c, es) && i < |es| && Open(es[..i]) && es[i].event.Exit? && Within(c, es[..i])
    requires es[i].event.signal == Some(Terminated) || es[i].event.signal == Some(Killed)
    requires TimerRan(c, es[..i]) && !AbortRan(c, es[..i])
    ensures |After(c, es).outcomes| == 1 && After(c, es).outcomes[0].KilledBy?
    ensures After(c, es).outcomes[0].trigger == ClockThatFired(c) <==>
      c.invocationDeadline.None? || c.invocationDeadline.value <= c.start + c.wallTimeMs
  {
    hide After, FirstTrigger, LastTrigger, Arrived, Within, AbortRan, TimerRan, Open;
    LegalPrefix(c, es, i);
    OutcomeOfExit(c, es, i);
    TriggersSoFar(c, es[..i]);
  }

  /** A wall-time kill that is reported as a missed deadline, the deadline being later. */
  lemma WrongLabel(c: Config, end: int)
    requires !c.abortedAtStart && c.invocationDeadline.Some? && c.start + c.wallTimeMs < c.invocationDeadline.value
    requires c.start + c.wallTimeMs <= end
    ensures var es := [Occurrence(c.start + c.wallTimeMs, TimerFires(0)), Occurrence(end, Exit(None, Some(Terminated)))];
      Legal(c, es) && After(c, es).outcomes == [KilledBy(InvocationDeadline, SIGTERM, [], [])] && ClockThatFired(c) == WallTime
  {
    var e0, e1 := Occurrence(c.start + c.wallTimeMs, TimerFires(0)), Occurrence(end, Exit(None, Some(Terminated)));
    assert Front([e0]) == [] && Front([e0, e1]) == [e0];
    assert Legal(c, []) && Legal(c, [e0]);
  }

  /** A chunk that arrives right after the exit is in no outcome. */
  lemma LateChunk(c: Config, chunk: Bytes)
    ensures var es := [Occurrence(c.start, Exit(Some(0), None)), Occurrence(c.start, Data(Stdout, chunk))];
      Legal(c, es) && Arrived(es, Stdout) == chunk && After(c, es).outcomes == [Succeeded([], [])]
  {
    var e0, e1 := Occurrence(c.start, Exit(Some(0), None)), Occurrence(c.start, Data(Stdout, chunk));
    assert Front([e0]) == [] && Front([e0, e1]) == [e0];
    assert Legal(c, []) && Legal(c, [e0]);
    assert Arrived([e0], Stdout) == [];
  }
}
