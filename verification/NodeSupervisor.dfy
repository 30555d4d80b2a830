/** The TypeScript supervisor of one child process, callback by callback. */
module NodeSupervisor {
  import opened Wrappers
  import opened Processes

  const ESCALATION_GRACE_MS: nat := 5000

  /** `start` is when supervision begins; `hasPid` says that the spawn succeeded. */
  datatype Config = Config(maxStdoutBytes: nat, maxStderrBytes: nat, wallTimeMs: nat, graceMs: Option<nat>,
                           invocationDeadline: Option<int>, start: int, hasPid: bool, abortedAtStart: bool)
  {
    function Grace(): nat { if graceMs.Some? then graceMs.value else ESCALATION_GRACE_MS }

    function Limit(stream: Stream): nat { if stream.Stdout? then maxStdoutBytes else maxStderrBytes }

    function KillAt(): int {
      var wall := start + wallTimeMs;
      if invocationDeadline.Some? && invocationDeadline.value < wall then invocationDeadline.value else wall
    }

    /** When the wall-clock timer is due: a past deadline fires at once. */
    function TermDue(): int { if KillAt() < start then start else KillAt() }

    /** What the wall-clock timer records. */
    function TimerLabel(): KillTrigger { if invocationDeadline.Some? then InvocationDeadline else WallTime }
  }

  datatype Purpose = Term | Kill

  datatype Timer = Timer(purpose: Purpose, due: int, armed: bool)

  /** The supervisor's variables, its subscriptions, and its two effects: the
      outcomes it resolved and the signals it requested. */
  datatype State = State(
    stdout: Bytes, stderr: Bytes, stdoutBytes: nat, stderrBytes: nat,
    settled: bool, limitHit: Option<Stream>, killTrigger: KillTrigger,
    timers: seq<Timer>, listening: bool, exitCode: Option<int>,
    outcomes: seq<Outcome>, sent: seq<Request>)

  // ------------------------------------------------------- specification

  function Cleared(timers: seq<Timer>): (r: seq<Timer>)
    ensures |r| == |timers|
  {
    seq(|timers|, i requires 0 <= i < |timers| => timers[i].(armed := false))
  }

  function Settle(s: State, outcome: Outcome): State {
    if s.settled then s
    else s.(settled := true, timers := Cleared(s.timers), listening := false, outcomes := s.outcomes + [outcome])
  }

  function KillGroup(c: Config, s: State, signal: Signal, now: int): State {
    if !c.hasPid || s.exitCode.Some? then s else s.(sent := s.sent + [Request(signal, now)])
  }

  function Escalate(c: Config, s: State, trigger: KillTrigger, now: int): State {
    var t := KillGroup(c, s.(killTrigger := trigger), SIGTERM, now);
    t.(timers := t.timers + [Timer(Kill, now + c.Grace(), true)])
  }

  /** The listener is registered for one call. */
  function OnAbort(c: Config, s: State, now: int): State {
    Escalate(c, s.(listening := false), Shutdown, now)
  }

  function Counted(s: State, stream: Stream): nat {
    if stream.Stdout? then s.stdoutBytes else s.stderrBytes
  }

  function Captured(s: State, stream: Stream): Bytes {
    if stream.Stdout? then s.stdout else s.stderr
  }

  function BoundStream(c: Config, s: State, stream: Stream, chunk: Bytes, now: int): State {
    if s.settled || s.limitHit.Some? then s
    else if Counted(s, stream) + |chunk| > c.Limit(stream) then
      KillGroup(c, s.(limitHit := Some(stream)), SIGKILL, now)
    else if stream.Stdout? then
      s.(stdoutBytes := s.stdoutBytes + |chunk|, stdout := s.stdout + chunk)
    else
      s.(stderrBytes := s.stderrBytes + |chunk|, stderr := s.stderr + chunk)
  }

  /** How an exit is reported when no byte limit was hit. */
  function Verdict(code: Option<int>, signal: Option<ExitSignal>, trigger: KillTrigger,
                   stdout: Bytes, stderr: Bytes): Outcome
  {
    if signal == Some(Terminated) then KilledBy(trigger, SIGTERM, stdout, stderr)
    else if signal == Some(Killed) then KilledBy(trigger, SIGKILL, stdout, stderr)
    else if code == Some(0) then Succeeded(stdout, stderr)
    else Failed(if code.Some? then code.value else -1, stdout, stderr)
  }

  /** The runtime records the exit code, then calls the handler. */
  function OnExit(c: Config, s: State, code: Option<int>, signal: Option<ExitSignal>, now: int): State {
    var t := if signal.None? then s.(exitCode := code) else s;
    if s.settled then t else
    var u := if c.hasPid then t.(sent := t.sent + [Request(SIGKILL, now)]) else t;
    if u.limitHit.Some? then Settle(u, OutputLimit(u.limitHit.value, u.stdout, u.stderr))
    else Settle(u, Verdict(code, signal, u.killTrigger, u.stdout, u.stderr))
  }

  function OnTimer(c: Config, s: State, i: nat, now: int): State
    requires i < |s.timers|
  {
    var t := s.(timers := s.timers[i := s.timers[i].(armed := false)]);
    if s.timers[i].purpose.Kill? then KillGroup(c, t, SIGKILL, now) else Escalate(c, t, c.TimerLabel(), now)
  }

  function Start(c: Config): State {
    var s := State([], [], 0, 0, false, None, WallTime, [], !c.abortedAtStart, None, [], []);
    var t := if c.abortedAtStart then OnAbort(c, s, c.start) else s;
    t.(timers := t.timers + [Timer(Term, c.TermDue(), true)])
  }

  // --------------------------------------------------------------- events

  datatype Event =
    | Data(stream: Stream, chunk: Bytes)
    | Abort
    | TimerFires(index: nat)
    | Error(message: string)
    | Exit(code: Option<int>, signal: Option<ExitSignal>)

  /** A callback that runs at an instant. */
  datatype Occurrence = Occurrence(at: int, event: Event)

  /** What the runtime may call: cleared timers do not fire, armed ones fire when
      due, and the abort listener is called only while it is registered. */
  predicate Allowed(s: State, o: Occurrence) {
    match o.event
    case Abort => s.listening
    case TimerFires(i) => i < |s.timers| && s.timers[i].armed && s.timers[i].due <= o.at
    case _ => true
  }

  function Step(c: Config, s: State, o: Occurrence): State
    requires Allowed(s, o)
  {
    match o.event
    case Data(stream, chunk) => BoundStream(c, s, stream, chunk, o.at)
    case Abort => OnAbort(c, s, o.at)
    case TimerFires(i) => OnTimer(c, s, i, o.at)
    case Error(message) => Settle(s, SpawnFailed(message))
    case Exit(code, signal) => OnExit(c, s, code, signal, o.at)
  }

  // ----------------------------------------------------- the supervisor

  class Supervisor {
    const config: Config
    var stdout: Bytes
    var stderr: Bytes
    var stdoutBytes: nat
    var stderrBytes: nat
    var settled: bool
    var limitHit: Option<Stream>
    var killTrigger: KillTrigger
    var timers: seq<Timer>
    var listening: bool
    var exitCode: Option<int>
    var outcomes: seq<Outcome>
    var sent: seq<Request>

    ghost function View(): State
      reads this
    {
      State(stdout, stderr, stdoutBytes, stderrBytes, settled, limitHit, killTrigger, timers, listening,
            exitCode, outcomes, sent)
    }

    constructor (config: Config)
      ensures this.config == config && View() == Start(config)
    {
      this.config := config;
      stdout, stderr, stdoutBytes, stderrBytes := [], [], 0, 0;
      settled, limitHit, killTrigger, timers := false, None, WallTime, [];
      listening, exitCode, outcomes, sent := !config.abortedAtStart, None, [], [];
      new;
      if config.abortedAtStart { AbortListener(config.start); }
      timers := timers + [Timer(Term, config.TermDue(), true)];
    }

    method SettleWith(outcome: Outcome)
      modifies this
      ensures View() == Settle(old(View()), outcome)
    {
      if settled { return; }
      settled := true;
      for i := 0 to |timers|
        modifies this`timers
        invariant |timers| == |old(timers)|
        invariant forall k :: 0 <= k < i ==> timers[k] == old(timers)[k].(armed := false)
        invariant forall k :: i <= k < |timers| ==> timers[k] == old(timers)[k]
      {
        timers := timers[i := timers[i].(armed := false)];
      }
      assert timers == Cleared(old(timers));
      listening := false;
      outcomes := outcomes + [outcome];
    }

    method SignalGroup(signal: Signal, now: int)
      modifies this`sent
      ensures View() == KillGroup(config, old(View()), signal, now)
    {
      if !config.hasPid || exitCode.Some? { return; }
      sent := sent + [Request(signal, now)];
    }

    method BeginEscalation(trigger: KillTrigger, now: int)
      modifies this
      ensures View() == Escalate(config, old(View()), trigger, now)
    {
      killTrigger := trigger;
      SignalGroup(SIGTERM, now);
      timers := timers + [Timer(Kill, now + config.Grace(), true)];
    }

    method AbortListener(now: int)
      modifies this
      ensures View() == OnAbort(config, old(View()), now)
    {
      listening := false;
      BeginEscalation(Shutdown, now);
    }

    method DataListener(stream: Stream, chunk: Bytes, now: int)
      modifies this
      ensures View() == BoundStream(config, old(View()), stream, chunk, now)
    {
      if settled || limitHit.Some? { return; }
      var currentBytes := if stream.Stdout? then stdoutBytes else stderrBytes;
      if currentBytes + |chunk| > config.Limit(stream) {
        limitHit := Some(stream);
        SignalGroup(SIGKILL, now);
        return;
      }
      if stream.Stdout? {
        stdoutBytes := stdoutBytes + |chunk|;
        stdout := stdout + chunk;
      } else {
        stderrBytes := stderrBytes + |chunk|;
        stderr := stderr + chunk;
      }
    }

    method ExitListener(code: Option<int>, signal: Option<ExitSignal>, now: int)
      modifies this
      ensures View() == OnExit(config, old(View()), code, signal, now)
    {
      if signal.None? { exitCode := code; }
      if settled { return; }
      if config.hasPid { sent := sent + [Request(SIGKILL, now)]; }
      if limitHit.Some? {
        SettleWith(OutputLimit(limitHit.value, stdout, stderr));
        return;
      }
      if signal == Some(Terminated) || signal == Some(Killed) {
        var final := if signal == Some(Terminated) then SIGTERM else SIGKILL;
        SettleWith(KilledBy(killTrigger, final, stdout, stderr));
        return;
      }
      if code == Some(0) {
        SettleWith(Succeeded(stdout, stderr));
        return;
      }
      SettleWith(Failed(if code.Some? then code.value else -1, stdout, stderr));
    }

    method TimerCallback(i: nat, now: int)
      requires i < |timers|
      modifies this
      ensures View() == OnTimer(config, old(View()), i, now)
    {
      var purpose := timers[i].purpose;
      timers := timers[i := timers[i].(armed := false)];
      if purpose.Kill? {
        SignalGroup(SIGKILL, now);
      } else {
        BeginEscalation(config.TimerLabel(), now);
      }
    }

    /** The event loop calls the callback for one occurrence. */
    method Dispatch(o: Occurrence)
      requires Allowed(View(), o)
      modifies this
      ensures View() == Step(config, old(View()), o)
    {
      match o.event
      case Data(stream, chunk) => DataListener(stream, chunk, o.at);
      case Abort => AbortListener(o.at);
      case TimerFires(i) => TimerCallback(i, o.at);
      case Error(message) => SettleWith(SpawnFailed(message));
      case Exit(code, signal) => ExitListener(code, signal, o.at);
    }
  }
}
