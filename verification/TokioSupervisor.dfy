/** The Rust supervisor: bounded readers, the deadline, and the select loop. */
module TokioSupervisor {
  import opened Wrappers
  import opened Processes

  // ------------------------------------------------------ bounded reading

  /** What one read of a pipe yields; no bytes mean the end of the stream. */
  datatype Read = Got(bytes: Bytes) | ReadError

  /** Everything a stream delivers before it ends or fails. */
  function Delivered(parts: seq<Read>): Bytes {
    if parts == [] || parts[0].ReadError? || parts[0].bytes == [] then []
    else parts[0].bytes + Delivered(parts[1..])
  }

  function Whole(stream: Option<seq<Read>>): Bytes {
    if stream.None? then [] else Delivered(stream.value)
  }

  function Cut(all: Bytes, limit: nat): Bytes {
    if |all| <= limit then all else all[..limit]
  }

  /** `read_bounded`: the first `limit` bytes, and whether there were more, however
      the stream is cut into reads. */
  method ReadBounded(stream: Option<seq<Read>>, limit: nat) returns (buf: Bytes, over: bool)
    ensures buf == Cut(Whole(stream), limit)
    ensures over <==> |Whole(stream)| > limit
  {
    buf := [];
    if stream.None? { return buf, false; }
    var parts, i := stream.value, 0;
    while i < |parts|
      invariant i <= |parts| && |buf| <= limit
      invariant buf + Delivered(parts[i..]) == Whole(stream)
    {
      var read := parts[i];
      assert parts[i..][1..] == parts[i + 1..];
      if read.ReadError? || read.bytes == [] { return buf, false; }
      assert buf + read.bytes + Delivered(parts[i + 1..]) == Whole(stream);
      if |buf| + |read.bytes| > limit {
        buf := buf + read.bytes[..limit - |buf|];
        return buf, true;
      }
      buf := buf + read.bytes;
      i := i + 1;
    }
    return buf, false;
  }

  // --------------------------------------------------------- the deadline

  /** A parsed deadline with the two clock readings taken when it is looked at. */
  datatype Deadline = Deadline(target: int, utcNow: int, now: int)

  const I64_MIN: int := -0x8000_0000_0000_0000
  const I64_MAX: int := 0x7fff_ffff_ffff_ffff

  function SaturatingSub(a: int, b: int): int {
    if a - b < I64_MIN then I64_MIN else if a - b > I64_MAX then I64_MAX else a - b
  }

  /** The instant the deadline stands for: now, when it is already past. */
  function Instant(d: Deadline): int {
    var left := SaturatingSub(d.target, d.utcNow);
    d.now + if left < 0 then 0 else left
  }

  function KillDeadline(wall: int, deadline: Option<Deadline>): (int, KillTrigger) {
    if deadline.Some? && Instant(deadline.value) <= wall then (Instant(deadline.value), InvocationDeadline)
    else (wall, WallTime)
  }

  /** The earlier of the two clocks with its own name, a tie going to the deadline. */
  lemma EarlierClock(wall: int, deadline: Option<Deadline>)
    ensures var (at, trigger) := KillDeadline(wall, deadline);
      at <= wall && (deadline.Some? ==> at <= Instant(deadline.value)) &&
      (trigger == WallTime ==> at == wall && (deadline.Some? ==> wall < Instant(deadline.value))) &&
      (trigger == InvocationDeadline ==> deadline.Some? && at == Instant(deadline.value)) &&
      trigger != Shutdown
  {
  }

  // ------------------------------------------------------ the select loop

  datatype Config = Config(pid: nat, graceMs: nat, wall: int, deadline: Option<Deadline>,
                           start: int, shutdownAtStart: bool,
                           stdout: Option<seq<Read>>, stderr: Option<seq<Read>>, maxStdoutBytes: nat, maxStderrBytes: nat)
  {
    function KillAt(): int { KillDeadline(wall, deadline).0 }

    function Clock(): KillTrigger { KillDeadline(wall, deadline).1 }

    predicate TooMuch(stream: Stream) {
      if stream.Stdout? then |Whole(stdout)| > maxStdoutBytes else |Whole(stderr)| > maxStderrBytes
    }

    function Stdout(): Bytes { Cut(Whole(stdout), maxStdoutBytes) }

    function Stderr(): Bytes { Cut(Whole(stderr), maxStderrBytes) }
  }

  /** A spawned task that waits for the grace period to end. */
  datatype Task = Task(due: int, waiting: bool)

  datatype State = State(trigger: KillTrigger, escalated: bool, limitHit: Option<Stream>,
                         tasks: seq<Task>, sent: seq<Request>, result: Option<Outcome>)

  datatype Status = Exited(code: int) | Signaled(signal: int) | WaitError(message: string)

  const SIGKILL_NUMBER := 9

  datatype Event =
    | Waited(status: Status)
    | Slept(shutdown: bool)
    | LimitMessage(stream: Stream)
    | Changed(shutdown: bool)
    | GraceOver(task: nat)

  datatype Occurrence = Occurrence(at: int, event: Event)

  function KillGroup(s: State, signal: Signal, now: int): State {
    s.(sent := s.sent + [Request(signal, now)])
  }

  function BeginEscalate(c: Config, s: State, now: int): State {
    if c.pid == 0 then s
    else KillGroup(s, SIGTERM, now).(tasks := s.tasks + [Task(now + c.graceMs, true)])
  }

  function Settle(status: Status, trigger: KillTrigger, stdout: Bytes, stderr: Bytes): Outcome {
    match status
    case Exited(code) => if code == 0 then Succeeded(stdout, stderr) else Failed(code, stdout, stderr)
    case Signaled(signal) => KilledBy(trigger, if signal == SIGKILL_NUMBER then SIGKILL else SIGTERM, stdout, stderr)
    case WaitError(message) => SpawnFailed(message)
  }

  /** Both readers are awaited before the result is put together. */
  function OnWaited(c: Config, s: State, status: Status, now: int): State {
    var t := if c.pid != 0 then KillGroup(s, SIGKILL, now) else s;
    var stream := if t.limitHit.Some? then t.limitHit else if c.TooMuch(Stream.Stdout) then Some(Stream.Stdout)
                  else if c.TooMuch(Stream.Stderr) then Some(Stream.Stderr) else None;
    t.(result := Some(if stream.Some? then OutputLimit(stream.value, c.Stdout(), c.Stderr())
                      else Settle(status, t.trigger, c.Stdout(), c.Stderr())))
  }

  function OnSlept(c: Config, s: State, shutdown: bool, now: int): State {
    if now < c.KillAt() && !shutdown then s
    else BeginEscalate(c, s.(trigger := if shutdown then Shutdown else s.trigger, escalated := true), now)
  }

  function OnLimit(s: State, stream: Stream, now: int): State {
    KillGroup(s.(limitHit := Some(stream)), SIGKILL, now)
  }

  function OnChanged(c: Config, s: State, shutdown: bool, now: int): State {
    if shutdown && !s.escalated then BeginEscalate(c, s.(trigger := Shutdown, escalated := true), now) else s
  }

  function OnGraceOver(s: State, i: nat, now: int): State
    requires i < |s.tasks|
  {
    KillGroup(s.(tasks := s.tasks[i := s.tasks[i].(waiting := false)]), SIGKILL, now)
  }

  function Start(c: Config): State {
    var s := State(c.Clock(), false, None, [], [], None);
    if c.shutdownAtStart then BeginEscalate(c, s.(trigger := Shutdown, escalated := true), c.start) else s
  }

  /** The guards of the select branches. Spawned tasks run on their own, also after
      the supervisor has returned. */
  predicate Allowed(c: Config, s: State, o: Occurrence) {
    match o.event
    case GraceOver(i) => i < |s.tasks| && s.tasks[i].waiting && s.tasks[i].due <= o.at
    case Slept(_) => s.result.None? && !s.escalated
    case LimitMessage(stream) => s.result.None? && s.limitHit.None? && c.TooMuch(stream)
    case _ => s.result.None?
  }

  function Step(c: Config, s: State, o: Occurrence): State
    requires Allowed(c, s, o)
  {
    match o.event
    case Waited(status) => OnWaited(c, s, status, o.at)
    case Slept(shutdown) => OnSlept(c, s, shutdown, o.at)
    case LimitMessage(stream) => OnLimit(s, stream, o.at)
    case Changed(shutdown) => OnChanged(c, s, shutdown, o.at)
    case GraceOver(i) => OnGraceOver(s, i, o.at)
  }

  class Supervisor {
    const config: Config
    var trigger: KillTrigger
    var escalated: bool
    var limitHit: Option<Stream>
    var tasks: seq<Task>
    var sent: seq<Request>
    var result: Option<Outcome>

    ghost function View(): State
      reads this
    {
      State(trigger, escalated, limitHit, tasks, sent, result)
    }

    constructor (config: Config)
      ensures this.config == config && View() == Start(config)
    {
      this.config := config;
      trigger := config.Clock();
      escalated, limitHit, tasks, sent, result := false, None, [], [], None;
      new;
      if config.shutdownAtStart {
        trigger := Shutdown;
        Escalate(config.start);
        escalated := true;
      }
    }

    method Escalate(now: int)
      modifies this`sent, this`tasks
      ensures View() == BeginEscalate(config, old(View()), now)
    {
      if config.pid == 0 { return; }
      sent := sent + [Request(SIGTERM, now)];
      tasks := tasks + [Task(now + config.graceMs, true)];
    }

    /** One round of the loop: the branch whose future is ready. */
    method Select(o: Occurrence)
      requires Allowed(config, View(), o)
      modifies this
      ensures View() == Step(config, old(View()), o)
    {
      match o.event
      case Waited(status) =>
        Finish(status, o.at);
      case Slept(shutdown) =>
        if o.at < config.KillAt() && !shutdown { return; }
        if shutdown { trigger := Shutdown; }
        escalated := true;
        Escalate(o.at);
      case LimitMessage(stream) =>
        limitHit := Some(stream);
        sent := sent + [Request(SIGKILL, o.at)];
      case Changed(shutdown) =>
        if shutdown && !escalated {
          trigger := Shutdown;
          escalated := true;
          Escalate(o.at);
        }
      case GraceOver(i) =>
        tasks := tasks[i := tasks[i].(waiting := false)];
        sent := sent + [Request(SIGKILL, o.at)];
    }

    method Finish(status: Status, now: int)
      modifies this
      ensures View() == OnWaited(config, old(View()), status, now)
    {
      var stdout, stdoutOver := ReadBounded(config.stdout, config.maxStdoutBytes);
      var stderr, stderrOver := ReadBounded(config.stderr, config.maxStderrBytes);
      if config.pid != 0 { sent := sent + [Request(SIGKILL, now)]; }
      var stream := limitHit;
      if stream.None? {
        if stdoutOver { stream := Some(Stream.Stdout); } else if stderrOver { stream := Some(Stream.Stderr); }
      }
      if stream.Some? {
        result := Some(OutputLimit(stream.value, stdout, stderr));
      } else {
        result := Some(Settle(status, trigger, stdout, stderr));
      }
    }
  }
}
