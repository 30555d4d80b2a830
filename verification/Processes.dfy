/** What both process supervisors speak of: captured streams, signals to the process
    group, and the one outcome of a supervised command. */
module Processes {

  newtype Byte = x: int | 0 <= x < 256

  type Bytes = seq<Byte>

  datatype Stream = Stdout | Stderr

  datatype Signal = SIGTERM | SIGKILL

  datatype KillTrigger = WallTime | InvocationDeadline | Shutdown

  /** A signal requested for the whole group at an instant. */
  datatype Request = Request(signal: Signal, at: int)

  /** How the child went: `signal` is none for an ordinary exit. */
  datatype ExitSignal = Terminated | Killed | OtherSignal

  datatype Outcome =
    | Succeeded(stdout: Bytes, stderr: Bytes)
    | Failed(exitCode: int, stdout: Bytes, stderr: Bytes)
    | SpawnFailed(message: string)
    | KilledBy(trigger: KillTrigger, finalSignal: Signal, stdout: Bytes, stderr: Bytes)
    | OutputLimit(stream: Stream, stdout: Bytes, stderr: Bytes)
}
