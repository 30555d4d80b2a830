/** The two supervisors agree on which outputs are too long, however they are chunked. */
module StreamBounds {
  import opened Wrappers
  import opened Processes
  import NodeSupervisor
  import Node = NodeSupervisorRuns
  import TokioSupervisor

  /** Only one stream is written, in any chunks, and the child has not exited. */
  predicate OnlyOn(es: Node.Run, stream: Stream) {
    forall k :: 0 <= k < |es| ==> !Node.Settles(es[k]) && (es[k].event.Data? ==> es[k].event.stream == stream)
  }

  lemma {:induction false} NothingElse(es: Node.Run, stream: Stream, other: Stream)
    requires OnlyOn(es, stream) && other != stream
    ensures Node.Arrived(es, other) == []
  {
    if es != [] { NothingElse(Node.Front(es), stream, other); }
  }

  /** What was kept is the chunks before position `j`, and the chunk there did not fit. */
  predicate StopsAt(c: NodeSupervisor.Config, es: Node.Run, stream: Stream, kept: Bytes, j: nat) {
    j < |es| && es[j].event.Data? && kept == Node.Arrived(es[..j], stream) && |kept| + |es[j].event.chunk| > c.Limit(stream)
  }

  /** For the same bytes on one stream under the same bound: both raise their limit or
      neither does; without it both capture everything, and with it the TypeScript
      supervisor keeps whole chunks of what the Rust one keeps, up to the chunk that
      does not fit. */
  lemma SameLimits(c: NodeSupervisor.Config, es: Node.Run, stream: Stream, pipe: Option<seq<TokioSupervisor.Read>>)
    requires Node.Legal(c, es) && OnlyOn(es, stream) && TokioSupervisor.Whole(pipe) == Node.Arrived(es, stream)
    ensures var s := Node.After(c, es); var all := TokioSupervisor.Whole(pipe);
      var kept, cut := NodeSupervisor.Captured(s, stream), TokioSupervisor.Cut(all, c.Limit(stream));
      (s.limitHit == if |all| > c.Limit(stream) then Some(stream) else None) &&
      kept <= cut && (s.limitHit.None? ==> kept == cut) &&
      (s.limitHit.Some? ==> exists j: nat :: StopsAt(c, es, stream, kept, j))
  {
    hide Node.Legal, Node.After, Node.Arrived;
    var other := if stream.Stdout? then Stderr else Stdout;
    NothingElse(es, stream, other);
    if Node.Within(c, es) {
      Node.AllCaptured(c, es);
    } else {
      var j := Node.OverflowExists(c, es);
      Node.OverflowInside(c, es, j);
      Node.CapturedUpTo(c, es, j);
      NothingElse(es[..j + 1], stream, other);
      OneMore(es, j, stream);
      assert StopsAt(c, es, stream, NodeSupervisor.Captured(Node.After(c, es), stream), j);
      assert es == es[..j] + es[j..];
      Node.ArrivedConcat(es[..j], es[j..], stream);
    }
  }

  lemma OneMore(es: Node.Run, j: nat, stream: Stream)
    requires j < |es| && es[j].event.Data? && es[j].event.stream == stream
    ensures Node.Arrived(es[..j + 1], stream) == Node.Arrived(es[..j], stream) + es[j].event.chunk
  {
    assert Node.Front(es[..j + 1]) == es[..j] && Node.Last(es[..j + 1]) == es[j];
  }

  /** The bytes that the TypeScript supervisor keeps depend on the chunking: one byte
      more than the bound is cut to the bound in two chunks and to nothing in one. */
  lemma ChunksMatter(c: NodeSupervisor.Config, bytes: Bytes, last: Byte)
    requires |bytes| == c.maxStdoutBytes > 0
    ensures var one := [NodeSupervisor.Occurrence(c.start, NodeSupervisor.Data(Stdout, bytes + [last]))];
      var two := [NodeSupervisor.Occurrence(c.start, NodeSupervisor.Data(Stdout, bytes)),
                  NodeSupervisor.Occurrence(c.start, NodeSupervisor.Data(Stdout, [last]))];
      Node.Legal(c, one) && Node.Legal(c, two) && Node.Arrived(one, Stdout) == Node.Arrived(two, Stdout) &&
      Node.After(c, one).stdout == [] && Node.After(c, two).stdout == bytes
  {
    var e := NodeSupervisor.Occurrence(c.start, NodeSupervisor.Data(Stdout, bytes + [last]));
    var e0 := NodeSupervisor.Occurrence(c.start, NodeSupervisor.Data(Stdout, bytes));
    var e1 := NodeSupervisor.Occurrence(c.start, NodeSupervisor.Data(Stdout, [last]));
    assert Node.Front([e]) == [] && Node.Front([e0]) == [] && Node.Front([e0, e1]) == [e0];
    assert Node.Legal(c, []) && Node.Legal(c, [e0]);
    assert Node.Arrived([e0], Stdout) == bytes;
  }
}
