/** Event emission for one invocation: numbering, identity, and what reaches the
    delivery callback. */
module EventEmitter {
  import opened Wrappers
  import opened Text
  import opened ObjectGraph
  import opened AsJsonValue

  const MAX_AGENT_EVENT_CANONICAL_BYTES := 64 * 1024
  const MAX_AGENT_EVENT_ID_LENGTH := 255
  const MAX_AGENT_EVENT_SEQUENCE := 2147483647

  /** `canonicalSize` stands for the byte length of an event's canonical body. */
  datatype Config = Config(invocationId: string, enabled: bool, canonicalSize: Event -> nat)

  datatype Event = Event(eventId: string, invocationId: string, sequence: nat, kind: string, payload: Tree)

  /** Lengths are in characters; the source counts UTF-16 code units, which is the same
      for ids without characters outside the Basic Multilingual Plane. */
  function EventId(invocationId: string, sequence: nat): string {
    invocationId + ":" + Decimal(sequence)
  }

  predicate GoodIdentity(eventId: string, sequence: nat) {
    sequence <= MAX_AGENT_EVENT_SEQUENCE && |eventId| <= MAX_AGENT_EVENT_ID_LENGTH
  }

  function EventOf(c: Config, kind: string, payload: Tree, sequence: nat): Event {
    Event(EventId(c.invocationId, sequence), c.invocationId, sequence, kind, payload)
  }

  /** The payload as the emitter copies it, if it is a JSON object. */
  function Validated(h: Heap, payload: ObjectGraph.Value): Option<Tree>
    requires InHeap(h, payload) && ObjectGraph.WellFormed(h)
  {
    if payload.Ref? && h[payload.id].kind.PlainObject? && Copy(h, payload, {}).Done? then
      Some(Copy(h, payload, {}).value)
    else None
  }

  /** One call: the validated payload, and whether the clock gives a valid date. */
  datatype Call = Call(kind: string, payload: Option<Tree>, clockOk: bool)

  datatype State = State(sequence: nat, debugNoted: bool, notes: nat, delivered: seq<Event>)

  const FRESH := State(0, false, 0, [])

  /** Whether a call gets past every check with the given number. */
  predicate Delivers(c: Config, call: Call, sequence: nat) {
    c.enabled && call.payload.Some? && call.clockOk &&
    var event := EventOf(c, call.kind, call.payload.value, sequence);
    GoodIdentity(event.eventId, sequence) && c.canonicalSize(event) <= MAX_AGENT_EVENT_CANONICAL_BYTES
  }

  /** A number is taken as soon as the payload is valid, also when a later check throws. */
  function Apply(c: Config, s: State, call: Call): State {
    if !c.enabled then s.(debugNoted := true, notes := if s.debugNoted then s.notes else s.notes + 1)
    else if call.payload.None? then s
    else s.(sequence := s.sequence + 1,
            delivered := if Delivers(c, call, s.sequence)
                         then s.delivered + [EventOf(c, call.kind, call.payload.value, s.sequence)] else s.delivered)
  }

  datatype Emission = Ignored | Sent | TypeErrorThrown | RangeErrorThrown

  class RunEventEmitter {
    const config: Config
    var sequence: nat
    var debugNoted: bool
    var notes: nat
    var delivered: seq<Event>

    ghost function View(): State
      reads this
    {
      State(sequence, debugNoted, notes, delivered)
    }

    constructor (config: Config)
      ensures this.config == config && View() == FRESH
    {
      this.config := config;
      sequence, debugNoted, notes, delivered := 0, false, 0, [];
    }

    /** `emit`: returns, or throws with the number taken or not. */
    method Emit(h: Heap, kind: string, payload: ObjectGraph.Value, clockOk: bool) returns (emission: Emission)
      requires InHeap(h, payload) && ObjectGraph.WellFormed(h)
      modifies this
      ensures View() == Apply(config, old(View()), Call(kind, Validated(h, payload), clockOk))
      ensures emission.Ignored? <==> !config.enabled
      ensures emission.Sent? <==> Delivers(config, Call(kind, Validated(h, payload), clockOk), old(sequence))
      ensures config.enabled ==> (emission.TypeErrorThrown? <==>
        !(payload.Ref? && h[payload.id].kind.PlainObject? && AllPlain(Visible(h), payload) && Acyclic(Visible(h), payload)))
      ensures sequence == old(sequence) + if emission.Sent? || emission.RangeErrorThrown? then 1 else 0
      ensures !emission.Sent? ==> delivered == old(delivered)
      ensures emission.Sent? ==>
        |delivered| == |old(delivered)| + 1 && delivered[..|old(delivered)|] == old(delivered) &&
        (var event := delivered[|old(delivered)|];
         && event.eventId == config.invocationId + ":" + Decimal(old(sequence)) && event.invocationId == config.invocationId
         && event.sequence == old(sequence) && event.kind == kind && Unfolds(Visible(h), payload, event.payload))
      ensures emission.Ignored? ==> notes == old(notes) + if old(debugNoted) then 0 else 1
    {
      if !config.enabled {
        if !debugNoted {
          debugNoted := true;
          notes := notes + 1;
        }
        return Ignored;
      }
      if !payload.Ref? || h[payload.id].kind.ArrayObject? { return TypeErrorThrown; }
      var json := AsJson(h, payload);
      if json.TypeError? || h[payload.id].kind.ExoticObject? { return TypeErrorThrown; }
      var number := sequence;
      sequence := sequence + 1;
      var eventId := config.invocationId + ":" + Decimal(number);
      if number > MAX_AGENT_EVENT_SEQUENCE || |eventId| > MAX_AGENT_EVENT_ID_LENGTH { return RangeErrorThrown; }
      if !clockOk { return RangeErrorThrown; }
      var event := Event(eventId, config.invocationId, number, kind, json.tree);
      if config.canonicalSize(event) > MAX_AGENT_EVENT_CANONICAL_BYTES { return RangeErrorThrown; }
      delivered := delivered + [event];
      return Sent;
    }
  }

  // ------------------------------------------------------------- identity

  lemma DigitsLackColon(s: string)
    requires AllDigits(s)
    ensures Lacks(s, ':')
  {
    forall i | 0 <= i < |s| ensures s[i] != ':' { assert IsDigit(s[i]); }
  }

  /** An event id names one invocation and one number, whatever colons the invocation
      id contains. */
  lemma EventIdInjective(id1: string, n1: nat, id2: string, n2: nat)
    ensures EventId(id1, n1) == EventId(id2, n2) <==> id1 == id2 && n1 == n2
  {
    if EventId(id1, n1) == EventId(id2, n2) {
      DigitsLackColon(Decimal(n1));
      DigitsLackColon(Decimal(n2));
      SplitAtLast(id1, Decimal(n1), id2, Decimal(n2), ':');
      DecimalInjective(n1, n2);
    }
  }

  // ----------------------------------------------------------------- runs

  function After(c: Config, calls: seq<Call>): State {
    if calls == [] then FRESH else Apply(c, After(c, calls[..|calls| - 1]), calls[|calls| - 1])
  }

  /** How many of the calls had a valid payload. */
  function Valid(calls: seq<Call>): nat {
    if calls == [] then 0 else Valid(calls[..|calls| - 1]) + if calls[|calls| - 1].payload.Some? then 1 else 0
  }

  lemma {:induction false} NumberIsCount(c: Config, calls: seq<Call>)
    requires c.enabled
    ensures After(c, calls).sequence == Valid(calls)
  {
    if calls != [] { NumberIsCount(c, calls[..|calls| - 1]); }
  }

  /** The number that call `i` would carry: the valid calls before it. */
  function NumberOf(calls: seq<Call>, i: nat): nat
    requires i < |calls|
  {
    Valid(calls[..i])
  }

  /** What reached the delivery callback: exactly the events of the calls that pass,
      each numbered by the valid calls before it, whether or not those were delivered. */
  lemma {:induction false} DeliveredExactly(c: Config, calls: seq<Call>, event: Event)
    ensures event in After(c, calls).delivered <==>
      exists i :: 0 <= i < |calls| && Delivers(c, calls[i], NumberOf(calls, i)) &&
        event == EventOf(c, calls[i].kind, calls[i].payload.value, NumberOf(calls, i))
  {
    hide Delivers, EventOf;
    if calls != [] {
      var n := |calls| - 1;
      var before := calls[..n];
      DeliveredExactly(c, before, event);
      if c.enabled { NumberIsCount(c, before); }
      assert forall i :: 0 <= i < n ==> before[..i] == calls[..i] && before[i] == calls[i];
      LastDelivers(c, calls, event);
    }
  }

  lemma LastDelivers(c: Config, calls: seq<Call>, event: Event)
    requires calls != [] && (c.enabled ==> After(c, calls[..|calls| - 1]).sequence == Valid(calls[..|calls| - 1]))
    ensures var n := |calls| - 1; event in After(c, calls).delivered <==>
      event in After(c, calls[..n]).delivered ||
      (Delivers(c, calls[n], NumberOf(calls, n)) && event == EventOf(c, calls[n].kind, calls[n].payload.value, NumberOf(calls, n)))
  {
  }

  ghost predicate Increasing(events: seq<Event>, below: nat) {
    (forall k :: 0 <= k < |events| ==> events[k].sequence < below) &&
    forall j, k :: 0 <= j < k < |events| ==> events[j].sequence < events[k].sequence
  }

  /** Over every run, delivered numbers strictly increase within their range, and
      every delivered event has its own id within the length limit. */
  lemma {:induction false} DeliveredInOrder(c: Config, calls: seq<Call>)
    ensures Increasing(After(c, calls).delivered, After(c, calls).sequence)
    ensures forall k :: 0 <= k < |After(c, calls).delivered| ==>
      var event := After(c, calls).delivered[k];
      event.eventId == EventId(c.invocationId, event.sequence) && event.invocationId == c.invocationId &&
      event.sequence <= MAX_AGENT_EVENT_SEQUENCE && |event.eventId| <= MAX_AGENT_EVENT_ID_LENGTH &&
      c.canonicalSize(event) <= MAX_AGENT_EVENT_CANONICAL_BYTES
  {
    if calls != [] { DeliveredInOrder(c, calls[..|calls| - 1]); }
  }

  /** No two events are delivered under one id, by one emitter or by two. */
  lemma IdsAreUnique(c: Config, calls: seq<Call>, c2: Config, calls2: seq<Call>, i: nat, j: nat)
    requires i < |After(c, calls).delivered| && j < |After(c2, calls2).delivered|
    requires After(c, calls).delivered[i].eventId == After(c2, calls2).delivered[j].eventId
    ensures c.invocationId == c2.invocationId
    ensures After(c, calls).delivered[i].sequence == After(c2, calls2).delivered[j].sequence
    ensures c == c2 && calls == calls2 ==> i == j
  {
    DeliveredInOrder(c, calls);
    DeliveredInOrder(c2, calls2);
    var e, f := After(c, calls).delivered[i], After(c2, calls2).delivered[j];
    EventIdInjective(c.invocationId, e.sequence, c2.invocationId, f.sequence);
  }

  /** As many events are delivered as numbers were taken exactly when every call with a
      valid payload delivers; they are then numbered from zero. */
  lemma {:induction false} AllDeliveredExactly(c: Config, calls: seq<Call>)
    requires c.enabled
    ensures |After(c, calls).delivered| <= Valid(calls)
    ensures |After(c, calls).delivered| == Valid(calls) <==>
      forall i :: 0 <= i < |calls| && calls[i].payload.Some? ==> Delivers(c, calls[i], NumberOf(calls, i))
    ensures |After(c, calls).delivered| == Valid(calls) ==>
      forall k :: 0 <= k < Valid(calls) ==> After(c, calls).delivered[k].sequence == k
  {
    hide Delivers;
    if calls != [] {
      var n := |calls| - 1;
      var before := calls[..n];
      AllDeliveredExactly(c, before);
      NumberIsCount(c, before);
      assert forall i :: 0 <= i < n ==> before[..i] == calls[..i] && before[i] == calls[i];
    }
  }

  /** A call that takes a number which is then not delivered. */
  predicate Wastes(c: Config, calls: seq<Call>, i: nat)
    requires i < |calls|
  {
    calls[i].payload.Some? && !Delivers(c, calls[i], NumberOf(calls, i))
  }

  /** The delivered numbers run from zero without a gap. */
  ghost predicate Gapless(events: seq<Event>) {
    forall k :: 0 <= k < |events| ==> events[k].sequence == k
  }

  lemma DeliveredStep(c: Config, calls: seq<Call>)
    requires c.enabled && calls != []
    ensures var n := |calls| - 1;
      After(c, calls).delivered ==
        if Delivers(c, calls[n], NumberOf(calls, n))
        then After(c, calls[..n]).delivered + [EventOf(c, calls[n].kind, calls[n].payload.value, NumberOf(calls, n))]
        else After(c, calls[..n]).delivered
  {
    NumberIsCount(c, calls[..|calls| - 1]);
  }

  lemma GaplessSnoc(events: seq<Event>, event: Event)
    ensures Gapless(events + [event]) <==> Gapless(events) && event.sequence == |events|
  {
    var all := events + [event];
    assert all[|events|] == event && forall k :: 0 <= k < |events| ==> all[k] == events[k];
  }

  /** No wasted number comes before a delivered one. */
  ghost predicate WasteAtEnd(c: Config, calls: seq<Call>) {
    forall i, j :: 0 <= i < j < |calls| && Wastes(c, calls, i) ==> !Delivers(c, calls[j], NumberOf(calls, j))
  }

  lemma WasteStep(c: Config, calls: seq<Call>)
    requires calls != []
    ensures var n := |calls| - 1;
      WasteAtEnd(c, calls) <==>
        (WasteAtEnd(c, calls[..n]) &&
         (Delivers(c, calls[n], NumberOf(calls, n)) ==> forall i :: 0 <= i < n ==> !Wastes(c, calls[..n], i)))
  {
    hide Delivers, NumberOf;
    var n := |calls| - 1;
    var before := calls[..n];
    forall i | 0 <= i < n ensures NumberOf(before, i) == NumberOf(calls, i) && before[i] == calls[i] {
      SameNumber(calls, n, i);
    }
    assert forall i :: 0 <= i < n ==> Wastes(c, before, i) == Wastes(c, calls, i);
    assert forall j :: 0 <= j < n ==> Delivers(c, before[j], NumberOf(before, j)) == Delivers(c, calls[j], NumberOf(calls, j));
  }

  lemma SameNumber(calls: seq<Call>, n: nat, i: nat)
    requires i < n <= |calls|
    ensures NumberOf(calls[..n], i) == NumberOf(calls, i)
  {
    assert calls[..n][..i] == calls[..i];
  }

  /** The delivered numbers have no gap exactly when no wasted number comes before a
      delivered one; numbers wasted at the end leave no gap. */
  lemma {:induction false} NoGapsExactly(c: Config, calls: seq<Call>)
    requires c.enabled
    ensures Gapless(After(c, calls).delivered) <==> WasteAtEnd(c, calls)
  {
    if calls != [] {
      hide Delivers, NumberOf, After, Gapless, WasteAtEnd, EventOf;
      var n := |calls| - 1;
      var before := calls[..n];
      NoGapsExactly(c, before);
      DeliveredStep(c, calls);
      WasteStep(c, calls);
      if Delivers(c, calls[n], NumberOf(calls, n)) {
        Counted(c, calls);
        assert (forall i :: 0 <= i < n ==> !Wastes(c, before, i)) <==> |After(c, before).delivered| == NumberOf(calls, n);
        GaplessSnoc(After(c, before).delivered, EventOf(c, calls[n].kind, calls[n].payload.value, NumberOf(calls, n)));
        EventNumber(c, calls[n].kind, calls[n].payload.value, NumberOf(calls, n));
      }
    }
  }

  lemma EventNumber(c: Config, kind: string, payload: Tree, sequence: nat)
    ensures EventOf(c, kind, payload, sequence).sequence == sequence
  {
  }

  /** As many events as numbers before the last call: nothing was wasted. */
  lemma Counted(c: Config, calls: seq<Call>)
    requires c.enabled && calls != [] && Delivers(c, calls[|calls| - 1], NumberOf(calls, |calls| - 1))
    ensures calls[|calls| - 1].payload.Some?
    ensures var before := calls[..|calls| - 1];
      |After(c, before).delivered| == NumberOf(calls, |calls| - 1) <==>
      forall i :: 0 <= i < |before| ==> !Wastes(c, before, i)
  {
    var before := calls[..|calls| - 1];
    AllDeliveredExactly(c, before);
    assert NumberOf(calls, |before|) == Valid(before);
    hide After, Delivers, NumberOf;
    if i :| 0 <= i < |before| && Wastes(c, before, i) {
      assert !Delivers(c, before[i], NumberOf(before, i));
    } else {
      assert forall i :: 0 <= i < |before| && before[i].payload.Some? ==>
        Wastes(c, before, i) || Delivers(c, before[i], NumberOf(before, i));
    }
  }

  // ------------------------------------------------------------ in numbers

  /** The payload of a call is valid exactly if it is a plain object from which everything
      is plain and nothing leads round, and the event carries its tree unfolding. */
  lemma ValidatedExactly(h: Heap, payload: ObjectGraph.Value, tree: Tree)
    requires InHeap(h, payload) && ObjectGraph.WellFormed(h)
    ensures Validated(h, payload) == Some(tree) <==>
      payload.Ref? && h[payload.id].kind.PlainObject? && Unfolds(Visible(h), payload, tree) &&
      AllPlain(Visible(h), payload) && Acyclic(Visible(h), payload)
  {
    hide AllPlain, Acyclic, Unfolds, Convert;
    VisibleWellFormed(h);
    SucceedsExactly(Visible(h), payload);
    if Copy(h, payload, {}).Done? && Unfolds(Visible(h), payload, tree) {
      UnfoldsUnique(Visible(h), payload, tree, Copy(h, payload, {}).value);
    }
  }

  /** The event that a call sends when `n` calls before it had a valid payload. */
  ghost predicate Sends(c: Config, call: Call, n: nat, event: Event) {
    && c.enabled && call.payload.Some? && call.clockOk
    && event.eventId == c.invocationId + ":" + Decimal(n) && event.invocationId == c.invocationId
    && event.sequence == n && event.kind == call.kind && event.payload == call.payload.value
    && n < 2147483648 && |event.eventId| < 256 && c.canonicalSize(event) <= 65536
  }

  /** The delivered events, in numbers. */
  lemma DeliveredInNumbers(c: Config, calls: seq<Call>, event: Event)
    ensures event in After(c, calls).delivered <==>
      exists i :: 0 <= i < |calls| && Sends(c, calls[i], NumberOf(calls, i), event)
  {
    hide After, NumberOf;
    DeliveredExactly(c, calls, event);
    forall i | 0 <= i < |calls|
      ensures Sends(c, calls[i], NumberOf(calls, i), event) <==>
        Delivers(c, calls[i], NumberOf(calls, i)) &&
        event == EventOf(c, calls[i].kind, calls[i].payload.value, NumberOf(calls, i))
    {
    }
  }

  /** A disabled emitter delivers nothing, takes no number, and says so once. */
  lemma {:induction false} DisabledExactly(c: Config, calls: seq<Call>)
    requires !c.enabled
    ensures After(c, calls).delivered == [] && After(c, calls).sequence == 0
    ensures After(c, calls).notes == if calls == [] then 0 else 1
    ensures After(c, calls).debugNoted <==> calls != []
  {
    if calls != [] { DisabledExactly(c, calls[..|calls| - 1]); }
  }
}
