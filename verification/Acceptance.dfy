/** Acceptance of run requests by the C++ worker: the idempotency store, its critical
    section, and every interleaving of requests through the mutex. */
module Acceptance {
  import opened Wrappers
  import opened CppJson
  import opened CppJsonPrinter

  /** A request past validation, with the run id and the time it would be given. */
  datatype Request = Request(invocationId: string, body: string, runId: string, acceptedAt: string)

  /** What the store keeps for an invocation id. */
  datatype Entry = Entry(fingerprint: string, accepted: string)

  type Store = map<string, Entry>

  datatype Response = Accepted(body: string) | Conflict

  function AcceptanceOf(r: Request): (v: Json)
    ensures Int64Tree(v)
  {
    var members := [Member("schemaVersion", String("1")), Member("invocationId", String(r.invocationId)),
                    Member("runId", String(r.runId)), Member("status", String("accepted")),
                    Member("acceptedAt", String(r.acceptedAt))];
    StringsPrint(members);
    Object(members)
  }

  lemma {:induction false} StringsPrint(members: seq<Member>)
    requires forall i :: 0 <= i < |members| ==> members[i].value.String?
    ensures Int64Members(members)
  {
    if members != [] { StringsPrint(members[1..]); }
  }

  function EntryOf(hash: string -> string, r: Request): Entry {
    Entry(hash(r.body), Dump(AcceptanceOf(r)))
  }

  /** The answer for an id that the store knows. */
  function Repeat(hash: string -> string, r: Request, entry: Entry): Response {
    if entry.fingerprint != hash(r.body) then Conflict else Accepted(entry.accepted)
  }

  /** Exactly one member has the key, and its value is this text. */
  ghost predicate Holds(members: seq<Member>, key: string, text: string) {
    exists i :: HoldsAt(members, key, text, i)
  }

  predicate HoldsAt(members: seq<Member>, key: string, text: string, i: int) {
    0 <= i < |members| && members[i] == Member(key, String(text)) &&
    forall j :: 0 <= j < |members| && members[j].key == key ==> j == i
  }

  /** A body that reads as the acceptance of an invocation, under a run id and at a time:
      one object, with these five members and no other. */
  ghost predicate Says(stod: Stod, body: string, invocationId: string, runId: string, acceptedAt: string) {
    var parsed := ParseJson(stod, body);
    parsed.Success? && parsed.value.Object? &&
    var members := parsed.value.members;
    && |members| == 5
    && Holds(members, "schemaVersion", "1")
    && Holds(members, "invocationId", invocationId)
    && Holds(members, "runId", runId)
    && Holds(members, "status", "accepted")
    && Holds(members, "acceptedAt", acceptedAt)
  }

  lemma AcceptanceSays(stod: Stod, r: Request)
    ensures Says(stod, Dump(AcceptanceOf(r)), r.invocationId, r.runId, r.acceptedAt)
  {
    hide Dump, ParseJson, AcceptanceOf, Holds;
    RoundTrip(stod, AcceptanceOf(r));
    FieldsOf(r);
  }

  lemma FieldsOf(r: Request)
    ensures var v := AcceptanceOf(r);
      v.Object? && |v.members| == 5
      && Holds(v.members, "schemaVersion", "1") && Holds(v.members, "status", "accepted")
      && Holds(v.members, "invocationId", r.invocationId)
      && Holds(v.members, "runId", r.runId)
      && Holds(v.members, "acceptedAt", r.acceptedAt)
  {
    var m := AcceptanceOf(r).members;
    assert HoldsAt(m, "schemaVersion", "1", 0) && HoldsAt(m, "status", "accepted", 3);
    assert HoldsAt(m, "invocationId", r.invocationId, 1) && HoldsAt(m, "runId", r.runId, 2);
    assert HoldsAt(m, "acceptedAt", r.acceptedAt, 4);
  }

  class Worker {
    var idempotency: Store
    var started: seq<string>

    constructor ()
      ensures idempotency == map[] && started == []
    {
      idempotency, started := map[], [];
    }

    /** The acceptance section and what follows it, run without interruption. */
    method HandleRun(hash: string -> string, r: Request) returns (response: Response)
      modifies this
      ensures r.invocationId in old(idempotency) ==>
        idempotency == old(idempotency) && started == old(started) &&
        response == Repeat(hash, r, old(idempotency)[r.invocationId])
      ensures r.invocationId !in old(idempotency) ==>
        idempotency == old(idempotency)[r.invocationId := EntryOf(hash, r)] &&
        started == old(started) + [r.invocationId] &&
        response == Accepted(Dump(AcceptanceOf(r)))
      ensures r.invocationId !in old(idempotency) ==>
        response.Accepted? && forall stod :: Says(stod, response.body, r.invocationId, r.runId, r.acceptedAt)
    {
      hide Says, Dump, AcceptanceOf;
      forall stod ensures Says(stod, Dump(AcceptanceOf(r)), r.invocationId, r.runId, r.acceptedAt) {
        AcceptanceSays(stod, r);
      }
      var fingerprint := hash(r.body);
      if r.invocationId in idempotency {
        var existing := idempotency[r.invocationId];
        if existing.fingerprint != fingerprint { return Conflict; }
        return Accepted(existing.accepted);
      }
      var accepted := Dump(AcceptanceOf(r));
      idempotency := idempotency[r.invocationId := Entry(fingerprint, accepted)];
      started := started + [r.invocationId];
      return Accepted(accepted);
    }
  }

  /** The acceptance bytes of two requests are equal exactly when id, run and time are. */
  lemma AcceptanceDetermines(r: Request, s: Request)
    ensures Dump(AcceptanceOf(r)) == Dump(AcceptanceOf(s)) <==>
      r.invocationId == s.invocationId && r.runId == s.runId && r.acceptedAt == s.acceptedAt
  {
    hide Dump;
    if Dump(AcceptanceOf(r)) == Dump(AcceptanceOf(s)) { DumpInjective(AcceptanceOf(r), AcceptanceOf(s)); }
    var a, b := AcceptanceOf(r).members, AcceptanceOf(s).members;
    assert AcceptanceOf(r) == AcceptanceOf(s) ==> a[1] == b[1] && a[2] == b[2] && a[4] == b[4];
  }

  // -------------------------------------------------------- interleavings

  /** Where the thread of one request is. The phases from `Locked` to `Stored` are
      inside the lock scope; leaving it releases the mutex. */
  datatype Phase =
    | Waiting
    | Locked
    | Found(response: Response)
    | Missing
    | Stored(accepted: string)
    | Unlocked(accepted: string)
    | Started(accepted: string)
    | Ran(response: Response)
    | Repeated(response: Response)
  {
    predicate Inside() { Locked? || Found? || Missing? || Stored? }

    predicate Winner() { Stored? || Unlocked? || Started? || Ran? }

    predicate Done() { Ran? || Repeated? }
  }

  /** `started` lists the requests whose execution thread was started. */
  datatype State = State(store: Store, holder: Option<nat>, phases: seq<Phase>, started: seq<nat>)

  predicate Enabled(rs: seq<Request>, s: State, t: nat) {
    t < |rs| == |s.phases| && !s.phases[t].Done() && (s.phases[t].Waiting? ==> s.holder.None?)
  }

  function Step(hash: string -> string, rs: seq<Request>, s: State, t: nat): State
    requires Enabled(rs, s, t)
  {
    var r := rs[t];
    match s.phases[t]
    case Waiting => s.(holder := Some(t), phases := s.phases[t := Locked])
    case Locked =>
      if r.invocationId in s.store then s.(phases := s.phases[t := Found(Repeat(hash, r, s.store[r.invocationId]))])
      else s.(phases := s.phases[t := Missing])
    case Found(response) => s.(holder := None, phases := s.phases[t := Repeated(response)])
    case Missing =>
      s.(store := s.store[r.invocationId := EntryOf(hash, r)], phases := s.phases[t := Stored(Dump(AcceptanceOf(r)))])
    case Stored(accepted) => s.(holder := None, phases := s.phases[t := Unlocked(accepted)])
    case Unlocked(accepted) => s.(started := s.started + [t], phases := s.phases[t := Started(accepted)])
    case Started(accepted) => s.(phases := s.phases[t := Ran(Accepted(accepted))])
    case _ => s
  }

  function Initial(rs: seq<Request>): State {
    State(map[], None, seq(|rs|, _ => Waiting), [])
  }

  /** A schedule: which thread takes the next step. */
  type Schedule = seq<nat>

  /** Every step was enabled when it was taken. */
  predicate Legal(hash: string -> string, rs: seq<Request>, ts: Schedule)
    decreases |ts|, 0
  {
    ts == [] ||
    (Legal(hash, rs, ts[..|ts| - 1]) && Enabled(rs, After(hash, rs, ts[..|ts| - 1]), ts[|ts| - 1]))
  }

  function After(hash: string -> string, rs: seq<Request>, ts: Schedule): State
    requires Legal(hash, rs, ts)
    decreases |ts|, 1
  {
    if ts == [] then Initial(rs) else Step(hash, rs, After(hash, rs, ts[..|ts| - 1]), ts[|ts| - 1])
  }

  // ------------------------------------------------------------ invariant

  /** The mutex excludes. */
  ghost predicate Excludes(s: State) {
    forall t :: 0 <= t < |s.phases| ==> (s.phases[t].Inside() <==> s.holder == Some(t))
  }

  /** What a thread has seen or done agrees with the store. */
  ghost predicate Agrees(hash: string -> string, r: Request, phase: Phase, store: Store) {
    match phase
    case Missing => r.invocationId !in store
    case Found(response) => r.invocationId in store && response == Repeat(hash, r, store[r.invocationId])
    case Repeated(response) => r.invocationId in store && response == Repeat(hash, r, store[r.invocationId])
    case Stored(accepted) => Owns(hash, r, store) && accepted == Dump(AcceptanceOf(r))
    case Unlocked(accepted) => Owns(hash, r, store) && accepted == Dump(AcceptanceOf(r))
    case Started(accepted) => Owns(hash, r, store) && accepted == Dump(AcceptanceOf(r))
    case Ran(response) => Owns(hash, r, store) && response == Accepted(Dump(AcceptanceOf(r)))
    case _ => true
  }

  predicate Owns(hash: string -> string, r: Request, store: Store) {
    r.invocationId in store && store[r.invocationId] == EntryOf(hash, r)
  }

  ghost predicate AllAgree(hash: string -> string, rs: seq<Request>, s: State) {
    |s.phases| == |rs| && forall t :: 0 <= t < |rs| ==> Agrees(hash, rs[t], s.phases[t], s.store)
  }

  /** Every stored id has a winner, and only one. */
  ghost predicate OneWinner(rs: seq<Request>, s: State) {
    |s.phases| == |rs| &&
    (forall id :: id in s.store ==> exists t :: 0 <= t < |rs| && s.phases[t].Winner() && rs[t].invocationId == id) &&
    forall t, u :: 0 <= t < u < |rs| && s.phases[t].Winner() && s.phases[u].Winner() ==> rs[t].invocationId != rs[u].invocationId
  }

  /** The execution threads are those of the winners that have come that far. */
  ghost predicate StartsMatch(s: State) {
    (forall t :: t in s.started <==> 0 <= t < |s.phases| && (s.phases[t].Started? || s.phases[t].Ran?)) &&
    forall i, j :: 0 <= i < j < |s.started| ==> s.started[i] != s.started[j]
  }

  ghost predicate Inv(hash: string -> string, rs: seq<Request>, s: State) {
    |s.phases| == |rs| && (s.holder.Some? ==> s.holder.value < |rs|) &&
    Excludes(s) && AllAgree(hash, rs, s) && OneWinner(rs, s) && StartsMatch(s)
  }

  lemma ExcludesStep(hash: string -> string, rs: seq<Request>, s: State, t: nat)
    requires Enabled(rs, s, t) && Excludes(s) && (s.holder.Some? ==> s.holder.value < |rs|)
    ensures Excludes(Step(hash, rs, s, t))
    ensures var h := Step(hash, rs, s, t).holder; h.Some? ==> h.value < |rs|
  {
    hide EntryOf, Repeat, AcceptanceOf, Dump;
  }

  lemma AgreesStep(hash: string -> string, rs: seq<Request>, s: State, t: nat)
    requires Enabled(rs, s, t) && Excludes(s) && AllAgree(hash, rs, s)
    ensures AllAgree(hash, rs, Step(hash, rs, s, t))
  {
    hide Repeat, AcceptanceOf, Dump, EntryOf;
  }

  lemma SameWinners(hash: string -> string, rs: seq<Request>, s: State, t: nat)
    requires Enabled(rs, s, t)
    ensures var after := Step(hash, rs, s, t);
      |after.phases| == |rs| &&
      (forall u :: 0 <= u < |rs| && u != t ==> after.phases[u] == s.phases[u]) &&
      (after.phases[t].Winner() <==> s.phases[t].Winner() || s.phases[t].Missing?) &&
      (!s.phases[t].Missing? ==> after.store == s.store) &&
      (s.phases[t].Missing? ==> after.store == s.store[rs[t].invocationId := EntryOf(hash, rs[t])])
  {
    hide Repeat, AcceptanceOf, Dump, EntryOf;
  }

  lemma WinnerStep(hash: string -> string, rs: seq<Request>, s: State, t: nat)
    requires Enabled(rs, s, t) && AllAgree(hash, rs, s) && OneWinner(rs, s)
    ensures OneWinner(rs, Step(hash, rs, s, t))
  {
    hide Step, Repeat, AcceptanceOf, Dump, EntryOf;
    var after := Step(hash, rs, s, t);
    SameWinners(hash, rs, s, t);
    forall id | id in after.store
      ensures exists u :: 0 <= u < |rs| && after.phases[u].Winner() && rs[u].invocationId == id
    {
      if id in s.store {
        var u :| 0 <= u < |rs| && s.phases[u].Winner() && rs[u].invocationId == id;
        assert after.phases[u].Winner();
      } else {
        assert after.phases[t].Winner();
      }
    }
    forall u, v | 0 <= u < v < |rs| && after.phases[u].Winner() && after.phases[v].Winner()
      ensures rs[u].invocationId != rs[v].invocationId
    {
      WinnerIsStored(hash, rs, s, u);
      WinnerIsStored(hash, rs, s, v);
      assert Agrees(hash, rs[t], s.phases[t], s.store);
    }
  }

  lemma WinnerIsStored(hash: string -> string, rs: seq<Request>, s: State, u: nat)
    requires u < |rs| && AllAgree(hash, rs, s)
    ensures s.phases[u].Winner() ==> rs[u].invocationId in s.store
  {
    assert Agrees(hash, rs[u], s.phases[u], s.store);
  }

  lemma StartsStep(hash: string -> string, rs: seq<Request>, s: State, t: nat)
    requires Enabled(rs, s, t) && StartsMatch(s)
    ensures StartsMatch(Step(hash, rs, s, t))
  {
    hide Repeat, AcceptanceOf, Dump, EntryOf;
  }

  lemma {:induction false} Invariant(hash: string -> string, rs: seq<Request>, ts: Schedule)
    requires Legal(hash, rs, ts)
    ensures Inv(hash, rs, After(hash, rs, ts))
    decreases |ts|
  {
    hide Step, Excludes, AllAgree, OneWinner, StartsMatch;
    if ts == [] {
      InitialHolds(hash, rs);
    } else {
      var before, t := ts[..|ts| - 1], ts[|ts| - 1];
      Invariant(hash, rs, before);
      var s := After(hash, rs, before);
      ExcludesStep(hash, rs, s, t);
      AgreesStep(hash, rs, s, t);
      WinnerStep(hash, rs, s, t);
      StartsStep(hash, rs, s, t);
      SameThreads(hash, rs, s, t);
    }
  }

  lemma InitialHolds(hash: string -> string, rs: seq<Request>)
    ensures Inv(hash, rs, Initial(rs))
  {
  }

  lemma SameThreads(hash: string -> string, rs: seq<Request>, s: State, t: nat)
    requires Enabled(rs, s, t)
    ensures |Step(hash, rs, s, t).phases| == |rs|
  {
  }

  // ------------------------------------------------------------- theorems

  /** In every interleaving each invocation id starts at most one execution. */
  lemma AtMostOneStart(hash: string -> string, rs: seq<Request>, ts: Schedule, i: nat, j: nat)
    requires Legal(hash, rs, ts) && i < j < |After(hash, rs, ts).started|
    ensures var started := After(hash, rs, ts).started;
      started[i] < |rs| && started[j] < |rs| && rs[started[i]].invocationId != rs[started[j]].invocationId
  {
    hide After, Legal;
    Invariant(hash, rs, ts);
    var s := After(hash, rs, ts);
    assert s.started[i] in s.started && s.started[j] in s.started;
    var t, u := s.started[i], s.started[j];
    assert s.phases[t].Winner() && s.phases[u].Winner();
  }

  lemma {:induction false} LegalPrefix(hash: string -> string, rs: seq<Request>, ts: Schedule, n: nat)
    requires Legal(hash, rs, ts) && n <= |ts|
    ensures Legal(hash, rs, ts[..n])
    decreases |ts|
  {
    if n == |ts| {
      assert ts[..n] == ts;
    } else {
      assert ts[..|ts| - 1][..n] == ts[..n];
      LegalPrefix(hash, rs, ts[..|ts| - 1], n);
    }
  }

  /** Once stored, an entry never changes. */
  lemma {:induction false} EntryNeverChanges(hash: string -> string, rs: seq<Request>, ts: Schedule, n: nat, id: string)
    requires Legal(hash, rs, ts) && n <= |ts|
    ensures Legal(hash, rs, ts[..n])
    ensures id in After(hash, rs, ts[..n]).store ==>
      id in After(hash, rs, ts).store && After(hash, rs, ts).store[id] == After(hash, rs, ts[..n]).store[id]
    decreases |ts|
  {
    LegalPrefix(hash, rs, ts, n);
    if n == |ts| {
      assert ts[..n] == ts;
    } else {
      hide Step;
      var before, t := ts[..|ts| - 1], ts[|ts| - 1];
      assert before[..n] == ts[..n];
      EntryNeverChanges(hash, rs, before, n, id);
      Invariant(hash, rs, before);
      if id in After(hash, rs, before).store { StoreStep(hash, rs, After(hash, rs, before), t, id); }
    }
  }

  lemma StoreStep(hash: string -> string, rs: seq<Request>, s: State, t: nat, id: string)
    requires Enabled(rs, s, t) && AllAgree(hash, rs, s) && id in s.store
    ensures id in Step(hash, rs, s, t).store && Step(hash, rs, s, t).store[id] == s.store[id]
  {
    hide EntryOf, Repeat, AcceptanceOf, Dump;
  }

  function Answer(phase: Phase): Response
    requires phase.Done()
  {
    phase.response
  }

  lemma StartedAre(s: State, t: nat)
    requires StartsMatch(s) && t < |s.phases|
    ensures t in s.started <==> s.phases[t].Started? || s.phases[t].Ran?
  {
  }

  /** Every answered request is answered as its winner's entry demands: the winner's
      acceptance bytes if its body has the winner's fingerprint, a conflict if not. */
  lemma AnswersExactly(hash: string -> string, rs: seq<Request>, ts: Schedule, t: nat) returns (w: nat)
    requires Legal(hash, rs, ts) && t < |rs| == |After(hash, rs, ts).phases| && After(hash, rs, ts).phases[t].Done()
    ensures var s := After(hash, rs, ts);
      w < |rs| && s.phases[w].Winner() && rs[w].invocationId == rs[t].invocationId &&
      Answer(s.phases[t]) == (if hash(rs[t].body) == hash(rs[w].body) then Accepted(Dump(AcceptanceOf(rs[w]))) else Conflict) &&
      (t in s.started ==> t == w) && (s.phases[t].Ran? <==> t == w)
  {
    hide After, Legal, AcceptanceOf, Dump, StartsMatch, Excludes;
    Invariant(hash, rs, ts);
    var s := After(hash, rs, ts);
    assert (t in s.started <==> s.phases[t].Started? || s.phases[t].Ran?) by { StartedAre(s, t); }
    assert Agrees(hash, rs[t], s.phases[t], s.store);
    var u :| 0 <= u < |rs| && s.phases[u].Winner() && rs[u].invocationId == rs[t].invocationId;
    assert Agrees(hash, rs[u], s.phases[u], s.store);
    w := u;
  }

  /** What an answered request is told, when its body is parsed: that its invocation was
      accepted under the run id and at the time of its id's winner, if its body has the
      winner's fingerprint; and that it is in conflict if not. */
  lemma AnswerSays(hash: string -> string, rs: seq<Request>, ts: Schedule, t: nat, stod: Stod) returns (w: nat)
    requires Legal(hash, rs, ts) && t < |rs| == |After(hash, rs, ts).phases| && After(hash, rs, ts).phases[t].Done()
    ensures w < |rs| && After(hash, rs, ts).phases[w].Winner() && rs[w].invocationId == rs[t].invocationId
    ensures var answer := Answer(After(hash, rs, ts).phases[t]);
      if hash(rs[t].body) != hash(rs[w].body) then answer.Conflict?
      else answer.Accepted? && Says(stod, answer.body, rs[t].invocationId, rs[w].runId, rs[w].acceptedAt)
  {
    hide After, Legal, AcceptanceOf, Dump, Says;
    w := AnswersExactly(hash, rs, ts, t);
    AcceptanceSays(stod, rs[w]);
  }

  /** Two answered requests for one id: equal bodies get identical bytes. */
  lemma EqualBodiesSameBytes(hash: string -> string, rs: seq<Request>, ts: Schedule, t: nat, u: nat)
    requires Legal(hash, rs, ts) && t < |rs| && u < |rs| && |After(hash, rs, ts).phases| == |rs|
    requires After(hash, rs, ts).phases[t].Done() && After(hash, rs, ts).phases[u].Done()
    requires rs[t].invocationId == rs[u].invocationId && rs[t].body == rs[u].body
    ensures Answer(After(hash, rs, ts).phases[t]) == Answer(After(hash, rs, ts).phases[u])
  {
    hide After, Legal, AcceptanceOf, Dump;
    var v := AnswersExactly(hash, rs, ts, t);
    var w := AnswersExactly(hash, rs, ts, u);
    Invariant(hash, rs, ts);
    assert v == w;
  }

  /** A conflict starts nothing; and if the hash separates the bodies, a request is in
      conflict exactly when its body differs from the one that was accepted. */
  lemma ConflictExactly(hash: string -> string, rs: seq<Request>, ts: Schedule, t: nat) returns (w: nat)
    requires Legal(hash, rs, ts) && t < |rs| == |After(hash, rs, ts).phases| && After(hash, rs, ts).phases[t].Done()
    requires forall u :: 0 <= u < |rs| && hash(rs[u].body) == hash(rs[t].body) ==> rs[u].body == rs[t].body
    ensures w < |rs| && After(hash, rs, ts).phases[w].Winner() && rs[w].invocationId == rs[t].invocationId
    ensures Answer(After(hash, rs, ts).phases[t]).Conflict? <==> rs[t].body != rs[w].body
    ensures Answer(After(hash, rs, ts).phases[t]).Conflict? ==> t !in After(hash, rs, ts).started
  {
    hide After, Legal, AcceptanceOf, Dump;
    w := AnswersExactly(hash, rs, ts, t);
    Invariant(hash, rs, ts);
  }

  /** No deadlock: while a request is unanswered, some thread can take a step. */
  lemma SomeoneCanStep(hash: string -> string, rs: seq<Request>, ts: Schedule, t: nat) returns (u: nat)
    requires Legal(hash, rs, ts) && t < |rs| == |After(hash, rs, ts).phases| && !After(hash, rs, ts).phases[t].Done()
    ensures Enabled(rs, After(hash, rs, ts), u)
  {
    hide After, Legal;
    Invariant(hash, rs, ts);
    var s := After(hash, rs, ts);
    u := if s.phases[t].Waiting? && s.holder.Some? then s.holder.value else t;
  }

  // ------------------------------------------------------ linearizability

  /** The store, and the answers given so far, when requests are handled one by one. */
  datatype Ledger = Ledger(store: Store, answers: map<nat, Response>)

  function Handle(hash: string -> string, rs: seq<Request>, l: Ledger, t: nat): Ledger
    requires t < |rs|
  {
    var r := rs[t];
    if r.invocationId in l.store then
      l.(answers := l.answers[t := Repeat(hash, r, l.store[r.invocationId])])
    else
      Ledger(l.store[r.invocationId := EntryOf(hash, r)], l.answers[t := Accepted(Dump(AcceptanceOf(r)))])
  }

  predicate InRange(rs: seq<Request>, order: seq<nat>) { forall i :: 0 <= i < |order| ==> order[i] < |rs| }

  function Sequential(hash: string -> string, rs: seq<Request>, order: seq<nat>): Ledger
    requires InRange(rs, order)
  {
    if order == [] then Ledger(map[], map[])
    else Handle(hash, rs, Sequential(hash, rs, order[..|order| - 1]), order[|order| - 1])
  }

  /** The step at which a request takes effect: finding its entry, or storing one. */
  predicate TakesEffect(rs: seq<Request>, s: State, t: nat)
    requires t < |rs| == |s.phases|
  {
    s.phases[t].Missing? || (s.phases[t].Locked? && rs[t].invocationId in s.store)
  }

  /** The requests of an interleaving in the order in which they took effect. */
  function Order(hash: string -> string, rs: seq<Request>, ts: Schedule): (order: seq<nat>)
    requires Legal(hash, rs, ts)
    ensures InRange(rs, order)
    decreases |ts|
  {
    if ts == [] then []
    else
      var before, t := ts[..|ts| - 1], ts[|ts| - 1];
      Order(hash, rs, before) + if TakesEffect(rs, After(hash, rs, before), t) then [t] else []
  }

  /** What a thread carries is what the sequential run answered to its request. */
  ghost predicate Carries(phase: Phase, t: nat, answers: map<nat, Response>) {
    match phase
    case Found(response) => t in answers && answers[t] == response
    case Repeated(response) => t in answers && answers[t] == response
    case Stored(accepted) => t in answers && answers[t] == Accepted(accepted)
    case Unlocked(accepted) => t in answers && answers[t] == Accepted(accepted)
    case Started(accepted) => t in answers && answers[t] == Accepted(accepted)
    case Ran(response) => t in answers && answers[t] == response
    case _ => t !in answers
  }

  ghost predicate Matches(rs: seq<Request>, s: State, l: Ledger) {
    |s.phases| == |rs| && s.store == l.store && forall t :: 0 <= t < |rs| ==> Carries(s.phases[t], t, l.answers)
  }

  lemma MatchStep(hash: string -> string, rs: seq<Request>, s: State, l: Ledger, t: nat)
    requires Enabled(rs, s, t) && Matches(rs, s, l) && Agrees(hash, rs[t], s.phases[t], s.store)
    ensures Matches(rs, Step(hash, rs, s, t), if TakesEffect(rs, s, t) then Handle(hash, rs, l, t) else l)
  {
    hide Repeat, AcceptanceOf, Dump, EntryOf;
    var after, m := Step(hash, rs, s, t), if TakesEffect(rs, s, t) then Handle(hash, rs, l, t) else l;
    assert Carries(s.phases[t], t, l.answers) && Carries(after.phases[t], t, m.answers);
    forall u | 0 <= u < |rs| && u != t ensures Carries(after.phases[u], u, m.answers) {
      assert Carries(s.phases[u], u, l.answers) && after.phases[u] == s.phases[u];
    }
  }

  /** Every interleaving answers each request, and leaves the store, as if the requests
      had been handled one after the other in the order in which they took effect. */
  lemma {:induction false} Linearizable(hash: string -> string, rs: seq<Request>, ts: Schedule)
    requires Legal(hash, rs, ts)
    ensures Matches(rs, After(hash, rs, ts), Sequential(hash, rs, Order(hash, rs, ts)))
    decreases |ts|
  {
    hide Step, Handle, Matches;
    if ts == [] {
      InitialMatches(rs);
    } else {
      var before, t := ts[..|ts| - 1], ts[|ts| - 1];
      Linearizable(hash, rs, before);
      Invariant(hash, rs, before);
      MatchStep(hash, rs, After(hash, rs, before), Sequential(hash, rs, Order(hash, rs, before)), t);
      var order := Order(hash, rs, before);
      assert (order + [t])[..|order + [t]| - 1] == order;
      assert order + [] == order;
    }
  }

  lemma InitialMatches(rs: seq<Request>)
    ensures Matches(rs, Initial(rs), Ledger(map[], map[]))
  {
  }
}
