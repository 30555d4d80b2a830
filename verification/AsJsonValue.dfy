/** `asJsonValue`: copying an object graph into a JSON tree, or throwing. */
module AsJsonValue {
  import opened Text
  import opened ObjectGraph
  import opened Wrappers

  /** The copy: a tree of its own, sharing nothing with the graph. An array keeps its
      length, and its holes are the indexes without an element. */
  datatype Tree =
    | NullTree
    | BoolTree(flag: bool)
    | StrTree(text: string)
    | NumTree(number: Number)
    | ArrayTree(length: nat, members: seq<Member>)
    | ObjectTree(members: seq<Member>)

  datatype Member = Member(key: string, value: Tree)

  datatype Reason = NotFinite | NotSafe | NotJson | NotPlain | Circular

  /** A step from an object to one of its properties, as an error path writes it. */
  datatype Step = Index(key: string) | Key(key: string) {
    function Render(): string {
      match this
      case Index(key) => "[" + key + "]"
      case Key(key) => "." + key
    }
  }

  function Render(steps: seq<Step>): string {
    if steps == [] then "" else steps[0].Render() + Render(steps[1..])
  }

  function Names(steps: seq<Step>): seq<string> {
    if steps == [] then [] else [steps[0].key] + Names(steps[1..])
  }

  datatype Outcome<+T> = Done(value: T) | Stopped(steps: seq<Step>, reason: Reason)

  function StepAt(obj: Obj, i: nat): Step
    requires i < |obj.entries|
  {
    if obj.kind.ArrayObject? then Index(obj.entries[i].key) else Key(obj.entries[i].key)
  }

  // ------------------------------------------------------- the conversion

  function Convert(h: Heap, v: Value, seen: set<ObjId>): Outcome<Tree>
    requires InHeap(h, v) && WellFormed(h)
    decreases h.Keys - seen, 0, 0
  {
    match v
    case Null => Done(NullTree)
    case Bool(flag) => Done(BoolTree(flag))
    case Str(text) => Done(StrTree(text))
    case Num(n) =>
      if !n.Finite? then Stopped([], NotFinite)
      else if IsInteger(n.value) && !IsSafe(n.value) then Stopped([], NotSafe)
      else Done(NumTree(n))
    case Opaque => Stopped([], NotJson)
    case Ref(o) =>
      if h[o].kind.ExoticObject? then Stopped([], NotPlain)
      else if o in seen then Stopped([], Circular)
      else
        assert o in h.Keys - seen && o !in h.Keys - (seen + {o});
        match ConvertFrom(h, o, 0, seen + {o})
        case Stopped(steps, reason) => Stopped(steps, reason)
        case Done(members) => Done(Assemble(h[o].kind, members))
  }

  /** The properties of `o` from position `i` on. */
  function ConvertFrom(h: Heap, o: ObjId, i: nat, seen: set<ObjId>): Outcome<seq<Member>>
    requires o in h && i <= |h[o].entries| && WellFormed(h)
    decreases h.Keys - seen, 1, |h[o].entries| - i
  {
    if i == |h[o].entries| then Done([])
    else match Convert(h, h[o].entries[i].value, seen)
      case Stopped(steps, reason) => Stopped([StepAt(h[o], i)] + steps, reason)
      case Done(tree) => Prepend(Member(h[o].entries[i].key, tree), ConvertFrom(h, o, i + 1, seen))
  }

  function Prepend(m: Member, rest: Outcome<seq<Member>>): Outcome<seq<Member>> {
    match rest
    case Done(members) => Done([m] + members)
    case Stopped(steps, reason) => Stopped(steps, reason)
  }

  function Assemble(kind: Kind, members: seq<Member>): Tree {
    if kind.ArrayObject? then ArrayTree(kind.length, members) else ObjectTree(members)
  }

  // -------------------------------------------------------- tree unfolding

  /** `t` is the tree unfolding of `v`: equal leaves, and below every object a
      subtree for each property, in order. */
  ghost predicate Unfolds(h: Heap, v: Value, t: Tree)
    decreases t, 1
  {
    match t
    case NullTree => v == Null
    case BoolTree(flag) => v == Bool(flag)
    case StrTree(text) => v == Str(text)
    case NumTree(n) => v == Num(n) && GoodNumber(n)
    case ArrayTree(length, members) =>
      v.Ref? && v.id in h && h[v.id].kind == ArrayObject(length) && UnfoldMembers(h, h[v.id].entries, members)
    case ObjectTree(members) =>
      v.Ref? && v.id in h && h[v.id].kind.PlainObject? && UnfoldMembers(h, h[v.id].entries, members)
  }

  ghost predicate UnfoldMembers(h: Heap, entries: seq<Entry>, members: seq<Member>)
    decreases members, 0
  {
    |entries| == |members| &&
    forall i :: 0 <= i < |members| ==> entries[i].key == members[i].key && Unfolds(h, entries[i].value, members[i].value)
  }

  lemma {:induction false} ConvertUnfolds(h: Heap, v: Value, seen: set<ObjId>)
    requires InHeap(h, v) && WellFormed(h) && Convert(h, v, seen).Done?
    ensures Unfolds(h, v, Convert(h, v, seen).value)
    decreases h.Keys - seen, 0, 0
  {
    if v.Ref? {
      assert v.id in h.Keys - seen && v.id !in h.Keys - (seen + {v.id});
      ConvertFromUnfolds(h, v.id, 0, seen + {v.id});
    }
  }

  lemma {:induction false} ConvertFromUnfolds(h: Heap, o: ObjId, i: nat, seen: set<ObjId>)
    requires o in h && i <= |h[o].entries| && WellFormed(h) && ConvertFrom(h, o, i, seen).Done?
    ensures UnfoldMembers(h, h[o].entries[i..], ConvertFrom(h, o, i, seen).value)
    decreases h.Keys - seen, 1, |h[o].entries| - i
  {
    if i < |h[o].entries| {
      ConvertUnfolds(h, h[o].entries[i].value, seen);
      ConvertFromUnfolds(h, o, i + 1, seen);
    }
  }

  /** A value has at most one tree unfolding. */
  lemma {:induction false} UnfoldsUnique(h: Heap, v: Value, t: Tree, u: Tree)
    requires Unfolds(h, v, t) && Unfolds(h, v, u)
    ensures t == u
    decreases t
  {
    match t
    case ArrayTree(_, members) =>
      forall i | 0 <= i < |members| ensures members[i] == u.members[i] {
        UnfoldsUnique(h, h[v.id].entries[i].value, members[i].value, u.members[i].value);
      }
      assert members == u.members;
    case ObjectTree(members) =>
      forall i | 0 <= i < |members| ensures members[i] == u.members[i] {
        UnfoldsUnique(h, h[v.id].entries[i].value, members[i].value, u.members[i].value);
      }
      assert members == u.members;
    case _ =>
  }

  // ------------------------------------------------- when it succeeds

  /** What may stand in a graph that is copied: JSON leaves, plain objects and arrays. */
  predicate Plain(h: Heap, v: Value) {
    match v
    case Num(n) => GoodNumber(n)
    case Opaque => false
    case Ref(o) => o in h && !h[o].kind.ExoticObject?
    case _ => true
  }

  ghost predicate AllPlain(h: Heap, v: Value) {
    forall keys :: match Resolve(h, v, keys) case Some(w) => Plain(h, w) case None => true
  }

  /** `keys` lead from `v` to an object, and `loop` from that object back to itself. */
  ghost predicate Cycle(h: Heap, v: Value, keys: seq<string>, loop: seq<string>) {
    match Resolve(h, v, keys)
    case Some(Ref(o)) => loop != [] && Resolve(h, Ref(o), loop) == Some(Ref(o))
    case _ => false
  }

  ghost predicate Acyclic(h: Heap, v: Value) {
    forall keys, loop :: !Cycle(h, v, keys, loop)
  }

  /** Below an unfolded value, every property leads to an unfolded value with a
      smaller tree. */
  lemma {:induction false} UnfoldsBelow(h: Heap, v: Value, t: Tree, keys: seq<string>) returns (u: Tree)
    requires Unfolds(h, v, t) && Resolve(h, v, keys).Some?
    ensures Unfolds(h, Resolve(h, v, keys).value, u)
    ensures keys == [] ==> u == t
    ensures keys != [] ==> u < t
    decreases |keys|
  {
    if keys == [] {
      return t;
    }
    var child := Child(h, v, keys[0]).value;
    var i :| 0 <= i < |h[v.id].entries| && h[v.id].entries[i] == Entry(keys[0], child);
    u := UnfoldsBelow(h, child, t.members[i].value, keys[1..]);
  }

  lemma DoneIsPlain(h: Heap, v: Value, t: Tree)
    requires Unfolds(h, v, t)
    ensures AllPlain(h, v)
  {
    forall keys
      ensures match Resolve(h, v, keys) case Some(w) => Plain(h, w) case None => true
    {
      if Resolve(h, v, keys).Some? {
        var u := UnfoldsBelow(h, v, t, keys);
      }
    }
  }

  lemma DoneIsAcyclic(h: Heap, v: Value, t: Tree)
    requires Unfolds(h, v, t)
    ensures Acyclic(h, v)
  {
    forall keys, loop
      ensures !Cycle(h, v, keys, loop)
    {
      if Cycle(h, v, keys, loop) {
        var w := Resolve(h, v, keys).value;
        var a := UnfoldsBelow(h, v, t, keys);
        var b := UnfoldsBelow(h, w, a, loop);
        UnfoldsUnique(h, w, a, b);
        assert false;
      }
    }
  }

  /** Why a conversion stopped: something that is not plain, or an object that is
      already on the path or was passed on the way to it. */
  ghost predicate Explains(h: Heap, v: Value, seen: set<ObjId>, steps: seq<Step>, reason: Reason) {
    match Resolve(h, v, Names(steps))
    case Some(w) =>
      (match reason
       case NotFinite => w.Num? && !w.number.Finite?
       case NotSafe => w.Num? && w.number.Finite? && !GoodNumber(w.number)
       case NotJson => w == Opaque
       case NotPlain => w.Ref? && w.id in h && h[w.id].kind.ExoticObject?
       case Circular => w.Ref? && (w.id in seen || Passed(h, v, Names(steps), w)))
    case None => false
  }

  ghost predicate Passed(h: Heap, v: Value, keys: seq<string>, w: Value) {
    exists j :: 0 <= j < |keys| && Resolve(h, v, keys[..j]) == Some(w)
  }

  lemma {:induction false} StoppedExplained(h: Heap, v: Value, seen: set<ObjId>)
    requires InHeap(h, v) && WellFormed(h) && Convert(h, v, seen).Stopped?
    ensures Explains(h, v, seen, Convert(h, v, seen).steps, Convert(h, v, seen).reason)
    decreases h.Keys - seen, 0, 0
  {
    if v.Ref? && !h[v.id].kind.ExoticObject? && v.id !in seen {
      assert v.id in h.Keys - seen && v.id !in h.Keys - (seen + {v.id});
      StoppedFromExplained(h, v.id, 0, seen + {v.id});
      var c := Convert(h, v, seen);
      ExplainsBelow(h, v, seen, c.steps, c.reason);
    }
  }

  lemma {:induction false} StoppedFromExplained(h: Heap, o: ObjId, i: nat, seen: set<ObjId>)
    requires o in h && i <= |h[o].entries| && WellFormed(h)
    requires ConvertFrom(h, o, i, seen).Stopped?
    ensures var c := ConvertFrom(h, o, i, seen);
      c.steps != [] && Explains(h, Ref(o), seen, c.steps, c.reason)
    decreases h.Keys - seen, 1, |h[o].entries| - i
  {
    var child := h[o].entries[i].value;
    if Convert(h, child, seen).Stopped? {
      StoppedExplained(h, child, seen);
      var c := Convert(h, child, seen);
      ExplainsFirst(h, o, i, seen, c.steps, c.reason);
    } else {
      StoppedFromExplained(h, o, i + 1, seen);
    }
  }

  lemma ExplainsFirst(h: Heap, o: ObjId, i: nat, seen: set<ObjId>, steps: seq<Step>, reason: Reason)
    requires o in h && i < |h[o].entries| && WellFormed(h)
    requires Explains(h, h[o].entries[i].value, seen, steps, reason)
    ensures Explains(h, Ref(o), seen, [StepAt(h[o], i)] + steps, reason)
  {
    var child := h[o].entries[i].value;
    var all := [StepAt(h[o], i)] + steps;
    assert all[1..] == steps;
    var keys := Names(all);
    assert keys[0] == h[o].entries[i].key && keys[1..] == Names(steps);
    ChildAt(h, Ref(o), i);
    if reason.Circular? {
      var w := Resolve(h, child, Names(steps)).value;
      if Passed(h, child, Names(steps), w) {
        var j :| 0 <= j < |Names(steps)| && Resolve(h, child, Names(steps)[..j]) == Some(w);
        assert keys[..j + 1][0] == keys[0] && keys[..j + 1][1..] == Names(steps)[..j];
        assert Resolve(h, Ref(o), keys[..j + 1]) == Some(w);
      }
    }
  }

  /** Meeting `v` itself again below `v` is a way that passed `v`. */
  lemma ExplainsBelow(h: Heap, v: Value, seen: set<ObjId>, steps: seq<Step>, reason: Reason)
    requires v.Ref? && steps != [] && Explains(h, v, seen + {v.id}, steps, reason)
    ensures Explains(h, v, seen, steps, reason)
  {
    assert Resolve(h, v, Names(steps)[..0]) == Some(v);
  }

  /** The conversion succeeds exactly on acyclic graphs of plain objects, arrays
      and JSON leaves; sharing is no obstacle. */
  lemma SucceedsExactly(h: Heap, v: Value)
    requires InHeap(h, v) && WellFormed(h)
    ensures Convert(h, v, {}).Done? <==> AllPlain(h, v) && Acyclic(h, v)
    ensures Convert(h, v, {}).Done? ==> Unfolds(h, v, Convert(h, v, {}).value)
  {
    var c := Convert(h, v, {});
    if c.Done? {
      ConvertUnfolds(h, v, {});
      DoneIsPlain(h, v, c.value);
      DoneIsAcyclic(h, v, c.value);
    } else {
      StoppedExplained(h, v, {});
      var keys := Names(c.steps);
      if c.reason.Circular? {
        var w := Resolve(h, v, keys).value;
        var j :| 0 <= j < |keys| && Resolve(h, v, keys[..j]) == Some(w);
        assert keys[..j] + keys[j..] == keys;
        ResolveConcat(h, v, keys[..j], keys[j..]);
        assert Cycle(h, v, keys[..j], keys[j..]);
      } else {
        assert !Plain(h, Resolve(h, v, keys).value);
      }
    }
  }

  // --------------------------------------------------------------- sharing

  /** The heap without the `j`-th property of `a`. */
  function Without(h: Heap, a: ObjId, j: nat): Heap
    requires a in h && j < |h[a].entries|
  {
    h[a := Obj(h[a].kind, h[a].entries[..j] + h[a].entries[j + 1..])]
  }

  lemma {:induction false} LookupDrop(es: seq<Entry>, j: nat, key: string)
    requires j < |es| && DistinctKeys(es)
    ensures Lookup(es[..j] + es[j + 1..], key) == if key == es[j].key then None else Lookup(es, key)
  {
    var rest := es[..j] + es[j + 1..];
    if j == 0 {
      assert rest == es[1..];
      if key == es[0].key { LookupNone(es[1..], key); }
    } else {
      assert rest[1..] == es[1..][..j - 1] + es[1..][j..];
      LookupDrop(es[1..], j - 1, key);
      assert es[0].key != es[j].key;
    }
  }

  lemma {:induction false} LookupNone(es: seq<Entry>, key: string)
    requires forall i :: 0 <= i < |es| ==> es[i].key != key
    ensures Lookup(es, key) == None
  {
    if es != [] { LookupNone(es[1..], key); }
  }

  lemma WithoutWellFormed(h: Heap, a: ObjId, j: nat)
    requires WellFormed(h) && a in h && j < |h[a].entries|
    ensures WellFormed(Without(h, a, j))
  {
    var es := h[a].entries;
    var rest := es[..j] + es[j + 1..];
    assert forall k :: 0 <= k < |rest| ==> rest[k] == es[if k < j then k else k + 1];
  }

  /** The way in a heap without one of two references to the same value: through the
      other reference. */
  lemma {:induction false} Detour(h: Heap, a: ObjId, i: nat, j: nat, v: Value, keys: seq<string>) returns (way: seq<string>)
    requires WellFormed(h) && a in h && i < |h[a].entries| && j < |h[a].entries| && i != j
    requires h[a].entries[i].value == h[a].entries[j].value && Resolve(h, v, keys).Some?
    ensures |way| == |keys| && Resolve(Without(h, a, j), v, way) == Resolve(h, v, keys)
    decreases |keys|
  {
    if keys == [] { return []; }
    var es := h[a].entries;
    var rest := Detour(h, a, i, j, Child(h, v, keys[0]).value, keys[1..]);
    var first := if v == Ref(a) && keys[0] == es[j].key then es[i].key else keys[0];
    LookupDrop(es, j, first);
    LookupAt(es, i);
    LookupAt(es, j);
    way := [first] + rest;
    assert way[1..] == rest;
  }

  lemma {:induction false} StillThere(h: Heap, a: ObjId, j: nat, v: Value, keys: seq<string>)
    requires WellFormed(h) && a in h && j < |h[a].entries| && Resolve(Without(h, a, j), v, keys).Some?
    ensures Resolve(h, v, keys) == Resolve(Without(h, a, j), v, keys)
    decreases |keys|
  {
    if keys != [] {
      LookupDrop(h[a].entries, j, keys[0]);
      StillThere(h, a, j, Child(Without(h, a, j), v, keys[0]).value, keys[1..]);
    }
  }

  /** A second reference to a value that the same object already refers to never
      changes whether a graph is accepted: sharing is not circularity. */
  lemma SharingIsAccepted(h: Heap, v: Value, a: ObjId, i: nat, j: nat)
    requires InHeap(h, v) && WellFormed(h) && a in h && i < |h[a].entries| && j < |h[a].entries| && i != j
    requires h[a].entries[i].value == h[a].entries[j].value
    ensures WellFormed(Without(h, a, j))
    ensures Convert(h, v, {}).Done? <==> Convert(Without(h, a, j), v, {}).Done?
  {
    var less := Without(h, a, j);
    WithoutWellFormed(h, a, j);
    SucceedsExactly(h, v);
    SucceedsExactly(less, v);
    forall keys | Resolve(less, v, keys).Some? ensures Resolve(h, v, keys) == Resolve(less, v, keys) {
      StillThere(h, a, j, v, keys);
    }
    if AllPlain(less, v) && Acyclic(less, v) {
      DetouredPlain(h, a, i, j, v);
      DetouredAcyclic(h, a, i, j, v);
    }
    if AllPlain(h, v) && Acyclic(h, v) {
      forall keys, loop ensures !Cycle(less, v, keys, loop) {
        if Cycle(less, v, keys, loop) {
          StillThere(h, a, j, Resolve(less, v, keys).value, loop);
          assert Cycle(h, v, keys, loop);
        }
      }
    }
  }

  lemma DetouredPlain(h: Heap, a: ObjId, i: nat, j: nat, v: Value)
    requires WellFormed(h) && a in h && i < |h[a].entries| && j < |h[a].entries| && i != j
    requires h[a].entries[i].value == h[a].entries[j].value && AllPlain(Without(h, a, j), v)
    ensures AllPlain(h, v)
  {
    forall keys ensures match Resolve(h, v, keys) case Some(w) => Plain(h, w) case None => true {
      if Resolve(h, v, keys).Some? {
        var way := Detour(h, a, i, j, v, keys);
        assert Plain(Without(h, a, j), Resolve(Without(h, a, j), v, way).value);
      }
    }
  }

  lemma DetouredAcyclic(h: Heap, a: ObjId, i: nat, j: nat, v: Value)
    requires WellFormed(h) && a in h && i < |h[a].entries| && j < |h[a].entries| && i != j
    requires h[a].entries[i].value == h[a].entries[j].value && Acyclic(Without(h, a, j), v)
    ensures Acyclic(h, v)
  {
    forall keys, loop ensures !Cycle(h, v, keys, loop) {
      if Cycle(h, v, keys, loop) {
        var way := Detour(h, a, i, j, v, keys);
        var round := Detour(h, a, i, j, Resolve(h, v, keys).value, loop);
        assert Cycle(Without(h, a, j), v, way, round);
      }
    }
  }

  // --------------------------------------------------------- what is visited

  /** The elements of an array below index `n`: holes and other properties are passed over. */
  function ElementsBelow(entries: seq<Entry>, n: nat): seq<Entry> {
    if n == 0 then []
    else ElementsBelow(entries, n - 1) +
         match Lookup(entries, Decimal(n - 1)) case Some(v) => [Entry(Decimal(n - 1), v)] case None => []
  }

  /** What the walk visits of an object: the elements of an array, all properties of
      anything else. */
  function Visited(obj: Obj): seq<Entry> {
    if obj.kind.ArrayObject? then ElementsBelow(obj.entries, obj.kind.length) else obj.entries
  }

  /** The graph as the walk sees it. */
  function Visible(h: Heap): Heap {
    map o | o in h :: Obj(h[o].kind, Visited(h[o]))
  }

  lemma {:induction false} ElementOf(entries: seq<Entry>, n: nat, i: nat) returns (k: nat)
    requires i < |ElementsBelow(entries, n)|
    ensures k < n && ElementsBelow(entries, n)[i].key == Decimal(k) && ElementsBelow(entries, n)[i] in entries
  {
    hide Decimal;
    if i < |ElementsBelow(entries, n - 1)| {
      k := ElementOf(entries, n - 1, i);
    } else {
      k := n - 1;
    }
  }

  lemma {:induction false} ElementsDistinct(entries: seq<Entry>, n: nat)
    ensures DistinctKeys(ElementsBelow(entries, n))
  {
    hide Decimal;
    if n > 0 {
      ElementsDistinct(entries, n - 1);
      var before := ElementsBelow(entries, n - 1);
      forall i | 0 <= i < |before| ensures before[i].key != Decimal(n - 1) {
        var k := ElementOf(entries, n - 1, i);
        if Decimal(k) == Decimal(n - 1) { DecimalInjective(k, n - 1); }
      }
    }
  }

  /** The element with index `n` stands after those with smaller indexes. */
  lemma {:induction false} ElementAt(entries: seq<Entry>, n: nat, length: nat)
    requires n < length
    ensures ElementsBelow(entries, n) <= ElementsBelow(entries, length)
    ensures var at := |ElementsBelow(entries, n)|; match Lookup(entries, Decimal(n))
      case Some(v) => at < |ElementsBelow(entries, length)| && ElementsBelow(entries, length)[at] == Entry(Decimal(n), v) &&
        |ElementsBelow(entries, n + 1)| == at + 1
      case None => |ElementsBelow(entries, n + 1)| == at
  {
    if n + 1 < length { ElementAt(entries, n, length - 1); }
  }

  lemma VisibleWellFormed(h: Heap)
    requires WellFormed(h)
    ensures WellFormed(Visible(h)) && Visible(h).Keys == h.Keys
  {
    forall o | o in h ensures DistinctKeys(Visited(h[o])) && AllInHeap(h, Visited(h[o])) {
      hide Decimal, ElementsBelow;
      if h[o].kind.ArrayObject? {
        var entries, n := h[o].entries, h[o].kind.length;
        ElementsDistinct(entries, n);
        forall i | 0 <= i < |ElementsBelow(entries, n)| ensures InHeap(h, ElementsBelow(entries, n)[i].value) {
          var _ := ElementOf(entries, n, i);
        }
      }
    }
  }

  /** The conversion of a value of any heap. */
  function Copy(h: Heap, v: Value, seen: set<ObjId>): Outcome<Tree>
    requires InHeap(h, v) && WellFormed(h)
  {
    VisibleWellFormed(h);
    Convert(Visible(h), v, seen)
  }

  // --------------------------------------------------------------- the code

  datatype Answer = Value(tree: Tree) | TypeError(message: string)

  function Complaint(reason: Reason): string {
    match reason
    case NotFinite => " must be a finite JSON number"
    case NotSafe => " must be a safe JSON integer"
    case NotJson => " is not JSON-compatible"
    case NotPlain => " must be a plain JSON object or array"
    case Circular => " contains a circular reference"
  }

  function Say(path: string, c: Outcome<Tree>): Answer {
    match c
    case Done(tree) => Value(tree)
    case Stopped(steps, reason) => TypeError(path + Render(steps) + Complaint(reason))
  }

  /** `seen` is as it was on every exit, whether a tree or an error is answered. */
  method ToJson(h: Heap, value: ObjectGraph.Value, path: string, seen: Seen) returns (answer: Answer)
    requires InHeap(h, value) && WellFormed(h)
    modifies seen
    ensures seen.items == old(seen.items)
    ensures answer == Say(path, Copy(h, value, old(seen.items)))
    decreases h.Keys - seen.items, 0
  {
    VisibleWellFormed(h);
    assert path + Render([]) == path;
    match value
    case Null => return Value(NullTree);
    case Bool(flag) => return Value(BoolTree(flag));
    case Str(text) => return Value(StrTree(text));
    case Num(n) =>
      if !n.Finite? {
        return TypeError(path + " must be a finite JSON number");
      }
      if IsInteger(n.value) && !IsSafe(n.value) {
        return TypeError(path + " must be a safe JSON integer");
      }
      return Value(NumTree(n));
    case Opaque => return TypeError(path + " is not JSON-compatible");
    case Ref(o) =>
      if h[o].kind.ExoticObject? {
        return TypeError(path + " must be a plain JSON object or array");
      }
      if o in seen.items {
        return TypeError(path + " contains a circular reference");
      }
      ghost var before := seen.items;
      seen.Add(o);
      assert o in h.Keys - before && o !in h.Keys - seen.items;
      if h[o].kind.ArrayObject? {
        answer := CopyElements(h, o, path, seen);
      } else {
        answer := CopyProperties(h, o, path, seen);
      }
      NoneDone(ConvertFrom(Visible(h), o, 0, seen.items));
      seen.Delete(o);
      assert seen.items == before;
  }

  function SayFrom(path: string, kind: Kind, done: seq<Member>, c: Outcome<seq<Member>>): Answer {
    match c
    case Done(members) => Value(Assemble(kind, done + members))
    case Stopped(steps, reason) => TypeError(path + Render(steps) + Complaint(reason))
  }

  lemma NoneDone(c: Outcome<seq<Member>>)
    ensures c.Done? ==> [] + c.value == c.value
  {
  }

  /** The loop over an object's properties. */
  method CopyProperties(h: Heap, o: ObjId, path: string, seen: Seen) returns (answer: Answer)
    requires o in h && WellFormed(h) && h[o].kind.PlainObject?
    modifies seen
    ensures WellFormed(Visible(h)) && seen.items == old(seen.items)
    ensures answer == SayFrom(path, h[o].kind, [], ConvertFrom(Visible(h), o, 0, old(seen.items)))
    decreases h.Keys - seen.items, 1
  {
    VisibleWellFormed(h);
    ghost var view := Visible(h);
    var entries := h[o].entries;
    assert view[o] == Obj(PlainObject, entries);
    hide Visible, Convert, ConvertFrom, Copy, Say, SayFrom, Step.Render;
    var output: seq<Member> := [];
    var i := 0;
    while i < |entries|
      invariant i <= |entries| && seen.items == old(seen.items)
      invariant SayFrom(path, h[o].kind, [], ConvertFrom(view, o, 0, seen.items)) ==
                SayFrom(path, h[o].kind, output, ConvertFrom(view, o, i, seen.items))
    {
      var key := entries[i].key;
      var item := ToJson(h, entries[i].value, path + Key(key).Render(), seen);
      Visit(h, o, i, entries[i], Key(key), path, output, seen.items);
      if item.TypeError? { return item; }
      output := output + [Member(key, item.tree)];
      i := i + 1;
    }
    VisitEnd(h, o, path, output, seen.items);
    answer := Value(ObjectTree(output));
  }

  /** The answer of a loop over an array that has come to `index` with `output` so far. */
  function Mapped(h: Heap, o: ObjId, index: nat, path: string, output: seq<Member>, seen: set<ObjId>): Answer
    requires o in h && WellFormed(h) && h[o].kind.ArrayObject? && index <= h[o].kind.length
  {
    VisibleWellFormed(h);
    ElementsGrow(h[o].entries, index, h[o].kind.length);
    SayFrom(path, h[o].kind, output, ConvertFrom(Visible(h), o, |ElementsBelow(h[o].entries, index)|, seen))
  }

  lemma ElementsGrow(entries: seq<Entry>, n: nat, length: nat)
    requires n <= length
    ensures |ElementsBelow(entries, n)| <= |ElementsBelow(entries, length)|
  {
    if n < length { ElementAt(entries, n, length); }
  }

  /** `map` over an array: indexes without an element are passed over. */
  method CopyElements(h: Heap, o: ObjId, path: string, seen: Seen) returns (answer: Answer)
    requires o in h && WellFormed(h) && h[o].kind.ArrayObject?
    modifies seen
    ensures seen.items == old(seen.items)
    ensures answer == Mapped(h, o, 0, path, [], old(seen.items))
    decreases h.Keys - seen.items, 1
  {
    hide Mapped, Copy, Say, Decimal, Step.Render, Lookup, WellFormed, Assemble;
    var entries, length := h[o].entries, h[o].kind.length;
    var output: seq<Member> := [];
    var index := 0;
    while index < length
      invariant index <= length && seen.items == old(seen.items)
      invariant Mapped(h, o, 0, path, [], seen.items) == Mapped(h, o, index, path, output, seen.items)
    {
      var element := Lookup(entries, Decimal(index));
      MapStep(h, o, index, path, output, seen.items);
      if element.Some? {
        var item := ToJson(h, element.value, path + Index(Decimal(index)).Render(), seen);
        if item.TypeError? { return item; }
        output := output + [Member(Decimal(index), item.tree)];
      }
      index := index + 1;
    }
    MapEnd(h, o, path, output, seen.items);
    answer := Value(Assemble(h[o].kind, output));
  }

  lemma MapStep(h: Heap, o: ObjId, index: nat, path: string, output: seq<Member>, seen: set<ObjId>)
    requires o in h && WellFormed(h) && h[o].kind.ArrayObject? && index < h[o].kind.length
    ensures Lookup(h[o].entries, Decimal(index)).Some? ==> InHeap(h, Lookup(h[o].entries, Decimal(index)).value)
    ensures Mapped(h, o, index, path, output, seen) == match Lookup(h[o].entries, Decimal(index))
      case None => Mapped(h, o, index + 1, path, output, seen)
      case Some(v) =>
        var item := Say(path + Index(Decimal(index)).Render(), Copy(h, v, seen));
        if item.TypeError? then item
        else Mapped(h, o, index + 1, path, output + [Member(Decimal(index), item.tree)], seen)
  {
    VisibleWellFormed(h);
    var entries, length := h[o].entries, h[o].kind.length;
    ElementAt(entries, index, length);
    assert Visible(h)[o] == Obj(h[o].kind, ElementsBelow(entries, length));
    hide Visible, Visited, WellFormed, Convert, ConvertFrom, Copy, Say, SayFrom, ElementsBelow, Decimal, Step.Render, Lookup;
    if Lookup(entries, Decimal(index)).Some? {
      var v, at := Lookup(entries, Decimal(index)).value, |ElementsBelow(entries, index)|;
      ElementInHeap(h, o, Decimal(index));
      Visit(h, o, at, Entry(Decimal(index), v), Index(Decimal(index)), path, output, seen);
    }
  }

  lemma MapEnd(h: Heap, o: ObjId, path: string, output: seq<Member>, seen: set<ObjId>)
    requires o in h && WellFormed(h) && h[o].kind.ArrayObject?
    ensures Mapped(h, o, h[o].kind.length, path, output, seen) == Value(Assemble(h[o].kind, output))
  {
    VisibleWellFormed(h);
    VisitEnd(h, o, path, output, seen);
  }

  lemma ElementInHeap(h: Heap, o: ObjId, key: string)
    requires o in h && WellFormed(h) && Lookup(h[o].entries, key).Some?
    ensures InHeap(h, Lookup(h[o].entries, key).value)
  {
  }

  /** One visit of a loop: what the answer is when the item stops the walk, and how
      the loop goes on when it does not. */
  lemma Visit(h: Heap, o: ObjId, i: nat, e: Entry, step: Step, path: string, output: seq<Member>, seen: set<ObjId>)
    requires o in h && WellFormed(h) && WellFormed(Visible(h)) && i < |Visible(h)[o].entries|
    requires e == Visible(h)[o].entries[i] && step == StepAt(Visible(h)[o], i) && InHeap(h, e.value)
    ensures SayFrom(path, h[o].kind, output, ConvertFrom(Visible(h), o, i, seen)) ==
      var item := Say(path + step.Render(), Copy(h, e.value, seen));
      if item.TypeError? then item
      else SayFrom(path, h[o].kind, output + [Member(e.key, item.tree)], ConvertFrom(Visible(h), o, i + 1, seen))
  {
    var view := Visible(h);
    assert InHeap(view, e.value);
    var c := Convert(view, e.value, seen);
    match c
    case Stopped(steps, _) => RenderStep(path, step, steps);
    case Done(tree) => SayAfter(path, h[o].kind, output, Member(e.key, tree), ConvertFrom(view, o, i + 1, seen));
  }

  lemma VisitEnd(h: Heap, o: ObjId, path: string, output: seq<Member>, seen: set<ObjId>)
    requires o in h && WellFormed(h) && WellFormed(Visible(h))
    ensures SayFrom(path, h[o].kind, output, ConvertFrom(Visible(h), o, |Visible(h)[o].entries|, seen)) ==
      Value(Assemble(h[o].kind, output))
  {
    assert output + [] == output;
  }

  lemma RenderStep(path: string, step: Step, steps: seq<Step>)
    ensures path + step.Render() + Render(steps) == path + Render([step] + steps)
  {
    assert ([step] + steps)[1..] == steps;
  }

  lemma SayAfter(path: string, kind: Kind, done: seq<Member>, m: Member, c: Outcome<seq<Member>>)
    ensures SayFrom(path, kind, done, Prepend(m, c)) == SayFrom(path, kind, done + [m], c)
  {
    if c.Done? {
      assert done + ([m] + c.value) == done + [m] + c.value;
    }
  }

  /** `asJsonValue(value)` as callers write it. */
  method AsJson(h: Heap, value: ObjectGraph.Value) returns (answer: Answer)
    requires InHeap(h, value) && WellFormed(h)
    ensures answer.Value? <==> AllPlain(Visible(h), value) && Acyclic(Visible(h), value)
    ensures answer.Value? ==> Unfolds(Visible(h), value, answer.tree)
    ensures answer == Say("$", Copy(h, value, {}))
  {
    var seen := new Seen();
    answer := ToJson(h, value, "$", seen);
    VisibleWellFormed(h);
    SucceedsExactly(Visible(h), value);
  }
}
