/** A snapshot of the JavaScript heap that the value walkers read but never write. */
module ObjectGraph {
  import opened Wrappers

  datatype Number = NaN | Infinite(positive: bool) | Finite(value: real)

  const MAX_SAFE_INTEGER: int := 9007199254740991

  predicate IsInteger(x: real) { x.Floor as real == x }

  predicate IsSafe(x: real) { -(MAX_SAFE_INTEGER as real) <= x <= MAX_SAFE_INTEGER as real }

  /** Finite, and safe if it is an integer. */
  predicate GoodNumber(n: Number) {
    n.Finite? && (IsInteger(n.value) ==> IsSafe(n.value))
  }

  type ObjId = nat

  /** `Opaque` is everything JSON has no form for: undefined, functions, symbols, big integers. */
  datatype Value = Null | Bool(flag: bool) | Str(text: string) | Num(number: Number) | Opaque | Ref(id: ObjId)

  /** Whether an object is an array, has a plain (or null) prototype, or is anything else. */
  datatype Kind = PlainObject | ArrayObject(length: nat) | ExoticObject

  datatype Entry = Entry(key: string, value: Value)

  /** An object's own enumerable string-keyed properties, as `Object.entries` lists them. */
  datatype Obj = Obj(kind: Kind, entries: seq<Entry>)

  type Heap = map<ObjId, Obj>

  predicate InHeap(h: Heap, v: Value) { v.Ref? ==> v.id in h }

  predicate DistinctKeys(entries: seq<Entry>) {
    forall i, j :: 0 <= i < j < |entries| ==> entries[i].key != entries[j].key
  }

  ghost predicate WellFormed(h: Heap) {
    forall o :: o in h ==> DistinctKeys(h[o].entries) && AllInHeap(h, h[o].entries)
  }

  predicate AllInHeap(h: Heap, entries: seq<Entry>) {
    forall i :: 0 <= i < |entries| ==> InHeap(h, entries[i].value)
  }

  /** The set of objects on the current path, shared by all calls of one walk. */
  class Seen {
    var items: set<ObjId>

    constructor ()
      ensures items == {}
    {
      items := {};
    }

    method Add(o: ObjId)
      modifies this
      ensures items == old(items) + {o}
    {
      items := items + {o};
    }

    method Delete(o: ObjId)
      modifies this
      ensures items == old(items) - {o}
    {
      items := items - {o};
    }
  }

  // ------------------------------------------------------------ navigation

  function Lookup(entries: seq<Entry>, key: string): (v: Option<Value>)
    ensures v.Some? ==> exists i :: 0 <= i < |entries| && entries[i] == Entry(key, v.value)
  {
    if entries == [] then None
    else if entries[0].key == key then Some(entries[0].value)
    else Lookup(entries[1..], key)
  }

  function Child(h: Heap, v: Value, key: string): Option<Value> {
    if v.Ref? && v.id in h then Lookup(h[v.id].entries, key) else None
  }

  /** The value that a list of property keys leads to, if every one of them exists. */
  function Resolve(h: Heap, v: Value, keys: seq<string>): Option<Value>
    decreases |keys|
  {
    if keys == [] then Some(v)
    else match Child(h, v, keys[0])
      case None => None
      case Some(c) => Resolve(h, c, keys[1..])
  }

  lemma {:induction false} ResolveConcat(h: Heap, v: Value, a: seq<string>, b: seq<string>)
    ensures Resolve(h, v, a + b) == match Resolve(h, v, a) case None => None case Some(w) => Resolve(h, w, b)
    decreases |a|
  {
    if a == [] {
      assert a + b == b;
    } else {
      assert (a + b)[0] == a[0] && (a + b)[1..] == a[1..] + b;
      match Child(h, v, a[0])
      case None =>
      case Some(c) => ResolveConcat(h, c, a[1..], b);
    }
  }

  lemma {:induction false} LookupAt(entries: seq<Entry>, i: nat)
    requires i < |entries| && DistinctKeys(entries)
    ensures Lookup(entries, entries[i].key) == Some(entries[i].value)
  {
    if i > 0 {
      assert entries[0].key != entries[i].key;
      assert entries[1..][i - 1] == entries[i];
      LookupAt(entries[1..], i - 1);
    }
  }

  lemma ChildAt(h: Heap, v: Value, i: nat)
    requires WellFormed(h) && v.Ref? && v.id in h && i < |h[v.id].entries|
    ensures Child(h, v, h[v.id].entries[i].key) == Some(h[v.id].entries[i].value)
  {
    LookupAt(h[v.id].entries, i);
  }

  lemma ChildInHeap(h: Heap, v: Value, key: string)
    requires WellFormed(h) && Child(h, v, key).Some?
    ensures InHeap(h, Child(h, v, key).value)
  {
  }
}
