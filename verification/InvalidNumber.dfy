/** `findInvalidNumber`: the depth-first search for a number JSON cannot carry,
    over an object graph that may be shared and cyclic. */
module InvalidNumber {
  import opened ObjectGraph
  import opened JsonPointer
  import opened Wrappers

  datatype Issue = Issue(path: string, message: string)

  /** Where a bad number is, as the keys leading to it, and the number itself. */
  datatype Found = Found(keys: seq<string>, number: Number)

  function Message(n: Number): string {
    if n.Finite? then "must be a safe JSON integer" else "must be a finite JSON number"
  }

  /** The issue reported for what was found below `path`. */
  function Report(path: string, found: Option<Found>): Option<Issue> {
    match found
    case None => None
    case Some(f) =>
      var full := path + Pointer(f.keys);
      Some(Issue(if full == "" then "/" else full, Message(f.number)))
  }

  /** The search as a function of the set of objects on the current path. */
  function Find(h: Heap, v: Value, seen: set<ObjId>): Option<Found>
    decreases h.Keys - seen, 0, 0
  {
    match v
    case Num(n) => if GoodNumber(n) then None else Some(Found([], n))
    case Ref(o) =>
      if o in seen || o !in h then None
      else
        assert o in h.Keys - seen && o !in h.Keys - (seen + {o});
        FindIn(h, h[o].entries, seen + {o})
    case _ => None
  }

  /** The search over the properties still to visit, in order. */
  function FindIn(h: Heap, entries: seq<Entry>, seen: set<ObjId>): Option<Found>
    decreases h.Keys - seen, 1, |entries|
  {
    if entries == [] then None
    else match Find(h, entries[0].value, seen)
      case Some(f) => Some(Found([entries[0].key] + f.keys, f.number))
      case None => FindIn(h, entries[1..], seen)
  }

  // -------------------------------------------------------------- soundness

  ghost predicate BadAt(h: Heap, v: Value, keys: seq<string>) {
    match Resolve(h, v, keys)
    case Some(Num(n)) => !GoodNumber(n)
    case _ => false
  }

  lemma {:induction false} FoundIsBad(h: Heap, v: Value, seen: set<ObjId>)
    requires WellFormed(h) && Find(h, v, seen).Some?
    ensures Resolve(h, v, Find(h, v, seen).value.keys) == Some(Num(Find(h, v, seen).value.number))
    ensures !GoodNumber(Find(h, v, seen).value.number)
    decreases h.Keys - seen, 0, 0
  {
    if v.Ref? {
      assert v.id in h.Keys - seen && v.id !in h.Keys - (seen + {v.id});
      FoundInIsBad(h, v, 0, seen + {v.id});
    }
  }

  lemma {:induction false} FoundInIsBad(h: Heap, v: Value, i: nat, seen: set<ObjId>)
    requires WellFormed(h) && v.Ref? && v.id in h && i <= |h[v.id].entries|
    requires FindIn(h, h[v.id].entries[i..], seen).Some?
    ensures var f := FindIn(h, h[v.id].entries[i..], seen).value;
      Resolve(h, v, f.keys) == Some(Num(f.number)) && !GoodNumber(f.number)
    decreases h.Keys - seen, 1, |h[v.id].entries| - i
  {
    var entries := h[v.id].entries;
    var child := Find(h, entries[i].value, seen);
    assert entries[i..][1..] == entries[i + 1..];
    if child.Some? {
      FoundIsBad(h, entries[i].value, seen);
      ChildAt(h, v, i);
      var keys := [entries[i].key] + child.value.keys;
      assert keys[0] == entries[i].key && keys[1..] == child.value.keys;
    } else {
      FoundInIsBad(h, v, i + 1, seen);
    }
  }

  // ----------------------------------------------------------- completeness

  /** No object along the way, the start included, is in `seen`. */
  ghost predicate Avoids(h: Heap, v: Value, keys: seq<string>, seen: set<ObjId>) {
    forall j :: 0 <= j <= |keys| ==>
      match Resolve(h, v, keys[..j]) case Some(Ref(o)) => o !in seen case _ => true
  }

  lemma {:induction false} SearchedChild(h: Heap, entries: seq<Entry>, key: string, seen: set<ObjId>)
    requires FindIn(h, entries, seen) == None && Lookup(entries, key).Some?
    ensures Find(h, Lookup(entries, key).value, seen) == None
    decreases |entries|
  {
    if entries[0].key != key {
      SearchedChild(h, entries[1..], key, seen);
    }
  }

  /** Cutting at objects on the current path loses nothing: a way to a bad number
      that comes back to such an object has a shorter tail that starts there. */
  lemma {:induction false} NothingMissed(h: Heap, v: Value, keys: seq<string>, seen: set<ObjId>)
    requires WellFormed(h) && InHeap(h, v)
    requires Find(h, v, seen) == None && Avoids(h, v, keys, seen)
    ensures !BadAt(h, v, keys)
    decreases |keys|
  {
    if keys != [] && Child(h, v, keys[0]).Some? {
      var o, child, rest := v.id, Child(h, v, keys[0]).value, keys[1..];
      ChildInHeap(h, v, keys[0]);
      assert Resolve(h, v, keys[..0]) == Some(v);
      SearchedChild(h, h[o].entries, keys[0], seen + {o});
      if Avoids(h, child, rest, seen + {o}) {
        NothingMissed(h, child, rest, seen + {o});
      } else {
        var j := ComesBack(h, v, keys, seen);
        ResolveConcat(h, child, rest[..j], rest[j..]);
        assert rest[..j] + rest[j..] == rest;
        AvoidsTail(h, v, keys, j + 1, seen);
        assert keys[j + 1..] == rest[j..];
        NothingMissed(h, v, rest[j..], seen);
      }
    }
  }

  /** If the way below `v` meets the current path, it comes back to `v` itself. */
  lemma ComesBack(h: Heap, v: Value, keys: seq<string>, seen: set<ObjId>) returns (j: nat)
    requires keys != [] && v.Ref? && Child(h, v, keys[0]).Some? && Avoids(h, v, keys, seen)
    requires !Avoids(h, Child(h, v, keys[0]).value, keys[1..], seen + {v.id})
    ensures j <= |keys| - 1 && Resolve(h, Child(h, v, keys[0]).value, keys[1..][..j]) == Some(v)
    ensures Resolve(h, v, keys[..j + 1]) == Some(v)
  {
    var child, rest := Child(h, v, keys[0]).value, keys[1..];
    j :| 0 <= j <= |rest| &&
      !(match Resolve(h, child, rest[..j]) case Some(Ref(o)) => o !in seen + {v.id} case _ => true);
    assert keys[..j + 1][0] == keys[0] && keys[..j + 1][1..] == rest[..j];
    assert Resolve(h, v, keys[..j + 1]) == Resolve(h, child, rest[..j]);
  }

  lemma AvoidsTail(h: Heap, v: Value, keys: seq<string>, j: nat, seen: set<ObjId>)
    requires Avoids(h, v, keys, seen) && j <= |keys| && Resolve(h, v, keys[..j]) == Some(v)
    ensures Avoids(h, v, keys[j..], seen)
  {
    forall k | 0 <= k <= |keys[j..]|
      ensures match Resolve(h, v, keys[j..][..k]) case Some(Ref(o)) => o !in seen case _ => true
    {
      ResolveConcat(h, v, keys[..j], keys[j..][..k]);
      assert keys[..j] + keys[j..][..k] == keys[..j + k];
    }
  }

  /** On every finite graph, the search reports an issue exactly when some
      reachable number is bad. */
  lemma FindsExactly(h: Heap, v: Value)
    requires WellFormed(h) && InHeap(h, v)
    ensures Find(h, v, {}).Some? <==> exists keys :: BadAt(h, v, keys)
  {
    if Find(h, v, {}).Some? {
      FoundIsBad(h, v, {});
      assert BadAt(h, v, Find(h, v, {}).value.keys);
    } else {
      forall keys
        ensures !BadAt(h, v, keys)
      {
        NothingMissed(h, v, keys, {});
      }
    }
  }

  /** An issue's path, read as a JSON Pointer, leads to a number its message is true of. */
  ghost predicate LeadsThere(h: Heap, v: Value, issue: Issue) {
    match Resolve(h, v, Tokens(issue.path))
    case Some(Num(n)) => !GoodNumber(n) && issue.message == Message(n)
    case _ => false
  }

  /** A reported path leads there exactly when the value that was checked is not itself
      a number: the root's own issue is reported at "/", where nothing is. */
  lemma IssuePathExactly(h: Heap, v: Value)
    requires WellFormed(h) && Find(h, v, {}).Some?
    ensures LeadsThere(h, v, Report("", Find(h, v, {})).value) <==> !v.Num?
  {
    if v.Num? {
      RootIssuePath(h, v.number);
      assert Resolve(h, v, [""]) == None;
    } else {
      FoundIsBad(h, v, {});
      assert Resolve(h, v, []) == Some(v);
      IssuePathLeadsThere(h, v);
    }
  }

  /** A reported path other than the root's leads there. */
  lemma IssuePathLeadsThere(h: Heap, v: Value)
    requires WellFormed(h) && Find(h, v, {}).Some? && Find(h, v, {}).value.keys != []
    ensures LeadsThere(h, v, Report("", Find(h, v, {})).value)
  {
    FoundIsBad(h, v, {});
    var keys := Find(h, v, {}).value.keys;
    TokensOfPointer(keys);
    assert "" + Pointer(keys) == Pointer(keys);
  }

  /** The root's own issue is reported at "/", which as a pointer names the key "",
      and a number has no such key. */
  lemma RootIssuePath(h: Heap, n: Number)
    requires !GoodNumber(n)
    ensures Report("", Find(h, Num(n), {})) == Some(Issue("/", Message(n)))
    ensures Tokens("/") == [""] && Resolve(h, Num(n), Tokens("/")) == None
  {
    assert Pointer([]) == "" && "" + "" == "";
    PointerOne("");
    TokensOfPointer([""]);
  }

  // --------------------------------------------------------------- the code

  method FindInvalidNumber(h: Heap, value: Value, path: string, seen: Seen) returns (issue: Option<Issue>)
    requires WellFormed(h) && InHeap(h, value)
    modifies seen
    ensures seen.items == old(seen.items)
    ensures issue == Report(path, Find(h, value, old(seen.items)))
    decreases h.Keys - seen.items
  {
    ghost var before := seen.items;
    assert path + Pointer([]) == path;
    if value.Num? {
      if !value.number.Finite? {
        return Some(Issue(if path == "" then "/" else path, "must be a finite JSON number"));
      }
      if IsInteger(value.number.value) && !IsSafe(value.number.value) {
        return Some(Issue(if path == "" then "/" else path, "must be a safe JSON integer"));
      }
      return None;
    }
    if !value.Ref? || value.id in seen.items {
      return None;
    }
    seen.Add(value.id);
    assert value.id in h.Keys - before && value.id !in h.Keys - seen.items;
    var entries := h[value.id].entries;
    issue := None;
    var i := 0;
    assert entries[i..] == entries;
    while i < |entries| && issue == None
      invariant i <= |entries| && seen.items == before + {value.id}
      invariant Report(path, FindIn(h, entries, seen.items)) ==
                if issue == None then Report(path, FindIn(h, entries[i..], seen.items)) else issue
    {
      var entry := entries[i];
      assert entries[i..][1..] == entries[i + 1..];
      issue := FindInvalidNumber(h, entry.value, path + "/" + Escape(entry.key), seen);
      ReportBelow(path, entry.key, Find(h, entry.value, seen.items));
      i := i + 1;
    }
    seen.Delete(value.id);
    assert seen.items == before;
  }

  lemma ReportBelow(path: string, key: string, found: Option<Found>)
    ensures Report(path + "/" + Escape(key), found) ==
      match found case None => None case Some(f) => Report(path, Some(Found([key] + f.keys, f.number)))
  {
    if found.Some? {
      var keys := [key] + found.value.keys;
      assert keys[1..] == found.value.keys;
      assert path + "/" + Escape(key) + Pointer(found.value.keys) == path + Pointer(keys);
    }
  }

  /** The check that `validate` runs first: the value is let through to the schema
      exactly when no reachable number is bad. */
  method CheckNumbers(h: Heap, value: Value) returns (issue: Option<Issue>)
    requires WellFormed(h) && InHeap(h, value)
    ensures issue == None <==> forall keys :: !BadAt(h, value, keys)
    ensures issue == Report("", Find(h, value, {}))
  {
    var seen := new Seen();
    issue := FindInvalidNumber(h, value, "", seen);
    FindsExactly(h, value);
  }
}
