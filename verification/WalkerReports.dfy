/** Which of several faults the two object-graph walkers report, and in what words. */
module WalkerReports {
  import opened Text
  import opened Wrappers
  import opened ObjectGraph
  import opened JsonPointer
  import opened InvalidNumber
  import AsJsonValue

  // -------------------------------------------------------------- numbers

  predicate Is(x: real, k: int) { x == k as real }

  /** A number is good exactly if it is finite and no integer beyond 2 to the 53rd, less one. */
  lemma GoodNumberExactly(n: Number)
    ensures GoodNumber(n) <==>
      n.Finite? && forall k: int :: Is(n.value, k) ==> -9007199254740991 <= k <= 9007199254740991
  {
    if n.Finite? {
      var k := n.value.Floor;
      assert forall j: int :: Is(n.value, j) ==> j == k;
      assert IsInteger(n.value) <==> Is(n.value, k);
    }
  }

  /** What is said of a bad number at the root. */
  lemma MessageExactly(h: Heap, n: Number)
    ensures !n.Finite? ==> Report("", Find(h, Num(n), {})) == Some(Issue("/", "must be a finite JSON number"))
    ensures n.Finite? && !GoodNumber(n) ==> Report("", Find(h, Num(n), {})) == Some(Issue("/", "must be a safe JSON integer"))
    ensures GoodNumber(n) ==> Report("", Find(h, Num(n), {})) == None
  {
    assert Pointer([]) == "" && "" + "" == "";
  }

  /** A key is escaped character by character, as section 3 of RFC 6901 asks. */
  lemma {:induction false} EscapeExactly(a: string, b: string, c: char)
    ensures Escape("") == "" && Escape(a + b) == Escape(a) + Escape(b)
    ensures Escape([c]) == if c == '~' then "~0" else if c == '/' then "~1" else [c]
  {
    hide Escape;
    EscapeEmpty();
    EscapeStep([c]);
    assert [c][1..] == "";
    assert EscapeChar(c) + "" == EscapeChar(c);
    if a == "" {
      assert a + b == b && "" + Escape(b) == Escape(b);
    } else {
      EscapeStep(a);
      EscapeStep(a + b);
      assert (a + b)[1..] == a[1..] + b;
      EscapeExactly(a[1..], b, c);
    }
  }

  // ------------------------------------------------- which issue comes first

  ghost predicate Precedes(entries: seq<Entry>, a: string, b: string) {
    exists i, j :: 0 <= i < j < |entries| && entries[i].key == a && entries[j].key == b
  }

  /** The first way leaves the second one at an earlier property. */
  ghost predicate Earlier(h: Heap, v: Value, a: seq<string>, b: seq<string>)
    decreases |a|
  {
    a != [] && b != [] && v.Ref? && v.id in h &&
    if a[0] == b[0] then Child(h, v, a[0]).Some? && Earlier(h, Child(h, v, a[0]).value, a[1..], b[1..])
    else Precedes(h[v.id].entries, a[0], b[0])
  }

  /** The way exists, and passes no object of `seen` and none twice. */
  ghost predicate Straight(h: Heap, v: Value, keys: seq<string>, seen: set<ObjId>)
    decreases |keys|
  {
    (v.Ref? ==> v.id !in seen) &&
    (keys == [] ||
      (Child(h, v, keys[0]).Some? && Straight(h, Child(h, v, keys[0]).value, keys[1..], seen + {v.id})))
  }

  /** What the search over properties returns comes from the first one with a finding. */
  lemma {:induction false} FindInFirst(h: Heap, entries: seq<Entry>, seen: set<ObjId>, p: nat) returns (q: nat)
    requires p < |entries| && Find(h, entries[p].value, seen).Some?
    ensures q <= p && Find(h, entries[q].value, seen).Some? && FindIn(h, entries, seen).Some?
    ensures forall k :: 0 <= k < q ==> Find(h, entries[k].value, seen).None?
    ensures var f := Find(h, entries[q].value, seen).value;
      FindIn(h, entries, seen).value == Found([entries[q].key] + f.keys, f.number)
    decreases |entries|
  {
    hide Find;
    if Find(h, entries[0].value, seen).Some? {
      q := 0;
    } else {
      var rest := FindInFirst(h, entries[1..], seen, p - 1);
      q := rest + 1;
      assert entries[1..][rest] == entries[q];
      assert forall k :: 0 < k < q ==> entries[1..][k - 1] == entries[k];
    }
  }

  lemma ChildPosition(h: Heap, v: Value, key: string) returns (p: nat)
    requires Child(h, v, key).Some?
    ensures v.Ref? && v.id in h && p < |h[v.id].entries| && h[v.id].entries[p] == Entry(key, Child(h, v, key).value)
  {
    p :| 0 <= p < |h[v.id].entries| && h[v.id].entries[p] == Entry(key, Child(h, v, key).value);
  }

  lemma NotPreceding(entries: seq<Entry>, p: nat, q: nat)
    requires DistinctKeys(entries) && q <= p < |entries|
    ensures !Precedes(entries, entries[p].key, entries[q].key)
  {
  }

  /** The number that is reported is the first bad one in the order of the properties,
      among all ways that pass no object twice. */
  lemma {:induction false} FirstIsReported(h: Heap, v: Value, seen: set<ObjId>, keys: seq<string>)
    requires WellFormed(h) && InHeap(h, v) && Straight(h, v, keys, seen) && BadAt(h, v, keys)
    ensures Find(h, v, seen).Some? && !Earlier(h, v, keys, Find(h, v, seen).value.keys)
    decreases |keys|
  {
    hide FindIn, GoodNumber;
    if keys != [] {
      var o, child := v.id, Child(h, v, keys[0]).value;
      ChildInHeap(h, v, keys[0]);
      FirstIsReported(h, child, seen + {o}, keys[1..]);
      var p := ChildPosition(h, v, keys[0]);
      var entries := h[o].entries;
      var q := FindInFirst(h, entries, seen + {o}, p);
      NotPreceding(entries, p, q);
      var f := Find(h, entries[q].value, seen + {o}).value;
      var found := [entries[q].key] + f.keys;
      assert Find(h, v, seen).value.keys == found;
      assert found[0] == entries[q].key && found[1..] == f.keys;
      if entries[q].key == keys[0] { assert q == p; }
    }
  }

  /** The way to it is such a way. */
  lemma {:induction false} ReportedIsStraight(h: Heap, v: Value, seen: set<ObjId>)
    requires WellFormed(h) && Find(h, v, seen).Some?
    ensures Straight(h, v, Find(h, v, seen).value.keys, seen)
    decreases h.Keys - seen, 0, 0
  {
    if v.Ref? {
      assert v.id in h.Keys - seen && v.id !in h.Keys - (seen + {v.id});
      ReportedInStraight(h, v, 0, seen);
    }
  }

  lemma {:induction false} ReportedInStraight(h: Heap, v: Value, i: nat, seen: set<ObjId>)
    requires WellFormed(h) && v.Ref? && v.id in h && v.id !in seen && i <= |h[v.id].entries|
    requires FindIn(h, h[v.id].entries[i..], seen + {v.id}).Some?
    ensures Straight(h, v, FindIn(h, h[v.id].entries[i..], seen + {v.id}).value.keys, seen)
    decreases h.Keys - (seen + {v.id}), 1, |h[v.id].entries| - i
  {
    hide GoodNumber;
    var entries := h[v.id].entries;
    var found := Find(h, entries[i].value, seen + {v.id});
    assert entries[i..][1..] == entries[i + 1..];
    if found.Some? {
      ReportedIsStraight(h, entries[i].value, seen + {v.id});
      ChildAt(h, v, i);
      var keys := [entries[i].key] + found.value.keys;
      assert keys[0] == entries[i].key && keys[1..] == found.value.keys;
    } else {
      ReportedInStraight(h, v, i + 1, seen);
    }
  }

  // ------------------------------------------------- which error comes first

  /** What a conversion of properties stops at comes from the first one that stops. */
  lemma {:induction false} StopsAtFirst(h: Heap, o: ObjId, i: nat, seen: set<ObjId>) returns (q: nat)
    requires o in h && i <= |h[o].entries| && WellFormed(h) && AsJsonValue.ConvertFrom(h, o, i, seen).Stopped?
    ensures i <= q < |h[o].entries| && AsJsonValue.Convert(h, h[o].entries[q].value, seen).Stopped?
    ensures AsJsonValue.ConvertFrom(h, o, i, seen).steps ==
      [AsJsonValue.StepAt(h[o], q)] + AsJsonValue.Convert(h, h[o].entries[q].value, seen).steps
    ensures AsJsonValue.ConvertFrom(h, o, i, seen).reason == AsJsonValue.Convert(h, h[o].entries[q].value, seen).reason
    ensures forall k :: i <= k < q ==> AsJsonValue.Convert(h, h[o].entries[k].value, seen).Done?
    decreases |h[o].entries| - i
  {
    hide AsJsonValue.Convert;
    if AsJsonValue.Convert(h, h[o].entries[i].value, seen).Stopped? {
      q := i;
    } else {
      q := StopsAtFirst(h, o, i + 1, seen);
    }
  }

  lemma {:induction false} DoneBelow(h: Heap, v: Value, seen: set<ObjId>, keys: seq<string>)
    requires InHeap(h, v) && WellFormed(h) && AsJsonValue.Convert(h, v, seen).Done? && Resolve(h, v, keys).Some?
    ensures AsJsonValue.Plain(h, Resolve(h, v, keys).value) && AsJsonValue.Acyclic(h, Resolve(h, v, keys).value)
  {
    hide AsJsonValue.Convert, AsJsonValue.Plain, AsJsonValue.Acyclic;
    AsJsonValue.ConvertUnfolds(h, v, seen);
    var t := AsJsonValue.Convert(h, v, seen).value;
    AsJsonValue.DoneIsPlain(h, v, t);
    var u := AsJsonValue.UnfoldsBelow(h, v, t, keys);
    AsJsonValue.DoneIsAcyclic(h, Resolve(h, v, keys).value, u);
  }

  /** Nothing that comes earlier in the order of the properties is at fault: it is plain,
      and no way from it leads round. */
  lemma {:induction false} FirstIsThrown(h: Heap, v: Value, seen: set<ObjId>, keys: seq<string>)
    requires InHeap(h, v) && WellFormed(h) && AsJsonValue.Convert(h, v, seen).Stopped? && Resolve(h, v, keys).Some?
    requires Earlier(h, v, keys, AsJsonValue.Names(AsJsonValue.Convert(h, v, seen).steps))
    ensures AsJsonValue.Plain(h, Resolve(h, v, keys).value) && AsJsonValue.Acyclic(h, Resolve(h, v, keys).value)
    decreases |keys|
  {
    hide AsJsonValue.Plain, AsJsonValue.Acyclic, AsJsonValue.ConvertFrom;
    var o, child := v.id, Child(h, v, keys[0]).value;
    var entries := h[o].entries;
    ChildInHeap(h, v, keys[0]);
    var q := StopsAtFirst(h, o, 0, seen + {o});
    var steps := AsJsonValue.Convert(h, entries[q].value, seen + {o}).steps;
    NamesCons(AsJsonValue.StepAt(h[o], q), steps);
    var p := ChildPosition(h, v, keys[0]);
    if keys[0] == entries[q].key {
      assert q == p;
      FirstIsThrown(h, child, seen + {o}, keys[1..]);
    } else {
      if q <= p { NotPreceding(entries, p, q); }
      DoneBelow(h, child, seen + {o}, keys[1..]);
    }
  }

  lemma NamesCons(step: AsJsonValue.Step, steps: seq<AsJsonValue.Step>)
    ensures AsJsonValue.Names([step] + steps) == [step.key] + AsJsonValue.Names(steps)
  {
    assert ([step] + steps)[1..] == steps;
  }

  // ------------------------------------------------------------- the words

  /** A path is written step by step: an index in brackets, a property after a dot. */
  lemma {:induction false} RenderExactly(a: seq<AsJsonValue.Step>, b: seq<AsJsonValue.Step>, key: string)
    ensures AsJsonValue.Render(a + b) == AsJsonValue.Render(a) + AsJsonValue.Render(b)
    ensures AsJsonValue.Render([AsJsonValue.Index(key)]) == "[" + key + "]"
    ensures AsJsonValue.Render([AsJsonValue.Key(key)]) == "." + key
  {
    assert [AsJsonValue.Index(key)][1..] == [] && [AsJsonValue.Key(key)][1..] == [];
    if a == [] {
      assert a + b == b;
    } else {
      assert (a + b)[0] == a[0] && (a + b)[1..] == a[1..] + b;
      RenderExactly(a[1..], b, key);
    }
  }

  /** What is called circular is a plain object or array. */
  lemma {:induction false} CircularIsPlain(h: Heap, v: Value, seen: set<ObjId>)
    requires InHeap(h, v) && WellFormed(h) && AsJsonValue.Convert(h, v, seen).Stopped?
    requires AsJsonValue.Convert(h, v, seen).reason.Circular?
    ensures match Resolve(h, v, AsJsonValue.Names(AsJsonValue.Convert(h, v, seen).steps))
      case Some(Ref(o)) => o in h && !h[o].kind.ExoticObject?
      case _ => false
    decreases h.Keys - seen
  {
    hide AsJsonValue.ConvertFrom;
    if v.id !in seen {
      var entries := h[v.id].entries;
      assert v.id in h.Keys - seen && v.id !in h.Keys - (seen + {v.id});
      var q := StopsAtFirst(h, v.id, 0, seen + {v.id});
      CircularIsPlain(h, entries[q].value, seen + {v.id});
      var steps := AsJsonValue.Convert(h, entries[q].value, seen + {v.id}).steps;
      NamesCons(AsJsonValue.StepAt(h[v.id], q), steps);
      ChildAt(h, v, q);
      var keys := AsJsonValue.Names(AsJsonValue.Convert(h, v, seen).steps);
      assert keys[0] == entries[q].key && keys[1..] == AsJsonValue.Names(steps);
    }
  }

  /** The words of an error, by what stands at the end of its path. */
  lemma WordsExactly(h: Heap, v: Value) returns (w: Value, path: string)
    requires InHeap(h, v) && WellFormed(h) && AsJsonValue.Copy(h, v, {}).Stopped?
    ensures WellFormed(AsJsonValue.Visible(h))
    ensures var c := AsJsonValue.Copy(h, v, {});
      && Resolve(AsJsonValue.Visible(h), v, AsJsonValue.Names(c.steps)) == Some(w) && path == "$" + AsJsonValue.Render(c.steps)
      && AsJsonValue.Say("$", c) == AsJsonValue.TypeError(path +
           if w.Num? && !w.number.Finite? then " must be a finite JSON number"
           else if w.Num? then " must be a safe JSON integer"
           else if w.Opaque? then " is not JSON-compatible"
           else if w.Ref? && w.id in h && h[w.id].kind.ExoticObject? then " must be a plain JSON object or array"
           else " contains a circular reference")
  {
    hide Resolve, AsJsonValue.Convert, AsJsonValue.Names, AsJsonValue.Render;
    AsJsonValue.VisibleWellFormed(h);
    var c := AsJsonValue.Copy(h, v, {});
    AsJsonValue.StoppedExplained(AsJsonValue.Visible(h), v, {});
    w := Resolve(AsJsonValue.Visible(h), v, AsJsonValue.Names(c.steps)).value;
    path := "$" + AsJsonValue.Render(c.steps);
    if c.reason.Circular? { CircularIsPlain(AsJsonValue.Visible(h), v, {}); }
  }

  // --------------------------------------------------------- what is visited

  /** Of an array the walk visits the properties named by an index below its length, and
      those in the order of the indexes. */
  lemma VisitedExactly(entries: seq<Entry>, length: nat, e: Entry)
    requires DistinctKeys(entries)
    ensures e in AsJsonValue.Visited(Obj(ArrayObject(length), entries)) <==>
      e in entries && exists n: nat :: n < length && e.key == Decimal(n)
  {
    hide Decimal;
    var visited := AsJsonValue.Visited(Obj(ArrayObject(length), entries));
    if e in visited {
      var i :| 0 <= i < |visited| && visited[i] == e;
      var k := AsJsonValue.ElementOf(entries, length, i);
      assert e.key == Decimal(k);
    }
    if n: nat :| n < length && e.key == Decimal(n) && e in entries {
      var j :| 0 <= j < |entries| && entries[j] == e;
      LookupAt(entries, j);
      AsJsonValue.ElementAt(entries, n, length);
    }
  }

  lemma {:induction false} VisitedInOrder(entries: seq<Entry>, length: nat, i: nat, j: nat) returns (m: nat, n: nat)
    requires i < j < |AsJsonValue.ElementsBelow(entries, length)|
    ensures m < n < length
    ensures AsJsonValue.ElementsBelow(entries, length)[i].key == Decimal(m)
    ensures AsJsonValue.ElementsBelow(entries, length)[j].key == Decimal(n)
  {
    hide Decimal;
    if j < |AsJsonValue.ElementsBelow(entries, length - 1)| {
      m, n := VisitedInOrder(entries, length - 1, i, j);
    } else {
      m := AsJsonValue.ElementOf(entries, length - 1, i);
      n := length - 1;
    }
  }
}
