/** One step of pass 1 at a time: how the compacted prefix and its side indexes
    change when one more edge is read. */
module Compaction {
  import opened TestPaths
  import opened LinkTests
  import opened Linking
  import opened Wrappers

  /** The state of the compaction loop after reading the first `n` edges. */
  datatype State = State(prefix: seq<Edge>, covered: set<Pair>, slot: map<Pair, nat>, swapped: set<Pair>)

  ghost predicate Holds(cls: Classes, es: seq<Edge>, n: nat, s: State)
    requires n <= |es|
  {
    && s.prefix == Kept(cls, es, n)
    && s.covered == Covered(cls, es, n) == s.slot.Keys
    && (forall p :: p in s.slot ==> SlotOf(cls, es, n, p, s.slot[p]))
    && s.swapped == SwappedPairs(cls, es, n)
  }

  /** Position `k` of the compacted prefix holds the edge of pair `p`. */
  ghost predicate SlotOf(cls: Classes, es: seq<Edge>, n: nat, p: Pair, k: nat)
    requires n <= |es|
  {
    k < |Slots(cls, es, n)| && PairOf(cls, es[Slots(cls, es, n)[k]]) == Some(p)
  }

  lemma Start(cls: Classes, es: seq<Edge>)
    ensures Holds(cls, es, 0, State([], {}, map[], {}))
  {
    assert Covered(cls, es, 0) == {};
  }

  lemma CoveredStep(cls: Classes, es: seq<Edge>, n: nat)
    requires n < |es|
    ensures Covered(cls, es, n + 1) ==
      Covered(cls, es, n) + match PairOf(cls, es[n]) case Some(p) => {p} case None => {}
  {
    var step := match PairOf(cls, es[n]) case Some(p) => {p} case None => {};
    forall q ensures q in Covered(cls, es, n + 1) <==> q in Covered(cls, es, n) + step {
    }
  }

  /** Reading an edge changes the winner of its own pair at most. */
  lemma WinnerStep(cls: Classes, es: seq<Edge>, n: nat, q: Pair)
    requires n < |es| && PairOf(cls, es[n]) != Some(q)
    ensures Best(cls, es, n + 1, q) == Best(cls, es, n, q)
    ensures WonBySwap(cls, es, n + 1, q) == WonBySwap(cls, es, n, q)
  {
  }

  lemma SwappedStep(cls: Classes, es: seq<Edge>, n: nat)
    requires n < |es|
    ensures PairOf(cls, es[n]).None? ==> SwappedPairs(cls, es, n + 1) == SwappedPairs(cls, es, n)
    ensures PairOf(cls, es[n]).Some? ==>
      var p := PairOf(cls, es[n]).value;
      SwappedPairs(cls, es, n + 1) ==
        if WonBySwap(cls, es, n + 1, p) then SwappedPairs(cls, es, n) + {p} else SwappedPairs(cls, es, n) - {p}
  {
    CoveredStep(cls, es, n);
    forall q | PairOf(cls, es[n]) != Some(q)
      ensures q in SwappedPairs(cls, es, n + 1) <==> q in SwappedPairs(cls, es, n)
    {
      WinnerStep(cls, es, n, q);
    }
    if PairOf(cls, es[n]).Some? {
      var p := PairOf(cls, es[n]).value;
      assert p in Covered(cls, es, n + 1);
    }
  }

  lemma SlotStep(cls: Classes, es: seq<Edge>, n: nat, p: Pair, k: nat)
    requires n < |es| && SlotOf(cls, es, n, p, k)
    ensures SlotOf(cls, es, n + 1, p, k)
  {
  }

  /** No two slots hold edges of the same pair. */
  lemma SlotUnique(cls: Classes, es: seq<Edge>, n: nat, p: Pair, j: nat, k: nat)
    requires n <= |es| && SlotOf(cls, es, n, p, j) && SlotOf(cls, es, n, p, k)
    ensures j == k
  {
    var slots := Slots(cls, es, n);
    SlotsIncrease(cls, es, n);
    BestExists(cls, es, slots[j], p);
    BestExists(cls, es, slots[k], p);
  }

  /** A slot whose pair is not the one just read keeps its content. */
  lemma ContentStep(cls: Classes, es: seq<Edge>, n: nat, i: nat)
    requires i < n < |es| && HasSlot(cls, es, i)
    requires TestedBy(es[i]) ==> PairOf(cls, es[n]) != PairOf(cls, es[i])
    ensures Content(cls, es, n + 1, i) == Content(cls, es, n, i)
  {
    if TestedBy(es[i]) { WinnerStep(cls, es, n, PairOf(cls, es[i]).value); }
  }

  // ----------------------------------------------------------- the five cases

  /** An edge of another kind is appended. */
  lemma OtherKind(cls: Classes, es: seq<Edge>, n: nat, s: State)
    requires n < |es| && Holds(cls, es, n, s) && !TestedBy(es[n])
    ensures Holds(cls, es, n + 1, s.(prefix := s.prefix + [es[n]]))
  {
    CoveredStep(cls, es, n);
    SwappedStep(cls, es, n);
    forall p | p in s.slot ensures SlotOf(cls, es, n + 1, p, s.slot[p]) { SlotStep(cls, es, n, p, s.slot[p]); }
    KeptAppend(cls, es, n);
  }

  lemma KeptAppend(cls: Classes, es: seq<Edge>, n: nat)
    requires n < |es| && HasSlot(cls, es, n)
    ensures Kept(cls, es, n + 1) == Kept(cls, es, n) + [Canonical(cls, es[n])] || !TestedBy(es[n])
    ensures !TestedBy(es[n]) ==> Kept(cls, es, n + 1) == Kept(cls, es, n) + [es[n]]
  {
    var slots := Slots(cls, es, n);
    forall k | 0 <= k < |slots|
      ensures Content(cls, es, n + 1, slots[k]) == Content(cls, es, n, slots[k])
    {
      if TestedBy(es[slots[k]]) && PairOf(cls, es[n]) == PairOf(cls, es[slots[k]]) {
        BestExists(cls, es, n, PairOf(cls, es[n]).value);
      }
      ContentStep(cls, es, n, slots[k]);
    }
    if TestedBy(es[n]) {
      assert Best(cls, es, n + 1, PairOf(cls, es[n]).value) == Some(n);
    }
  }

  /** The same number of slots: only contents may have changed. */
  lemma KeptSame(cls: Classes, es: seq<Edge>, n: nat)
    requires n < |es| && !HasSlot(cls, es, n)
    ensures Slots(cls, es, n + 1) == Slots(cls, es, n)
    ensures forall k :: 0 <= k < |Kept(cls, es, n)| && PairOf(cls, es[Slots(cls, es, n)[k]]) != PairOf(cls, es[n]) ==>
      Kept(cls, es, n + 1)[k] == Kept(cls, es, n)[k]
  {
    var slots := Slots(cls, es, n);
    forall k | 0 <= k < |slots| && PairOf(cls, es[slots[k]]) != PairOf(cls, es[n])
      ensures Content(cls, es, n + 1, slots[k]) == Content(cls, es, n, slots[k])
    {
      ContentStep(cls, es, n, slots[k]);
    }
  }

  /** A `tested_by` edge that pairs no production file with a test is dropped. */
  lemma Unusable(cls: Classes, es: seq<Edge>, n: nat, s: State)
    requires n < |es| && Holds(cls, es, n, s) && TestedBy(es[n]) && PairOf(cls, es[n]).None?
    ensures Holds(cls, es, n + 1, s)
  {
    CoveredStep(cls, es, n);
    SwappedStep(cls, es, n);
    forall p | p in s.slot ensures SlotOf(cls, es, n + 1, p, s.slot[p]) { SlotStep(cls, es, n, p, s.slot[p]); }
    var slots := Slots(cls, es, n);
    forall k | 0 <= k < |slots| ensures Content(cls, es, n + 1, slots[k]) == Content(cls, es, n, slots[k]) {
      ContentStep(cls, es, n, slots[k]);
    }
  }

  /** The first usable edge of a pair takes a new slot. */
  lemma NewPair(cls: Classes, es: seq<Edge>, n: nat, s: State, p: Pair)
    requires n < |es| && Holds(cls, es, n, s) && PairOf(cls, es[n]) == Some(p) && p !in s.covered
    ensures Holds(cls, es, n + 1, State(s.prefix + [Canonical(cls, es[n])], s.covered + {p}, s.slot[p := |s.prefix|],
              if Inverted(cls, es[n]) then s.swapped + {p} else s.swapped))
  {
    BestExists(cls, es, n, p);
    assert Best(cls, es, n + 1, p) == Some(n);
    CoveredStep(cls, es, n);
    SwappedStep(cls, es, n);
    KeptAppend(cls, es, n);
    forall q | q in s.slot ensures SlotOf(cls, es, n + 1, q, s.slot[q]) { SlotStep(cls, es, n, q, s.slot[q]); }
    assert SlotOf(cls, es, n + 1, p, |s.prefix|);
  }

  /** The weight found in a pair's slot is the winner's. */
  lemma SlotWeight(cls: Classes, es: seq<Edge>, n: nat, s: State, p: Pair)
    requires n <= |es| && Holds(cls, es, n, s) && p in s.covered
    ensures s.slot[p] < |s.prefix| && Best(cls, es, n, p).Some?
    ensures s.prefix[s.slot[p]] == Canonical(cls, es[Best(cls, es, n, p).value])
    ensures s.prefix[s.slot[p]].weight == es[Best(cls, es, n, p).value].weight
  {
    assert SlotOf(cls, es, n, p, s.slot[p]);
    ContentOf(cls, es, n, Slots(cls, es, n)[s.slot[p]]);
  }

  /** A later edge of a pair that is not heavier is dropped. */
  lemma NotHeavier(cls: Classes, es: seq<Edge>, n: nat, s: State, p: Pair)
    requires n < |es| && Holds(cls, es, n, s) && PairOf(cls, es[n]) == Some(p) && p in s.covered
    requires es[n].weight <= s.prefix[assert SlotOf(cls, es, n, p, s.slot[p]); s.slot[p]].weight
    ensures Holds(cls, es, n + 1, s)
  {
    SlotWeight(cls, es, n, s, p);
    assert Best(cls, es, n + 1, p) == Best(cls, es, n, p);
    Repeated(cls, es, n, s, p);
    var slots := Slots(cls, es, n);
    forall k | 0 <= k < |slots| ensures Kept(cls, es, n + 1)[k] == Kept(cls, es, n)[k] {
      if PairOf(cls, es[slots[k]]) == Some(p) {
        assert Content(cls, es, n + 1, slots[k]) == Content(cls, es, n, slots[k]);
      }
    }
    assert Kept(cls, es, n + 1) == Kept(cls, es, n);
    assert SwappedPairs(cls, es, n + 1) == s.swapped;
  }

  /** A heavier edge of a pair replaces the slot's content in place. */
  lemma Heavier(cls: Classes, es: seq<Edge>, n: nat, s: State, p: Pair)
    requires n < |es| && Holds(cls, es, n, s) && PairOf(cls, es[n]) == Some(p) && p in s.covered
    requires es[n].weight > s.prefix[assert SlotOf(cls, es, n, p, s.slot[p]); s.slot[p]].weight
    ensures Holds(cls, es, n + 1, s.(prefix := s.prefix[s.slot[p] := Canonical(cls, es[n])],
              swapped := if Inverted(cls, es[n]) then s.swapped + {p} else s.swapped - {p}))
  {
    SlotWeight(cls, es, n, s, p);
    assert Best(cls, es, n + 1, p) == Some(n);
    Repeated(cls, es, n, s, p);
    var slots, at := Slots(cls, es, n), s.slot[p];
    var next, updated := Kept(cls, es, n + 1), s.prefix[at := Canonical(cls, es[n])];
    forall k | 0 <= k < |slots|
      ensures next[k] == updated[k]
    {
      if PairOf(cls, es[slots[k]]) == Some(p) {
        SlotUnique(cls, es, n, p, k, at);
        assert Content(cls, es, n + 1, slots[k]) == Canonical(cls, es[n]);
      }
    }
    assert next == updated;
  }

  /** What both cases of a repeated pair share. */
  lemma Repeated(cls: Classes, es: seq<Edge>, n: nat, s: State, p: Pair)
    requires n < |es| && Holds(cls, es, n, s) && PairOf(cls, es[n]) == Some(p) && p in s.covered
    ensures !HasSlot(cls, es, n) && Slots(cls, es, n + 1) == Slots(cls, es, n)
    ensures Covered(cls, es, n + 1) == s.covered
    ensures forall q :: q in s.slot ==> SlotOf(cls, es, n + 1, q, s.slot[q])
    ensures SwappedPairs(cls, es, n + 1) == if WonBySwap(cls, es, n + 1, p) then s.swapped + {p} else s.swapped - {p}
    ensures (p in s.swapped) == WonBySwap(cls, es, n, p)
    ensures forall k :: 0 <= k < |Kept(cls, es, n)| && PairOf(cls, es[Slots(cls, es, n)[k]]) != Some(p) ==>
      Kept(cls, es, n + 1)[k] == Kept(cls, es, n)[k]
  {
    BestExists(cls, es, n, p);
    CoveredStep(cls, es, n);
    SwappedStep(cls, es, n);
    KeptSame(cls, es, n);
    forall q | q in s.slot ensures SlotOf(cls, es, n + 1, q, s.slot[q]) { SlotStep(cls, es, n, q, s.slot[q]); }
  }
}
