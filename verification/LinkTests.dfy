/** The linker that makes every `tested_by` edge run from production to test:
    what it computes, and the properties of that. */
module LinkTests {
  import opened TestPaths
  import opened Wrappers

  /** Fields no step of the merge reads are one opaque `rest`. A missing field
      reads as its default; `weight` is the number that `_num` makes of it. */
  datatype Edge = Edge(source: string, target: string, kind: string, direction: string,
                       weight: real, description: string, rest: int)

  datatype Tags = Malformed | List(tags: seq<string>)

  /** `id` and `filePath` are "" when the field is missing. */
  datatype Node = Node(id: string, kind: Option<string>, name: Option<string>, filePath: string, tags: Tags, rest: int)

  /** The nodes of a dictionary keyed by id, in insertion order. */
  predicate DistinctIds(nodes: seq<Node>) {
    forall i, j :: 0 <= i < j < |nodes| ==> nodes[i].id != nodes[j].id
  }

  // -------------------------------------------------------- classification

  predicate IsFile(n: Node) { "file:" <= n.id }

  function FilePath(n: Node): string
    requires IsFile(n)
  {
    if n.filePath != "" then n.filePath else n.id[5..]
  }

  predicate IsTest(n: Node) { IsFile(n) && IsTestPath(FilePath(n)) }

  datatype Class = Test | Prod

  /** Node ids of files, each with its class. */
  type Classes = map<string, Class>

  function Classify(nodes: seq<Node>): Classes {
    if nodes == [] then map[]
    else
      var n := nodes[|nodes| - 1];
      var before := Classify(nodes[..|nodes| - 1]);
      if IsFile(n) then before[n.id := if IsTest(n) then Test else Prod] else before
  }

  /** Paths of file nodes, each with the id of the last node that has it. */
  function PathIndex(nodes: seq<Node>): map<string, string> {
    if nodes == [] then map[]
    else
      var n := nodes[|nodes| - 1];
      var before := PathIndex(nodes[..|nodes| - 1]);
      if IsFile(n) then before[FilePath(n) := n.id] else before
  }

  datatype TestFile = TestFile(path: string, id: string)

  function TestFiles(nodes: seq<Node>): seq<TestFile> {
    if nodes == [] then []
    else
      var n := nodes[|nodes| - 1];
      TestFiles(nodes[..|nodes| - 1]) + if IsTest(n) then [TestFile(FilePath(n), n.id)] else []
  }

  // ------------------------------------------------- pass 1, as a function

  datatype Pair = Pair(prod: string, test: string)

  predicate TestedBy(e: Edge) { e.kind == "tested_by" }

  function ClassOf(cls: Classes, id: string): Option<Class> {
    if id in cls then Some(cls[id]) else None
  }

  /** A `tested_by` edge the wrong way round. */
  predicate Inverted(cls: Classes, e: Edge) {
    ClassOf(cls, e.source) == Some(Test) && ClassOf(cls, e.target) == Some(Prod)
  }

  predicate Upright(cls: Classes, e: Edge) {
    ClassOf(cls, e.source) == Some(Prod) && ClassOf(cls, e.target) == Some(Test)
  }

  /** The production-test pair a usable `tested_by` edge speaks of, in either direction. */
  function PairOf(cls: Classes, e: Edge): Option<Pair> {
    if !TestedBy(e) then None
    else if Upright(cls, e) then Some(Pair(e.source, e.target))
    else if Inverted(cls, e) then Some(Pair(e.target, e.source))
    else None
  }

  function Swap(e: Edge): Edge {
    e.(source := e.target, target := e.source, direction := "forward",
       description := if e.description == "" then "Direction corrected (was test → production)"
                      else e.description + " [direction corrected]")
  }

  function Canonical(cls: Classes, e: Edge): Edge {
    if Inverted(cls, e) then Swap(e) else e
  }

  /** Among the first `n` edges, the one that wins the pair: the first of maximal weight. */
  function Best(cls: Classes, es: seq<Edge>, n: nat, p: Pair): (b: Option<nat>)
    requires n <= |es|
    ensures b.Some? ==> b.value < n && PairOf(cls, es[b.value]) == Some(p)
  {
    if n == 0 then None
    else if PairOf(cls, es[n - 1]) != Some(p) then Best(cls, es, n - 1, p)
    else match Best(cls, es, n - 1, p)
      case None => Some(n - 1)
      case Some(b) => if es[n - 1].weight > es[b].weight then Some(n - 1) else Some(b)
  }

  /** Edge `i` keeps a place: it is no `tested_by` edge, or the first usable one of its pair. */
  predicate HasSlot(cls: Classes, es: seq<Edge>, i: nat)
    requires i < |es|
  {
    !TestedBy(es[i]) || (PairOf(cls, es[i]).Some? && Best(cls, es, i, PairOf(cls, es[i]).value).None?)
  }

  function Slots(cls: Classes, es: seq<Edge>, n: nat): (slots: seq<nat>)
    requires n <= |es|
    ensures forall k :: 0 <= k < |slots| ==> slots[k] < n && HasSlot(cls, es, slots[k])
    ensures |slots| <= n
  {
    if n == 0 then []
    else if HasSlot(cls, es, n - 1) then Slots(cls, es, n - 1) + [n - 1]
    else Slots(cls, es, n - 1)
  }

  /** What stands at the place edge `i` keeps, once the first `n` edges are read. */
  function Content(cls: Classes, es: seq<Edge>, n: nat, i: nat): Edge
    requires i < n <= |es|
  {
    if !TestedBy(es[i]) || PairOf(cls, es[i]).None? then es[i]
    else match Best(cls, es, n, PairOf(cls, es[i]).value)
      case Some(b) => Canonical(cls, es[b])
      case None => es[i]
  }

  /** The compacted prefix after reading the first `n` edges. */
  function Kept(cls: Classes, es: seq<Edge>, n: nat): (out: seq<Edge>)
    requires n <= |es|
    ensures |out| == |Slots(cls, es, n)|
  {
    var slots := Slots(cls, es, n);
    seq(|slots|, k requires 0 <= k < |slots| => Content(cls, es, n, slots[k]))
  }

  /** The pairs met so far, and those whose winner had to be turned round. */
  ghost function Covered(cls: Classes, es: seq<Edge>, n: nat): set<Pair>
    requires n <= |es|
  {
    set k | 0 <= k < n && PairOf(cls, es[k]).Some? :: PairOf(cls, es[k]).value
  }

  ghost predicate WonBySwap(cls: Classes, es: seq<Edge>, n: nat, p: Pair)
    requires n <= |es|
  {
    match Best(cls, es, n, p) case Some(b) => Inverted(cls, es[b]) case None => false
  }

  // --------------------------------------------------- facts about the winner

  lemma {:induction false} BestExists(cls: Classes, es: seq<Edge>, n: nat, p: Pair)
    requires n <= |es|
    ensures Best(cls, es, n, p).Some? <==> exists k :: 0 <= k < n && PairOf(cls, es[k]) == Some(p)
    ensures Best(cls, es, n, p).Some? <==> p in Covered(cls, es, n)
  {
    if n > 0 {
      BestExists(cls, es, n - 1, p);
    }
  }

  /** The winner has the maximal weight of its pair, and is the first that has it. */
  lemma {:induction false} BestIsFirstMaximum(cls: Classes, es: seq<Edge>, n: nat, p: Pair)
    requires n <= |es| && Best(cls, es, n, p).Some?
    ensures var b := Best(cls, es, n, p).value;
      forall k :: 0 <= k < n && PairOf(cls, es[k]) == Some(p) ==>
        es[k].weight <= es[b].weight && (k < b ==> es[k].weight < es[b].weight)
  {
    if PairOf(cls, es[n - 1]) != Some(p) {
      BestIsFirstMaximum(cls, es, n - 1, p);
    } else if Best(cls, es, n - 1, p).Some? {
      BestIsFirstMaximum(cls, es, n - 1, p);
    } else {
      BestExists(cls, es, n - 1, p);
    }
  }

  /** What stands at each place of the compacted list: an edge of another kind as it
      was; or, at the place of the first usable edge of a pair, the first edge of
      maximal weight among that pair's edges in either direction, made canonical. */
  lemma SurvivorIsWinner(cls: Classes, es: seq<Edge>, k: nat) returns (b: nat)
    requires k < |Kept(cls, es, |es|)|
    ensures b < |es|
    ensures var i, e := Slots(cls, es, |es|)[k], Kept(cls, es, |es|)[k];
      if !TestedBy(es[i]) then e == es[i]
      else
        var p := PairOf(cls, es[i]);
        && p.Some? && e == Canonical(cls, es[b]) && Upright(cls, e)
        && PairOf(cls, es[b]) == p
        && (forall j :: 0 <= j < i ==> PairOf(cls, es[j]) != p)
        && (forall j :: 0 <= j < |es| && PairOf(cls, es[j]) == p ==>
              es[j].weight <= es[b].weight && (j < b ==> es[j].weight < es[b].weight))
  {
    var i := Slots(cls, es, |es|)[k];
    ContentOf(cls, es, |es|, i);
    b := i;
    if TestedBy(es[i]) {
      var p := PairOf(cls, es[i]).value;
      BestExists(cls, es, i, p);
      b := Best(cls, es, |es|, p).value;
      BestIsFirstMaximum(cls, es, |es|, p);
    }
  }

  lemma CanonicalPair(cls: Classes, e: Edge, p: Pair)
    requires PairOf(cls, e) == Some(p)
    ensures var c := Canonical(cls, e);
      TestedBy(c) && c.source == p.prod && c.target == p.test && Upright(cls, c) && c.weight == e.weight
  {
  }

  /** A list in which every `tested_by` edge runs from production to test, one per pair. */
  ghost predicate Clean(cls: Classes, es: seq<Edge>) {
    && (forall i :: 0 <= i < |es| && TestedBy(es[i]) ==> Upright(cls, es[i]))
    && (forall i, j :: 0 <= i < j < |es| && TestedBy(es[i]) && TestedBy(es[j]) ==>
          PairOf(cls, es[i]) != PairOf(cls, es[j]))
  }

  lemma {:induction false} SlotsIncrease(cls: Classes, es: seq<Edge>, n: nat)
    requires n <= |es|
    ensures forall j, k :: 0 <= j < k < |Slots(cls, es, n)| ==> Slots(cls, es, n)[j] < Slots(cls, es, n)[k]
  {
    if n > 0 {
      SlotsIncrease(cls, es, n - 1);
    }
  }

  lemma {:induction false} SlotsComplete(cls: Classes, es: seq<Edge>, n: nat, i: nat)
    requires i < n <= |es| && HasSlot(cls, es, i)
    ensures i in Slots(cls, es, n)
  {
    if i < n - 1 {
      SlotsComplete(cls, es, n - 1, i);
    }
  }

  lemma {:induction false} BestMonotone(cls: Classes, es: seq<Edge>, m: nat, n: nat, p: Pair)
    requires m <= n <= |es| && Best(cls, es, m, p).Some?
    ensures Best(cls, es, n, p).Some?
  {
    if m < n {
      BestMonotone(cls, es, m, n - 1, p);
    }
  }

  /** What stands at a slot: the edge itself, or its pair's winner, canonical. */
  lemma ContentOf(cls: Classes, es: seq<Edge>, n: nat, i: nat)
    requires i < n <= |es| && HasSlot(cls, es, i)
    ensures TestedBy(Content(cls, es, n, i)) <==> TestedBy(es[i])
    ensures !TestedBy(es[i]) ==> Content(cls, es, n, i) == es[i]
    ensures TestedBy(es[i]) ==>
      var p := PairOf(cls, es[i]).value;
      && Best(cls, es, n, p).Some?
      && Content(cls, es, n, i) == Canonical(cls, es[Best(cls, es, n, p).value])
      && Upright(cls, Content(cls, es, n, i))
      && PairOf(cls, Content(cls, es, n, i)) == Some(p)
  {
    if TestedBy(es[i]) {
      var p := PairOf(cls, es[i]).value;
      assert Best(cls, es, i + 1, p).Some?;
      BestMonotone(cls, es, i + 1, n, p);
      CanonicalPair(cls, es[Best(cls, es, n, p).value], p);
    }
  }

  /** After pass 1 every surviving `tested_by` edge is upright, and pairs do not repeat. */
  lemma KeptIsClean(cls: Classes, es: seq<Edge>, n: nat)
    requires n <= |es|
    ensures Clean(cls, Kept(cls, es, n))
  {
    var slots, out := Slots(cls, es, n), Kept(cls, es, n);
    SlotsIncrease(cls, es, n);
    forall k | 0 <= k < |out| ensures TestedBy(out[k]) ==> Upright(cls, out[k]) {
      ContentOf(cls, es, n, slots[k]);
    }
    forall j, k | 0 <= j < k < |out| && TestedBy(out[j]) && TestedBy(out[k])
      ensures PairOf(cls, out[j]) != PairOf(cls, out[k])
    {
      ContentOf(cls, es, n, slots[j]);
      ContentOf(cls, es, n, slots[k]);
      BestExists(cls, es, slots[k], PairOf(cls, es[slots[k]]).value);
    }
  }

  /** Every pair that some usable edge speaks of survives, and no other. */
  lemma KeptPairs(cls: Classes, es: seq<Edge>, n: nat, p: Pair)
    requires n <= |es|
    ensures p in Covered(cls, es, n) <==>
      exists k :: 0 <= k < |Kept(cls, es, n)| && PairOf(cls, Kept(cls, es, n)[k]) == Some(p)
  {
    var slots, out := Slots(cls, es, n), Kept(cls, es, n);
    if p in Covered(cls, es, n) {
      var i := FirstOf(cls, es, n, p);
      SlotsComplete(cls, es, n, i);
      var k :| 0 <= k < |slots| && slots[k] == i;
      ContentOf(cls, es, n, i);
      assert PairOf(cls, out[k]) == Some(p);
    }
    if k :| 0 <= k < |out| && PairOf(cls, out[k]) == Some(p) {
      ContentOf(cls, es, n, slots[k]);
    }
  }

  lemma {:induction false} FirstOf(cls: Classes, es: seq<Edge>, n: nat, p: Pair) returns (i: nat)
    requires n <= |es| && p in Covered(cls, es, n)
    ensures i < n && PairOf(cls, es[i]) == Some(p) && HasSlot(cls, es, i)
  {
    if p in Covered(cls, es, n - 1) {
      i := FirstOf(cls, es, n - 1, p);
    } else {
      i := n - 1;
      BestExists(cls, es, n - 1, p);
    }
  }

  function Others(es: seq<Edge>): seq<Edge> {
    if es == [] then []
    else Others(es[..|es| - 1]) + if TestedBy(es[|es| - 1]) then [] else [es[|es| - 1]]
  }

  /** Edges of other kinds all survive, unchanged and in their order. */
  lemma {:induction false} OthersSurvive(cls: Classes, es: seq<Edge>, n: nat)
    requires n <= |es|
    ensures Others(Kept(cls, es, n)) == Others(es[..n])
  {
    OthersOfSlots(cls, es, n, n);
    assert Kept(cls, es, n) == Filled(cls, es, n, n);
  }

  /** The slots of the first `m` edges, filled with the winners among the first `n`. */
  function Filled(cls: Classes, es: seq<Edge>, n: nat, m: nat): seq<Edge>
    requires m <= n <= |es|
  {
    var slots := Slots(cls, es, m);
    seq(|slots|, k requires 0 <= k < |slots| => Content(cls, es, n, slots[k]))
  }

  lemma {:induction false} OthersOfSlots(cls: Classes, es: seq<Edge>, n: nat, m: nat)
    requires m <= n <= |es|
    ensures Others(Filled(cls, es, n, m)) == Others(es[..m])
  {
    hide Content, Best, PairOf, Others;
    if m == 0 {
      assert Filled(cls, es, n, m) == es[..m];
    } else {
      OthersOfSlots(cls, es, n, m - 1);
      OthersSnoc(es[..m - 1], es[m - 1]);
      assert es[..m] == es[..m - 1] + [es[m - 1]];
      FilledStep(cls, es, n, m);
      if HasSlot(cls, es, m - 1) {
        ContentOf(cls, es, n, m - 1);
        OthersSnoc(Filled(cls, es, n, m - 1), Content(cls, es, n, m - 1));
      }
    }
  }

  lemma OthersSnoc(es: seq<Edge>, e: Edge)
    ensures Others(es + [e]) == Others(es) + if TestedBy(e) then [] else [e]
  {
    assert (es + [e])[..|es|] == es;
  }

  lemma FilledStep(cls: Classes, es: seq<Edge>, n: nat, m: nat)
    requires 0 < m <= n <= |es|
    ensures Filled(cls, es, n, m) == Filled(cls, es, n, m - 1) +
      if HasSlot(cls, es, m - 1) then [Content(cls, es, n, m - 1)] else []
  {
    hide Content, HasSlot;
  }

  /** On a clean list pass 1 changes nothing. */
  lemma {:induction false} CleanIsFixed(cls: Classes, es: seq<Edge>, n: nat)
    requires n <= |es| && Clean(cls, es)
    ensures Kept(cls, es, n) == es[..n]
    ensures forall p :: !WonBySwap(cls, es, n, p)
  {
    CleanSlots(cls, es, n);
    forall k | 0 <= k < n ensures Content(cls, es, n, k) == es[k] {
      ContentOf(cls, es, n, k);
      if TestedBy(es[k]) { BestUnique(cls, es, n, k); }
    }
  }

  lemma {:induction false} CleanSlots(cls: Classes, es: seq<Edge>, n: nat)
    requires n <= |es| && Clean(cls, es)
    ensures |Slots(cls, es, n)| == n
    ensures forall k :: 0 <= k < n ==> Slots(cls, es, n)[k] == k
    ensures forall k :: 0 <= k < n ==> HasSlot(cls, es, k)
  {
    if n > 0 {
      CleanSlots(cls, es, n - 1);
      if TestedBy(es[n - 1]) {
        BestExists(cls, es, n - 1, PairOf(cls, es[n - 1]).value);
      }
    }
  }

  lemma BestUnique(cls: Classes, es: seq<Edge>, n: nat, i: nat)
    requires i < n <= |es| && Clean(cls, es) && TestedBy(es[i])
    ensures Best(cls, es, n, PairOf(cls, es[i]).value) == Some(i)
  {
    var p := PairOf(cls, es[i]).value;
    BestExists(cls, es, n, p);
    var b := Best(cls, es, n, p).value;
    assert PairOf(cls, es[b]) == PairOf(cls, es[i]);
  }
}
