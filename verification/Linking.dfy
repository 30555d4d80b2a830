/** The whole linker as one function of its input, and its global properties. */
module Linking {
  import opened TestPaths
  import opened LinkTests
  import opened Wrappers

  // --------------------------------------------------------------- pass 2

  predicate NamesProduction(index: map<string, string>, path: string) {
    path in index && !IsTestPath(path)
  }

  /** The first candidate path that names a known production file. */
  function Choice(index: map<string, string>, candidates: seq<string>): Option<string> {
    if candidates == [] then None
    else if NamesProduction(index, candidates[0]) then Some(index[candidates[0]])
    else Choice(index, candidates[1..])
  }

  function Supplement(prod: string, test: string): Edge {
    Edge(prod, test, "tested_by", "forward", 0.5, "Path-based pairing (deterministic)", 0)
  }

  /** The edge added for one test file, if it is unpaired and has a production file. */
  function SupplementFor(index: map<string, string>, t: TestFile, paired: set<string>): seq<Edge> {
    if t.id in paired then []
    else match Choice(index, Candidates(t.path))
      case Some(prod) => [Supplement(prod, t.id)]
      case None => []
  }

  function Supplements(index: map<string, string>, tests: seq<TestFile>, paired: set<string>): seq<Edge> {
    if tests == [] then []
    else Supplements(index, tests[..|tests| - 1], paired) + SupplementFor(index, tests[|tests| - 1], paired)
  }

  // -------------------------------------------------------------- tagging

  function TagNode(n: Node): Node {
    match n.tags
    case Malformed => n.(tags := List(["tested"]))
    case List(tags) => if "tested" in tags then n else n.(tags := List(tags + ["tested"]))
  }

  function TagAll(nodes: seq<Node>, sources: set<string>): (tagged: seq<Node>)
    ensures |tagged| == |nodes|
    ensures forall i :: 0 <= i < |nodes| ==> tagged[i] == if nodes[i].id in sources then TagNode(nodes[i]) else nodes[i]
  {
    seq(|nodes|, i requires 0 <= i < |nodes| => if nodes[i].id in sources then TagNode(nodes[i]) else nodes[i])
  }

  ghost function NewlyTagged(nodes: seq<Node>, sources: set<string>): set<string> {
    set i | 0 <= i < |nodes| && nodes[i].id in sources && TagNode(nodes[i]) != nodes[i] :: nodes[i].id
  }

  // ------------------------------------------------------------ the whole

  datatype Linked = Linked(nodes: seq<Node>, edges: seq<Edge>, added: nat, dropped: nat, tagged: nat, swapped: nat)

  ghost function Tests(pairs: set<Pair>): set<string> { set p | p in pairs :: p.test }

  ghost function Prods(pairs: set<Pair>): set<string> { set p | p in pairs :: p.prod }

  ghost function Pairs(es: seq<Edge>): set<Pair> {
    set i | 0 <= i < |es| && TestedBy(es[i]) :: Pair(es[i].source, es[i].target)
  }

  ghost function SwappedPairs(cls: Classes, es: seq<Edge>, n: nat): set<Pair>
    requires n <= |es|
  {
    set p | p in Covered(cls, es, n) && WonBySwap(cls, es, n, p)
  }

  ghost function LinkedEdges(nodes: seq<Node>, edges: seq<Edge>): seq<Edge> {
    var cls := Classify(nodes);
    Kept(cls, edges, |edges|) +
    Supplements(PathIndex(nodes), TestFiles(nodes), Tests(Covered(cls, edges, |edges|)))
  }

  ghost function Link(nodes: seq<Node>, edges: seq<Edge>): Linked {
    var cls := Classify(nodes);
    var kept := Kept(cls, edges, |edges|);
    var all := LinkedEdges(nodes, edges);
    var sources := Prods(Pairs(all));
    Linked(TagAll(nodes, sources), all, |all| - |kept|, |edges| - |kept|,
           |NewlyTagged(nodes, sources)|, |SwappedPairs(cls, edges, |edges|)|)
  }

  // ------------------------------------------------- what the indexes say

  lemma {:induction false} ClassifyAt(nodes: seq<Node>, i: nat)
    requires DistinctIds(nodes) && i < |nodes| && IsFile(nodes[i])
    ensures ClassOf(Classify(nodes), nodes[i].id) == Some(if IsTest(nodes[i]) then Test else Prod)
  {
    if i < |nodes| - 1 {
      assert nodes[i].id != nodes[|nodes| - 1].id;
      ClassifyAt(nodes[..|nodes| - 1], i);
    }
  }

  lemma {:induction false} PathIndexAt(nodes: seq<Node>, path: string) returns (i: nat)
    requires path in PathIndex(nodes)
    ensures i < |nodes| && IsFile(nodes[i]) && FilePath(nodes[i]) == path && nodes[i].id == PathIndex(nodes)[path]
  {
    var n := nodes[|nodes| - 1];
    if IsFile(n) && FilePath(n) == path {
      i := |nodes| - 1;
    } else {
      i := PathIndexAt(nodes[..|nodes| - 1], path);
    }
  }

  lemma {:induction false} TestFileAt(nodes: seq<Node>, k: nat) returns (i: nat)
    requires k < |TestFiles(nodes)|
    ensures i < |nodes| && IsTest(nodes[i]) && TestFiles(nodes)[k] == TestFile(FilePath(nodes[i]), nodes[i].id)
    ensures DistinctIds(nodes) ==> forall j :: 0 <= j < k ==> TestFiles(nodes)[j].id != TestFiles(nodes)[k].id
  {
    var before := TestFiles(nodes[..|nodes| - 1]);
    if k < |before| {
      i := TestFileAt(nodes[..|nodes| - 1], k);
    } else {
      i := |nodes| - 1;
      forall j | 0 <= j < k && DistinctIds(nodes)
        ensures TestFiles(nodes)[j].id != TestFiles(nodes)[k].id
      {
        var m := TestFileAt(nodes[..|nodes| - 1], j);
      }
    }
  }

  ghost predicate IsFirst(index: map<string, string>, candidates: seq<string>, k: int) {
    && 0 <= k < |candidates| && NamesProduction(index, candidates[k])
    && forall j :: 0 <= j < k ==> !NamesProduction(index, candidates[j])
  }

  /** A chosen candidate is the first one that names a production file. */
  lemma {:induction false} ChoiceIsFirst(index: map<string, string>, candidates: seq<string>, prod: string)
    ensures Choice(index, candidates) == Some(prod) <==>
      exists k :: IsFirst(index, candidates, k) && index[candidates[k]] == prod
  {
    hide IsTestPath;
    if candidates != [] {
      var rest := candidates[1..];
      if NamesProduction(index, candidates[0]) {
        assert IsFirst(index, candidates, 0);
        assert forall k :: IsFirst(index, candidates, k) ==> k == 0;
      } else {
        ChoiceIsFirst(index, rest, prod);
        forall k ensures IsFirst(index, candidates, k + 1) <==> IsFirst(index, rest, k) {
          FirstShift(index, candidates, k);
        }
        assert !IsFirst(index, candidates, 0);
        if k :| IsFirst(index, candidates, k) && index[candidates[k]] == prod {
          assert IsFirst(index, candidates, (k - 1) + 1);
          assert rest[k - 1] == candidates[k];
        }
      }
    }
  }

  lemma FirstShift(index: map<string, string>, candidates: seq<string>, k: int)
    requires candidates != [] && !NamesProduction(index, candidates[0])
    ensures IsFirst(index, candidates, k + 1) <==> IsFirst(index, candidates[1..], k)
  {
    hide IsTestPath;
    var rest := candidates[1..];
    assert forall j :: 0 <= j < |rest| ==> rest[j] == candidates[j + 1];
    if IsFirst(index, rest, k) {
      forall j | 0 <= j < k + 1 ensures !NamesProduction(index, candidates[j]) {
        if j > 0 { assert rest[j - 1] == candidates[j]; }
      }
    }
  }

  lemma ChoiceIsProd(nodes: seq<Node>, candidates: seq<string>)
    requires DistinctIds(nodes) && Choice(PathIndex(nodes), candidates).Some?
    ensures ClassOf(Classify(nodes), Choice(PathIndex(nodes), candidates).value) == Some(Prod)
  {
    var index := PathIndex(nodes);
    var prod := Choice(index, candidates).value;
    ChoiceIsFirst(index, candidates, prod);
    var k :| IsFirst(index, candidates, k) && index[candidates[k]] == prod;
    var i := PathIndexAt(nodes, candidates[k]);
    ClassifyAt(nodes, i);
  }

  /** Where each supplement comes from. */
  lemma {:induction false} SupplementAt(index: map<string, string>, tests: seq<TestFile>, paired: set<string>, k: nat) returns (i: nat)
    requires k < |Supplements(index, tests, paired)|
    ensures i < |tests| && tests[i].id !in paired && Choice(index, Candidates(tests[i].path)).Some?
    ensures Supplements(index, tests, paired)[k] == Supplement(Choice(index, Candidates(tests[i].path)).value, tests[i].id)
    ensures (forall a, b :: 0 <= a < b < |tests| ==> tests[a].id != tests[b].id) ==>
      forall j :: 0 <= j < k ==> Supplements(index, tests, paired)[j].target != Supplements(index, tests, paired)[k].target
  {
    hide Candidates, Choice;
    var init := tests[..|tests| - 1];
    var before := Supplements(index, init, paired);
    if k < |before| {
      i := SupplementAt(index, init, paired, k);
    } else {
      i := |tests| - 1;
      forall j | 0 <= j < k && forall a, b :: 0 <= a < b < |tests| ==> tests[a].id != tests[b].id
        ensures Supplements(index, tests, paired)[j].target != Supplements(index, tests, paired)[k].target
      {
        var m := SupplementAt(index, init, paired, j);
      }
    }
  }

  lemma TestIdsDistinct(nodes: seq<Node>)
    requires DistinctIds(nodes)
    ensures forall a, b :: 0 <= a < b < |TestFiles(nodes)| ==> TestFiles(nodes)[a].id != TestFiles(nodes)[b].id
  {
    forall a, b | 0 <= a < b < |TestFiles(nodes)|
      ensures TestFiles(nodes)[a].id != TestFiles(nodes)[b].id
    {
      var i := TestFileAt(nodes, b);
    }
  }

  /** A supplement runs from a production file to a test that no kept edge covers. */
  lemma SupplementUpright(nodes: seq<Node>, paired: set<string>, k: nat)
    requires DistinctIds(nodes) && k < |Supplements(PathIndex(nodes), TestFiles(nodes), paired)|
    ensures var e := Supplements(PathIndex(nodes), TestFiles(nodes), paired)[k];
      TestedBy(e) && Upright(Classify(nodes), e) && e.target !in paired
  {
    var i := SupplementAt(PathIndex(nodes), TestFiles(nodes), paired, k);
    var j := TestFileAt(nodes, i);
    ClassifyAt(nodes, j);
    ChoiceIsProd(nodes, Candidates(TestFiles(nodes)[i].path));
  }

  // ---------------------------------------------- the linked edges are clean

  lemma LinkedIsClean(nodes: seq<Node>, edges: seq<Edge>)
    requires DistinctIds(nodes)
    ensures Clean(Classify(nodes), LinkedEdges(nodes, edges))
  {
    var cls, n := Classify(nodes), |edges|;
    var kept := Kept(cls, edges, n);
    var paired := Tests(Covered(cls, edges, n));
    var sup := Supplements(PathIndex(nodes), TestFiles(nodes), paired);
    KeptIsClean(cls, edges, n);
    TestIdsDistinct(nodes);
    forall k | 0 <= k < |sup| ensures TestedBy(sup[k]) && Upright(cls, sup[k]) && sup[k].target !in paired {
      SupplementUpright(nodes, paired, k);
    }
    forall j, k | 0 <= j < k < |sup| ensures sup[j].target != sup[k].target {
      var i := SupplementAt(PathIndex(nodes), TestFiles(nodes), paired, k);
    }
    forall j, k | 0 <= j < |kept| && 0 <= k < |sup| && TestedBy(kept[j])
      ensures PairOf(cls, kept[j]) != PairOf(cls, sup[k])
    {
      KeptPairs(cls, edges, n, PairOf(cls, kept[j]).value);
    }
    CleanConcat(cls, kept, sup);
  }

  lemma CleanConcat(cls: Classes, a: seq<Edge>, b: seq<Edge>)
    requires Clean(cls, a)
    requires forall k :: 0 <= k < |b| ==> TestedBy(b[k]) && Upright(cls, b[k])
    requires forall j, k :: 0 <= j < k < |b| ==> b[j].target != b[k].target
    requires forall j, k :: 0 <= j < |a| && 0 <= k < |b| && TestedBy(a[j]) ==> PairOf(cls, a[j]) != PairOf(cls, b[k])
    ensures Clean(cls, a + b)
  {
    var all := a + b;
    forall i, j | 0 <= i < j < |all| && TestedBy(all[i]) && TestedBy(all[j])
      ensures PairOf(cls, all[i]) != PairOf(cls, all[j])
    {
      if i >= |a| {
        assert all[i] == b[i - |a|] && all[j] == b[j - |a|];
      } else if j >= |a| {
        assert all[i] == a[i] && all[j] == b[j - |a|];
      }
    }
  }

  lemma CleanPairs(cls: Classes, es: seq<Edge>)
    requires Clean(cls, es)
    ensures Covered(cls, es, |es|) == Pairs(es)
  {
    forall p ensures p in Covered(cls, es, |es|) <==> p in Pairs(es) {
      if p in Covered(cls, es, |es|) {
        var k :| 0 <= k < |es| && PairOf(cls, es[k]) == Some(p);
        assert p == Pair(es[k].source, es[k].target);
      }
      if p in Pairs(es) {
        var i :| 0 <= i < |es| && TestedBy(es[i]) && p == Pair(es[i].source, es[i].target);
        assert PairOf(cls, es[i]) == Some(p);
      }
    }
  }

  // ------------------------------------------------------------ idempotence

  lemma {:induction false} TagKeepsIndexes(nodes: seq<Node>, sources: set<string>)
    ensures Classify(TagAll(nodes, sources)) == Classify(nodes)
    ensures PathIndex(TagAll(nodes, sources)) == PathIndex(nodes)
    ensures TestFiles(TagAll(nodes, sources)) == TestFiles(nodes)
  {
    if nodes != [] {
      var init := nodes[..|nodes| - 1];
      TagKeepsIndexes(init, sources);
      var tagged := TagAll(nodes, sources);
      assert tagged[..|nodes| - 1] == TagAll(init, sources);
    }
  }

  lemma TagTwice(nodes: seq<Node>, sources: set<string>)
    ensures TagAll(TagAll(nodes, sources), sources) == TagAll(nodes, sources)
    ensures NewlyTagged(TagAll(nodes, sources), sources) == {}
  {
    forall n: Node ensures TagNode(TagNode(n)) == TagNode(n) && TagNode(n).id == n.id {}
  }

  /** A test left unpaired has no candidate; with the same files it gets none later. */
  lemma {:induction false} NothingToSupplement(index: map<string, string>, tests: seq<TestFile>, paired: set<string>, paired': set<string>)
    requires paired <= paired'
    requires forall k :: 0 <= k < |Supplements(index, tests, paired)| ==> Supplements(index, tests, paired)[k].target in paired'
    ensures Supplements(index, tests, paired') == []
  {
    hide Candidates, Choice;
    if tests != [] {
      var init, t := tests[..|tests| - 1], tests[|tests| - 1];
      var before, all := Supplements(index, init, paired), Supplements(index, tests, paired);
      forall k | 0 <= k < |before| ensures before[k].target in paired' {
        assert all[k] == before[k];
      }
      NothingToSupplement(index, init, paired, paired');
      if t.id !in paired && Choice(index, Candidates(t.path)).Some? {
        assert all[|before|] == Supplement(Choice(index, Candidates(t.path)).value, t.id);
      }
    }
  }

  /** Running the linker on its own output adds, drops, tags and swaps nothing,
      and leaves nodes and edges as they are. */
  lemma LinkIsIdempotent(nodes: seq<Node>, edges: seq<Edge>)
    requires DistinctIds(nodes)
    ensures var once := Link(nodes, edges);
      Link(once.nodes, once.edges) == Linked(once.nodes, once.edges, 0, 0, 0, 0)
  {
    var once := Link(nodes, edges);
    var cls, all := Classify(nodes), once.edges;
    TagKeepsIndexes(nodes, Prods(Pairs(all)));
    LinkedIsClean(nodes, edges);
    CleanIsFixed(cls, all, |all|);
    assert all[..|all|] == all;
    CleanPairs(cls, all);
    NoSecondSupplement(nodes, edges);
    assert all + [] == all;
    assert LinkedEdges(once.nodes, all) == all;
    TagTwice(nodes, Prods(Pairs(all)));
    assert SwappedPairs(cls, all, |all|) == {};
  }

  lemma NoSecondSupplement(nodes: seq<Node>, edges: seq<Edge>)
    requires DistinctIds(nodes)
    ensures Supplements(PathIndex(nodes), TestFiles(nodes), Tests(Pairs(LinkedEdges(nodes, edges)))) == []
  {
    hide Candidates, Choice, Supplements, Kept, Covered, Classify, PathIndex, TestFiles;
    var cls, n, all := Classify(nodes), |edges|, LinkedEdges(nodes, edges);
    var kept := Kept(cls, edges, n);
    var paired := Tests(Covered(cls, edges, n));
    var sup := Supplements(PathIndex(nodes), TestFiles(nodes), paired);
    var paired' := Tests(Pairs(all));
    forall k | 0 <= k < |sup| ensures sup[k].target in paired' {
      SupplementUpright(nodes, paired, k);
      assert all[|kept| + k] == sup[k];
      assert Pair(sup[k].source, sup[k].target) in Pairs(all);
    }
    forall t | t in paired ensures t in paired' {
      var p :| p in Covered(cls, edges, n) && p.test == t;
      KeptIsClean(cls, edges, n);
      KeptPairs(cls, edges, n, p);
      var k :| 0 <= k < |kept| && PairOf(cls, kept[k]) == Some(p);
      assert all[k] == kept[k] && Pair(kept[k].source, kept[k].target) == p;
      assert p in Pairs(all);
    }
    NothingToSupplement(PathIndex(nodes), TestFiles(nodes), paired, paired');
  }

  // ------------------------------------------------------ what the run says

  /** Counters and contents: `added` and `dropped` balance the edge list; every
      `tested_by` edge of the output is a production-test pair of its own; exactly
      the sources of such edges carry the tag. */
  lemma LinkReport(nodes: seq<Node>, edges: seq<Edge>)
    requires DistinctIds(nodes)
    ensures var l := Link(nodes, edges);
      && |l.edges| + l.dropped == |edges| + l.added
      && Clean(Classify(nodes), l.edges)
      && Others(l.edges) == Others(edges)
      && (forall p :: p in Covered(Classify(nodes), edges, |edges|) ==> p in Pairs(l.edges))
      && (forall i :: 0 <= i < |nodes| && nodes[i].id in Prods(Pairs(l.edges)) ==>
            l.nodes[i].tags.List? && "tested" in l.nodes[i].tags.tags)
      && (forall i :: 0 <= i < |nodes| && nodes[i].id !in Prods(Pairs(l.edges)) ==> l.nodes[i] == nodes[i])
  {
    hide Candidates, Choice, Supplements, Kept, Classify, PathIndex, TestFiles, Others;
    var cls, n := Classify(nodes), |edges|;
    var kept := Kept(cls, edges, n);
    var sup := Supplements(PathIndex(nodes), TestFiles(nodes), Tests(Covered(cls, edges, n)));
    LinkedIsClean(nodes, edges);
    OthersSurvive(cls, edges, n);
    assert edges[..n] == edges;
    OthersOfSupplements(kept, PathIndex(nodes), TestFiles(nodes), Tests(Covered(cls, edges, n)));
    forall p | p in Covered(cls, edges, n) ensures p in Pairs(kept + sup) {
      KeptIsClean(cls, edges, n);
      KeptPairs(cls, edges, n, p);
      var k :| 0 <= k < |kept| && PairOf(cls, kept[k]) == Some(p);
      assert (kept + sup)[k] == kept[k] && Pair(kept[k].source, kept[k].target) == p;
    }
  }

  lemma {:induction false} OthersOfSupplements(kept: seq<Edge>, index: map<string, string>, tests: seq<TestFile>, paired: set<string>)
    ensures Others(kept + Supplements(index, tests, paired)) == Others(kept)
  {
    hide Candidates, Choice, Others;
    if tests == [] {
      assert kept + [] == kept;
    } else {
      var init, t := tests[..|tests| - 1], tests[|tests| - 1];
      OthersOfSupplements(kept, index, init, paired);
      var before, last := Supplements(index, init, paired), SupplementFor(index, t, paired);
      if last == [] {
        assert kept + (before + last) == kept + before;
      } else {
        assert kept + (before + last) == (kept + before) + [last[0]];
        OthersSnoc(kept + before, last[0]);
      }
    }
  }

  /** Every test file that pass 1 leaves unpaired is linked to the first of its
      candidates that names a production file, if there is one. */
  lemma {:induction false} UnpairedTestIsLinked(index: map<string, string>, tests: seq<TestFile>, paired: set<string>, i: nat)
    requires i < |tests| && tests[i].id !in paired && Choice(index, Candidates(tests[i].path)).Some?
    ensures Supplement(Choice(index, Candidates(tests[i].path)).value, tests[i].id) in Supplements(index, tests, paired)
  {
    hide Candidates, Choice;
    var init := tests[..|tests| - 1];
    if i < |init| {
      assert init[i] == tests[i];
      UnpairedTestIsLinked(index, init, paired, i);
    } else {
      assert tests[i] == tests[|tests| - 1];
    }
  }
}
