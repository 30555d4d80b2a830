/** The edges and counters of a linked graph, field by field. */
module LinkFields {
  import opened TestPaths
  import opened LinkTests
  import opened Linking
  import opened Wrappers

  // ------------------------------------------------------------ the index

  /** The node is a file: its id begins with `file:`. Its path is its `filePath`, and
      the rest of the id if it has none. */
  ghost predicate FileAt(n: Node, path: string) {
    exists rest :: n.id == "file:" + rest && path == if n.filePath == "" then rest else n.filePath
  }

  lemma FileAtExactly(n: Node, path: string)
    ensures FileAt(n, path) <==> IsFile(n) && FilePath(n) == path
  {
    if IsFile(n) { assert n.id == "file:" + n.id[5..]; }
    if FileAt(n, path) {
      var rest :| n.id == "file:" + rest && path == if n.filePath == "" then rest else n.filePath;
      assert n.id[5..] == rest;
    }
  }

  /** Node `i` is the last that has the path. */
  ghost predicate LastAt(nodes: seq<Node>, path: string, i: int) {
    0 <= i < |nodes| && FileAt(nodes[i], path) && forall j :: i < j < |nodes| ==> !FileAt(nodes[j], path)
  }

  /** Under each path the index has the id of the last file node that has the path. */
  lemma {:induction false} PathIndexExactly(nodes: seq<Node>, path: string)
    ensures path in PathIndex(nodes) <==> exists i :: LastAt(nodes, path, i)
    ensures forall i :: LastAt(nodes, path, i) ==> path in PathIndex(nodes) && PathIndex(nodes)[path] == nodes[i].id
  {
    hide FileAt, IsFile, FilePath;
    if nodes != [] {
      var init, n := nodes[..|nodes| - 1], nodes[|nodes| - 1];
      PathIndexExactly(init, path);
      FileAtExactly(n, path);
      if FileAt(n, path) {
        assert LastAt(nodes, path, |nodes| - 1);
      } else {
        forall i ensures LastAt(nodes, path, i) <==> LastAt(init, path, i) {
          if LastAt(init, path, i) { assert nodes[i] == init[i]; }
        }
      }
    }
  }

  /** An id has a class exactly if a file node has it, and is a test exactly if that
      node's path is one by name. */
  lemma ClassExactly(nodes: seq<Node>, i: nat, path: string)
    requires DistinctIds(nodes) && i < |nodes| && FileAt(nodes[i], path)
    ensures nodes[i].id in Classify(nodes)
    ensures Classify(nodes)[nodes[i].id] == Test <==> IsTestPath(path)
  {
    hide IsTestPath, Classify;
    FileAtExactly(nodes[i], path);
    ClassifyAt(nodes, i);
  }

  lemma {:induction false} OnlyFilesHaveClass(nodes: seq<Node>, id: string) returns (i: nat)
    requires id in Classify(nodes)
    ensures i < |nodes| && nodes[i].id == id && "file:" <= id
  {
    hide IsTest;
    i := |nodes| - 1;
    if !IsFile(nodes[i]) || nodes[i].id != id { i := OnlyFilesHaveClass(nodes[..i], id); }
  }

  // ------------------------------------------------------------- the edges

  /** The same edge, running the other way and saying so. */
  predicate Flipped(e: Edge, f: Edge) {
    && f.source == e.target && f.target == e.source && f.direction == "forward"
    && f.kind == e.kind && f.weight == e.weight && f.rest == e.rest
    && (e.description == "" ==> f.description == "Direction corrected (was test → production)")
    && (e.description != "" ==> f.description == e.description + " [direction corrected]")
  }

  predicate Classed(cls: Classes, id: string, c: Class) { id in cls && cls[id] == c }

  /** The edge speaks of the pair: it runs from production to test, or the other way. */
  predicate SpeaksOf(cls: Classes, e: Edge, prod: string, test: string) {
    e.kind == "tested_by" && Classed(cls, prod, Prod) && Classed(cls, test, Test) &&
    ((e.source == prod && e.target == test) || (e.source == test && e.target == prod))
  }

  lemma SpeaksExactly(cls: Classes, e: Edge, prod: string, test: string)
    ensures SpeaksOf(cls, e, prod, test) <==> PairOf(cls, e) == Some(Pair(prod, test))
  {
  }

  /** Edge `b` wins its pair: it is the heaviest, and the first that is so heavy. */
  predicate Wins(cls: Classes, es: seq<Edge>, b: nat, prod: string, test: string) {
    b < |es| && SpeaksOf(cls, es[b], prod, test) &&
    forall j :: 0 <= j < |es| && SpeaksOf(cls, es[j], prod, test) ==>
      es[j].weight < es[b].weight || (es[j].weight == es[b].weight && b <= j)
  }

  /** Every `tested_by` edge that survives is the winner of its pair: as it was, if it ran
      from production to test, and flipped if it ran from test to production. */
  lemma SurvivorFields(cls: Classes, es: seq<Edge>, k: nat) returns (b: nat)
    requires k < |Kept(cls, es, |es|)|
    ensures b < |es|
    ensures var f := Kept(cls, es, |es|)[k];
      if f.kind != "tested_by" then f == es[b]
      else
        && Wins(cls, es, b, f.source, f.target)
        && (Classed(cls, es[b].source, Prod) ==> f == es[b])
        && (Classed(cls, es[b].source, Test) ==> Flipped(es[b], f))
  {
    hide Kept, Slots, Best, Canonical;
    var i := Slots(cls, es, |es|)[k];
    b := SurvivorIsWinner(cls, es, k);
    if TestedBy(es[i]) {
      var f, p := Kept(cls, es, |es|)[k], PairOf(cls, es[i]).value;
      CanonicalFields(cls, es[b], p);
      SpeaksExactly(cls, es[b], p.prod, p.test);
      forall j | 0 <= j < |es| && SpeaksOf(cls, es[j], p.prod, p.test)
        ensures es[j].weight < es[b].weight || (es[j].weight == es[b].weight && b <= j)
      {
        SpeaksExactly(cls, es[j], p.prod, p.test);
      }
    } else {
      b := i;
    }
  }

  lemma CanonicalFields(cls: Classes, e: Edge, p: Pair)
    requires PairOf(cls, e) == Some(p)
    ensures var f := Canonical(cls, e);
      && f.kind == "tested_by" && f.source == p.prod && f.target == p.test
      && (Classed(cls, e.source, Prod) ==> f == e) && (Classed(cls, e.source, Test) ==> Flipped(e, f))
  {
  }

  /** Every edge that pass 2 adds runs from the first candidate that names a production
      file to a test file no surviving edge covers, at half weight, and says why. */
  lemma SupplementFields(nodes: seq<Node>, edges: seq<Edge>, k: nat) returns (i: nat, c: nat)
    requires DistinctIds(nodes)
    requires |Kept(Classify(nodes), edges, |edges|)| <= k < |LinkedEdges(nodes, edges)|
    ensures var f, index := LinkedEdges(nodes, edges)[k], PathIndex(nodes);
      && i < |TestFiles(nodes)| && f.target == TestFiles(nodes)[i].id
      && f.target !in Tests(Covered(Classify(nodes), edges, |edges|))
      && IsFirst(index, Candidates(TestFiles(nodes)[i].path), c) && f.source == index[Candidates(TestFiles(nodes)[i].path)[c]]
      && f.kind == "tested_by" && f.weight == 0.5 && f.direction == "forward"
      && f.description == "Path-based pairing (deterministic)"
  {
    hide Candidates, Kept, PathIndex, TestFiles, Classify, IsTestPath, Choice, Supplements;
    var index, tests := PathIndex(nodes), TestFiles(nodes);
    var paired, kept := Tests(Covered(Classify(nodes), edges, |edges|)), Kept(Classify(nodes), edges, |edges|);
    i := SupplementAt(index, tests, paired, k - |kept|);
    var candidates := Candidates(tests[i].path);
    ChoiceIsFirst(index, candidates, Choice(index, candidates).value);
    var n :| IsFirst(index, candidates, n) && index[candidates[n]] == Choice(index, candidates).value;
    c := n;
  }

  /** Added edges stand in the order of the test files. */
  lemma {:induction false} SupplementsInOrder(index: map<string, string>, tests: seq<TestFile>, paired: set<string>, j: nat, k: nat)
    returns (a: nat, b: nat)
    requires j < k < |Supplements(index, tests, paired)|
    ensures a < b < |tests|
    ensures Supplements(index, tests, paired)[j].target == tests[a].id && Supplements(index, tests, paired)[k].target == tests[b].id
  {
    hide Candidates, Choice;
    var n := |tests| - 1;
    var before := Supplements(index, tests[..n], paired);
    if k < |before| {
      a, b := SupplementsInOrder(index, tests[..n], paired, j, k);
    } else {
      a := SupplementAt(index, tests[..n], paired, j);
      b := n;
    }
  }

  lemma {:induction false} TestFileListed(nodes: seq<Node>, i: nat, path: string)
    requires i < |nodes| && FileAt(nodes[i], path) && IsTestPath(path)
    ensures TestFile(path, nodes[i].id) in TestFiles(nodes)
  {
    hide IsTestPath, FileAt;
    var init := nodes[..|nodes| - 1];
    FileAtExactly(nodes[i], path);
    if i < |init| {
      assert init[i] == nodes[i];
      TestFileListed(init, i, path);
    }
  }

  /** Every test file that no surviving edge covers is linked to the first of its
      candidates that names a production file. */
  lemma EveryTestIsLinked(nodes: seq<Node>, edges: seq<Edge>, i: nat, path: string, c: int) returns (f: Edge)
    requires DistinctIds(nodes) && i < |nodes| && FileAt(nodes[i], path) && IsTestPath(path)
    requires nodes[i].id !in Tests(Covered(Classify(nodes), edges, |edges|))
    requires IsFirst(PathIndex(nodes), Candidates(path), c)
    ensures f in LinkedEdges(nodes, edges)
    ensures f.target == nodes[i].id && f.source == PathIndex(nodes)[Candidates(path)[c]]
  {
    hide Candidates, Kept, PathIndex, TestFiles, Classify, IsTestPath, FileAt, Choice, Supplements;
    var index, tests, paired := PathIndex(nodes), TestFiles(nodes), Tests(Covered(Classify(nodes), edges, |edges|));
    TestFileListed(nodes, i, path);
    var k :| 0 <= k < |tests| && tests[k] == TestFile(path, nodes[i].id);
    ChoiceIsFirst(index, Candidates(path), index[Candidates(path)[c]]);
    UnpairedTestIsLinked(index, tests, paired, k);
    f := Supplement(index[Candidates(path)[c]], nodes[i].id);
  }

  // ---------------------------------------------------------- the counters

  /** `added` counts the edges after the survivors, `dropped` the input edges that did not
      survive, `tagged` the nodes that changed, and `swapped` the winners that ran from
      test to production. */
  lemma CountersExactly(nodes: seq<Node>, edges: seq<Edge>)
    requires DistinctIds(nodes)
    ensures var l, cls := Link(nodes, edges), Classify(nodes);
      && l.added <= |l.edges| && l.edges[..|l.edges| - l.added] == Kept(cls, edges, |edges|)
      && |edges| == |Kept(cls, edges, |edges|)| + l.dropped
      && |l.nodes| == |nodes| && l.tagged == |(set i | 0 <= i < |nodes| && l.nodes[i] != nodes[i] :: nodes[i].id)|
      && l.swapped == |WonByTests(cls, edges)|
  {
    hide Kept, Classify, Supplements, TagNode, PathIndex, TestFiles;
    var l, cls := Link(nodes, edges), Classify(nodes);
    KeptFits(cls, edges);
    SwappedAre(cls, edges);
    var sources := Prods(Pairs(l.edges));
    assert NewlyTagged(nodes, sources) == (set i | 0 <= i < |nodes| && l.nodes[i] != nodes[i] :: nodes[i].id);
  }

  lemma KeptFits(cls: Classes, es: seq<Edge>)
    ensures |Kept(cls, es, |es|)| <= |es|
  {
  }

  /** The pairs whose winner runs from test to production. */
  ghost function WonByTests(cls: Classes, es: seq<Edge>): set<Pair> {
    set b | 0 <= b < |es| && Classed(cls, es[b].source, Test) && Wins(cls, es, b, es[b].target, es[b].source)
      :: Pair(es[b].target, es[b].source)
  }

  lemma SwappedAre(cls: Classes, es: seq<Edge>)
    ensures SwappedPairs(cls, es, |es|) == WonByTests(cls, es)
  {
    hide Best, PairOf, SpeaksOf;
    forall p: Pair ensures p in SwappedPairs(cls, es, |es|) <==> p in WonByTests(cls, es) {
      if p in SwappedPairs(cls, es, |es|) {
        var b := Best(cls, es, |es|, p).value;
        WinnerWins(cls, es, p);
        WonInverted(cls, es[b], p);
      }
      if p in WonByTests(cls, es) {
        var b :| 0 <= b < |es| && Classed(cls, es[b].source, Test) && Wins(cls, es, b, es[b].target, es[b].source) && p == Pair(es[b].target, es[b].source);
        SpeaksExactly(cls, es[b], p.prod, p.test);
        BestExists(cls, es, |es|, p);
        WinnerWins(cls, es, p);
        assert Best(cls, es, |es|, p).value == b;
        WonInverted(cls, es[b], p);
      }
    }
  }

  lemma WinnerWins(cls: Classes, es: seq<Edge>, p: Pair)
    requires Best(cls, es, |es|, p).Some?
    ensures Wins(cls, es, Best(cls, es, |es|, p).value, p.prod, p.test)
  {
    hide Best, SpeaksOf, PairOf;
    BestIsFirstMaximum(cls, es, |es|, p);
    var b := Best(cls, es, |es|, p).value;
    SpeaksExactly(cls, es[b], p.prod, p.test);
    forall j | 0 <= j < |es| && SpeaksOf(cls, es[j], p.prod, p.test)
      ensures es[j].weight < es[b].weight || (es[j].weight == es[b].weight && b <= j)
    {
      SpeaksExactly(cls, es[j], p.prod, p.test);
    }
  }

  lemma WonInverted(cls: Classes, e: Edge, p: Pair)
    requires PairOf(cls, e) == Some(p)
    ensures Inverted(cls, e) <==> Classed(cls, e.source, Test)
    ensures Inverted(cls, e) ==> p == Pair(e.target, e.source)
  {
  }
}
