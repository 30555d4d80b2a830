/** The linker as the script runs it: one list of edges compacted in place, side
    indexes of slots, and tags added to nodes. */
module Linker {
  import opened TestPaths
  import opened LinkTests
  import opened Linking
  import opened Compaction
  import opened Wrappers

  class Graph {
    var nodes: seq<Node>
    var edges: seq<Edge>

    constructor (nodes: seq<Node>, edges: seq<Edge>)
      ensures this.nodes == nodes && this.edges == edges
    {
      this.nodes := nodes;
      this.edges := edges;
    }

    /** `link_tests`. */
    method LinkTests() returns (added: nat, dropped: nat, tagged: nat, swapped: nat)
      requires DistinctIds(nodes)
      modifies this
      ensures Linked(nodes, edges, added, dropped, tagged, swapped) == Link(old(nodes), old(edges))
    {
      hide Classify, PathIndex, TestFiles, Kept, Covered, Supplements, Pairs, NewlyTagged, SwappedPairs, TagAll;
      var index, cls, tests := IndexFiles();
      var covered;
      covered, dropped, swapped := Compact(cls);
      added, covered := SupplementTests(index, tests, covered);
      LinkedPairs(nodes, old(edges));
      tagged := TagSources(covered);
    }

    /** Index file nodes by path and by id. */
    method IndexFiles() returns (index: map<string, string>, cls: Classes, tests: seq<TestFile>)
      ensures index == PathIndex(nodes) && cls == Classify(nodes) && tests == TestFiles(nodes)
    {
      index, cls, tests := map[], map[], [];
      for i := 0 to |nodes|
        invariant index == PathIndex(nodes[..i]) && cls == Classify(nodes[..i]) && tests == TestFiles(nodes[..i])
      {
        var node := nodes[i];
        assert nodes[..i + 1][..i] == nodes[..i];
        if IsFile(node) {
          var path := FilePath(node);
          index := index[path := node.id];
          if IsTestPath(path) {
            cls := cls[node.id := Test];
            tests := tests + [TestFile(path, node.id)];
          } else {
            cls := cls[node.id := Prod];
          }
        }
      }
      assert nodes[..|nodes|] == nodes;
    }

    /** Pass 1: read every edge once, write survivors to the front of the same list. */
    method Compact(cls: Classes) returns (covered: set<Pair>, dropped: nat, swapped: nat)
      modifies this`edges
      ensures edges == Kept(cls, old(edges), |old(edges)|)
      ensures covered == Covered(cls, old(edges), |old(edges)|)
      ensures dropped == |old(edges)| - |edges|
      ensures swapped == |SwappedPairs(cls, old(edges), |old(edges)|)|
    {
      hide Kept, Covered, SwappedPairs, SlotOf;
      ghost var es := edges;
      covered, dropped := {}, 0;
      var pairToIdx: map<Pair, nat> := map[];
      var swappedPairs: set<Pair> := {};
      var writeIdx := 0;
      var i := 0;
      Start(cls, es);
      while i < |edges|
        invariant writeIdx <= i <= |edges| == |es|
        invariant Holds(cls, es, i, State(edges[..writeIdx], covered, pairToIdx, swappedPairs))
        invariant edges[i..] == es[i..]
        invariant dropped == i - writeIdx
      {
        ghost var state := State(edges[..writeIdx], covered, pairToIdx, swappedPairs);
        var edge := edges[i];
        Reading(edges, es, i);
        if edge.kind != "tested_by" {
          OtherKind(cls, es, i, state);
          Write(writeIdx, edge, i);
          writeIdx := writeIdx + 1;
          i := i + 1;
          continue;
        }
        var srcClass := ClassOf(cls, edge.source);
        var tgtClass := ClassOf(cls, edge.target);
        var pair;
        var needsSwap;
        if srcClass == Some(Prod) && tgtClass == Some(Test) {
          pair, needsSwap := Pair(edge.source, edge.target), false;
        } else if srcClass == Some(Test) && tgtClass == Some(Prod) {
          pair, needsSwap := Pair(edge.target, edge.source), true;
        } else {
          Unusable(cls, es, i, state);
          dropped := dropped + 1;
          i := i + 1;
          continue;
        }
        if pair in covered {
          var existingIdx := pairToIdx[pair];
          SlotWeight(cls, es, i, state, pair);
          if edge.weight > edges[existingIdx].weight {
            Heavier(cls, es, i, state, pair);
            var survivor := edge;
            if needsSwap {
              survivor := Swap(edge);
              swappedPairs := swappedPairs + {pair};
            } else {
              swappedPairs := swappedPairs - {pair};
            }
            Replace(existingIdx, survivor, writeIdx, i);
          } else {
            NotHeavier(cls, es, i, state, pair);
          }
          dropped := dropped + 1;
          i := i + 1;
          continue;
        }
        NewPair(cls, es, i, state, pair);
        var survivor := edge;
        if needsSwap {
          survivor := Swap(edge);
          swappedPairs := swappedPairs + {pair};
        }
        covered := covered + {pair};
        pairToIdx := pairToIdx[pair := writeIdx];
        Write(writeIdx, survivor, i);
        writeIdx := writeIdx + 1;
        i := i + 1;
      }
      edges := edges[..writeIdx];
      swapped := |swappedPairs|;
    }

    /** Append to the compacted prefix; edges after `read` stay as they are. */
    method Write(at: nat, e: Edge, ghost read: nat)
      requires at <= read < |edges|
      modifies this`edges
      ensures |edges| == |old(edges)|
      ensures edges[..at + 1] == old(edges)[..at] + [e]
      ensures edges[read + 1..] == old(edges)[read + 1..]
    {
      edges := edges[at := e];
    }

    /** Overwrite one place of the compacted prefix of length `len`. */
    method Replace(at: nat, e: Edge, ghost len: nat, ghost read: nat)
      requires at < len <= read < |edges|
      modifies this`edges
      ensures |edges| == |old(edges)|
      ensures edges[..len] == old(edges)[..len][at := e]
      ensures edges[read + 1..] == old(edges)[read + 1..]
    {
      edges := edges[at := e];
    }

    /** Pass 2: path-convention supplements for tests not yet paired. */
    method SupplementTests(index: map<string, string>, tests: seq<TestFile>, covered: set<Pair>)
      returns (added: nat, allCovered: set<Pair>)
      requires DistinctIds(nodes) && index == PathIndex(nodes) && tests == TestFiles(nodes)
      modifies this`edges
      ensures edges == old(edges) + Supplements(index, tests, Tests(covered))
      ensures added == |edges| - |old(edges)|
      ensures allCovered == covered + Pairs(Supplements(index, tests, Tests(covered)))
    {
      hide PathIndex, TestFiles, Candidates, Choice, Supplements, IsTestPath, Pairs;
      TestIdsDistinct(nodes);
      var base := edges;
      var paired := set p | p in covered :: p.test;
      allCovered := covered;
      added := 0;
      NoSupplements(index, tests, paired, base);
      for i := 0 to |tests|
        invariant edges == base + Supplements(index, tests[..i], paired)
        invariant added == |edges| - |base|
        invariant allCovered == covered + Pairs(Supplements(index, tests[..i], paired))
        invariant forall p :: p in allCovered ==> p.test in paired || exists j :: 0 <= j < i && tests[j].id == p.test
      {
        var t := tests[i];
        SupplementsStep(index, tests, paired, i, base);
        if t.id in paired {
          continue;
        }
        var candidates := ProductionCandidates(t.path);
        var found := FindProduction(index, candidates, t, allCovered);
        match found
        case None =>
        case Some(prod) =>
          PairsSnoc(Supplements(index, tests[..i], paired), Supplement(prod, t.id));
          edges := edges + [Supplement(prod, t.id)];
          allCovered := allCovered + {Pair(prod, t.id)};
          added := added + 1;
      }
      assert tests[..|tests|] == tests;
    }

    /** The inner loop of pass 2. The test against already covered pairs never
        rejects a candidate, because no covered pair has an unpaired test. */
    method FindProduction(index: map<string, string>, candidates: seq<string>, t: TestFile, covered: set<Pair>)
      returns (prod: Option<string>)
      requires forall p :: p in covered ==> p.test != t.id
      ensures prod == Choice(index, candidates)
    {
      for k := 0 to |candidates|
        invariant Choice(index, candidates) == Choice(index, candidates[k..])
      {
        var path := candidates[k];
        assert candidates[k..][1..] == candidates[k + 1..];
        if path !in index {
          continue;
        }
        if IsTestPath(path) {
          continue;
        }
        if Pair(index[path], t.id) in covered {
          continue;
        }
        return Some(index[path]);
      }
      prod := None;
    }

    /** Tag the production side of every covered pair, in no particular order. */
    method TagSources(covered: set<Pair>) returns (tagged: nat)
      requires DistinctIds(nodes)
      modifies this`nodes
      ensures nodes == TagAll(old(nodes), Prods(covered))
      ensures tagged == |NewlyTagged(old(nodes), Prods(covered))|
    {
      hide TagAll, NewlyTagged, DistinctIds;
      ghost var all := nodes;
      TagNone(nodes);
      assert Prods({}) == {};
      var left := covered;
      ghost var done: set<Pair> := {};
      tagged := 0;
      while left != {}
        invariant done + left == covered && done !! left
        invariant nodes == TagAll(all, Prods(done))
        invariant tagged == |NewlyTagged(all, Prods(done))|
        decreases |left|
      {
        var p :| p in left;
        TagKeepsIds(all, Prods(done));
        var isNew := EnsureTag(p.prod);
        TagStep(all, Prods(done), p.prod);
        assert Prods(done + {p}) == Prods(done) + {p.prod};
        if isNew {
          tagged := tagged + 1;
        }
        done, left := done + {p}, left - {p};
      }
      assert done == covered;
    }

    /** `_ensure_tested_tag` on the node with this id, if there is one. */
    method EnsureTag(id: string) returns (isNew: bool)
      modifies this`nodes
      requires DistinctIds(nodes)
      ensures nodes == TagAll(old(nodes), {id})
      ensures isNew <==> id in NewlyTagged(old(nodes), {id})
    {
      var k := 0;
      while k < |nodes| && nodes[k].id != id
        invariant k <= |nodes| && forall j :: 0 <= j < k ==> nodes[j].id != id
      {
        k := k + 1;
      }
      isNew := false;
      if k < |nodes| {
        var node := nodes[k];
        var tags := if node.tags.List? then node.tags.tags else [];
        isNew := "tested" !in tags;
        if isNew {
          tags := tags + ["tested"];
        }
        assert node.tags.Malformed? ==> tags == ["tested"];
        assert node.(tags := List(tags)) == TagNode(node);
        nodes := nodes[k := node.(tags := List(tags))];
      }
      forall j | 0 <= j < |nodes| ensures nodes[j] == TagAll(old(nodes), {id})[j] {
        assert j != k ==> old(nodes)[j].id != id;
      }
    }
  }

  lemma NoSupplements(index: map<string, string>, tests: seq<TestFile>, paired: set<string>, base: seq<Edge>)
    ensures base + Supplements(index, tests[..0], paired) == base
    ensures Pairs(Supplements(index, tests[..0], paired)) == {}
  {
    assert Supplements(index, tests[..0], paired) == [];
  }

  lemma SupplementsStep(index: map<string, string>, tests: seq<TestFile>, paired: set<string>, i: nat, base: seq<Edge>)
    requires i < |tests|
    ensures Supplements(index, tests[..i + 1], paired) ==
      Supplements(index, tests[..i], paired) + SupplementFor(index, tests[i], paired)
    ensures base + Supplements(index, tests[..i + 1], paired) ==
      base + Supplements(index, tests[..i], paired) + SupplementFor(index, tests[i], paired)
    ensures SupplementFor(index, tests[i], paired) == [] ==>
      Supplements(index, tests[..i + 1], paired) == Supplements(index, tests[..i], paired)
  {
    hide SupplementFor;
    assert tests[..i + 1][..i] == tests[..i];
  }

  lemma TagKeepsIds(nodes: seq<Node>, sources: set<string>)
    requires DistinctIds(nodes)
    ensures DistinctIds(TagAll(nodes, sources))
  {
  }

  lemma TagNone(nodes: seq<Node>)
    ensures TagAll(nodes, {}) == nodes && NewlyTagged(nodes, {}) == {}
  {
  }

  lemma TagStep(nodes: seq<Node>, sources: set<string>, id: string)
    requires DistinctIds(nodes)
    ensures TagAll(TagAll(nodes, sources), {id}) == TagAll(nodes, sources + {id})
    ensures |NewlyTagged(nodes, sources + {id})| ==
      |NewlyTagged(nodes, sources)| + if id in NewlyTagged(TagAll(nodes, sources), {id}) then 1 else 0
  {
    var before, after := NewlyTagged(nodes, sources), NewlyTagged(nodes, sources + {id});
    forall n: Node ensures TagNode(TagNode(n)) == TagNode(n) && TagNode(n).id == n.id {}
    if id in NewlyTagged(TagAll(nodes, sources), {id}) {
      assert id !in sources;
      assert after == before + {id};
      assert id !in before;
    } else {
      assert after == before;
    }
  }

  lemma PairsSnoc(es: seq<Edge>, e: Edge)
    requires TestedBy(e)
    ensures Pairs(es + [e]) == Pairs(es) + {Pair(e.source, e.target)}
  {
    var all := es + [e];
    forall p ensures p in Pairs(all) <==> p in Pairs(es) + {Pair(e.source, e.target)} {
      if p in Pairs(es) {
        var i :| 0 <= i < |es| && TestedBy(es[i]) && p == Pair(es[i].source, es[i].target);
        assert all[i] == es[i];
      }
      assert all[|es|] == e;
    }
  }

  lemma PairsConcat(a: seq<Edge>, b: seq<Edge>)
    ensures Pairs(a + b) == Pairs(a) + Pairs(b)
  {
    var all := a + b;
    forall p ensures p in Pairs(all) <==> p in Pairs(a) + Pairs(b) {
      if p in Pairs(a) {
        var i :| 0 <= i < |a| && TestedBy(a[i]) && p == Pair(a[i].source, a[i].target);
        assert all[i] == a[i];
      }
      if p in Pairs(b) {
        var i :| 0 <= i < |b| && TestedBy(b[i]) && p == Pair(b[i].source, b[i].target);
        assert all[|a| + i] == b[i];
      }
    }
  }

  /** `covered` at the end is the set of `tested_by` pairs of the list. */
  lemma LinkedPairs(nodes: seq<Node>, edges: seq<Edge>)
    ensures var covered := Covered(Classify(nodes), edges, |edges|);
      Pairs(LinkedEdges(nodes, edges)) ==
      covered + Pairs(Supplements(PathIndex(nodes), TestFiles(nodes), Tests(covered)))
  {
    var cls, n := Classify(nodes), |edges|;
    var kept := Kept(cls, edges, n);
    KeptIsClean(cls, edges, n);
    CleanPairs(cls, kept);
    forall p ensures p in Covered(cls, edges, n) <==> p in Covered(cls, kept, |kept|) {
      KeptPairs(cls, edges, n, p);
    }
    PairsConcat(kept, Supplements(PathIndex(nodes), TestFiles(nodes), Tests(Covered(cls, edges, n))));
  }

  lemma Reading(edges: seq<Edge>, es: seq<Edge>, i: nat)
    requires i < |edges| == |es| && edges[i..] == es[i..]
    ensures edges[i] == es[i] && edges[i + 1..] == es[i + 1..]
  {
    assert edges[i..][0] == es[i..][0];
    assert edges[i..][1..] == edges[i + 1..] && es[i..][1..] == es[i + 1..];
  }
}
