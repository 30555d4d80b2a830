/** What one merge of subdomain graphs leaves, said of the nodes and edges that went in. */
module SubdomainExactly {
  import opened LinkTests
  import Batches = MergeBatch
  import MergeExactly
  import opened SubdomainMerge
  import opened Wrappers

  /** The three structural kinds. */
  lemma StructuralExactly(kind: string)
    ensures Structural(kind) <==> kind in {"contains_flow", "cross_domain", "flow_step"}
  {
  }

  predicate SameEnds(e: Edge, f: Edge) { e.source == f.source && e.target == f.target && e.kind == f.kind }

  /** Of the edges with its endpoints and kind, edge `i` is the heaviest, and the first
      that is so heavy. */
  predicate FirstHeaviest(es: seq<Edge>, i: int) {
    0 <= i < |es| && forall j :: 0 <= j < |es| && SameEnds(es[j], es[i]) ==>
      es[j].weight < es[i].weight || (es[j].weight == es[i].weight && i <= j)
  }

  lemma {:induction false} ChampionIndex(es: seq<Edge>, key: EdgeKey) returns (i: nat)
    requires Champion(es, key).Some?
    ensures i < |es| && Champion(es, key) == Some(es[i]) && Identity(es[i]) == key
    ensures forall j :: 0 <= j < |es| && Identity(es[j]) == key ==>
      es[j].weight < es[i].weight || (es[j].weight == es[i].weight && i <= j)
  {
    var init, e := es[..|es| - 1], es[|es| - 1];
    if Champion(init, key).Some? {
      i := ChampionIndex(init, key);
      if Identity(e) == key && e.weight > init[i].weight { i := |init|; }
    } else {
      ChampionNone(init, key);
      i := |init|;
    }
  }

  lemma ChampionExactly(es: seq<Edge>, e: Edge)
    ensures Champion(es, Identity(e)) == Some(e) <==> exists i :: FirstHeaviest(es, i) && es[i] == e
  {
    var key := Identity(e);
    if Champion(es, key).Some? {
      var i := ChampionIndex(es, key);
      assert FirstHeaviest(es, i);
      forall k | FirstHeaviest(es, k) && es[k] == e ensures k == i { assert SameEnds(es[i], es[k]); }
    } else {
      ChampionNone(es, key);
    }
  }

  /** Both endpoints are ids of nodes that went in. */
  ghost predicate EndsMet(nodes: seq<Node>, e: Edge) {
    e.source != "" && e.target != "" && Batches.Carried(nodes, e.source) && Batches.Carried(nodes, e.target)
  }

  lemma {:induction false} WithIdsMember(nodes: seq<Node>, id: string)
    ensures id in Batches.IdsOf(WithIds(nodes)) <==> id != "" && Batches.Carried(nodes, id)
  {
    hide Batches.IdsOf, Batches.Carried;
    if nodes == [] {
      NoIds(id);
    } else {
      var init, n := nodes[..|nodes| - 1], nodes[|nodes| - 1];
      WithIdsMember(init, id);
      CarriedSnoc(init, n, id);
      assert nodes == init + [n];
      if n.id != "" { Batches.IdsSnoc(WithIds(init), n); } else { assert WithIds(init) + [] == WithIds(init); }
    }
  }

  lemma NoIds(id: string)
    ensures id !in Batches.IdsOf([]) && !Batches.Carried([], id)
  {
  }

  lemma CarriedSnoc(init: seq<Node>, n: Node, id: string)
    ensures Batches.Carried(init + [n], id) <==> Batches.Carried(init, id) || n.id == id
  {
    var nodes := init + [n];
    if Batches.Carried(init, id) { var i :| 0 <= i < |init| && init[i].id == id; assert nodes[i].id == id; }
    assert nodes[|init|] == n;
  }

  /** An edge is in the merged graph exactly if it is the first heaviest of its endpoints
      and kind and both endpoints went in, and among the dropped edges exactly if it is
      and they did not. */
  lemma MergedEdgesExactly(graphs: seq<Graph>, e: Edge)
    ensures var m, es, nodes := Merge(graphs), EdgesOf(graphs), NodesOf(graphs);
      && (e in m.graph.edges <==> EndsMet(nodes, e) && exists i :: FirstHeaviest(es, i) && es[i] == e)
      && (e in m.dropped <==> !EndsMet(nodes, e) && exists i :: FirstHeaviest(es, i) && es[i] == e)
  {
    hide FirstHeaviest, Champion, EndsMet, Merge, Batches.IdsOf;
    var m := Merge(graphs);
    MergeChampion(graphs, Identity(e));
    MergeDistinct(graphs);
    ChampionExactly(EdgesOf(graphs), e);
    MemberIsChampion(m.graph.edges, e);
    MemberIsChampion(m.dropped, e);
    EndsAreKnown(graphs, e);
  }

  lemma MemberIsChampion(es: seq<Edge>, e: Edge)
    requires DistinctEdges(es)
    ensures e in es <==> Champion(es, Identity(e)) == Some(e)
  {
    if e in es {
      var i :| 0 <= i < |es| && es[i] == e;
      ChampionAt(es, i);
    }
    if Champion(es, Identity(e)) == Some(e) { var i := ChampionIndex(es, Identity(e)); }
  }

  lemma EndsAreKnown(graphs: seq<Graph>, e: Edge)
    ensures KnownKey(Batches.IdsOf(Merge(graphs).graph.nodes), Identity(e)) <==> EndsMet(NodesOf(graphs), e)
  {
    hide Batches.IdsOf, Batches.Carried;
    var nodes := NodesOf(graphs);
    Batches.DedupNodesIds(WithIds(nodes));
    WithIdsMember(nodes, e.source);
    WithIdsMember(nodes, e.target);
  }

  /** The node is the last with its id. */
  ghost predicate LastNode(nodes: seq<Node>, n: Node) {
    exists k :: Batches.LastCarrier(nodes, n.id, k) && nodes[k] == n
  }

  /** A node is in the merged graph exactly if it has an id and no node after it has the
      same one. */
  lemma MergedNodesExactly(graphs: seq<Graph>, n: Node)
    ensures n in Merge(graphs).graph.nodes <==> n.id != "" && LastNode(NodesOf(graphs), n)
  {
    hide LastNode, Batches.DedupNodes;
    var nodes := NodesOf(graphs);
    WithIdsNonEmpty(nodes);
    DedupExactly(WithIds(nodes), n);
    if n.id != "" { LastAmongIds(nodes, n); } else { NotBlank(WithIds(nodes), n); }
  }

  lemma NotBlank(nodes: seq<Node>, n: Node)
    requires n.id == "" && forall i :: 0 <= i < |nodes| ==> nodes[i].id != ""
    ensures !LastNode(nodes, n)
  {
  }

  lemma DedupExactly(nodes: seq<Node>, n: Node)
    ensures n in Batches.DedupNodes(nodes) <==> LastNode(nodes, n)
  {
    hide Batches.DedupNodes;
    if n in Batches.DedupNodes(nodes) { var k := MergeExactly.DedupNodeIsLast(nodes, n); }
    if LastNode(nodes, n) {
      var k :| Batches.LastCarrier(nodes, n.id, k) && nodes[k] == n;
      Batches.LastNodeWins(nodes, k);
    }
  }

  /** Leaving out nodes without an id does not change which node is the last with an id. */
  lemma {:induction false} LastAmongIds(nodes: seq<Node>, m: Node)
    requires m.id != ""
    ensures LastNode(nodes, m) <==> LastNode(WithIds(nodes), m)
  {
    hide LastNode;
    if nodes != [] {
      var init, n := nodes[..|nodes| - 1], nodes[|nodes| - 1];
      LastAmongIds(init, m);
      LastSnoc(init, n, m);
      assert nodes == init + [n];
      if n.id != "" { LastSnoc(WithIds(init), n, m); } else { assert WithIds(nodes) == WithIds(init); }
    }
  }

  lemma LastSnoc(init: seq<Node>, n: Node, m: Node)
    ensures LastNode(init + [n], m) <==> if n.id == m.id then m == n else LastNode(init, m)
  {
    var all := init + [n];
    if n.id == m.id {
      assert Batches.LastCarrier(all, m.id, |init|);
      assert forall k :: Batches.LastCarrier(all, m.id, k) ==> k == |init|;
    } else {
      Batches.CarriersAgree(init, n, m.id);
      assert forall k :: Batches.LastCarrier(all, m.id, k) ==> all[k] == init[k];
    }
  }

  // ---------------------------------------------------------------- order

  lemma KeysStay(dict: seq<Edge>, e: Edge)
    ensures |dict| <= |Put(dict, e)| <= |dict| + 1
    ensures forall i :: 0 <= i < |dict| ==> SameEnds(Put(dict, e)[i], dict[i])
    ensures |Put(dict, e)| > |dict| ==>
      Put(dict, e)[|dict|] == e && forall i :: 0 <= i < |dict| ==> !SameEnds(dict[i], e)
  {
  }

  lemma {:induction false} EndsKept(es: seq<Edge>, q: nat) returns (k: nat)
    requires q < |es|
    ensures k < |Dedup(es)| && SameEnds(Dedup(es)[k], es[q])
  {
    DedupChampion(es, Identity(es[q]));
    ChampionNone(es, Identity(es[q]));
    ChampionNone(Dedup(es), Identity(es[q]));
    var i :| 0 <= i < |Dedup(es)| && Identity(Dedup(es)[i]) == Identity(es[q]);
    k := i;
  }

  /** Edges stand in the order in which their endpoints and kind are first met. */
  lemma {:induction false} DedupInOrder(es: seq<Edge>, a: nat, b: nat, q: nat) returns (p: nat)
    requires a < b < |Dedup(es)| && q < |es| && SameEnds(es[q], Dedup(es)[b])
    ensures p < q && SameEnds(es[p], Dedup(es)[a])
  {
    hide Put, Dedup, SameEnds;
    var init, e := es[..|es| - 1], es[|es| - 1];
    var before := Dedup(init);
    DedupUnfolds(es);
    KeysStay(before, e);
    SameEndsIs();
    if b < |before| && q < |init| {
      p := DedupInOrder(init, a, b, q);
    } else {
      MetBefore(es, b, q);
      DedupMember(init, before[a]);
      var i :| 0 <= i < |init| && init[i] == before[a];
      p := i;
    }
  }

  lemma DedupUnfolds(es: seq<Edge>)
    requires es != []
    ensures Dedup(es) == Put(Dedup(es[..|es| - 1]), es[|es| - 1])
  {
  }

  lemma SameEndsIs()
    ensures forall e, f, g :: SameEnds(e, f) && SameEnds(f, g) ==> SameEnds(e, g)
    ensures forall e, f :: SameEnds(e, f) ==> SameEnds(f, e)
    ensures forall e :: SameEnds(e, e)
  {
  }

  /** A new place is for endpoints and a kind that were not met before. */
  lemma MetBefore(es: seq<Edge>, b: nat, q: nat)
    requires es != [] && b < |Dedup(es)| && q < |es| && SameEnds(es[q], Dedup(es)[b])
    ensures b >= |Dedup(es[..|es| - 1])| ==> q == |es| - 1
    ensures b <= |Dedup(es[..|es| - 1])|
  {
    hide Put, Dedup, SameEnds;
    var init := es[..|es| - 1];
    DedupUnfolds(es);
    KeysStay(Dedup(init), es[|es| - 1]);
    SameEndsIs();
    if q < |init| { var k := EndsKept(init, q); }
  }

  lemma {:induction false} SelectOrigin(es: seq<Edge>, ids: set<string>, known: bool, a: nat, b: nat) returns (i: nat, j: nat)
    requires a < b < |Select(es, ids, known)|
    ensures i < j < |es| && es[i] == Select(es, ids, known)[a] && es[j] == Select(es, ids, known)[b]
  {
    hide Known;
    var init := es[..|es| - 1];
    if b < |Select(init, ids, known)| {
      i, j := SelectOrigin(init, ids, known, a, b);
    } else {
      SelectMember(init, ids, known, Select(init, ids, known)[a]);
      var k :| 0 <= k < |init| && init[k] == Select(init, ids, known)[a];
      i, j := k, |init|;
    }
  }

  /** The merged edges stand in that order too. */
  lemma MergedEdgesInOrder(graphs: seq<Graph>, a: nat, b: nat, q: nat) returns (p: nat)
    requires a < b < |Merge(graphs).graph.edges| && q < |EdgesOf(graphs)|
    requires SameEnds(EdgesOf(graphs)[q], Merge(graphs).graph.edges[b])
    ensures p < q && SameEnds(EdgesOf(graphs)[p], Merge(graphs).graph.edges[a])
  {
    hide Dedup, Select, SameEnds, Batches.DedupNodes, Batches.IdsOf;
    var i, j := SelectOrigin(Dedup(EdgesOf(graphs)), Batches.IdsOf(Batches.DedupNodes(WithIds(NodesOf(graphs)))), true, a, b);
    p := DedupInOrder(EdgesOf(graphs), i, j, q);
  }
}
