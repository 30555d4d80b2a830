/** Merging batches: ids normalized, edges redirected, duplicates removed. */
module MergeBatch {
  import opened TestPaths
  import opened LinkTests
  import opened Linking
  import opened NodeIds
  import Linker
  import opened Wrappers

  // ------------------------------------------------------------ renaming

  /** The nodes that have an id, each under its normalized id. */
  function Renamed(nodes: seq<Node>): seq<Node> {
    if nodes == [] then []
    else
      var n := nodes[|nodes| - 1];
      Renamed(nodes[..|nodes| - 1]) + if n.id == "" then [] else [n.(id := Normalize(n.id, n))]
  }

  /** Original ids that changed, each with the id its last node got. */
  function IdMap(nodes: seq<Node>): map<string, string> {
    if nodes == [] then map[]
    else
      var n := nodes[|nodes| - 1];
      var before := IdMap(nodes[..|nodes| - 1]);
      if n.id == "" || Normalize(n.id, n) == n.id then before else before[n.id := Normalize(n.id, n)]
  }

  function Target(ids: map<string, string>, id: string): string {
    if id in ids then ids[id] else id
  }

  function Redirect(ids: map<string, string>, e: Edge): Edge {
    e.(source := Target(ids, e.source), target := Target(ids, e.target))
  }

  function RedirectAll(ids: map<string, string>, es: seq<Edge>): (out: seq<Edge>)
    ensures |out| == |es|
    ensures forall i :: 0 <= i < |es| ==> out[i] == Redirect(ids, es[i])
  {
    seq(|es|, i requires 0 <= i < |es| => Redirect(ids, es[i]))
  }

  // ------------------------------------------------------- dictionaries

  function IndexOf(nodes: seq<Node>, id: string): (k: Option<nat>)
    ensures k.Some? ==> k.value < |nodes| && nodes[k.value].id == id
    ensures k.None? ==> forall i :: 0 <= i < |nodes| ==> nodes[i].id != id
  {
    if nodes == [] then None
    else if nodes[|nodes| - 1].id == id then Some(|nodes| - 1)
    else IndexOf(nodes[..|nodes| - 1], id)
  }

  /** A dictionary keyed by id, as the list of its values in insertion order:
      a new value for a known key takes the old one's place. */
  function PutNode(dict: seq<Node>, n: Node): seq<Node> {
    match IndexOf(dict, n.id)
    case Some(k) => dict[k := n]
    case None => dict + [n]
  }

  function DedupNodes(nodes: seq<Node>): seq<Node> {
    if nodes == [] then [] else PutNode(DedupNodes(nodes[..|nodes| - 1]), nodes[|nodes| - 1])
  }

  datatype Key = Key(source: string, target: string, kind: string, direction: string)

  function NormalizeDirection(direction: string): string {
    var lower := Lower(direction);
    var candidate := if lower == "both" || lower == "mutual" then "bidirectional" else lower;
    if candidate == "backward" || candidate == "bidirectional" then candidate else "forward"
  }

  function KeyOf(e: Edge): Key {
    Key(e.source, e.target, e.kind, e.direction)
  }

  function Directed(e: Edge): Edge { e.(direction := NormalizeDirection(e.direction)) }

  function IndexOfKey(es: seq<Edge>, key: Key): (k: Option<nat>)
    ensures k.Some? ==> k.value < |es| && KeyOf(es[k.value]) == key
    ensures k.None? ==> forall i :: 0 <= i < |es| ==> KeyOf(es[i]) != key
  {
    if es == [] then None
    else if KeyOf(es[|es| - 1]) == key then Some(|es| - 1)
    else IndexOfKey(es[..|es| - 1], key)
  }

  /** Higher weight wins a key; on equal weight the earlier edge stays. */
  function PutEdge(dict: seq<Edge>, e: Edge): seq<Edge> {
    match IndexOfKey(dict, KeyOf(e))
    case Some(k) => if e.weight > dict[k].weight then dict[k := e] else dict
    case None => dict + [e]
  }

  /** Step 6: edges with both endpoints known, direction normalized, one per key. */
  function DedupEdges(es: seq<Edge>, ids: set<string>): seq<Edge> {
    if es == [] then []
    else
      var e := es[|es| - 1];
      var before := DedupEdges(es[..|es| - 1], ids);
      if e.source in ids && e.target in ids then PutEdge(before, Directed(e)) else before
  }

  // ------------------------------------------------------------ the merge

  datatype Merged = Merged(nodes: seq<Node>, edges: seq<Edge>)

  ghost function IdsOf(nodes: seq<Node>): set<string> {
    set i | 0 <= i < |nodes| :: nodes[i].id
  }

  ghost function Merge(nodes: seq<Node>, edges: seq<Edge>): Merged {
    var dict := DedupNodes(Renamed(nodes));
    var linked := Link(dict, RedirectAll(IdMap(nodes), edges));
    Merged(linked.nodes, DedupEdges(linked.edges, IdsOf(dict)))
  }

  // -------------------------------------------------- nodes: what survives

  lemma {:induction false} DedupNodesIds(nodes: seq<Node>)
    ensures DistinctIds(DedupNodes(nodes))
    ensures IdsOf(DedupNodes(nodes)) == IdsOf(nodes)
  {
    hide PutNode, IdsOf;
    if nodes != [] {
      var init, n := nodes[..|nodes| - 1], nodes[|nodes| - 1];
      DedupNodesIds(init);
      PutNodeIds(DedupNodes(init), n);
      IdsSnoc(init, n);
      assert nodes == init + [n];
    }
  }

  lemma IdsSnoc(nodes: seq<Node>, n: Node)
    ensures IdsOf(nodes + [n]) == IdsOf(nodes) + {n.id}
  {
    var all := nodes + [n];
    forall id ensures id in IdsOf(all) <==> id in IdsOf(nodes) + {n.id} {
      if id in IdsOf(nodes) {
        var i :| 0 <= i < |nodes| && nodes[i].id == id;
        assert all[i].id == id;
      }
      assert all[|nodes|] == n;
    }
  }

  lemma PutNodeIds(dict: seq<Node>, n: Node)
    requires DistinctIds(dict)
    ensures DistinctIds(PutNode(dict, n)) && IdsOf(PutNode(dict, n)) == IdsOf(dict) + {n.id}
  {
    match IndexOf(dict, n.id)
    case None => IdsSnoc(dict, n);
    case Some(k) =>
      var put := PutNode(dict, n);
      forall id ensures id in IdsOf(put) <==> id in IdsOf(dict) {
        if id in IdsOf(dict) {
          var i :| 0 <= i < |dict| && dict[i].id == id;
          assert put[i].id == id;
        }
      }
      assert n.id in IdsOf(dict);
  }

  /** Later nodes win: under each id stands the last node that has it. */
  lemma {:induction false} LastNodeWins(nodes: seq<Node>, k: nat)
    requires k < |nodes| && forall j :: k < j < |nodes| ==> nodes[j].id != nodes[k].id
    ensures nodes[k] in DedupNodes(nodes)
  {
    var init, n := nodes[..|nodes| - 1], nodes[|nodes| - 1];
    var dict := DedupNodes(init);
    var put := PutNode(dict, n);
    if k == |nodes| - 1 {
      assert put[match IndexOf(dict, n.id) case Some(i) => i case None => |dict|] == n;
    } else {
      assert init[k] == nodes[k];
      LastNodeWins(init, k);
      var i :| 0 <= i < |dict| && dict[i] == nodes[k];
      assert n.id != nodes[k].id;
      assert put[i] == nodes[k];
    }
  }

  /** The id an edge endpoint is redirected to is the id of a merged node. */
  lemma {:induction false} EndpointFollows(nodes: seq<Node>, i: nat)
    requires i < |nodes| && nodes[i].id != ""
    ensures Target(IdMap(nodes), nodes[i].id) in IdsOf(Renamed(nodes))
  {
    hide Normalize, IdsOf;
    var init, n := nodes[..|nodes| - 1], nodes[|nodes| - 1];
    var id := nodes[i].id;
    var before := Renamed(init);
    if n.id == "" {
      assert Renamed(nodes) == before + [] == before;
    } else {
      IdsSnoc(before, n.(id := Normalize(n.id, n)));
    }
    if n.id == id {
      if Normalize(id, n) == id && id in IdMap(init) {
        MappedChanged(init, id, n);
        assert false;
      }
    } else {
      assert init[i] == nodes[i];
      EndpointFollows(init, i);
    }
  }

  /** A mapped id is one that normalization changes, for every node. */
  lemma {:induction false} MappedChanged(nodes: seq<Node>, id: string, n: Node)
    requires id in IdMap(nodes)
    ensures Normalize(id, n) != id
  {
    var last := nodes[|nodes| - 1];
    if last.id == id && id != "" && Normalize(id, last) != id {
      if Normalize(id, n) == id { NormalForAll(id, n, last); }
    } else {
      MappedChanged(nodes[..|nodes| - 1], id, n);
    }
  }

  /** Node `i` is the last that carries the id. */
  ghost predicate LastCarrier(nodes: seq<Node>, id: string, i: int) {
    0 <= i < |nodes| && nodes[i].id == id && forall j :: i < j < |nodes| ==> nodes[j].id != id
  }

  ghost predicate Carried(nodes: seq<Node>, id: string) {
    exists i :: 0 <= i < |nodes| && nodes[i].id == id
  }

  /** What an endpoint that reads `id` reads in the end: the normalized id of the last
      input node that carries it, and itself if no node does. */
  ghost predicate FollowsTo(nodes: seq<Node>, id: string, final: string) {
    if id != "" && Carried(nodes, id) then exists i :: LastCarrier(nodes, id, i) && final == Normalize(id, nodes[i])
    else final == id
  }

  lemma {:induction false} TargetFollows(nodes: seq<Node>, id: string)
    ensures FollowsTo(nodes, id, Target(IdMap(nodes), id))
  {
    hide Normalize, Carried, LastCarrier;
    if nodes == [] {
      assert !Carried(nodes, id) by { NobodyCarries(id); }
    } else {
      var init, k := nodes[..|nodes| - 1], |nodes| - 1;
      var n := nodes[k];
      TargetFollows(init, id);
      if id == "" {
        BlankNotMapped(nodes);
      } else if n.id == id {
        assert LastCarrier(nodes, id, k) && Carried(nodes, id) by { LastIsLast(nodes); }
        if Normalize(id, n) == id && id in IdMap(init) {
          MappedChanged(init, id, n);
          assert false;
        }
      } else {
        CarriersAgree(init, n, id);
        assert nodes == init + [n];
      }
    }
  }

  lemma NobodyCarries(id: string)
    ensures !Carried([], id)
  {
  }

  lemma LastIsLast(nodes: seq<Node>)
    requires nodes != []
    ensures LastCarrier(nodes, nodes[|nodes| - 1].id, |nodes| - 1) && Carried(nodes, nodes[|nodes| - 1].id)
  {
  }

  /** A node with another id does not change who carries this one. */
  lemma CarriersAgree(init: seq<Node>, n: Node, id: string)
    requires n.id != id
    ensures Carried(init, id) <==> Carried(init + [n], id)
    ensures forall i :: LastCarrier(init, id, i) <==> LastCarrier(init + [n], id, i)
    ensures forall i :: LastCarrier(init, id, i) ==> (init + [n])[i] == init[i]
  {
    var nodes := init + [n];
    if Carried(nodes, id) { var i :| 0 <= i < |nodes| && nodes[i].id == id; assert init[i].id == id; }
    if Carried(init, id) { var i :| 0 <= i < |init| && init[i].id == id; assert nodes[i].id == id; }
    forall i ensures LastCarrier(init, id, i) <==> LastCarrier(nodes, id, i) {
      assert forall j :: 0 <= j < |init| ==> nodes[j] == init[j];
      if LastCarrier(nodes, id, i) {
        assert forall j :: i < j < |init| ==> nodes[j].id != id;
      }
    }
  }

  lemma {:induction false} BlankNotMapped(nodes: seq<Node>)
    ensures "" !in IdMap(nodes)
  {
    if nodes != [] { BlankNotMapped(nodes[..|nodes| - 1]); }
  }

  /** `f` is the input edge `e` after the merge: its endpoints follow the nodes, its
      direction is one of three, and everything else is as it was. */
  ghost predicate BecomesEdge(nodes: seq<Node>, e: Edge, f: Edge) {
    && FollowsTo(nodes, e.source, f.source) && FollowsTo(nodes, e.target, f.target)
    && f.kind == e.kind && f.direction == NormalizeDirection(e.direction)
    && f.weight == e.weight && f.description == e.description && f.rest == e.rest
  }

  lemma RedirectedBecomes(nodes: seq<Node>, e: Edge)
    ensures BecomesEdge(nodes, e, Directed(Redirect(IdMap(nodes), e)))
  {
    hide NormalizeDirection, FollowsTo;
    TargetFollows(nodes, e.source);
    TargetFollows(nodes, e.target);
  }

  // -------------------------------------------------- edges: what survives

  ghost predicate DistinctEdgeKeys(es: seq<Edge>) {
    forall i, j :: 0 <= i < j < |es| ==> KeyOf(es[i]) != KeyOf(es[j])
  }

  /** One step of the edge dictionary keeps keys apart and never lowers a weight. */
  lemma PutEdgeKeeps(dict: seq<Edge>, e: Edge)
    requires DistinctEdgeKeys(dict)
    ensures DistinctEdgeKeys(PutEdge(dict, e))
    ensures HasAtLeast(PutEdge(dict, e), KeyOf(e), e.weight)
    ensures forall key, w :: HasAtLeast(dict, key, w) ==> HasAtLeast(PutEdge(dict, e), key, w)
    ensures forall f :: f in PutEdge(dict, e) ==> f in dict || f == e
  {
    var put := PutEdge(dict, e);
    var k := IndexOfKey(dict, KeyOf(e));
    var at := if k.Some? then k.value else |dict|;
    assert KeyOf(put[at]) == KeyOf(e) && put[at].weight >= e.weight;
    forall key, w | HasAtLeast(dict, key, w) ensures HasAtLeast(put, key, w) {
      var i :| 0 <= i < |dict| && KeyOf(dict[i]) == key && dict[i].weight >= w;
      assert KeyOf(put[i]) == key && put[i].weight >= w;
    }
  }

  ghost predicate HasAtLeast(es: seq<Edge>, key: Key, w: real) {
    exists i :: 0 <= i < |es| && KeyOf(es[i]) == key && es[i].weight >= w
  }

  /** Every edge with known endpoints leaves an edge with its key and at least its
      weight; keys are distinct; nothing is invented; nothing dangles. */
  lemma {:induction false} DedupEdgesSound(es: seq<Edge>, ids: set<string>)
    ensures DistinctEdgeKeys(DedupEdges(es, ids))
    ensures forall i :: 0 <= i < |es| && es[i].source in ids && es[i].target in ids ==>
      HasAtLeast(DedupEdges(es, ids), KeyOf(Directed(es[i])), es[i].weight)
    ensures forall f :: f in DedupEdges(es, ids) ==>
      f.source in ids && f.target in ids && exists i :: 0 <= i < |es| && f == Directed(es[i])
  {
    hide PutEdge, KeyOf, HasAtLeast, NormalizeDirection;
    if es != [] {
      var init, e := es[..|es| - 1], es[|es| - 1];
      DedupEdgesSound(init, ids);
      var before := DedupEdges(init, ids);
      PutEdgeKeeps(before, Directed(e));
      forall i | 0 <= i < |es| && es[i].source in ids && es[i].target in ids
        ensures HasAtLeast(DedupEdges(es, ids), KeyOf(Directed(es[i])), es[i].weight)
      {
        if i < |init| {
          assert es[i] == init[i];
          assert HasAtLeast(before, KeyOf(Directed(es[i])), es[i].weight);
        }
      }
      forall f | f in DedupEdges(es, ids)
        ensures f.source in ids && f.target in ids && exists i :: 0 <= i < |es| && f == Directed(es[i])
      {
        if f in before {
          var i :| 0 <= i < |init| && f == Directed(init[i]);
          assert es[i] == init[i];
        } else {
          assert f == Directed(es[|es| - 1]);
        }
      }
    }
  }

  /** The surviving weight of a key is the weight of one of its edges, so with
      `HasAtLeast` for all of them it is the maximum. */
  lemma SurvivingWeightIsMaximal(es: seq<Edge>, ids: set<string>, f: Edge, i: nat)
    requires f in DedupEdges(es, ids) && i < |es| && es[i].source in ids && es[i].target in ids && KeyOf(Directed(es[i])) == KeyOf(f)
    ensures es[i].weight <= f.weight
  {
    var out := DedupEdges(es, ids);
    DedupEdgesSound(es, ids);
    var j :| 0 <= j < |out| && KeyOf(out[j]) == KeyOf(Directed(es[i])) && out[j].weight >= es[i].weight;
    var k :| 0 <= k < |out| && out[k] == f;
    assert j == k;
  }

  // --------------------------------------------------------- main theorems

  lemma {:induction false} OthersMember(es: seq<Edge>, e: Edge)
    ensures e in Others(es) <==> e in es && !TestedBy(e)
  {
    if es != [] {
      var init := es[..|es| - 1];
      OthersMember(init, e);
      assert es == init + [es[|es| - 1]];
    }
  }

  lemma KeptUnderKey(nodes: seq<Node>, edges: seq<Edge>, e: Edge, s: nat, t: nat)
    requires e in edges && !TestedBy(e)
    requires s < |nodes| && nodes[s].id == e.source != ""
    requires t < |nodes| && nodes[t].id == e.target != ""
    ensures HasAtLeast(Merge(nodes, edges).edges, KeyOf(Directed(Redirect(IdMap(nodes), e))), e.weight)
  {
    var ids, redirected := IdMap(nodes), RedirectAll(IdMap(nodes), edges);
    var dict := DedupNodes(Renamed(nodes));
    var r := Redirect(ids, e);
    var k :| 0 <= k < |edges| && edges[k] == e;
    assert redirected[k] == r;
    DedupNodesIds(Renamed(nodes));
    EndpointFollows(nodes, s);
    EndpointFollows(nodes, t);
    var linked := Link(dict, redirected);
    LinkReport(dict, redirected);
    OthersMember(redirected, r);
    OthersMember(linked.edges, r);
    var j :| 0 <= j < |linked.edges| && linked.edges[j] == r;
    DedupEdgesSound(linked.edges, IdsOf(dict));
    assert HasAtLeast(DedupEdges(linked.edges, IdsOf(dict)), KeyOf(Directed(linked.edges[j])), linked.edges[j].weight);
  }

  /** No edge is lost to renaming: an edge of another kind than `tested_by` whose endpoints
      are ids of input nodes has an output edge from where its source went to where its
      target went, of its kind and direction, and of at least its weight. */
  lemma NoEdgeLost(nodes: seq<Node>, edges: seq<Edge>, e: Edge) returns (f: Edge)
    requires e in edges && !TestedBy(e)
    requires e.source != "" && Carried(nodes, e.source) && e.target != "" && Carried(nodes, e.target)
    ensures f in Merge(nodes, edges).edges
    ensures FollowsTo(nodes, e.source, f.source) && FollowsTo(nodes, e.target, f.target)
    ensures f.kind == e.kind && f.direction == NormalizeDirection(e.direction) && f.weight >= e.weight
  {
    hide Merge, FollowsTo, NormalizeDirection;
    var s :| 0 <= s < |nodes| && nodes[s].id == e.source;
    var t :| 0 <= t < |nodes| && nodes[t].id == e.target;
    KeptUnderKey(nodes, edges, e, s, t);
    var out, r := Merge(nodes, edges).edges, Directed(Redirect(IdMap(nodes), e));
    var j :| 0 <= j < |out| && KeyOf(out[j]) == KeyOf(r) && out[j].weight >= e.weight;
    f := out[j];
    RedirectedBecomes(nodes, e);
  }

  lemma TaggedIds(nodes: seq<Node>, sources: set<string>)
    requires DistinctIds(nodes)
    ensures DistinctIds(TagAll(nodes, sources)) && IdsOf(TagAll(nodes, sources)) == IdsOf(nodes)
  {
    var tagged := TagAll(nodes, sources);
    forall i | 0 <= i < |nodes| ensures tagged[i].id == nodes[i].id {}
    forall id ensures id in IdsOf(tagged) <==> id in IdsOf(nodes) {
      if id in IdsOf(nodes) {
        var i :| 0 <= i < |nodes| && nodes[i].id == id;
        assert tagged[i].id == id;
      }
    }
  }

  /** Node ids are distinct, edge keys are distinct, and no edge dangles. */
  lemma MergedIsWellFormed(nodes: seq<Node>, edges: seq<Edge>)
    ensures var m := Merge(nodes, edges);
      && DistinctIds(m.nodes) && DistinctEdgeKeys(m.edges)
      && IdsOf(m.nodes) == IdsOf(Renamed(nodes))
      && (forall f :: f in m.edges ==> f.source in IdsOf(m.nodes) && f.target in IdsOf(m.nodes))
  {
    hide IdsOf, DedupEdges, DedupNodes, Renamed, IdMap, RedirectAll, LinkedEdges, DistinctEdgeKeys, DistinctIds, TagAll, Kept;
    var dict := DedupNodes(Renamed(nodes));
    var linked := Link(dict, RedirectAll(IdMap(nodes), edges));
    DedupNodesIds(Renamed(nodes));
    DedupEdgesSound(linked.edges, IdsOf(dict));
    TaggedIds(dict, Prods(Pairs(linked.edges)));
  }

  /** Nothing is invented: an output edge of another kind is an input edge whose endpoints
      have followed the nodes, with all it carried. */
  lemma NoEdgeInvented(nodes: seq<Node>, edges: seq<Edge>, f: Edge) returns (e: Edge)
    requires f in Merge(nodes, edges).edges && !TestedBy(f)
    ensures e in edges && BecomesEdge(nodes, e, f)
  {
    hide BecomesEdge, NormalizeDirection, IdMap, LinkedEdges;
    var redirected := RedirectAll(IdMap(nodes), edges);
    var dict := DedupNodes(Renamed(nodes));
    var linked := Link(dict, redirected);
    DedupNodesIds(Renamed(nodes));
    DedupEdgesSound(linked.edges, IdsOf(dict));
    var i :| 0 <= i < |linked.edges| && f == Directed(linked.edges[i]);
    LinkReport(dict, redirected);
    OthersMember(linked.edges, linked.edges[i]);
    OthersMember(redirected, linked.edges[i]);
    var k :| 0 <= k < |redirected| && redirected[k] == linked.edges[i];
    e := edges[k];
    RedirectedBecomes(nodes, e);
  }

  // --------------------------------------------------------------- the code

  datatype Batch = Batch(nodes: seq<Node>, edges: seq<Edge>)

  function AllNodes(batches: seq<Batch>): seq<Node> {
    if batches == [] then [] else AllNodes(batches[..|batches| - 1]) + batches[|batches| - 1].nodes
  }

  function AllEdges(batches: seq<Batch>): seq<Edge> {
    if batches == [] then [] else AllEdges(batches[..|batches| - 1]) + batches[|batches| - 1].edges
  }

  /** `merge_and_normalize`, without its report. */
  method MergeAndNormalize(batches: seq<Batch>) returns (nodes: seq<Node>, edges: seq<Edge>)
    ensures Merged(nodes, edges) == Merge(AllNodes(batches), AllEdges(batches))
    ensures DistinctIds(nodes) && DistinctEdgeKeys(edges)
  {
    hide Link, DedupEdges, DedupNodes, Renamed, IdMap, IdsOf, DistinctIds, DistinctEdgeKeys;
    var allNodes, allEdges := Combine(batches);
    var withIds, ids := NormalizeIds(allNodes);
    var redirected := RewriteEdges(allEdges, ids);
    var dict := Deduplicate(withIds);
    DedupNodesIds(withIds);
    var graph := new Linker.Graph(dict, redirected);
    var added, dropped, tagged, swapped := graph.LinkTests();
    nodes := graph.nodes;
    edges := DropDangling(graph.edges, dict);
    MergedIsWellFormed(allNodes, allEdges);
  }

  method Combine(batches: seq<Batch>) returns (nodes: seq<Node>, edges: seq<Edge>)
    ensures nodes == AllNodes(batches) && edges == AllEdges(batches)
  {
    nodes, edges := [], [];
    for i := 0 to |batches|
      invariant nodes == AllNodes(batches[..i]) && edges == AllEdges(batches[..i])
    {
      assert batches[..i + 1][..i] == batches[..i];
      nodes, edges := nodes + batches[i].nodes, edges + batches[i].edges;
    }
    assert batches[..|batches|] == batches;
  }

  method NormalizeIds(nodes: seq<Node>) returns (withIds: seq<Node>, ids: map<string, string>)
    ensures withIds == Renamed(nodes) && ids == IdMap(nodes)
  {
    hide Normalize;
    withIds, ids := [], map[];
    for i := 0 to |nodes|
      invariant withIds == Renamed(nodes[..i]) && ids == IdMap(nodes[..i])
    {
      var node := nodes[i];
      assert nodes[..i + 1][..i] == nodes[..i];
      if node.id == "" {
        assert withIds + [] == withIds;
        continue;
      }
      var corrected := Normalize(node.id, node);
      if corrected != node.id {
        ids := ids[node.id := corrected];
      }
      withIds := withIds + [node.(id := corrected)];
    }
    assert nodes[..|nodes|] == nodes;
  }

  method RewriteEdges(edges: seq<Edge>, ids: map<string, string>) returns (out: seq<Edge>)
    ensures out == RedirectAll(ids, edges)
    ensures |out| == |edges| && forall k :: 0 <= k < |edges| ==>
      && (edges[k].source in ids ==> out[k].source == ids[edges[k].source])
      && (edges[k].source !in ids ==> out[k].source == edges[k].source)
      && (edges[k].target in ids ==> out[k].target == ids[edges[k].target])
      && (edges[k].target !in ids ==> out[k].target == edges[k].target)
      && out[k].(source := edges[k].source, target := edges[k].target) == edges[k]
  {
    out := edges;
    for i := 0 to |edges|
      invariant |out| == |edges|
      invariant forall k :: 0 <= k < i ==> out[k] == Redirect(ids, edges[k])
      invariant forall k :: i <= k < |edges| ==> out[k] == edges[k]
    {
      var edge := out[i];
      var source, target := Target(ids, edge.source), Target(ids, edge.target);
      if source != edge.source || target != edge.target {
        out := out[i := edge.(source := source, target := target)];
      }
    }
    assert out == RedirectAll(ids, edges);
  }

  method Deduplicate(nodes: seq<Node>) returns (dict: seq<Node>)
    ensures dict == DedupNodes(nodes)
  {
    dict := [];
    for i := 0 to |nodes|
      invariant dict == DedupNodes(nodes[..i])
    {
      assert nodes[..i + 1][..i] == nodes[..i];
      dict := PutNode(dict, nodes[i]);
    }
    assert nodes[..|nodes|] == nodes;
  }

  method DropDangling(edges: seq<Edge>, nodes: seq<Node>) returns (out: seq<Edge>)
    ensures out == DedupEdges(edges, IdsOf(nodes))
  {
    hide PutEdge, Directed;
    var ids := set i | 0 <= i < |nodes| :: nodes[i].id;
    out := [];
    for k := 0 to |edges|
      invariant out == DedupEdges(edges[..k], ids)
    {
      assert edges[..k + 1][..k] == edges[..k];
      var edge := edges[k];
      if edge.source !in ids || edge.target !in ids {
        continue;
      }
      out := PutEdge(out, Directed(edge));
    }
    assert edges[..|edges|] == edges;
  }
}
