/** Which input node and which input edge each node and edge of a merged graph is, and
    in what order they stand, said of the input lists themselves. */
module MergeExactly {
  import opened TestPaths
  import opened LinkTests
  import opened Linking
  import opened NodeIds
  import opened MergeBatch
  import opened Wrappers

  // -------------------------------------------------------- directions

  /** ASCII capitals become small letters, and no other character changes. */
  lemma {:induction false} LowerExactly(s: string)
    ensures |Lower(s)| == |s|
    ensures forall k :: 0 <= k < |s| ==>
      Lower(s)[k] as int == if 0x41 <= s[k] as int <= 0x5A then s[k] as int + 0x20 else s[k] as int
  {
    if s != "" { LowerExactly(s[1..]); }
  }

  /** Three directions are left: two words are others' names, and all else is forward. */
  lemma DirectionExactly(direction: string)
    ensures NormalizeDirection(direction) == "backward" <==> Lower(direction) == "backward"
    ensures NormalizeDirection(direction) == "bidirectional" <==> Lower(direction) in {"bidirectional", "both", "mutual"}
    ensures NormalizeDirection(direction) == "forward" <==>
      Lower(direction) !in {"backward", "bidirectional", "both", "mutual"}
  {
  }

  // ------------------------------------------------- one edge for each key

  predicate Usable(es: seq<Edge>, ids: set<string>, i: int) {
    0 <= i < |es| && es[i].source in ids && es[i].target in ids
  }

  /** Edge `i` has known endpoints and, once its direction is normalized, this key. */
  ghost predicate OfKey(es: seq<Edge>, ids: set<string>, key: Key, i: int) {
    Usable(es, ids, i) && KeyOf(Directed(es[i])) == key
  }

  /** Edge `i` is heavier than edge `j`, or as heavy and not later. */
  predicate Beats(es: seq<Edge>, i: int, j: int) {
    0 <= i < |es| && 0 <= j < |es| &&
    (es[j].weight < es[i].weight || (es[j].weight == es[i].weight && i <= j))
  }

  /** Edge `i` is the heaviest of its key, and the first that is so heavy. */
  ghost predicate Champion(es: seq<Edge>, ids: set<string>, key: Key, i: int) {
    OfKey(es, ids, key, i) && forall j :: OfKey(es, ids, key, j) ==> Beats(es, i, j)
  }

  lemma OfKeySnoc(es: seq<Edge>, e: Edge, ids: set<string>, key: Key)
    ensures forall i :: OfKey(es + [e], ids, key, i) <==>
      (OfKey(es, ids, key, i) || (i == |es| && e.source in ids && e.target in ids && KeyOf(Directed(e)) == key))
    ensures forall i :: OfKey(es, ids, key, i) ==> 0 <= i < |es|
  {
    hide KeyOf, Directed;
    forall i | 0 <= i < |es| ensures OfKey(es + [e], ids, key, i) <==> OfKey(es, ids, key, i) {
      assert (es + [e])[i] == es[i];
    }
  }

  lemma DirectedKeeps(e: Edge)
    ensures Directed(e).weight == e.weight && KeyOf(Directed(e)).kind == e.kind
    ensures KeyOf(Directed(e)) == Key(e.source, e.target, e.kind, NormalizeDirection(e.direction))
  {
    hide NormalizeDirection;
  }

  /** What stands under a key is the champion of the key. */
  lemma {:induction false} DedupChampion(es: seq<Edge>, ids: set<string>, f: Edge) returns (i: nat)
    requires f in DedupEdges(es, ids)
    ensures i < |es| && f == Directed(es[i]) && Champion(es, ids, KeyOf(f), i)
  {
    hide KeyOf, Directed, PutEdge, OfKey;
    var init, e := es[..|es| - 1], es[|es| - 1];
    assert es == init + [e];
    var before, key := DedupEdges(init, ids), KeyOf(f);
    OfKeySnoc(init, e, ids, key);
    DedupEdgesSound(init, ids);
    DirectedKeeps(e);
    if f in before {
      i := DedupChampion(init, ids, f);
      DirectedKeeps(es[i]);
      assert forall j :: Beats(init, i, j) ==> Beats(es, i, j);
      if OfKey(es, ids, key, |init|) { StaysUnderKey(before, Directed(e), f); }
    } else {
      i := |init|;
      PutEdgeOrigin(before, Directed(e), f);
      forall j | OfKey(init, ids, key, j) ensures Beats(es, i, j) {
        OfKeyIsKept(init, ids, key, j);
        ReplacedIsLighter(before, f, init[j].weight);
      }
    }
  }

  lemma PutEdgeOrigin(dict: seq<Edge>, e: Edge, f: Edge)
    requires f in PutEdge(dict, e) && f !in dict
    ensures f == e
  {
    hide KeyOf;
  }

  /** An edge that is still there after another of its key was offered is not lighter. */
  lemma StaysUnderKey(dict: seq<Edge>, e: Edge, f: Edge)
    requires DistinctEdgeKeys(dict) && f in dict && f in PutEdge(dict, e) && KeyOf(e) == KeyOf(f)
    ensures e.weight <= f.weight
  {
    hide KeyOf;
    var put, k := PutEdge(dict, e), IndexOfKey(dict, KeyOf(e));
    var j :| 0 <= j < |dict| && dict[j] == f;
    assert k == Some(j);
    var m :| 0 <= m < |put| && put[m] == f;
    assert m != j ==> KeyOf(dict[m]) == KeyOf(f);
  }

  lemma OfKeyIsKept(es: seq<Edge>, ids: set<string>, key: Key, j: int)
    requires OfKey(es, ids, key, j)
    ensures HasAtLeast(DedupEdges(es, ids), key, es[j].weight)
  {
    hide KeyOf, Directed, HasAtLeast;
    DedupEdgesSound(es, ids);
  }

  lemma ReplacedIsLighter(dict: seq<Edge>, e: Edge, w: real)
    requires DistinctEdgeKeys(dict)
    requires HasAtLeast(dict, KeyOf(e), w) && e in PutEdge(dict, e) && e !in dict
    ensures w < e.weight
  {
    hide KeyOf;
    var k := IndexOfKey(dict, KeyOf(e));
    var i :| 0 <= i < |dict| && KeyOf(dict[i]) == KeyOf(e) && dict[i].weight >= w;
    assert k == Some(i);
  }

  /** Keys stand in the order in which they are first met. */
  lemma {:induction false} DedupOrder(es: seq<Edge>, ids: set<string>, a: nat, b: nat, q: int) returns (p: int)
    requires a < b < |DedupEdges(es, ids)| && OfKey(es, ids, KeyOf(DedupEdges(es, ids)[b]), q)
    ensures p < q && OfKey(es, ids, KeyOf(DedupEdges(es, ids)[a]), p)
  {
    hide KeyOf, Directed, OfKey, NormalizeDirection, HasAtLeast;
    var init, e := es[..|es| - 1], es[|es| - 1];
    assert es == init + [e];
    var before, out := DedupEdges(init, ids), DedupEdges(es, ids);
    OfKeySnoc(init, e, ids, KeyOf(out[a]));
    OfKeySnoc(init, e, ids, KeyOf(out[b]));
    DedupEdgesSound(init, ids);
    KeysStay(before, Directed(e));
    if b < |before| && OfKey(init, ids, KeyOf(out[b]), q) {
      p := DedupOrder(init, ids, a, b, q);
    } else {
      if OfKey(init, ids, KeyOf(out[b]), q) {
        OfKeyIsKept(init, ids, KeyOf(out[b]), q);
        KeyIsThere(before, KeyOf(out[b]), init[q].weight);
        assert false;
      }
      assert before[a] in before;
      p := DedupChampion(init, ids, before[a]);
    }
  }

  lemma KeysStay(dict: seq<Edge>, e: Edge)
    ensures |dict| <= |PutEdge(dict, e)| <= |dict| + 1
    ensures forall i :: 0 <= i < |dict| ==> KeyOf(PutEdge(dict, e)[i]) == KeyOf(dict[i])
    ensures |PutEdge(dict, e)| > |dict| ==>
      PutEdge(dict, e)[|dict|] == e && forall i :: 0 <= i < |dict| ==> KeyOf(dict[i]) != KeyOf(e)
  {
    hide KeyOf;
  }

  lemma KeyIsThere(dict: seq<Edge>, key: Key, w: real)
    requires HasAtLeast(dict, key, w)
    ensures exists i :: 0 <= i < |dict| && KeyOf(dict[i]) == key
  {
    hide KeyOf;
  }

  // -------------------------------------------- edges of the merged graph

  /** How many edges of other kinds come before edge `j`: its place among them. */
  function Place(es: seq<Edge>, j: nat): nat
    requires j <= |es|
  {
    |Others(es[..j])|
  }

  lemma {:induction false} OthersAt(es: seq<Edge>, j: nat)
    requires j < |es| && !TestedBy(es[j])
    ensures Place(es, j) < |Others(es)| && Others(es)[Place(es, j)] == es[j]
  {
    var init := es[..|es| - 1];
    if j < |init| {
      OthersAt(init, j);
      assert es[..j] == init[..j];
    }
  }

  lemma {:induction false} OthersOrigin(es: seq<Edge>, k: nat) returns (j: nat)
    requires k < |Others(es)|
    ensures j < |es| && !TestedBy(es[j]) && es[j] == Others(es)[k] && Place(es, j) == k
  {
    var init := es[..|es| - 1];
    if k < |Others(init)| {
      j := OthersOrigin(init, k);
      assert es[..j] == init[..j];
    } else {
      j := |init|;
    }
  }

  lemma PlacesIncrease(es: seq<Edge>, i: nat, j: nat)
    requires i < j < |es| && !TestedBy(es[i]) && !TestedBy(es[j])
    ensures Place(es, i) < Place(es, j)
  {
    OthersAt(es[..j], i);
    assert es[..j][..i] == es[..i];
  }

  lemma FollowsOne(nodes: seq<Node>, id: string, a: string, b: string)
    requires FollowsTo(nodes, id, a) && FollowsTo(nodes, id, b)
    ensures a == b
  {
    hide Normalize;
  }

  /** Edge `e` comes to the endpoints, the kind and the direction of `f`. */
  ghost predicate ComesTo(nodes: seq<Node>, e: Edge, f: Edge) {
    && FollowsTo(nodes, e.source, f.source) && FollowsTo(nodes, e.target, f.target)
    && f.kind == e.kind && f.direction == NormalizeDirection(e.direction)
  }

  lemma ComesToKey(nodes: seq<Node>, e: Edge, f: Edge)
    requires ComesTo(nodes, e, f)
    ensures KeyOf(Directed(Redirect(IdMap(nodes), e))) == KeyOf(f)
  {
    hide FollowsTo, NormalizeDirection;
    var r := Directed(Redirect(IdMap(nodes), e));
    RedirectedBecomes(nodes, e);
    FollowsOne(nodes, e.source, r.source, f.source);
    FollowsOne(nodes, e.target, r.target, f.target);
  }

  lemma SameKind(e: Edge, f: Edge)
    requires KeyOf(Directed(e)) == KeyOf(f)
    ensures TestedBy(e) <==> TestedBy(f)
  {
  }

  lemma EndsKnown(es: seq<Edge>, ids: set<string>, f: Edge, b: nat)
    requires f in DedupEdges(es, ids) && b < |es| && KeyOf(Directed(es[b])) == KeyOf(f)
    ensures OfKey(es, ids, KeyOf(f), b)
  {
    hide NormalizeDirection;
    DedupEdgesSound(es, ids);
    DirectedKeeps(es[b]);
  }

  lemma SameOrder(l: seq<Edge>, r: seq<Edge>, a: nat, b: nat, i: nat, j: nat)
    requires Beats(l, a, b) && i < |r| && j < |r|
    requires !TestedBy(l[a]) && !TestedBy(l[b]) && !TestedBy(r[i]) && !TestedBy(r[j])
    requires Place(l, a) == Place(r, i) && Place(l, b) == Place(r, j) && l[a] == r[i] && l[b] == r[j]
    ensures Beats(r, i, j)
  {
    hide Place;
    if a < b { PlacesIncrease(l, a, b); }
    if j < i { PlacesIncrease(r, j, i); }
  }

  lemma SameWeights(ids: map<string, string>, es: seq<Edge>, r: seq<Edge>, i: nat, j: nat)
    requires r == RedirectAll(ids, es) && Beats(r, i, j)
    ensures Beats(es, i, j)
  {
  }

  /** An output edge of another kind than `tested_by` is, with all it carried, the heaviest
      of the input edges that come to its endpoints, kind and direction, and the first of
      them that is so heavy. */
  lemma SurvivorIsFirstMaximum(nodes: seq<Node>, edges: seq<Edge>, f: Edge) returns (i: nat)
    requires f in Merge(nodes, edges).edges && !TestedBy(f)
    ensures i < |edges| && BecomesEdge(nodes, edges[i], f)
    ensures forall j :: 0 <= j < |edges| && ComesTo(nodes, edges[j], f) ==> Beats(edges, i, j)
  {
    hide BecomesEdge, ComesTo, IdMap, Link, OfKey, KeyOf, DedupEdges, IdsOf, Beats, NormalizeDirection;
    var r := RedirectAll(IdMap(nodes), edges);
    var dict := DedupNodes(Renamed(nodes));
    var l := Link(dict, r).edges;
    assert f in DedupEdges(l, IdsOf(dict));
    DedupNodesIds(Renamed(nodes));
    LinkReport(dict, r);
    var a := DedupChampion(l, IdsOf(dict), f);
    OthersAt(l, a);
    i := OthersOrigin(r, Place(l, a));
    RedirectedBecomes(nodes, edges[i]);
    forall j | 0 <= j < |edges| && ComesTo(nodes, edges[j], f) ensures Beats(edges, i, j) {
      ComesToKey(nodes, edges[j], f);
      assert !TestedBy(r[j]) by { SameKind(Redirect(IdMap(nodes), edges[j]), f); }
      OthersAt(r, j);
      var b := OthersOrigin(l, Place(r, j));
      assert OfKey(l, IdsOf(dict), KeyOf(f), b) by { EndsKnown(l, IdsOf(dict), f, b); }
      SameOrder(l, r, a, b, i, j);
      SameWeights(IdMap(nodes), edges, r, i, j);
    }
  }

  // -------------------------------------------- nodes of the merged graph

  /** How many nodes with an id come before node `j`: its place among them. */
  function NodePlace(nodes: seq<Node>, j: nat): nat
    requires j <= |nodes|
  {
    |Renamed(nodes[..j])|
  }

  lemma {:induction false} RenamedAt(nodes: seq<Node>, j: nat)
    requires j < |nodes| && nodes[j].id != ""
    ensures NodePlace(nodes, j) < |Renamed(nodes)|
    ensures Renamed(nodes)[NodePlace(nodes, j)] == nodes[j].(id := Normalize(nodes[j].id, nodes[j]))
  {
    hide Normalize;
    var init := nodes[..|nodes| - 1];
    if j < |init| {
      RenamedAt(init, j);
      assert nodes[..j] == init[..j];
    }
  }

  lemma {:induction false} RenamedOrigin(nodes: seq<Node>, k: nat) returns (j: nat)
    requires k < |Renamed(nodes)|
    ensures j < |nodes| && nodes[j].id != "" && NodePlace(nodes, j) == k
    ensures Renamed(nodes)[k] == nodes[j].(id := Normalize(nodes[j].id, nodes[j]))
  {
    hide Normalize;
    var init := nodes[..|nodes| - 1];
    if k < |Renamed(init)| {
      j := RenamedOrigin(init, k);
      assert nodes[..j] == init[..j];
    } else {
      j := |init|;
    }
  }

  lemma NodePlacesIncrease(nodes: seq<Node>, i: nat, j: nat)
    requires i < j < |nodes| && nodes[i].id != ""
    ensures NodePlace(nodes, i) < NodePlace(nodes, j)
  {
    RenamedAt(nodes[..j], i);
    assert nodes[..j][..i] == nodes[..i];
  }

  lemma {:induction false} LastOf(nodes: seq<Node>, id: string) returns (k: nat)
    requires Carried(nodes, id)
    ensures LastCarrier(nodes, id, k)
  {
    k := |nodes| - 1;
    if nodes[k].id != id {
      var init := nodes[..k];
      var i :| 0 <= i < |nodes| && nodes[i].id == id;
      assert init[i].id == id;
      k := LastOf(init, id);
    }
  }

  /** A node of the dictionary is the last one with its id. */
  lemma DedupNodeIsLast(nodes: seq<Node>, m: Node) returns (k: nat)
    requires m in DedupNodes(nodes)
    ensures LastCarrier(nodes, m.id, k) && m == nodes[k]
  {
    var dict := DedupNodes(nodes);
    DedupNodesIds(nodes);
    var j :| 0 <= j < |dict| && dict[j] == m;
    assert m.id in IdsOf(dict);
    k := LastOf(nodes, m.id);
    LastNodeWins(nodes, k);
    var i :| 0 <= i < |dict| && dict[i] == nodes[k];
    assert i == j;
  }

  lemma IdMet(nodes: seq<Node>, q: nat)
    requires q < |nodes|
    ensures q < |nodes| - 1 ==> nodes[q].id in IdsOf(nodes[..|nodes| - 1])
  {
    if q < |nodes| - 1 { assert nodes[..|nodes| - 1][q] == nodes[q]; }
  }

  /** Ids stand in the order in which they are first met. */
  lemma {:induction false} DedupNodesOrder(nodes: seq<Node>, a: nat, b: nat, q: nat) returns (p: nat)
    requires a < b < |DedupNodes(nodes)| && q < |nodes| && nodes[q].id == DedupNodes(nodes)[b].id
    ensures p < q && nodes[p].id == DedupNodes(nodes)[a].id
  {
    hide PutNode;
    var init, n := nodes[..|nodes| - 1], nodes[|nodes| - 1];
    var before, out := DedupNodes(init), DedupNodes(nodes);
    IdsStay(before, n);
    if b < |before| && q < |init| {
      p := DedupNodesOrder(init, a, b, q);
    } else {
      IdMet(nodes, q);
      DedupNodesIds(init);
      assert before[a].id in IdsOf(before);
      var i :| 0 <= i < |init| && init[i].id == before[a].id;
      p := i;
    }
  }

  lemma IdsStay(dict: seq<Node>, n: Node)
    ensures |dict| <= |PutNode(dict, n)| <= |dict| + 1
    ensures forall i :: 0 <= i < |dict| ==> PutNode(dict, n)[i].id == dict[i].id
    ensures |PutNode(dict, n)| > |dict| ==>
      PutNode(dict, n)[|dict|] == n && forall i :: 0 <= i < |dict| ==> dict[i].id != n.id
  {
  }

  /** The tag `tested` is there, once more than before only if it was not there; the
      other tags keep their order, and what is no list of tags is replaced. */
  predicate CarriesTag(before: Tags, after: Tags) {
    after.List? &&
    match before
    case Malformed => after.tags == ["tested"]
    case List(tags) => after.tags == if "tested" in tags then tags else tags + ["tested"]
  }

  /** An output node is an input node under its normalized id; only the tags may differ. */
  predicate BecomesNode(n: Node, m: Node) {
    && n.id != "" && m.id == Normalize(n.id, n)
    && m.kind == n.kind && m.name == n.name && m.filePath == n.filePath && m.rest == n.rest
  }

  lemma TagNodeExactly(n: Node)
    ensures CarriesTag(n.tags, TagNode(n).tags) && n.(tags := TagNode(n).tags) == TagNode(n)
  {
  }

  lemma {:induction false} ClassifyKnows(nodes: seq<Node>, id: string)
    requires id in Classify(nodes)
    ensures id in IdsOf(nodes)
  {
    var init, n := nodes[..|nodes| - 1], nodes[|nodes| - 1];
    assert n.id in IdsOf(nodes);
    if id != n.id || !IsFile(n) {
      ClassifyKnows(init, id);
      var i :| 0 <= i < |init| && init[i].id == id;
      assert nodes[i].id == id;
    }
  }

  /** De-duplication and the search for dangling edges leave every pair of the linker. */
  lemma PairsStay(nodes: seq<Node>, es: seq<Edge>)
    requires Clean(Classify(nodes), es)
    ensures Pairs(DedupEdges(es, IdsOf(nodes))) == Pairs(es)
  {
    hide NormalizeDirection, DedupEdges, IdsOf, Classify, IsTest;
    var ids, out := IdsOf(nodes), DedupEdges(es, IdsOf(nodes));
    DedupEdgesSound(es, ids);
    forall p | p in Pairs(es) ensures p in Pairs(out) {
      var i :| 0 <= i < |es| && TestedBy(es[i]) && p == Pair(es[i].source, es[i].target);
      ClassifyKnows(nodes, es[i].source);
      ClassifyKnows(nodes, es[i].target);
      var j :| 0 <= j < |out| && KeyOf(out[j]) == KeyOf(Directed(es[i])) && out[j].weight >= es[i].weight;
      assert TestedBy(out[j]) && p == Pair(out[j].source, out[j].target);
    }
    forall p | p in Pairs(out) ensures p in Pairs(es) {
      var j :| 0 <= j < |out| && TestedBy(out[j]) && p == Pair(out[j].source, out[j].target);
      assert out[j] in out;
      var i :| 0 <= i < |es| && out[j] == Directed(es[i]);
      assert TestedBy(es[i]) && p == Pair(es[i].source, es[i].target);
    }
  }

  /** Each output node is the last input node that is given its id; it is tagged exactly
      if it is the source of a `tested_by` edge of the output. */
  lemma MergedNodeIsLast(nodes: seq<Node>, edges: seq<Edge>, k: nat) returns (i: nat)
    requires k < |Merge(nodes, edges).nodes|
    ensures var m := Merge(nodes, edges).nodes[k];
      && i < |nodes| && BecomesNode(nodes[i], m)
      && (forall j :: i < j < |nodes| && nodes[j].id != "" ==> Normalize(nodes[j].id, nodes[j]) != m.id)
      && (if exists f :: f in Merge(nodes, edges).edges && TestedBy(f) && f.source == m.id
          then CarriesTag(nodes[i].tags, m.tags) else m.tags == nodes[i].tags)
  {
    hide Normalize, DedupEdges, IdMap, RedirectAll, Kept, LinkedEdges, IsTest, DedupNodes, Renamed, Classify;
    var dict, l := DedupNodes(Renamed(nodes)), Link(DedupNodes(Renamed(nodes)), RedirectAll(IdMap(nodes), edges));
    var out, sources := Merge(nodes, edges), Prods(Pairs(l.edges));
    DedupNodesIds(Renamed(nodes));
    assert dict[k] in dict;
    var at := DedupNodeIsLast(Renamed(nodes), dict[k]);
    i := RenamedOrigin(nodes, at);
    TagNodeExactly(dict[k]);
    forall j | i < j < |nodes| && nodes[j].id != "" ensures Normalize(nodes[j].id, nodes[j]) != dict[k].id {
      NodePlacesIncrease(nodes, i, j);
      RenamedAt(nodes, j);
    }
    LinkReport(dict, RedirectAll(IdMap(nodes), edges));
    PairsStay(dict, l.edges);
    SourcesOf(out.edges, dict[k].id);
  }

  lemma SourcesOf(es: seq<Edge>, id: string)
    ensures id in Prods(Pairs(es)) <==> exists f :: f in es && TestedBy(f) && f.source == id
  {
    if id in Prods(Pairs(es)) {
      var p :| p in Pairs(es) && p.prod == id;
      var i :| 0 <= i < |es| && TestedBy(es[i]) && p == Pair(es[i].source, es[i].target);
      assert es[i] in es;
    }
    if f :| f in es && TestedBy(f) && f.source == id {
      var i :| 0 <= i < |es| && es[i] == f;
      assert Pair(es[i].source, es[i].target) in Pairs(es);
    }
  }

  /** Every input node with an id leaves a node under its normalized id. */
  lemma NoNodeLost(nodes: seq<Node>, edges: seq<Edge>, i: nat) returns (k: nat)
    requires i < |nodes| && nodes[i].id != ""
    ensures k < |Merge(nodes, edges).nodes| && Merge(nodes, edges).nodes[k].id == Normalize(nodes[i].id, nodes[i])
  {
    hide Normalize, Merge, Renamed;
    MergedIsWellFormed(nodes, edges);
    RenamedAt(nodes, i);
    assert Renamed(nodes)[NodePlace(nodes, i)].id in IdsOf(Renamed(nodes));
    assert Normalize(nodes[i].id, nodes[i]) in IdsOf(Merge(nodes, edges).nodes);
    k :| 0 <= k < |Merge(nodes, edges).nodes| && Merge(nodes, edges).nodes[k].id == Normalize(nodes[i].id, nodes[i]);
  }

  /** Output nodes stand in the order in which their ids are first given. */
  lemma MergedNodesInOrder(nodes: seq<Node>, edges: seq<Edge>, a: nat, b: nat, q: nat) returns (p: nat)
    requires a < b < |Merge(nodes, edges).nodes| && q < |nodes| && nodes[q].id != ""
    requires Normalize(nodes[q].id, nodes[q]) == Merge(nodes, edges).nodes[b].id
    ensures p < q && nodes[p].id != "" && Normalize(nodes[p].id, nodes[p]) == Merge(nodes, edges).nodes[a].id
  {
    hide Normalize, DedupEdges, IdMap, RedirectAll, Kept, LinkedEdges, DedupNodes, Renamed;
    var dict, m := DedupNodes(Renamed(nodes)), Merge(nodes, edges).nodes;
    assert m[a].id == dict[a].id && m[b].id == dict[b].id;
    RenamedAt(nodes, q);
    var at := DedupNodesOrder(Renamed(nodes), a, b, NodePlace(nodes, q));
    p := RenamedOrigin(nodes, at);
    if q < p { NodePlacesIncrease(nodes, q, p); }
  }
}
