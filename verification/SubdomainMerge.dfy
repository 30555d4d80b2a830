/** Merging subdomain graphs run after run: the base graph, the edges dropped for
    missing endpoints, and what repeated runs keep of everything ever seen. */
module SubdomainMerge {
  import opened TestPaths
  import opened LinkTests
  import opened MergeBatch
  import opened Wrappers

  datatype Graph = Graph(nodes: seq<Node>, edges: seq<Edge>)

  datatype EdgeKey = EdgeKey(source: string, target: string, kind: string)

  function Identity(e: Edge): EdgeKey { EdgeKey(e.source, e.target, e.kind) }

  predicate Structural(kind: string) {
    kind == "contains_flow" || kind == "flow_step" || kind == "cross_domain"
  }

  // ------------------------------------------------------ one merge of graphs

  function NodesOf(graphs: seq<Graph>): seq<Node> {
    if graphs == [] then [] else NodesOf(graphs[..|graphs| - 1]) + graphs[|graphs| - 1].nodes
  }

  function EdgesOf(graphs: seq<Graph>): seq<Edge> {
    if graphs == [] then [] else EdgesOf(graphs[..|graphs| - 1]) + graphs[|graphs| - 1].edges
  }

  /** Nodes without an id are reported and left out. */
  function WithIds(nodes: seq<Node>): seq<Node> {
    if nodes == [] then []
    else WithIds(nodes[..|nodes| - 1]) + if nodes[|nodes| - 1].id == "" then [] else [nodes[|nodes| - 1]]
  }

  function Position(es: seq<Edge>, key: EdgeKey): (k: Option<nat>)
    ensures k.Some? ==> k.value < |es| && Identity(es[k.value]) == key
    ensures k.None? ==> forall i :: 0 <= i < |es| ==> Identity(es[i]) != key
  {
    if es == [] then None
    else if Identity(es[|es| - 1]) == key then Some(|es| - 1)
    else Position(es[..|es| - 1], key)
  }

  /** Higher weight wins; a tie keeps the edge that came first. */
  function Put(dict: seq<Edge>, e: Edge): seq<Edge> {
    match Position(dict, Identity(e))
    case None => dict + [e]
    case Some(k) => if e.weight > dict[k].weight then dict[k := e] else dict
  }

  function Dedup(es: seq<Edge>): seq<Edge> {
    if es == [] then [] else Put(Dedup(es[..|es| - 1]), es[|es| - 1])
  }

  predicate Known(ids: set<string>, e: Edge) { e.source in ids && e.target in ids }

  function Select(es: seq<Edge>, ids: set<string>, known: bool): seq<Edge> {
    if es == [] then []
    else Select(es[..|es| - 1], ids, known) + if Known(ids, es[|es| - 1]) == known then [es[|es| - 1]] else []
  }

  /** A merged graph, and the edges dropped for a missing endpoint. */
  datatype Outcome = Outcome(graph: Graph, dropped: seq<Edge>)

  ghost function Merge(graphs: seq<Graph>): Outcome {
    var nodes := DedupNodes(WithIds(NodesOf(graphs)));
    var edges := Dedup(EdgesOf(graphs));
    Outcome(Graph(nodes, Select(edges, IdsOf(nodes), true)), Select(edges, IdsOf(nodes), false))
  }

  // ---------------------------------------------------------- run after run

  /** What the files hold between runs. */
  datatype Files = Files(base: Option<Graph>, dropped: seq<Edge>)

  const NO_FILES: Files := Files(None, [])

  /** Structural edges a previous run dropped. */
  function Pending(dropped: seq<Edge>): seq<Edge> {
    if dropped == [] then []
    else Pending(dropped[..|dropped| - 1]) +
         if Structural(dropped[|dropped| - 1].kind) then [dropped[|dropped| - 1]] else []
  }

  /** The graphs one run merges: the base first, retried edges last. */
  function Inputs(files: Files, graphs: seq<Graph>): seq<Graph> {
    (match files.base case Some(base) => [base] case None => []) + graphs +
    (if Pending(files.dropped) == [] then [] else [Graph([], Pending(files.dropped))])
  }

  /** One run; without a loaded subdomain graph the script exits early. */
  ghost function Run(files: Files, graphs: seq<Graph>): Files {
    if graphs == [] then files
    else
      var merged := Merge(Inputs(files, graphs));
      Files(Some(merged.graph), merged.dropped)
  }

  ghost function Runs(runs: seq<seq<Graph>>): Files {
    if runs == [] then NO_FILES else Run(Runs(runs[..|runs| - 1]), runs[|runs| - 1])
  }

  /** Every graph of every run, in order. */
  function Everything(runs: seq<seq<Graph>>): seq<Graph> {
    if runs == [] then [] else Everything(runs[..|runs| - 1]) + runs[|runs| - 1]
  }

  // ------------------------------------------------ edges of maximal weight

  /** Of an earlier and a later edge the heavier one, and on a tie the earlier one. */
  function Better(a: Option<Edge>, b: Option<Edge>): Option<Edge> {
    match (a, b)
    case (None, _) => b
    case (_, None) => a
    case (Some(x), Some(y)) => if y.weight > x.weight then b else a
  }

  function IfKey(e: Edge, key: EdgeKey): Option<Edge> { if Identity(e) == key then Some(e) else None }

  /** The first edge of maximal weight among those with this key. */
  function Champion(es: seq<Edge>, key: EdgeKey): Option<Edge> {
    if es == [] then None else Better(Champion(es[..|es| - 1], key), IfKey(es[|es| - 1], key))
  }

  function MaxOf(a: Option<real>, b: Option<real>): Option<real> {
    match (a, b)
    case (None, _) => b
    case (_, None) => a
    case (Some(x), Some(y)) => Some(if y > x then y else x)
  }

  function WeightOf(e: Option<Edge>): Option<real> { if e.Some? then Some(e.value.weight) else None }

  /** The largest weight any edge with this key has, if there is one. */
  function Weight(es: seq<Edge>, key: EdgeKey): Option<real> { WeightOf(Champion(es, key)) }

  lemma {:induction false} ChampionConcat(a: seq<Edge>, b: seq<Edge>, key: EdgeKey)
    ensures Champion(a + b, key) == Better(Champion(a, key), Champion(b, key))
  {
    if b == [] {
      assert a + b == a;
    } else {
      var init := b[..|b| - 1];
      ChampionConcat(a, init, key);
      assert (a + b)[..|a + b| - 1] == a + init;
    }
  }

  lemma WeightConcat(a: seq<Edge>, b: seq<Edge>, key: EdgeKey)
    ensures Weight(a + b, key) == MaxOf(Weight(a, key), Weight(b, key))
  {
    ChampionConcat(a, b, key);
  }

  lemma {:induction false} ChampionNone(es: seq<Edge>, key: EdgeKey)
    ensures Champion(es, key).None? <==> forall i :: 0 <= i < |es| ==> Identity(es[i]) != key
  {
    if es != [] { ChampionNone(es[..|es| - 1], key); }
  }

  predicate DistinctEdges(es: seq<Edge>) {
    forall i, j :: 0 <= i < j < |es| ==> Identity(es[i]) != Identity(es[j])
  }

  lemma {:induction false} ChampionAt(es: seq<Edge>, i: nat)
    requires DistinctEdges(es) && i < |es|
    ensures Champion(es, Identity(es[i])) == Some(es[i])
  {
    var init := es[..|es| - 1];
    if i < |init| {
      ChampionAt(init, i);
      assert Identity(es[i]) != Identity(es[|es| - 1]);
    } else {
      ChampionNone(init, Identity(es[i]));
    }
  }

  lemma PutChampion(dict: seq<Edge>, e: Edge, key: EdgeKey)
    requires DistinctEdges(dict)
    ensures DistinctEdges(Put(dict, e))
    ensures Champion(Put(dict, e), key) == Better(Champion(dict, key), IfKey(e, key))
  {
    var put := Put(dict, e);
    match Position(dict, Identity(e))
    case None =>
      assert put[..|put| - 1] == dict;
    case Some(k) =>
      ChampionAt(dict, k);
      ChampionAt(put, k);
      if Identity(e) != key { ChampionReplace(dict, put, k, key); }
  }

  /** Changing an edge of another key does not change a key's champion. */
  lemma {:induction false} ChampionReplace(a: seq<Edge>, b: seq<Edge>, k: nat, key: EdgeKey)
    requires |a| == |b| && k < |a| && forall i :: 0 <= i < |a| && i != k ==> a[i] == b[i]
    requires Identity(a[k]) != key && Identity(b[k]) != key
    ensures Champion(a, key) == Champion(b, key)
  {
    var n := |a| - 1;
    if k < n {
      ChampionReplace(a[..n], b[..n], k, key);
    } else {
      assert a[..n] == b[..n];
    }
  }

  lemma {:induction false} DedupChampion(es: seq<Edge>, key: EdgeKey)
    ensures DistinctEdges(Dedup(es)) && Champion(Dedup(es), key) == Champion(es, key)
  {
    if es != [] {
      DedupChampion(es[..|es| - 1], key);
      PutChampion(Dedup(es[..|es| - 1]), es[|es| - 1], key);
    }
  }

  predicate KnownKey(ids: set<string>, key: EdgeKey) { key.source in ids && key.target in ids }

  lemma {:induction false} SelectChampion(es: seq<Edge>, ids: set<string>, known: bool, key: EdgeKey)
    ensures Champion(Select(es, ids, known), key) == if KnownKey(ids, key) == known then Champion(es, key) else None
  {
    if es != [] {
      var init, e := es[..|es| - 1], es[|es| - 1];
      SelectChampion(init, ids, known, key);
      var before := Select(init, ids, known);
      if Known(ids, e) == known {
        assert (before + [e])[..|before|] == before;
      } else {
        assert before + [] == before;
      }
    }
  }

  /** A merge keeps, per key, the first edge of maximal weight; on the side its
      endpoints decide. */
  lemma MergeChampion(graphs: seq<Graph>, key: EdgeKey)
    ensures var m := Merge(graphs);
      var known := KnownKey(IdsOf(m.graph.nodes), key);
      && Champion(m.graph.edges, key) == (if known then Champion(EdgesOf(graphs), key) else None)
      && Champion(m.dropped, key) == (if known then None else Champion(EdgesOf(graphs), key))
  {
    var nodes := DedupNodes(WithIds(NodesOf(graphs)));
    var edges := Dedup(EdgesOf(graphs));
    DedupChampion(EdgesOf(graphs), key);
    SelectChampion(edges, IdsOf(nodes), true, key);
    SelectChampion(edges, IdsOf(nodes), false, key);
  }

  lemma MergeWeight(graphs: seq<Graph>, key: EdgeKey)
    ensures var m := Merge(graphs);
      var known := KnownKey(IdsOf(m.graph.nodes), key);
      && Weight(m.graph.edges, key) == (if known then Weight(EdgesOf(graphs), key) else None)
      && Weight(m.dropped, key) == (if known then None else Weight(EdgesOf(graphs), key))
  {
    hide Champion, Merge;
    MergeChampion(graphs, key);
  }

  lemma {:induction false} PendingChampion(dropped: seq<Edge>, key: EdgeKey)
    ensures Champion(Pending(dropped), key) == if Structural(key.kind) then Champion(dropped, key) else None
  {
    if dropped != [] {
      var init, e := dropped[..|dropped| - 1], dropped[|dropped| - 1];
      PendingChampion(init, key);
      var before := Pending(init);
      if Structural(e.kind) {
        assert (before + [e])[..|before|] == before;
      } else {
        assert before + [] == before;
      }
    }
  }

  lemma PendingWeight(dropped: seq<Edge>, key: EdgeKey)
    ensures Weight(Pending(dropped), key) == if Structural(key.kind) then Weight(dropped, key) else None
  {
    PendingChampion(dropped, key);
  }

  // ----------------------------------------------------------------- nodes

  /** Adding nodes to a dictionary, one after the other. */
  function AddNodes(dict: seq<Node>, nodes: seq<Node>): seq<Node> {
    if nodes == [] then dict else PutNode(AddNodes(dict, nodes[..|nodes| - 1]), nodes[|nodes| - 1])
  }

  lemma {:induction false} DedupConcat(a: seq<Node>, b: seq<Node>)
    ensures DedupNodes(a + b) == AddNodes(DedupNodes(a), b)
  {
    if b == [] {
      assert a + b == a;
    } else {
      DedupConcat(a, b[..|b| - 1]);
      assert (a + b)[..|a + b| - 1] == a + b[..|b| - 1];
    }
  }

  lemma {:induction false} DedupDistinct(nodes: seq<Node>)
    requires DistinctIds(nodes)
    ensures DedupNodes(nodes) == nodes
  {
    if nodes != [] {
      var init, n := nodes[..|nodes| - 1], nodes[|nodes| - 1];
      DedupDistinct(init);
      assert IndexOf(init, n.id).None?;
    }
  }

  lemma {:induction false} WithIdsConcat(a: seq<Node>, b: seq<Node>)
    ensures WithIds(a + b) == WithIds(a) + WithIds(b)
  {
    if b == [] {
      assert a + b == a;
    } else {
      WithIdsConcat(a, b[..|b| - 1]);
      assert (a + b)[..|a + b| - 1] == a + b[..|b| - 1];
    }
  }

  lemma {:induction false} WithIdsAll(nodes: seq<Node>)
    requires forall i :: 0 <= i < |nodes| ==> nodes[i].id != ""
    ensures WithIds(nodes) == nodes
  {
    if nodes != [] { WithIdsAll(nodes[..|nodes| - 1]); }
  }

  lemma {:induction false} WithIdsNonEmpty(nodes: seq<Node>)
    ensures forall i :: 0 <= i < |WithIds(nodes)| ==> WithIds(nodes)[i].id != ""
  {
    if nodes != [] { WithIdsNonEmpty(nodes[..|nodes| - 1]); }
  }

  lemma {:induction false} DedupNonEmpty(nodes: seq<Node>)
    requires forall i :: 0 <= i < |nodes| ==> nodes[i].id != ""
    ensures forall i :: 0 <= i < |DedupNodes(nodes)| ==> DedupNodes(nodes)[i].id != ""
  {
    if nodes != [] { DedupNonEmpty(nodes[..|nodes| - 1]); }
  }

  /** Merging an already merged node list with more nodes is merging all of them. */
  lemma NodesIncremental(a: seq<Node>, b: seq<Node>)
    ensures var base := DedupNodes(WithIds(a));
      DedupNodes(WithIds(base + b)) == DedupNodes(WithIds(a + b))
  {
    var base := DedupNodes(WithIds(a));
    WithIdsNonEmpty(a);
    DedupNonEmpty(WithIds(a));
    WithIdsConcat(base, b);
    WithIdsConcat(a, b);
    WithIdsAll(base);
    DedupConcat(base, WithIds(b));
    DedupConcat(WithIds(a), WithIds(b));
    DedupNodesIds(WithIds(a));
    DedupDistinct(base);
  }

  lemma {:induction false} ContentsConcat(a: seq<Graph>, b: seq<Graph>)
    ensures NodesOf(a + b) == NodesOf(a) + NodesOf(b) && EdgesOf(a + b) == EdgesOf(a) + EdgesOf(b)
  {
    hide NodesOf, EdgesOf;
    if b == [] {
      ContentsNone();
      assert a + b == a;
      assert NodesOf(a) + [] == NodesOf(a) && EdgesOf(a) + [] == EdgesOf(a);
    } else {
      var init, g := b[..|b| - 1], b[|b| - 1];
      ContentsConcat(a, init);
      ContentsSnoc(a + init, g);
      ContentsSnoc(init, g);
      assert (a + init) + [g] == a + b && init + [g] == b;
      assert NodesOf(a) + NodesOf(init) + g.nodes == NodesOf(a) + (NodesOf(init) + g.nodes);
      assert EdgesOf(a) + EdgesOf(init) + g.edges == EdgesOf(a) + (EdgesOf(init) + g.edges);
    }
  }

  lemma ContentsNone()
    ensures NodesOf([]) == [] && EdgesOf([]) == []
  {
  }

  lemma ContentsSnoc(graphs: seq<Graph>, g: Graph)
    ensures NodesOf(graphs + [g]) == NodesOf(graphs) + g.nodes && EdgesOf(graphs + [g]) == EdgesOf(graphs) + g.edges
  {
    assert (graphs + [g])[..|graphs|] == graphs;
  }

  lemma ContentsOne(g: Graph)
    ensures NodesOf([g]) == g.nodes && EdgesOf([g]) == g.edges
  {
    assert [g][..0] == [];
    assert NodesOf([]) + g.nodes == g.nodes && EdgesOf([]) + g.edges == g.edges;
  }

  /** What a run merges, in nodes and in weights. */
  lemma InputsContents(files: Files, graphs: seq<Graph>, key: EdgeKey)
    ensures NodesOf(Inputs(files, graphs)) == BaseNodes(files) + NodesOf(graphs)
    ensures EdgesOf(Inputs(files, graphs)) == BaseEdges(files) + EdgesOf(graphs) + Pending(files.dropped)
    ensures Weight(EdgesOf(Inputs(files, graphs)), key) ==
      MaxOf(MaxOf(Weight(BaseEdges(files), key), Weight(EdgesOf(graphs), key)), Weight(Pending(files.dropped), key))
  {
    var first := match files.base case Some(base) => [base] case None => [];
    var last := if Pending(files.dropped) == [] then [] else [Graph([], Pending(files.dropped))];
    if files.base.Some? { ContentsOne(files.base.value); }
    if last != [] { ContentsOne(last[0]); }
    ContentsConcat(first, graphs);
    ContentsConcat(first + graphs, last);
    assert NodesOf(first) == BaseNodes(files) && EdgesOf(first) == BaseEdges(files);
    assert EdgesOf(last) == Pending(files.dropped) && NodesOf(last) == [];
    assert BaseNodes(files) + NodesOf(graphs) + [] == BaseNodes(files) + NodesOf(graphs);
    WeightConcat(EdgesOf(first), EdgesOf(graphs), key);
    WeightConcat(EdgesOf(first) + EdgesOf(graphs), EdgesOf(last), key);
  }

  function BaseNodes(files: Files): seq<Node> {
    match files.base case Some(base) => base.nodes case None => []
  }

  function BaseEdges(files: Files): seq<Edge> {
    match files.base case Some(base) => base.edges case None => []
  }

  // ------------------------------------------- the invariant over all runs

  /** After any runs: the base has the one-shot nodes, in the one-shot order. */
  lemma {:induction false} NodesCatchUp(runs: seq<seq<Graph>>)
    ensures BaseNodes(Runs(runs)) == DedupNodes(WithIds(NodesOf(Everything(runs))))
  {
    if runs != [] {
      var init, graphs := runs[..|runs| - 1], runs[|runs| - 1];
      NodesCatchUp(init);
      ContentsConcat(Everything(init), graphs);
      if graphs == [] {
        assert Everything(init) + [] == Everything(init);
      } else {
        InputsContents(Runs(init), graphs, EdgeKey("", "", ""));
        NodesIncremental(NodesOf(Everything(init)), NodesOf(graphs));
      }
    }
  }

  lemma NoRuns(key: EdgeKey)
    ensures Weight(EdgesOf(Everything([])), key) == None && Weight([], key) == None
  {
  }

  /** After any runs: a structural key's weight is the one-shot weight, in the base
      if both endpoints are known and among the dropped edges otherwise. */
  lemma {:induction false} StructuralCatchesUp(runs: seq<seq<Graph>>, key: EdgeKey)
    requires Structural(key.kind)
    ensures var files := Runs(runs);
      var known := KnownKey(IdsOf(BaseNodes(files)), key);
      var weight := Weight(EdgesOf(Everything(runs)), key);
      && Weight(BaseEdges(files), key) == (if known then weight else None)
      && Weight(files.dropped, key) == (if known then None else weight)
  {
    hide NodesOf, EdgesOf, Weight, Pending, Inputs, IdsOf, Merge;
    if runs == [] {
      NoRuns(key);
    } else {
      var init, graphs := runs[..|runs| - 1], runs[|runs| - 1];
      StructuralCatchesUp(init, key);
      ContentsConcat(Everything(init), graphs);
      WeightConcat(EdgesOf(Everything(init)), EdgesOf(graphs), key);
      if graphs == [] {
        assert Everything(init) + [] == Everything(init);
      } else {
        var files := Runs(init);
        InputsContents(files, graphs, key);
        PendingWeight(files.dropped, key);
        MergeWeight(Inputs(files, graphs), key);
      }
    }
  }

  /** Incremental equals one-shot: the same nodes, and for every structural key the
      same weight in the graph and among the dropped edges. */
  lemma IncrementalIsOneShot(runs: seq<seq<Graph>>, key: EdgeKey)
    requires Structural(key.kind)
    ensures var files := Runs(runs);
      var once := Merge(Everything(runs));
      && BaseNodes(files) == once.graph.nodes
      && Weight(BaseEdges(files), key) == Weight(once.graph.edges, key)
      && Weight(files.dropped, key) == Weight(once.dropped, key)
  {
    NodesCatchUp(runs);
    StructuralCatchesUp(runs, key);
    MergeWeight(Everything(runs), key);
  }

  // ----------------------------------------------- edges of other kinds

  /** Run `i` saw the key, and knew both endpoints by then. */
  ghost predicate SavedAt(runs: seq<seq<Graph>>, i: nat, key: EdgeKey)
    requires i < |runs|
  {
    && Weight(EdgesOf(runs[i]), key).Some?
    && KnownKey(IdsOf(BaseNodes(Runs(runs[..i + 1]))), key)
  }

  /** Exactly which other edges survive: those seen in some run that already knew
      both endpoints. The rest are lost for good, although one merge of everything
      would keep them once the endpoints are known. */
  lemma {:induction false} OthersSurviveExactly(runs: seq<seq<Graph>>, key: EdgeKey)
    requires !Structural(key.kind)
    ensures Weight(BaseEdges(Runs(runs)), key).Some? <==> exists i :: 0 <= i < |runs| && SavedAt(runs, i, key)
  {
    hide NodesOf, EdgesOf, Weight, Pending, Inputs, IdsOf, Merge;
    if runs == [] {
      NoRuns(key);
    } else {
      var init, graphs := runs[..|runs| - 1], runs[|runs| - 1];
      OthersSurviveExactly(init, key);
      forall i | 0 <= i < |init| ensures SavedAt(runs, i, key) == SavedAt(init, i, key) {
        assert runs[..i + 1] == init[..i + 1];
      }
      assert runs[..|runs|] == runs;
      if Weight(BaseEdges(Runs(init)), key).Some? { KnownStays(runs, key); }
      OthersStep(Runs(init), graphs, key);
      assert Weight(BaseEdges(Runs(runs)), key).Some? <==>
        Weight(BaseEdges(Runs(init)), key).Some? || SavedAt(runs, |init|, key) by {
        assert graphs == [] ==> Runs(runs) == Runs(init);
        assert runs[..|init| + 1] == runs;
      }
      if i :| 0 <= i < |init| && SavedAt(init, i, key) {
        assert SavedAt(runs, i, key);
      }
    }
  }

  /** One run keeps another edge's key if it saw it or had it, and knows both endpoints. */
  lemma OthersStep(files: Files, graphs: seq<Graph>, key: EdgeKey)
    requires !Structural(key.kind)
    ensures graphs != [] ==>
      (Weight(BaseEdges(Run(files, graphs)), key).Some? <==>
        KnownKey(IdsOf(BaseNodes(Run(files, graphs))), key) &&
        (Weight(BaseEdges(files), key).Some? || Weight(EdgesOf(graphs), key).Some?))
    ensures graphs == [] ==> Weight(EdgesOf(graphs), key).None?
  {
    hide NodesOf, Pending, Inputs, IdsOf, Merge;
    InputsContents(files, graphs, key);
    PendingWeight(files.dropped, key);
    MergeWeight(Inputs(files, graphs), key);
  }

  /** An edge in the base keeps both its endpoints in every later run. */
  lemma KnownStays(runs: seq<seq<Graph>>, key: EdgeKey)
    requires runs != []
    requires Weight(BaseEdges(Runs(runs[..|runs| - 1])), key).Some?
    ensures KnownKey(IdsOf(BaseNodes(Runs(runs))), key)
  {
    BaseIsKnown(runs[..|runs| - 1], key);
    KnownGrows(runs, key);
  }

  /** Endpoints that are known stay known. */
  lemma KnownGrows(runs: seq<seq<Graph>>, key: EdgeKey)
    requires runs != []
    requires KnownKey(IdsOf(BaseNodes(Runs(runs[..|runs| - 1]))), key)
    ensures KnownKey(IdsOf(BaseNodes(Runs(runs))), key)
  {
    var init, graphs := runs[..|runs| - 1], runs[|runs| - 1];
    NodesCatchUp(init);
    NodesCatchUp(runs);
    ContentsConcat(Everything(init), graphs);
    WithIdsConcat(NodesOf(Everything(init)), NodesOf(graphs));
    DedupNodesIds(WithIds(NodesOf(Everything(init))));
    DedupNodesIds(WithIds(NodesOf(Everything(runs))));
    IdsConcat(WithIds(NodesOf(Everything(init))), WithIds(NodesOf(graphs)));
  }

  lemma IdsConcat(a: seq<Node>, b: seq<Node>)
    ensures IdsOf(a) <= IdsOf(a + b)
  {
    forall id | id in IdsOf(a) ensures id in IdsOf(a + b) {
      var i :| 0 <= i < |a| && a[i].id == id;
      assert (a + b)[i].id == id;
    }
  }

  lemma {:induction false} BaseIsKnown(runs: seq<seq<Graph>>, key: EdgeKey)
    requires Weight(BaseEdges(Runs(runs)), key).Some?
    ensures KnownKey(IdsOf(BaseNodes(Runs(runs))), key)
  {
    var init, graphs := runs[..|runs| - 1], runs[|runs| - 1];
    if graphs == [] {
      BaseIsKnown(init, key);
    } else {
      MergeWeight(Inputs(Runs(init), graphs), key);
    }
  }

  /** Other edges never gain: what the base has, one merge of everything has too,
      with at least the weight. */
  lemma {:induction false} OthersNeverExceed(runs: seq<seq<Graph>>, key: EdgeKey)
    requires !Structural(key.kind) && Weight(BaseEdges(Runs(runs)), key).Some?
    ensures var all := Weight(Merge(Everything(runs)).graph.edges, key);
      all.Some? && Weight(BaseEdges(Runs(runs)), key).value <= all.value
  {
    BaseIsKnown(runs, key);
    NodesCatchUp(runs);
    MergeWeight(Everything(runs), key);
    BaseWeightBounded(runs, key);
  }

  lemma {:induction false} BaseWeightBounded(runs: seq<seq<Graph>>, key: EdgeKey)
    requires !Structural(key.kind)
    ensures var base, all := Weight(BaseEdges(Runs(runs)), key), Weight(EdgesOf(Everything(runs)), key);
      base.Some? ==> all.Some? && base.value <= all.value
  {
    if runs != [] {
      var init, graphs := runs[..|runs| - 1], runs[|runs| - 1];
      BaseWeightBounded(init, key);
      ContentsConcat(Everything(init), graphs);
      WeightConcat(EdgesOf(Everything(init)), EdgesOf(graphs), key);
      if graphs == [] {
        assert Everything(init) + [] == Everything(init);
      } else {
        InputsContents(Runs(init), graphs, key);
        PendingWeight(Runs(init).dropped, key);
        MergeWeight(Inputs(Runs(init), graphs), key);
      }
    }
  }

  // --------------------------------------------------- payloads and ties

  lemma {:induction false} DedupMember(es: seq<Edge>, e: Edge)
    requires e in Dedup(es)
    ensures e in es
  {
    var init, last := es[..|es| - 1], es[|es| - 1];
    if e in Dedup(init) {
      DedupMember(init, e);
    }
  }

  lemma {:induction false} SelectMember(es: seq<Edge>, ids: set<string>, known: bool, e: Edge)
    requires e in Select(es, ids, known)
    ensures e in es
  {
    var init := es[..|es| - 1];
    if e in Select(init, ids, known) { SelectMember(init, ids, known, e); }
  }

  lemma {:induction false} PendingMember(dropped: seq<Edge>, e: Edge)
    requires e in Pending(dropped)
    ensures e in dropped
  {
    var init := dropped[..|dropped| - 1];
    if e in Pending(init) { PendingMember(init, e); }
  }

  lemma MergeMember(graphs: seq<Graph>, e: Edge)
    requires e in Merge(graphs).graph.edges || e in Merge(graphs).dropped
    ensures e in EdgesOf(graphs)
  {
    var ids := IdsOf(Merge(graphs).graph.nodes);
    SelectMember(Dedup(EdgesOf(graphs)), ids, e in Merge(graphs).graph.edges, e);
    DedupMember(EdgesOf(graphs), e);
  }

  /** Whatever the files hold was seen in some run, payload and all. */
  lemma {:induction false} NothingInvented(runs: seq<seq<Graph>>, e: Edge)
    requires e in BaseEdges(Runs(runs)) || e in Runs(runs).dropped
    ensures e in EdgesOf(Everything(runs))
  {
    var init, graphs := runs[..|runs| - 1], runs[|runs| - 1];
    var files := Runs(init);
    ContentsConcat(Everything(init), graphs);
    if graphs == [] {
      NothingInvented(init, e);
    } else {
      MergeMember(Inputs(files, graphs), e);
      InputsMember(files, graphs, e);
      if e !in EdgesOf(graphs) { NothingInvented(init, e); }
    }
  }

  lemma InputsMember(files: Files, graphs: seq<Graph>, e: Edge)
    requires e in EdgesOf(Inputs(files, graphs))
    ensures e in BaseEdges(files) || e in EdgesOf(graphs) || e in files.dropped
  {
    var first := match files.base case Some(base) => [base] case None => [];
    var last := if Pending(files.dropped) == [] then [] else [Graph([], Pending(files.dropped))];
    if files.base.Some? { ContentsOne(files.base.value); }
    if last != [] { ContentsOne(last[0]); }
    ContentsConcat(first, graphs);
    ContentsConcat(first + graphs, last);
    if e in Pending(files.dropped) { PendingMember(files.dropped, e); }
  }

  /** Payloads agree too, unless a tie leaves a choice: if only one edge ever seen
      has a structural key's maximal weight, that edge is what both ways keep. */
  lemma PayloadAgreesWithoutTies(runs: seq<seq<Graph>>, e: Edge, f: Edge)
    requires Structural(e.kind) && Identity(e) == Identity(f)
    requires e in BaseEdges(Runs(runs)) && f in Merge(Everything(runs)).graph.edges
    requires forall a, b | a in EdgesOf(Everything(runs)) && b in EdgesOf(Everything(runs)) ::
      (Identity(a) == Identity(b) == Identity(e) && a.weight == b.weight) ==> a == b
    ensures e == f
  {
    var key := Identity(e);
    NothingInvented(runs, e);
    MergeMember(Everything(runs), f);
    IncrementalIsOneShot(runs, key);
    FilesDistinct(runs);
    MergeDistinct(Everything(runs));
    var base, once := BaseEdges(Runs(runs)), Merge(Everything(runs)).graph.edges;
    var i :| 0 <= i < |base| && base[i] == e;
    var j :| 0 <= j < |once| && once[j] == f;
    ChampionAt(base, i);
    ChampionAt(once, j);
  }

  lemma {:induction false} SelectDistinct(es: seq<Edge>, ids: set<string>, known: bool)
    requires DistinctEdges(es)
    ensures DistinctEdges(Select(es, ids, known))
    ensures forall e :: e in Select(es, ids, known) ==> e in es
  {
    if es != [] {
      var init, last := es[..|es| - 1], es[|es| - 1];
      SelectDistinct(init, ids, known);
      var before := Select(init, ids, known);
      forall i | 0 <= i < |before| ensures Identity(before[i]) != Identity(last) {
        assert before[i] in init;
        var j :| 0 <= j < |init| && init[j] == before[i];
        assert es[j] == init[j];
      }
      assert forall e :: e in before ==> e in es;
    }
  }

  lemma MergeDistinct(graphs: seq<Graph>)
    ensures DistinctEdges(Merge(graphs).graph.edges) && DistinctEdges(Merge(graphs).dropped)
  {
    DedupChampion(EdgesOf(graphs), EdgeKey("", "", ""));
    SelectDistinct(Dedup(EdgesOf(graphs)), IdsOf(Merge(graphs).graph.nodes), true);
    SelectDistinct(Dedup(EdgesOf(graphs)), IdsOf(Merge(graphs).graph.nodes), false);
  }

  lemma {:induction false} FilesDistinct(runs: seq<seq<Graph>>)
    ensures DistinctEdges(BaseEdges(Runs(runs)))
  {
    if runs != [] {
      var init, graphs := runs[..|runs| - 1], runs[|runs| - 1];
      FilesDistinct(init);
      if graphs != [] { MergeDistinct(Inputs(Runs(init), graphs)); }
    }
  }

  /** With a tie the payloads can differ: an edge dropped by the first run is
      retried after the second run's own edge of the same key and weight. */
  lemma TiesMayDiffer() returns (runs: seq<seq<Graph>>, e: Edge, f: Edge)
    ensures Structural(e.kind) && Identity(e) == Identity(f) && e != f
    ensures e in BaseEdges(Runs(runs)) && f in Merge(Everything(runs)).graph.edges
  {
    var a, b := Node("a", None, None, "", Malformed, 0), Node("b", None, None, "", Malformed, 0);
    f := Edge("a", "b", "flow_step", "forward", 1.0, "", 0);
    e := f.(rest := 1);
    runs := TieScenario(a, b, e, f);
  }

  lemma TieScenario(a: Node, b: Node, e: Edge, f: Edge) returns (runs: seq<seq<Graph>>)
    requires a.id != b.id && a.id != "" && b.id != ""
    requires Structural(f.kind) && Identity(e) == Identity(f) && e.weight == f.weight
    requires e.source == a.id && e.target == b.id
    ensures BaseEdges(Runs(runs)) == [e] && Merge(Everything(runs)).graph.edges == [f]
  {
    hide Merge, NodesOf, EdgesOf, Pending, Inputs, Runs, Everything, Structural, Weight;
    var g1, g2 := Graph([], [f]), Graph([a, b], [e]);
    runs := [[g1], [g2]];
    TwoRuns(g1, g2);
    FirstRun(g1, f);
    ContentsOne(g1);
    ContentsOne(g2);
    var files := Files(Some(Graph([], [])), [f]);
    InputsContents(files, [g2], Identity(e));
    OnePending(f);
    assert [] + [a, b] == [a, b] && [] + [e] + [f] == [e, f];
    TwoTied(Inputs(files, [g2]), a, b, e, f);
    ContentsConcat([g1], [g2]);
    assert [f] + [e] == [f, e];
    TwoTied([g1] + [g2], a, b, f, e);
  }

  lemma TwoRuns(g1: Graph, g2: Graph)
    ensures Runs([[g1], [g2]]) == Run(Run(NO_FILES, [g1]), [g2])
    ensures Everything([[g1], [g2]]) == [g1] + [g2]
  {
    hide Merge, Inputs;
    assert [[g1], [g2]][..1] == [[g1]] && [[g1]][..0] == [];
    assert Runs([[g1]]) == Run(Runs([]), [g1]);
    assert Everything([[g1]]) == [] + [g1] == [g1];
  }

  lemma OnePending(f: Edge)
    requires Structural(f.kind)
    ensures Pending([f]) == [f]
  {
    assert [f][..0] == [];
    assert Pending([]) + [f] == [f];
  }

  lemma FirstRun(g: Graph, f: Edge)
    requires g == Graph([], [f])
    ensures Run(NO_FILES, [g]) == Files(Some(Graph([], [])), [f])
  {
    ContentsOne(g);
    assert Pending([]) == [];
    assert Inputs(NO_FILES, [g]) == [g];
    assert Dedup([f][..0]) == [] && Dedup([f]) == [f];
    assert Select([f][..0], {}, false) == [] && Select([f][..0], {}, true) == [];
    assert IdsOf([]) == {};
  }

  /** Of two edges with one key and one weight, the first stays. */
  lemma TwoTied(graphs: seq<Graph>, a: Node, b: Node, e: Edge, f: Edge)
    requires NodesOf(graphs) == [a, b] && a.id != b.id && a.id != "" && b.id != ""
    requires EdgesOf(graphs) == [e, f] && Identity(e) == Identity(f) && e.weight == f.weight
    requires e.source == a.id && e.target == b.id
    ensures Merge(graphs).graph.edges == [e]
  {
    assert [a, b][..1] == [a] && [a][..0] == [];
    assert WithIds([a]) == [] + [a] == [a] && WithIds([a, b]) == [a] + [b] == [a, b];
    assert DedupNodes([a]) == [a];
    assert DedupNodes([a, b]) == [a, b];
    var ids := IdsOf([a, b]);
    assert [a, b][0].id in ids && [a, b][1].id in ids;
    assert [e, f][..1] == [e] && [e][..0] == [];
    assert Dedup([e]) == [e] && Dedup([e, f]) == [e];
    assert Select([e], ids, true) == [] + [e] == [e];
  }

  /** An edge of another kind that comes before its endpoints is lost for good, where
      one merge of everything has it. */
  lemma LostForGood(a: Node, b: Node, f: Edge) returns (runs: seq<seq<Graph>>)
    requires a.id != b.id && a.id != "" && b.id != ""
    requires !Structural(f.kind) && f.source == a.id && f.target == b.id
    ensures BaseEdges(Runs(runs)) == [] && Runs(runs).dropped == []
    ensures Merge(Everything(runs)).graph.edges == [f]
  {
    hide Merge, NodesOf, EdgesOf, Inputs, Runs, Everything, Structural, Weight;
    var g1, g2 := Graph([], [f]), Graph([a, b], []);
    runs := [[g1], [g2]];
    TwoRuns(g1, g2);
    FirstRun(g1, f);
    ContentsOne(g1);
    ContentsOne(g2);
    var files := Files(Some(Graph([], [])), [f]);
    InputsContents(files, [g2], Identity(f));
    assert [f][..0] == [] && Pending([f]) == [];
    var none: seq<Edge> := [];
    assert [] + [a, b] == [a, b] && none + none + none == none;
    NoEdgesMerged(Inputs(files, [g2]));
    ContentsConcat([g1], [g2]);
    assert [f] + [] == [f];
    OneEdgeMerged([g1] + [g2], a, b, f);
  }

  lemma NoEdgesMerged(graphs: seq<Graph>)
    requires EdgesOf(graphs) == []
    ensures Merge(graphs).graph.edges == [] && Merge(graphs).dropped == []
  {
  }

  lemma OneEdgeMerged(graphs: seq<Graph>, a: Node, b: Node, f: Edge)
    requires NodesOf(graphs) == [a, b] && a.id != b.id && a.id != "" && b.id != ""
    requires EdgesOf(graphs) == [f] && f.source == a.id && f.target == b.id
    ensures Merge(graphs).graph.edges == [f]
  {
    assert [a, b][..1] == [a] && [a][..0] == [];
    assert WithIds([a]) == [] + [a] == [a] && WithIds([a, b]) == [a] + [b] == [a, b];
    assert DedupNodes([a]) == [a];
    assert DedupNodes([a, b]) == [a, b];
    var ids := IdsOf([a, b]);
    assert [a, b][0].id in ids && [a, b][1].id in ids;
    assert [f][..0] == [] && Dedup([f]) == [f];
    assert Select([f], ids, true) == [] + [f] == [f];
  }

  // --------------------------------------------------------------- the code

  /** `merge_graphs`: nodes and edges; layers, tour and metadata are not modelled. */
  method MergeGraphs(graphs: seq<Graph>) returns (merged: Graph, dropped: seq<Edge>)
    ensures Outcome(merged, dropped) == Merge(graphs)
  {
    hide Dedup, DedupNodes, WithIds, NodesOf, EdgesOf, Select;
    var nodes := CollectNodes(graphs);
    var edges := CollectEdges(graphs);
    var ids := set i | 0 <= i < |nodes| :: nodes[i].id;
    assert ids == IdsOf(nodes);
    var valid: seq<Edge> := [];
    dropped := [];
    SelectNone(edges, ids);
    for k := 0 to |edges|
      invariant valid == Select(edges[..k], ids, true) && dropped == Select(edges[..k], ids, false)
    {
      SelectStep(edges, k, ids);
      if edges[k].source in ids && edges[k].target in ids {
        valid := valid + [edges[k]];
      } else {
        dropped := dropped + [edges[k]];
      }
    }
    assert edges[..|edges|] == edges;
    merged := Graph(nodes, valid);
  }

  lemma SelectNone(es: seq<Edge>, ids: set<string>)
    ensures forall known :: Select(es[..0], ids, known) == []
  {
  }

  lemma SelectStep(es: seq<Edge>, k: nat, ids: set<string>)
    requires k < |es|
    ensures forall known ::
      Select(es[..k + 1], ids, known) == Select(es[..k], ids, known) + (if Known(ids, es[k]) == known then [es[k]] else [])
    ensures forall known :: Select(es[..k], ids, known) + [] == Select(es[..k], ids, known)
  {
    assert es[..k + 1][..k] == es[..k];
  }

  method CollectNodes(graphs: seq<Graph>) returns (dict: seq<Node>)
    ensures dict == DedupNodes(WithIds(NodesOf(graphs)))
  {
    hide DedupNodes, WithIds;
    dict := [];
    assert dict == DedupNodes(WithIds([])) by { NoNodes(); }
    for g := 0 to |graphs|
      invariant dict == DedupNodes(WithIds(NodesOf(graphs[..g])))
    {
      assert graphs[..g + 1][..g] == graphs[..g];
      ghost var before := NodesOf(graphs[..g]);
      var nodes := graphs[g].nodes;
      assert before + nodes[..0] == before;
      for k := 0 to |nodes|
        invariant dict == DedupNodes(WithIds(before + nodes[..k]))
      {
        assert before + nodes[..k + 1] == (before + nodes[..k]) + [nodes[k]];
        NodeStep(before + nodes[..k], nodes[k]);
        if nodes[k].id == "" {
          continue;
        }
        dict := PutNode(dict, nodes[k]);
      }
      assert nodes[..|nodes|] == nodes;
    }
    assert graphs[..|graphs|] == graphs;
  }

  lemma NoNodes()
    ensures DedupNodes(WithIds([])) == []
  {
  }

  lemma NodeStep(before: seq<Node>, n: Node)
    ensures DedupNodes(WithIds(before + [n])) ==
      if n.id == "" then DedupNodes(WithIds(before)) else PutNode(DedupNodes(WithIds(before)), n)
  {
    assert (before + [n])[..|before|] == before;
    var kept := WithIds(before);
    if n.id == "" {
      assert kept + [] == kept;
    } else {
      assert (kept + [n])[..|kept|] == kept;
    }
  }

  method CollectEdges(graphs: seq<Graph>) returns (dict: seq<Edge>)
    ensures dict == Dedup(EdgesOf(graphs))
  {
    hide Dedup, EdgesOf;
    dict := [];
    NoEdges();
    for g := 0 to |graphs|
      invariant dict == Dedup(EdgesOf(graphs[..g]))
    {
      assert graphs[..g + 1] == graphs[..g] + [graphs[g]];
      ContentsSnoc(graphs[..g], graphs[g]);
      ghost var before := EdgesOf(graphs[..g]);
      var edges := graphs[g].edges;
      assert before + edges[..0] == before;
      for k := 0 to |edges|
        invariant dict == Dedup(before + edges[..k])
      {
        var edge := edges[k];
        assert before + edges[..k + 1] == (before + edges[..k]) + [edge];
        DedupSnoc(before + edges[..k], edge);
        match Position(dict, Identity(edge))
        case None => dict := dict + [edge];
        case Some(at) =>
          if edge.weight > dict[at].weight {
            dict := dict[at := edge];
          }
      }
      assert edges[..|edges|] == edges;
    }
    assert graphs[..|graphs|] == graphs;
  }

  lemma NoEdges()
    ensures Dedup(EdgesOf([])) == []
  {
  }

  lemma DedupSnoc(es: seq<Edge>, e: Edge)
    ensures Dedup(es + [e]) == Put(Dedup(es), e)
  {
    assert (es + [e])[..|es|] == es;
  }

  /** The data directory: the main graph and the merge report. */
  class Workspace {
    var base: Option<Graph>
    var dropped: seq<Edge>

    constructor ()
      ensures Files(base, dropped) == NO_FILES
    {
      base, dropped := None, [];
    }

    /** One run of the script over the subdomain graphs it could load. */
    method MergeRun(graphs: seq<Graph>)
      modifies this
      ensures Files(base, dropped) == Run(Files(old(base), old(dropped)), graphs)
      ensures graphs == [] ==> base == old(base) && dropped == old(dropped)
      ensures graphs != [] ==> base.Some?
    {
      if graphs == [] {
        return;
      }
      var inputs := graphs;
      if base.Some? {
        inputs := [base.value] + inputs;
      }
      var pending := LoadPending();
      if pending != [] {
        inputs := inputs + [Graph([], pending)];
      }
      assert inputs == Inputs(Files(base, dropped), graphs);
      var merged;
      merged, dropped := MergeGraphs(inputs);
      base := Some(merged);
    }

    /** `load_pending_structural_edges`. */
    method LoadPending() returns (pending: seq<Edge>)
      ensures pending == Pending(dropped)
    {
      pending := [];
      for k := 0 to |dropped|
        invariant pending == Pending(dropped[..k])
      {
        assert dropped[..k + 1][..k] == dropped[..k];
        if Structural(dropped[k].kind) {
          pending := pending + [dropped[k]];
        } else {
          assert pending + [] == pending;
        }
      }
      assert dropped[..|dropped|] == dropped;
    }
  }
}
