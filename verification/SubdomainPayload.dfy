/** Which edge of a key the runs end up holding, payload and all, and when it is the
    one that a single merge of everything keeps. */
module SubdomainPayload {
  import opened LinkTests
  import MergeBatch
  import opened Wrappers
  import opened SubdomainMerge

  /** The edge of a key that the files hold, in the base or among the dropped edges. */
  function Holding(base: seq<Edge>, dropped: seq<Edge>, key: EdgeKey): Option<Edge> {
    if Champion(base, key).Some? then Champion(base, key) else Champion(dropped, key)
  }

  ghost function Held(runs: seq<seq<Graph>>, key: EdgeKey): Option<Edge> {
    Holding(BaseEdges(Runs(runs)), Runs(runs).dropped, key)
  }

  /** Run `i` began without knowing both endpoints. */
  ghost predicate OpenAt(runs: seq<seq<Graph>>, i: nat, key: EdgeKey)
    requires i <= |runs|
  {
    !KnownKey(MergeBatch.IdsOf(BaseNodes(Runs(runs[..i]))), key)
  }

  /** What run `i` brings for the key: its first edge of maximal weight. */
  function Brings(runs: seq<seq<Graph>>, i: nat, key: EdgeKey): Option<Edge>
    requires i < |runs|
  {
    Champion(EdgesOf(runs[i]), key)
  }

  lemma InputsChampion(files: Files, graphs: seq<Graph>, key: EdgeKey)
    requires Structural(key.kind)
    ensures Champion(EdgesOf(Inputs(files, graphs)), key) ==
      Better(Better(Champion(BaseEdges(files), key), Champion(EdgesOf(graphs), key)), Champion(files.dropped, key))
  {
    hide Champion, Inputs, EdgesOf, Pending;
    InputsContents(files, graphs, key);
    PendingChampion(files.dropped, key);
    ChampionConcat(BaseEdges(files), EdgesOf(graphs), key);
    ChampionConcat(BaseEdges(files) + EdgesOf(graphs), Pending(files.dropped), key);
  }

  /** One more run: while the endpoints are not both known the run's own edge comes
      before the retried one, and afterwards the base comes before the run's. */
  lemma HeldStep(runs: seq<seq<Graph>>, key: EdgeKey)
    requires Structural(key.kind) && runs != []
    ensures var n := |runs| - 1;
      var kept, own := Held(runs[..n], key), Brings(runs, n, key);
      Held(runs, key) == if OpenAt(runs, n, key) then Better(own, kept) else Better(kept, own)
  {
    hide NodesOf, EdgesOf, Champion, Pending, Inputs, MergeBatch.IdsOf, SubdomainMerge.Merge;
    var n := |runs| - 1;
    var init, graphs := runs[..n], runs[n];
    StructuralCatchesUp(init, key);
    if graphs == [] {
      NothingBrought(key);
    } else {
      InputsChampion(Runs(init), graphs, key);
      MergeChampion(Inputs(Runs(init), graphs), key);
    }
  }

  lemma NothingBrought(key: EdgeKey)
    ensures Champion(EdgesOf([]), key) == None
  {
  }

  // ------------------------------------------------------------- the keeper

  ghost function Heaviest(runs: seq<seq<Graph>>, key: EdgeKey): Option<real> {
    Weight(EdgesOf(Everything(runs)), key)
  }

  /** Run `i` brings an edge of the maximal weight of all runs. */
  ghost predicate Carries(runs: seq<seq<Graph>>, i: nat, key: EdgeKey)
    requires i < |runs|
  {
    Brings(runs, i, key).Some? && WeightOf(Brings(runs, i, key)) == Heaviest(runs, key)
  }

  /** The first run to bring the maximal weight. */
  ghost predicate IsFirst(runs: seq<seq<Graph>>, i: nat, key: EdgeKey) {
    i < |runs| && Carries(runs, i, key) && forall j :: 0 <= j < i ==> !Carries(runs, j, key)
  }

  /** The run whose edge is held: the last to bring the maximal weight among those that
      began without knowing both endpoints, or the first of all if there is none. */
  ghost predicate IsKeeper(runs: seq<seq<Graph>>, i: nat, key: EdgeKey) {
    i < |runs| && Carries(runs, i, key) &&
    if OpenAt(runs, i, key) then forall j :: i < j < |runs| ==> !(Carries(runs, j, key) && OpenAt(runs, j, key))
    else forall j :: 0 <= j < i ==> !Carries(runs, j, key)
  }

  lemma HeaviestStep(runs: seq<seq<Graph>>, key: EdgeKey)
    requires runs != []
    ensures var n := |runs| - 1;
      Heaviest(runs, key) == MaxOf(Heaviest(runs[..n], key), WeightOf(Brings(runs, n, key)))
  {
    hide EdgesOf, Champion;
    var n := |runs| - 1;
    ContentsConcat(Everything(runs[..n]), runs[n]);
    WeightConcat(EdgesOf(Everything(runs[..n])), EdgesOf(runs[n]), key);
  }

  /** What earlier runs brought and knew is the same with one more run after them. */
  lemma SameBefore(runs: seq<seq<Graph>>, key: EdgeKey)
    requires runs != []
    ensures forall i :: 0 <= i < |runs| - 1 ==>
      Brings(runs, i, key) == Brings(runs[..|runs| - 1], i, key) &&
      OpenAt(runs, i, key) == OpenAt(runs[..|runs| - 1], i, key)
  {
    hide Champion, EdgesOf;
    var init := runs[..|runs| - 1];
    forall i | 0 <= i < |init| ensures OpenAt(runs, i, key) == OpenAt(init, i, key) {
      assert runs[..i] == init[..i];
    }
  }

  lemma {:induction false} OpenIsPrefix(runs: seq<seq<Graph>>, i: nat, j: nat, key: EdgeKey)
    requires i <= j <= |runs| && OpenAt(runs, j, key)
    ensures OpenAt(runs, i, key)
    decreases j
  {
    if i < j {
      assert runs[..j][..j - 1] == runs[..j - 1];
      if !OpenAt(runs, j - 1, key) { KnownGrows(runs[..j], key); }
      OpenIsPrefix(runs, i, j - 1, key);
    }
  }

  lemma {:induction false} HeaviestBounds(runs: seq<seq<Graph>>, key: EdgeKey)
    ensures forall i :: 0 <= i < |runs| && Brings(runs, i, key).Some? ==>
      Heaviest(runs, key).Some? && Brings(runs, i, key).value.weight <= Heaviest(runs, key).value
    decreases |runs|
  {
    if runs != [] {
      hide Heaviest, OpenAt, Brings;
      HeaviestStep(runs, key);
      SameBefore(runs, key);
      HeaviestBounds(runs[..|runs| - 1], key);
    }
  }

  /** A run is still a carrier with one more run after it unless that one is heavier. */
  lemma CarriersStep(runs: seq<seq<Graph>>, key: EdgeKey)
    requires runs != []
    ensures forall j :: 0 <= j < |runs| - 1 ==>
      (Carries(runs, j, key) <==> Carries(runs[..|runs| - 1], j, key) && Heaviest(runs, key) == Heaviest(runs[..|runs| - 1], key))
    ensures Carries(runs, |runs| - 1, key) <==>
      Brings(runs, |runs| - 1, key).Some? &&
      (Heaviest(runs[..|runs| - 1], key).Some? ==>
        Brings(runs, |runs| - 1, key).value.weight >= Heaviest(runs[..|runs| - 1], key).value)
  {
    hide Heaviest, OpenAt, Brings;
    HeaviestStep(runs, key);
    SameBefore(runs, key);
    HeaviestBounds(runs[..|runs| - 1], key);
  }

  /** Whether a run's own edge takes over from the one held so far. */
  predicate TakesOver(kept: Option<Edge>, own: Option<Edge>, open: bool) {
    own.Some? &&
    (kept.None? || own.value.weight > kept.value.weight || (open && own.value.weight == kept.value.weight))
  }

  /** The keeper's edge is the one that the files hold. */
  lemma {:induction false} KeeperExists(runs: seq<seq<Graph>>, key: EdgeKey) returns (k: nat)
    requires Structural(key.kind) && Heaviest(runs, key).Some?
    ensures IsKeeper(runs, k, key) && Held(runs, key) == Brings(runs, k, key)
    decreases |runs|
  {
    hide Held, Heaviest, OpenAt, Brings;
    if runs == [] { NothingHeavy(key); }
    var n := |runs| - 1;
    HeldStep(runs, key);
    HeaviestStep(runs, key);
    if Heaviest(runs[..n], key).None? {
      NothingYet(runs, key);
      k := n;
    } else {
      var before := KeeperExists(runs[..n], key);
      k := if TakesOver(Brings(runs[..n], before, key), Brings(runs, n, key), OpenAt(runs, n, key)) then n else before;
      KeeperStep(runs, before, k, key);
    }
  }

  lemma NothingHeavy(key: EdgeKey)
    ensures Heaviest([], key) == None && Held([], key) == None
  {
  }

  /** Without any edge of the key so far nothing is held, and no run is a carrier. */
  lemma {:induction false} NothingSoFar(runs: seq<seq<Graph>>, key: EdgeKey)
    requires Structural(key.kind) && Heaviest(runs, key).None?
    ensures Held(runs, key).None? && forall i :: 0 <= i < |runs| ==> Brings(runs, i, key).None?
    decreases |runs|
  {
    if runs == [] {
      NothingHeavy(key);
    } else {
      hide Held, Heaviest, OpenAt, Brings;
      HeldStep(runs, key);
      HeaviestStep(runs, key);
      SameBefore(runs, key);
      NothingSoFar(runs[..|runs| - 1], key);
    }
  }

  lemma NothingYet(runs: seq<seq<Graph>>, key: EdgeKey)
    requires Structural(key.kind) && runs != [] && Heaviest(runs, key).Some? && Heaviest(runs[..|runs| - 1], key).None?
    ensures IsKeeper(runs, |runs| - 1, key) && Held(runs, key) == Brings(runs, |runs| - 1, key)
  {
    hide Held, Heaviest, OpenAt, Brings;
    HeldStep(runs, key);
    HeaviestStep(runs, key);
    SameBefore(runs, key);
    NothingSoFar(runs[..|runs| - 1], key);
  }

  lemma CarrierWeight(runs: seq<seq<Graph>>, i: nat, key: EdgeKey)
    requires i < |runs| && Carries(runs, i, key)
    ensures Brings(runs, i, key).Some? && Heaviest(runs, key) == Some(Brings(runs, i, key).value.weight)
  {
  }

  lemma KeeperStep(runs: seq<seq<Graph>>, before: nat, k: nat, key: EdgeKey)
    requires runs != [] && IsKeeper(runs[..|runs| - 1], before, key)
    requires Heaviest(runs, key) == MaxOf(Heaviest(runs[..|runs| - 1], key), WeightOf(Brings(runs, |runs| - 1, key)))
    requires k == if TakesOver(Brings(runs[..|runs| - 1], before, key), Brings(runs, |runs| - 1, key), OpenAt(runs, |runs| - 1, key))
                  then |runs| - 1 else before
    ensures IsKeeper(runs, k, key)
    ensures Brings(runs, k, key) ==
      if OpenAt(runs, |runs| - 1, key) then Better(Brings(runs, |runs| - 1, key), Brings(runs[..|runs| - 1], before, key))
      else Better(Brings(runs[..|runs| - 1], before, key), Brings(runs, |runs| - 1, key))
  {
    hide Heaviest, OpenAt, Brings, Carries;
    var n := |runs| - 1;
    SameBefore(runs, key);
    CarriersStep(runs, key);
    CarrierWeight(runs[..n], before, key);
    if OpenAt(runs, n, key) { OpenIsPrefix(runs, before, n, key); }
  }

  // ------------------------------------------------------------- the theorem

  ghost function AtOnce(runs: seq<seq<Graph>>, key: EdgeKey): Option<Edge> {
    Champion(EdgesOf(Everything(runs)), key)
  }

  lemma {:induction false} FirstExists(runs: seq<seq<Graph>>, key: EdgeKey) returns (p: nat)
    requires Heaviest(runs, key).Some?
    ensures IsFirst(runs, p, key) && AtOnce(runs, key) == Brings(runs, p, key)
    decreases |runs|
  {
    hide OpenAt, Brings, AtOnce, Heaviest, Carries;
    if runs == [] { NothingHeavy(key); }
    var n := |runs| - 1;
    var init := runs[..n];
    EverythingStep(runs, key);
    SameBefore(runs, key);
    CarriersStep(runs, key);
    HeaviestStep(runs, key);
    if Heaviest(init, key).None? {
      NotAtOnce(init, key);
      NoCarriers(init, key);
      p := n;
    } else {
      var before := FirstExists(init, key);
      CarrierWeight(init, before, key);
      p := if TakesOver(Brings(init, before, key), Brings(runs, n, key), false) then n else before;
    }
  }

  lemma NotAtOnce(runs: seq<seq<Graph>>, key: EdgeKey)
    requires Heaviest(runs, key).None?
    ensures AtOnce(runs, key).None?
  {
  }

  lemma EverythingStep(runs: seq<seq<Graph>>, key: EdgeKey)
    requires runs != []
    ensures var n := |runs| - 1;
      AtOnce(runs, key) == Better(AtOnce(runs[..n], key), Brings(runs, n, key))
  {
    hide EdgesOf, Champion;
    var n := |runs| - 1;
    ContentsConcat(Everything(runs[..n]), runs[n]);
    ChampionConcat(EdgesOf(Everything(runs[..n])), EdgesOf(runs[n]), key);
  }

  lemma {:induction false} NoCarriers(runs: seq<seq<Graph>>, key: EdgeKey)
    requires Heaviest(runs, key).None?
    ensures forall i :: 0 <= i < |runs| ==> Brings(runs, i, key).None? && !Carries(runs, i, key)
    decreases |runs|
  {
    if runs != [] {
      hide Heaviest, OpenAt, Brings;
      HeaviestStep(runs, key);
      SameBefore(runs, key);
      NoCarriers(runs[..|runs| - 1], key);
    }
  }

  /** Keepers and first carriers are unique, so the theorem speaks of definite runs. */
  lemma OneKeeper(runs: seq<seq<Graph>>, i: nat, j: nat, key: EdgeKey)
    requires IsKeeper(runs, i, key) && IsKeeper(runs, j, key)
    ensures i == j
  {
    hide Carries, OpenAt;
    if i < j && OpenAt(runs, j, key) { OpenIsPrefix(runs, i, j, key); }
    if j < i && OpenAt(runs, i, key) { OpenIsPrefix(runs, j, i, key); }
  }

  /** What one merge of everything holds for the key. */
  ghost function HeldAtOnce(runs: seq<seq<Graph>>, key: EdgeKey): Option<Edge> {
    Holding(SubdomainMerge.Merge(Everything(runs)).graph.edges, SubdomainMerge.Merge(Everything(runs)).dropped, key)
  }

  /** Payloads: for a structural key that was ever seen, run after run the files hold
      the keeper's edge and one merge holds the first carrier's, so the two agree
      exactly when these runs brought the same edge. */
  lemma PayloadsAgreeExactly(runs: seq<seq<Graph>>, key: EdgeKey, k: nat, p: nat)
    requires Structural(key.kind) && IsKeeper(runs, k, key) && IsFirst(runs, p, key)
    ensures Held(runs, key) == Brings(runs, k, key) && HeldAtOnce(runs, key) == Brings(runs, p, key)
    ensures Held(runs, key) == HeldAtOnce(runs, key) <==> Brings(runs, k, key) == Brings(runs, p, key)
    ensures !OpenAt(runs, p, key) ==> k == p
  {
    var keeper := KeeperExists(runs, key);
    var first := FirstExists(runs, key);
    OneKeeper(runs, k, keeper, key);
    MergeChampion(Everything(runs), key);
    hide Held, Champion, Brings, EdgesOf, Everything, SubdomainMerge.Merge, OpenAt, Heaviest;
    assert first == p;
    if OpenAt(runs, k, key) { OpenIsPrefix(runs, p, k, key); }
  }
}
