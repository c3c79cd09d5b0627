/**
  What the aggregation of `get_graph_statistics` and `get_statistics_from_subgraph_set`
  guarantees: node accounting, the weights, the denominator, the Sigma/Omega tally and the
  two shortcuts (connected graphs, single nodes).
*/
module Aggregation {
  import opened Outcomes
  import opened Graphs
  import opened Components
  import opened GraphDensity
  import opened Statistics
  import opened ComponentOrder

  /** The number of components with exactly `k` nodes. */
  function CountOfSize(subs: seq<Graph>, k: nat): nat {
    if subs == [] then 0
    else (if |subs[0].nodes| == k then 1 else 0) + CountOfSize(subs[1..], k)
  }

  /** The total number of nodes of the components. */
  function SizeSum(subs: seq<Graph>): nat {
    if subs == [] then 0 else |subs[0].nodes| + SizeSum(subs[1..])
  }

  /** The nodes of all the components. */
  function NodesOf(subs: seq<Graph>): set<int> {
    if subs == [] then {} else subs[0].nodes + NodesOf(subs[1..])
  }

  /** The weights `len(subgraph) / Non-isolated Nodes` of the components with more than three nodes, summed. */
  function WeightSum(subs: seq<Graph>, denominator: real): real
    requires denominator != 0.0
  {
    if subs == [] then 0.0
    else (if |subs[0].nodes| > 3 then |subs[0].nodes| as real / denominator else 0.0)
         + WeightSum(subs[1..], denominator)
  }

  /** The statistics of a disconnected graph are the fold over any listing of its components. */
  lemma DisconnectedIsFold(g: Graph, subs: seq<Graph>, measure: Graph -> Measurements)
    requires IsComponentList(g, subs) && g.nodes != {} && !Connected(g)
    ensures GraphStatistics(g, measure) == SubgraphSet(DisconnectedStart(subs), subs, measure)
  {
    StatisticsOrderFree(g, subs, measure);
  }

  /** Every component is a fragment of one, two or three nodes or counts towards `Non-isolated Nodes`. */
  lemma {:induction false} SizeSumSplit(subs: seq<Graph>)
    ensures SizeSum(subs) == CountOfSize(subs, 1) + 2 * CountOfSize(subs, 2) + 3 * CountOfSize(subs, 3)
                             + NonIsolatedCount(subs)
    decreases |subs|
  {
    if subs != [] {
      SizeSumSplit(subs[1..]);
    }
  }

  /** Pairwise disjoint components have as many nodes together as apart. */
  lemma {:induction false} DisjointUnionCard(subs: seq<Graph>)
    requires forall i, j :: 0 <= i < j < |subs| ==> subs[i].nodes !! subs[j].nodes
    ensures |NodesOf(subs)| == SizeSum(subs)
    decreases |subs|
  {
    if subs != [] {
      var rest := subs[1..];
      assert forall i, j :: 0 <= i < j < |rest| ==> rest[i].nodes !! rest[j].nodes by {
        forall i, j | 0 <= i < j < |rest| ensures rest[i].nodes !! rest[j].nodes {
          assert rest[i] == subs[i + 1] && rest[j] == subs[j + 1];
        }
      }
      DisjointUnionCard(rest);
      NodesOfMembers(rest);
      forall v, j | v in subs[0].nodes && 0 <= j < |rest| ensures v !in rest[j].nodes {
        assert subs[0].nodes !! subs[j + 1].nodes;
        assert rest[j] == subs[j + 1];
      }
      forall v ensures v !in subs[0].nodes * NodesOf(rest) {
        if v in subs[0].nodes {
          assert !(exists j :: 0 <= j < |rest| && v in rest[j].nodes);
        }
      }
      assert subs[0].nodes * NodesOf(rest) == {};
    }
  }

  /** A node is in `NodesOf(subs)` exactly when some component holds it. */
  lemma {:induction false} NodesOfMembers(subs: seq<Graph>)
    ensures forall v :: v in NodesOf(subs) <==> exists i :: 0 <= i < |subs| && v in subs[i].nodes
    decreases |subs|
  {
    if subs != [] {
      NodesOfMembers(subs[1..]);
      forall v | v in NodesOf(subs) ensures exists i :: 0 <= i < |subs| && v in subs[i].nodes {
        if v !in subs[0].nodes {
          assert v in NodesOf(subs[1..]);
          var j :| 0 <= j < |subs[1..]| && v in subs[1..][j].nodes;
          assert v in subs[j + 1].nodes;
        } else {
          assert 0 < |subs| && v in subs[0].nodes;
        }
      }
      forall v, i | 0 <= i < |subs| && v in subs[i].nodes ensures v in NodesOf(subs) {
        if i > 0 {
          assert v in subs[1..][i - 1].nodes;
        }
      }
    }
  }

  /** The components of a graph hold all its nodes, each once. */
  lemma ComponentSizes(g: Graph, subs: seq<Graph>)
    requires IsComponentList(g, subs)
    ensures SizeSum(subs) == |g.nodes|
  {
    NodesOfMembers(subs);
    DisjointUnionCard(subs);
    forall v | v in NodesOf(subs) ensures v in g.nodes {
      var i :| 0 <= i < |subs| && v in subs[i].nodes;
      assert IsComponent(g, subs[i].nodes);
    }
    forall v | v in g.nodes ensures v in NodesOf(subs) {
      var i :| 0 <= i < |subs| && v in subs[i].nodes;
    }
    assert NodesOf(subs) == g.nodes;
  }

  /** The fold adds one `Isolated Nodes` per single-node component, one `Isolated Pairs` per two-node component and never touches `Isolated Trios`. */
  lemma {:induction false} SubgraphSetTallies(f: Record, subs: seq<Graph>, measure: Graph -> Measurements)
    requires Full(f) && SubgraphSet(f, subs, measure).Ok?
    ensures var r := SubgraphSet(f, subs, measure).value;
      r[IsolatedNodes] == f[IsolatedNodes] + CountOfSize(subs, 1) as real &&
      r[IsolatedPairs] == f[IsolatedPairs] + CountOfSize(subs, 2) as real &&
      r[IsolatedTrios] == f[IsolatedTrios]
    decreases |subs|
  {
    if subs != [] {
      var f1 := Step(f, subs[0], measure).value;
      SubgraphSetTallies(f1, subs[1..], measure);
    }
  }

  /**
    Node accounting of a disconnected graph: single nodes, pairs, the three-node components
    (which leave no trace) and `Non-isolated Nodes` add up to the node count, and `Isolated Trios` stays 0.
  */
  lemma NodeAccounting(g: Graph, subs: seq<Graph>, measure: Graph -> Measurements)
    requires IsComponentList(g, subs) && g.nodes != {} && !Connected(g)
    requires GraphStatistics(g, measure).Ok?
    ensures var r := GraphStatistics(g, measure).value;
      r[IsolatedNodes] + 2.0 * r[IsolatedPairs] + 3.0 * CountOfSize(subs, 3) as real + r[NonIsolatedNodes]
        == |g.nodes| as real
      && r[IsolatedTrios] == 0.0
      && r[Subgraphs] == |subs| as real
  {
    StatisticsOrderFree(g, subs, measure);
    var f := DisconnectedStart(subs);
    SubgraphSetTallies(f, subs, measure);
    ComponentSizes(g, subs);
    SizeSumSplit(subs);
  }

  /** The weights of the components with more than three nodes sum to 1. */
  lemma {:induction false} WeightsSumToOne(subs: seq<Graph>)
    requires NonIsolatedCount(subs) > 0
    ensures WeightSum(subs, NonIsolatedCount(subs) as real) == 1.0
  {
    var d := NonIsolatedCount(subs) as real;
    ScaledWeightSum(subs, d);
    CancelDenominator(WeightSum(subs, d), d, NonIsolatedCount(subs));
  }

  lemma CancelDenominator(x: real, d: real, n: nat)
    requires d == n as real && d != 0.0 && x * d == n as real
    ensures x == 1.0
  {
    assert (x - 1.0) * d == 0.0;
  }

  lemma {:induction false} ScaledWeightSum(subs: seq<Graph>, d: real)
    requires d != 0.0
    ensures WeightSum(subs, d) * d == NonIsolatedCount(subs) as real
    decreases |subs|
  {
    if subs != [] {
      ScaledWeightSum(subs[1..], d);
      var head := if |subs[0].nodes| > 3 then |subs[0].nodes| as real / d else 0.0;
      assert head * d == (if |subs[0].nodes| > 3 then |subs[0].nodes| as real else 0.0);
      calc {
        WeightSum(subs, d) * d;
        (head + WeightSum(subs[1..], d)) * d;
        head * d + WeightSum(subs[1..], d) * d;
      }
    }
  }

  /** A component listed in `subs` with more than three nodes is counted whole in `NonIsolatedCount`. */
  lemma {:induction false} NonIsolatedCountAtLeast(subs: seq<Graph>, i: nat)
    requires i < |subs| && |subs[i].nodes| > 3
    ensures NonIsolatedCount(subs) >= |subs[i].nodes|
    decreases |subs|
  {
    if i > 0 {
      NonIsolatedCountAtLeast(subs[1..], i - 1);
    }
  }

  /** The fold fails only at a component with more than three nodes, with the error `Step` gives for the record's denominator. */
  lemma {:induction false} SubgraphSetFailure(f: Record, subs: seq<Graph>, measure: Graph -> Measurements)
    requires Full(f) && SubgraphSet(f, subs, measure).Err?
    ensures exists i :: 0 <= i < |subs| && |subs[i].nodes| >= 4
    ensures SubgraphSet(f, subs, measure).error ==
      if f[NonIsolatedNodes] == 0.0 then DivisionByZero else StatisticRaised
    decreases |subs|
  {
    var r := Step(f, subs[0], measure);
    if r.Ok? {
      SubgraphSetFailure(r.value, subs[1..], measure);
      var i :| 0 <= i < |subs[1..]| && |subs[1..][i].nodes| >= 4;
      assert subs[i + 1] == subs[1..][i];
    }
  }

  /**
    The denominator of the weights is at least 4 whenever a weight is computed, so a disconnected
    graph never fails with a division by zero: its only failures are statistics that raised.
  */
  lemma DisconnectedFailures(g: Graph, subs: seq<Graph>, measure: Graph -> Measurements)
    requires IsComponentList(g, subs) && g.nodes != {} && !Connected(g)
    requires GraphStatistics(g, measure).Err?
    ensures GraphStatistics(g, measure).error == StatisticRaised
    ensures NonIsolatedCount(subs) >= 4
  {
    StatisticsOrderFree(g, subs, measure);
    var f := DisconnectedStart(subs);
    SubgraphSetFailure(f, subs, measure);
    var i :| 0 <= i < |subs| && |subs[i].nodes| >= 4;
    NonIsolatedCountAtLeast(subs, i);
  }

  /** When no large component has a Sigma of another numeric type, every weight goes to `Sigma Zero Denominator`. */
  lemma {:induction false} SigmaFallback(f: Record, subs: seq<Graph>, measure: Graph -> Measurements)
    requires Full(f) && f[NonIsolatedNodes] != 0.0 && SubgraphSet(f, subs, measure).Ok?
    requires forall i :: 0 <= i < |subs| && |subs[i].nodes| > 3 ==> !measure(subs[i]).sigma.OtherNumber?
    ensures var r := SubgraphSet(f, subs, measure).value;
      r[SigmaZeroDenominator] == f[SigmaZeroDenominator] + WeightSum(subs, f[NonIsolatedNodes])
      && r[Sigma] == f[Sigma]
    decreases |subs|
  {
    if subs != [] {
      var c := subs[0];
      var f1 := Step(f, c, measure).value;
      if |c.nodes| > 3 {
        SigmaRule(f, measure(c), GetDensity(c), |c.nodes| as real / f[NonIsolatedNodes]);
      }
      SigmaFallback(f1, subs[1..], measure);
    }
  }

  /** No component with more than three nodes has a Sigma of a numeric type other than int or float. */
  ghost predicate NoOtherSigma(subs: seq<Graph>, measure: Graph -> Measurements) {
    forall i :: 0 <= i < |subs| && |subs[i].nodes| > 3 ==> !measure(subs[i]).sigma.OtherNumber?
  }

  /** The Sigma tally of the fold over the components of a disconnected graph. */
  lemma SigmaFromZero(subs: seq<Graph>, measure: Graph -> Measurements)
    requires NoOtherSigma(subs, measure)
    requires SubgraphSet(DisconnectedStart(subs), subs, measure).Ok?
    ensures var r := SubgraphSet(DisconnectedStart(subs), subs, measure).value;
      r[Sigma] == 0.0 &&
      r[SigmaZeroDenominator] == if NonIsolatedCount(subs) > 0 then 1.0 else 0.0
  {
    if NonIsolatedCount(subs) > 0 {
      SigmaFromZeroLarge(subs, measure);
    } else {
      NoLargeSigma(subs, measure);
    }
  }

  /** Without a large component neither Sigma entry is touched. */
  lemma NoLargeSigma(subs: seq<Graph>, measure: Graph -> Measurements)
    requires NonIsolatedCount(subs) == 0
    ensures var r := SubgraphSet(DisconnectedStart(subs), subs, measure);
      r.Ok? && r.value[Sigma] == 0.0 && r.value[SigmaZeroDenominator] == 0.0
  {
    var f := DisconnectedStart(subs);
    NoLargeComponents(f, subs, measure);
    assert f[Sigma] == 0.0 && f[SigmaZeroDenominator] == 0.0;
  }

  /** With a large component, the weights tallied under `Sigma Zero Denominator` sum to 1. */
  lemma SigmaFromZeroLarge(subs: seq<Graph>, measure: Graph -> Measurements)
    requires NoOtherSigma(subs, measure) && NonIsolatedCount(subs) > 0
    requires SubgraphSet(DisconnectedStart(subs), subs, measure).Ok?
    ensures var r := SubgraphSet(DisconnectedStart(subs), subs, measure).value;
      r[Sigma] == 0.0 && r[SigmaZeroDenominator] == 1.0
  {
    var f := DisconnectedStart(subs);
    SigmaFallback(f, subs, measure);
    WeightsSumToOne(subs);
  }

  /**
    A disconnected graph whose large components all give an int or float Sigma (or raise) scores
    `Sigma` 0 and `Sigma Zero Denominator` 1 when it has a large component, 0 otherwise.
  */
  lemma SigmaZeroDenominatorTotal(g: Graph, subs: seq<Graph>, measure: Graph -> Measurements)
    requires IsComponentList(g, subs) && g.nodes != {} && !Connected(g)
    requires NoOtherSigma(subs, measure)
    requires GraphStatistics(g, measure).Ok?
    ensures var r := GraphStatistics(g, measure).value;
      r[Sigma] == 0.0 &&
      r[SigmaZeroDenominator] == if NonIsolatedCount(subs) > 0 then 1.0 else 0.0
  {
    DisconnectedIsFold(g, subs, measure);
    SigmaFromZero(subs, measure);
  }

  /** Without a component of more than three nodes the fold only tallies fragments. */
  lemma {:induction false} NoLargeComponents(f: Record, subs: seq<Graph>, measure: Graph -> Measurements)
    requires Full(f) && NonIsolatedCount(subs) == 0
    ensures SubgraphSet(f, subs, measure).Ok?
    ensures forall s :: s != IsolatedNodes && s != IsolatedPairs ==> SubgraphSet(f, subs, measure).value[s] == f[s]
    decreases |subs|
  {
    if subs != [] {
      NoLargeComponents(Step(f, subs[0], measure).value, subs[1..], measure);
    }
  }

  /**
    A connected graph is scored whole: weight 1, `Non-isolated Nodes` its node count, one subgraph,
    no fragments, and each of the seven weighted statistics its own reading.
  */
  lemma ConnectedScoredWhole(g: Graph, measure: Graph -> Measurements)
    requires g.nodes != {} && Connected(g)
    ensures GraphStatistics(g, measure).Ok? <==> Measured(measure(g), GetDensity(g))
    ensures GraphStatistics(g, measure).Ok? ==>
      var r := GraphStatistics(g, measure).value;
      r[NonIsolatedNodes] == |g.nodes| as real && r[Subgraphs] == 1.0 &&
      r[IsolatedNodes] == 0.0 && r[IsolatedPairs] == 0.0 && r[IsolatedTrios] == 0.0 &&
      forall s :: s in WeightedStats ==> Reading(measure(g), GetDensity(g), s) == Some(r[s])
  {
    if Measured(measure(g), GetDensity(g)) {
      ScoredWhole(|g.nodes|, measure(g), GetDensity(g));
    }
  }

  /** With weight 1 from the start record of a connected graph, each weighted statistic is its own reading. */
  lemma ScoredWhole(n: nat, m: Measurements, density: Result<real>)
    requires Measured(m, density)
    ensures var r := SmallWorld(ConnectedStart(n), m, density, 1.0).value;
      r[NonIsolatedNodes] == n as real && r[Subgraphs] == 1.0 &&
      r[IsolatedNodes] == 0.0 && r[IsolatedPairs] == 0.0 && r[IsolatedTrios] == 0.0 &&
      forall s :: s in WeightedStats ==> Reading(m, density, s) == Some(r[s])
  {
    var f := ConnectedStart(n);
    forall s | s in WeightedStats
      ensures Reading(m, density, s) == Some(SmallWorld(f, m, density, 1.0).value[s])
    {
      WholeReading(f, m, density, s);
    }
  }

  /** With weight 1 a weighted statistic that starts at 0 ends at its reading. */
  lemma WholeReading(f: Record, m: Measurements, density: Result<real>, s: Stat)
    requires Full(f) && Measured(m, density) && s in WeightedStats && f[s] == 0.0
    ensures Reading(m, density, s) == Some(SmallWorld(f, m, density, 1.0).value[s])
  {
    SmallWorldWeighted(f, m, density, 1.0, s);
  }

  /** A graph of one node is connected, and its density divides by zero, so it always fails. */
  lemma SingleNodeFails(g: Graph, measure: Graph -> Measurements)
    requires |g.nodes| == 1
    ensures GraphStatistics(g, measure).Err?
  {
    NonEmpty(g.nodes);
    var u :| u in g.nodes;
    forall v, w | v in g.nodes && w in g.nodes ensures Reachable(g, v, w) {
      assert v == u && w == u by {
        assert g.nodes == {u} by {
          assert {u} <= g.nodes;
          assert |g.nodes - {u}| == 0;
        }
      }
      ReachableRefl(g, u);
    }
    assert GetDensity(g).Err?;
  }
}
