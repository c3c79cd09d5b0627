/**
  The feature dictionary that `get_graph_statistics` (feature_extraction/extraction_utils.py)
  fills in place, and the procedures that update it.
*/
module FeatureEngine {
  import opened Outcomes
  import opened Graphs
  import opened Components
  import opened GraphDensity
  import opened Statistics
  import opened ComponentOrder

  /** A feature dictionary updated in place. */
  class FeatureRecord {
    var values: Record

    /** `instantiate_graph_features`: each statistic of `GRAPH_FEATURES` is set to 0, then `Subgraphs` to 1. */
    constructor ()
      ensures values == InitialRecord()
    {
      var features: Record := map[];
      var i := 0;
      while i < |GraphFeatures|
        invariant 0 <= i <= |GraphFeatures|
        invariant forall s :: s in features <==> s in GraphFeatures[..i]
        invariant forall s :: s in features ==> features[s] == 0.0
      {
        features := features[GraphFeatures[i] := 0.0];
        assert GraphFeatures[..i + 1] == GraphFeatures[..i] + [GraphFeatures[i]];
        i := i + 1;
      }
      features := features[Subgraphs := 1.0];
      assert GraphFeatures[..i] == GraphFeatures;
      forall s ensures s in features <==> s in InitialRecord() {
        InitialRecordKeys(s);
      }
      values := features;
    }

    /** `tally_graph_fragment`: the counter picked for the fragment's size, if any, grows by 1. */
    method TallyGraphFragment(c: Graph)
      requires Full(values)
      modifies this
      ensures values == Tally(old(values), |c.nodes|)
    {
      var counter := FragmentCounter(|c.nodes|);
      if counter.Some? {
        values := values[counter.value := values[counter.value] + 1.0];
      }
    }

    /**
      `get_small_world_features` with weight `w`: Sigma and Omega first, then the seven other
      statistics in source order; the first statistic that raises ends the procedure.
    */
    method AddSmallWorldFeatures(g: Graph, measure: Graph -> Measurements, w: real) returns (status: Status)
      requires Full(values)
      modifies this
      ensures var r := SmallWorld(old(values), measure(g), GetDensity(g), w);
        (status.Completed? <==> r.Ok?) && (r.Ok? ==> values == r.value) && (r.Err? ==> status.error == r.error)
    {
      var m := measure(g);
      ghost var f := values;
      AddNoGains(f);
      AddCoefficient(f, map[], m.sigma, Sigma, SigmaZeroDenominator, w);
      ghost var sigmaGain := CoefficientGain(map[], m.sigma, Sigma, SigmaZeroDenominator, w);
      CoefficientGainCases(map[], m.sigma, Sigma, SigmaZeroDenominator, w);
      AddCoefficient(f, sigmaGain, m.omega, Omega, OmegaZeroDenominator, w);
      assert HasWeighted(f);
      status := AddWeightedStatistics(f, g, m, w);
    }

    /** The seven statistics after Sigma and Omega, in source order; the first one that raises ends the procedure. */
    method AddWeightedStatistics(ghost f: Record, g: Graph, m: Measurements, w: real) returns (status: Status)
      requires HasWeighted(f) && values == AddGains(f, CoefficientGains(m, w))
      modifies this
      ensures var r := SmallWorldGains(m, GetDensity(g), w);
        (status.Completed? <==> r.Ok?) && (r.Ok? ==> values == AddGains(f, r.value))
        && (r.Err? ==> status.error == r.error)
    {
      if m.localEfficiency.None? {
        return Aborted(StatisticRaised);
      }
      values := Increment(values, LocalEfficiency, m.localEfficiency.value * w);
      if m.globalEfficiency.None? {
        return Aborted(StatisticRaised);
      }
      values := Increment(values, GlobalEfficiency, m.globalEfficiency.value * w);
      if m.averageShortestPathLength.None? {
        return Aborted(StatisticRaised);
      }
      values := Increment(values, AverageShortestPathLength, m.averageShortestPathLength.value * w);
      if m.averageNodeConnectivity.None? {
        return Aborted(StatisticRaised);
      }
      values := Increment(values, AverageNodeConnectivity, m.averageNodeConnectivity.value * w);
      var density := GetDensity(g);
      if density.Err? {
        return Aborted(density.error);
      }
      values := Increment(values, Density, density.value * w);
      if m.averageClustering.None? {
        return Aborted(StatisticRaised);
      }
      values := Increment(values, AverageClustering, m.averageClustering.value * w);
      if m.transitivity.None? {
        return Aborted(StatisticRaised);
      }
      values := Increment(values, Transitivity, m.transitivity.value * w);
      MeasuredGainsApplied(f, m, density, w);
      return Completed;
    }

    /**
      One `try` block of `get_small_world_features`: a coefficient that is neither an int nor a float
      is accumulated; one that is, or a call that raised, adds the weight to the zero-denominator entry.
    */
    method AddCoefficient(ghost f: Record, ghost gains: map<Stat, real>, c: Coefficient,
                          value: Stat, zeroDenominator: Stat, w: real)
      requires value in f && zeroDenominator in f && value !in gains && zeroDenominator !in gains
      requires values == AddGains(f, gains)
      modifies this
      ensures values == AddGains(f, CoefficientGain(gains, c, value, zeroDenominator, w))
    {
      CoefficientGainCases(gains, c, value, zeroDenominator, w);
      if c.OtherNumber? {
        Accumulate(f, gains, value, c.x * w);
      } else {
        Accumulate(f, gains, zeroDenominator, w);
      }
    }

    /** `values[s] += x`, for a statistic not yet accumulated in this call. */
    method Accumulate(ghost f: Record, ghost gains: map<Stat, real>, s: Stat, x: real)
      requires s in f && s !in gains && values == AddGains(f, gains)
      modifies this
      ensures values == AddGains(f, gains[s := x])
    {
      AddGainsStep(f, gains, s, x);
      values := values[s := values[s] + x];
    }

    /**
      `get_statistics_from_subgraph_set`: fragments are tallied, and each component of four or more
      nodes is scored with weight `len(subgraph) / Non-isolated Nodes`.
    */
    method StatisticsFromSubgraphSet(subs: seq<Graph>, measure: Graph -> Measurements) returns (status: Status)
      requires Full(values)
      modifies this
      ensures var r := SubgraphSet(old(values), subs, measure);
        (status.Completed? <==> r.Ok?) && (r.Ok? ==> values == r.value) && (r.Err? ==> status.error == r.error)
    {
      var i := 0;
      while i < |subs|
        invariant 0 <= i <= |subs|
        invariant Full(values)
        invariant SubgraphSet(old(values), subs, measure) == SubgraphSet(values, subs[i..], measure)
      {
        var c := subs[i];
        assert subs[i..] == [c] + subs[i + 1..];
        UnfoldFront(values, c, subs[i + 1..], measure);
        status := AddComponent(c, measure);
        if status.Aborted? {
          return;
        }
        i := i + 1;
      }
      return Completed;
    }

    /**
      The body of the loop of `get_statistics_from_subgraph_set`: a fragment of fewer than four nodes is
      tallied; a larger component is scored with weight `len(subgraph) / Non-isolated Nodes`.
    */
    method AddComponent(c: Graph, measure: Graph -> Measurements) returns (status: Status)
      requires Full(values)
      modifies this
      ensures var r := Step(old(values), c, measure);
        (status.Completed? <==> r.Ok?) && (r.Ok? ==> values == r.value) && (r.Err? ==> status.error == r.error)
    {
      if |c.nodes| < 4 {
        TallyGraphFragment(c);
        return Completed;
      }
      if values[NonIsolatedNodes] == 0.0 {
        return Aborted(DivisionByZero);
      }
      var weight := |c.nodes| as real / values[NonIsolatedNodes];
      status := AddSmallWorldFeatures(c, measure, weight);
    }
  }

  /**
    `get_graph_statistics`: a graph without nodes raises, a connected graph is scored whole, and a
    disconnected one is split into its components, which are folded into the record.
  */
  method GetGraphStatistics(g: Graph, measure: Graph -> Measurements) returns (r: Result<Record>)
    ensures r == GraphStatistics(g, measure)
  {
    var connected := IsConnected(g);
    if connected.Err? {
      return Err(connected.error);
    }
    var features := new FeatureRecord();
    var status;
    if connected.value {
      features.values := features.values[NonIsolatedNodes := |g.nodes| as real];
      assert features.values == ConnectedStart(|g.nodes|);
      status := features.AddSmallWorldFeatures(g, measure, 1.0);
    } else {
      var subs := GetSubgraphs(g);
      features.values := features.values[Subgraphs := |subs| as real];
      features.values := features.values[NonIsolatedNodes := NonIsolatedCount(subs) as real];
      assert features.values == DisconnectedStart(subs);
      status := features.StatisticsFromSubgraphSet(subs, measure);
      StatisticsOrderFree(g, subs, measure);
    }
    r := if status.Completed? then Ok(features.values) else Err(status.error);
  }
}
