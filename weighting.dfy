/**
  The weighted sums `get_statistics_from_subgraph_set` accumulates: each component with more than
  three nodes adds its readings times its weight `len(subgraph) / Non-isolated Nodes`, and Sigma and
  Omega split each weight between their value and zero-denominator entries.
*/
module Weighting {
  import opened Outcomes
  import opened Graphs
  import opened Components
  import opened GraphDensity
  import opened Statistics
  import opened Aggregation

  /** The weight `len(subgraph) / Non-isolated Nodes` of a component, 0 for a fragment of at most three nodes. */
  function Weight(c: Graph, denominator: real): real
    requires denominator != 0.0
  {
    if |c.nodes| > 3 then |c.nodes| as real / denominator else 0.0
  }

  /**
    What one call of `get_small_world_features` adds to one entry: a weighted statistic's reading times
    the weight, Sigma's (Omega's) coefficient times the weight, or the weight tallied under the
    coefficient's zero-denominator entry.
  */
  datatype Contribution = WeightedReading(stat: Stat) | CoefficientValue(value: Stat) | CoefficientFallback(value: Stat)

  /** The contributions the function makes: the seven weighted statistics and the two coefficients. */
  predicate Made(k: Contribution) {
    match k
    case WeightedReading(s) => s in WeightedStats
    case CoefficientValue(value) => value == Sigma || value == Omega
    case CoefficientFallback(value) => value == Sigma || value == Omega
  }

  /** The zero-denominator entry of `Sigma` or `Omega`. */
  function ZeroDenominatorOf(value: Stat): Stat {
    if value == Sigma then SigmaZeroDenominator else OmegaZeroDenominator
  }

  /** The entry a contribution goes to. */
  function Entry(k: Contribution): Stat {
    match k
    case WeightedReading(s) => s
    case CoefficientValue(value) => value
    case CoefficientFallback(value) => ZeroDenominatorOf(value)
  }

  /** The coefficient a `value` entry accumulates: sigma for `Sigma`, omega for `Omega`. */
  function CoefficientOf(m: Measurements, value: Stat): Coefficient {
    if value == Sigma then m.sigma else m.omega
  }

  /** The amount contribution `k` adds for readings `m`, `density` and weight `w`. */
  function Amount(k: Contribution, m: Measurements, density: Result<real>, w: real): real {
    match k
    case WeightedReading(s) =>
      var r := Reading(m, density, s);
      if r.Some? then r.value * w else 0.0
    case CoefficientValue(value) =>
      var c := CoefficientOf(m, value);
      if c.OtherNumber? then c.x * w else 0.0
    case CoefficientFallback(value) => if CoefficientOf(m, value).OtherNumber? then 0.0 else w
  }

  /** The sum of the amounts of contribution `k` over the components with more than three nodes, each with its weight. */
  function LargeSum(subs: seq<Graph>, measure: Graph -> Measurements, k: Contribution, denominator: real): real
    requires denominator != 0.0
  {
    if subs == [] then 0.0
    else (if |subs[0].nodes| > 3 then Amount(k, measure(subs[0]), GetDensity(subs[0]), Weight(subs[0], denominator)) else 0.0)
         + LargeSum(subs[1..], measure, k, denominator)
  }

  /** The sum over the components with more than three nodes of the reading of `s` times the weight. */
  function WeightedTotal(subs: seq<Graph>, measure: Graph -> Measurements, s: Stat, denominator: real): real
    requires denominator != 0.0
  {
    LargeSum(subs, measure, WeightedReading(s), denominator)
  }

  /** The weighted coefficients of the large components whose coefficient is of another numeric type, summed. */
  function CoefficientTotal(subs: seq<Graph>, measure: Graph -> Measurements, value: Stat, denominator: real): real
    requires denominator != 0.0
  {
    LargeSum(subs, measure, CoefficientValue(value), denominator)
  }

  /** The weights of the large components whose coefficient raised or was an int or float, summed. */
  function FallbackWeight(subs: seq<Graph>, measure: Graph -> Measurements, value: Stat, denominator: real): real
    requires denominator != 0.0
  {
    LargeSum(subs, measure, CoefficientFallback(value), denominator)
  }

  /** The weights of the large components whose coefficient is of another numeric type, summed. */
  function ScoredWeight(subs: seq<Graph>, measure: Graph -> Measurements, value: Stat, denominator: real): real
    requires denominator != 0.0
  {
    if subs == [] then 0.0
    else (if CoefficientOf(measure(subs[0]), value).OtherNumber? then Weight(subs[0], denominator) else 0.0)
         + ScoredWeight(subs[1..], measure, value, denominator)
  }

  /** A completed call of `get_small_world_features` had every statistic computed. */
  lemma SmallWorldMeasured(f: Record, m: Measurements, density: Result<real>, w: real)
    requires Full(f) && SmallWorld(f, m, density, w).Ok?
    ensures Measured(m, density)
  {
  }

  /** A completed call adds the reading of a weighted statistic times the weight. */
  lemma WeightedContribution(f: Record, m: Measurements, density: Result<real>, w: real, s: Stat)
    requires Full(f) && s in WeightedStats && SmallWorld(f, m, density, w).Ok?
    ensures var r := Reading(m, density, s);
      r.Some? && SmallWorld(f, m, density, w).value[s] == f[s] + r.value * w
  {
    SmallWorldMeasured(f, m, density, w);
    SmallWorldWeighted(f, m, density, w, s);
  }

  /** The Sigma and Omega rules of one completed call, for either coefficient. */
  lemma CoefficientContribution(f: Record, m: Measurements, density: Result<real>, w: real, value: Stat)
    requires Full(f) && (value == Sigma || value == Omega) && SmallWorld(f, m, density, w).Ok?
    ensures var r := SmallWorld(f, m, density, w).value;
      var c := CoefficientOf(m, value);
      r[value] == f[value] + (if c.OtherNumber? then c.x * w else 0.0) &&
      r[ZeroDenominatorOf(value)] == f[ZeroDenominatorOf(value)] + (if c.OtherNumber? then 0.0 else w)
  {
    SmallWorldMeasured(f, m, density, w);
    if value == Sigma {
      SigmaRule(f, m, density, w);
    } else {
      OmegaRule(f, m, density, w);
    }
  }

  /** Every completed call of `get_small_world_features` adds the amount of each contribution to its entry. */
  lemma SmallWorldAdds(f: Record, m: Measurements, density: Result<real>, w: real, k: Contribution)
    requires Full(f) && Made(k) && SmallWorld(f, m, density, w).Ok?
    ensures SmallWorld(f, m, density, w).value[Entry(k)] == f[Entry(k)] + Amount(k, m, density, w)
  {
    match k
    case WeightedReading(s) =>
      WeightedContribution(f, m, density, w, s);
      Entries(s);
      WeightedAmount(s, m, density, w);
    case CoefficientValue(value) =>
      CoefficientContribution(f, m, density, w, value);
      Entries(value);
      CoefficientAmounts(value, m, density, w);
    case CoefficientFallback(value) =>
      CoefficientContribution(f, m, density, w, value);
      Entries(value);
      CoefficientAmounts(value, m, density, w);
  }

  /** The entries of the contributions, spelled out. */
  lemma Entries(s: Stat)
    ensures Entry(WeightedReading(s)) == s && Entry(CoefficientValue(s)) == s
    ensures Entry(CoefficientFallback(s)) == ZeroDenominatorOf(s)
  {
  }

  /** The entry of a contribution the function makes is never a counter. */
  lemma EntryNotCounter(k: Contribution)
    requires Made(k)
    ensures Entry(k) !in {NonIsolatedNodes, Subgraphs, IsolatedNodes, IsolatedPairs}
  {
  }

  /** The amount of a weighted reading, spelled out. */
  lemma WeightedAmount(s: Stat, m: Measurements, density: Result<real>, w: real)
    ensures var r := Reading(m, density, s);
      Amount(WeightedReading(s), m, density, w) == if r.Some? then r.value * w else 0.0
  {
  }

  /** The amounts of a coefficient, spelled out. */
  lemma CoefficientAmounts(value: Stat, m: Measurements, density: Result<real>, w: real)
    ensures var c := CoefficientOf(m, value);
      Amount(CoefficientValue(value), m, density, w) == (if c.OtherNumber? then c.x * w else 0.0) &&
      Amount(CoefficientFallback(value), m, density, w) == (if c.OtherNumber? then 0.0 else w)
  {
  }

  /** A pass over a component of more than three nodes is a call of `get_small_world_features` with the component's weight. */
  lemma StepScored(f: Record, c: Graph, measure: Graph -> Measurements)
    requires Full(f) && f[NonIsolatedNodes] != 0.0 && |c.nodes| > 3
    ensures Step(f, c, measure) == SmallWorld(f, measure(c), GetDensity(c), Weight(c, f[NonIsolatedNodes]))
  {
  }

  /** A pass over a fragment of at most three nodes leaves every statistic but the two fragment counters alone. */
  lemma FragmentStep(f: Record, c: Graph, measure: Graph -> Measurements, s: Stat)
    requires Full(f) && s != IsolatedNodes && s != IsolatedPairs && |c.nodes| <= 3
    ensures Step(f, c, measure).Ok? && Step(f, c, measure).value[s] == f[s]
  {
    assert Step(f, c, measure) == Ok(Tally(f, |c.nodes|));
  }

  /** A completed pass adds the amount of a large component, with its weight, and nothing for a fragment. */
  lemma StepAdds(f: Record, c: Graph, measure: Graph -> Measurements, k: Contribution)
    requires Full(f) && f[NonIsolatedNodes] != 0.0 && Made(k) && Step(f, c, measure).Ok?
    ensures Step(f, c, measure).value[Entry(k)] == f[Entry(k)] +
      if |c.nodes| > 3 then Amount(k, measure(c), GetDensity(c), Weight(c, f[NonIsolatedNodes])) else 0.0
  {
    if |c.nodes| > 3 {
      StepScored(f, c, measure);
      SmallWorldAdds(f, measure(c), GetDensity(c), Weight(c, f[NonIsolatedNodes]), k);
    } else {
      FragmentStep(f, c, measure, Entry(k));
    }
  }

  /** A completed fold over a non-empty list is a completed first pass followed by the fold over the rest. */
  lemma SubgraphSetCons(f: Record, subs: seq<Graph>, measure: Graph -> Measurements)
    requires Full(f) && subs != [] && SubgraphSet(f, subs, measure).Ok?
    ensures Step(f, subs[0], measure).Ok?
    ensures SubgraphSet(f, subs, measure) == SubgraphSet(Step(f, subs[0], measure).value, subs[1..], measure)
  {
  }

  /** Adding `a` and then `rest` adds their sum. */
  lemma SumStep(start: real, next: real, result: real, a: real, total: real, rest: real)
    requires next == start + a && result == next + rest && total == a + rest
    ensures result == start + total
  {
  }

  /**
    A completed fold adds to the entry of each contribution its amounts over the components with more
    than three nodes, each weighted by `len(subgraph) / Non-isolated Nodes`.
  */
  lemma {:induction false} FoldAdds(f: Record, subs: seq<Graph>, measure: Graph -> Measurements, k: Contribution)
    requires Full(f) && f[NonIsolatedNodes] != 0.0 && Made(k) && SubgraphSet(f, subs, measure).Ok?
    ensures SubgraphSet(f, subs, measure).value[Entry(k)] == f[Entry(k)] + LargeSum(subs, measure, k, f[NonIsolatedNodes])
    decreases |subs|
  {
    if subs != [] {
      var c, d := subs[0], f[NonIsolatedNodes];
      SubgraphSetCons(f, subs, measure);
      var f1 := Step(f, c, measure).value;
      StepAdds(f, c, measure, k);
      FoldAdds(f1, subs[1..], measure, k);
      SumStep(f[Entry(k)], f1[Entry(k)], SubgraphSet(f1, subs[1..], measure).value[Entry(k)],
              if |c.nodes| > 3 then Amount(k, measure(c), GetDensity(c), Weight(c, d)) else 0.0,
              LargeSum(subs, measure, k, d), LargeSum(subs[1..], measure, k, d));
    }
  }

  /**
    A disconnected graph scores the entry of each contribution as the contribution's amounts over the
    components with more than three nodes, each weighted by `len(subgraph) / Non-isolated Nodes`; with
    no such component the entry stays 0.
  */
  lemma DisconnectedAdds(g: Graph, subs: seq<Graph>, measure: Graph -> Measurements, k: Contribution)
    requires IsComponentList(g, subs) && g.nodes != {} && !Connected(g)
    requires GraphStatistics(g, measure).Ok? && Made(k)
    ensures GraphStatistics(g, measure).value[Entry(k)] ==
      if NonIsolatedCount(subs) == 0 then 0.0 else LargeSum(subs, measure, k, NonIsolatedCount(subs) as real)
  {
    DisconnectedIsFold(g, subs, measure);
    StartAdds(subs, measure, k);
  }

  /** The fold from the start record of a disconnected graph adds the amounts to an entry that starts at 0. */
  lemma StartAdds(subs: seq<Graph>, measure: Graph -> Measurements, k: Contribution)
    requires SubgraphSet(DisconnectedStart(subs), subs, measure).Ok? && Made(k)
    ensures SubgraphSet(DisconnectedStart(subs), subs, measure).value[Entry(k)] ==
      if NonIsolatedCount(subs) == 0 then 0.0 else LargeSum(subs, measure, k, NonIsolatedCount(subs) as real)
  {
    var f := DisconnectedStart(subs);
    EntryNotCounter(k);
    assert f[Entry(k)] == 0.0;
    if NonIsolatedCount(subs) == 0 {
      NoLargeComponents(f, subs, measure);
    } else {
      FoldAdds(f, subs, measure, k);
    }
  }

  /** A disconnected graph scores each weighted statistic as the weighted sum of its large components' readings. */
  lemma DisconnectedWeighted(g: Graph, subs: seq<Graph>, measure: Graph -> Measurements, s: Stat)
    requires IsComponentList(g, subs) && g.nodes != {} && !Connected(g)
    requires GraphStatistics(g, measure).Ok? && s in WeightedStats
    ensures GraphStatistics(g, measure).value[s] ==
      if NonIsolatedCount(subs) == 0 then 0.0 else WeightedTotal(subs, measure, s, NonIsolatedCount(subs) as real)
  {
    Entries(s);
    DisconnectedAdds(g, subs, measure, WeightedReading(s));
  }

  /** Every large component's weight goes either to the coefficient's value entry or to its zero-denominator entry. */
  lemma {:induction false} FallbackSplitsWeights(subs: seq<Graph>, measure: Graph -> Measurements, value: Stat, denominator: real)
    requires denominator != 0.0
    ensures FallbackWeight(subs, measure, value, denominator) + ScoredWeight(subs, measure, value, denominator)
            == WeightSum(subs, denominator)
    decreases |subs|
  {
    if subs != [] {
      FallbackSplitsWeights(subs[1..], measure, value, denominator);
    }
  }

  /**
    A disconnected graph scores `Sigma` (`Omega`) as the weighted sum of the coefficients of another numeric
    type, and the zero-denominator entry as the weight of the other large components; the weights that go to
    either entry add up to 1 when there is a large component.
  */
  lemma DisconnectedCoefficients(g: Graph, subs: seq<Graph>, measure: Graph -> Measurements, value: Stat)
    requires IsComponentList(g, subs) && g.nodes != {} && !Connected(g)
    requires GraphStatistics(g, measure).Ok? && (value == Sigma || value == Omega)
    ensures var r := GraphStatistics(g, measure).value;
      var zeroDenominator := ZeroDenominatorOf(value);
      if NonIsolatedCount(subs) == 0 then r[value] == 0.0 && r[zeroDenominator] == 0.0
      else
        var d := NonIsolatedCount(subs) as real;
        r[value] == CoefficientTotal(subs, measure, value, d) &&
        r[zeroDenominator] == FallbackWeight(subs, measure, value, d) &&
        r[zeroDenominator] + ScoredWeight(subs, measure, value, d) == 1.0
  {
    Entries(value);
    DisconnectedAdds(g, subs, measure, CoefficientValue(value));
    DisconnectedAdds(g, subs, measure, CoefficientFallback(value));
    if NonIsolatedCount(subs) != 0 {
      FallbackSplitsWeights(subs, measure, value, NonIsolatedCount(subs) as real);
      WeightsSumToOne(subs);
    }
  }
}
