/**
  The feature record of the graph feature engine and the rules that fill it:
  `instantiate_graph_features`, `get_small_world_features`, `tally_graph_fragment`,
  `get_statistics_from_subgraph_set` and `get_graph_statistics`
  (feature_extraction/extraction_utils.py), stated as functions on records.
*/
module Statistics {
  import opened Outcomes
  import opened Graphs
  import opened Components
  import opened GraphDensity

  /** The keys of the feature dictionary. */
  datatype Stat =
    | IsolatedNodes | IsolatedPairs | IsolatedTrios
    | GlobalEfficiency | LocalEfficiency
    | OmegaZeroDenominator | Omega | SigmaZeroDenominator | Sigma
    | AverageShortestPathLength | AverageNodeConnectivity
    | Density | AverageClustering | Transitivity
    | Subgraphs | NonIsolatedNodes

  /** The dictionary key of each feature. */
  function Name(s: Stat): string {
    match s
    case IsolatedNodes => "Isolated Nodes"
    case IsolatedPairs => "Isolated Pairs"
    case IsolatedTrios => "Isolated Trios"
    case GlobalEfficiency => "Global Efficiency"
    case LocalEfficiency => "Local Efficiency"
    case OmegaZeroDenominator => "Omega Zero Denominator"
    case Omega => "Omega"
    case SigmaZeroDenominator => "Sigma Zero Denominator"
    case Sigma => "Sigma"
    case AverageShortestPathLength => "Average Shortest Path Length"
    case AverageNodeConnectivity => "Average Node Connectivity"
    case Density => "Density"
    case AverageClustering => "Average Clustering"
    case Transitivity => "Transitivity"
    case Subgraphs => "Subgraphs"
    case NonIsolatedNodes => "Non-isolated Nodes"
  }

  /** `GRAPH_FEATURES`: the statistics set to 0 before any accumulation, in source order. */
  const GraphFeatures: seq<Stat> := [
    IsolatedNodes, IsolatedPairs, IsolatedTrios, GlobalEfficiency,
    LocalEfficiency, OmegaZeroDenominator, Omega, SigmaZeroDenominator, Sigma,
    AverageShortestPathLength, AverageNodeConnectivity,
    Density, AverageClustering, Transitivity]

  /** A feature dictionary. Python mixes int counts and float statistics; both are reals here. */
  type Record = map<Stat, real>

  /** Every key is present, `Non-isolated Nodes` included. */
  ghost predicate Full(f: Record) {
    forall s: Stat :: s in f
  }

  /** The dictionary `instantiate_graph_features` returns: 14 zero statistics and `Subgraphs` = 1. */
  function InitialRecord(): (r: Record)
    ensures forall s :: s in r ==> r[s] == if s == Subgraphs then 1.0 else 0.0
  {
    map[
      IsolatedNodes := 0.0, IsolatedPairs := 0.0, IsolatedTrios := 0.0, GlobalEfficiency := 0.0,
      LocalEfficiency := 0.0, OmegaZeroDenominator := 0.0, Omega := 0.0, SigmaZeroDenominator := 0.0,
      Sigma := 0.0, AverageShortestPathLength := 0.0, AverageNodeConnectivity := 0.0,
      Density := 0.0, AverageClustering := 0.0, Transitivity := 0.0, Subgraphs := 1.0]
  }

  /** `instantiate_graph_features` sets every statistic except `Non-isolated Nodes`. */
  lemma InitialRecordKeys(s: Stat)
    ensures s in InitialRecord() <==> s != NonIsolatedNodes
  {
    match s
    case NonIsolatedNodes =>
    case _ =>
  }

  /** Once `Non-isolated Nodes` is set, the initial record holds every key. */
  lemma InitialRecordFull(subgraphs: real, x: real)
    ensures Full(InitialRecord()[NonIsolatedNodes := x])
    ensures Full(InitialRecord()[Subgraphs := subgraphs][NonIsolatedNodes := x])
  {
    var r1 := InitialRecord()[NonIsolatedNodes := x];
    var r2 := InitialRecord()[Subgraphs := subgraphs][NonIsolatedNodes := x];
    forall s: Stat ensures s in r1 && s in r2 {
      InitialRecordKeys(s);
    }
  }

  /** The record a connected graph of `n` nodes is scored into. */
  function ConnectedStart(n: nat): (f: Record)
    ensures Full(f)
    ensures f[NonIsolatedNodes] == n as real && f[Subgraphs] == 1.0
    ensures forall s :: s != NonIsolatedNodes && s != Subgraphs ==> f[s] == 0.0
  {
    InitialRecordFull(1.0, n as real);
    InitialRecord()[NonIsolatedNodes := n as real]
  }

  /** The record the components of a disconnected graph are folded into. */
  function DisconnectedStart(subs: seq<Graph>): (f: Record)
    ensures Full(f)
    ensures f[NonIsolatedNodes] == NonIsolatedCount(subs) as real && f[Subgraphs] == |subs| as real
    ensures forall s :: s != NonIsolatedNodes && s != Subgraphs ==> f[s] == 0.0
  {
    InitialRecordFull(|subs| as real, NonIsolatedCount(subs) as real);
    InitialRecord()[Subgraphs := |subs| as real][NonIsolatedNodes := NonIsolatedCount(subs) as real]
  }

  /** What `nx.sigma` or `nx.omega` gave: an exception, a Python `int`/`float`, or a value of another numeric type. */
  datatype Coefficient = Raised | IntOrFloat(x: real) | OtherNumber(x: real)

  /** The graph-library statistics of one graph; `None` where the library call raised. */
  datatype Measurements = Measurements(
    sigma: Coefficient,
    omega: Coefficient,
    localEfficiency: Option<real>,
    globalEfficiency: Option<real>,
    averageShortestPathLength: Option<real>,
    averageNodeConnectivity: Option<real>,
    averageClustering: Option<real>,
    transitivity: Option<real>)

  /** Adds each amount of `d` to the matching entry of `f`. */
  function AddGains(f: Record, d: map<Stat, real>): (r: Record)
    ensures r.Keys == f.Keys
    ensures forall s :: s in f ==> r[s] == f[s] + (if s in d then d[s] else 0.0)
  {
    map s | s in f :: f[s] + (if s in d then d[s] else 0.0)
  }

  /** Adds the gain of a Sigma or Omega coefficient to `d`: a value that is neither an int nor a float is accumulated; otherwise the weight is tallied. */
  function CoefficientGain(d: map<Stat, real>, c: Coefficient, value: Stat, zeroDenominator: Stat, w: real): map<Stat, real> {
    if c.OtherNumber? then d[value := c.x * w] else d[zeroDenominator := w]
  }

  lemma CoefficientGainCases(d: map<Stat, real>, c: Coefficient, value: Stat, zeroDenominator: Stat, w: real)
    ensures c.OtherNumber? ==> CoefficientGain(d, c, value, zeroDenominator, w) == d[value := c.x * w]
    ensures !c.OtherNumber? ==> CoefficientGain(d, c, value, zeroDenominator, w) == d[zeroDenominator := w]
  {
  }

  /** The amounts the Sigma and Omega blocks of `get_small_world_features` add; they never raise. */
  function CoefficientGains(m: Measurements, w: real): (d: map<Stat, real>)
    ensures d.Keys <= {Sigma, SigmaZeroDenominator, Omega, OmegaZeroDenominator}
  {
    CoefficientGain(CoefficientGain(map[], m.sigma, Sigma, SigmaZeroDenominator, w),
                    m.omega, Omega, OmegaZeroDenominator, w)
  }

  /** None of the seven weighted statistics has an amount in `d` yet. */
  predicate NoWeightedGains(d: map<Stat, real>) {
    LocalEfficiency !in d && GlobalEfficiency !in d && AverageShortestPathLength !in d
    && AverageNodeConnectivity !in d && Density !in d && AverageClustering !in d && Transitivity !in d
  }

  /** The record has an entry for each of the seven weighted statistics. */
  predicate HasWeighted(f: Record) {
    LocalEfficiency in f && GlobalEfficiency in f && AverageShortestPathLength in f
    && AverageNodeConnectivity in f && Density in f && AverageClustering in f && Transitivity in f
  }

  /** The amounts one call of `get_small_world_features` with weight `w` adds, or the exception it raises. */
  function SmallWorldGains(m: Measurements, density: Result<real>, w: real): Result<map<Stat, real>> {
    if m.localEfficiency.None? || m.globalEfficiency.None?
       || m.averageShortestPathLength.None? || m.averageNodeConnectivity.None? then
      Err(StatisticRaised)
    else if density.Err? then
      Err(density.error)
    else if m.averageClustering.None? || m.transitivity.None? then
      Err(StatisticRaised)
    else
      Ok(CoefficientGains(m, w)
           [LocalEfficiency := m.localEfficiency.value * w]
           [GlobalEfficiency := m.globalEfficiency.value * w]
           [AverageShortestPathLength := m.averageShortestPathLength.value * w]
           [AverageNodeConnectivity := m.averageNodeConnectivity.value * w]
           [Density := density.value * w]
           [AverageClustering := m.averageClustering.value * w]
           [Transitivity := m.transitivity.value * w])
  }

  /** The amounts of a call in which every statistic was computed. */
  lemma SmallWorldGainsMeasured(m: Measurements, density: Result<real>, w: real)
    requires Measured(m, density)
    ensures SmallWorldGains(m, density, w) ==
      Ok(CoefficientGains(m, w)
           [LocalEfficiency := m.localEfficiency.value * w]
           [GlobalEfficiency := m.globalEfficiency.value * w]
           [AverageShortestPathLength := m.averageShortestPathLength.value * w]
           [AverageNodeConnectivity := m.averageNodeConnectivity.value * w]
           [Density := density.value * w]
           [AverageClustering := m.averageClustering.value * w]
           [Transitivity := m.transitivity.value * w])
  {
    var a := SmallWorldGains(m, density, w).value;
    var b := CoefficientGains(m, w)
               [LocalEfficiency := m.localEfficiency.value * w]
               [GlobalEfficiency := m.globalEfficiency.value * w]
               [AverageShortestPathLength := m.averageShortestPathLength.value * w]
               [AverageNodeConnectivity := m.averageNodeConnectivity.value * w]
               [Density := density.value * w]
               [AverageClustering := m.averageClustering.value * w]
               [Transitivity := m.transitivity.value * w];
    forall k ensures (k in a <==> k in b) && (k in a ==> a[k] == b[k]) {
    }
    assert a == b;
  }

  /** Adding no amounts changes nothing. */
  lemma AddNoGains(f: Record)
    ensures AddGains(f, map[]) == f
  {
  }

  /** Adding one more amount for a key not yet in `d` is one `+=` on the record. */
  lemma AddGainsStep(f: Record, d: map<Stat, real>, s: Stat, x: real)
    requires s in f && s !in d
    ensures AddGains(f, d[s := x]) == AddGains(f, d)[s := AddGains(f, d)[s] + x]
  {
  }

  /**
    Adding the amounts of a fully measured call is the seven `+=` updates of the weighted statistics,
    in source order, after the Sigma and Omega amounts.
  */
  lemma MeasuredGainsApplied(f: Record, m: Measurements, density: Result<real>, w: real)
    requires HasWeighted(f) && Measured(m, density)
    ensures SmallWorldGains(m, density, w).Ok?
    ensures AddGains(f, SmallWorldGains(m, density, w).value) ==
      Increment(Increment(Increment(Increment(Increment(Increment(Increment(AddGains(f, CoefficientGains(m, w)),
        LocalEfficiency, m.localEfficiency.value * w),
        GlobalEfficiency, m.globalEfficiency.value * w),
        AverageShortestPathLength, m.averageShortestPathLength.value * w),
        AverageNodeConnectivity, m.averageNodeConnectivity.value * w),
        Density, density.value * w),
        AverageClustering, m.averageClustering.value * w),
        Transitivity, m.transitivity.value * w)
  {
    SmallWorldGainsMeasured(m, density, w);
    assert NoWeightedGains(CoefficientGains(m, w));
    GainsChain(f, CoefficientGains(m, w), m.localEfficiency.value * w, m.globalEfficiency.value * w,
      m.averageShortestPathLength.value * w, m.averageNodeConnectivity.value * w, density.value * w,
      m.averageClustering.value * w, m.transitivity.value * w);
  }

  /** Seven `+=` updates on the weighted statistics add the corresponding seven amounts. */
  lemma GainsChain(f: Record, d: map<Stat, real>, x1: real, x2: real, x3: real, x4: real, x5: real, x6: real, x7: real)
    requires HasWeighted(f) && NoWeightedGains(d)
    ensures AddGains(f, d[LocalEfficiency := x1][GlobalEfficiency := x2][AverageShortestPathLength := x3]
                        [AverageNodeConnectivity := x4][Density := x5][AverageClustering := x6][Transitivity := x7]) ==
      Increment(Increment(Increment(Increment(Increment(Increment(Increment(AddGains(f, d),
        LocalEfficiency, x1), GlobalEfficiency, x2), AverageShortestPathLength, x3),
        AverageNodeConnectivity, x4), Density, x5), AverageClustering, x6), Transitivity, x7)
  {
    PathGainsChain(f, d, x1, x2, x3, x4);
    ClusteringGainsChain(f, d[LocalEfficiency := x1][GlobalEfficiency := x2][AverageShortestPathLength := x3]
                            [AverageNodeConnectivity := x4], x5, x6, x7);
  }

  /** The first four of those updates: the efficiencies, the path length and the node connectivity. */
  lemma PathGainsChain(f: Record, d: map<Stat, real>, x1: real, x2: real, x3: real, x4: real)
    requires LocalEfficiency in f && GlobalEfficiency in f && AverageShortestPathLength in f
    requires AverageNodeConnectivity in f
    requires LocalEfficiency !in d && GlobalEfficiency !in d && AverageShortestPathLength !in d
    requires AverageNodeConnectivity !in d
    ensures AddGains(f, d[LocalEfficiency := x1][GlobalEfficiency := x2][AverageShortestPathLength := x3]
                        [AverageNodeConnectivity := x4]) ==
      Increment(Increment(Increment(Increment(AddGains(f, d), LocalEfficiency, x1), GlobalEfficiency, x2),
        AverageShortestPathLength, x3), AverageNodeConnectivity, x4)
  {
    var v1, d1 := GainStep(f, d, AddGains(f, d), LocalEfficiency, x1);
    var v2, d2 := GainStep(f, d1, v1, GlobalEfficiency, x2);
    var v3, d3 := GainStep(f, d2, v2, AverageShortestPathLength, x3);
    var v4, d4 := GainStep(f, d3, v3, AverageNodeConnectivity, x4);
  }

  /** The last three of those updates: the density, the average clustering and the transitivity. */
  lemma ClusteringGainsChain(f: Record, d: map<Stat, real>, x5: real, x6: real, x7: real)
    requires Density in f && AverageClustering in f && Transitivity in f
    requires Density !in d && AverageClustering !in d && Transitivity !in d
    ensures AddGains(f, d[Density := x5][AverageClustering := x6][Transitivity := x7]) ==
      Increment(Increment(Increment(AddGains(f, d), Density, x5), AverageClustering, x6), Transitivity, x7)
  {
    var v5, d5 := GainStep(f, d, AddGains(f, d), Density, x5);
    var v6, d6 := GainStep(f, d5, v5, AverageClustering, x6);
    var v7, d7 := GainStep(f, d6, v6, Transitivity, x7);
  }

  /** One more `+=` on a record that already holds `f` plus the amounts `d`, all for earlier statistics. */
  lemma GainStep(f: Record, d: map<Stat, real>, v: Record, s: Stat, x: real)
    returns (u: Record, e: map<Stat, real>)
    requires s in f && s !in d && v == AddGains(f, d)
    ensures e == d[s := x]
    ensures u == Increment(v, s, x) && u == AddGains(f, e)
  {
    AddGainsStep(f, d, s, x);
    u := Increment(v, s, x);
    e := d[s := x];
  }

  /** `f[s] += x`. */
  function Increment(f: Record, s: Stat, x: real): (r: Record)
    requires s in f
  {
    f[s := f[s] + x]
  }

  /** All six library statistics and the density were computed. */
  predicate Measured(m: Measurements, density: Result<real>) {
    m.localEfficiency.Some? && m.globalEfficiency.Some?
    && m.averageShortestPathLength.Some? && m.averageNodeConnectivity.Some?
    && density.Ok? && m.averageClustering.Some? && m.transitivity.Some?
  }

  /**
    `get_small_world_features` with weight `w`: Sigma and Omega follow the three-way rule, each of the
    seven other statistics gains its value times `w`, and the counters are left alone.
  */
  function SmallWorld(f: Record, m: Measurements, density: Result<real>, w: real): (r: Result<Record>)
    requires Full(f)
    ensures r.Ok? <==> Measured(m, density)
    ensures r.Err? && density.Ok? ==> r.error == StatisticRaised
    ensures r.Ok? ==> Full(r.value)
    ensures r.Ok? ==>
      r.value[IsolatedNodes] == f[IsolatedNodes] && r.value[IsolatedPairs] == f[IsolatedPairs] &&
      r.value[IsolatedTrios] == f[IsolatedTrios] && r.value[Subgraphs] == f[Subgraphs] &&
      r.value[NonIsolatedNodes] == f[NonIsolatedNodes]
  {
    match SmallWorldGains(m, density, w)
    case Err(e) => Err(e)
    case Ok(d) => CountersUntouched(m, density, w); Ok(AddGains(f, d))
  }

  /** `get_small_world_features` never touches the fragment counters, `Subgraphs` or `Non-isolated Nodes`. */
  lemma CountersUntouched(m: Measurements, density: Result<real>, w: real)
    requires SmallWorldGains(m, density, w).Ok?
    ensures var d := SmallWorldGains(m, density, w).value;
      IsolatedNodes !in d && IsolatedPairs !in d && IsolatedTrios !in d && Subgraphs !in d && NonIsolatedNodes !in d
  {
    SmallWorldGainsMeasured(m, density, w);
  }

  /** The Sigma rule of `get_small_world_features`: only a value that is neither an int nor a float is accumulated; otherwise the weight is tallied. */
  lemma SigmaRule(f: Record, m: Measurements, density: Result<real>, w: real)
    requires Full(f) && Measured(m, density)
    ensures var r := SmallWorld(f, m, density, w).value;
      (m.sigma.OtherNumber? ==> r[Sigma] == f[Sigma] + m.sigma.x * w
                                && r[SigmaZeroDenominator] == f[SigmaZeroDenominator]) &&
      (!m.sigma.OtherNumber? ==> r[Sigma] == f[Sigma]
                                 && r[SigmaZeroDenominator] == f[SigmaZeroDenominator] + w)
  {
  }

  /** The Omega rule of `get_small_world_features`, the same as the Sigma rule. */
  lemma OmegaRule(f: Record, m: Measurements, density: Result<real>, w: real)
    requires Full(f) && Measured(m, density)
    ensures var r := SmallWorld(f, m, density, w).value;
      (m.omega.OtherNumber? ==> r[Omega] == f[Omega] + m.omega.x * w
                                && r[OmegaZeroDenominator] == f[OmegaZeroDenominator]) &&
      (!m.omega.OtherNumber? ==> r[Omega] == f[Omega]
                                 && r[OmegaZeroDenominator] == f[OmegaZeroDenominator] + w)
  {
  }

  /** The seven statistics `get_small_world_features` weights directly. */
  const WeightedStats: set<Stat> := {
    LocalEfficiency, GlobalEfficiency, AverageShortestPathLength, AverageNodeConnectivity,
    Density, AverageClustering, Transitivity}

  /** The reading of one of the seven weighted statistics in `m`, the density included. */
  function Reading(m: Measurements, density: Result<real>, s: Stat): Option<real> {
    match s
    case LocalEfficiency => m.localEfficiency
    case GlobalEfficiency => m.globalEfficiency
    case AverageShortestPathLength => m.averageShortestPathLength
    case AverageNodeConnectivity => m.averageNodeConnectivity
    case Density => if density.Ok? then Some(density.value) else None
    case AverageClustering => m.averageClustering
    case Transitivity => m.transitivity
    case _ => None
  }

  /** Each of the seven weighted statistics of `get_small_world_features` gains its reading times the weight. */
  lemma SmallWorldWeighted(f: Record, m: Measurements, density: Result<real>, w: real, s: Stat)
    requires Full(f) && Measured(m, density) && s in WeightedStats
    ensures Reading(m, density, s).Some?
    ensures SmallWorld(f, m, density, w).value[s] == f[s] + Reading(m, density, s).value * w
  {
    WeightedGain(m, density, w, s);
    var d := SmallWorldGains(m, density, w).value;
    assert SmallWorld(f, m, density, w).value == AddGains(f, d);
  }

  /** A fully measured call's amount for a weighted statistic is its reading times the weight. */
  lemma WeightedGain(m: Measurements, density: Result<real>, w: real, s: Stat)
    requires Measured(m, density) && s in WeightedStats
    ensures Reading(m, density, s).Some?
    ensures SmallWorldGains(m, density, w).Ok? && s in SmallWorldGains(m, density, w).value
    ensures SmallWorldGains(m, density, w).value[s] == Reading(m, density, s).value * w
  {
    SmallWorldGainsMeasured(m, density, w);
    var d := SmallWorldGains(m, density, w).value;
    var r := Reading(m, density, s).value * w;
    match s
    case LocalEfficiency => assert d[LocalEfficiency] == r;
    case GlobalEfficiency => assert d[GlobalEfficiency] == r;
    case AverageShortestPathLength => assert d[AverageShortestPathLength] == r;
    case AverageNodeConnectivity => assert d[AverageNodeConnectivity] == r;
    case Density => assert d[Density] == r;
    case AverageClustering => assert d[AverageClustering] == r;
    case Transitivity => assert d[Transitivity] == r;
  }

  /**
    The counter the `if`/`elif` chain of `tally_graph_fragment` picks for a fragment of `n` nodes.
    The third test repeats `== 2`, so `Isolated Trios` is never picked.
  */
  function FragmentCounter(n: int): Option<Stat> {
    if n == 1 then Some(IsolatedNodes)
    else if n == 2 then Some(IsolatedPairs)
    else if n == 2 then Some(IsolatedTrios)
    else None
  }

  /** `tally_graph_fragment`: one node adds 1 to `Isolated Nodes`, two nodes add 1 to `Isolated Pairs`, any other size changes nothing. */
  function Tally(f: Record, n: int): (r: Record)
    requires Full(f)
    ensures Full(r)
    ensures r[IsolatedNodes] == f[IsolatedNodes] + (if n == 1 then 1.0 else 0.0)
    ensures r[IsolatedPairs] == f[IsolatedPairs] + (if n == 2 then 1.0 else 0.0)
    ensures forall s :: s != IsolatedNodes && s != IsolatedPairs ==> r[s] == f[s]
  {
    match FragmentCounter(n)
    case Some(k) => f[k := f[k] + 1.0]
    case None => f
  }

  /** One pass of the loop of `get_statistics_from_subgraph_set` over a component `c`. */
  function Step(f: Record, c: Graph, measure: Graph -> Measurements): (r: Result<Record>)
    requires Full(f)
    ensures r.Ok? ==> Full(r.value)
    ensures r.Ok? ==> r.value[NonIsolatedNodes] == f[NonIsolatedNodes] && r.value[Subgraphs] == f[Subgraphs]
    ensures r.Err? <==> |c.nodes| >= 4 && (f[NonIsolatedNodes] == 0.0 || !Measured(measure(c), GetDensity(c)))
    ensures r.Err? ==> r.error == if f[NonIsolatedNodes] == 0.0 then DivisionByZero else StatisticRaised
  {
    var n := |c.nodes|;
    if n < 4 then Ok(Tally(f, n))
    else if f[NonIsolatedNodes] == 0.0 then Err(DivisionByZero)
    else SmallWorld(f, measure(c), GetDensity(c), n as real / f[NonIsolatedNodes])
  }

  /** `get_statistics_from_subgraph_set`: the components folded into the record in list order; the first exception ends the fold. */
  function SubgraphSet(f: Record, subs: seq<Graph>, measure: Graph -> Measurements): (r: Result<Record>)
    requires Full(f)
    ensures r.Ok? ==> Full(r.value)
    ensures r.Ok? ==> r.value[NonIsolatedNodes] == f[NonIsolatedNodes] && r.value[Subgraphs] == f[Subgraphs]
    decreases |subs|
  {
    if subs == [] then Ok(f)
    else
      match Step(f, subs[0], measure)
      case Err(e) => Err(e)
      case Ok(f1) => SubgraphSet(f1, subs[1..], measure)
  }

  /** The total size of the components with more than three nodes (`Non-isolated Nodes` of a disconnected graph). */
  function NonIsolatedCount(subs: seq<Graph>): nat {
    if subs == [] then 0
    else (if |subs[0].nodes| > 3 then |subs[0].nodes| else 0) + NonIsolatedCount(subs[1..])
  }

  /**
    `get_graph_statistics` over a given list of the components: a graph without nodes raises in
    `nx.is_connected`; a connected graph is scored whole with weight 1; otherwise the components are folded.
  */
  ghost function StatisticsOver(g: Graph, subs: seq<Graph>, measure: Graph -> Measurements): Result<Record> {
    if g.nodes == {} then
      Err(NullGraph)
    else if Connected(g) then
      SmallWorld(ConnectedStart(|g.nodes|), measure(g), GetDensity(g), 1.0)
    else
      SubgraphSet(DisconnectedStart(subs), subs, measure)
  }

  /** What `get_graph_statistics` returns; it does not depend on the order the components are listed in (`StatisticsOrderFree`). */
  ghost function GraphStatistics(g: Graph, measure: Graph -> Measurements): Result<Record> {
    StatisticsOver(g, ComponentSubgraphs(g), measure)
  }

  /** A graph scored without an exception yields a dictionary with every statistic, `Non-isolated Nodes` included. */
  lemma GraphStatisticsFull(g: Graph, measure: Graph -> Measurements)
    ensures GraphStatistics(g, measure).Ok? ==> Full(GraphStatistics(g, measure).value)
  {
    if g.nodes != {} && Connected(g) {
      InitialRecordFull(1.0, |g.nodes| as real);
    }
  }
}
