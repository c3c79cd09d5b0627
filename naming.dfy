/**
  Feature names: the statistic names of `get_graph_statistics` qualified by a prefix and a threshold, as
  `ICA_graph_feature_extraction` and `atlas_time_series_feature_extraction`
  (feature_extraction/extraction_utils.py) store them, and the loops over thresholds that produce them.
*/
module FeatureKeys {
  import opened Outcomes
  import opened Graphs
  import opened Builder
  import opened Statistics
  import opened FeatureEngine
  import opened Correlations

  /* ---------- statistic names ---------- */

  /** Reads a statistic name back; `None` for any other string. */
  function StatOf(n: string): Option<Stat> {
    if n == "Isolated Nodes" then Some(IsolatedNodes)
    else if n == "Isolated Pairs" then Some(IsolatedPairs)
    else if n == "Isolated Trios" then Some(IsolatedTrios)
    else if n == "Global Efficiency" then Some(GlobalEfficiency)
    else if n == "Local Efficiency" then Some(LocalEfficiency)
    else if n == "Omega Zero Denominator" then Some(OmegaZeroDenominator)
    else if n == "Omega" then Some(Omega)
    else if n == "Sigma Zero Denominator" then Some(SigmaZeroDenominator)
    else if n == "Sigma" then Some(Sigma)
    else if n == "Average Shortest Path Length" then Some(AverageShortestPathLength)
    else if n == "Average Node Connectivity" then Some(AverageNodeConnectivity)
    else if n == "Density" then Some(Density)
    else if n == "Average Clustering" then Some(AverageClustering)
    else if n == "Transitivity" then Some(Transitivity)
    else if n == "Subgraphs" then Some(Subgraphs)
    else if n == "Non-isolated Nodes" then Some(NonIsolatedNodes)
    else None
  }

  lemma DecodeFragmentNames()
    ensures StatOf("Isolated Nodes") == Some(IsolatedNodes)
    ensures StatOf("Isolated Pairs") == Some(IsolatedPairs)
    ensures StatOf("Isolated Trios") == Some(IsolatedTrios)
    ensures StatOf("Global Efficiency") == Some(GlobalEfficiency)
  {
  }

  lemma DecodeCoefficientNames()
    ensures StatOf("Local Efficiency") == Some(LocalEfficiency)
    ensures StatOf("Omega Zero Denominator") == Some(OmegaZeroDenominator)
    ensures StatOf("Omega") == Some(Omega)
    ensures StatOf("Sigma Zero Denominator") == Some(SigmaZeroDenominator)
  {
  }

  lemma DecodeAverageNames()
    ensures StatOf("Sigma") == Some(Sigma)
    ensures StatOf("Average Shortest Path Length") == Some(AverageShortestPathLength)
    ensures StatOf("Average Node Connectivity") == Some(AverageNodeConnectivity)
    ensures StatOf("Density") == Some(Density)
  {
  }

  lemma DecodeCountNames()
    ensures StatOf("Average Clustering") == Some(AverageClustering)
    ensures StatOf("Transitivity") == Some(Transitivity)
    ensures StatOf("Subgraphs") == Some(Subgraphs)
    ensures StatOf("Non-isolated Nodes") == Some(NonIsolatedNodes)
  {
  }

  /** Every statistic name reads back as its statistic. */
  lemma StatOfName(s: Stat)
    ensures StatOf(Name(s)) == Some(s)
  {
    DecodeFragmentNames();
    DecodeCoefficientNames();
    DecodeAverageNames();
    DecodeCountNames();
  }

  /** No two statistics share a name, so the keys of a statistics dictionary are distinct. */
  lemma NameInjective(s1: Stat, s2: Stat)
    ensures Name(s1) == Name(s2) <==> s1 == s2
  {
    StatOfName(s1);
    StatOfName(s2);
  }

  /**
    A name that neither ends in a space nor contains a space followed by a lower-case `a`; so no
    name can run into the text " at Threshold " that follows it in a feature key.
  */
  ghost predicate WellSpaced(n: string) {
    |n| > 0 && n[|n| - 1] != ' ' && forall i :: 0 <= i < |n| - 1 ==> !(n[i] == ' ' && n[i + 1] == 'a')
  }

  lemma FragmentNamesWellSpaced()
    ensures WellSpaced("Isolated Nodes") && WellSpaced("Isolated Pairs")
    ensures WellSpaced("Isolated Trios") && WellSpaced("Global Efficiency")
  {
  }

  lemma CoefficientNamesWellSpaced()
    ensures WellSpaced("Local Efficiency") && WellSpaced("Omega Zero Denominator")
    ensures WellSpaced("Omega") && WellSpaced("Sigma Zero Denominator")
  {
  }

  lemma AverageNamesWellSpaced()
    ensures WellSpaced("Sigma") && WellSpaced("Average Shortest Path Length")
    ensures WellSpaced("Average Node Connectivity") && WellSpaced("Density")
  {
  }

  lemma CountNamesWellSpaced()
    ensures WellSpaced("Average Clustering") && WellSpaced("Transitivity")
    ensures WellSpaced("Subgraphs") && WellSpaced("Non-isolated Nodes")
  {
  }

  lemma NameWellSpaced(s: Stat)
    ensures WellSpaced(Name(s))
  {
    FragmentNamesWellSpaced();
    CoefficientNamesWellSpaced();
    AverageNamesWellSpaced();
    CountNamesWellSpaced();
  }

  /* ---------- qualified keys ---------- */

  const Separator: string := " at Threshold "
  const IcaLabel: string := "ICA "
  const AtlasLabel: string := "Brainnetome Gyri "

  /** `prefix + k + ' at Threshold ' + str(threshold)`, with `tag` standing for `str(threshold)`. */
  function ThresholdKey(prefix: string, s: Stat, tag: string): string {
    prefix + Name(s) + Separator + tag
  }

  /** In `n + Separator + t`, the separator's " a" comes right after `n`. */
  lemma SeparatorAfter(n: string, t: string)
    ensures (n + Separator + t)[|n|] == ' ' && (n + Separator + t)[|n| + 1] == 'a'
  {
  }

  /** Position `p` of `n + Separator + t`, when it falls inside `n`, and the position after it. */
  lemma PositionInName(n: string, t: string, p: nat)
    ensures p < |n| ==> (n + Separator + t)[p] == n[p]
    ensures p + 1 < |n| ==> (n + Separator + t)[p + 1] == n[p + 1]
    ensures p + 1 == |n| ==> (n + Separator + t)[p + 1] == ' '
  {
  }

  /** A name followed by the separator cannot be read inside a longer well-spaced name. */
  lemma SeparatedNameLength(n1: string, t1: string, n2: string, t2: string)
    requires WellSpaced(n2) && n1 + Separator + t1 == n2 + Separator + t2
    ensures |n1| >= |n2|
  {
    SeparatorAfter(n1, t1);
    PositionInName(n2, t2, |n1|);
  }

  /** A well-spaced name, the separator and a threshold text can be read back unambiguously. */
  lemma SeparatedUnique(n1: string, t1: string, n2: string, t2: string)
    requires WellSpaced(n1) && WellSpaced(n2) && n1 + Separator + t1 == n2 + Separator + t2
    ensures n1 == n2 && t1 == t2
  {
    SeparatedNameLength(n1, t1, n2, t2);
    SeparatedNameLength(n2, t2, n1, t1);
    var a := n1 + Separator + t1;
    assert n1 == a[..|n1|] && n2 == a[..|n2|];
    assert t1 == a[|n1| + |Separator|..] && t2 == a[|n2| + |Separator|..];
  }

  /** Two keys with the same prefix are equal only if what follows the prefix is. */
  lemma PrefixCancel(prefix: string, n1: string, t1: string, n2: string, t2: string)
    requires prefix + n1 + Separator + t1 == prefix + n2 + Separator + t2
    ensures n1 + Separator + t1 == n2 + Separator + t2
  {
    var k := prefix + n1 + Separator + t1;
    assert n1 + Separator + t1 == k[|prefix|..];
    assert n2 + Separator + t2 == (prefix + n2 + Separator + t2)[|prefix|..];
  }

  /** Distinct statistics or distinct threshold texts give distinct keys, under any one prefix. */
  lemma ThresholdKeyInjective(prefix: string, s1: Stat, tag1: string, s2: Stat, tag2: string)
    ensures ThresholdKey(prefix, s1, tag1) == ThresholdKey(prefix, s2, tag2) <==> s1 == s2 && tag1 == tag2
  {
    if ThresholdKey(prefix, s1, tag1) == ThresholdKey(prefix, s2, tag2) {
      PrefixCancel(prefix, Name(s1), tag1, Name(s2), tag2);
      NameWellSpaced(s1);
      NameWellSpaced(s2);
      SeparatedUnique(Name(s1), tag1, Name(s2), tag2);
      NameInjective(s1, s2);
    }
  }

  /* ---------- one threshold: the renaming loop ---------- */

  /** The order in which a statistics dictionary yields its keys: `GRAPH_FEATURES`, then the two set later. */
  const RecordOrder: seq<Stat> := GraphFeatures + [Subgraphs, NonIsolatedNodes]

  lemma RecordOrderComplete(s: Stat)
    ensures s in RecordOrder
  {
    match s
    case IsolatedNodes => assert RecordOrder[0] == s;
    case IsolatedPairs => assert RecordOrder[1] == s;
    case IsolatedTrios => assert RecordOrder[2] == s;
    case GlobalEfficiency => assert RecordOrder[3] == s;
    case LocalEfficiency => assert RecordOrder[4] == s;
    case OmegaZeroDenominator => assert RecordOrder[5] == s;
    case Omega => assert RecordOrder[6] == s;
    case SigmaZeroDenominator => assert RecordOrder[7] == s;
    case Sigma => assert RecordOrder[8] == s;
    case AverageShortestPathLength => assert RecordOrder[9] == s;
    case AverageNodeConnectivity => assert RecordOrder[10] == s;
    case Density => assert RecordOrder[11] == s;
    case AverageClustering => assert RecordOrder[12] == s;
    case Transitivity => assert RecordOrder[13] == s;
    case Subgraphs => assert RecordOrder[14] == s;
    case NonIsolatedNodes => assert RecordOrder[15] == s;
  }

  /** `features` after storing, for each statistic of `order` present in `stats`, its value under its qualified key. */
  function Qualify(features: Features, stats: Record, order: seq<Stat>, prefix: string, tag: string): Features
    decreases |order|
  {
    if order == [] then features
    else
      var prior := Qualify(features, stats, order[..|order| - 1], prefix, tag);
      var s := order[|order| - 1];
      if s in stats then prior[ThresholdKey(prefix, s, tag) := stats[s]] else prior
  }

  /**
    What the renaming loop stores: every statistic under its qualified key with its own value; no
    other new key; every other feature unchanged.
  */
  lemma {:induction false} QualifySpec(features: Features, stats: Record, order: seq<Stat>, prefix: string, tag: string)
    ensures var r := Qualify(features, stats, order, prefix, tag);
      forall s :: s in stats && s in order ==>
        ThresholdKey(prefix, s, tag) in r && r[ThresholdKey(prefix, s, tag)] == stats[s]
    ensures var r := Qualify(features, stats, order, prefix, tag);
      forall k :: k in r ==> k in features || exists s :: s in stats && s in order && k == ThresholdKey(prefix, s, tag)
    ensures var r := Qualify(features, stats, order, prefix, tag);
      forall k :: k in features && k !in QualifiedKeys(stats, order, prefix, tag) ==> k in r && r[k] == features[k]
    decreases |order|
  {
    if order != [] {
      var front := order[..|order| - 1];
      var s := order[|order| - 1];
      QualifySpec(features, stats, front, prefix, tag);
      var prior := Qualify(features, stats, front, prefix, tag);
      var r := Qualify(features, stats, order, prefix, tag);
      assert forall x :: x in order <==> x in front || x == s by {
        assert order == front + [s];
      }
      forall x | x in stats && x in order
        ensures ThresholdKey(prefix, x, tag) in r && r[ThresholdKey(prefix, x, tag)] == stats[x]
      {
        ThresholdKeyInjective(prefix, x, tag, s, tag);
      }
      forall k | k in r
        ensures k in features || exists x :: x in stats && x in order && k == ThresholdKey(prefix, x, tag)
      {
        if k !in prior {
          assert s in stats && k == ThresholdKey(prefix, s, tag);
        }
      }
      forall k | k in features && k !in QualifiedKeys(stats, order, prefix, tag)
        ensures k in r && r[k] == features[k]
      {
        assert QualifiedKeys(stats, front, prefix, tag) <= QualifiedKeys(stats, order, prefix, tag);
      }
    }
  }

  /** The keys the renaming loop writes. */
  function QualifiedKeys(stats: Record, order: seq<Stat>, prefix: string, tag: string): set<string> {
    set s | s in stats && s in order :: ThresholdKey(prefix, s, tag)
  }

  /** The inner loop of both extraction functions: each statistic of one threshold is stored under its qualified key. */
  method AddThresholdStatistics(features: Features, stats: Record, prefix: string, tag: string) returns (out: Features)
    ensures out == Qualify(features, stats, RecordOrder, prefix, tag)
    ensures forall s :: s in stats ==> ThresholdKey(prefix, s, tag) in out && out[ThresholdKey(prefix, s, tag)] == stats[s]
    ensures forall k :: k in out ==> k in features || exists s :: s in stats && k == ThresholdKey(prefix, s, tag)
    ensures forall k :: k in features && k !in QualifiedKeys(stats, RecordOrder, prefix, tag) ==> k in out && out[k] == features[k]
  {
    out := features;
    for i := 0 to |RecordOrder|
      invariant out == Qualify(features, stats, RecordOrder[..i], prefix, tag)
    {
      var s := RecordOrder[i];
      assert RecordOrder[..i + 1][..i] == RecordOrder[..i];
      if s in stats {
        out := out[ThresholdKey(prefix, s, tag) := stats[s]];
      }
    }
    assert RecordOrder[..|RecordOrder|] == RecordOrder;
    QualifyAll(features, stats, prefix, tag);
  }

  /** The renaming loop over every statistic: `QualifySpec` for the order a statistics dictionary yields its keys in. */
  lemma QualifyAll(features: Features, stats: Record, prefix: string, tag: string)
    ensures var r := Qualify(features, stats, RecordOrder, prefix, tag);
      (forall s :: s in stats ==> ThresholdKey(prefix, s, tag) in r && r[ThresholdKey(prefix, s, tag)] == stats[s])
      && (forall k :: k in r ==> k in features || exists s :: s in stats && k == ThresholdKey(prefix, s, tag))
      && (forall k :: k in features && k !in QualifiedKeys(stats, RecordOrder, prefix, tag) ==> k in r && r[k] == features[k])
  {
    QualifySpec(features, stats, RecordOrder, prefix, tag);
    forall s ensures s in RecordOrder {
      RecordOrderComplete(s);
    }
  }

  /* ---------- the loop over thresholds ---------- */

  /** One pass of a threshold loop: the printed threshold and what scoring its graph gave. */
  type Scored = (string, Result<Record>)

  /** `features` after storing each scored threshold in turn; the first exception ends the extraction. */
  function StoreAll(features: Features, scored: seq<Scored>, prefix: string): Result<Features>
    decreases |scored|
  {
    if scored == [] then Ok(features)
    else
      var prior := StoreAll(features, scored[..|scored| - 1], prefix);
      var last := scored[|scored| - 1];
      if prior.Err? then prior
      else if last.1.Err? then Err(last.1.error)
      else Ok(Qualify(prior.value, last.1.value, RecordOrder, prefix, last.0))
  }

  /** The statistics of the graph built at threshold `t`. */
  ghost function StatisticsAt(c: Matrix, t: real, valid: seq<int>, measure: Graph -> Measurements): Result<Record>
    requires IsSquare(c)
  {
    GraphStatistics(CorrelationGraphOn(c, t, valid), measure)
  }

  /** Each threshold, printed, with the statistics of its graph. */
  ghost function ScoredThresholds(c: Matrix, thresholds: seq<real>, valid: seq<int>, show: real -> string,
                                  measure: Graph -> Measurements): (r: seq<Scored>)
    requires IsSquare(c)
    ensures |r| == |thresholds|
    ensures forall i :: 0 <= i < |r| ==> r[i] == (show(thresholds[i]), StatisticsAt(c, thresholds[i], valid, measure))
  {
    seq(|thresholds|, i requires 0 <= i < |thresholds| =>
      (show(thresholds[i]), StatisticsAt(c, thresholds[i], valid, measure)))
  }

  /**
    `features` after the loop over `thresholds`: each threshold's statistics stored under keys
    qualified by `prefix` and `show(threshold)`.
  */
  ghost function ThresholdFeatures(features: Features, c: Matrix, thresholds: seq<real>, valid: seq<int>,
                                   prefix: string, show: real -> string, measure: Graph -> Measurements): Result<Features>
    requires IsSquare(c)
  {
    StoreAll(features, ScoredThresholds(c, thresholds, valid, show, measure), prefix)
  }

  /** The threshold loop of both extraction functions: build the graph at each threshold, score it and store its statistics. */
  method GraphFeaturesOverThresholds(features: Features, c: Matrix, thresholds: seq<real>, valid: seq<int>,
                                     prefix: string, show: real -> string, measure: Graph -> Measurements)
    returns (r: Result<Features>)
    requires IsSquare(c)
    ensures r == ThresholdFeatures(features, c, thresholds, valid, prefix, show, measure)
  {
    ghost var scored := ScoredThresholds(c, thresholds, valid, show, measure);
    var out := features;
    for i := 0 to |thresholds|
      invariant StoreAll(features, scored[..i], prefix) == Ok(out)
    {
      var t := thresholds[i];
      var graph := GraphFromCorrMatrix(c, t, valid);
      var statistics := GetGraphStatistics(graph, measure);
      assert scored[i] == (show(t), statistics);
      if statistics.Err? {
        StoredError(features, scored, i, prefix);
        return Err(statistics.error);
      }
      StoredStep(features, scored, i, prefix);
      out := AddThresholdStatistics(out, statistics.value, prefix, show(t));
    }
    assert scored[..|thresholds|] == scored;
    return Ok(out);
  }

  /** Storing one more scored threshold whose statistics were computed is one pass of the renaming loop. */
  lemma StoredStep(features: Features, scored: seq<Scored>, i: nat, prefix: string)
    requires i < |scored| && StoreAll(features, scored[..i], prefix).Ok? && scored[i].1.Ok?
    ensures StoreAll(features, scored[..i + 1], prefix)
         == Ok(Qualify(StoreAll(features, scored[..i], prefix).value, scored[i].1.value, RecordOrder, prefix, scored[i].0))
  {
    assert scored[..i + 1][..i] == scored[..i];
  }

  /** A threshold whose statistics raised ends the extraction with that exception. */
  lemma StoredError(features: Features, scored: seq<Scored>, i: nat, prefix: string)
    requires i < |scored| && StoreAll(features, scored[..i], prefix).Ok? && scored[i].1.Err?
    ensures StoreAll(features, scored, prefix) == Err(scored[i].1.error)
  {
    assert scored[..i + 1][..i] == scored[..i];
    ErrorPersists(features, scored, i + 1, prefix);
  }

  /** Once one threshold has raised, the extraction over any longer list raises the same. */
  lemma {:induction false} ErrorPersists(features: Features, scored: seq<Scored>, n: nat, prefix: string)
    requires n <= |scored| && StoreAll(features, scored[..n], prefix).Err?
    ensures StoreAll(features, scored, prefix) == StoreAll(features, scored[..n], prefix)
    decreases |scored| - n
  {
    if n < |scored| {
      var longer := scored[..n + 1];
      assert longer[..|longer| - 1] == scored[..n];
      ErrorPersists(features, scored, n + 1, prefix);
    } else {
      assert scored[..n] == scored;
    }
  }

  /** `ICA_graph_feature_extraction`: the ICA graphs keep only the given valid regions and are labelled "ICA ". */
  method IcaGraphFeatures(features: Features, c: Matrix, thresholds: seq<real>, valid: seq<int>, show: real -> string,
                          measure: Graph -> Measurements) returns (r: Result<Features>)
    requires IsSquare(c)
    ensures r == ThresholdFeatures(features, c, thresholds, valid, IcaLabel, show, measure)
  {
    r := GraphFeaturesOverThresholds(features, c, thresholds, valid, IcaLabel, show, measure);
  }

  /** `atlas_time_series_feature_extraction`: every region is valid and the graphs are labelled "Brainnetome Gyri ". */
  method AtlasGraphFeatures(features: Features, c: Matrix, thresholds: seq<real>, show: real -> string,
                            measure: Graph -> Measurements) returns (r: Result<Features>)
    requires IsSquare(c)
    ensures r == ThresholdFeatures(features, c, thresholds, Range(|c|), AtlasLabel, show, measure)
  {
    var valid := Range(|c|);
    r := GraphFeaturesOverThresholds(features, c, thresholds, valid, AtlasLabel, show, measure);
  }

  /** Storing completes exactly when every threshold was scored without an exception. */
  lemma {:induction false} StoreAllOk(features: Features, scored: seq<Scored>, prefix: string)
    ensures StoreAll(features, scored, prefix).Ok? <==> forall i :: 0 <= i < |scored| ==> scored[i].1.Ok?
    decreases |scored|
  {
    if scored != [] {
      var front := scored[..|scored| - 1];
      StoreAllOk(features, front, prefix);
      assert forall i :: 0 <= i < |front| ==> front[i] == scored[i];
    }
  }

  /** Every key storing `scored` may write. */
  function StoredKeys(scored: seq<Scored>, prefix: string): set<string> {
    set i, s | 0 <= i < |scored| && s in RecordOrder :: ThresholdKey(prefix, s, scored[i].0)
  }

  /** The renaming loop stores a statistic of the dictionary under its key. */
  lemma QualifyStores(features: Features, stats: Record, prefix: string, tag: string, s: Stat)
    requires s in stats
    ensures ThresholdKey(prefix, s, tag) in Qualify(features, stats, RecordOrder, prefix, tag)
    ensures Qualify(features, stats, RecordOrder, prefix, tag)[ThresholdKey(prefix, s, tag)] == stats[s]
  {
    RecordOrderComplete(s);
    QualifySpec(features, stats, RecordOrder, prefix, tag);
  }

  /** The renaming loop for one threshold text leaves the keys of another threshold text alone. */
  lemma QualifyKeepsOtherTag(features: Features, stats: Record, prefix: string, tag: string, s: Stat, other: string)
    requires other != tag && ThresholdKey(prefix, s, other) in features
    ensures var r := Qualify(features, stats, RecordOrder, prefix, tag);
      ThresholdKey(prefix, s, other) in r && r[ThresholdKey(prefix, s, other)] == features[ThresholdKey(prefix, s, other)]
  {
    var k := ThresholdKey(prefix, s, other);
    forall x ensures k != ThresholdKey(prefix, x, tag) {
      ThresholdKeyInjective(prefix, s, other, x, tag);
    }
    assert k !in QualifiedKeys(stats, RecordOrder, prefix, tag);
    QualifySpec(features, stats, RecordOrder, prefix, tag);
  }

  /**
    When no other pass printed the same threshold differently scored, storing keeps each statistic of
    pass `i` under its own key, with its own value.
  */
  lemma {:induction false} StoreAllValue(features: Features, scored: seq<Scored>, prefix: string, i: nat, s: Stat)
    requires i < |scored|
    requires forall j :: 0 <= j < |scored| && scored[j].0 == scored[i].0 ==> scored[j] == scored[i]
    requires scored[i].1.Ok? ==> s in scored[i].1.value
    ensures var r := StoreAll(features, scored, prefix);
      r.Ok? ==> (scored[i].1.Ok? && ThresholdKey(prefix, s, scored[i].0) in r.value
                 && r.value[ThresholdKey(prefix, s, scored[i].0)] == scored[i].1.value[s])
    decreases |scored|
  {
    var r := StoreAll(features, scored, prefix);
    if r.Ok? {
      var front := scored[..|scored| - 1];
      var last := scored[|scored| - 1];
      var prior := StoreAll(features, front, prefix);
      assert prior.Ok? && last.1.Ok? && r.value == Qualify(prior.value, last.1.value, RecordOrder, prefix, last.0);
      if scored[i].0 == last.0 {
        QualifyStores(prior.value, last.1.value, prefix, last.0, s);
      } else {
        assert front[i] == scored[i];
        StoreAllValue(features, front, prefix, i, s);
        QualifyKeepsOtherTag(prior.value, last.1.value, prefix, last.0, s, scored[i].0);
      }
    }
  }

  /** Storing leaves every feature whose key no threshold writes as it was. */
  lemma {:induction false} StoreAllKeepsOthers(features: Features, scored: seq<Scored>, prefix: string)
    ensures var r := StoreAll(features, scored, prefix);
      r.Ok? ==> forall k :: k in features && k !in StoredKeys(scored, prefix) ==> k in r.value && r.value[k] == features[k]
    decreases |scored|
  {
    var r := StoreAll(features, scored, prefix);
    if scored != [] && r.Ok? {
      var front := scored[..|scored| - 1];
      var last := scored[|scored| - 1];
      StoreAllKeepsOthers(features, front, prefix);
      var prior := StoreAll(features, front, prefix);
      QualifySpec(prior.value, last.1.value, RecordOrder, prefix, last.0);
      assert StoredKeys(front, prefix) <= StoredKeys(scored, prefix) by {
        forall k | k in StoredKeys(front, prefix) ensures k in StoredKeys(scored, prefix) {
          var i, s :| 0 <= i < |front| && s in RecordOrder && k == ThresholdKey(prefix, s, front[i].0);
          assert front[i] == scored[i];
        }
      }
      assert QualifiedKeys(last.1.value, RecordOrder, prefix, last.0) <= StoredKeys(scored, prefix);
    }
  }

  /** The extraction over `thresholds` completes exactly when the graph at every threshold is scored without an exception. */
  lemma ThresholdFeaturesOk(features: Features, c: Matrix, thresholds: seq<real>, valid: seq<int>,
                            prefix: string, show: real -> string, measure: Graph -> Measurements)
    requires IsSquare(c)
    ensures ThresholdFeatures(features, c, thresholds, valid, prefix, show, measure).Ok?
        <==> forall i :: 0 <= i < |thresholds| ==> StatisticsAt(c, thresholds[i], valid, measure).Ok?
  {
    StoreAllOk(features, ScoredThresholds(c, thresholds, valid, show, measure), prefix);
  }

  /**
    When no other threshold prints like `thresholds[i]`, the extraction stores each statistic of that
    threshold's graph under its own key, with the value that graph's statistics give it.
  */
  lemma ThresholdFeaturesValue(features: Features, c: Matrix, thresholds: seq<real>, valid: seq<int>,
                               prefix: string, show: real -> string, measure: Graph -> Measurements, i: nat, s: Stat)
    requires IsSquare(c) && i < |thresholds|
    requires forall j :: 0 <= j < |thresholds| && show(thresholds[j]) == show(thresholds[i]) ==> thresholds[j] == thresholds[i]
    ensures var r := ThresholdFeatures(features, c, thresholds, valid, prefix, show, measure);
      var stats := StatisticsAt(c, thresholds[i], valid, measure);
      r.Ok? ==> (stats.Ok? && ThresholdKey(prefix, s, show(thresholds[i])) in r.value
                 && r.value[ThresholdKey(prefix, s, show(thresholds[i]))] == stats.value[s])
  {
    var scored := ScoredThresholds(c, thresholds, valid, show, measure);
    GraphStatisticsFull(CorrelationGraphOn(c, thresholds[i], valid), measure);
    StoreAllValue(features, scored, prefix, i, s);
  }

  /** The extraction over `thresholds` leaves every feature whose key it does not write as it was. */
  lemma ThresholdFeaturesKeepOthers(features: Features, c: Matrix, thresholds: seq<real>, valid: seq<int>,
                                    prefix: string, show: real -> string, measure: Graph -> Measurements, k: string)
    requires IsSquare(c) && k in features
    requires forall i, s :: 0 <= i < |thresholds| ==> k != ThresholdKey(prefix, s, show(thresholds[i]))
    ensures var r := ThresholdFeatures(features, c, thresholds, valid, prefix, show, measure);
      r.Ok? ==> k in r.value && r.value[k] == features[k]
  {
    var scored := ScoredThresholds(c, thresholds, valid, show, measure);
    StoreAllKeepsOthers(features, scored, prefix);
    assert k !in StoredKeys(scored, prefix);
  }
}
