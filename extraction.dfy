/**
  The two graph-feature extractions of feature_extraction/extraction_utils.py put together:
  `ICA_graph_feature_extraction` and `atlas_time_series_feature_extraction`. Reading the signal files,
  the signal variances and the correlation matrix are inputs here; what is modelled is how the
  correlation features and the per-threshold graph statistics are added to the variance features.
*/
module Extraction {
  import opened Outcomes
  import opened Graphs
  import opened Builder
  import opened Statistics
  import opened Correlations
  import opened FeatureKeys

  /* ---------- ICA region labels ---------- */

  /** The decimal digit for `d`. */
  function Digit(d: nat): char
    requires d < 10
  {
    (48 + d) as char
  }

  /** Python's `str` of a non-negative int: its decimal digits, without leading zeros. */
  function Decimal(n: nat): string
    decreases n
  {
    if n < 10 then [Digit(n)] else Decimal(n / 10) + [Digit(n % 10)]
  }

  /** A non-empty text of decimal digits only. */
  predicate AllDigits(s: string) {
    |s| > 0 && forall k :: 0 <= k < |s| ==> '0' <= s[k] <= '9'
  }

  lemma {:induction false} DecimalDigits(n: nat)
    ensures AllDigits(Decimal(n))
    ensures n >= 10 ==> |Decimal(n)| >= 2
    decreases n
  {
    if n >= 10 {
      DecimalDigits(n / 10);
    }
  }

  /** Different numbers are written differently. */
  lemma {:induction false} DecimalInjective(a: nat, b: nat)
    ensures Decimal(a) == Decimal(b) <==> a == b
    decreases a
  {
    if Decimal(a) == Decimal(b) {
      DecimalDigits(a);
      DecimalDigits(b);
      if a >= 10 && b >= 10 {
        var da, db := Decimal(a), Decimal(b);
        assert da[..|da| - 1] == Decimal(a / 10) && db[..|db| - 1] == Decimal(b / 10);
        assert Digit(a % 10) == Digit(b % 10);
        DecimalInjective(a / 10, b / 10);
      }
    }
  }

  /** The labels of the ICA correlation matrix: its columns are numbered 0, 1, 2, ... */
  function IcaLabels(n: nat): (r: seq<string>)
    ensures |r| == n
  {
    seq(n, i requires 0 <= i < n => Decimal(i))
  }

  /** The key of the signal variance of ICA region `i`, as `ICA_graph_feature_extraction` names it. */
  function IcaVarianceKey(i: nat): string {
    "ICA region " + Decimal(i) + " Signal Variance"
  }

  /* ---------- ICA correlation keys are all different ---------- */

  /** After a common head, two digit strings followed by " vs " and a tail agree only when both parts agree. */
  lemma DigitsSeparated(head: string, a: string, b: string, a2: string, b2: string)
    requires AllDigits(a) && AllDigits(a2) && head + a + " vs " + b == head + a2 + " vs " + b2
    ensures a == a2 && b == b2
  {
    var s := head + a + " vs " + b;
    var s2 := head + a2 + " vs " + b2;
    assert s[|head| + |a|] == ' ' && s2[|head| + |a2|] == ' ';
    assert forall p :: 0 <= p < |a| ==> s[|head| + p] == a[p];
    assert forall p :: 0 <= p < |a2| ==> s2[|head| + p] == a2[p];
    assert |a| == |a2|;
    assert a == s[|head|..|head| + |a|] && a2 == s2[|head|..|head| + |a2|];
    assert b == s[|head| + |a| + 4..] && b2 == s2[|head| + |a2| + 4..];
  }

  /** An ICA correlation key is its raw text: it starts with a letter and ends with a digit. */
  lemma IcaKeyUnstripped(i: nat, j: nat)
    ensures CorrelationKey(IcaPrefix, Decimal(i), Decimal(j)) == "Correlation " + IcaPrefix + Decimal(i) + " vs " + Decimal(j)
  {
    var head := "Correlation " + IcaPrefix + Decimal(i) + " vs ";
    var raw := head + Decimal(j);
    DecimalDigits(j);
    assert raw[0] == 'C' by {
      assert head[0] == 'C';
    }
    assert raw[|raw| - 1] == Decimal(j)[|Decimal(j)| - 1];
    StripUnchanged(raw);
  }

  /** Two ICA correlation keys agree only for the same pair of regions. */
  lemma IcaKeyInjective(i1: nat, j1: nat, i2: nat, j2: nat)
    requires CorrelationKey(IcaPrefix, Decimal(i1), Decimal(j1)) == CorrelationKey(IcaPrefix, Decimal(i2), Decimal(j2))
    ensures i1 == i2 && j1 == j2
  {
    IcaKeyUnstripped(i1, j1);
    IcaKeyUnstripped(i2, j2);
    DecimalDigits(i1);
    DecimalDigits(i2);
    DigitsSeparated("Correlation " + IcaPrefix, Decimal(i1), Decimal(j1), Decimal(i2), Decimal(j2));
    DecimalInjective(i1, i2);
    DecimalInjective(j1, j2);
  }

  /** The ICA labels give every position below the diagonal its own key. */
  lemma IcaKeysDistinct(n: nat)
    ensures DistinctKeys(IcaPrefix, IcaLabels(n))
  {
    var labels := IcaLabels(n);
    forall i1, j1, i2, j2 | 0 <= j1 < i1 < n && 0 <= j2 < i2 < n
      && CorrelationKey(IcaPrefix, labels[i1], labels[j1]) == CorrelationKey(IcaPrefix, labels[i2], labels[j2])
      ensures (i1, j1) == (i2, j2)
    {
      IcaKeyInjective(i1, j1, i2, j2);
    }
  }

  /* ---------- which keys a threshold loop can write ---------- */

  /** Every statistic name starts with a capital letter. */
  lemma NameCapitalised(s: Stat)
    ensures |Name(s)| > 0 && 'A' <= Name(s)[0] <= 'Z'
  {
  }

  /** The ICA threshold loop never writes a variance key: "ICA region" is not "ICA " and a statistic name. */
  lemma VarianceKeyNotThresholdKey(i: nat, s: Stat, tag: string)
    ensures IcaVarianceKey(i) != ThresholdKey(IcaLabel, s, tag)
  {
    NameCapitalised(s);
    assert IcaVarianceKey(i)[4] == 'r';
    assert ThresholdKey(IcaLabel, s, tag)[4] == Name(s)[0];
  }

  /** A correlation key starts with "C", a threshold key with the label's first letter. */
  lemma CorrelationKeyNotThresholdKey(prefix: string, row: string, column: string, graphLabel: string, s: Stat, tag: string)
    requires |graphLabel| > 0 && graphLabel[0] != 'C'
    ensures CorrelationKey(prefix, row, column) != ThresholdKey(graphLabel, s, tag)
  {
    CorrelationKeyShape(prefix, row, column);
    var raw := "Correlation " + prefix + row + " vs " + column;
    assert CorrelationKey(prefix, row, column)[0] == raw[0] == 'C';
    assert ThresholdKey(graphLabel, s, tag)[0] == graphLabel[0];
  }

  /* ---------- the two extractions ---------- */

  /** The features of `ICA_graph_feature_extraction`, from the variance features on. */
  ghost function IcaFeatures(variances: Features, c: Matrix, thresholds: seq<real>, valid: seq<int>, addCorrelation: bool,
                             show: real -> string, measure: Graph -> Measurements): Result<Features>
    requires IsSquare(c)
  {
    var features := if addCorrelation then CorrelationFeatures(variances, c, IcaLabels(|c|), IcaPrefix) else variances;
    ThresholdFeatures(features, c, thresholds, valid, IcaLabel, show, measure)
  }

  /**
    `ICA_graph_feature_extraction`: the correlations are added when asked for, then the statistics of the graph at each
    threshold; an exception while scoring a graph ends the extraction.
  */
  method IcaFeatureExtraction(variances: Features, c: Matrix, thresholds: seq<real>, valid: seq<int>, addCorrelation: bool,
                              show: real -> string, measure: Graph -> Measurements) returns (r: Result<Features>)
    requires IsSquare(c)
    ensures r == IcaFeatures(variances, c, thresholds, valid, addCorrelation, show, measure)
  {
    var features := variances;
    if addCorrelation {
      features := GetCorrelationFeatures(c, IcaLabels(|c|), features, IcaPrefix);
    }
    r := IcaGraphFeatures(features, c, thresholds, valid, show, measure);
  }

  /** The extraction completes exactly when the graph of every threshold is scored without an exception. */
  lemma IcaFeaturesOk(variances: Features, c: Matrix, thresholds: seq<real>, valid: seq<int>, addCorrelation: bool,
                      show: real -> string, measure: Graph -> Measurements)
    requires IsSquare(c)
    ensures IcaFeatures(variances, c, thresholds, valid, addCorrelation, show, measure).Ok?
        <==> forall i :: 0 <= i < |thresholds| ==> StatisticsAt(c, thresholds[i], valid, measure).Ok?
  {
    var features := if addCorrelation then CorrelationFeatures(variances, c, IcaLabels(|c|), IcaPrefix) else variances;
    ThresholdFeaturesOk(features, c, thresholds, valid, IcaLabel, show, measure);
  }

  /** Every signal variance survives the extraction unchanged. */
  lemma IcaVarianceKept(variances: Features, c: Matrix, thresholds: seq<real>, valid: seq<int>, addCorrelation: bool,
                        show: real -> string, measure: Graph -> Measurements, i: nat)
    requires IsSquare(c) && IcaVarianceKey(i) in variances
    ensures var r := IcaFeatures(variances, c, thresholds, valid, addCorrelation, show, measure);
      r.Ok? ==> IcaVarianceKey(i) in r.value && r.value[IcaVarianceKey(i)] == variances[IcaVarianceKey(i)]
  {
    var key := IcaVarianceKey(i);
    var labels := IcaLabels(|c|);
    var features := if addCorrelation then CorrelationFeatures(variances, c, labels, IcaPrefix) else variances;
    if addCorrelation {
      forall i1, j1 | 0 <= j1 < i1 < |c| ensures key != CorrelationKey(IcaPrefix, labels[i1], labels[j1]) {
        CorrelationKeyShape(IcaPrefix, labels[i1], labels[j1]);
        assert key[0] == 'I';
        assert CorrelationKey(IcaPrefix, labels[i1], labels[j1])[0] == 'C';
      }
      CorrelationFeaturesKeepOthers(variances, c, labels, IcaPrefix, key);
    }
    forall t, s | 0 <= t < |thresholds| ensures key != ThresholdKey(IcaLabel, s, show(thresholds[t])) {
      VarianceKeyNotThresholdKey(i, s, show(thresholds[t]));
    }
    ThresholdFeaturesKeepOthers(features, c, thresholds, valid, IcaLabel, show, measure, key);
  }

  /** The key of the correlation of ICA regions i and j: "Correlation ICA Regions: i vs j". */
  function IcaCorrelationKey(i: nat, j: nat): string {
    "Correlation " + IcaPrefix + Decimal(i) + " vs " + Decimal(j)
  }

  /** The correlation of ICA regions i and j (j < i) is stored under "Correlation ICA Regions: i vs j". */
  lemma IcaCorrelationStored(variances: Features, c: Matrix, i: nat, j: nat)
    requires IsSquare(c) && j < i < |c|
    ensures var features := CorrelationFeatures(variances, c, IcaLabels(|c|), IcaPrefix);
      IcaCorrelationKey(i, j) in features && features[IcaCorrelationKey(i, j)] == c[i][j]
  {
    var labels := IcaLabels(|c|);
    assert labels[i] == Decimal(i) && labels[j] == Decimal(j);
    IcaKeyUnstripped(i, j);
    IcaKeysDistinct(|c|);
    CorrelationFeatureValue(variances, c, labels, IcaPrefix, i, j);
  }

  /** The ICA threshold loop never writes a correlation key. */
  lemma IcaCorrelationKeyNotThresholdKey(i: nat, j: nat, s: Stat, tag: string)
    ensures IcaCorrelationKey(i, j) != ThresholdKey(IcaLabel, s, tag)
  {
    assert IcaCorrelationKey(i, j)[0] == 'C';
    assert ThresholdKey(IcaLabel, s, tag)[0] == 'I';
  }

  /** With correlations asked for, the correlation of ICA regions i and j (j < i) survives the threshold loop. */
  lemma IcaCorrelationKept(variances: Features, c: Matrix, thresholds: seq<real>, valid: seq<int>,
                           show: real -> string, measure: Graph -> Measurements, i: nat, j: nat)
    requires IsSquare(c) && j < i < |c|
    ensures var r := IcaFeatures(variances, c, thresholds, valid, true, show, measure);
      r.Ok? ==> IcaCorrelationKey(i, j) in r.value && r.value[IcaCorrelationKey(i, j)] == c[i][j]
  {
    var key := IcaCorrelationKey(i, j);
    IcaCorrelationStored(variances, c, i, j);
    var features := CorrelationFeatures(variances, c, IcaLabels(|c|), IcaPrefix);
    forall t, s | 0 <= t < |thresholds| ensures key != ThresholdKey(IcaLabel, s, show(thresholds[t])) {
      IcaCorrelationKeyNotThresholdKey(i, j, s, show(thresholds[t]));
    }
    ThresholdFeaturesKeepOthers(features, c, thresholds, valid, IcaLabel, show, measure, key);
  }

  /** The features of `atlas_time_series_feature_extraction`, from the variance features on. */
  ghost function AtlasFeatures(variances: Features, c: Matrix, labels: seq<string>, thresholds: seq<real>,
                               addNetwork: bool, addCorrelation: bool, show: real -> string,
                               measure: Graph -> Measurements): Result<Features>
    requires IsSquare(c) && |labels| == |c|
  {
    var features := if addCorrelation then CorrelationFeatures(variances, c, labels, "") else variances;
    if addNetwork then ThresholdFeatures(features, c, thresholds, Range(|c|), AtlasLabel, show, measure) else Ok(features)
  }

  /**
    `atlas_time_series_feature_extraction`: the correlations (without a prefix) when asked for, then, when network features
    are asked for, the statistics of the graph at each threshold over all regions.
  */
  method AtlasFeatureExtraction(variances: Features, c: Matrix, labels: seq<string>, thresholds: seq<real>,
                                addNetwork: bool, addCorrelation: bool, show: real -> string,
                                measure: Graph -> Measurements) returns (r: Result<Features>)
    requires IsSquare(c) && |labels| == |c|
    ensures r == AtlasFeatures(variances, c, labels, thresholds, addNetwork, addCorrelation, show, measure)
  {
    var features := variances;
    if addCorrelation {
      features := GetCorrelationFeatures(c, labels, features, "");
    }
    if addNetwork {
      r := AtlasGraphFeatures(features, c, thresholds, show, measure);
    } else {
      r := Ok(features);
    }
  }

  /** Without network features the atlas extraction always completes. */
  lemma AtlasWithoutNetworkOk(variances: Features, c: Matrix, labels: seq<string>, thresholds: seq<real>,
                              addCorrelation: bool, show: real -> string, measure: Graph -> Measurements)
    requires IsSquare(c) && |labels| == |c|
    ensures AtlasFeatures(variances, c, labels, thresholds, false, addCorrelation, show, measure).Ok?
    ensures !addCorrelation ==> AtlasFeatures(variances, c, labels, thresholds, false, false, show, measure).value == variances
  {
  }

  /**
    When the region labels give distinct keys, the correlation of regions i and j (j < i) survives the
    threshold loop: a correlation key never looks like a "Brainnetome Gyri " key.
  */
  lemma AtlasCorrelationKept(variances: Features, c: Matrix, labels: seq<string>, thresholds: seq<real>,
                             addNetwork: bool, show: real -> string, measure: Graph -> Measurements, i: nat, j: nat)
    requires IsSquare(c) && |labels| == |c| && j < i < |c| && DistinctKeys("", labels)
    ensures var r := AtlasFeatures(variances, c, labels, thresholds, addNetwork, true, show, measure);
      var key := CorrelationKey("", labels[i], labels[j]);
      r.Ok? ==> key in r.value && r.value[key] == c[i][j]
  {
    var key := CorrelationKey("", labels[i], labels[j]);
    CorrelationFeatureValue(variances, c, labels, "", i, j);
    var features := CorrelationFeatures(variances, c, labels, "");
    if addNetwork {
      forall t, s | 0 <= t < |thresholds| ensures key != ThresholdKey(AtlasLabel, s, show(thresholds[t])) {
        CorrelationKeyNotThresholdKey("", labels[i], labels[j], AtlasLabel, s, show(thresholds[t]));
      }
      ThresholdFeaturesKeepOthers(features, c, thresholds, Range(|c|), AtlasLabel, show, measure, key);
    }
  }
}
