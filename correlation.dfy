/**
  `get_correlation_features` (feature_extraction/extraction_utils.py): every correlation below the
  diagonal becomes a feature named after its row and column labels.
*/
module Correlations {
  import opened Builder

  /** A feature dictionary of an extraction: feature name to value. */
  type Features = map<string, real>

  /** The prefix the ICA extraction passes; the atlas extraction passes the empty string. */
  const IcaPrefix: string := "ICA Regions: "

  /* ---------- Python `str.strip()` ---------- */

  /** Python's `str.isspace` for a single character. */
  predicate IsSpace(ch: char) {
    ('\U{9}' <= ch <= '\U{d}') || ('\U{1c}' <= ch <= '\U{20}') || ch == '\U{85}' || ch == '\U{a0}'
    || ch == '\U{1680}' || ('\U{2000}' <= ch <= '\U{200a}') || ch == '\U{2028}' || ch == '\U{2029}'
    || ch == '\U{202f}' || ch == '\U{205f}' || ch == '\U{3000}'
  }

  /** How many white-space characters `s` starts with. */
  function LeadingSpace(s: string): (n: nat)
    ensures n <= |s|
    decreases |s|
  {
    if |s| > 0 && IsSpace(s[0]) then 1 + LeadingSpace(s[1..]) else 0
  }

  /** How many white-space characters `s` ends with. */
  function TrailingSpace(s: string): (n: nat)
    ensures n <= |s|
    decreases |s|
  {
    if |s| > 0 && IsSpace(s[|s| - 1]) then 1 + TrailingSpace(s[..|s| - 1]) else 0
  }

  /** `str.strip()`: white space removed from both ends. */
  function Strip(s: string): string {
    var t := s[LeadingSpace(s)..];
    t[..|t| - TrailingSpace(t)]
  }

  /** Every character of `s` from `lo` up to (not including) `hi` is white space. */
  ghost predicate AllSpace(s: string, lo: int, hi: int) {
    forall i :: lo <= i < hi ==> 0 <= i < |s| && IsSpace(s[i])
  }

  /** The leading run is white space and stops at the first other character. */
  lemma {:induction false} LeadingSpaceSpec(s: string)
    ensures AllSpace(s, 0, LeadingSpace(s))
    ensures LeadingSpace(s) < |s| ==> !IsSpace(s[LeadingSpace(s)])
    decreases |s|
  {
    if |s| > 0 && IsSpace(s[0]) {
      LeadingSpaceSpec(s[1..]);
      forall i | 0 < i < LeadingSpace(s) ensures IsSpace(s[i]) {
        assert s[i] == s[1..][i - 1];
      }
    }
  }

  /** The trailing run is white space and stops at the last other character. */
  lemma {:induction false} TrailingSpaceSpec(s: string)
    ensures AllSpace(s, |s| - TrailingSpace(s), |s|)
    ensures TrailingSpace(s) < |s| ==> !IsSpace(s[|s| - TrailingSpace(s) - 1])
    decreases |s|
  {
    if |s| > 0 && IsSpace(s[|s| - 1]) {
      TrailingSpaceSpec(s[..|s| - 1]);
      forall i | |s| - TrailingSpace(s) <= i < |s| - 1 ensures IsSpace(s[i]) {
        assert s[i] == s[..|s| - 1][i];
      }
      if TrailingSpace(s) < |s| {
        assert s[|s| - TrailingSpace(s) - 1] == s[..|s| - 1][|s| - 1 - TrailingSpace(s[..|s| - 1]) - 1];
      }
    }
  }

  /** A text without white space at its end has no trailing run. */
  lemma NoTrailingSpace(s: string)
    requires s == [] || !IsSpace(s[|s| - 1])
    ensures TrailingSpace(s) == 0
  {
  }

  /**
    `Strip(s)` is the part of `s` left between its leading and its trailing run of white space, and it
    neither starts nor ends with white space.
  */
  lemma StripSpec(s: string)
    ensures var a, r := LeadingSpace(s), Strip(s);
      a + |r| <= |s| && r == s[a..a + |r|] && AllSpace(s, 0, a) && AllSpace(s, a + |r|, |s|)
      && (r == [] || (!IsSpace(r[0]) && !IsSpace(r[|r| - 1])))
  {
    StripSlice(s);
    LeadingSpaceSpec(s);
    StripTail(s);
    StripEnds(s);
  }

  /** The stripped text is the slice after the leading run. */
  lemma StripSlice(s: string)
    ensures var a, r := LeadingSpace(s), Strip(s);
      a + |r| <= |s| && r == s[a..a + |r|]
  {
    var a := LeadingSpace(s);
    var t := s[a..];
    SliceOfSuffix(s, a, |t| - TrailingSpace(t));
  }

  /** What follows the stripped text is white space. */
  lemma StripTail(s: string)
    ensures AllSpace(s, LeadingSpace(s) + |Strip(s)|, |s|)
  {
    var a := LeadingSpace(s);
    var t := s[a..];
    TrailingSpaceSpec(t);
    forall i | a + |Strip(s)| <= i < |s| ensures IsSpace(s[i]) {
      assert s[i] == t[i - a];
    }
  }

  /** The stripped text neither starts nor ends with white space. */
  lemma StripEnds(s: string)
    ensures var r := Strip(s); r == [] || (!IsSpace(r[0]) && !IsSpace(r[|r| - 1]))
  {
    var a := LeadingSpace(s);
    var t := s[a..];
    var r := Strip(s);
    if r != [] {
      LeadingSpaceSpec(s);
      assert r[0] == s[a];
      TrailingSpaceSpec(t);
      assert r[|r| - 1] == t[|t| - TrailingSpace(t) - 1];
    }
  }

  /** A prefix of a suffix is a slice. */
  lemma SliceOfSuffix(s: string, a: nat, b: nat)
    requires a + b <= |s|
    ensures s[a..][..b] == s[a..a + b]
  {
  }

  /** Stripping twice is stripping once. */
  lemma StripIdempotent(s: string)
    ensures Strip(Strip(s)) == Strip(s)
  {
    StripSpec(s);
    StripUnchanged(Strip(s));
  }

  /** A string that neither starts nor ends with white space is its own `strip()`. */
  lemma StripUnchanged(s: string)
    requires s == [] || (!IsSpace(s[0]) && !IsSpace(s[|s| - 1]))
    ensures Strip(s) == s
  {
    if s != [] {
      assert LeadingSpace(s) == 0;
      NoTrailingSpace(s);
    }
  }

  /* ---------- keys ---------- */

  /** `("Correlation " + prefix + str(row) + " vs " + str(column)).strip()`. */
  function CorrelationKey(prefix: string, row: string, column: string): string {
    Strip("Correlation " + prefix + row + " vs " + column)
  }

  /**
    A key starts with "Correlation " and the prefix, so stripping only removes white space at its end:
    a key is its raw text less the trailing white space, and it is never cut back past " vs".
  */
  lemma CorrelationKeyShape(prefix: string, row: string, column: string)
    ensures var raw := "Correlation " + prefix + row + " vs " + column;
      CorrelationKey(prefix, row, column) == raw[..|raw| - TrailingSpace(raw)]
      && |"Correlation " + prefix + row + " vs"| <= |CorrelationKey(prefix, row, column)|
  {
    var raw := "Correlation " + prefix + row + " vs " + column;
    var stem := "Correlation " + prefix + row + " vs";
    assert raw[0] == 'C';
    assert raw[|stem| - 1] == 's';
    TrailingSpaceSpec(raw);
  }

  /* ---------- the strict lower triangle ---------- */

  /** The (row, column) positions of row `i` left of the diagonal. */
  function RowBelowDiagonal(i: nat): (r: seq<(nat, nat)>)
    ensures |r| == i && forall j :: 0 <= j < i ==> r[j] == (i, j)
  {
    seq(i, j requires 0 <= j < i => (i, j))
  }

  /**
    The positions `np.triu` leaves out, in the order `stack` yields them: row by row, and within a
    row by column.
  */
  function LowerTriangle(n: nat): seq<(nat, nat)> {
    if n == 0 then [] else LowerTriangle(n - 1) + RowBelowDiagonal(n - 1)
  }

  /** A position is listed exactly when it lies strictly below the diagonal. */
  lemma {:induction false} LowerTriangleMembers(n: nat)
    ensures forall p :: p in LowerTriangle(n) <==> p.1 < p.0 < n
  {
    if n > 0 {
      LowerTriangleMembers(n - 1);
      forall p: (nat, nat) | p.1 < p.0 < n ensures p in LowerTriangle(n) {
        if p.0 == n - 1 {
          assert RowBelowDiagonal(n - 1)[p.1] == p;
        }
      }
    }
  }

  /** `n * (n - 1) / 2` positions: the diagonal and everything above it are dropped. */
  lemma {:induction false} LowerTriangleSize(n: nat)
    ensures 2 * |LowerTriangle(n)| == n * (n - 1)
  {
    if n > 0 {
      LowerTriangleSize(n - 1);
    }
  }

  /** No position is listed twice, and the listing runs row by row, left to right. */
  lemma {:induction false} LowerTriangleOrdered(n: nat)
    ensures forall k, l :: 0 <= k < l < |LowerTriangle(n)| ==>
      LowerTriangle(n)[k].0 < LowerTriangle(n)[l].0
      || (LowerTriangle(n)[k].0 == LowerTriangle(n)[l].0 && LowerTriangle(n)[k].1 < LowerTriangle(n)[l].1)
  {
    if n > 0 {
      LowerTriangleOrdered(n - 1);
      LowerTriangleMembers(n - 1);
      var front := LowerTriangle(n - 1);
      var t := LowerTriangle(n);
      forall k | 0 <= k < |front| ensures t[k] == front[k] && t[k].0 < n - 1 {
        assert front[k] in front;
      }
    }
  }

  /** Two indices of the listing hold different positions. */
  lemma LowerTriangleDistinct(n: nat, k: nat, l: nat)
    requires k < l < |LowerTriangle(n)|
    ensures LowerTriangle(n)[k] != LowerTriangle(n)[l]
  {
    LowerTriangleOrdered(n);
  }

  /* ---------- storing the correlations ---------- */

  /** Positions that index a square matrix of order `n`. */
  predicate InRange(pairs: seq<(nat, nat)>, n: nat) {
    forall k :: 0 <= k < |pairs| ==> pairs[k].0 < n && pairs[k].1 < n
  }

  /** `features` after assigning each (key, value) entry in turn: a later entry overwrites an earlier one. */
  function StoreEntries(features: Features, entries: seq<(string, real)>): Features
    decreases |entries|
  {
    if entries == [] then features
    else StoreEntries(features, entries[..|entries| - 1])[entries[|entries| - 1].0 := entries[|entries| - 1].1]
  }

  /**
    What storing writes: every entry's key is present; a key that was not there before is some entry's
    key; a key no entry names keeps its old value.
  */
  lemma {:induction false} StoreEntriesKeys(features: Features, entries: seq<(string, real)>)
    ensures var r := StoreEntries(features, entries);
      (forall k :: 0 <= k < |entries| ==> entries[k].0 in r)
      && (forall key :: key in r && key !in features ==> exists k :: 0 <= k < |entries| && entries[k].0 == key)
      && (forall key :: key in features && (forall k :: 0 <= k < |entries| ==> entries[k].0 != key) ==>
            key in r && r[key] == features[key])
    decreases |entries|
  {
    if entries != [] {
      var front := entries[..|entries| - 1];
      StoreEntriesKeys(features, front);
      assert forall k :: 0 <= k < |front| ==> front[k] == entries[k];
    }
  }

  /** A key holds the value of the last entry that names it. */
  lemma {:induction false} StoreEntriesValue(features: Features, entries: seq<(string, real)>, k: nat)
    requires k < |entries|
    requires forall l :: k < l < |entries| ==> entries[l].0 != entries[k].0
    ensures var r := StoreEntries(features, entries);
      entries[k].0 in r && r[entries[k].0] == entries[k].1
    decreases |entries|
  {
    if k < |entries| - 1 {
      var front := entries[..|entries| - 1];
      assert front[k] == entries[k];
      assert forall l :: k < l < |front| ==> front[l] == entries[l];
      StoreEntriesValue(features, front, k);
    }
  }

  /** Every key an entry names holds the value of one of the entries that name it. */
  lemma {:induction false} StoreEntriesFrom(features: Features, entries: seq<(string, real)>, key: string)
    requires exists k :: 0 <= k < |entries| && entries[k].0 == key
    ensures var r := StoreEntries(features, entries);
      key in r && exists k :: 0 <= k < |entries| && entries[k] == (key, r[key])
    decreases |entries|
  {
    var last := |entries| - 1;
    if entries[last].0 != key {
      var front := entries[..last];
      var k :| 0 <= k < |entries| && entries[k].0 == key;
      assert front[k] == entries[k];
      StoreEntriesFrom(features, front, key);
      var r := StoreEntries(features, front);
      var k' :| 0 <= k' < |front| && front[k'] == (key, r[key]);
      assert entries[k'] == front[k'];
    }
  }

  /** The entry the correlation at position `p` gives: its key and the correlation. */
  function Entry(c: Matrix, labels: seq<string>, prefix: string, p: (nat, nat)): (string, real)
    requires IsSquare(c) && |labels| == |c| && p.0 < |c| && p.1 < |c|
  {
    (CorrelationKey(prefix, labels[p.0], labels[p.1]), c[p.0][p.1])
  }

  /** The entries of the listed positions, in order. */
  function Entries(c: Matrix, labels: seq<string>, prefix: string, pairs: seq<(nat, nat)>): (r: seq<(string, real)>)
    requires IsSquare(c) && |labels| == |c| && InRange(pairs, |c|)
    ensures |r| == |pairs|
  {
    seq(|pairs|, k requires 0 <= k < |pairs| => Entry(c, labels, prefix, pairs[k]))
  }

  lemma {:induction false} LowerTriangleInRange(n: nat)
    ensures InRange(LowerTriangle(n), n)
  {
    LowerTriangleMembers(n);
    forall k | 0 <= k < |LowerTriangle(n)| ensures LowerTriangle(n)[k].0 < n && LowerTriangle(n)[k].1 < n {
      assert LowerTriangle(n)[k] in LowerTriangle(n);
    }
  }

  /** Storing two lists of entries one after the other is storing their concatenation. */
  lemma {:induction false} StoreEntriesAppend(features: Features, first: seq<(string, real)>, second: seq<(string, real)>)
    ensures StoreEntries(features, first + second) == StoreEntries(StoreEntries(features, first), second)
    decreases |second|
  {
    var both := first + second;
    if second == [] {
      assert both == first;
    } else {
      assert both[..|both| - 1] == first + second[..|second| - 1];
      assert both[|both| - 1] == second[|second| - 1];
      StoreEntriesAppend(features, first, second[..|second| - 1]);
    }
  }

  /** The entries of row `i` left of the diagonal, column by column. */
  function RowEntries(c: Matrix, labels: seq<string>, prefix: string, i: nat): (r: seq<(string, real)>)
    requires IsSquare(c) && |labels| == |c| && i < |c|
    ensures |r| == i
  {
    seq(i, j requires 0 <= j < i => Entry(c, labels, prefix, (i, j)))
  }

  /** The entries of the first `n` rows, row after row. */
  function TriangleEntries(c: Matrix, labels: seq<string>, prefix: string, n: nat): seq<(string, real)>
    requires IsSquare(c) && |labels| == |c| && n <= |c|
  {
    if n == 0 then [] else TriangleEntries(c, labels, prefix, n - 1) + RowEntries(c, labels, prefix, n - 1)
  }

  /** The features the correlation matrix `c` adds to `features`. */
  function CorrelationFeatures(features: Features, c: Matrix, labels: seq<string>, prefix: string): Features
    requires IsSquare(c) && |labels| == |c|
  {
    StoreEntries(features, TriangleEntries(c, labels, prefix, |c|))
  }

  /** The loop of `get_correlation_features`: each correlation strictly below the diagonal is stored under its row and column labels. */
  method GetCorrelationFeatures(c: Matrix, labels: seq<string>, features: Features, prefix: string)
    returns (out: Features)
    requires IsSquare(c) && |labels| == |c|
    ensures out == CorrelationFeatures(features, c, labels, prefix)
  {
    out := features;
    for i := 0 to |c|
      invariant out == StoreEntries(features, TriangleEntries(c, labels, prefix, i))
    {
      out := StoreRow(c, labels, prefix, i, out);
      StoreEntriesAppend(features, TriangleEntries(c, labels, prefix, i), RowEntries(c, labels, prefix, i));
    }
  }

  /** The inner loop of `get_correlation_features`: the correlations of row `i` left of the diagonal, column by column. */
  method StoreRow(c: Matrix, labels: seq<string>, prefix: string, i: nat, features: Features) returns (out: Features)
    requires IsSquare(c) && |labels| == |c| && i < |c|
    ensures out == StoreEntries(features, RowEntries(c, labels, prefix, i))
  {
    out := features;
    ghost var row := RowEntries(c, labels, prefix, i);
    assert row[..0] == [];
    for j := 0 to i
      invariant out == StoreEntries(features, row[..j])
    {
      var (key, value) := Entry(c, labels, prefix, (i, j));
      out := out[key := value];
      assert row[..j + 1][..j] == row[..j];
    }
    assert row[..i] == row;
  }

  /** The row-by-row entries are those of the lower triangle's positions, in the same order. */
  lemma {:induction false} TriangleEntriesOfLowerTriangle(c: Matrix, labels: seq<string>, prefix: string, n: nat)
    requires IsSquare(c) && |labels| == |c| && n <= |c|
    ensures InRange(LowerTriangle(n), |c|)
    ensures TriangleEntries(c, labels, prefix, n) == Entries(c, labels, prefix, LowerTriangle(n))
  {
    LowerTriangleInRange(n);
    assert InRange(LowerTriangle(n), |c|);
    if n > 0 {
      TriangleEntriesOfLowerTriangle(c, labels, prefix, n - 1);
      var front := LowerTriangle(n - 1);
      var row := RowBelowDiagonal(n - 1);
      var all := Entries(c, labels, prefix, front + row);
      var head := Entries(c, labels, prefix, front);
      forall k | 0 <= k < |all| ensures all[k] == (head + RowEntries(c, labels, prefix, n - 1))[k] {
        if k >= |front| {
          assert (front + row)[k] == row[k - |front|];
        }
      }
    }
  }

  /** The keys of two different positions strictly below the diagonal always differ. */
  ghost predicate DistinctKeys(prefix: string, labels: seq<string>) {
    forall i1, j1, i2, j2 :: 0 <= j1 < i1 < |labels| && 0 <= j2 < i2 < |labels| && (i1, j1) != (i2, j2) ==>
      CorrelationKey(prefix, labels[i1], labels[j1]) != CorrelationKey(prefix, labels[i2], labels[j2])
  }

  /** A position's entry is among the stored entries of the lower triangle. */
  lemma PositionListed(c: Matrix, labels: seq<string>, prefix: string, i: nat, j: nat) returns (k: nat)
    requires IsSquare(c) && |labels| == |c| && j < i < |c|
    ensures InRange(LowerTriangle(|c|), |c|) && k < |LowerTriangle(|c|)| && LowerTriangle(|c|)[k] == (i, j)
    ensures |TriangleEntries(c, labels, prefix, |c|)| == |LowerTriangle(|c|)|
    ensures TriangleEntries(c, labels, prefix, |c|)[k] == (CorrelationKey(prefix, labels[i], labels[j]), c[i][j])
  {
    TriangleEntriesOfLowerTriangle(c, labels, prefix, |c|);
    LowerTriangleMembers(|c|);
    var t := LowerTriangle(|c|);
    assert (i, j) in t;
    k :| 0 <= k < |t| && t[k] == (i, j);
  }

  /** The entry at each index belongs to a position strictly below the diagonal. */
  lemma ListedPosition(c: Matrix, labels: seq<string>, prefix: string, k: nat) returns (i: nat, j: nat)
    requires IsSquare(c) && |labels| == |c| && k < |TriangleEntries(c, labels, prefix, |c|)|
    ensures |TriangleEntries(c, labels, prefix, |c|)| == |LowerTriangle(|c|)|
    ensures j < i < |c| && LowerTriangle(|c|)[k] == (i, j)
    ensures TriangleEntries(c, labels, prefix, |c|)[k] == (CorrelationKey(prefix, labels[i], labels[j]), c[i][j])
  {
    TriangleEntriesOfLowerTriangle(c, labels, prefix, |c|);
    LowerTriangleMembers(|c|);
    var t := LowerTriangle(|c|);
    assert t[k] in t;
    i, j := t[k].0, t[k].1;
  }

  /** The key of every position strictly below the diagonal is present. */
  lemma CorrelationKeysPresent(features: Features, c: Matrix, labels: seq<string>, prefix: string, i: nat, j: nat)
    requires IsSquare(c) && |labels| == |c| && j < i < |c|
    ensures CorrelationKey(prefix, labels[i], labels[j]) in CorrelationFeatures(features, c, labels, prefix)
  {
    var k := PositionListed(c, labels, prefix, i, j);
    StoreEntriesKeys(features, TriangleEntries(c, labels, prefix, |c|));
  }

  /** A key that was not there before is the key of a position strictly below the diagonal. */
  lemma CorrelationKeysOnlyLower(features: Features, c: Matrix, labels: seq<string>, prefix: string, key: string)
    requires IsSquare(c) && |labels| == |c|
    requires key in CorrelationFeatures(features, c, labels, prefix) && key !in features
    ensures exists i, j :: 0 <= j < i < |c| && key == CorrelationKey(prefix, labels[i], labels[j])
  {
    var entries := TriangleEntries(c, labels, prefix, |c|);
    StoreEntriesKeys(features, entries);
    var k :| 0 <= k < |entries| && entries[k].0 == key;
    var i, j := ListedPosition(c, labels, prefix, k);
  }

  /** A feature that no position's key names is left as it was. */
  lemma CorrelationFeaturesKeepOthers(features: Features, c: Matrix, labels: seq<string>, prefix: string, key: string)
    requires IsSquare(c) && |labels| == |c| && key in features
    requires forall i, j :: 0 <= j < i < |c| ==> key != CorrelationKey(prefix, labels[i], labels[j])
    ensures var out := CorrelationFeatures(features, c, labels, prefix);
      key in out && out[key] == features[key]
  {
    var entries := TriangleEntries(c, labels, prefix, |c|);
    forall k | 0 <= k < |entries| ensures entries[k].0 != key {
      var i, j := ListedPosition(c, labels, prefix, k);
    }
    StoreEntriesKeys(features, entries);
  }

  /**
    Only correlations strictly below the diagonal are ever stored: a correlation key holds the
    correlation of a position below the diagonal that has this key.
  */
  lemma CorrelationFeaturesFromLowerTriangle(features: Features, c: Matrix, labels: seq<string>, prefix: string,
                                             i: nat, j: nat)
    requires IsSquare(c) && |labels| == |c| && j < i < |c|
    ensures var out, key := CorrelationFeatures(features, c, labels, prefix), CorrelationKey(prefix, labels[i], labels[j]);
      key in out && exists i', j' :: 0 <= j' < i' < |c| && key == CorrelationKey(prefix, labels[i'], labels[j']) && out[key] == c[i'][j']
  {
    var entries := TriangleEntries(c, labels, prefix, |c|);
    var key := CorrelationKey(prefix, labels[i], labels[j]);
    var k := PositionListed(c, labels, prefix, i, j);
    assert entries[k].0 == key;
    StoreEntriesFrom(features, entries, key);
    var out := StoreEntries(features, entries);
    var k' :| 0 <= k' < |entries| && entries[k'] == (key, out[key]);
    var i', j' := ListedPosition(c, labels, prefix, k');
  }

  /** When the labels give distinct keys, each key holds exactly its own position's correlation. */
  lemma CorrelationFeatureValue(features: Features, c: Matrix, labels: seq<string>, prefix: string, i: nat, j: nat)
    requires IsSquare(c) && |labels| == |c| && j < i < |c| && DistinctKeys(prefix, labels)
    ensures var out, key := CorrelationFeatures(features, c, labels, prefix), CorrelationKey(prefix, labels[i], labels[j]);
      key in out && out[key] == c[i][j]
  {
    var entries := TriangleEntries(c, labels, prefix, |c|);
    var k := PositionListed(c, labels, prefix, i, j);
    forall l | k < l < |entries| ensures entries[l].0 != entries[k].0 {
      LaterKeyDiffers(c, labels, prefix, k, l);
    }
    StoreEntriesValue(features, entries, k);
  }

  /** Under distinct keys, two indices of the listing store under different keys. */
  lemma LaterKeyDiffers(c: Matrix, labels: seq<string>, prefix: string, k: nat, l: nat)
    requires IsSquare(c) && |labels| == |c| && DistinctKeys(prefix, labels)
    requires k < l < |TriangleEntries(c, labels, prefix, |c|)|
    ensures TriangleEntries(c, labels, prefix, |c|)[k].0 != TriangleEntries(c, labels, prefix, |c|)[l].0
  {
    var i, j := ListedPosition(c, labels, prefix, k);
    var i', j' := ListedPosition(c, labels, prefix, l);
    LowerTriangleDistinct(|c|, k, l);
  }
}
