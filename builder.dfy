/**
  Correlation-graph builder: `graph_from_corr_matrix` and `remove_unwanted_ica_regions`
  (feature_extraction/extraction_utils.py), and the valid-region lists their callers pass.
*/
module Builder {
  import opened Graphs

  /** A correlation matrix, row by row. */
  type Matrix = seq<seq<real>>

  predicate IsSquare(c: Matrix) {
    forall i :: 0 <= i < |c| ==> |c[i]| == |c|
  }

  ghost predicate IsSymmetric(c: Matrix)
    requires IsSquare(c)
  {
    forall i, j :: 0 <= i < |c| && 0 <= j < |c| ==> c[i][j] == c[j][i]
  }

  function Abs(x: real): real {
    if x < 0.0 then -x else x
  }

  /** The stacked (row, column) links kept by the filter: off the diagonal, absolute correlation above the threshold. */
  function KeptLinks(c: Matrix, t: real): set<(int, int)>
    requires IsSquare(c)
  {
    set i, j | 0 <= i < |c| && 0 <= j < |c| && i != j && Abs(c[i][j]) > t :: (i, j)
  }

  /** The undirected edge a link stands for. */
  function Unordered(l: (int, int)): (int, int) {
    if l.0 < l.1 then l else (l.1, l.0)
  }

  /** `nx.from_pandas_edgelist` over the kept links, then every index added as a node. */
  function CorrelationGraph(c: Matrix, t: real): Graph
    requires IsSquare(c)
  {
    Graph(set i | i in Range(|c|), set l | l in KeptLinks(c, t) :: Unordered(l))
  }

  /** `range(0, n)`, and `list(np.arange(n))`: the indices 0..n-1 in order. */
  function Range(n: nat): (r: seq<int>)
    ensures |r| == n && forall i :: 0 <= i < n ==> r[i] == i
  {
    seq(n, i requires 0 <= i < n => i)
  }

  lemma RangeMembers(n: nat)
    ensures forall v :: v in Range(n) <==> 0 <= v < n
  {
    forall v | 0 <= v < n
      ensures v in Range(n)
    {
      assert Range(n)[v] == v;
    }
  }

  /** `Graph.remove_node`: the node goes, and every edge touching it. */
  function RemoveNode(g: Graph, v: int): (h: Graph)
    ensures h.nodes == g.nodes - {v}
    ensures forall e :: e in h.edges <==> e in g.edges && e.0 != v && e.1 != v
  {
    Graph(g.nodes - {v}, set e | e in g.edges && e.0 != v && e.1 != v)
  }

  /** The graph left by `remove_unwanted_ica_regions`: an empty list keeps every node. */
  function Restricted(g: Graph, valid: seq<int>): Graph {
    if |valid| > 0 then Induced(g, set v | v in valid) else g
  }

  /** The graph `graph_from_corr_matrix` returns. */
  function CorrelationGraphOn(c: Matrix, t: real, valid: seq<int>): Graph
    requires IsSquare(c)
  {
    Restricted(CorrelationGraph(c, t), valid)
  }

  /** Edge rule: an edge {i, j}, i < j, exactly when either of the two entries exceeds the threshold in absolute value. */
  lemma CorrelationGraphSpec(c: Matrix, t: real)
    requires IsSquare(c)
    ensures var g := CorrelationGraph(c, t);
      Valid(g) &&
      (forall v :: v in g.nodes <==> 0 <= v < |c|) &&
      (forall i, j :: (i, j) in g.edges <==>
         0 <= i < j < |c| && (Abs(c[i][j]) > t || Abs(c[j][i]) > t))
  {
    var g := CorrelationGraph(c, t);
    var links := KeptLinks(c, t);
    RangeMembers(|c|);
    forall i, j
      ensures (i, j) in g.edges <==> 0 <= i < j < |c| && (Abs(c[i][j]) > t || Abs(c[j][i]) > t)
    {
      if 0 <= i < j < |c| && Abs(c[i][j]) > t {
        assert (i, j) in links && Unordered((i, j)) == (i, j);
      }
      if 0 <= i < j < |c| && Abs(c[j][i]) > t {
        assert (j, i) in links && Unordered((j, i)) == (i, j);
      }
    }
  }

  /**
    `remove_unwanted_ica_regions`: with a non-empty list, every node of a snapshot of the node set
    that is not listed is removed in turn; with an empty list the graph is returned as it is.
  */
  method RemoveUnwantedIcaRegions(valid: seq<int>, g: Graph) returns (h: Graph)
    requires Valid(g)
    ensures h == Restricted(g, valid)
    ensures Valid(h)
    ensures |valid| > 0 ==> forall v :: v in h.nodes <==> v in g.nodes && v in valid
    ensures forall e :: e in h.edges <==> e in g.edges && e.0 in h.nodes && e.1 in h.nodes
  {
    h := g;
    if |valid| > 0 {
      var pending := g.nodes;
      while pending != {}
        invariant pending <= g.nodes
        invariant forall v :: v in h.nodes <==> v in g.nodes && (v in pending || v in valid)
        invariant forall e :: e in h.edges <==> e in g.edges && e.0 in h.nodes && e.1 in h.nodes
        decreases pending
      {
        NonEmpty(pending);
        var v :| v in pending;
        if v !in valid {
          h := RemoveNode(h, v);
        }
        pending := pending - {v};
      }
      var kept := set v | v in valid;
      forall v
        ensures v in h.nodes <==> v in g.nodes * kept
      {
      }
      assert h.nodes == g.nodes * kept;
      assert h.edges == Induced(g, kept).edges;
    }
  }

  /**
    `graph_from_corr_matrix`: keep the off-diagonal links above the threshold, build the undirected
    graph on every index, then drop the regions that are not valid.
  */
  method GraphFromCorrMatrix(c: Matrix, t: real, valid: seq<int>) returns (g: Graph)
    requires IsSquare(c)
    ensures g == CorrelationGraphOn(c, t, valid)
    ensures Valid(g)
    ensures forall v :: v in g.nodes <==> 0 <= v < |c| && (|valid| == 0 || v in valid)
    ensures forall i, j :: (i, j) in g.edges <==>
      i < j && i in g.nodes && j in g.nodes && (Abs(c[i][j]) > t || Abs(c[j][i]) > t)
  {
    var links := KeptLinks(c, t);
    g := Graph(set i | i in Range(|c|), set l | l in links :: Unordered(l));
    CorrelationGraphSpec(c, t);
    g := RemoveUnwantedIcaRegions(valid, g);
  }

  /** On a symmetric matrix the edge rule reads one entry: {i, j} is an edge exactly when |c[i][j]| > t. */
  lemma SymmetricEdgeRule(c: Matrix, t: real, valid: seq<int>, i: int, j: int)
    requires IsSquare(c) && IsSymmetric(c) && 0 <= i < |c| && 0 <= j < |c| && i != j
    ensures var g := CorrelationGraphOn(c, t, valid);
      i in g.nodes && j in g.nodes ==>
        (Adjacent(g, i, j) <==> Abs(c[i][j]) > t)
  {
    CorrelationGraphSpec(c, t);
    assert c[i][j] == c[j][i];
  }

  /** Raising the threshold only removes edges, and never changes the node set. */
  lemma ThresholdMonotone(c: Matrix, t1: real, t2: real, valid: seq<int>)
    requires IsSquare(c) && t1 <= t2
    ensures CorrelationGraphOn(c, t2, valid).nodes == CorrelationGraphOn(c, t1, valid).nodes
    ensures CorrelationGraphOn(c, t2, valid).edges <= CorrelationGraphOn(c, t1, valid).edges
  {
    CorrelationGraphSpec(c, t1);
    CorrelationGraphSpec(c, t2);
    var g1, g2 := CorrelationGraph(c, t1), CorrelationGraph(c, t2);
    forall e | e in g2.edges
      ensures e in g1.edges
    {
      assert (e.0, e.1) in g2.edges;
    }
  }

  /** The one-based UK Biobank ICA component numbers kept (all of 1..22 except 4). */
  const ValidIcaComponents: seq<int> :=
    [1, 2, 3, 5, 6, 7, 8, 9, 10, 11, 12, 13, 14, 15, 16, 17, 18, 19, 20, 21, 22]

  /** The same list, shifted to zero-based node identifiers. */
  const ValidIcaRegions: seq<int> :=
    seq(|ValidIcaComponents|, i requires 0 <= i < |ValidIcaComponents| => ValidIcaComponents[i] - 1)

  /** The valid ICA regions are the nodes 0..21 except 3. */
  lemma ValidIcaRegionsSpec()
    ensures forall v :: v in ValidIcaRegions <==> 0 <= v < 22 && v != 3
  {
    forall v | 0 <= v < 22 && v != 3
      ensures v in ValidIcaRegions
    {
      var i := if v < 3 then v else v - 1;
      assert ValidIcaRegions[i] == v;
    }
  }


  /** Listing every index as valid removes nothing. */
  lemma AllRegionsKeepGraph(c: Matrix, t: real)
    requires IsSquare(c)
    ensures CorrelationGraphOn(c, t, Range(|c|)) == CorrelationGraph(c, t)
  {
    CorrelationGraphSpec(c, t);
    RangeMembers(|c|);
    var g := CorrelationGraph(c, t);
    if |c| > 0 {
      var h := Induced(g, set v | v in Range(|c|));
      assert h.nodes == g.nodes;
      assert h.edges == g.edges;
    }
  }
}
