/** `get_density` (feature_extraction/extraction_utils.py) and the edge counting behind its bounds. */
module GraphDensity {
  import opened Outcomes
  import opened Graphs

  /** Every edge a graph on the nodes `s` can have. */
  function AllPairs(s: set<int>): set<(int, int)> {
    set i, j | i in s && j in s && i < j :: (i, j)
  }

  /** The edges joining `x` to each node of `t`. */
  function Links(x: int, t: set<int>): set<(int, int)> {
    set y | y in t :: if y < x then (y, x) else (x, y)
  }

  lemma {:induction false} LinksCard(x: int, t: set<int>)
    requires x !in t
    ensures |Links(x, t)| == |t|
    decreases t
  {
    if t != {} {
      NonEmpty(t);
      var y :| y in t;
      var e := if y < x then (y, x) else (x, y);
      LinksCard(x, t - {y});
      assert Links(x, t) == Links(x, t - {y}) + {e};
      assert e !in Links(x, t - {y});
    }
  }

  /** A graph on n nodes has at most n(n-1)/2 edges, and the complete graph has exactly that many. */
  lemma {:induction false} AllPairsCard(s: set<int>)
    ensures 2 * |AllPairs(s)| == |s| * (|s| - 1)
    decreases s
  {
    if s != {} {
      NonEmpty(s);
      var x :| x in s;
      var r := s - {x};
      AllPairsCard(r);
      LinksCard(x, r);
      SplitPairs(s, x);
      var m := |r|;
      assert |s| == m + 1;
      assert 2 * |AllPairs(s)| == m * (m - 1) + 2 * m;
      assert m * (m - 1) + 2 * m == (m + 1) * m;
    }
  }

  /** The pairs on `s` are those avoiding `x` and those joining `x` to the rest. */
  lemma SplitPairs(s: set<int>, x: int)
    requires x in s
    ensures |AllPairs(s)| == |AllPairs(s - {x})| + |Links(x, s - {x})|
  {
    var r := s - {x};
    forall e | e in AllPairs(s)
      ensures e in AllPairs(r) + Links(x, r)
    {
      if e.0 == x {
        assert e == (x, e.1) && e.1 in r;
      } else if e.1 == x {
        assert e == (e.0, x) && e.0 in r;
      }
    }
    assert AllPairs(s) == AllPairs(r) + Links(x, r);
    assert AllPairs(r) !! Links(x, r);
  }

  /** A subset is no larger, and a subset of the same size is the whole set. */
  lemma {:induction false} SubsetCard(a: set<(int, int)>, b: set<(int, int)>)
    requires a <= b
    ensures |a| <= |b|
    ensures |a| == |b| ==> a == b
    decreases b
  {
    if b != {} {
      var e :| e in b;
      SubsetCard(a - {e}, b - {e});
      if e in a {
        assert |a - {e}| == |a| - 1;
        assert a == (a - {e}) + {e} && b == (b - {e}) + {e};
      } else {
        assert a - {e} == a;
      }
    }
  }

  /** `get_density`: 2e / (n(n-1)); the division raises ZeroDivisionError on fewer than two nodes. */
  function GetDensity(g: Graph): (r: Result<real>)
    ensures r.Err? <==> |g.nodes| < 2
    ensures r.Err? ==> r.error == DivisionByZero
    ensures r.Ok? ==> r.value >= 0.0
  {
    var n := |g.nodes|;
    if n * (n - 1) == 0 then Err(DivisionByZero)
    else Ok(2.0 * |g.edges| as real / (n * (n - 1)) as real)
  }

  ghost predicate Complete(g: Graph) {
    forall i, j :: i in g.nodes && j in g.nodes && i < j ==> (i, j) in g.edges
  }

  lemma ValidEdgesArePairs(g: Graph)
    requires Valid(g)
    ensures g.edges <= AllPairs(g.nodes)
    ensures Complete(g) <==> g.edges == AllPairs(g.nodes)
  {
    forall e | e in g.edges
      ensures e in AllPairs(g.nodes)
    {
      assert e == (e.0, e.1);
    }
  }

  /** The density of a graph with at least two nodes lies in [0, 1]. */
  lemma DensityBounds(g: Graph)
    requires Valid(g) && |g.nodes| >= 2
    ensures GetDensity(g).Ok? && 0.0 <= GetDensity(g).value <= 1.0
  {
    ValidEdgesArePairs(g);
    AllPairsCard(g.nodes);
    var n := |g.nodes|;
    SubsetCard(g.edges, AllPairs(g.nodes));
    assert 2 * |g.edges| <= n * (n - 1);
    FractionAtMostOne(2.0 * |g.edges| as real, (n * (n - 1)) as real);
  }

  lemma FractionAtMostOne(a: real, b: real)
    requires 0.0 <= a <= b && b > 0.0
    ensures a / b <= 1.0
  {
  }

  /** A graph with at least two nodes has density 1 exactly when it is complete. */
  lemma DensityOneIffComplete(g: Graph)
    requires Valid(g) && |g.nodes| >= 2
    ensures GetDensity(g) == Ok(1.0) <==> Complete(g)
  {
    ValidEdgesArePairs(g);
    AllPairsCard(g.nodes);
    var n := |g.nodes|;
    assert n * (n - 1) > 0;
    SubsetCard(g.edges, AllPairs(g.nodes));
    var d := (n * (n - 1)) as real;
    assert d > 0.0;
    if GetDensity(g) == Ok(1.0) {
      assert 2.0 * |g.edges| as real / d == 1.0;
      assert 2.0 * |g.edges| as real == d;
      assert 2 * |g.edges| == n * (n - 1);
    }
    if Complete(g) {
      assert 2 * |g.edges| == n * (n - 1);
      assert (2 * |g.edges|) as real == d;
      assert 2.0 * |g.edges| as real / d == 1.0;
    }
  }

  /** A graph with at least two nodes and no edges has density 0. */
  lemma DensityOfEdgeless(g: Graph)
    requires |g.nodes| >= 2 && g.edges == {}
    ensures GetDensity(g) == Ok(0.0)
  {
  }
}
