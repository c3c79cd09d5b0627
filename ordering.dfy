/**
  `get_statistics_from_subgraph_set` folds the components in the order the graph library lists
  them. Every step adds amounts that depend only on the component and on `Non-isolated Nodes`,
  which no step changes, so the result is the same for every order of the components.
*/
module ComponentOrder {
  import opened Outcomes
  import opened Graphs
  import opened Components
  import opened GraphDensity
  import opened Statistics

  /** The amounts `tally_graph_fragment` adds for a fragment of `n` nodes. */
  function FragmentGain(n: int): map<Stat, real> {
    match FragmentCounter(n)
    case Some(k) => map[k := 1.0]
    case None => map[]
  }

  /** The amounts one step adds for component `c` when `Non-isolated Nodes` is `nonIsolated`. */
  function StepGain(c: Graph, nonIsolated: real, measure: Graph -> Measurements): Result<map<Stat, real>> {
    var n := |c.nodes|;
    if n < 4 then Ok(FragmentGain(n))
    else if nonIsolated == 0.0 then Err(DivisionByZero)
    else SmallWorldGains(measure(c), GetDensity(c), n as real / nonIsolated)
  }

  /** A step adds its amounts to the record, and never to `Non-isolated Nodes`. */
  lemma StepByGain(f: Record, c: Graph, measure: Graph -> Measurements)
    requires Full(f)
    ensures var d := StepGain(c, f[NonIsolatedNodes], measure);
      Step(f, c, measure) == (if d.Err? then Err(d.error) else Ok(AddGains(f, d.value)))
      && (d.Ok? ==> NonIsolatedNodes !in d.value)
  {
    var n := |c.nodes|;
    if n < 4 {
      TallyByGain(f, n);
    } else if f[NonIsolatedNodes] != 0.0 {
      var w := n as real / f[NonIsolatedNodes];
      if SmallWorldGains(measure(c), GetDensity(c), w).Ok? {
        CountersUntouched(measure(c), GetDensity(c), w);
      }
    }
  }

  /** `tally_graph_fragment` adds the amounts of `FragmentGain`. */
  lemma TallyByGain(f: Record, n: int)
    requires Full(f)
    ensures Tally(f, n) == AddGains(f, FragmentGain(n))
  {
    var t := Tally(f, n);
    var a := AddGains(f, FragmentGain(n));
    assert t.Keys == a.Keys;
    forall s | s in t ensures t[s] == a[s] {
    }
  }

  /** Adding two sets of amounts in either order gives the same record. */
  lemma GainsCommute(f: Record, d1: map<Stat, real>, d2: map<Stat, real>)
    ensures AddGains(AddGains(f, d1), d2) == AddGains(AddGains(f, d2), d1)
  {
    var l := AddGains(AddGains(f, d1), d2);
    var r := AddGains(AddGains(f, d2), d1);
    assert l.Keys == r.Keys;
    forall s | s in l ensures l[s] == r[s] {
    }
  }

  /** The fold over `[c] + rest`, one step unfolded. */
  lemma UnfoldFront(f: Record, c: Graph, rest: seq<Graph>, measure: Graph -> Measurements)
    requires Full(f)
    ensures var r := Step(f, c, measure);
      SubgraphSet(f, [c] + rest, measure) ==
        if r.Err? then Err(r.error) else SubgraphSet(r.value, rest, measure)
  {
    var s := [c] + rest;
    assert s[0] == c && s[1..] == rest;
  }

  /** Two neighbouring components can be swapped at the front of the fold. */
  lemma StepsCommute(f: Record, x: Graph, y: Graph, rest: seq<Graph>, measure: Graph -> Measurements)
    requires Full(f)
    ensures SubgraphSet(f, [x, y] + rest, measure) == SubgraphSet(f, [y, x] + rest, measure)
  {
    assert [x, y] + rest == [x] + ([y] + rest);
    assert [y, x] + rest == [y] + ([x] + rest);
    UnfoldFront(f, x, [y] + rest, measure);
    UnfoldFront(f, y, [x] + rest, measure);
    var k := f[NonIsolatedNodes];
    StepByGain(f, x, measure);
    StepByGain(f, y, measure);
    var rx := Step(f, x, measure);
    var ry := Step(f, y, measure);
    if rx.Ok? {
      UnfoldFront(rx.value, y, rest, measure);
    }
    if ry.Ok? {
      UnfoldFront(ry.value, x, rest, measure);
    }
    if rx.Ok? && ry.Ok? {
      StepByGain(rx.value, y, measure);
      StepByGain(ry.value, x, measure);
      GainsCommute(f, StepGain(x, k, measure).value, StepGain(y, k, measure).value);
    }
  }

  /** The component at index `k` can be moved to the front of the fold. */
  lemma {:induction false} MoveToFront(f: Record, b: seq<Graph>, k: nat, measure: Graph -> Measurements)
    requires Full(f) && k < |b|
    ensures SubgraphSet(f, b, measure) == SubgraphSet(f, [b[k]] + (b[..k] + b[k + 1..]), measure)
    decreases k
  {
    if k > 0 {
      var tail := b[1..];
      assert b == [b[0]] + tail;
      assert tail[k - 1] == b[k];
      assert tail[..k - 1] + tail[k..] == b[1..k] + b[k + 1..];
      UnfoldFront(f, b[0], tail, measure);
      var r0 := Step(f, b[0], measure);
      if r0.Ok? {
        MoveToFront(r0.value, tail, k - 1, measure);
      }
      var rest := b[1..k] + b[k + 1..];
      assert [b[0], b[k]] + rest == [b[0]] + ([b[k]] + rest);
      UnfoldFront(f, b[0], [b[k]] + rest, measure);
      StepsCommute(f, b[k], b[0], rest, measure);
      assert [b[k]] + (b[..k] + b[k + 1..]) == [b[k], b[0]] + rest;
    } else {
      assert b == [b[0]] + (b[..0] + b[1..]);
    }
  }

  /** The first element of `a` occurs in its permutation `b` at some index `k`; without them, the rest still match. */
  lemma RemoveFirst(a: seq<Graph>, b: seq<Graph>) returns (k: nat)
    requires a != [] && multiset(a) == multiset(b)
    ensures k < |b| && b[k] == a[0]
    ensures multiset(a[1..]) == multiset(b[..k] + b[k + 1..])
  {
    var x := a[0];
    assert x in multiset(b);
    k :| 0 <= k < |b| && b[k] == x;
    var b' := b[..k] + b[k + 1..];
    assert b == b[..k] + [b[k]] + b[k + 1..];
    assert multiset(b) == multiset(b[..k]) + multiset{x} + multiset(b[k + 1..]);
    assert a == [x] + a[1..];
    assert multiset(a) == multiset{x} + multiset(a[1..]);
    assert multiset(b') == multiset(b[..k]) + multiset(b[k + 1..]);
    forall y ensures multiset(a[1..])[y] == multiset(b')[y] {
      assert multiset(a)[y] == multiset{x}[y] + multiset(a[1..])[y];
      assert multiset(b)[y] == multiset(b[..k])[y] + multiset{x}[y] + multiset(b[k + 1..])[y];
    }
  }

  /** The fold gives the same result for any two orders of the same components. */
  lemma {:induction false} SubgraphSetPermutation(f: Record, a: seq<Graph>, b: seq<Graph>, measure: Graph -> Measurements)
    requires Full(f) && multiset(a) == multiset(b)
    ensures SubgraphSet(f, a, measure) == SubgraphSet(f, b, measure)
    decreases |a|
  {
    if a != [] {
      var x := a[0];
      var k := RemoveFirst(a, b);
      var b' := b[..k] + b[k + 1..];
      MoveToFront(f, b, k, measure);
      UnfoldFront(f, x, a[1..], measure);
      UnfoldFront(f, x, b', measure);
      var r := Step(f, x, measure);
      if r.Ok? {
        SubgraphSetPermutation(r.value, a[1..], b', measure);
      }
    } else {
      assert |b| == |multiset(b)| == 0;
    }
  }

  /** `NonIsolatedCount` adds up over concatenation. */
  lemma {:induction false} NonIsolatedCountAppend(a: seq<Graph>, b: seq<Graph>)
    ensures NonIsolatedCount(a + b) == NonIsolatedCount(a) + NonIsolatedCount(b)
    decreases |a|
  {
    if a != [] {
      assert (a + b)[1..] == a[1..] + b;
      NonIsolatedCountAppend(a[1..], b);
    } else {
      assert a + b == b;
    }
  }

  /** `NonIsolatedCount` does not depend on the order of the components. */
  lemma {:induction false} NonIsolatedCountPermutation(a: seq<Graph>, b: seq<Graph>)
    requires multiset(a) == multiset(b)
    ensures NonIsolatedCount(a) == NonIsolatedCount(b)
    decreases |a|
  {
    if a != [] {
      var x := a[0];
      var k := RemoveFirst(a, b);
      var b' := b[..k] + b[k + 1..];
      assert b == b[..k] + [b[k]] + b[k + 1..];
      assert a == [x] + a[1..];
      NonIsolatedCountPermutation(a[1..], b');
      NonIsolatedCountAppend(b[..k] + [b[k]], b[k + 1..]);
      NonIsolatedCountAppend(b[..k], [b[k]]);
      NonIsolatedCountAppend(b[..k], b[k + 1..]);
      NonIsolatedCountAppend([x], a[1..]);
    } else {
      assert |b| == |multiset(b)| == 0;
    }
  }

  /** `get_graph_statistics` gives the same result for every listing of the components. */
  lemma StatisticsOrderFree(g: Graph, subs: seq<Graph>, measure: Graph -> Measurements)
    requires IsComponentList(g, subs)
    ensures StatisticsOver(g, subs, measure) == GraphStatistics(g, measure)
  {
    var cs := ComponentSubgraphs(g);
    ComponentSubgraphsSpec(g);
    ComponentListsPermute(g, subs, cs);
    assert |subs| == |multiset(subs)| == |multiset(cs)| == |cs|;
    NonIsolatedCountPermutation(subs, cs);
    if g.nodes != {} && !Connected(g) {
      var f := DisconnectedStart(subs);
      SubgraphSetPermutation(f, subs, cs, measure);
    }
  }
}
