/**
 * `compute_graph_metrics`: the coupling metrics of a parsed graph. Ratios
 * are exact fractions; the source rounds them for display (4, 6 and 2
 * decimal places), which is not modelled.
 */
module GraphMetrics {
  import opened DotParse
  import opened Degrees
  import opened Hubs
  import opened Enumeration
  import opened Sorting
  import opened Ratio

  /* ---------- ratios ---------- */

  /** `coupling_score`: edges per node, 0 for an empty graph. */
  function CouplingScore(n: nat, e: nat): Fraction
  {
    Quotient(e, n)
  }

  /** `n * (n - 1)`: the edges a directed graph without self-loops can have. */
  function MaxEdges(n: nat): nat
  {
    if n == 0 then 0 else n * (n - 1)
  }

  /** `graph_density`: edges over possible edges, 0 when no edge is possible. */
  function Density(n: nat, e: nat): Fraction
  {
    Quotient(e, MaxEdges(n))
  }

  /**
   * The two ratios are tied: with two nodes or more, coupling is density
   * times `n - 1`; both are 0 without edges. (A single node with a self-loop
   * has coupling 1 and density 0.)
   */
  lemma CouplingIsScaledDensity(n: nat, e: nat)
    ensures n > 1 ==> Same(CouplingScore(n, e), Scale(Density(n, e), n - 1))
    ensures e == 0 ==> CouplingScore(n, e).num == 0 && Density(n, e).num == 0
  {
    if n > 1 {
      Rearrange(e, n, n - 1);
    }
  }

  lemma Rearrange(e: nat, n: nat, m: nat)
    ensures e * (n * m) == (e * m) * n
  {
  }

  /** Density is at most 1 while there are no more edges than ordered pairs of distinct nodes, and above 1 otherwise. */
  lemma DensityBounded(n: nat, e: nat)
    requires n > 1
    ensures AtMost(Density(n, e), Whole(1)) <==> e <= MaxEdges(n)
  {
  }

  /* ---------- leaves and roots ---------- */

  /** `[n for n, d in degree.items() if d == 0]`, as a set: the keys of a dict are distinct. */
  function ZeroKeys(degree: map<string, nat>): set<string>
  {
    set k | k in degree && degree[k] == 0
  }

  /**
   * In a graph whose edges stay inside the node set, the leaves are the nodes
   * no edge starts at and the roots the nodes no edge ends at.
   */
  lemma LeavesAndRoots(nodes: set<string>, edges: seq<Edge>)
    requires Endpoints(edges) <= nodes
    ensures ZeroKeys(OutDegreeMap(nodes, edges)) == nodes - Sources(edges)
    ensures ZeroKeys(InDegreeMap(nodes, edges)) == nodes - Targets(edges)
  {
    forall side: Side ensures ZeroKeys(DegreeMap(nodes, edges, side)) == nodes - Ends(edges, side) {
      DegreeMapDomain(nodes, edges, side);
      forall v | v in nodes ensures DegreeMap(nodes, edges, side)[v] == 0 <==> v !in Ends(edges, side) {
        DegreeOutsideEnds(edges, v, side);
      }
    }
  }

  /** Every node is a leaf or the source of an edge, never both, so the leaf count is `n - |sources|`. */
  lemma LeafCount(nodes: set<string>, edges: seq<Edge>)
    requires Endpoints(edges) <= nodes
    ensures |ZeroKeys(OutDegreeMap(nodes, edges))| + |Sources(edges)| == |nodes|
    ensures |ZeroKeys(InDegreeMap(nodes, edges))| + |Targets(edges)| == |nodes|
  {
    LeavesAndRoots(nodes, edges);
    assert nodes == (nodes - Sources(edges)) + Sources(edges);
    assert nodes == (nodes - Targets(edges)) + Targets(edges);
  }

  /* ---------- degree statistics ---------- */

  /** `[in_degree[nd] + out_degree[nd] for nd in ks]` */
  function TotalDegrees(ks: seq<string>, inDeg: map<string, nat>, outDeg: map<string, nat>): (r: seq<nat>)
    requires forall k :: k in ks ==> k in inDeg && k in outDeg
    ensures |r| == |ks|
    ensures forall i :: 0 <= i < |r| ==> r[i] == inDeg[ks[i]] + outDeg[ks[i]]
  {
    if ks == [] then [] else [inDeg[ks[0]] + outDeg[ks[0]]] + TotalDegrees(ks[1..], inDeg, outDeg)
  }

  function Sum(s: seq<nat>): nat
  {
    if s == [] then 0 else s[0] + Sum(s[1..])
  }

  /** `max(s)`: an element of `s` no element exceeds. */
  function MaxOf(s: seq<nat>): (r: nat)
    requires |s| > 0
    ensures r in s
    ensures forall i :: 0 <= i < |s| ==> s[i] <= r
  {
    if |s| == 1 then s[0]
    else
      var m := MaxOf(s[1..]);
      assert forall i :: 1 <= i < |s| ==> s[i] == s[1..][i - 1];
      if s[0] >= m then s[0] else m
  }

  /** `min(s)`: an element of `s` no element is below. */
  function MinOf(s: seq<nat>): (r: nat)
    requires |s| > 0
    ensures r in s
    ensures forall i :: 0 <= i < |s| ==> r <= s[i]
  {
    if |s| == 1 then s[0]
    else
      var m := MinOf(s[1..]);
      assert forall i :: 1 <= i < |s| ==> s[i] == s[1..][i - 1];
      if s[0] <= m then s[0] else m
  }

  /** `sum(s) / len(s)`, 0 for an empty list. */
  function Average(s: seq<nat>): Fraction
  {
    Quotient(Sum(s), |s|)
  }

  /** A sum lies between `len * min` and `len * max`. */
  lemma {:induction false} SumBetween(s: seq<nat>, lo: nat, hi: nat)
    requires forall i :: 0 <= i < |s| ==> lo <= s[i] <= hi
    ensures |s| * lo <= Sum(s) <= |s| * hi
    decreases |s|
  {
    if s != [] {
      SumBetween(s[1..], lo, hi);
      assert |s| * lo == (|s| - 1) * lo + lo;
      assert |s| * hi == (|s| - 1) * hi + hi;
    }
  }

  /** An average lies within any bounds of the values. */
  lemma AverageWithin(s: seq<nat>, lo: nat, hi: nat)
    requires |s| > 0 && forall i :: 0 <= i < |s| ==> lo <= s[i] <= hi
    ensures AtMost(Whole(lo), Average(s)) && AtMost(Average(s), Whole(hi))
  {
    SumBetween(s, lo, hi);
  }

  /** `min_degree <= avg_degree <= max_degree`. */
  lemma AverageBetween(s: seq<nat>)
    ensures |s| > 0 ==> AtMost(Whole(MinOf(s)), Average(s)) && AtMost(Average(s), Whole(MaxOf(s)))
  {
    if |s| > 0 {
      AverageWithin(s, MinOf(s), MaxOf(s));
    }
  }

  /** Every node's in-degree plus out-degree, in iteration order. */
  ghost function AllDegrees(nodes: set<string>, edges: seq<Edge>): seq<nat>
  {
    var ks := Elements(nodes);
    DegreeMapDomain(nodes, edges, Dst);
    DegreeMapDomain(nodes, edges, Src);
    TotalDegrees(ks, InDegreeMap(nodes, edges), OutDegreeMap(nodes, edges))
  }

  lemma {:induction false} SumTotalDegrees(ks: seq<string>, nodes: set<string>, edges: seq<Edge>)
    requires forall k :: k in ks ==> k in nodes
    ensures (DegreeMapDomain(nodes, edges, Dst); DegreeMapDomain(nodes, edges, Src);
             Sum(TotalDegrees(ks, InDegreeMap(nodes, edges), OutDegreeMap(nodes, edges))))
         == SumDegrees(ks, edges, Dst) + SumDegrees(ks, edges, Src)
    decreases |ks|
  {
    DegreeMapDomain(nodes, edges, Dst);
    DegreeMapDomain(nodes, edges, Src);
    if ks != [] {
      SumTotalDegrees(ks[1..], nodes, edges);
      assert TotalDegrees(ks, InDegreeMap(nodes, edges), OutDegreeMap(nodes, edges))[1..]
          == TotalDegrees(ks[1..], InDegreeMap(nodes, edges), OutDegreeMap(nodes, edges));
    }
  }

  /**
   * Each edge adds one to a node's out-degree and one to a node's in-degree,
   * so in a graph whose edges stay inside the node set the degrees add up to
   * twice the edge count.
   */
  lemma DegreeTotal(nodes: set<string>, edges: seq<Edge>)
    requires Endpoints(edges) <= nodes
    ensures Sum(AllDegrees(nodes, edges)) == 2 * |edges|
  {
    var ks := Elements(nodes);
    SumTotalDegrees(ks, nodes, edges);
    SumDegreesIsEdgeCount(ks, edges, Dst);
    SumDegreesIsEdgeCount(ks, edges, Src);
  }

  /** In such a graph the average degree is twice the coupling score. */
  lemma AverageIsTwiceCoupling(nodes: set<string>, edges: seq<Edge>)
    requires Endpoints(edges) <= nodes
    ensures Same(Average(AllDegrees(nodes, edges)), Scale(CouplingScore(|nodes|, |edges|), 2))
  {
    DegreeTotal(nodes, edges);
    HalfOfDouble(Sum(AllDegrees(nodes, edges)), |nodes|, |edges|);
  }

  lemma HalfOfDouble(total: nat, n: nat, e: nat)
    requires total == 2 * e
    ensures Same(Quotient(total, n), Scale(Quotient(e, n), 2))
  {
  }

  /* ---------- circular pairs ---------- */

  /** `[(s, d) for s, d in edges if (d, s) in set(edges)]`: the edges whose reverse is also an edge. */
  function CircularPairs(edges: seq<Edge>): (r: seq<Edge>)
    ensures |r| <= |edges|
    ensures forall e :: e in r <==> e in edges && (e.1, e.0) in edges
  {
    CircularAmong(edges, edges)
  }

  /** The edges of `es` whose reverse is in `all`, in order. */
  function CircularAmong(es: seq<Edge>, all: seq<Edge>): (r: seq<Edge>)
    ensures |r| <= |es|
    ensures forall e :: e in r <==> e in es && (e.1, e.0) in all
  {
    if es == [] then []
    else
      var rest := CircularAmong(es[1..], all);
      assert forall e :: e in es <==> e == es[0] || e in es[1..];
      if (es[0].1, es[0].0) in all then [es[0]] + rest else rest
  }

  /** A two-way dependency `a -> b`, `b -> a` counts as two pairs. */
  lemma MutualPair(a: string, b: string)
    requires a != b
    ensures |CircularPairs([(a, b), (b, a)])| == 2
  {
    var es := [(a, b), (b, a)];
    assert CircularAmong(es[1..], es) == [(b, a)] + CircularAmong([], es);
  }

  /** No edge of `es` has its reverse in `all`: nothing is counted. */
  lemma {:induction false} NoneCircular(es: seq<Edge>, all: seq<Edge>)
    requires forall e :: e in es ==> (e.1, e.0) !in all
    ensures CircularAmong(es, all) == []
    decreases |es|
  {
    if es != [] {
      assert es[0] in es;
      NoneCircular(es[1..], all);
    }
  }

  /**
   * A three-edge cycle has no edge whose reverse is an edge, so it counts
   * zero pairs: the measure sees two-cycles only, not strongly connected
   * components.
   */
  lemma TriangleUncounted(a: string, b: string, c: string)
    requires a != b && b != c && a != c
    ensures |CircularPairs([(a, b), (b, c), (c, a)])| == 0
  {
    NoneCircular([(a, b), (b, c), (c, a)], [(a, b), (b, c), (c, a)]);
  }

  /* ---------- the report ---------- */

  datatype Metrics = Metrics(
    nodeCount: nat,
    edgeCount: nat,
    couplingScore: Fraction,
    graphDensity: Fraction,
    hubNodeCount: nat,
    hubNodes: seq<Ranked>,
    leafNodeCount: nat,
    rootNodeCount: nat,
    avgDegree: Fraction,
    maxDegree: nat,
    minDegree: nat,
    circularReferencePairs: nat,
    topDependedNodes: seq<Ranked>)

  /** `hubs[:10]`: the first ten hubs, or all of them when there are fewer. */
  function FirstTen(s: seq<Ranked>): (r: seq<Ranked>)
    ensures |r| <= TopCount && r <= s
    ensures |s| <= TopCount ==> r == s
  {
    s[..Min(TopCount, |s|)]
  }

  /** `avg_degree`, `max_degree`, `min_degree` of a degree list. */
  datatype Stats = Stats(avg: Fraction, max: nat, min: nat)

  /** The degree statistics: all 0 for no nodes; otherwise the minimum and maximum are the least and greatest degrees and the average lies between them. */
  function DegreeStats(all: seq<nat>): (r: Stats)
    ensures |all| == 0 ==> r.avg.num == 0 && r.max == 0 && r.min == 0
    ensures |all| > 0 ==> r.min in all && r.max in all && r.min <= r.max
    ensures |all| > 0 ==> forall i :: 0 <= i < |all| ==> r.min <= all[i] <= r.max
    ensures |all| > 0 ==> AtMost(Whole(r.min), r.avg) && AtMost(r.avg, Whole(r.max))
  {
    AverageBetween(all);
    if |all| > 0 then Stats(Average(all), MaxOf(all), MinOf(all)) else Stats(Average(all), 0, 0)
  }

  /** `compute_graph_metrics(nodes, edges)` */
  ghost function ComputeGraphMetrics(nodes: set<string>, edges: seq<Edge>): (r: Metrics)
    ensures r.nodeCount == |nodes| && r.edgeCount == |edges|
    ensures |r.hubNodes| <= TopCount && |r.hubNodes| <= r.hubNodeCount
    ensures SortedDesc(r.hubNodes)
    ensures forall i :: 0 <= i < |r.hubNodes| ==> r.hubNodes[i].1 > 0
    ensures r.circularReferencePairs <= r.edgeCount
  {
    var n := |nodes|;
    var e := |edges|;
    var inDeg := InDegreeMap(nodes, edges);
    var outDeg := OutDegreeMap(nodes, edges);
    var hubs := IdentifyHubNodes(inDeg, HubPercentile);
    ListedHubs(inDeg);
    var stats := DegreeStats(AllDegrees(nodes, edges));
    Metrics(
      n,
      e,
      CouplingScore(n, e),
      Density(n, e),
      |hubs|,
      FirstTen(hubs),
      |ZeroKeys(outDeg)|,
      |ZeroKeys(inDeg)|,
      stats.avg,
      stats.max,
      stats.min,
      |CircularPairs(edges)|,
      TopDepended(inDeg))
  }

  /** The listed hubs are in descending order of in-degree, and every one has a positive in-degree. */
  lemma ListedHubs(m: map<string, nat>)
    ensures SortedDesc(FirstTen(IdentifyHubNodes(m, HubPercentile)))
    ensures forall i :: 0 <= i < |FirstTen(IdentifyHubNodes(m, HubPercentile))| ==>
              FirstTen(IdentifyHubNodes(m, HubPercentile))[i].1 > 0
  {
    var hubs := IdentifyHubNodes(m, HubPercentile);
    var top := FirstTen(hubs);
    forall i | 0 <= i < |top| ensures top[i] == hubs[i] && top[i].1 > 0 {
      assert top[i] == hubs[i];
    }
  }

  /**
   * The report agrees with itself on a graph whose edges stay inside the
   * node set (every parsed graph): leaves and roots are counted against the
   * edge sources and targets, the average degree is twice the coupling
   * score, and with two nodes or more the coupling is density times `n - 1`.
   */
  lemma MetricsConsistent(nodes: set<string>, edges: seq<Edge>)
    requires Endpoints(edges) <= nodes
    ensures var r := ComputeGraphMetrics(nodes, edges);
      && r.leafNodeCount + |Sources(edges)| == r.nodeCount
      && r.rootNodeCount + |Targets(edges)| == r.nodeCount
      && Same(r.avgDegree, Scale(r.couplingScore, 2))
      && (r.nodeCount > 1 ==> Same(r.couplingScore, Scale(r.graphDensity, r.nodeCount - 1)))
  {
    LeafCount(nodes, edges);
    AverageIsTwiceCoupling(nodes, edges);
    CouplingIsScaledDensity(|nodes|, |edges|);
  }

  /**
   * The one-edge graph `a -> b`: coupling and density 1/2, one leaf (`b`),
   * one root (`a`), every degree 1, no circular pair, and `b` is a hub: the
   * 90th-percentile in-degree of `[0, 1]` is 1, which `b` reaches.
   */
  lemma OneEdgeMetrics()
    ensures var r := ComputeGraphMetrics({"a", "b"}, [("a", "b")]);
      && r.nodeCount == 2 && r.edgeCount == 1
      && Same(r.couplingScore, Fraction(1, 2)) && Same(r.graphDensity, Fraction(1, 2))
      && r.hubNodeCount == 1 && r.hubNodes == [("b", 1)]
      && r.leafNodeCount == 1 && r.rootNodeCount == 1
      && Same(r.avgDegree, Whole(1)) && r.maxDegree == 1 && r.minDegree == 1
      && r.circularReferencePairs == 0
  {
    var nodes, edges := {"a", "b"}, [("a", "b")];
    assert |nodes| == 2;
    OneEdgeRatios();
    OneEdgeEnds();
    NoneCircular(edges, edges);
    OneEdgeHubs();
    OneEdgeStats();
  }

  /** Coupling and density of two nodes and one edge are both 1/2. */
  lemma OneEdgeRatios()
    ensures Same(CouplingScore(2, 1), Fraction(1, 2)) && Same(Density(2, 1), Fraction(1, 2))
  {
    assert MaxEdges(2) == 2;
  }

  /** `a -> b` has one leaf and one root. */
  lemma OneEdgeEnds()
    ensures |ZeroKeys(OutDegreeMap({"a", "b"}, [("a", "b")]))| == 1
    ensures |ZeroKeys(InDegreeMap({"a", "b"}, [("a", "b")]))| == 1
  {
    var nodes, edges := {"a", "b"}, [("a", "b")];
    assert Sources(edges) == {"a"} && Targets(edges) == {"b"};
    assert |nodes| == 2;
    LeafCount(nodes, edges);
  }

  /** Average, maximum and minimum degree of `a -> b` are all 1. */
  lemma OneEdgeStats()
    ensures var st := DegreeStats(AllDegrees({"a", "b"}, [("a", "b")]));
      st.max == 1 && st.min == 1 && Same(st.avg, Whole(1))
  {
    var all := AllDegrees({"a", "b"}, [("a", "b")]);
    OneEdgeDegrees();
    var st := DegreeStats(all);
    assert st.max in all && st.min in all;
    assert Average(all) == Fraction(2, 2);
  }

  /** The in-degrees of `a -> b` and the hubs they give. */
  lemma OneEdgeHubs()
    ensures InDegreeMap({"a", "b"}, [("a", "b")]) == map["a" := 0, "b" := 1]
    ensures IdentifyHubNodes(map["a" := 0, "b" := 1], HubPercentile) == [("b", 1)]
  {
    OneEdgeInDegrees();
    var m := map["a" := 0, "b" := 1];
    OneEdgeThreshold(m);
    OneEdgeHubList(m);
  }

  lemma OneEdgeInDegrees()
    ensures InDegreeMap({"a", "b"}, [("a", "b")]) == map["a" := 0, "b" := 1]
  {
    var edges := [("a", "b")];
    assert Targets(edges) == {"b"};
    var d := InDegreeMap({"a", "b"}, edges);
    assert d.Keys == {"a", "b"};
    assert d["a"] == Degree(edges, "a", Dst) == 0;
    assert d["b"] == Degree(edges, "b", Dst) == 1;
  }

  lemma OneEdgeThreshold(m: map<string, nat>)
    requires m == map["a" := 0, "b" := 1]
    ensures Threshold(m, HubPercentile) == 1
  {
    assert ThresholdIndex(2, HubPercentile) == 1;
    var t := Threshold(m, HubPercentile);
    var k :| k in m && m[k] == t;
    assert k == "a" || k == "b";
    OneEdgeNoHubAtZero(m);
    assert t != 0;
  }

  /** Only `a` has in-degree at most 0, too few for the 90th percentile of two nodes. */
  lemma OneEdgeNoHubAtZero(m: map<string, nat>)
    requires m == map["a" := 0, "b" := 1]
    ensures |set k | k in m && m[k] <= 0| == 1
  {
    var atMost := set k | k in m && m[k] <= 0;
    assert atMost == {"a"} by {
      assert "a" in atMost;
      assert forall k :: k in atMost ==> k == "a";
    }
  }

  lemma OneEdgeHubList(m: map<string, nat>)
    requires m == map["a" := 0, "b" := 1]
    requires Threshold(m, HubPercentile) == 1
    ensures IdentifyHubNodes(m, HubPercentile) == [("b", 1)]
  {
    var hubs := set k | k in m && IsHub(m, 1, k);
    assert hubs == {"b"} by {
      assert "b" in hubs;
      assert hubs <= {"b"};
    }
    var r := IdentifyHubNodes(m, HubPercentile);
    assert |r| == 1;
    assert r[0].0 in m && IsHub(m, 1, r[0].0);
  }

  /** Both nodes of `a -> b` have degree 1. */
  lemma OneEdgeDegrees()
    ensures var all := AllDegrees({"a", "b"}, [("a", "b")]);
      |all| == 2 && Sum(all) == 2 && forall i :: 0 <= i < |all| ==> all[i] == 1
  {
    var nodes, edges := {"a", "b"}, [("a", "b")];
    DegreeTotal(nodes, edges);
    var inDeg, outDeg := InDegreeMap(nodes, edges), OutDegreeMap(nodes, edges);
    OneEdgeInDegrees();
    OneEdgeOutDegrees();
    var ks := Elements(nodes);
    assert |ks| == 2;
    var all := AllDegrees(nodes, edges);
    assert all == TotalDegrees(ks, inDeg, outDeg);
    forall i | 0 <= i < |all| ensures all[i] == 1 {
      assert ks[i] in nodes;
    }
  }

  lemma OneEdgeOutDegrees()
    ensures OutDegreeMap({"a", "b"}, [("a", "b")]) == map["a" := 1, "b" := 0]
  {
    var edges := [("a", "b")];
    assert Sources(edges) == {"a"};
    var d := OutDegreeMap({"a", "b"}, edges);
    assert d.Keys == {"a", "b"};
    assert d["a"] == Degree(edges, "a", Src) == 1;
    assert d["b"] == Degree(edges, "b", Src) == 0;
  }
}
