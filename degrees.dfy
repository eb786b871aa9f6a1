/**
 * `build_adjacency`: the in-degree and out-degree maps of a graph. Each edge
 * adds one to the out-degree of its source and one to the in-degree of its
 * destination; then every node gets an entry (0 when nothing was counted).
 * As in the source, a map's keys are the nodes plus every name counted
 * through an edge, so they are exactly the nodes when the edges stay inside
 * the node set, as `parse_dot` guarantees.
 */
module Degrees {
  import opened DotParse
  import opened Enumeration

  /** Which end of an edge is counted: out-degree counts sources, in-degree destinations. */
  datatype Side = Src | Dst

  function End(e: Edge, side: Side): string
  {
    if side == Src then e.0 else e.1
  }

  function Ends(edges: seq<Edge>, side: Side): set<string>
  {
    if side == Src then Sources(edges) else Targets(edges)
  }

  /** How many edges have `v` at their `side` end. */
  function Degree(edges: seq<Edge>, v: string, side: Side): nat
  {
    if edges == [] then 0
    else
      Degree(edges[..|edges| - 1], v, side) + (if End(edges[|edges| - 1], side) == v then 1 else 0)
  }

  function InDeg(edges: seq<Edge>, v: string): nat
  {
    Degree(edges, v, Dst)
  }

  function OutDeg(edges: seq<Edge>, v: string): nat
  {
    Degree(edges, v, Src)
  }

  /** The map `build_adjacency` returns for one side. */
  function DegreeMap(nodes: set<string>, edges: seq<Edge>, side: Side): map<string, nat>
  {
    map v | v in nodes + Ends(edges, side) :: Degree(edges, v, side)
  }

  function InDegreeMap(nodes: set<string>, edges: seq<Edge>): map<string, nat>
  {
    DegreeMap(nodes, edges, Dst)
  }

  function OutDegreeMap(nodes: set<string>, edges: seq<Edge>): map<string, nat>
  {
    DegreeMap(nodes, edges, Src)
  }

  /** `build_adjacency`: count along the edges, then `setdefault` every node. */
  method BuildAdjacency(nodes: set<string>, edges: seq<Edge>)
    returns (inDegree: map<string, nat>, outDegree: map<string, nat>)
    ensures inDegree == InDegreeMap(nodes, edges)
    ensures outDegree == OutDegreeMap(nodes, edges)
  {
    inDegree, outDegree := map[], map[];
    for i := 0 to |edges|
      invariant inDegree == DegreeMap({}, edges[..i], Dst)
      invariant outDegree == DegreeMap({}, edges[..i], Src)
    {
      CountStep(edges, i, Dst);
      CountStep(edges, i, Src);
      outDegree := Increment(outDegree, edges[i].0);
      inDegree := Increment(inDegree, edges[i].1);
    }
    assert edges[..|edges|] == edges;
    var rest := nodes;
    assert nodes - rest == {};
    while rest != {}
      invariant rest <= nodes
      invariant inDegree == DegreeMap(nodes - rest, edges, Dst)
      invariant outDegree == DegreeMap(nodes - rest, edges, Src)
      decreases rest
    {
      var v :| v in rest;
      assert nodes - (rest - {v}) == (nodes - rest) + {v};
      SetDefaultStep(nodes - rest, edges, v, Dst);
      SetDefaultStep(nodes - rest, edges, v, Src);
      inDegree := SetDefault(inDegree, v);
      outDegree := SetDefault(outDegree, v);
      rest := rest - {v};
    }
    assert nodes - rest == nodes;
  }

  /** `d[v] += 1` on a `defaultdict(int)`: a missing key counts from 0. */
  function Increment(d: map<string, nat>, v: string): (r: map<string, nat>)
    ensures r.Keys == d.Keys + {v}
    ensures r[v] == (if v in d then d[v] else 0) + 1
    ensures forall k :: k in d && k != v ==> r[k] == d[k]
  {
    d[v := (if v in d then d[v] else 0) + 1]
  }

  /** `d.setdefault(v, 0)`: an existing entry is kept. */
  function SetDefault(d: map<string, nat>, v: string): (r: map<string, nat>)
    ensures r.Keys == d.Keys + {v}
    ensures r[v] == if v in d then d[v] else 0
    ensures forall k :: k in d ==> r[k] == d[k]
  {
    if v in d then d else d[v := 0]
  }

  /** One more edge: the counted map gains one at that edge's end. */
  lemma CountStep(edges: seq<Edge>, i: nat, side: Side)
    requires i < |edges|
    ensures DegreeMap({}, edges[..i + 1], side) == Increment(DegreeMap({}, edges[..i], side), End(edges[i], side))
  {
    assert edges[..i + 1] == edges[..i] + [edges[i]];
    AppendStep(edges[..i], edges[i], side);
  }

  lemma AppendStep(pre: seq<Edge>, e: Edge, side: Side)
    ensures DegreeMap({}, pre + [e], side) == Increment(DegreeMap({}, pre, side), End(e, side))
  {
    var post := pre + [e];
    var v := End(e, side);
    var m, m' := DegreeMap({}, pre, side), DegreeMap({}, post, side);
    assert post[..|post| - 1] == pre;
    assert Ends(post, side) == Ends(pre, side) + {v};
    assert m'.Keys == m.Keys + {v};
    DegreeOutsideEnds(pre, v, side);
    forall k | k in m' ensures m'[k] == Increment(m, v)[k] {
      assert m'[k] == Degree(pre, k, side) + (if v == k then 1 else 0);
    }
  }

  /** `setdefault(v, 0)`: one more node gets an entry, 0 if it had none. */
  lemma SetDefaultStep(done: set<string>, edges: seq<Edge>, v: string, side: Side)
    ensures DegreeMap(done + {v}, edges, side) == SetDefault(DegreeMap(done, edges, side), v)
  {
    DegreeOutsideEnds(edges, v, side);
  }

  /* ---------- properties ---------- */

  /** A name has a positive degree exactly when an edge has it at that end. */
  lemma {:induction false} DegreeOutsideEnds(edges: seq<Edge>, v: string, side: Side)
    ensures Degree(edges, v, side) > 0 <==> v in Ends(edges, side)
    decreases |edges|
  {
    if edges != [] {
      var init := edges[..|edges| - 1];
      DegreeOutsideEnds(init, v, side);
      assert edges == init + [edges[|edges| - 1]];
      assert Ends(edges, side) == Ends(init, side) + {End(edges[|edges| - 1], side)};
    }
  }

  /**
   * Both maps are defined on every node, with 0 for a node no edge touches
   * at that end; when the edges stay inside the node set the keys are
   * exactly the nodes.
   */
  lemma DegreeMapDomain(nodes: set<string>, edges: seq<Edge>, side: Side)
    ensures nodes <= DegreeMap(nodes, edges, side).Keys
    ensures forall v :: v in nodes && v !in Ends(edges, side) ==> DegreeMap(nodes, edges, side)[v] == 0
    ensures Endpoints(edges) <= nodes ==> DegreeMap(nodes, edges, side).Keys == nodes
  {
    forall v | v in nodes && v !in Ends(edges, side)
      ensures DegreeMap(nodes, edges, side)[v] == 0
    {
      DegreeOutsideEnds(edges, v, side);
    }
  }

  /** Sum of `Degree(edges, k, side)` over the names `ks`. */
  function SumDegrees(ks: seq<string>, edges: seq<Edge>, side: Side): nat
  {
    if ks == [] then 0 else Degree(edges, ks[0], side) + SumDegrees(ks[1..], edges, side)
  }

  /** One more edge adds one for every occurrence of its end among `ks`. */
  lemma {:induction false} SumDegreesStep(ks: seq<string>, edges: seq<Edge>, side: Side)
    requires edges != []
    ensures SumDegrees(ks, edges, side)
         == SumDegrees(ks, edges[..|edges| - 1], side) + Occurrences(ks, End(edges[|edges| - 1], side))
    decreases |ks|
  {
    if ks != [] {
      SumDegreesStep(ks[1..], edges, side);
    }
  }

  /** Summed over distinct names that include every counted end, the degrees add up to the number of edges. */
  lemma {:induction false} SumDegreesIsEdgeCount(ks: seq<string>, edges: seq<Edge>, side: Side)
    requires Distinct(ks)
    requires forall v :: v in Ends(edges, side) ==> v in ks
    ensures SumDegrees(ks, edges, side) == |edges|
    decreases |edges|
  {
    if edges == [] {
      SumOfZeros(ks, edges, side);
    } else {
      var init := edges[..|edges| - 1];
      assert edges == init + [edges[|edges| - 1]];
      assert Ends(edges, side) == Ends(init, side) + {End(edges[|edges| - 1], side)};
      SumDegreesIsEdgeCount(ks, init, side);
      SumDegreesStep(ks, edges, side);
      OccurrencesOfDistinct(ks, End(edges[|edges| - 1], side));
    }
  }

  lemma {:induction false} SumOfZeros(ks: seq<string>, edges: seq<Edge>, side: Side)
    requires edges == []
    ensures SumDegrees(ks, edges, side) == 0
    decreases |ks|
  {
    if ks != [] {
      SumOfZeros(ks[1..], edges, side);
    }
  }

  /** Sum of a map's values over the keys `ks`. */
  function SumOver(ks: seq<string>, m: map<string, nat>): nat
    requires forall k :: k in ks ==> k in m
  {
    if ks == [] then 0 else m[ks[0]] + SumOver(ks[1..], m)
  }

  /** `sum(m.values())` */
  ghost function SumValues(m: map<string, nat>): nat
  {
    SumOver(Elements(m.Keys), m)
  }

  lemma {:induction false} SumOverDegreeMap(ks: seq<string>, nodes: set<string>, edges: seq<Edge>, side: Side)
    requires forall k :: k in ks ==> k in DegreeMap(nodes, edges, side)
    ensures SumOver(ks, DegreeMap(nodes, edges, side)) == SumDegrees(ks, edges, side)
    decreases |ks|
  {
    if ks != [] {
      SumOverDegreeMap(ks[1..], nodes, edges, side);
    }
  }

  /** `sum(out_degree.values()) == sum(in_degree.values()) == len(edges)`, for any node set. */
  lemma DegreeSums(nodes: set<string>, edges: seq<Edge>)
    ensures SumValues(OutDegreeMap(nodes, edges)) == |edges|
    ensures SumValues(InDegreeMap(nodes, edges)) == |edges|
  {
    forall side: Side ensures SumValues(DegreeMap(nodes, edges, side)) == |edges| {
      var ks := Elements(DegreeMap(nodes, edges, side).Keys);
      SumOverDegreeMap(ks, nodes, edges, side);
      SumDegreesIsEdgeCount(ks, edges, side);
    }
  }
}
