/**
 * `generate_simplified_graph`: the graph seen by node category. Nodes are
 * grouped by `classify_node_type`; each group is reported by its size and
 * by its five alphabetically smallest names; edges are counted per pair of
 * categories (a "flow") and the flows are listed by count, largest first.
 * The `max_nodes` argument is never read, so it does not appear here.
 */
module Simplifier {
  import opened Strings
  import opened Sorting
  import opened Enumeration
  import opened DotParse
  import opened NodeClassifier

  /** `(src_type, dst_type)` */
  type Flow = (Category, Category)

  /** The names reported per category. */
  const SampleSize: nat := 5

  datatype SimplifiedGraph = SimplifiedGraph(
    nodeTypeCounts: map<Category, nat>,
    interTypeFlows: seq<(Flow, nat)>,
    sampleNodes: map<Category, seq<string>>)

  /* ---------- specification ---------- */

  /** The nodes of category `c`. */
  function Group(nodes: set<string>, c: Category): set<string>
  {
    set n | n in nodes && ClassifyNode(n) == c
  }

  /** The flow an edge belongs to. */
  function FlowOf(e: Edge): Flow
  {
    (ClassifyNode(e.0), ClassifyNode(e.1))
  }

  /** How many edges belong to flow `k`. */
  function FlowCount(edges: seq<Edge>, k: Flow): nat
  {
    if edges == [] then 0
    else FlowCount(edges[..|edges| - 1], k) + (if FlowOf(edges[|edges| - 1]) == k then 1 else 0)
  }

  /* ---------- the two loops ---------- */

  /** `type_groups[ntype].append(node)` on a `defaultdict(list)`. */
  function Append(groups: map<Category, seq<string>>, c: Category, v: string): (r: map<Category, seq<string>>)
    ensures r.Keys == groups.Keys + {c}
    ensures r[c] == (if c in groups then groups[c] else []) + [v]
    ensures forall d :: d in groups && d != c ==> r[d] == groups[d]
  {
    groups[c := (if c in groups then groups[c] else []) + [v]]
  }

  /** The first loop: every node is appended to the list of its category. */
  method GroupByType(nodes: set<string>) returns (groups: map<Category, seq<string>>)
    ensures forall c :: c in groups <==> Group(nodes, c) != {}
    ensures forall c :: c in groups ==> Distinct(groups[c])
    ensures forall c, x :: c in groups ==> (x in groups[c] <==> x in Group(nodes, c))
  {
    groups := map[];
    var rest := nodes;
    while rest != {}
      invariant rest <= nodes
      invariant forall c :: c in groups <==> Group(nodes - rest, c) != {}
      invariant forall c :: c in groups ==> Distinct(groups[c])
      invariant forall c, x :: c in groups ==> (x in groups[c] <==> x in Group(nodes - rest, c))
      decreases rest
    {
      var v :| v in rest;
      var c := ClassifyNode(v);
      ghost var done := nodes - rest;
      assert v !in done;
      if c in groups {
        DistinctAppend(groups[c], v);
      }
      groups := Append(groups, c, v);
      rest := rest - {v};
      assert nodes - rest == done + {v};
      assert v in Group(nodes - rest, c);
    }
    assert nodes - rest == nodes;
  }

  lemma DistinctAppend(s: seq<string>, v: string)
    requires Distinct(s) && v !in s
    ensures Distinct(s + [v])
  {
  }

  /** `edge_flows[key] += 1` on a `defaultdict(int)`; a new key joins the insertion order. */
  function Bump(flows: map<Flow, nat>, k: Flow): (r: map<Flow, nat>)
    ensures r.Keys == flows.Keys + {k}
    ensures r[k] == (if k in flows then flows[k] else 0) + 1
    ensures forall j :: j in flows && j != k ==> r[j] == flows[j]
  {
    flows[k := (if k in flows then flows[k] else 0) + 1]
  }

  /** The second loop: each edge adds one to its flow; `order` is the dict's insertion order. */
  method CountFlows(edges: seq<Edge>) returns (flows: map<Flow, nat>, order: seq<Flow>)
    ensures forall k :: k in flows <==> FlowCount(edges, k) > 0
    ensures forall k :: k in flows ==> flows[k] == FlowCount(edges, k)
    ensures Distinct(order) && forall k :: k in order <==> k in flows
  {
    flows, order := map[], [];
    for i := 0 to |edges|
      invariant forall k :: k in flows <==> FlowCount(edges[..i], k) > 0
      invariant forall k :: k in flows ==> flows[k] == FlowCount(edges[..i], k)
      invariant Distinct(order) && forall k :: k in order <==> k in flows
    {
      var k := FlowOf(edges[i]);
      FlowCountStep(edges, i);
      if k !in flows {
        order := order + [k];
      }
      flows := Bump(flows, k);
    }
    assert edges[..|edges|] == edges;
  }

  lemma FlowCountStep(edges: seq<Edge>, i: nat)
    requires i < |edges|
    ensures forall k :: FlowCount(edges[..i + 1], k)
                     == FlowCount(edges[..i], k) + (if FlowOf(edges[i]) == k then 1 else 0)
  {
    assert edges[..i + 1][..i] == edges[..i];
  }

  /* ---------- assembling the report ---------- */

  /** `sorted(node_list)[:5]`: the smallest names, in order. */
  function Sample(names: seq<string>): (r: seq<string>)
    ensures SortedStrings(r)
    ensures |r| == if |names| < SampleSize then |names| else SampleSize
    ensures forall x :: x in r ==> x in names
    ensures forall x, y :: x in names && x !in r && y in r ==> Less(y, x)
  {
    var sorted := SortStrings(names);
    var k := if |names| < SampleSize then |names| else SampleSize;
    SameElements(sorted, names);
    SmallestFirst(sorted, k);
    sorted[..k]
  }

  /** In a sorted list, every name past position `k` that is not among the first `k` follows all of them. */
  lemma SmallestFirst(s: seq<string>, k: nat)
    requires SortedStrings(s) && k <= |s|
    ensures SortedStrings(s[..k])
    ensures forall x, y :: x in s && x !in s[..k] && y in s[..k] ==> Less(y, x)
  {
    forall x, y | x in s && x !in s[..k] && y in s[..k] ensures Less(y, x) {
      var j :| 0 <= j < |s| && s[j] == x;
      var i :| 0 <= i < k && s[..k][i] == y;
      assert forall t :: 0 <= t < k ==> s[..k][t] == s[t];
      assert LessEq(s[i], s[j]);
    }
  }

  /** `generate_simplified_graph(nodes, edges)` */
  method GenerateSimplifiedGraph(nodes: set<string>, edges: seq<Edge>) returns (r: SimplifiedGraph)
    ensures forall c :: c in r.nodeTypeCounts <==> Group(nodes, c) != {}
    ensures forall c :: c in r.nodeTypeCounts ==> r.nodeTypeCounts[c] == |Group(nodes, c)|
    ensures CategoryTotal(r.nodeTypeCounts, AllCategories) == |nodes|
    ensures SortedDesc(r.interTypeFlows)
    ensures forall i :: 0 <= i < |r.interTypeFlows| ==>
              r.interTypeFlows[i].1 == FlowCount(edges, r.interTypeFlows[i].0) > 0
    ensures forall i, j :: 0 <= i < j < |r.interTypeFlows| ==> r.interTypeFlows[i].0 != r.interTypeFlows[j].0
    ensures forall e :: e in edges ==> (FlowOf(e), FlowCount(edges, FlowOf(e))) in r.interTypeFlows
    ensures SumCounts(r.interTypeFlows) == |edges|
    ensures r.sampleNodes.Keys == r.nodeTypeCounts.Keys
    ensures forall c :: c in r.sampleNodes ==> SortedStrings(r.sampleNodes[c])
    ensures forall c :: c in r.sampleNodes ==>
              |r.sampleNodes[c]| == if |Group(nodes, c)| < SampleSize then |Group(nodes, c)| else SampleSize
    ensures forall c, x :: c in r.sampleNodes && x in r.sampleNodes[c] ==> x in Group(nodes, c)
    ensures forall c, x, y :: (c in r.sampleNodes && x in Group(nodes, c) && x !in r.sampleNodes[c]
              && y in r.sampleNodes[c]) ==> Less(y, x)
  {
    var groups := GroupByType(nodes);
    var flows, order := CountFlows(edges);
    var items := EntriesOf(order, flows);
    var sorted := SortDesc(items);
    assert Tallied(edges, flows, order);
    FlowsFacts(edges, flows, order, items, sorted);
    r := SimplifiedGraph(NodeTypeCounts(nodes, groups), sorted, SampleNodes(nodes, groups));
  }

  /** What `GroupByType` returns. */
  ghost predicate Grouped(nodes: set<string>, groups: map<Category, seq<string>>)
  {
    (forall c :: c in groups <==> Group(nodes, c) != {})
    && (forall c :: c in groups ==> Distinct(groups[c]))
    && (forall c, x :: c in groups ==> (x in groups[c] <==> x in Group(nodes, c)))
  }

  /** `{k: len(v) for k, v in type_groups.items()}`: the group sizes, adding up to the number of nodes. */
  function NodeTypeCounts(ghost nodes: set<string>, groups: map<Category, seq<string>>): (counts: map<Category, nat>)
    requires Grouped(nodes, groups)
    ensures forall c :: c in counts <==> Group(nodes, c) != {}
    ensures forall c :: c in counts ==> counts[c] == |Group(nodes, c)|
    ensures CategoryTotal(counts, AllCategories) == |nodes|
  {
    GroupSizes(nodes, groups);
    var counts := map c | c in groups :: |groups[c]|;
    GroupTotal(nodes, counts);
    counts
  }

  lemma GroupSizes(nodes: set<string>, groups: map<Category, seq<string>>)
    requires Grouped(nodes, groups)
    ensures forall c :: c in groups ==> |groups[c]| == |Group(nodes, c)|
  {
    forall c | c in groups ensures |groups[c]| == |Group(nodes, c)| {
      DistinctSize(groups[c], Group(nodes, c));
    }
  }

  /** `{ntype: sorted(node_list)[:5] ...}`: per category, its smallest names in order. */
  function SampleNodes(ghost nodes: set<string>, groups: map<Category, seq<string>>): (samples: map<Category, seq<string>>)
    requires Grouped(nodes, groups)
    ensures samples.Keys == groups.Keys
    ensures forall c :: c in samples ==> SortedStrings(samples[c])
    ensures forall c :: c in samples ==>
              |samples[c]| == if |Group(nodes, c)| < SampleSize then |Group(nodes, c)| else SampleSize
    ensures forall c, x :: c in samples && x in samples[c] ==> x in Group(nodes, c)
    ensures forall c, x, y :: (c in samples && x in Group(nodes, c) && x !in samples[c]
              && y in samples[c]) ==> Less(y, x)
  {
    GroupSizes(nodes, groups);
    map c | c in groups :: Sample(groups[c])
  }

  /* ---------- properties ---------- */

  /** A list without repetition that holds exactly the elements of a set is as long as the set. */
  lemma DistinctSize(s: seq<string>, t: set<string>)
    requires Distinct(s) && forall x :: x in s <==> x in t
    ensures |s| == |t|
  {
    CountInDistinct(s, t);
    assert (set x | x in s && x in t) == t;
    CountInAll(s, t);
  }

  lemma {:induction false} CountInAll(s: seq<string>, t: set<string>)
    requires forall x :: x in s ==> x in t
    ensures CountIn(s, t) == |s|
    decreases |s|
  {
    if s != [] {
      CountInAll(s[1..], t);
    }
  }

  /** What `CountFlows` returns. */
  ghost predicate Tallied(edges: seq<Edge>, flows: map<Flow, nat>, order: seq<Flow>)
  {
    (forall k :: k in flows <==> FlowCount(edges, k) > 0)
    && (forall k :: k in flows ==> flows[k] == FlowCount(edges, k))
    && Distinct(order) && (forall k :: k in order <==> k in flows)
  }

  /** The sorted flows: each once, with its count, every flow of an edge among them, the counts adding up to the edges. */
  lemma FlowsFacts(edges: seq<Edge>, flows: map<Flow, nat>, order: seq<Flow>, items: seq<(Flow, nat)>, sorted: seq<(Flow, nat)>)
    requires Tallied(edges, flows, order)
    requires items == EntriesOf(order, flows)
    requires multiset(sorted) == multiset(items)
    ensures forall i :: 0 <= i < |sorted| ==> sorted[i].1 == FlowCount(edges, sorted[i].0) > 0
    ensures forall i, j :: 0 <= i < j < |sorted| ==> sorted[i].0 != sorted[j].0
    ensures forall e :: e in edges ==> (FlowOf(e), FlowCount(edges, FlowOf(e))) in sorted
    ensures SumCounts(sorted) == |edges|
  {
    ItemsKeyed(edges, flows, order, items);
    SameElements(items, sorted);
    KeyedDistinct(edges, items, sorted);
    EveryFlowListed(edges, flows, order, items);
    SortDescSumOf(items, sorted);
    ItemsSum(order, flows, edges);
    FlowTotal(order, edges);
  }

  /** Each item is a flow with its count; no item repeats. */
  lemma ItemsKeyed(edges: seq<Edge>, flows: map<Flow, nat>, order: seq<Flow>, items: seq<(Flow, nat)>)
    requires Tallied(edges, flows, order)
    requires items == EntriesOf(order, flows)
    ensures forall i :: 0 <= i < |items| ==> items[i].1 == FlowCount(edges, items[i].0) > 0
    ensures Distinct(items)
  {
    forall i, j | 0 <= i < j < |items| ensures items[i] != items[j] {
      assert items[i].0 == order[i] && items[j].0 == order[j];
    }
  }

  /** Rearranged, items that are flows with their counts and do not repeat still have distinct flows. */
  lemma KeyedDistinct(edges: seq<Edge>, items: seq<(Flow, nat)>, sorted: seq<(Flow, nat)>)
    requires forall i :: 0 <= i < |items| ==> items[i].1 == FlowCount(edges, items[i].0) > 0
    requires Distinct(items) && multiset(sorted) == multiset(items)
    ensures forall i :: 0 <= i < |sorted| ==> sorted[i].1 == FlowCount(edges, sorted[i].0) > 0
    ensures forall i, j :: 0 <= i < j < |sorted| ==> sorted[i].0 != sorted[j].0
  {
    SameElements(items, sorted);
    DistinctPermutation(items, sorted);
    forall i | 0 <= i < |sorted| ensures sorted[i].1 == FlowCount(edges, sorted[i].0) > 0 {
      assert sorted[i] in items;
    }
  }

  /** The flow of every edge is listed with its count. */
  lemma EveryFlowListed(edges: seq<Edge>, flows: map<Flow, nat>, order: seq<Flow>, items: seq<(Flow, nat)>)
    requires Tallied(edges, flows, order)
    requires items == EntriesOf(order, flows)
    ensures forall e :: e in edges ==> (FlowOf(e), FlowCount(edges, FlowOf(e))) in items
    ensures forall e :: e in edges ==> FlowOf(e) in order
  {
    forall e | e in edges ensures (FlowOf(e), FlowCount(edges, FlowOf(e))) in items && FlowOf(e) in order {
      FlowCountPositive(edges, e);
      var k := FlowOf(e);
      var i :| 0 <= i < |order| && order[i] == k;
      assert items[i] == (k, FlowCount(edges, k));
    }
  }

  lemma SortDescSumOf(items: seq<(Flow, nat)>, sorted: seq<(Flow, nat)>)
    requires multiset(sorted) == multiset(items)
    ensures SumCounts(sorted) == SumCounts(items)
  {
    SortDescSum(items);
    SortDescSum(sorted);
    var a, b := SortDesc(items), SortDesc(sorted);
    assert multiset(a) == multiset(b);
    SortedDescSameSum(a, b);
  }

  /** Two descending orders of the same records add up to the same total. */
  lemma {:induction false} SortedDescSameSum(a: seq<(Flow, nat)>, b: seq<(Flow, nat)>)
    requires multiset(a) == multiset(b)
    ensures SumCounts(a) == SumCounts(b)
    decreases |a|
  {
    assert |a| == |multiset(a)| == |multiset(b)| == |b|;
    if a != [] {
      var x := a[0];
      assert x in multiset(b);
      var i :| 0 <= i < |b| && b[i] == x;
      var b' := b[..i] + b[i + 1..];
      assert b == b[..i] + [x] + b[i + 1..];
      SumCountsRemove(b, i);
      assert a == [x] + a[1..];
      assert multiset(a[1..]) == multiset(a) - multiset{x};
      assert multiset(b') == multiset(b) - multiset{x};
      SortedDescSameSum(a[1..], b');
    }
  }

  lemma {:induction false} SumCountsRemove(b: seq<(Flow, nat)>, i: nat)
    requires i < |b|
    ensures SumCounts(b) == b[i].1 + SumCounts(b[..i] + b[i + 1..])
    decreases i
  {
    if i > 0 {
      SumCountsRemove(b[1..], i - 1);
      assert b[1..][..i - 1] + b[1..][i..] == (b[..i] + b[i + 1..])[1..];
    } else {
      assert b[..i] + b[i + 1..] == b[1..];
    }
  }

  /** The counts of the items are the flow counts of their keys. */
  lemma {:induction false} ItemsSum(order: seq<Flow>, flows: map<Flow, nat>, edges: seq<Edge>)
    requires forall k :: k in order ==> k in flows && flows[k] == FlowCount(edges, k)
    ensures SumCounts(EntriesOf(order, flows)) == SumFlows(order, edges)
    decreases |order|
  {
    if order != [] {
      ItemsSum(order[1..], flows, edges);
      assert EntriesOf(order, flows)[1..] == EntriesOf(order[1..], flows);
    }
  }

  /** Sum of the flow counts of the keys `ks`. */
  function SumFlows(ks: seq<Flow>, edges: seq<Edge>): nat
  {
    if ks == [] then 0 else FlowCount(edges, ks[0]) + SumFlows(ks[1..], edges)
  }

  /** A flow has a positive count exactly when some edge belongs to it. */
  lemma {:induction false} FlowCountPositive(edges: seq<Edge>, e: Edge)
    requires e in edges
    ensures FlowCount(edges, FlowOf(e)) > 0
    decreases |edges|
  {
    var last := edges[|edges| - 1];
    if last != e {
      var init := edges[..|edges| - 1];
      assert edges == init + [last];
      FlowCountPositive(init, e);
    }
  }

  lemma {:induction false} SumFlowsStep(ks: seq<Flow>, edges: seq<Edge>)
    requires edges != []
    ensures SumFlows(ks, edges) == SumFlows(ks, edges[..|edges| - 1]) + Occurrences(ks, FlowOf(edges[|edges| - 1]))
    decreases |ks|
  {
    if ks != [] {
      SumFlowsStep(ks[1..], edges);
    }
  }

  /** Over keys without repetition that include the flow of every edge, the flow counts add up to the number of edges. */
  lemma {:induction false} FlowTotal(ks: seq<Flow>, edges: seq<Edge>)
    requires Distinct(ks)
    requires forall e :: e in edges ==> FlowOf(e) in ks
    ensures SumFlows(ks, edges) == |edges|
    decreases |edges|
  {
    if edges == [] {
      ZeroFlows(ks, edges);
    } else {
      var init := edges[..|edges| - 1];
      assert edges == init + [edges[|edges| - 1]];
      FlowTotal(ks, init);
      SumFlowsStep(ks, edges);
      OccurrencesOfDistinct(ks, FlowOf(edges[|edges| - 1]));
    }
  }

  lemma {:induction false} ZeroFlows(ks: seq<Flow>, edges: seq<Edge>)
    requires edges == []
    ensures SumFlows(ks, edges) == 0
    decreases |ks|
  {
    if ks != [] {
      ZeroFlows(ks[1..], edges);
    }
  }

  /** The count reported for `c`, 0 for a category with no nodes. */
  function CountOf(counts: map<Category, nat>, c: Category): nat
  {
    if c in counts then counts[c] else 0
  }

  /** Sum of the reported counts over the categories `cs`. */
  function CategoryTotal(counts: map<Category, nat>, cs: seq<Category>): nat
  {
    if cs == [] then 0 else CountOf(counts, cs[0]) + CategoryTotal(counts, cs[1..])
  }

  /** Sum of the group sizes over the categories `cs`. */
  function SumGroups(nodes: set<string>, cs: seq<Category>): nat
  {
    if cs == [] then 0 else |Group(nodes, cs[0])| + SumGroups(nodes, cs[1..])
  }

  /** Counts that are the group sizes add up like the group sizes. */
  lemma {:induction false} CountsAreGroups(nodes: set<string>, counts: map<Category, nat>, cs: seq<Category>)
    requires forall c :: c in counts <==> Group(nodes, c) != {}
    requires forall c :: c in counts ==> counts[c] == |Group(nodes, c)|
    ensures CategoryTotal(counts, cs) == SumGroups(nodes, cs)
    decreases |cs|
  {
    if cs != [] {
      CountsAreGroups(nodes, counts, cs[1..]);
    }
  }

  /** Removing one node takes one from the group sizes for each listing of its category. */
  lemma {:induction false} SumGroupsStep(nodes: set<string>, v: string, cs: seq<Category>)
    requires v in nodes
    ensures SumGroups(nodes, cs) == SumGroups(nodes - {v}, cs) + Occurrences(cs, ClassifyNode(v))
    decreases |cs|
  {
    if cs != [] {
      SumGroupsStep(nodes, v, cs[1..]);
      var c := cs[0];
      if ClassifyNode(v) == c {
        assert Group(nodes, c) == Group(nodes - {v}, c) + {v};
      } else {
        assert Group(nodes, c) == Group(nodes - {v}, c);
      }
    }
  }

  lemma {:induction false} SumGroupsEmpty(cs: seq<Category>)
    ensures SumGroups({}, cs) == 0
    decreases |cs|
  {
    if cs != [] {
      assert Group({}, cs[0]) == {};
      SumGroupsEmpty(cs[1..]);
    }
  }

  /** Every category is listed once in `AllCategories`. */
  lemma AllCategoriesOnce(c: Category)
    ensures Occurrences(AllCategories, c) == 1
  {
    var cs := AllCategories;
    assert cs[1..][1..][1..][1..][1..][1..][1..] == [];
  }

  /** The groups partition the nodes: their sizes add up to the number of nodes. */
  lemma {:induction false} GroupsPartition(nodes: set<string>)
    ensures SumGroups(nodes, AllCategories) == |nodes|
    decreases nodes
  {
    if nodes == {} {
      SumGroupsEmpty(AllCategories);
    } else {
      var v :| v in nodes;
      SumGroupsStep(nodes, v, AllCategories);
      AllCategoriesOnce(ClassifyNode(v));
      GroupsPartition(nodes - {v});
    }
  }

  lemma GroupTotal(nodes: set<string>, counts: map<Category, nat>)
    requires forall c :: c in counts <==> Group(nodes, c) != {}
    requires forall c :: c in counts ==> counts[c] == |Group(nodes, c)|
    ensures CategoryTotal(counts, AllCategories) == |nodes|
  {
    CountsAreGroups(nodes, counts, AllCategories);
    GroupsPartition(nodes);
  }
}
