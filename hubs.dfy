/**
 * `identify_hub_nodes` and the top-depended ranking of
 * `compute_graph_metrics`, over an in-degree map.
 *
 * The threshold is the value at position `min(int(n * p), n - 1)` of the
 * ascending list of in-degrees; a hub has in-degree at least the threshold
 * and above zero. The percentile `p` is an exact ratio `num / den`, so
 * `int(n * p)` is `n * num / den`. Which of several equal in-degrees is
 * listed first depends on dict iteration order and is left open.
 */
module Hubs {
  import opened Enumeration
  import opened Sorting

  /** A node with its in-degree: `{"node": ..., "in_degree": ...}`. */
  type Ranked = (string, nat)

  /** A percentile `num / den`. */
  datatype Percentile = Percentile(num: nat, den: nat)

  /** The default of `identify_hub_nodes` (0.80). */
  const DefaultPercentile: Percentile := Percentile(80, 100)

  /** The percentile `compute_graph_metrics` passes (0.90). */
  const HubPercentile: Percentile := Percentile(90, 100)

  /** How many entries `hub_nodes` and `top_depended_nodes` keep. */
  const TopCount: nat := 10

  function Min(a: nat, b: nat): nat
  {
    if a <= b then a else b
  }

  /* ---------- dict views in iteration order ---------- */

  /** `[m[k] for k in ks]` */
  function ValuesOf(ks: seq<string>, m: map<string, nat>): (r: seq<nat>)
    requires forall k :: k in ks ==> k in m
    ensures |r| == |ks|
    ensures forall i :: 0 <= i < |r| ==> r[i] == m[ks[i]]
  {
    if ks == [] then [] else [m[ks[0]]] + ValuesOf(ks[1..], m)
  }

  /** `[(k, m[k]) for k in ks if m[k] >= t and m[k] > 0]` */
  function HubEntries(ks: seq<string>, m: map<string, nat>, t: nat): (r: seq<Ranked>)
    requires forall k :: k in ks ==> k in m
    ensures forall x :: x in r ==> x.0 in ks && x.1 == m[x.0] && x.1 >= t && x.1 > 0
    ensures forall k :: k in ks && m[k] >= t && m[k] > 0 ==> (k, m[k]) in r
  {
    if ks == [] then []
    else
      var rest := HubEntries(ks[1..], m, t);
      assert forall k :: k in ks[1..] ==> k in ks;
      (if m[ks[0]] >= t && m[ks[0]] > 0 then [(ks[0], m[ks[0]])] else []) + rest
  }

  ghost function Items(m: map<string, nat>): seq<Ranked>
  {
    EntriesOf(Elements(m.Keys), m)
  }

  ghost function Values(m: map<string, nat>): seq<nat>
  {
    ValuesOf(Elements(m.Keys), m)
  }

  /* ---------- threshold ---------- */

  /** `min(int(n * p), n - 1)` */
  function ThresholdIndex(n: nat, p: Percentile): (r: nat)
    requires n > 0 && p.den > 0
    ensures r < n
  {
    Min(n * p.num / p.den, n - 1)
  }

  /** How many of the values are below `t`. */
  function CountBelow(s: seq<nat>, t: nat): nat
  {
    if s == [] then 0 else (if s[0] < t then 1 else 0) + CountBelow(s[1..], t)
  }

  /**
   * `degrees[min(int(n * p), n - 1)]` with `degrees` the ascending
   * in-degrees. As an order statistic: at most `idx` nodes lie below the
   * threshold and more than `idx` lie at or below it.
   */
  ghost function Threshold(m: map<string, nat>, p: Percentile): (t: nat)
    requires |m| > 0 && p.den > 0
    ensures t in m.Values
    ensures |set k | k in m && m[k] < t| <= ThresholdIndex(|m|, p)
    ensures |set k | k in m && m[k] <= t| > ThresholdIndex(|m|, p)
  {
    var degrees := SortAsc(Values(m));
    var idx := ThresholdIndex(|m|, p);
    var t := degrees[idx];
    ThresholdIsOrderStatistic(m, degrees, idx, t);
    t
  }

  lemma ThresholdIsOrderStatistic(m: map<string, nat>, degrees: seq<nat>, idx: nat, t: nat)
    requires degrees == SortAsc(Values(m)) && idx < |degrees| && t == degrees[idx]
    ensures t in m.Values
    ensures |set k | k in m && m[k] < t| <= idx
    ensures |set k | k in m && m[k] <= t| > idx
  {
    SortedValueIsValue(m, degrees, idx);
    CountBelowSorted(degrees, idx, t);
    KeysBelow(m, degrees, t);
    KeysAtMost(m, degrees, t);
  }

  /** Every entry of the ascending in-degree list is some node's in-degree. */
  lemma SortedValueIsValue(m: map<string, nat>, degrees: seq<nat>, idx: nat)
    requires degrees == SortAsc(Values(m)) && idx < |degrees|
    ensures degrees[idx] in m.Values
  {
    var ks := Elements(m.Keys);
    var vals := Values(m);
    var d := degrees[idx];
    assert d in multiset(degrees);
    assert multiset(degrees) == multiset(vals);
    assert d in vals;
    var j :| 0 <= j < |vals| && vals[j] == d;
    assert ks[j] in ks;
    assert ks[j] in m && m[ks[j]] == d;
  }

  lemma KeysAtMost(m: map<string, nat>, degrees: seq<nat>, t: nat)
    requires degrees == SortAsc(Values(m))
    ensures CountBelow(degrees, t + 1) == |set k | k in m && m[k] <= t|
  {
    KeysBelow(m, degrees, t + 1);
    assert (set k | k in m && m[k] < t + 1) == (set k | k in m && m[k] <= t);
  }

  /** Counting below `t` in the ascending list counts the nodes with in-degree below `t`. */
  lemma KeysBelow(m: map<string, nat>, degrees: seq<nat>, t: nat)
    requires degrees == SortAsc(Values(m))
    ensures CountBelow(degrees, t) == |set k | k in m && m[k] < t|
  {
    CountBelowSortAsc(Values(m), t);
    CountBelowKeys(Elements(m.Keys), m, t);
    CountInElements(m.Keys, set k | k in m && m[k] < t);
  }

  lemma {:induction false} CountBelowAppend(a: seq<nat>, b: seq<nat>, t: nat)
    ensures CountBelow(a + b, t) == CountBelow(a, t) + CountBelow(b, t)
    decreases |a|
  {
    if a != [] {
      assert (a + b)[1..] == a[1..] + b;
      CountBelowAppend(a[1..], b, t);
    } else {
      assert a + b == b;
    }
  }

  /** Inserting a value adds one to the count exactly when it is below `t`. */
  lemma {:induction false} CountBelowInsert(x: nat, r: seq<nat>, t: nat)
    requires SortedAsc(r)
    ensures CountBelow(InsertAsc(x, r), t) == (if x < t then 1 else 0) + CountBelow(r, t)
    decreases |r|
  {
    if r != [] && x > r[0] {
      SortedAscTail(r);
      var rest := InsertAsc(x, r[1..]);
      assert InsertAsc(x, r) == [r[0]] + rest;
      assert ([r[0]] + rest)[1..] == rest;
      CountBelowInsert(x, r[1..], t);
    } else {
      assert InsertAsc(x, r) == [x] + r;
      assert ([x] + r)[1..] == r;
    }
  }

  lemma SortedAscTail(r: seq<nat>)
    requires SortedAsc(r) && r != []
    ensures SortedAsc(r[1..])
  {
    forall i, j | 0 <= i < j < |r| - 1 ensures r[1..][i] <= r[1..][j] {
      assert r[1..][i] == r[i + 1] && r[1..][j] == r[j + 1];
    }
  }

  /** Sorting does not change how many values lie below `t`. */
  lemma {:induction false} CountBelowSortAsc(s: seq<nat>, t: nat)
    ensures CountBelow(SortAsc(s), t) == CountBelow(s, t)
    decreases |s|
  {
    if s != [] {
      CountBelowSortAsc(s[1..], t);
      CountBelowInsert(s[0], SortAsc(s[1..]), t);
    }
  }

  /** Counting values below `t` counts the keys whose value is below `t`. */
  lemma {:induction false} CountBelowKeys(ks: seq<string>, m: map<string, nat>, t: nat)
    requires forall k :: k in ks ==> k in m
    ensures CountBelow(ValuesOf(ks, m), t) == CountIn(ks, set k | k in m && m[k] < t)
    decreases |ks|
  {
    if ks != [] {
      assert ks == [ks[0]] + ks[1..];
      CountBelowKeys(ks[1..], m, t);
      assert ValuesOf(ks, m)[1..] == ValuesOf(ks[1..], m);
    }
  }

  /** In an ascending list, the values below position `idx`'s value all sit before `idx`, and the first `idx + 1` are at most it. */
  lemma CountBelowSorted(d: seq<nat>, idx: nat, t: nat)
    requires SortedAsc(d) && idx < |d| && t == d[idx]
    ensures CountBelow(d, t) <= idx
    ensures CountBelow(d, t + 1) > idx
  {
    assert d == d[..idx] + d[idx..];
    CountBelowAppend(d[..idx], d[idx..], t);
    CountBelowAtMostLength(d[..idx], t);
    CountBelowNoneBelow(d[idx..], t);
    assert d == d[..idx + 1] + d[idx + 1..];
    CountBelowAppend(d[..idx + 1], d[idx + 1..], t + 1);
    CountBelowAllBelow(d[..idx + 1], t + 1);
  }

  lemma {:induction false} CountBelowAtMostLength(s: seq<nat>, t: nat)
    ensures CountBelow(s, t) <= |s|
    decreases |s|
  {
    if s != [] { CountBelowAtMostLength(s[1..], t); }
  }

  lemma {:induction false} CountBelowNoneBelow(s: seq<nat>, t: nat)
    requires forall i :: 0 <= i < |s| ==> s[i] >= t
    ensures CountBelow(s, t) == 0
    decreases |s|
  {
    if s != [] { CountBelowNoneBelow(s[1..], t); }
  }

  lemma {:induction false} CountBelowAllBelow(s: seq<nat>, t: nat)
    requires forall i :: 0 <= i < |s| ==> s[i] < t
    ensures CountBelow(s, t) == |s|
    decreases |s|
  {
    if s != [] { CountBelowAllBelow(s[1..], t); }
  }

  /* ---------- hubs ---------- */

  /** A node `identify_hub_nodes` reports for threshold `t`. */
  predicate IsHub(m: map<string, nat>, t: nat, k: string)
    requires k in m
  {
    m[k] >= t && m[k] > 0
  }

  /** The nodes whose in-degree reaches `t` and is positive, each once, by in-degree descending. */
  ghost function HubsAbove(m: map<string, nat>, t: nat): (r: seq<Ranked>)
    ensures forall i :: 0 <= i < |r| ==> r[i].0 in m && r[i].1 == m[r[i].0] && IsHub(m, t, r[i].0)
    ensures forall k :: k in m && IsHub(m, t, k) ==> (k, m[k]) in r
    ensures |r| == |set k | k in m && IsHub(m, t, k)|
    ensures SortedDesc(r)
  {
    var hubs := HubEntries(Elements(m.Keys), m, t);
    HubCount(m, t);
    HubsComplete(m, t, hubs);
    SortedHubs(hubs);
    SortDesc(hubs)
  }

  lemma HubCount(m: map<string, nat>, t: nat)
    ensures |HubEntries(Elements(m.Keys), m, t)| == |set k | k in m && IsHub(m, t, k)|
  {
    HubEntriesCount(Elements(m.Keys), m, t);
    CountInElements(m.Keys, set k | k in m && IsHub(m, t, k));
  }

  /** Sorting the hub entries keeps each entry, so each still pairs a node with its in-degree. */
  lemma SortedHubs(hubs: seq<Ranked>)
    ensures forall i :: 0 <= i < |SortDesc(hubs)| ==> SortDesc(hubs)[i] in hubs
    ensures forall x :: x in hubs ==> x in SortDesc(hubs)
  {
    var sorted := SortDesc(hubs);
    assert multiset(sorted) == multiset(hubs);
    SameElements(hubs, sorted);
    forall i | 0 <= i < |sorted| ensures sorted[i] in hubs {
      var x := sorted[i];
      assert x in multiset(sorted);
      assert x in multiset(hubs);
    }
  }

  lemma HubsComplete(m: map<string, nat>, t: nat, hubs: seq<Ranked>)
    requires hubs == HubEntries(Elements(m.Keys), m, t)
    ensures forall k :: k in m && IsHub(m, t, k) ==> (k, m[k]) in hubs
  {
    var ks := Elements(m.Keys);
    forall k | k in m && IsHub(m, t, k) ensures (k, m[k]) in hubs {
      assert k in ks;
    }
  }

  /**
   * `identify_hub_nodes(in_degree, p)`: every node whose in-degree reaches
   * the threshold and is positive, each once, by in-degree descending; an
   * empty map gives no hubs.
   */
  ghost function IdentifyHubNodes(m: map<string, nat>, p: Percentile): (r: seq<Ranked>)
    requires p.den > 0
    ensures |m| == 0 ==> r == []
    ensures |m| > 0 ==> forall i :: 0 <= i < |r| ==>
              r[i].0 in m && r[i].1 == m[r[i].0] && IsHub(m, Threshold(m, p), r[i].0)
    ensures |m| > 0 ==> forall k :: k in m && IsHub(m, Threshold(m, p), k) ==> (k, m[k]) in r
    ensures |m| > 0 ==> |r| == |set k | k in m && IsHub(m, Threshold(m, p), k)|
    ensures SortedDesc(r)
  {
    if |m| == 0 then [] else HubsAbove(m, Threshold(m, p))
  }

  lemma {:induction false} HubEntriesCount(ks: seq<string>, m: map<string, nat>, t: nat)
    requires forall k :: k in ks ==> k in m
    ensures |HubEntries(ks, m, t)| == CountIn(ks, set k | k in m && IsHub(m, t, k))
    decreases |ks|
  {
    if ks != [] {
      assert ks == [ks[0]] + ks[1..];
      HubEntriesCount(ks[1..], m, t);
    }
  }

  /** Some node has an in-degree at least the threshold. */
  lemma ReachesThreshold(m: map<string, nat>, p: Percentile, t: nat) returns (k: string)
    requires |m| > 0 && p.den > 0 && t == Threshold(m, p)
    ensures k in m && m[k] >= t
  {
    var below := set k | k in m && m[k] < t;
    assert below <= m.Keys;
    assert m.Keys == (m.Keys - below) + below;
    assert |m.Keys - below| > 0;
    var k' :| k' in m.Keys - below;
    k := k';
  }

  /** There is a hub exactly when some node has positive in-degree; an all-zero map has none. */
  lemma HubsExistIffPositive(m: map<string, nat>, p: Percentile)
    requires p.den > 0
    ensures |IdentifyHubNodes(m, p)| > 0 <==> exists k :: k in m && m[k] > 0
  {
    if |m| > 0 {
      var t := Threshold(m, p);
      var r := HubsAbove(m, t);
      if k :| k in m && m[k] > 0 {
        var top := ReachesThreshold(m, p, t);
        if t == 0 {
          assert IsHub(m, t, k);
          assert (k, m[k]) in r;
        } else {
          assert IsHub(m, t, top);
          assert (top, m[top]) in r;
        }
      }
      if |r| > 0 {
        assert r[0].0 in m && m[r[0].0] > 0;
      }
    }
  }

  /* ---------- top depended ---------- */

  /** `[(k, d) for k, d in entries if d > 0]` */
  function Positive(entries: seq<Ranked>): (r: seq<Ranked>)
    ensures forall i :: 0 <= i < |r| ==> r[i] in entries && r[i].1 > 0
    ensures forall x :: x in entries && x.1 > 0 ==> x in r
  {
    if entries == [] then []
    else if entries[0].1 > 0 then [entries[0]] + Positive(entries[1..])
    else Positive(entries[1..])
  }

  lemma {:induction false} PositiveKeepsOrder(s: seq<Ranked>)
    requires SortedDesc(s)
    ensures SortedDesc(Positive(s))
    decreases |s|
  {
    if s != [] {
      PositiveKeepsOrder(s[1..]);
      if s[0].1 > 0 {
        PositiveBounded(s[1..], s[0].1);
        ConsDesc(s[0], Positive(s[1..]));
      }
    }
  }

  /** Filtering keeps an upper bound on the counts. */
  lemma {:induction false} PositiveBounded(s: seq<Ranked>, b: nat)
    requires forall i :: 0 <= i < |s| ==> s[i].1 <= b
    ensures forall i :: 0 <= i < |Positive(s)| ==> Positive(s)[i].1 <= b
    decreases |s|
  {
    if s != [] {
      PositiveBounded(s[1..], b);
    }
  }

  lemma ConsDesc(h: Ranked, t: seq<Ranked>)
    requires SortedDesc(t) && forall i :: 0 <= i < |t| ==> t[i].1 <= h.1
    ensures SortedDesc([h] + t)
  {
    var r := [h] + t;
    forall i, j | 0 <= i < j < |r| ensures r[i].1 >= r[j].1 {
      assert r[j] == t[j - 1];
      if i > 0 {
        assert r[i] == t[i - 1];
      }
    }
  }

  lemma {:induction false} PositiveLength(s: seq<Ranked>)
    ensures |Positive(s)| <= |s|
    ensures |Positive(s)| == |s| <==> forall i :: 0 <= i < |s| ==> s[i].1 > 0
    decreases |s|
  {
    if s != [] {
      var t := s[1..];
      PositiveLength(t);
      forall i | 0 <= i < |t| ensures t[i] == s[i + 1] {
      }
      if s[0].1 > 0 {
        assert Positive(s) == [s[0]] + Positive(t);
        if forall i :: 0 <= i < |t| ==> t[i].1 > 0 {
          forall i | 0 <= i < |s| ensures s[i].1 > 0 {
            if i > 0 {
              assert s[i] == t[i - 1];
            }
          }
        }
      } else {
        assert Positive(s) == Positive(t);
      }
    }
  }

  /** The first `TopCount` entries of a ranking, zeros dropped. */
  function TopOf(ranked: seq<Ranked>): (r: seq<Ranked>)
    requires SortedDesc(ranked)
    ensures |r| <= TopCount
    ensures forall x :: x in r ==> x in ranked && x.1 > 0
    ensures SortedDesc(r)
    ensures forall x :: x in ranked && x !in r ==> forall i :: 0 <= i < |r| ==> r[i].1 >= x.1
    ensures |r| < TopCount ==> forall x :: x in ranked && x.1 > 0 ==> x in r
  {
    var head := ranked[..Min(TopCount, |ranked|)];
    PositiveLength(head);
    PositiveKeepsOrder(head);
    TopOfLeftOut(ranked, head);
    TopOfShort(ranked, head);
    Positive(head)
  }

  /** An entry cut off ranks no higher than any kept: it lies past the first ten, or it is a zero. */
  lemma TopOfLeftOut(ranked: seq<Ranked>, head: seq<Ranked>)
    requires SortedDesc(ranked) && head == ranked[..Min(TopCount, |ranked|)]
    ensures forall x :: x in ranked && x !in Positive(head) ==>
              forall i :: 0 <= i < |Positive(head)| ==> Positive(head)[i].1 >= x.1
  {
    var r := Positive(head);
    forall x, i | x in ranked && x !in r && 0 <= i < |r| ensures r[i].1 >= x.1 {
      var a :| 0 <= a < |ranked| && ranked[a] == x;
      assert r[i] in head;
      var b :| 0 <= b < |head| && head[b] == r[i];
      assert ranked[b] == head[b];
      if a < |head| {
        assert head[a] == x;
      }
    }
  }

  /** Fewer than ten kept: a zero was among the first ten, so every positive entry came before it. */
  lemma TopOfShort(ranked: seq<Ranked>, head: seq<Ranked>)
    requires SortedDesc(ranked) && head == ranked[..Min(TopCount, |ranked|)]
    ensures |Positive(head)| < TopCount ==> forall x :: x in ranked && x.1 > 0 ==> x in Positive(head)
  {
    PositiveLength(head);
    if |Positive(head)| < TopCount {
      forall x | x in ranked && x.1 > 0 ensures x in Positive(head) {
        var a :| 0 <= a < |ranked| && ranked[a] == x;
        PositiveInHead(ranked, head, a);
      }
    }
  }

  /** The entry at `a`, positive, is among the first ten whenever fewer than ten positives are. */
  lemma PositiveInHead(ranked: seq<Ranked>, head: seq<Ranked>, a: nat)
    requires SortedDesc(ranked) && head == ranked[..Min(TopCount, |ranked|)]
    requires a < |ranked| && ranked[a].1 > 0
    requires |Positive(head)| < TopCount
    ensures ranked[a] in Positive(head)
  {
    if |head| < TopCount {
      assert |head| == |ranked|;
    } else {
      var z := ZeroInHead(head);
      assert ranked[z] == head[z];
      assert a < z;
    }
    assert head[a] == ranked[a];
    assert head[a] in head;
  }

  /** Fewer positives than entries: some entry is a zero. */
  lemma ZeroInHead(head: seq<Ranked>) returns (z: nat)
    requires |Positive(head)| < |head|
    ensures z < |head| && head[z].1 == 0
  {
    PositiveLength(head);
    z :| 0 <= z < |head| && head[z].1 <= 0;
  }

  /** The in-degree entries are exactly the pairs of a node and its in-degree. */
  lemma ItemsMembers(m: map<string, nat>)
    ensures forall x: Ranked :: x in Items(m) <==> x.0 in m && x.1 == m[x.0]
  {
    var ks := Elements(m.Keys);
    forall x: Ranked | x.0 in m && x.1 == m[x.0] ensures x in Items(m) {
      var j :| 0 <= j < |ks| && ks[j] == x.0;
      assert Items(m)[j] == x;
    }
  }

  /**
   * `top_depended_nodes`: the first ten of the in-degree ranking, zeros
   * dropped. At most ten entries, all positive, by in-degree descending; a
   * node left out ranks no higher than any node kept, and when fewer than
   * ten are kept every node with positive in-degree is among them.
   */
  ghost function TopDepended(m: map<string, nat>): (r: seq<Ranked>)
    ensures |r| <= TopCount
    ensures forall i :: 0 <= i < |r| ==> r[i].0 in m && r[i].1 == m[r[i].0] && r[i].1 > 0
    ensures SortedDesc(r)
    ensures forall k :: k in m && (k, m[k]) !in r ==> forall i :: 0 <= i < |r| ==> r[i].1 >= m[k]
    ensures |r| < TopCount ==> forall k :: k in m && m[k] > 0 ==> (k, m[k]) in r
    ensures forall i, j :: 0 <= i < j < |r| ==> r[i].0 != r[j].0
  {
    var ranked := SortDesc(Items(m));
    RankedMembers(m);
    TopOfEntries(m, ranked);
    RankedDistinct(m);
    TopOfDistinct(ranked);
    KeysOfDistinct(m, TopOf(ranked));
    TopOf(ranked)
  }

  /** The ranking lists each node once. */
  lemma RankedDistinct(m: map<string, nat>)
    ensures Distinct(SortDesc(Items(m)))
  {
    var ks := Elements(m.Keys);
    var items := Items(m);
    forall i, j | 0 <= i < j < |items| ensures items[i] != items[j] {
      assert items[i].0 == ks[i] && items[j].0 == ks[j];
    }
    DistinctPermutation(items, SortDesc(items));
  }

  /** Cutting and filtering a ranking without repeats leaves one without repeats. */
  lemma TopOfDistinct(ranked: seq<Ranked>)
    requires SortedDesc(ranked) && Distinct(ranked)
    ensures Distinct(TopOf(ranked))
  {
    var head := ranked[..Min(TopCount, |ranked|)];
    forall i, j | 0 <= i < j < |head| ensures head[i] != head[j] {
      assert head[i] == ranked[i] && head[j] == ranked[j];
    }
    PositiveDistinct(head);
  }

  lemma {:induction false} PositiveDistinct(s: seq<Ranked>)
    requires Distinct(s)
    ensures Distinct(Positive(s))
    decreases |s|
  {
    if s != [] {
      DistinctTail(s);
      PositiveDistinct(s[1..]);
      if s[0].1 > 0 {
        var rest := Positive(s[1..]);
        forall i | 0 <= i < |rest| ensures rest[i] != s[0] {
          assert rest[i] in s[1..];
        }
        var r := [s[0]] + rest;
        forall i, j | 0 <= i < j < |r| ensures r[i] != r[j] {
          assert r[j] == rest[j - 1];
          if i > 0 {
            assert r[i] == rest[i - 1];
          }
        }
      }
    }
  }

  /** Entries that each pair a node with its in-degree, without repeats, name each node once. */
  lemma KeysOfDistinct(m: map<string, nat>, r: seq<Ranked>)
    requires Distinct(r)
    requires forall i :: 0 <= i < |r| ==> r[i].0 in m && r[i].1 == m[r[i].0]
    ensures forall i, j :: 0 <= i < j < |r| ==> r[i].0 != r[j].0
  {
  }

  /** The ranking holds exactly the pairs of a node and its in-degree. */
  lemma RankedMembers(m: map<string, nat>)
    ensures forall x: Ranked :: x in SortDesc(Items(m)) <==> x.0 in m && x.1 == m[x.0]
  {
    ItemsMembers(m);
    SameElements(Items(m), SortDesc(Items(m)));
  }

  lemma TopOfEntries(m: map<string, nat>, ranked: seq<Ranked>)
    requires SortedDesc(ranked)
    requires forall x: Ranked :: x in ranked <==> x.0 in m && x.1 == m[x.0]
    ensures forall i :: 0 <= i < |TopOf(ranked)| ==>
              TopOf(ranked)[i].0 in m && TopOf(ranked)[i].1 == m[TopOf(ranked)[i].0] && TopOf(ranked)[i].1 > 0
    ensures forall k :: k in m && (k, m[k]) !in TopOf(ranked) ==>
              forall i :: 0 <= i < |TopOf(ranked)| ==> TopOf(ranked)[i].1 >= m[k]
    ensures |TopOf(ranked)| < TopCount ==> forall k :: k in m && m[k] > 0 ==> (k, m[k]) in TopOf(ranked)
  {
    var r := TopOf(ranked);
    forall i | 0 <= i < |r| ensures r[i].0 in m && r[i].1 == m[r[i].0] && r[i].1 > 0 {
      assert r[i] in r;
    }
    forall k | k in m && (k, m[k]) !in r ensures forall i :: 0 <= i < |r| ==> r[i].1 >= m[k] {
      assert (k, m[k]) in ranked;
    }
    if |r| < TopCount {
      forall k | k in m && m[k] > 0 ensures (k, m[k]) in r {
        assert (k, m[k]) in ranked;
      }
    }
  }
}
