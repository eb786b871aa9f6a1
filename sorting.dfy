/**
 * The three uses of Python's `sorted` in the analysers, as insertion sorts:
 * strings ascending (`sorted(names)`), integers ascending
 * (`sorted(in_degree.values())`) and keyed records by a count, descending
 * (`sorted(items, key=lambda x: x[1], reverse=True)`). The descending sort
 * inserts an element in front of the equal ones that follow it in the
 * input, so like Python's it is stable; no contract below depends on that.
 */
module Sorting {
  import opened Strings

  /* ---------- strings, ascending ---------- */

  predicate SortedStrings(s: seq<string>)
  {
    forall i, j :: 0 <= i < j < |s| ==> LessEq(s[i], s[j])
  }

  function InsertString(x: string, r: seq<string>): (t: seq<string>)
    requires SortedStrings(r)
    ensures SortedStrings(t)
    ensures multiset(t) == multiset(r) + multiset{x}
    ensures |t| == |r| + 1
  {
    if r == [] then [x]
    else if LessEq(x, r[0]) then
      LessAfterHead(x, r);
      [x] + r
    else
      LessTotal(x, r[0]);
      var t' := InsertString(x, r[1..]);
      assert r == [r[0]] + r[1..];
      HeadBelowAll(r[0], t', r[1..], x);
      [r[0]] + t'
  }

  lemma LessAfterHead(x: string, r: seq<string>)
    requires SortedStrings(r) && |r| > 0 && LessEq(x, r[0])
    ensures SortedStrings([x] + r)
  {
    forall j | 0 < j < |r| ensures LessEq(x, r[j]) {
      LessEqTransitive(x, r[0], r[j]);
    }
  }

  lemma HeadBelowAll(h: string, t: seq<string>, rest: seq<string>, x: string)
    requires SortedStrings(t) && Less(h, x)
    requires forall j :: 0 <= j < |rest| ==> LessEq(h, rest[j])
    requires multiset(t) == multiset(rest) + multiset{x}
    ensures SortedStrings([h] + t)
  {
    forall k | 0 <= k < |t| ensures LessEq(h, t[k]) {
      assert t[k] in multiset(t);
      if t[k] != x {
        assert t[k] in multiset(rest);
        var j :| 0 <= j < |rest| && rest[j] == t[k];
      }
    }
  }

  /** `sorted(names)` for a list of strings. */
  function SortStrings(s: seq<string>): (r: seq<string>)
    ensures |r| == |s|
    ensures SortedStrings(r)
    ensures multiset(r) == multiset(s)
  {
    if s == [] then []
    else
      assert s == [s[0]] + s[1..];
      InsertString(s[0], SortStrings(s[1..]))
  }

  /** A sorted arrangement of a multiset of strings is unique. */
  lemma {:induction false} SortedStringsUnique(a: seq<string>, b: seq<string>)
    requires SortedStrings(a) && SortedStrings(b)
    requires multiset(a) == multiset(b)
    ensures a == b
    decreases |a|
  {
    assert |a| == |multiset(a)| == |multiset(b)| == |b|;
    if |a| > 0 {
      assert a[0] in multiset(b);
      var i :| 0 <= i < |b| && b[i] == a[0];
      assert LessEq(b[0], a[0]);
      assert b[0] in multiset(a);
      var j :| 0 <= j < |a| && a[j] == b[0];
      assert LessEq(a[0], b[0]);
      LessEqAntisymmetric(a[0], b[0]);
      assert a == [a[0]] + a[1..] && b == [b[0]] + b[1..];
      assert multiset(a) == multiset{a[0]} + multiset(a[1..]);
      assert multiset(b) == multiset{b[0]} + multiset(b[1..]);
      assert multiset(a[1..]) == multiset(a) - multiset{a[0]};
      assert multiset(b[1..]) == multiset(b) - multiset{b[0]};
      SortedStringsUnique(a[1..], b[1..]);
    }
  }

  /* ---------- naturals, ascending ---------- */

  predicate SortedAsc(s: seq<nat>)
  {
    forall i, j :: 0 <= i < j < |s| ==> s[i] <= s[j]
  }

  function InsertAsc(x: nat, r: seq<nat>): (t: seq<nat>)
    requires SortedAsc(r)
    ensures SortedAsc(t)
    ensures multiset(t) == multiset(r) + multiset{x}
    ensures |t| == |r| + 1
  {
    if r == [] || x <= r[0] then [x] + r
    else
      var t' := InsertAsc(x, r[1..]);
      assert r == [r[0]] + r[1..];
      AscHeadBelowAll(r[0], t', r[1..], x);
      [r[0]] + t'
  }

  lemma AscHeadBelowAll(h: nat, t: seq<nat>, rest: seq<nat>, x: nat)
    requires SortedAsc(t) && h < x
    requires forall j :: 0 <= j < |rest| ==> h <= rest[j]
    requires multiset(t) == multiset(rest) + multiset{x}
    ensures SortedAsc([h] + t)
  {
    forall k | 0 <= k < |t| ensures h <= t[k] {
      assert t[k] in multiset(t);
      if t[k] != x {
        assert t[k] in multiset(rest);
        var j :| 0 <= j < |rest| && rest[j] == t[k];
      }
    }
  }

  /** `sorted(values)` for a list of non-negative integers. */
  function SortAsc(s: seq<nat>): (r: seq<nat>)
    ensures |r| == |s|
    ensures SortedAsc(r)
    ensures multiset(r) == multiset(s)
  {
    if s == [] then []
    else
      assert s == [s[0]] + s[1..];
      InsertAsc(s[0], SortAsc(s[1..]))
  }

  /* ---------- keyed counts, descending ---------- */

  predicate SortedDesc<K>(s: seq<(K, nat)>)
  {
    forall i, j :: 0 <= i < j < |s| ==> s[i].1 >= s[j].1
  }

  function InsertDesc<K>(x: (K, nat), r: seq<(K, nat)>): (t: seq<(K, nat)>)
    requires SortedDesc(r)
    ensures SortedDesc(t)
    ensures multiset(t) == multiset(r) + multiset{x}
    ensures |t| == |r| + 1
  {
    if r == [] || r[0].1 <= x.1 then
      DescAfterHead(x, r);
      [x] + r
    else
      var t' := InsertDesc(x, r[1..]);
      assert r == [r[0]] + r[1..];
      DescHeadAboveAll(r[0], t', r[1..], x);
      [r[0]] + t'
  }

  lemma DescAfterHead<K>(x: (K, nat), r: seq<(K, nat)>)
    requires SortedDesc(r) && (r == [] || r[0].1 <= x.1)
    ensures SortedDesc([x] + r)
  {
    var t := [x] + r;
    forall i, j | 0 <= i < j < |t| ensures t[i].1 >= t[j].1 {
      assert t[j] == r[j - 1];
      if i > 0 {
        assert t[i] == r[i - 1];
      }
    }
  }

  lemma DescHeadAboveAll<K>(h: (K, nat), t: seq<(K, nat)>, rest: seq<(K, nat)>, x: (K, nat))
    requires SortedDesc(t) && h.1 > x.1
    requires forall j :: 0 <= j < |rest| ==> h.1 >= rest[j].1
    requires multiset(t) == multiset(rest) + multiset{x}
    ensures SortedDesc([h] + t)
  {
    forall k | 0 <= k < |t| ensures h.1 >= t[k].1 {
      assert t[k] in multiset(t);
      if t[k] != x {
        assert t[k] in multiset(rest);
        var j :| 0 <= j < |rest| && rest[j] == t[k];
      }
    }
  }

  /** `sorted(items, key=lambda x: x[1], reverse=True)` */
  function SortDesc<K>(s: seq<(K, nat)>): (r: seq<(K, nat)>)
    ensures |r| == |s|
    ensures SortedDesc(r)
    ensures multiset(r) == multiset(s)
  {
    if s == [] then []
    else
      assert s == [s[0]] + s[1..];
      InsertDesc(s[0], SortDesc(s[1..]))
  }

  /** Sum of the counts of keyed records. */
  function SumCounts<K>(s: seq<(K, nat)>): nat
  {
    if s == [] then 0 else s[0].1 + SumCounts(s[1..])
  }

  lemma {:induction false} InsertDescSum<K>(x: (K, nat), r: seq<(K, nat)>)
    requires SortedDesc(r)
    ensures SumCounts(InsertDesc(x, r)) == x.1 + SumCounts(r)
    decreases |r|
  {
    if r != [] && r[0].1 > x.1 {
      InsertDescSum(x, r[1..]);
    }
  }

  /** Sorting keeps the total of the counts. */
  lemma {:induction false} SortDescSum<K>(s: seq<(K, nat)>)
    ensures SumCounts(SortDesc(s)) == SumCounts(s)
    decreases |s|
  {
    if s != [] {
      SortDescSum(s[1..]);
      InsertDescSum(s[0], SortDesc(s[1..]));
    }
  }

  /** Rearranging a sequence keeps its elements. */
  lemma SameElements<T>(a: seq<T>, b: seq<T>)
    requires multiset(a) == multiset(b)
    ensures forall x :: x in a <==> x in b
  {
    forall x ensures x in a <==> x in b {
      assert x in a <==> x in multiset(a);
      assert x in b <==> x in multiset(b);
    }
  }
}
