/**
 * Sequences without repetition, and an enumeration of a finite set. Python
 * iterates a `set` (and a `dict` built from one) in an order the language
 * leaves unspecified; `Elements` stands for that order, and nothing proved
 * about the analysers depends on which order it is.
 */
module Enumeration {

  predicate Distinct<T(==)>(s: seq<T>)
  {
    forall i, j :: 0 <= i < j < |s| ==> s[i] != s[j]
  }

  /** Some iteration order of `s`: every element exactly once. */
  ghost function Elements(s: set<string>): (r: seq<string>)
    ensures |r| == |s|
    ensures Distinct(r)
    ensures forall x :: x in r <==> x in s
  {
    if s == {} then []
    else
      var x :| x in s;
      var rest := Elements(s - {x});
      assert forall i :: 0 <= i < |rest| ==> rest[i] != x;
      [x] + rest
  }

  /** A dict's `items()` in the key order `ks`: `[(k, m[k]) for k in ks]`. */
  function EntriesOf<K>(ks: seq<K>, m: map<K, nat>): (r: seq<(K, nat)>)
    requires forall k :: k in ks ==> k in m
    ensures |r| == |ks|
    ensures forall i :: 0 <= i < |r| ==> r[i] == (ks[i], m[ks[i]])
  {
    if ks == [] then [] else [(ks[0], m[ks[0]])] + EntriesOf(ks[1..], m)
  }

  /** Dropping the head of a sequence without repetition leaves one without repetition that lacks the head. */
  lemma DistinctTail<T>(s: seq<T>)
    requires Distinct(s) && |s| > 0
    ensures Distinct(s[1..]) && s[0] !in s[1..]
  {
    var rest := s[1..];
    forall i, j | 0 <= i < j < |rest| ensures rest[i] != rest[j] {
      assert rest[i] == s[i + 1] && rest[j] == s[j + 1];
    }
    forall i | 0 <= i < |rest| ensures rest[i] != s[0] {
      assert rest[i] == s[i + 1];
    }
  }

  /** A sequence is without repetition exactly when its multiset holds each element at most once. */
  lemma {:induction false} DistinctMultiset<T>(s: seq<T>)
    ensures Distinct(s) <==> forall x :: multiset(s)[x] <= 1
    decreases |s|
  {
    if s != [] {
      var rest := s[1..];
      DistinctMultiset(rest);
      assert s == [s[0]] + rest;
      assert multiset(s) == multiset{s[0]} + multiset(rest);
      if Distinct(s) {
        DistinctTail(s);
        assert multiset(rest)[s[0]] == 0;
      } else {
        var i, j :| 0 <= i < j < |s| && s[i] == s[j];
        if i == 0 {
          assert s[j] == rest[j - 1];
          assert multiset(s)[s[0]] >= 2;
        } else {
          assert rest[i - 1] == s[i] && rest[j - 1] == s[j];
          assert !Distinct(rest);
          var x :| multiset(rest)[x] > 1;
          assert multiset(s)[x] > 1;
        }
      }
    }
  }

  /** Rearranging a sequence without repetition gives one without repetition. */
  lemma DistinctPermutation<T>(a: seq<T>, b: seq<T>)
    requires multiset(a) == multiset(b) && Distinct(a)
    ensures Distinct(b)
  {
    DistinctMultiset(a);
    DistinctMultiset(b);
  }

  /** How many elements of `s` lie in `keep`. */
  function CountIn(s: seq<string>, keep: set<string>): nat
  {
    if s == [] then 0 else (if s[0] in keep then 1 else 0) + CountIn(s[1..], keep)
  }

  /** Without repetition, counting the elements that lie in `keep` counts a set. */
  lemma {:induction false} CountInDistinct(s: seq<string>, keep: set<string>)
    requires Distinct(s)
    ensures CountIn(s, keep) == |set x | x in s && x in keep|
    decreases |s|
  {
    if s != [] {
      var rest := s[1..];
      DistinctTail(s);
      CountInDistinct(rest, keep);
      assert s == [s[0]] + rest;
      var all := set x | x in s && x in keep;
      var tail := set x | x in rest && x in keep;
      if s[0] in keep {
        assert all == tail + {s[0]};
      } else {
        assert all == tail;
      }
    }
  }

  /** Counting along an enumeration of `s` the elements of a subset counts the subset. */
  lemma CountInElements(s: set<string>, keep: set<string>)
    requires keep <= s
    ensures CountIn(Elements(s), keep) == |keep|
  {
    CountInDistinct(Elements(s), keep);
    assert (set x | x in Elements(s) && x in keep) == keep;
  }

  /** How many times `x` occurs in `s`. */
  function Occurrences<T(==)>(s: seq<T>, x: T): nat
  {
    if s == [] then 0 else (if s[0] == x then 1 else 0) + Occurrences(s[1..], x)
  }

  /** In a sequence without repetition, an element occurs once and anything else never. */
  lemma {:induction false} OccurrencesOfDistinct<T>(s: seq<T>, x: T)
    requires Distinct(s)
    ensures Occurrences(s, x) == if x in s then 1 else 0
    decreases |s|
  {
    if s != [] {
      DistinctTail(s);
      OccurrencesOfDistinct(s[1..], x);
    }
  }

  lemma {:induction false} OccurrencesAppend<T>(s: seq<T>, x: T, k: T)
    ensures Occurrences(s + [x], k) == Occurrences(s, k) + (if x == k then 1 else 0)
    decreases |s|
  {
    if s != [] {
      assert (s + [x])[1..] == s[1..] + [x];
      OccurrencesAppend(s[1..], x, k);
    }
  }
}
