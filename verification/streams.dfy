/** The sequence-to-sequence stages of a `java.util.stream` pipeline over an
    ordered source: `filter`, `map`, `flatMap`, `distinct`, `limit` and
    `anyMatch`. A stream is modelled by the sequence it would emit. */
module Streams {

  /** `a` is `b` with some elements dropped and the rest kept in order. */
  predicate IsSubsequence<T(==)>(a: seq<T>, b: seq<T>)
    decreases |b|
  {
    || |a| == 0
    || (&& |b| > 0
        && ((a[0] == b[0] && IsSubsequence(a[1..], b[1..])) || IsSubsequence(a, b[1..])))
  }

  /** `Predicate.and`: both predicates hold. */
  function And<T(!new)>(p: T -> bool, q: T -> bool): (r: T -> bool)
    ensures forall x :: r(x) == (p(x) && q(x))
  {
    x => p(x) && q(x)
  }

  /** `stream.filter(p)`: the elements that satisfy `p`, each as often as in
      `s`, in their order in `s`. */
  function Filter<T(==)>(s: seq<T>, p: T -> bool): (r: seq<T>)
    ensures forall i :: 0 <= i < |r| ==> p(r[i])
    ensures forall x :: x in r ==> x in s
    ensures forall x :: x in s ==> (x in r <==> p(x))
    ensures forall x :: x in s ==> multiset(r)[x] == if p(x) then multiset(s)[x] else 0
    ensures IsSubsequence(r, s)
  {
    if |s| == 0 then []
    else
      assert s == [s[0]] + s[1..];
      if p(s[0]) then [s[0]] + Filter(s[1..], p) else Filter(s[1..], p)
  }

  /** Filtering keeps the first element or not, then filters the rest. */
  lemma FilterLengthCons<T>(s: seq<T>, p: T -> bool)
    requires |s| > 0
    ensures |Filter(s, p)| == (if p(s[0]) then 1 else 0) + |Filter(s[1..], p)|
  {
  }

  /** Filtering distributes over concatenation. */
  lemma {:induction false} FilterAppend<T>(a: seq<T>, b: seq<T>, p: T -> bool)
    ensures Filter(a + b, p) == Filter(a, p) + Filter(b, p)
  {
    if |a| == 0 {
      assert a + b == b;
    } else {
      assert (a + b)[0] == a[0];
      assert (a + b)[1..] == a[1..] + b;
      FilterAppend(a[1..], b, p);
    }
  }

  /** Only the predicate's verdict on the elements present matters. */
  lemma {:induction false} FilterExtensional<T>(s: seq<T>, p: T -> bool, q: T -> bool)
    requires forall x :: x in s ==> p(x) == q(x)
    ensures Filter(s, p) == Filter(s, q)
  {
    if |s| > 0 {
      FilterExtensional(s[1..], p, q);
    }
  }

  /** Two filters in a row are one filter by the conjunction. */
  lemma {:induction false} FilterFilter<T(!new)>(s: seq<T>, p: T -> bool, q: T -> bool)
    ensures Filter(Filter(s, p), q) == Filter(s, And(p, q))
  {
    if |s| > 0 {
      FilterFilter(s[1..], p, q);
    }
  }

  /** Filtering an already filtered sequence again changes nothing. */
  lemma {:induction false} FilterIdempotent<T>(s: seq<T>, p: T -> bool)
    ensures Filter(Filter(s, p), p) == Filter(s, p)
  {
    if |s| > 0 {
      FilterIdempotent(s[1..], p);
    }
  }

  /** Every element of a subsequence is an element of the whole. */
  lemma {:induction false} SubsequenceMembers<T>(a: seq<T>, b: seq<T>)
    requires IsSubsequence(a, b)
    ensures forall x :: x in a ==> x in b
    decreases |b|
  {
    if |a| > 0 {
      if a[0] == b[0] && IsSubsequence(a[1..], b[1..]) {
        SubsequenceMembers(a[1..], b[1..]);
        assert forall x :: x in a ==> x == a[0] || x in a[1..];
      } else {
        SubsequenceMembers(a, b[1..]);
      }
    }
  }

  /** `stream.map(f)`. */
  function Map<T, U>(s: seq<T>, f: T -> U): (r: seq<U>)
    ensures |r| == |s|
    ensures forall i :: 0 <= i < |s| ==> r[i] == f(s[i])
  {
    seq(|s|, i requires 0 <= i < |s| => f(s[i]))
  }

  /** Mapping distributes over concatenation. */
  lemma MapAppend<T, U>(a: seq<T>, b: seq<T>, f: T -> U)
    ensures Map(a + b, f) == Map(a, f) + Map(b, f)
  {
  }

  /** `stream.flatMap(f)`: the sequences `f` yields, concatenated in order. */
  function FlatMap<T, U(==)>(s: seq<T>, f: T -> seq<U>): (r: seq<U>)
    ensures forall i, y :: 0 <= i < |s| && y in f(s[i]) ==> y in r
    ensures forall y :: y in r ==> exists i :: 0 <= i < |s| && y in f(s[i])
  {
    if |s| == 0 then []
    else
      var rest := FlatMap(s[1..], f);
      assert forall i, y :: 1 <= i < |s| && y in f(s[i]) ==> y in rest by {
        forall i, y | 1 <= i < |s| && y in f(s[i]) ensures y in rest {
          assert s[1..][i - 1] == s[i];
        }
      }
      f(s[0]) + rest
  }

  /** Flattening a non-empty sequence: the first element's sequence, then
      the flattened rest. */
  lemma FlatMapCons<T, U>(s: seq<T>, f: T -> seq<U>)
    requires |s| > 0
    ensures FlatMap(s, f) == f(s[0]) + FlatMap(s[1..], f)
  {
  }

  /** When every element whose test holds maps to a sequence holding `y`
      exactly `m` times, and every other element to one without `y`, the
      flattened sequence holds `y` `m` times per element that passes. */
  lemma {:induction false} FlatMapCount<T, U>(s: seq<T>, f: T -> seq<U>, q: T -> bool, y: U, m: int)
    requires forall i :: 0 <= i < |s| ==> multiset(f(s[i]))[y] == if q(s[i]) then m else 0
    ensures multiset(FlatMap(s, f))[y] == m * |Filter(s, q)|
  {
    if |s| > 0 {
      var k := |Filter(s[1..], q)|;
      var rest := FlatMap(s[1..], f);
      assert forall i :: 1 <= i < |s| ==> s[1..][i - 1] == s[i];
      FlatMapCount(s[1..], f, q, y, m);
      FlatMapCons(s, f);
      FilterLengthCons(s, q);
      assert multiset(f(s[0]) + rest)[y] == multiset(f(s[0]))[y] + multiset(rest)[y];
      if q(s[0]) {
        MulSucc(m, k);
      }
    }
  }

  lemma MulSucc(m: int, k: int)
    ensures m * (k + 1) == m + m * k
  {
  }

  /** Flattening one element gives exactly the sequence it maps to; with
      `FlatMapAppend` this pins `FlatMap` down as in-order concatenation. */
  lemma FlatMapSingleton<T, U>(x: T, f: T -> seq<U>)
    ensures FlatMap([x], f) == f(x)
  {
    assert [x][1..] == [];
  }

  /** Flattening distributes over concatenation. */
  lemma {:induction false} FlatMapAppend<T, U>(a: seq<T>, b: seq<T>, f: T -> seq<U>)
    ensures FlatMap(a + b, f) == FlatMap(a, f) + FlatMap(b, f)
  {
    if |a| == 0 {
      assert a + b == b;
    } else {
      assert (a + b)[0] == a[0];
      assert (a + b)[1..] == a[1..] + b;
      FlatMapAppend(a[1..], b, f);
    }
  }

  /** `stream.limit(n)`: the first `n` elements, or all of them if there are
      fewer. */
  function Take<T>(s: seq<T>, n: nat): (r: seq<T>)
    ensures |r| == if n < |s| then n else |s|
    ensures r == s[..|r|]
  {
    if n < |s| then s[..n] else s
  }

  /** `stream.anyMatch(p)`. */
  predicate AnyMatch<T>(s: seq<T>, p: T -> bool)
  {
    exists i :: 0 <= i < |s| && p(s[i])
  }

  /** The set of keys of the elements of `s`. */
  function KeySet<T, K>(s: seq<T>, key: T -> K): set<K>
  {
    set i | 0 <= i < |s| :: key(s[i])
  }

  lemma KeySetEmpty<T, K>(s: seq<T>, key: T -> K)
    ensures KeySet(s, key) == {} <==> |s| == 0
  {
    if |s| > 0 {
      assert key(s[0]) in KeySet(s, key);
    }
  }

  /** The keys of a non-empty sequence: the first element's key and the keys
      of the rest. */
  lemma KeySetCons<T, K>(s: seq<T>, key: T -> K)
    requires |s| > 0
    ensures KeySet(s, key) == {key(s[0])} + KeySet(s[1..], key)
  {
    assert forall i :: 1 <= i < |s| ==> s[i] == s[1..][i - 1];
  }

  /** The keys of a non-empty sequence: the keys of all but the last element,
      and the last element's key. */
  lemma KeySetSnoc<T, K>(s: seq<T>, key: T -> K)
    requires |s| > 0
    ensures KeySet(s, key) == KeySet(s[..|s| - 1], key) + {key(s[|s| - 1])}
  {
    assert forall i :: 0 <= i < |s| - 1 ==> s[i] == s[..|s| - 1][i];
  }

  lemma KeySetMember<T, K>(s: seq<T>, key: T -> K, x: T)
    requires x in s
    ensures key(x) in KeySet(s, key)
  {
    var i :| 0 <= i < |s| && s[i] == x;
  }

  /** `stream.distinct()` where elements are equal exactly when their keys are:
      the first element of each key, in encounter order. */
  function DistinctBy<T(==), K(==)>(s: seq<T>, key: T -> K): (r: seq<T>)
    ensures forall i, j :: 0 <= i < j < |r| ==> key(r[i]) != key(r[j])
    ensures KeySet(r, key) == KeySet(s, key)
    ensures IsSubsequence(r, s)
  {
    DistinctAfter(s, key, {})
  }

  /** `DistinctBy` once the keys in `seen` have already been emitted. */
  function DistinctAfter<T(==), K(==)>(s: seq<T>, key: T -> K, seen: set<K>): (r: seq<T>)
    ensures forall i, j :: 0 <= i < j < |r| ==> key(r[i]) != key(r[j])
    ensures forall i :: 0 <= i < |r| ==> key(r[i]) !in seen
    ensures KeySet(r, key) == KeySet(s, key) - seen
    ensures IsSubsequence(r, s)
  {
    if |s| == 0 then []
    else
      var k := key(s[0]);
      KeySetCons(s, key);
      if k in seen then DistinctAfter(s[1..], key, seen)
      else
        var rest := DistinctAfter(s[1..], key, seen + {k});
        var r := [s[0]] + rest;
        assert KeySet(r, key) == {k} + KeySet(rest, key) by {
          forall i | 0 <= i < |rest| ensures key(rest[i]) in KeySet(r, key) {
            assert rest[i] == r[i + 1];
          }
          assert key(r[0]) == k;
        }
        r
  }

  /** No element with the same key comes before position `j` of `s`. */
  predicate FirstOfKey<T, K(==)>(s: seq<T>, key: T -> K, j: int)
    requires 0 <= j < |s|
  {
    forall i :: 0 <= i < j ==> key(s[i]) != key(s[j])
  }

  /** Every element of `DistinctBy(s, key)` is the first of its key in `s`. */
  lemma DistinctByKeepsFirstOccurrence<T, K>(s: seq<T>, key: T -> K, r: seq<T>)
    requires r == DistinctBy(s, key)
    ensures forall i :: 0 <= i < |r| ==> exists j :: 0 <= j < |s| && s[j] == r[i] && FirstOfKey(s, key, j)
  {
    DistinctKeepsFirstOccurrence(s, key, {});
  }

  /** Every element `distinct` keeps is the first of its key in the input. */
  lemma {:induction false} DistinctKeepsFirstOccurrence<T, K>(s: seq<T>, key: T -> K, seen: set<K>)
    ensures forall i :: 0 <= i < |DistinctAfter(s, key, seen)| ==>
              exists j :: 0 <= j < |s| && s[j] == DistinctAfter(s, key, seen)[i] && FirstOfKey(s, key, j)
  {
    if |s| > 0 {
      var k := key(s[0]);
      var r := DistinctAfter(s, key, seen);
      var seen' := if k in seen then seen else seen + {k};
      DistinctKeepsFirstOccurrence(s[1..], key, seen');
      var rest := DistinctAfter(s[1..], key, seen');
      forall i | 0 <= i < |r|
        ensures exists j :: 0 <= j < |s| && s[j] == r[i] && FirstOfKey(s, key, j)
      {
        if k !in seen && i == 0 {
          assert s[0] == r[0] && FirstOfKey(s, key, 0);
        } else {
          var i' := if k in seen then i else i - 1;
          assert r[i] == rest[i'];
          var j' :| 0 <= j' < |s[1..]| && s[1..][j'] == rest[i'] && FirstOfKey(s[1..], key, j');
          assert key(rest[i']) != k;
          assert s[j' + 1] == r[i];
          forall m | 0 <= m < j' + 1 ensures key(s[m]) != key(s[j' + 1]) {
            if m > 0 {
              assert s[m] == s[1..][m - 1];
            }
          }
          assert FirstOfKey(s, key, j' + 1);
        }
      }
    } else {
      assert DistinctAfter(s, key, seen) == [];
    }
  }
}
