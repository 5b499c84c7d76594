/** The terminal operations of a stream pipeline: `Collectors.groupingBy`
    (with `mapping` and `maxBy` downstream), `Collectors.toMap`, `reduce`,
    `sum`, `average` and `summaryStatistics`. */
module Collectors {
  import opened Results
  import opened Streams

  // ---------------------------------------------------------------- grouping

  /** The members of `s` whose key is `k`, in encounter order. */
  function Bucket<T(==), K(==)>(s: seq<T>, key: T -> K, k: K): seq<T>
  {
    Filter(s, x => key(x) == k)
  }

  /** `Collectors.groupingBy(key)`: one bucket per key that occurs, holding the
      members with that key in encounter order. */
  function GroupBy<T(==), K(==)>(s: seq<T>, key: T -> K): (r: map<K, seq<T>>)
    ensures r.Keys == KeySet(s, key)
    ensures forall k :: k in r ==> r[k] == Bucket(s, key, k)
  {
    if |s| == 0 then map[]
    else
      var m := GroupBy(s[1..], key);
      var k := key(s[0]);
      KeySetCons(s, key);
      assert k !in m ==> Bucket(s[1..], key, k) == [];
      m[k := [s[0]] + if k in m then m[k] else []]
  }

  /** Grouping partitions its input: each element lies in the bucket of its
      own key, as often as it occurs in the input, and in no other bucket; no
      bucket is empty. */
  lemma GroupByPartition<T, K>(s: seq<T>, key: T -> K)
    ensures forall x :: x in s ==> key(x) in GroupBy(s, key)
    ensures forall x :: x in s ==> multiset(GroupBy(s, key)[key(x)])[x] == multiset(s)[x]
    ensures forall x, k :: k in GroupBy(s, key) && x in GroupBy(s, key)[k] ==> x in s && key(x) == k
    ensures forall k :: k in GroupBy(s, key) ==> GroupBy(s, key)[k] != []
  {
    var g := GroupBy(s, key);
    forall x | x in s
      ensures key(x) in g && multiset(g[key(x)])[x] == multiset(s)[x]
    {
      KeySetMember(s, key, x);
      BucketCount(s, key, x);
    }
    forall x, k | k in g && x in g[k] ensures x in s && key(x) == k {
      BucketMember(s, key, k, x);
    }
    forall k | k in g ensures g[k] != [] {
      var i :| 0 <= i < |s| && key(s[i]) == k;
      BucketCount(s, key, s[i]);
    }
  }

  /** An element lies in its own key's bucket as often as in the input. */
  lemma BucketCount<T, K>(s: seq<T>, key: T -> K, x: T)
    requires x in s
    ensures multiset(Bucket(s, key, key(x)))[x] == multiset(s)[x]
  {
  }

  /** A bucket holds only input elements of its key. */
  lemma BucketMember<T, K>(s: seq<T>, key: T -> K, k: K, x: T)
    requires x in Bucket(s, key, k)
    ensures x in s && key(x) == k
  {
  }

  /** `groupingBy(key, mapping(f, toList()))`: each bucket mapped by `f`. */
  function GroupMapping<T(==), K(==), V>(s: seq<T>, key: T -> K, f: T -> V): (r: map<K, seq<V>>)
    ensures r.Keys == KeySet(s, key)
    ensures forall k :: k in r ==> r[k] == Map(Bucket(s, key, k), f)
  {
    var g := GroupBy(s, key);
    map k | k in g :: Map(g[k], f)
  }

  // ------------------------------------------------------------------ maxBy

  /** Position `i` holds the largest key of `s`, and no earlier position
      holds one as large. */
  predicate IsFirstMax<T>(s: seq<T>, key: T -> real, i: int)
    requires 0 <= i < |s|
  {
    && (forall j :: 0 <= j < |s| ==> key(s[j]) <= key(s[i]))
    && (forall j :: 0 <= j < i ==> key(s[j]) < key(s[i]))
  }

  /** The position `maxBy` ends on. `BinaryOperator.maxBy` keeps the
      accumulated element when the comparator returns zero, so the reduction
      from left to right settles on the first of the largest. */
  function FirstMaxIndex<T>(s: seq<T>, key: T -> real): (i: nat)
    requires |s| > 0
    ensures i < |s| && IsFirstMax(s, key, i)
  {
    if |s| == 1 then 0
    else
      var init := s[..|s| - 1];
      var j := FirstMaxIndex(init, key);
      assert forall m :: 0 <= m < |init| ==> init[m] == s[m];
      if key(s[j]) >= key(s[|s| - 1]) then j else |s| - 1
  }

  /** `Collectors.maxBy(comparing(key))`: empty for empty input, otherwise the
      first member whose key is not exceeded by any other member's. */
  function MaxBy<T>(s: seq<T>, key: T -> real): (r: Option<T>)
    ensures r.None? <==> |s| == 0
    ensures r.Some? ==> exists i :: 0 <= i < |s| && s[i] == r.value && IsFirstMax(s, key, i)
  {
    if |s| == 0 then None else Some(s[FirstMaxIndex(s, key)])
  }

  // ------------------------------------------------------------------ toMap

  /** No two members of `s` share a key. */
  predicate DistinctKeys<T, K(==)>(s: seq<T>, key: T -> K)
  {
    forall i, j :: 0 <= i < j < |s| ==> key(s[i]) != key(s[j])
  }

  /** `Collectors.toMap(key, value)`: the map from each member's key to its
      value, or, when some key repeats an earlier one, the
      `IllegalStateException` ("Duplicate key") raised at the first repeat,
      carrying that key. */
  function ToMap<T, K(==), V>(s: seq<T>, key: T -> K, value: T -> V): (r: Result<map<K, V>, K>)
    ensures r.Ok? <==> DistinctKeys(s, key)
    ensures r.Ok? ==> r.value.Keys == KeySet(s, key)
    ensures r.Ok? ==> forall i :: 0 <= i < |s| ==> r.value[key(s[i])] == value(s[i])
    ensures r.Err? ==> exists j :: 0 <= j < |s| && DistinctKeys(s[..j], key)
                                    && r.error == key(s[j]) && r.error in KeySet(s[..j], key)
  {
    if |s| == 0 then Ok(map[])
    else
      var n := |s| - 1;
      var init := s[..n];
      var k := key(s[n]);
      DistinctKeysSnoc(s, key);
      match ToMap(init, key, value)
      case Err(e) =>
        ErrorInPrefix(s, init, key, e);
        Err(e)
      case Ok(m) =>
        if k in m then
          Err(k)
        else
          KeySetSnoc(s, key);
          Ok(m[k := value(s[n])])
  }

  /** A sequence has distinct keys iff its prefix has and the last key is
      new. */
  lemma DistinctKeysSnoc<T, K>(s: seq<T>, key: T -> K)
    requires |s| > 0
    ensures DistinctKeys(s, key) <==>
              DistinctKeys(s[..|s| - 1], key) && key(s[|s| - 1]) !in KeySet(s[..|s| - 1], key)
  {
    var n := |s| - 1;
    var init := s[..n];
    assert forall i :: 0 <= i < n ==> s[i] == init[i];
    if key(s[n]) in KeySet(init, key) {
      var i :| 0 <= i < n && key(init[i]) == key(s[n]);
      assert key(s[i]) == key(s[n]);
    }
  }

  /** A repeat found in a prefix is a repeat of the whole sequence. */
  lemma ErrorInPrefix<T, K>(s: seq<T>, init: seq<T>, key: T -> K, e: K)
    requires |s| > 0 && init == s[..|s| - 1]
    requires exists j :: 0 <= j < |init| && DistinctKeys(init[..j], key)
                         && e == key(init[j]) && e in KeySet(init[..j], key)
    ensures exists j :: 0 <= j < |s| && DistinctKeys(s[..j], key)
                        && e == key(s[j]) && e in KeySet(s[..j], key)
  {
    var j :| 0 <= j < |init| && DistinctKeys(init[..j], key)
             && e == key(init[j]) && e in KeySet(init[..j], key);
    assert init[..j] == s[..j];
  }

  /** Only the value function's results on the members matter. */
  lemma {:induction false} ToMapValueExtensional<T, K, V>(s: seq<T>, key: T -> K, v1: T -> V, v2: T -> V)
    requires forall i :: 0 <= i < |s| ==> v1(s[i]) == v2(s[i])
    ensures ToMap(s, key, v1) == ToMap(s, key, v2)
  {
    if |s| > 0 {
      var init := s[..|s| - 1];
      assert forall i :: 0 <= i < |init| ==> init[i] == s[i];
      ToMapValueExtensional(init, key, v1, v2);
    }
  }

  // --------------------------------------------------------------- reducing

  /** `DoubleStream.sum()` over exact reals. */
  function Sum(xs: seq<real>): real
  {
    if |xs| == 0 then 0.0 else xs[0] + Sum(xs[1..])
  }

  /** A sum of non-negative values is non-negative, and it is zero only when
      every value is. */
  lemma {:induction false} SumNonNegative(xs: seq<real>)
    requires forall i :: 0 <= i < |xs| ==> xs[i] >= 0.0
    ensures Sum(xs) >= 0.0
    ensures Sum(xs) == 0.0 <==> forall i :: 0 <= i < |xs| ==> xs[i] == 0.0
  {
    if |xs| > 0 {
      SumNonNegative(xs[1..]);
      assert forall i :: 1 <= i < |xs| ==> xs[1..][i - 1] == xs[i];
    }
  }

  lemma {:induction false} SumAppend(a: seq<real>, b: seq<real>)
    ensures Sum(a + b) == Sum(a) + Sum(b)
  {
    if |a| == 0 {
      assert a + b == b;
    } else {
      assert (a + b)[1..] == a[1..] + b;
      SumAppend(a[1..], b);
    }
  }

  /** Sequential `stream.reduce(identity, accumulator, combiner)`: a left fold
      from `acc`; the combiner is never used on a sequential stream. */
  function FoldLeft<T, A>(acc: A, s: seq<T>, f: (A, T) -> A): A
  {
    if |s| == 0 then acc else FoldLeft(f(acc, s[0]), s[1..], f)
  }

  /** Reducing a concatenation reduces the second part from where the first
      part left the accumulator: the accumulator visits the elements strictly
      left to right. */
  lemma {:induction false} FoldLeftAppend<T, A>(acc: A, a: seq<T>, b: seq<T>, f: (A, T) -> A)
    ensures FoldLeft(acc, a + b, f) == FoldLeft(FoldLeft(acc, a, f), b, f)
  {
    if |a| > 0 {
      assert (a + b)[1..] == a[1..] + b;
      FoldLeftAppend(f(acc, a[0]), a[1..], b, f);
    } else {
      assert a + b == b;
    }
  }

  /** The last element is folded in last. */
  lemma FoldLeftSnoc<T, A>(acc: A, s: seq<T>, x: T, f: (A, T) -> A)
    ensures FoldLeft(acc, s + [x], f) == f(FoldLeft(acc, s, f), x)
  {
    FoldLeftAppend(acc, s, [x], f);
    assert [x][1..] == [];
  }

  /** The accumulator `(acc, x) -> acc + value(x)`. */
  function AddValue<T>(value: T -> real): (real, T) -> real
  {
    (acc, x) => acc + value(x)
  }

  /** Reducing with `acc + value(x)` from a seed adds the seed to the sum of
      the values. */
  lemma {:induction false} FoldAddValue<T>(seed: real, s: seq<T>, value: T -> real)
    ensures FoldLeft(seed, s, AddValue(value)) == seed + Sum(Map(s, value))
    decreases |s|
  {
    if |s| > 0 {
      assert Map(s, value)[1..] == Map(s[1..], value);
      FoldAddValue(seed + value(s[0]), s[1..], value);
    }
  }

  /** Reducing with `Double::sum` from a seed adds the seed to the sum. */
  lemma {:induction false} FoldPlus(seed: real, xs: seq<real>)
    ensures FoldLeft(seed, xs, (a: real, b: real) => a + b) == seed + Sum(xs)
    decreases |xs|
  {
    if |xs| > 0 {
      FoldPlus(seed + xs[0], xs[1..]);
    }
  }

  /** `a` is the average of `xs`: times the count it gives the sum. */
  predicate IsAverageOf(a: real, xs: seq<real>)
  {
    a * (|xs| as real) == Sum(xs)
  }

  /** The sum divided by the count is the average. */
  lemma QuotientIsAverage(sum: real, xs: seq<real>)
    requires |xs| > 0 && sum == Sum(xs)
    ensures IsAverageOf(sum / (|xs| as real), xs)
  {
  }

  /** `DoubleStream.average()`: empty for empty input, otherwise the value
      whose product with the count is the sum. */
  function Average(xs: seq<real>): (r: Option<real>)
    ensures r.None? <==> |xs| == 0
    ensures r.Some? ==> IsAverageOf(r.value, xs)
  {
    if |xs| == 0 then None else Some(Sum(xs) / (|xs| as real))
  }

  // ------------------------------------------------------------- statistics

  /** `DoubleSummaryStatistics` of a non-empty stream. */
  datatype Stats = Stats(count: nat, sum: real, min: real, max: real)
  {
    /** `getAverage()`: zero when nothing was counted. */
    function Average(): real
    {
      if count > 0 then sum / (count as real) else 0.0
    }
  }

  /** `DoubleStream.summaryStatistics()`, accumulated in one pass as
      `DoubleSummaryStatistics.accept` does. An empty stream gives `None`
      (Java reports count 0 with infinite min and max). */
  method SummaryStatistics(xs: seq<real>) returns (r: Option<Stats>)
    ensures r.None? <==> |xs| == 0
    ensures r.Some? ==> r.value.count == |xs| && r.value.sum == Sum(xs)
    ensures r.Some? ==> forall i :: 0 <= i < |xs| ==> r.value.min <= xs[i] <= r.value.max
    ensures r.Some? ==> r.value.min in xs && r.value.max in xs
    ensures r.Some? ==> IsAverageOf(r.value.Average(), xs)
  {
    if |xs| == 0 {
      return None;
    }
    var count, sum, min, max := 1, xs[0], xs[0], xs[0];
    assert Sum(xs[..1]) == xs[0];
    while count < |xs|
      invariant 1 <= count <= |xs|
      invariant sum == Sum(xs[..count])
      invariant forall i :: 0 <= i < count ==> min <= xs[i] <= max
      invariant min in xs[..count] && max in xs[..count]
    {
      var x := xs[count];
      SumAppend(xs[..count], [x]);
      assert xs[..count + 1] == xs[..count] + [x];
      sum := sum + x;
      min := if x < min then x else min;
      max := if x > max then x else max;
      count := count + 1;
    }
    assert xs[..count] == xs;
    QuotientIsAverage(sum, xs);
    r := Some(Stats(count, sum, min, max));
  }
}
