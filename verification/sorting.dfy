/** `stream.sorted(comparator)` followed by `limit(n)`. Java sorts object
    streams with a stable merge sort; the model is a stable insertion sort,
    which yields the same sequence because a stable sort of a sequence under a
    total preorder is unique. */
module Sorting {
  import opened Streams

  /** `le(a, b)` plays `comparator.compare(a, b) <= 0`: it must order every
      pair and be transitive. */
  ghost predicate TotalPreorder<T(!new)>(le: (T, T) -> bool)
  {
    && (forall x, y :: le(x, y) || le(y, x))
    && (forall x, y, z :: le(x, y) && le(y, z) ==> le(x, z))
  }

  /** `a` and `b` compare as equal. */
  predicate Tied<T>(le: (T, T) -> bool, a: T, b: T)
  {
    le(a, b) && le(b, a)
  }

  predicate Sorted<T>(s: seq<T>, le: (T, T) -> bool)
  {
    forall i, j :: 0 <= i < j < |s| ==> le(s[i], s[j])
  }

  /** The elements of `s` tied with `x`, in their order in `s`. */
  function TiedWith<T>(s: seq<T>, le: (T, T) -> bool, x: T): seq<T>
  {
    if |s| == 0 then []
    else (if Tied(le, x, s[0]) then [s[0]] else []) + TiedWith(s[1..], le, x)
  }

  /** Puts `x` in front of the first element it is not above. */
  function Insert<T(!new)>(x: T, s: seq<T>, le: (T, T) -> bool): (r: seq<T>)
    requires TotalPreorder(le)
    requires Sorted(s, le)
    ensures |r| == |s| + 1
    ensures multiset(r) == multiset(s) + multiset{x}
    ensures Sorted(r, le)
  {
    if |s| == 0 then [x]
    else if le(x, s[0]) then [x] + s
    else
      var rest := Insert(x, s[1..], le);
      assert s == [s[0]] + s[1..];
      HeadBelowInserted(x, s, rest, le);
      SortedCons(s[0], rest, le);
      [s[0]] + rest
  }

  /** When `x` goes after the head of a sorted `s`, the head is at or below
      everything the insertion into the tail yields. */
  lemma HeadBelowInserted<T(!new)>(x: T, s: seq<T>, rest: seq<T>, le: (T, T) -> bool)
    requires TotalPreorder(le)
    requires Sorted(s, le)
    requires |s| > 0 && !le(x, s[0])
    requires multiset(rest) == multiset(s[1..]) + multiset{x}
    ensures forall y :: y in rest ==> le(s[0], y)
  {
    forall y | y in rest ensures le(s[0], y) {
      assert y in multiset(rest);
      if y != x {
        assert y in s[1..];
      }
    }
  }

  /** A head at or below every element of a sorted tail keeps it sorted. */
  lemma SortedCons<T>(h: T, t: seq<T>, le: (T, T) -> bool)
    requires Sorted(t, le)
    requires forall y :: y in t ==> le(h, y)
    ensures Sorted([h] + t, le)
  {
    var s := [h] + t;
    forall i, j | 0 <= i < j < |s| ensures le(s[i], s[j]) {
      assert s[j] == t[j - 1];
      if i > 0 {
        assert s[i] == t[i - 1];
      }
    }
  }

  /** A stable sort: the result is ordered by `le`, holds the same elements,
      and keeps tied elements in their input order. */
  function SortBy<T(!new)>(s: seq<T>, le: (T, T) -> bool): (r: seq<T>)
    requires TotalPreorder(le)
    ensures |r| == |s|
    ensures multiset(r) == multiset(s)
    ensures Sorted(r, le)
  {
    if |s| == 0 then []
    else
      assert s == [s[0]] + s[1..];
      Insert(s[0], SortBy(s[1..], le), le)
  }

  /** Inserting `x` puts it before everything tied with it. */
  lemma {:induction false} InsertStable<T(!new)>(x: T, s: seq<T>, le: (T, T) -> bool, pivot: T)
    requires TotalPreorder(le)
    requires Sorted(s, le)
    ensures TiedWith(Insert(x, s, le), le, pivot) == TiedWith([x] + s, le, pivot)
  {
    if |s| > 0 && !le(x, s[0]) {
      var rest := Insert(x, s[1..], le);
      var hx := if Tied(le, pivot, x) then [x] else [];
      var h0 := if Tied(le, pivot, s[0]) then [s[0]] else [];
      InsertStable(x, s[1..], le, pivot);
      assert ([s[0]] + rest)[1..] == rest;
      assert ([x] + s)[1..] == s;
      assert ([x] + s[1..])[1..] == s[1..];
      // Both tied with `pivot` would put `x` at or below `s[0]`.
      assert h0 == [] || hx == [];
      calc {
        TiedWith(Insert(x, s, le), le, pivot);
        TiedWith([s[0]] + rest, le, pivot);
        h0 + TiedWith(rest, le, pivot);
        h0 + (hx + TiedWith(s[1..], le, pivot));
        hx + (h0 + TiedWith(s[1..], le, pivot));
        hx + TiedWith(s, le, pivot);
        TiedWith([x] + s, le, pivot);
      }
    }
  }

  /** `SortBy` is stable: for every element, the elements tied with it appear
      in the output in exactly their input order. */
  lemma {:induction false} SortByStable<T(!new)>(s: seq<T>, le: (T, T) -> bool, pivot: T)
    requires TotalPreorder(le)
    ensures TiedWith(SortBy(s, le), le, pivot) == TiedWith(s, le, pivot)
  {
    if |s| > 0 {
      var sorted := SortBy(s[1..], le);
      InsertStable(s[0], sorted, le, pivot);
      assert ([s[0]] + sorted)[1..] == sorted;
      SortByStable(s[1..], le, pivot);
    }
  }

  /** `sorted(comparator).limit(n)`: the first `n` elements in sorted order.
      Every element left out is at or above every element kept. */
  function TopN<T(!new)>(s: seq<T>, le: (T, T) -> bool, n: nat): (r: seq<T>)
    requires TotalPreorder(le)
    ensures |r| == if n < |s| then n else |s|
    ensures Sorted(r, le)
    ensures multiset(r) <= multiset(s)
    ensures forall x :: x in r ==> x in s
    ensures forall x, y :: x in r && y in multiset(s) - multiset(r) ==> le(x, y)
  {
    var sorted := SortBy(s, le);
    var r := Take(sorted, n);
    SortedPrefix(s, sorted, |r|, le);
    r
  }

  /** A prefix of a sorted permutation of `s` is drawn from `s`, and is at or
      below everything of `s` it leaves out. */
  lemma SortedPrefix<T>(s: seq<T>, sorted: seq<T>, k: nat, le: (T, T) -> bool)
    requires multiset(sorted) == multiset(s)
    requires Sorted(sorted, le)
    requires k <= |sorted|
    ensures multiset(sorted[..k]) <= multiset(s)
    ensures forall x :: x in sorted[..k] ==> x in s
    ensures forall x, y :: x in sorted[..k] && y in multiset(s) - multiset(sorted[..k]) ==> le(x, y)
  {
    var r, rest := sorted[..k], sorted[k..];
    assert sorted == r + rest;
    assert multiset(s) == multiset(r) + multiset(rest);
    assert forall x :: x in r ==> x in multiset(s);
    assert multiset(s) - multiset(r) == multiset(rest);
    forall x, y | x in r && y in multiset(rest) ensures le(x, y) {
      SortedSplit(sorted, k, x, y, le);
    }
  }

  /** In a sorted sequence, whatever lies before position `k` is at or below
      whatever lies from `k` on. */
  lemma SortedSplit<T>(sorted: seq<T>, k: nat, x: T, y: T, le: (T, T) -> bool)
    requires Sorted(sorted, le)
    requires k <= |sorted|
    requires x in sorted[..k] && y in sorted[k..]
    ensures le(x, y)
  {
    var i :| 0 <= i < k && sorted[..k][i] == x;
    var j :| 0 <= j < |sorted| - k && sorted[k..][j] == y;
    assert sorted[i] == x && sorted[k + j] == y;
  }

  /** `TopN` keeps tied elements in input order: among the elements tied with
      any `pivot`, the kept ones are a prefix of those in the input. */
  lemma TopNStable<T(!new)>(s: seq<T>, le: (T, T) -> bool, n: nat, pivot: T)
    requires TotalPreorder(le)
    ensures exists k :: 0 <= k <= |TiedWith(s, le, pivot)| &&
              TiedWith(TopN(s, le, n), le, pivot) == TiedWith(s, le, pivot)[..k]
  {
    SortByStable(s, le, pivot);
    TiedPrefix(s, SortBy(s, le), TopN(s, le, n), le, pivot);
  }

  /** A prefix of a sequence that keeps `s`'s ties in order keeps a prefix of
      them. */
  lemma TiedPrefix<T>(s: seq<T>, sorted: seq<T>, r: seq<T>, le: (T, T) -> bool, pivot: T)
    requires TiedWith(sorted, le, pivot) == TiedWith(s, le, pivot)
    requires |r| <= |sorted| && r == sorted[..|r|]
    ensures exists k :: 0 <= k <= |TiedWith(s, le, pivot)| &&
              TiedWith(r, le, pivot) == TiedWith(s, le, pivot)[..k]
  {
    assert sorted == r + sorted[|r|..];
    TiedWithAppend(r, sorted[|r|..], le, pivot);
    var k := |TiedWith(r, le, pivot)|;
    assert TiedWith(s, le, pivot)[..k] == TiedWith(r, le, pivot);
  }

  lemma {:induction false} TiedWithAppend<T>(a: seq<T>, b: seq<T>, le: (T, T) -> bool, pivot: T)
    ensures TiedWith(a + b, le, pivot) == TiedWith(a, le, pivot) + TiedWith(b, le, pivot)
  {
    if |a| == 0 {
      assert a + b == b;
    } else {
      var ab := a + b;
      assert ab[0] == a[0];
      assert ab[1..] == a[1..] + b;
      TiedWithAppend(a[1..], b, le, pivot);
      assert TiedWith(ab, le, pivot)
          == (if Tied(le, pivot, a[0]) then [a[0]] else []) + TiedWith(a[1..] + b, le, pivot);
    }
  }
}
