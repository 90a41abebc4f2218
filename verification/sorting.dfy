/**
  Ordering by a count, descending, and taking the first k elements: the
  `List.Sort` with a reversed comparison followed by `Take(k)` that ImageUtils
  uses for colours and for clusters.

  `List.Sort` is an unstable introsort, so the order of equal counts is not
  specified by the source; the contracts here promise only what every
  correct sort gives (sorted, and a permutation of its input).  The insertion
  sort below is one such sort.
*/
module Sorting {

  /** The elements are in non-increasing key order. */
  ghost predicate SortedDesc<T>(s: seq<T>, key: T -> int) {
    forall i, j :: 0 <= i < j < |s| ==> key(s[j]) <= key(s[i])
  }

  /** Inserts `x` into a sequence sorted in non-increasing key order. */
  function Insert<T>(x: T, s: seq<T>, key: T -> int): (r: seq<T>)
    requires SortedDesc(s, key)
    ensures SortedDesc(r, key)
    ensures multiset(r) == multiset(s) + multiset{x}
    ensures |r| == |s| + 1
  {
    if |s| == 0 || key(s[0]) <= key(x) then
      [x] + s
    else
      var t := Insert(x, s[1..], key);
      var u := s[1..] + [x];
      assert s == [s[0]] + s[1..];
      assert multiset(t) == multiset(u);
      BoundedByMultiset(t, u, key, key(s[0]));
      [s[0]] + t
  }

  /** Keys bounded over `u` stay bounded over anything drawn from `u`. */
  lemma BoundedByMultiset<T>(t: seq<T>, u: seq<T>, key: T -> int, b: int)
    requires multiset(t) <= multiset(u)
    requires forall i :: 0 <= i < |u| ==> key(u[i]) <= b
    ensures forall j :: 0 <= j < |t| ==> key(t[j]) <= b
  {
    forall j | 0 <= j < |t|
      ensures key(t[j]) <= b
    {
      var i := IndexInSuperset(t, u, j);
    }
  }

  /** A permutation of `s` in non-increasing key order. */
  function SortDesc<T>(s: seq<T>, key: T -> int): (r: seq<T>)
    ensures SortedDesc(r, key)
    ensures multiset(r) == multiset(s)
    ensures |r| == |s|
  {
    if |s| == 0 then []
    else
      assert s == [s[0]] + s[1..];
      Insert(s[0], SortDesc(s[1..], key), key)
  }

  /**
    The first `k` elements by key, descending: `Sort` then `Take(k)`.  Every
    element left out has a key no larger than any element kept.
  */
  function TopK<T(!new)>(s: seq<T>, k: int, key: T -> int): (r: seq<T>)
    ensures |r| == if k < 0 then 0 else if k < |s| then k else |s|
    ensures SortedDesc(r, key)
    ensures multiset(r) <= multiset(s)
    ensures forall x :: multiset(r)[x] < multiset(s)[x] ==>
              forall j :: 0 <= j < |r| ==> key(x) <= key(r[j])
  {
    var sorted := SortDesc(s, key);
    var n := if k < 0 then 0 else if k < |s| then k else |s|;
    TakeOfSorted(sorted, n, key);
    sorted[..n]
  }

  /** Cutting a sorted sequence leaves nothing behind that outranks what is kept. */
  lemma TakeOfSorted<T(!new)>(sorted: seq<T>, n: nat, key: T -> int)
    requires SortedDesc(sorted, key)
    requires n <= |sorted|
    ensures SortedDesc(sorted[..n], key)
    ensures multiset(sorted[..n]) <= multiset(sorted)
    ensures forall x :: multiset(sorted[..n])[x] < multiset(sorted)[x] ==>
              forall j :: 0 <= j < n ==> key(x) <= key(sorted[j])
  {
    var r, rest := sorted[..n], sorted[n..];
    assert sorted == r + rest;
    assert multiset(sorted) == multiset(r) + multiset(rest);
    forall x | multiset(r)[x] < multiset(sorted)[x]
      ensures forall j :: 0 <= j < n ==> key(x) <= key(sorted[j])
    {
      assert x in multiset(rest);
      var i :| 0 <= i < |rest| && rest[i] == x;
      assert sorted[n + i] == x;
    }
  }

  /** An element of a sub-multiset sits at some index of the larger sequence. */
  lemma IndexInSuperset<T>(a: seq<T>, c: seq<T>, i: nat) returns (j: nat)
    requires multiset(a) <= multiset(c) && i < |a|
    ensures j < |c| && c[j] == a[i]
  {
    assert a[i] in multiset(a);
    assert a[i] in multiset(c);
    j :| 0 <= j < |c| && c[j] == a[i];
  }
  /** The indices are pairwise different. */
  predicate DistinctIndices(js: seq<nat>) {
    forall i, k :: 0 <= i < k < |js| ==> js[i] != js[k]
  }

  /**
    `js` places `a` at pairwise different indices of `c`, one per element,
    and an index of `c` left unused holds an element of which `a` has fewer
    copies than `c`.
  */
  ghost predicate PlacedAt<T>(a: seq<T>, c: seq<T>, js: seq<nat>) {
    && |js| == |a| && DistinctIndices(js)
    && (forall i :: 0 <= i < |js| ==> js[i] < |c| && c[js[i]] == a[i])
    && (forall j :: 0 <= j < |c| && j !in js ==> multiset(a)[c[j]] < multiset(c)[c[j]])
  }

  /** A sub-multiset of `c` can be placed at pairwise different indices of `c`. */
  lemma {:induction false} SubMultisetIndices<T>(a: seq<T>, c: seq<T>) returns (js: seq<nat>)
    requires multiset(a) <= multiset(c)
    ensures PlacedAt(a, c, js)
    decreases |c|, 1
  {
    if |c| == 0 {
      assert |multiset(a)| == 0;
      js := [];
    } else if c[|c| - 1] !in multiset(a) {
      js := PlaceSkippingLast(a, c);
    } else {
      js := PlaceMatchingLast(a, c);
    }
  }

  /** The last element of `c` is not in `a`: place `a` in the rest of `c`. */
  lemma {:induction false} PlaceSkippingLast<T>(a: seq<T>, c: seq<T>) returns (js: seq<nat>)
    requires multiset(a) <= multiset(c) && |c| > 0 && c[|c| - 1] !in multiset(a)
    ensures PlacedAt(a, c, js)
    decreases |c|, 0
  {
    var c', y := c[..|c| - 1], c[|c| - 1];
    assert c == c' + [y];
    js := SubMultisetIndices(a, c');
    forall j | 0 <= j < |c| && j !in js
      ensures multiset(a)[c[j]] < multiset(c)[c[j]]
    {
      if j == |c'| {
        assert c[j] == y;
      } else {
        assert c[j] == c'[j];
      }
    }
  }

  /** The last element of `c` is `a[k]` for some `k`: it takes the last index. */
  lemma {:induction false} PlaceMatchingLast<T>(a: seq<T>, c: seq<T>) returns (js: seq<nat>)
    requires multiset(a) <= multiset(c) && |c| > 0 && c[|c| - 1] in multiset(a)
    ensures PlacedAt(a, c, js)
    decreases |c|, 0
  {
    var c', y := c[..|c| - 1], c[|c| - 1];
    assert c == c' + [y];
    var k :| 0 <= k < |a| && a[k] == y;
    var a' := RemoveAt(a, k);
    assert multiset(c) == multiset(c') + multiset{y};
    assert forall x :: multiset(a')[x] <= multiset(c')[x] by {
      forall x ensures multiset(a')[x] <= multiset(c')[x] {
        assert multiset(a)[x] <= multiset(c)[x];
      }
    }
    var js' := SubMultisetIndices(a', c');
    js := InsertAt(js', k, |c'|);
    forall i | 0 <= i < |js|
      ensures js[i] < |c| && c[js[i]] == a[i]
    {
      if i < k {
        assert js[i] == js'[i] && a'[i] == a[i];
      } else if i > k {
        assert js[i] == js'[i - 1] && a'[i - 1] == a[i];
      }
    }
    forall j | 0 <= j < |c| && j !in js
      ensures multiset(a)[c[j]] < multiset(c)[c[j]]
    {
      assert j != |c'| && j !in js';
      assert c[j] == c'[j];
    }
  }

  /** `s` without its element at `k`, which the multiset loses one copy of. */
  function RemoveAt<T>(s: seq<T>, k: nat): (r: seq<T>)
    requires k < |s|
    ensures |r| == |s| - 1
    ensures forall i :: 0 <= i < k ==> r[i] == s[i]
    ensures forall i :: k < i < |s| ==> r[i - 1] == s[i]
    ensures multiset(s) == multiset(r) + multiset{s[k]}
  {
    assert s == s[..k] + [s[k]] + s[k + 1..];
    s[..k] + s[k + 1..]
  }

  /** The index `n`, larger than all of `js`, inserted at position `k`. */
  function InsertAt(js: seq<nat>, k: nat, n: nat): (r: seq<nat>)
    requires k <= |js| && DistinctIndices(js)
    requires forall i :: 0 <= i < |js| ==> js[i] < n
    ensures |r| == |js| + 1 && r[k] == n && DistinctIndices(r)
    ensures forall i :: 0 <= i < k ==> r[i] == js[i]
    ensures forall i :: k < i < |r| ==> r[i] == js[i - 1]
    ensures forall i :: 0 <= i < |js| ==> js[i] in r
  {
    var r := js[..k] + [n] + js[k..];
    forall i, l | 0 <= i < l < |r|
      ensures r[i] != r[l]
    {
      if l < k {
        assert r[i] == js[i] && r[l] == js[l];
      } else if i > k {
        assert r[i] == js[i - 1] && r[l] == js[l - 1];
      } else if i < k && l > k {
        assert r[i] == js[i] && r[l] == js[l - 1];
      }
    }
    forall i | 0 <= i < |js|
      ensures js[i] in r
    {
      if i < k {
        assert r[i] == js[i];
      } else {
        assert r[i + 1] == js[i];
      }
    }
    r
  }
}
