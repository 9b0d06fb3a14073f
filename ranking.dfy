/**
  What the two recommenders share: the hits a nearest-neighbour search hands
  back, `max(0, x)`, and the stable descending sort that
  `list.sort(key=..., reverse=True)` and `sorted(..., reverse=True)` perform,
  followed by the slice `[:k]`.
 */
module Ranking {

  /** One `(index, similarity)` pair of a vector-index search. */
  datatype Hit = Hit(index: int, similarity: real)

  /**
    Every hit names one of the `n` indexed entries; a negative index counts
    from the end, as Python's indexing does (a search over fewer than `k`
    entries pads its answer with `-1`).
   */
  predicate HitsInRange(hits: seq<Hit>, n: int) {
    forall j :: 0 <= j < |hits| ==> -n <= hits[j].index < n
  }

  /** Python's `s[i]`. */
  function At<T>(s: seq<T>, i: int): (x: T)
    requires -|s| <= i < |s|
    ensures 0 <= i ==> x == s[i]
    ensures i < 0 ==> x == s[|s| + i]
  {
    if i >= 0 then s[i] else s[|s| + i]
  }

  /** Python's `max(0, x)`. */
  function Max0(x: real): (r: real)
    ensures r >= 0.0 && r >= x
    ensures r == 0.0 || r == x
  {
    if x > 0.0 then x else 0.0
  }

  /** Non-increasing in `key`. */
  ghost predicate SortedDesc<T>(s: seq<T>, key: T -> real) {
    forall i, j :: 0 <= i < j < |s| ==> key(s[i]) >= key(s[j])
  }

  /** The elements whose key is `v`, in their order in `s`. */
  function WithKey<T>(s: seq<T>, key: T -> real, v: real): seq<T> {
    if s == [] then [] else (if key(s[0]) == v then [s[0]] else []) + WithKey(s[1..], key, v)
  }

  lemma {:induction false} WithKeyAppend<T>(a: seq<T>, b: seq<T>, key: T -> real, v: real)
    ensures WithKey(a + b, key, v) == WithKey(a, key, v) + WithKey(b, key, v)
  {
    if a == [] {
      assert a + b == b;
    } else {
      var h := if key(a[0]) == v then [a[0]] else [];
      assert (a + b)[0] == a[0];
      assert (a + b)[1..] == a[1..] + b;
      assert WithKey(a + b, key, v) == h + WithKey(a[1..] + b, key, v);
      WithKeyAppend(a[1..], b, key, v);
      assert WithKey(a, key, v) == h + WithKey(a[1..], key, v);
    }
  }

  /** When every key in `s` is below `v`, no element has key `v`. */
  lemma {:induction false} WithKeyNone<T>(s: seq<T>, key: T -> real, v: real)
    requires forall i :: 0 <= i < |s| ==> key(s[i]) < v
    ensures WithKey(s, key, v) == []
  {
    if s != [] {
      WithKeyNone(s[1..], key, v);
    }
  }

  /**
    Insert `x`, which comes after every element of `s` in the original order,
    behind every element whose key is at least its own.
   */
  function Insert<T>(x: T, s: seq<T>, key: T -> real): (r: seq<T>)
    ensures |r| == |s| + 1
    ensures multiset(r) == multiset(s) + multiset{x}
  {
    if s == [] || key(s[0]) < key(x) then [x] + s
    else
      assert s == [s[0]] + s[1..];
      [s[0]] + Insert(x, s[1..], key)
  }

  lemma {:induction false} InsertSorted<T>(x: T, s: seq<T>, key: T -> real)
    requires SortedDesc(s, key)
    ensures SortedDesc(Insert(x, s, key), key)
  {
    if s == [] || key(s[0]) < key(x) {
      assert forall j :: 0 <= j < |s| ==> key(s[j]) <= key(s[0]);
      PrependSorted(x, s, key);
    } else {
      assert s == [s[0]] + s[1..];
      var rest := Insert(x, s[1..], key);
      InsertSorted(x, s[1..], key);
      SortedTail(s, key);
      InsertBounded(x, s[1..], key, key(s[0]));
      PrependSorted(s[0], rest, key);
    }
  }

  lemma SortedTail<T>(s: seq<T>, key: T -> real)
    requires s != [] && SortedDesc(s, key)
    ensures SortedDesc(s[1..], key)
    ensures forall j :: 0 <= j < |s[1..]| ==> key(s[1..][j]) <= key(s[0])
  {
    forall j | 0 <= j < |s[1..]| ensures key(s[1..][j]) <= key(s[0]) {
      assert s[1..][j] == s[j + 1];
    }
  }

  /** A sorted list after a head whose key is at least each of its keys is sorted. */
  lemma PrependSorted<T>(h: T, t: seq<T>, key: T -> real)
    requires SortedDesc(t, key)
    requires forall j :: 0 <= j < |t| ==> key(t[j]) <= key(h)
    ensures SortedDesc([h] + t, key)
  {
    var r := [h] + t;
    forall i, j | 0 <= i < j < |r| ensures key(r[i]) >= key(r[j]) {
      assert r[j] == t[j - 1];
      if i > 0 {
        assert r[i] == t[i - 1];
      }
    }
  }

  /** Inserting keeps every key within a bound that holds for all the elements. */
  lemma InsertBounded<T>(x: T, s: seq<T>, key: T -> real, b: real)
    requires forall j :: 0 <= j < |s| ==> key(s[j]) <= b
    requires key(x) <= b
    ensures forall j :: 0 <= j < |Insert(x, s, key)| ==> key(Insert(x, s, key)[j]) <= b
  {
    var r := Insert(x, s, key);
    forall j | 0 <= j < |r| ensures key(r[j]) <= b {
      assert r[j] in multiset(r);
      if r[j] != x {
        assert r[j] in multiset(s);
        var m :| 0 <= m < |s| && s[m] == r[j];
      }
    }
  }

  /** The stable descending sort by `key`: insertion of each element in turn. */
  function SortDesc<T>(s: seq<T>, key: T -> real): (r: seq<T>)
    ensures |r| == |s|
    ensures multiset(r) == multiset(s)
    ensures SortedDesc(r, key)
  {
    if s == [] then []
    else
      var init, last := s[..|s| - 1], s[|s| - 1];
      assert s == init + [last];
      var sorted := SortDesc(init, key);
      InsertSorted(last, sorted, key);
      Insert(last, sorted, key)
  }

  /** Inserting `x` appends it to the run of elements that share its key. */
  lemma {:induction false} InsertWithKey<T>(x: T, s: seq<T>, key: T -> real, v: real)
    requires SortedDesc(s, key)
    ensures WithKey(Insert(x, s, key), key, v) == WithKey(s, key, v) + (if key(x) == v then [x] else [])
  {
    if s == [] || key(s[0]) < key(x) {
      assert ([x] + s)[1..] == s;
      if key(x) == v {
        WithKeyNone(s, key, v);
      }
    } else {
      InsertWithKey(x, s[1..], key, v);
      assert ([s[0]] + Insert(x, s[1..], key))[1..] == Insert(x, s[1..], key);
    }
  }

  /**
    Stability: the elements with any one key keep the relative order they had
    before sorting. With `SortDesc`'s own contract (sorted, same multiset)
    this fixes the result completely.
   */
  lemma {:induction false} SortDescStable<T>(s: seq<T>, key: T -> real, v: real)
    ensures WithKey(SortDesc(s, key), key, v) == WithKey(s, key, v)
    decreases |s|
  {
    if s != [] {
      var init, last := s[..|s| - 1], s[|s| - 1];
      var tail := if key(last) == v then [last] else [];
      assert SortDesc(s, key) == Insert(last, SortDesc(init, key), key);
      assert WithKey([last], key, v) == tail by {
        assert [last][1..] == [];
      }
      calc {
        WithKey(SortDesc(s, key), key, v);
        == { InsertWithKey(last, SortDesc(init, key), key, v); }
        WithKey(SortDesc(init, key), key, v) + tail;
        == { SortDescStable(init, key, v); }
        WithKey(init, key, v) + tail;
        == { WithKeyAppend(init, [last], key, v); }
        WithKey(init + [last], key, v);
        == { assert init + [last] == s; }
        WithKey(s, key, v);
      }
    }
  }

  /** Python's `s[:k]` for `k >= 0`. */
  function Prefix<T>(s: seq<T>, k: nat): (r: seq<T>)
    ensures |r| == if k < |s| then k else |s|
    ensures r == s[..|r|]
  {
    if k < |s| then s[..k] else s
  }

  /** `s` starts with `p`. */
  ghost predicate IsPrefix<T>(p: seq<T>, s: seq<T>) {
    |p| <= |s| && s[..|p|] == p
  }

  /**
    Cutting a stably sorted list short keeps its ordering and, within one key,
    the first elements in their original order.
   */
  lemma {:induction false} PrefixSortedStable<T>(s: seq<T>, key: T -> real, k: nat, v: real)
    requires SortedDesc(s, key)
    ensures SortedDesc(Prefix(s, k), key)
    ensures IsPrefix(WithKey(Prefix(s, k), key, v), WithKey(s, key, v))
  {
    var p := Prefix(s, k);
    assert s == p + s[|p|..];
    WithKeyAppend(p, s[|p|..], key, v);
  }

  /**
    `sorted(s, key=key, reverse=True)[:k]`: at most `k` elements, highest key
    first, each one from `s`, and within one key the first ones of `s` in
    their original order.
   */
  function TopK<T>(s: seq<T>, key: T -> real, k: nat): (r: seq<T>)
    ensures |r| == if k < |s| then k else |s|
    ensures SortedDesc(r, key)
    ensures forall v :: IsPrefix(WithKey(r, key, v), WithKey(s, key, v))
    ensures forall x :: x in r ==> x in s
  {
    var sorted := SortDesc(s, key);
    var r := Prefix(sorted, k);
    PrefixSortedStable(sorted, key, k, 0.0);
    assert forall v :: IsPrefix(WithKey(r, key, v), WithKey(s, key, v)) by {
      forall v ensures IsPrefix(WithKey(r, key, v), WithKey(s, key, v)) {
        PrefixSortedStable(sorted, key, k, v);
        SortDescStable(s, key, v);
      }
    }
    assert forall x :: x in r ==> x in s by {
      forall x | x in r ensures x in s {
        assert x in multiset(sorted);
      }
    }
    r
  }

  /**
    The cut keeps the best: the kept elements are drawn from `s` (with
    multiplicity), and no element left out has a higher key than a kept one.
   */
  lemma TopKKeepsBest<T>(s: seq<T>, key: T -> real, k: nat)
    ensures multiset(TopK(s, key, k)) <= multiset(s)
    ensures forall x, y :: x in TopK(s, key, k) && y in multiset(s) - multiset(TopK(s, key, k)) ==> key(y) <= key(x)
  {
    var t := SortDesc(s, key);
    var r := Prefix(t, k);
    assert r == TopK(s, key, k);
    var rest := t[|r|..];
    assert t == r + rest;
    assert multiset(t) == multiset(r) + multiset(rest);
    forall x, y | x in r && y in multiset(s) - multiset(r) ensures key(y) <= key(x) {
      assert y in multiset(rest);
      assert y in rest;
      var i :| 0 <= i < |r| && r[i] == x;
      var j :| 0 <= j < |rest| && rest[j] == y;
      assert t[i] == x && t[|r| + j] == y;
    }
  }
}
