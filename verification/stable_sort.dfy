/** A stable sort by a numeric key, ascending, as `Array.prototype.sort`
    behaves for a comparator `(a, b) => key(a) - key(b)` (the sort has been
    required to be stable since ECMAScript 2019). The algorithm is
    insertion sort; `SortUnique` shows that the specification fixes the
    output, so any stable sort the JavaScript engine uses gives the same
    sequence. */
module StableSort {
  import opened Sequences

  predicate SortedBy<T>(s: seq<T>, key: T -> real) {
    forall i, j :: 0 <= i < j < |s| ==> key(s[i]) <= key(s[j])
  }

  /** The elements of `s` whose key is `k`, in their order in `s`. Two
      sequences with the same `WithKey` for every `k` hold the same elements
      and order elements with equal keys alike. */
  function WithKey<T>(s: seq<T>, key: T -> real, k: real): seq<T>
  {
    if |s| == 0 then []
    else (if key(s[0]) == k then [s[0]] else []) + WithKey(s[1..], key, k)
  }

  /** `s` and `t` are each other's reordering that keeps equal-key elements
      in the same relative order. */
  ghost predicate StablePermutation<T>(s: seq<T>, t: seq<T>, key: T -> real) {
    forall k :: WithKey(s, key, k) == WithKey(t, key, k)
  }

  lemma WithKeyCons<T>(x: T, s: seq<T>, key: T -> real, k: real)
    ensures WithKey([x] + s, key, k) == (if key(x) == k then [x] else []) + WithKey(s, key, k)
  {
    assert ([x] + s)[1..] == s;
  }

  /** An element no greater than everything in `s` and than `x` is no
      greater than anything in a sequence holding exactly `s` and `x`. */
  lemma LowerBoundKept<T>(y: T, s: seq<T>, x: T, r: seq<T>, key: T -> real)
    requires forall i :: 0 <= i < |s| ==> key(y) <= key(s[i])
    requires key(y) <= key(x)
    requires multiset(r) == multiset(s) + multiset{x}
    ensures forall j :: 0 <= j < |r| ==> key(y) <= key(r[j])
  {
    forall j | 0 <= j < |r|
      ensures key(y) <= key(r[j])
    {
      assert r[j] in multiset(r);
      if r[j] != x {
        assert r[j] in multiset(s);
        var i :| 0 <= i < |s| && s[i] == r[j];
      }
    }
  }

  lemma SortedTail<T>(s: seq<T>, key: T -> real)
    requires |s| > 0 && SortedBy(s, key)
    ensures SortedBy(s[1..], key)
  {
    assert forall i :: 0 <= i < |s[1..]| ==> s[1..][i] == s[i + 1];
  }

  /** Inserts `x` before the first element whose key is not below its own. */
  function Insert<T>(x: T, s: seq<T>, key: T -> real): (r: seq<T>)
    requires SortedBy(s, key)
    ensures |r| == |s| + 1
    ensures SortedBy(r, key)
    ensures multiset(r) == multiset(s) + multiset{x}
  {
    if |s| == 0 || key(x) <= key(s[0]) then
      [x] + s
    else
      HeadTail(s);
      SortedTail(s, key);
      var tail := Insert(x, s[1..], key);
      LowerBoundKept(s[0], s[1..], x, tail, key);
      [s[0]] + tail
  }

  /** Inserting `x` puts it ahead of every element of its own key. */
  lemma {:induction false} InsertWithKey<T>(x: T, s: seq<T>, key: T -> real, k: real)
    requires SortedBy(s, key)
    ensures WithKey(Insert(x, s, key), key, k)
            == (if key(x) == k then [x] else []) + WithKey(s, key, k)
    decreases |s|
  {
    if |s| == 0 || key(x) <= key(s[0]) {
      WithKeyCons(x, s, key, k);
    } else {
      var tail := Insert(x, s[1..], key);
      assert SortedBy(s[1..], key) by {
        assert forall i :: 0 <= i < |s[1..]| ==> s[1..][i] == s[i + 1];
      }
      InsertWithKey(x, s[1..], key, k);
      WithKeyCons(s[0], tail, key, k);
      WithKeyCons(s[0], s[1..], key, k);
      assert s == [s[0]] + s[1..];
    }
  }

  /** The sorted sequence: ascending keys, the same elements, and elements
      with equal keys in their input order. */
  function Sort<T>(s: seq<T>, key: T -> real): (r: seq<T>)
    ensures |r| == |s|
    ensures SortedBy(r, key)
    ensures multiset(r) == multiset(s)
  {
    if |s| == 0 then []
    else
      assert s == [s[0]] + s[1..];
      Insert(s[0], Sort(s[1..], key), key)
  }

  /** `Sort` is stable: for every key, the elements with that key keep their
      input order. */
  lemma {:induction false} SortStable<T>(s: seq<T>, key: T -> real)
    ensures StablePermutation(Sort(s, key), s, key)
    decreases |s|
  {
    if |s| > 0 {
      SortStable(s[1..], key);
      forall k
        ensures WithKey(Sort(s, key), key, k) == WithKey(s, key, k)
      {
        InsertWithKey(s[0], Sort(s[1..], key), key, k);
        WithKeyCons(s[0], s[1..], key, k);
        assert s == [s[0]] + s[1..];
      }
    }
  }

  lemma {:induction false} WithKeyElements<T>(s: seq<T>, key: T -> real, k: real)
    ensures forall x :: x in WithKey(s, key, k) <==> x in s && key(x) == k
  {
    if |s| > 0 {
      WithKeyElements(s[1..], key, k);
      assert s == [s[0]] + s[1..];
    }
  }

  lemma HeadKeyPresent<T>(s: seq<T>, key: T -> real)
    requires |s| > 0
    ensures WithKey(s, key, key(s[0])) != []
  {
  }

  /** Two sorted sequences that agree on `WithKey` start with the same
      element: both start with the first element of the smallest key. */
  lemma SameHead<T>(s: seq<T>, t: seq<T>, key: T -> real)
    requires |s| > 0 && |t| > 0
    requires SortedBy(s, key) && SortedBy(t, key)
    requires forall k :: WithKey(s, key, k) == WithKey(t, key, k)
    ensures s[0] == t[0]
  {
    var ks, kt := key(s[0]), key(t[0]);
    WithKeyElements(s, key, kt);
    WithKeyElements(t, key, ks);
    assert s[0] in WithKey(s, key, ks);
    assert t[0] in WithKey(t, key, kt);
    assert kt <= ks by {
      var x :| x in s && key(x) == kt;
      var i :| 0 <= i < |s| && s[i] == x;
    }
    assert ks <= kt by {
      var x :| x in t && key(x) == ks;
      var i :| 0 <= i < |t| && t[i] == x;
    }
    assert WithKey(s, key, ks)[0] == s[0];
    assert WithKey(t, key, ks)[0] == t[0];
  }

  /** Dropping a common head keeps the two sequences in agreement. */
  lemma SameTailsWithKey<T>(s: seq<T>, t: seq<T>, key: T -> real, k: real)
    requires |s| > 0 && |t| > 0 && s[0] == t[0]
    requires WithKey(s, key, k) == WithKey(t, key, k)
    ensures WithKey(s[1..], key, k) == WithKey(t[1..], key, k)
  {
    var head := if key(s[0]) == k then [s[0]] else [];
    assert WithKey(s, key, k) == head + WithKey(s[1..], key, k);
    assert WithKey(t, key, k) == head + WithKey(t[1..], key, k);
    assert WithKey(s[1..], key, k) == (head + WithKey(s[1..], key, k))[|head|..];
    assert WithKey(t[1..], key, k) == (head + WithKey(t[1..], key, k))[|head|..];
  }

  /** A sorted sequence is fixed by which elements it has of each key and in
      which order: two sorted sequences that agree on `WithKey` everywhere
      are equal. */
  lemma {:induction false} SortUnique<T>(s: seq<T>, t: seq<T>, key: T -> real)
    requires SortedBy(s, key) && SortedBy(t, key)
    requires forall k :: WithKey(s, key, k) == WithKey(t, key, k)
    ensures s == t
    decreases |s|
  {
    if |s| == 0 {
      if |t| > 0 {
        HeadKeyPresent(t, key);
        assert false;
      }
    } else if |t| == 0 {
      HeadKeyPresent(s, key);
      assert false;
    } else {
      SameHead(s, t, key);
      forall k
        ensures WithKey(s[1..], key, k) == WithKey(t[1..], key, k)
      {
        SameTailsWithKey(s, t, key, k);
      }
      SortedTail(s, key);
      SortedTail(t, key);
      SortUnique(s[1..], t[1..], key);
      assert s == [s[0]] + s[1..] && t == [t[0]] + t[1..];
    }
  }

  /** Any stable sort of `s` is `Sort(s, key)`. */
  lemma SortIsTheStableSort<T>(s: seq<T>, t: seq<T>, key: T -> real)
    requires SortedBy(t, key)
    requires forall k :: WithKey(t, key, k) == WithKey(s, key, k)
    ensures t == Sort(s, key)
  {
    SortStable(s, key);
    SortUnique(t, Sort(s, key), key);
  }

  /** A sorted sequence stays sorted under a new head whose key is no
      greater than any of its elements' keys. */
  lemma ConsSorted<T>(x: T, s: seq<T>, key: T -> real)
    requires SortedBy(s, key)
    requires forall j :: 0 <= j < |s| ==> key(x) <= key(s[j])
    ensures SortedBy([x] + s, key)
  {
    assert forall j :: 1 <= j < |s| + 1 ==> ([x] + s)[j] == s[j - 1];
  }

  /** Filtering keeps a sorted sequence sorted. */
  lemma {:induction false} FilterSorted<T>(s: seq<T>, p: T -> bool, key: T -> real)
    requires SortedBy(s, key)
    ensures SortedBy(Filter(s, p), key)
    decreases |s|
  {
    if |s| > 0 {
      SortedTail(s, key);
      FilterSorted(s[1..], p, key);
      var rest := Filter(s[1..], p);
      forall j | 0 <= j < |rest|
        ensures key(s[0]) <= key(rest[j])
      {
        var m :| 0 <= m < |s[1..]| && s[1..][m] == rest[j];
        assert s[m + 1] == rest[j];
      }
      FilterUnfold(s, p);
      if p(s[0]) {
        ConsSorted(s[0], rest, key);
      }
    }
  }

  /** Picking the elements of one key and filtering can be done in either
      order. */
  lemma {:induction false} FilterWithKey<T>(s: seq<T>, p: T -> bool, key: T -> real, k: real)
    ensures WithKey(Filter(s, p), key, k) == Filter(WithKey(s, key, k), p)
    decreases |s|
  {
    if |s| > 0 {
      FilterWithKey(s[1..], p, key, k);
      var rest := Filter(s[1..], p);
      var w := WithKey(s[1..], key, k);
      FilterUnfold(s, p);
      if p(s[0]) {
        assert Filter(s, p) == [s[0]] + rest;
        WithKeyCons(s[0], rest, key, k);
      } else {
        assert Filter(s, p) == rest;
      }
      if key(s[0]) == k {
        assert WithKey(s, key, k) == [s[0]] + w;
        FilterCons(s[0], w, p);
      } else {
        assert WithKey(s, key, k) == w;
        assert WithKey(Filter(s, p), key, k) == WithKey(rest, key, k);
      }
    }
  }

  /** Filtering after a stable sort gives the stable sort of the filtered
      sequence: a sort followed by a filter may be read as a filter followed
      by the sort. */
  lemma SortThenFilter<T>(s: seq<T>, p: T -> bool, key: T -> real)
    ensures Filter(Sort(s, key), p) == Sort(Filter(s, p), key)
  {
    var t := Filter(Sort(s, key), p);
    FilterSorted(Sort(s, key), p, key);
    SortStable(s, key);
    forall k
      ensures WithKey(t, key, k) == WithKey(Filter(s, p), key, k)
    {
      FilterWithKey(Sort(s, key), p, key, k);
      FilterWithKey(s, p, key, k);
    }
    SortIsTheStableSort(Filter(s, p), t, key);
  }

  /** The first element with key `k` that satisfies `p` is the head of the
      filtered `WithKey`: it sits at some position of `s` before which no
      element satisfying `p` has key `k`. */
  lemma {:induction false} FirstWithKey<T>(s: seq<T>, p: T -> bool, key: T -> real, k: real)
    requires WithKey(Filter(s, p), key, k) != []
    ensures exists i :: 0 <= i < |s| && s[i] == WithKey(Filter(s, p), key, k)[0]
                        && p(s[i]) && key(s[i]) == k
                        && forall j :: 0 <= j < i && p(s[j]) ==> key(s[j]) != k
    decreases |s|
  {
    var rest := Filter(s[1..], p);
    FilterUnfold(s, p);
    if p(s[0]) {
      assert Filter(s, p) == [s[0]] + rest;
      WithKeyCons(s[0], rest, key, k);
    } else {
      assert Filter(s, p) == rest;
    }
    if p(s[0]) && key(s[0]) == k {
      assert WithKey(Filter(s, p), key, k)[0] == s[0];
    } else {
      assert WithKey(Filter(s, p), key, k) == WithKey(rest, key, k);
      FirstWithKey(s[1..], p, key, k);
      var i :| 0 <= i < |s[1..]| && s[1..][i] == WithKey(rest, key, k)[0]
                && p(s[1..][i]) && key(s[1..][i]) == k
                && forall j :: 0 <= j < i && p(s[1..][j]) ==> key(s[1..][j]) != k;
      assert s[i + 1] == s[1..][i];
      forall j | 0 <= j < i + 1 && p(s[j])
        ensures key(s[j]) != k
      {
        if j > 0 {
          assert s[j] == s[1..][j - 1];
        }
      }
    }
  }
}
