/** The request-keyed completion cache (github-issues/js/src/index.ts,
    `cachedChatCompletion`).

    The store is the `cache` table: an append-only list of (request,
    response) rows with no uniqueness constraint. A lookup that finds a row
    returns its response without calling upstream; otherwise upstream is
    called once, and on success one row is appended and the response
    returned. An upstream failure propagates and stores nothing. There is no
    retry, timeout or backoff.

    The key is the request itself: `JSON.stringify` is taken to be
    injective on requests, and a stored response to read back as the value
    that was stored. */
module ResponseCache {
  import opened Wrappers

  datatype Row<K, V> = Row(key: K, response: V)

  /** What one call hands back: the response or the upstream error, the
      store afterwards, and the requests sent upstream. */
  datatype Outcome<K, V, E> = Outcome(result: Result<V, E>, store: seq<Row<K, V>>, calls: seq<K>)

  /** `SELECT response FROM "cache" WHERE params=?`: the first row with the
      key, if any. */
  function Lookup<K(==), V>(store: seq<Row<K, V>>, key: K): (r: Option<V>)
    ensures r.None? <==> forall i :: 0 <= i < |store| ==> store[i].key != key
    ensures r.Some? ==> exists i :: 0 <= i < |store| && store[i] == Row(key, r.value)
  {
    if |store| == 0 then None
    else if store[0].key == key then Some(store[0].response)
    else
      var r := Lookup(store[1..], key);
      assert forall i :: 1 <= i < |store| ==> store[i] == store[1..][i - 1];
      r
  }

  /** `cachedChatCompletion` for one request, with `upstream` standing for
      the throttled completion call. */
  function GetOrCompute<K(==), V, E>(store: seq<Row<K, V>>, key: K, upstream: K -> Result<V, E>)
    : (r: Outcome<K, V, E>)
    // a hit: the stored response, no upstream call, the store unchanged
    ensures Lookup(store, key).Some? ==>
              r == Outcome(Success(Lookup(store, key).value), store, [])
    // a miss: exactly one upstream call for this request
    ensures Lookup(store, key).None? ==> r.calls == [key]
    // a successful miss appends one row and returns what upstream gave
    ensures Lookup(store, key).None? && upstream(key).Success? ==>
              r.result == upstream(key) && r.store == store + [Row(key, upstream(key).value)]
    // a failed miss propagates the error and stores nothing
    ensures Lookup(store, key).None? && upstream(key).Failure? ==>
              r.result == upstream(key) && r.store == store
  {
    match Lookup(store, key)
    case Some(v) => Outcome(Success(v), store, [])
    case None =>
      match upstream(key)
      case Failure(e) => Outcome(Failure(e), store, [key])
      case Success(v) => Outcome(Success(v), store + [Row(key, v)], [key])
  }

  /** No two rows share a key. */
  ghost predicate NoDuplicateKeys<K, V>(store: seq<Row<K, V>>) {
    forall i, j :: 0 <= i < j < |store| ==> store[i].key != store[j].key
  }

  /** Every stored row holds what upstream answers for its key. */
  ghost predicate Consistent<K, V, E>(store: seq<Row<K, V>>, upstream: K -> Result<V, E>) {
    forall i :: 0 <= i < |store| ==> upstream(store[i].key) == Success(store[i].response)
  }

  /** Rows are only ever appended: the old store is a prefix of the new. */
  lemma AppendOnly<K, V, E>(store: seq<Row<K, V>>, key: K, upstream: K -> Result<V, E>)
    ensures store <= GetOrCompute(store, key, upstream).store
    ensures |GetOrCompute(store, key, upstream).store| <= |store| + 1
  {
  }

  /** A call never stores a second row for a key already present. */
  lemma KeepsKeysUnique<K, V, E>(store: seq<Row<K, V>>, key: K, upstream: K -> Result<V, E>)
    requires NoDuplicateKeys(store)
    ensures NoDuplicateKeys(GetOrCompute(store, key, upstream).store)
  {
  }

  /** Asking again is a hit: after a successful call the same request is
      answered from the store with the same response and no upstream call. */
  lemma SecondCallIsHit<K, V, E>(store: seq<Row<K, V>>, key: K, upstream: K -> Result<V, E>)
    requires GetOrCompute(store, key, upstream).result.Success?
    ensures var first := GetOrCompute(store, key, upstream);
            GetOrCompute(first.store, key, upstream)
              == Outcome(first.result, first.store, [])
  {
    var first := GetOrCompute(store, key, upstream);
    if Lookup(store, key).None? {
      var s' := store + [Row(key, upstream(key).value)];
      assert s'[|store|] == Row(key, upstream(key).value);
      LookupFirst(s', key, |store|);
    }
  }

  /** Looking up a key that first occurs at `n` returns the row at `n`. */
  lemma {:induction false} LookupFirst<K, V>(store: seq<Row<K, V>>, key: K, n: nat)
    requires n < |store| && store[n].key == key
    requires forall i :: 0 <= i < n ==> store[i].key != key
    ensures Lookup(store, key) == Some(store[n].response)
  {
    if n > 0 {
      LookupFirst(store[1..], key, n - 1);
    }
  }

  /** The cache is transparent: over a store that agrees with upstream, a
      call answers exactly what upstream would, and the store keeps
      agreeing with it. */
  lemma Transparent<K, V, E>(store: seq<Row<K, V>>, key: K, upstream: K -> Result<V, E>)
    requires Consistent(store, upstream)
    ensures GetOrCompute(store, key, upstream).result == upstream(key)
    ensures Consistent(GetOrCompute(store, key, upstream).store, upstream)
  {
  }

  // ---------------------------------------------------------------------
  // A sequential run
  // ---------------------------------------------------------------------

  datatype RunOutcome<K, V, E> = RunOutcome(results: seq<Result<V, E>>, store: seq<Row<K, V>>, calls: seq<K>)

  /** Requests answered one after another, each call seeing the store the
      previous one left. */
  function Run<K(==), V, E>(store: seq<Row<K, V>>, keys: seq<K>, upstream: K -> Result<V, E>)
    : (r: RunOutcome<K, V, E>)
    ensures |r.results| == |keys|
    ensures |r.calls| <= |keys|
    ensures store <= r.store
    decreases |keys|
  {
    if |keys| == 0 then RunOutcome([], store, [])
    else
      var first := GetOrCompute(store, keys[0], upstream);
      var rest := Run(first.store, keys[1..], upstream);
      RunOutcome([first.result] + rest.results, rest.store, first.calls + rest.calls)
  }

  /** No sequential run stores two rows with the same key. */
  lemma {:induction false} RunKeepsKeysUnique<K, V, E>(store: seq<Row<K, V>>, keys: seq<K>,
                                                           upstream: K -> Result<V, E>)
    requires NoDuplicateKeys(store)
    ensures NoDuplicateKeys(Run(store, keys, upstream).store)
    decreases |keys|
  {
    if |keys| > 0 {
      var first := GetOrCompute(store, keys[0], upstream);
      KeepsKeysUnique(store, keys[0], upstream);
      RunKeepsKeysUnique(first.store, keys[1..], upstream);
    }
  }

  /** Over a store that agrees with upstream, every answer in a run is what
      upstream would have given. */
  lemma {:induction false} RunTransparent<K, V, E>(store: seq<Row<K, V>>, keys: seq<K>,
                                                       upstream: K -> Result<V, E>)
    requires Consistent(store, upstream)
    ensures var r := Run(store, keys, upstream);
            forall i :: 0 <= i < |keys| ==> r.results[i] == upstream(keys[i])
    ensures Consistent(Run(store, keys, upstream).store, upstream)
    decreases |keys|
  {
    if |keys| > 0 {
      var first := GetOrCompute(store, keys[0], upstream);
      Transparent(store, keys[0], upstream);
      RunTransparent(first.store, keys[1..], upstream);
      var rest := Run(first.store, keys[1..], upstream);
      var r := Run(store, keys, upstream);
      assert r.results == [first.result] + rest.results;
      assert forall i :: 1 <= i < |keys| ==> r.results[i] == rest.results[i - 1] && keys[i] == keys[1..][i - 1];
    }
  }

  /** A request is only sent upstream when the store had no row for it at
      the start of the run. */
  lemma {:induction false} RunCallsOnlyMisses<K, V, E>(store: seq<Row<K, V>>, keys: seq<K>,
                                                           upstream: K -> Result<V, E>)
    ensures forall c :: c in Run(store, keys, upstream).calls ==> Lookup(store, c).None?
    decreases |keys|
  {
    if |keys| > 0 {
      var first := GetOrCompute(store, keys[0], upstream);
      RunCallsOnlyMisses(first.store, keys[1..], upstream);
      AppendOnly(store, keys[0], upstream);
      forall c | Lookup(first.store, c).None?
        ensures Lookup(store, c).None?
      {
        assert forall i :: 0 <= i < |store| ==> store[i] == first.store[i];
      }
    }
  }

  /** No request occurs twice. */
  ghost predicate Distinct<K>(s: seq<K>) {
    forall i, j :: 0 <= i < j < |s| ==> s[i] != s[j]
  }

  /** When upstream never fails, each request is sent upstream at most
      once in a run, however often it is asked. */
  lemma {:induction false} RunCallsEachKeyOnce<K, V, E>(store: seq<Row<K, V>>, keys: seq<K>,
                                                            upstream: K -> Result<V, E>)
    requires forall k :: upstream(k).Success?
    ensures Distinct(Run(store, keys, upstream).calls)
    decreases |keys|
  {
    if |keys| > 0 {
      var first := GetOrCompute(store, keys[0], upstream);
      var rest := Run(first.store, keys[1..], upstream);
      RunCallsEachKeyOnce(first.store, keys[1..], upstream);
      RunCallsOnlyMisses(first.store, keys[1..], upstream);
      var calls := first.calls + rest.calls;
      assert Run(store, keys, upstream).calls == calls;
      if first.calls == [keys[0]] {
        var n := |store|;
        assert first.store[n] == Row(keys[0], upstream(keys[0]).value);
        assert Lookup(first.store, keys[0]).Some?;
        assert keys[0] !in rest.calls;
        forall i, j | 0 <= i < j < |calls|
          ensures calls[i] != calls[j]
        {
          if i == 0 {
            assert calls[0] == keys[0];
            assert calls[j] == rest.calls[j - 1] && rest.calls[j - 1] in rest.calls;
          } else {
            assert calls[i] == rest.calls[i - 1] && calls[j] == rest.calls[j - 1];
          }
        }
      } else {
        assert calls == rest.calls;
      }
    }
  }
}
