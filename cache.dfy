/** The memoising cacher: a closure-held dictionary that computes a value on the
    first lookup of a key and returns the stored value on every later one. */
module Cache {

  /** One `cache_result(key, value_func)` call, with the thunk as a pure function. */
  datatype Call<K, V> = Call(key: K, compute: () -> V)

  /** The effect of one call on a cache: the value returned and the cache afterwards. */
  function Step<K, V>(cache: map<K, V>, key: K, compute: () -> V): (res: (V, map<K, V>))
    ensures key in cache ==> res.0 == cache[key] && res.1 == cache
    ensures key !in cache ==> res.0 == compute()
    ensures key in res.1 && res.1[key] == res.0
    ensures res.1.Keys == cache.Keys + {key}
    ensures forall k :: k in cache ==> res.1[k] == cache[k]
  {
    if key in cache then (cache[key], cache)
    else
      var result := compute();
      (result, cache[key := result])
  }

  /** The cache after a sequence of calls. */
  function Replay<K, V>(cache: map<K, V>, calls: seq<Call<K, V>>): map<K, V>
    decreases |calls|
  {
    if calls == [] then cache
    else Replay(Step(cache, calls[0].key, calls[0].compute).1, calls[1..])
  }

  /** Two calls in a row with the same key answer alike, whatever thunks are passed,
      and the second leaves the cache as the first left it. */
  lemma Idempotent<K, V>(cache: map<K, V>, key: K, f: () -> V, g: () -> V)
    ensures Step(Step(cache, key, f).1, key, g) == Step(cache, key, f)
  {
  }

  /** A stored value stays stored, unchanged, through any sequence of calls: no
      eviction, no overwrite. */
  lemma {:induction false} StoredForever<K, V>(cache: map<K, V>, calls: seq<Call<K, V>>, k: K)
    requires k in cache
    ensures k in Replay(cache, calls) && Replay(cache, calls)[k] == cache[k]
    decreases |calls|
  {
    if calls != [] {
      StoredForever(Step(cache, calls[0].key, calls[0].compute).1, calls[1..], k);
    }
  }

  /** The key set only grows: it gains exactly the keys looked up. */
  lemma {:induction false} KeysGrow<K, V>(cache: map<K, V>, calls: seq<Call<K, V>>)
    ensures Replay(cache, calls).Keys == cache.Keys + set i | 0 <= i < |calls| :: calls[i].key
    decreases |calls|
  {
    if calls != [] {
      var next := Step(cache, calls[0].key, calls[0].compute).1;
      KeysGrow(next, calls[1..]);
      var tail := set i | 0 <= i < |calls[1..]| :: calls[1..][i].key;
      var all := set i | 0 <= i < |calls| :: calls[i].key;
      assert all == {calls[0].key} + tail by {
        forall x | x in all ensures x in {calls[0].key} + tail {
          var i :| 0 <= i < |calls| && calls[i].key == x;
          if i > 0 { assert calls[1..][i - 1].key == x; }
        }
        forall x | x in tail ensures x in all {
          var i :| 0 <= i < |calls[1..]| && calls[1..][i].key == x;
          assert calls[i + 1].key == x;
        }
      }
    }
  }

  /** The stored answer is never refreshed: after any intervening calls, a repeat
      lookup returns what the first lookup produced. */
  lemma RepeatAfterAnyCalls<K, V>(cache: map<K, V>, key: K, f: () -> V,
                                  calls: seq<Call<K, V>>, g: () -> V)
    ensures Step(Replay(Step(cache, key, f).1, calls), key, g).0 == Step(cache, key, f).0
  {
    StoredForever(Step(cache, key, f).1, calls, key);
  }

  /** A cacher: `create_cacher()` builds one, `CacheResult` is its `cache_result`. */
  class Cacher<K(==), V> {
    var cache: map<K, V>

    /** Every cacher starts with its own empty cache. */
    constructor ()
      ensures cache == map[]
    {
      cache := map[];
    }

    /** Look `key` up; on a miss compute, store and return the value, on a hit
        return the stored value without computing. */
    method CacheResult(key: K, compute: () -> V) returns (r: V)
      modifies this
      ensures (r, cache) == Step(old(cache), key, compute)
      ensures key in old(cache) ==> r == old(cache)[key] && cache == old(cache)
      ensures key !in old(cache) ==> r == compute() && cache == old(cache)[key := r]
    {
      if key in cache {
        return cache[key];
      }
      r := compute();
      cache := cache[key := r];
    }
  }

  /** Two cachers do not share entries: each computes its own value for the same key. */
  method SeparateCachers<K(==), V>(key: K, f: () -> V, g: () -> V) returns (a: V, b: V)
    ensures a == f() && b == g()
  {
    var first := new Cacher<K, V>();
    var second := new Cacher<K, V>();
    a := first.CacheResult(key, f);
    b := second.CacheResult(key, g);
  }
}
