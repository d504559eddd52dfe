/**
 * The in-memory key-value cache of noor_app/performance.py.
 */
module Performance {

  /** `dict.get(key, default)`. */
  function Find<K, V>(cache: map<K, V>, key: K, default: V): (r: V)
    ensures key in cache ==> r == cache[key]
    ensures key !in cache ==> r == default
  {
    if key in cache then cache[key] else default
  }

  class CacheManager<K(==), V> {
    var cache: map<K, V>

    /** A new manager holds nothing. */
    constructor ()
      ensures cache == map[]
    {
      cache := map[];
    }

    /** `get(key, default)`: the stored value, or `default` for a missing key. */
    function Get(key: K, default: V): (r: V)
      reads this
      ensures key in cache ==> r == cache[key]
      ensures key !in cache ==> r == default
    {
      Find(cache, key, default)
    }

    /** `set(key, value)`: store `value` under `key`, replacing any earlier value. */
    method Set(key: K, value: V)
      modifies this
      ensures cache == old(cache)[key := value]
    {
      cache := cache[key := value];
    }

    /** `clear()`: remove every entry. */
    method Clear()
      modifies this
      ensures cache == map[]
    {
      cache := map[];
    }
  }

  /** After storing `value` under `key`, a lookup of `key` yields `value` and every other key is unaffected. */
  lemma FindAfterStore<K, V>(cache: map<K, V>, key: K, value: V, other: K, default: V)
    ensures Find(cache[key := value], key, default) == value
    ensures other != key ==> Find(cache[key := value], other, default) == Find(cache, other, default)
  {
  }

  /** Storing twice under one key keeps only the second value. */
  lemma StoreOverwrites<K, V>(cache: map<K, V>, key: K, first: V, second: V)
    ensures cache[key := first][key := second] == cache[key := second]
  {
  }

  /** After clearing, every lookup yields its default. */
  lemma FindAfterClear<K, V>(key: K, default: V)
    ensures Find(map[], key, default) == default
  {
  }
}
