/**
 * The simple in-memory cache: entries by key, at most `maxSize` of them, the one
 * read least recently evicted when a put overflows.
 */
module Cache {
  import opened Wrappers
  import opened JavaInts
  import opened CacheEntries

  class CacheStore {
    var store: map<string, CacheEntry>
    const maxSize: int

    /** Each entry is filed under its own key and under no other. */
    ghost predicate Valid()
      reads this, store.Values
    {
      && (forall k :: k in store ==> store[k].key == k)
      && (forall k, j :: k in store && j in store && k != j ==> store[k] != store[j])
    }

    /** The value held under each key. */
    function Contents(): (m: map<string, string>)
      reads this, store.Values
      ensures m.Keys == store.Keys
    {
      map k | k in store :: store[k].value
    }

    /** The last access time of each key's entry. */
    function AccessTimes(): (m: map<string, int>)
      reads this, store.Values
      ensures m.Keys == store.Keys
    {
      map k | k in store :: store[k].lastAccessTime
    }

    constructor (maxSize: int)
      ensures Valid() && store == map[] && this.maxSize == maxSize
    {
      store := map[];
      this.maxSize := maxSize;
    }

    /**
     * A put files a new entry made at `now` under the key; when the cache then holds
     * more than `maxSize` entries, one entry read least recently is evicted, unless
     * none was read before the greatest `long` time.
     */
    method Put(key: string, value: string, now: int) returns (ghost evicted: Option<string>)
      requires Valid()
      modifies this
      ensures Valid()
      ensures var added := old(Contents())[key := value];
              Contents() == if evicted.Some? then added - {evicted.value} else added
      ensures var added := old(AccessTimes())[key := now];
              && (evicted.Some? ==> evicted.value in added && forall k :: k in added ==> added[evicted.value] <= added[k])
              && (evicted.None? <==> |added| <= maxSize || forall k :: k in added ==> added[k] >= LONG_MAX)
              && AccessTimes() == if evicted.Some? then added - {evicted.value} else added
      ensures |old(store)| <= maxSize && now < LONG_MAX ==> |store| <= maxSize
    {
      File(key, value, now);
      evicted := None;
      if |store| > maxSize {
        evicted := Evict();
      }
      if |old(store)| <= maxSize && now < LONG_MAX {
        PutKeepsBound(old(AccessTimes()), key, now, maxSize, evicted, AccessTimes());
      }
    }

    /** Files a new entry made at `now` under the key, replacing any entry there. */
    method File(key: string, value: string, now: int)
      requires Valid()
      modifies this
      ensures Valid()
      ensures Contents() == old(Contents())[key := value]
      ensures AccessTimes() == old(AccessTimes())[key := now]
      ensures |AccessTimes()| == |store|
    {
      var entry := new CacheEntry(key, value, now);
      ghost var before := store;
      store := store[key := entry];
      forall k | k in store
        ensures store[k].key == k
        ensures k != key ==> store[k] == before[k] && store[k] != entry
      {
      }
      forall k | k in store
        ensures Contents()[k] == old(Contents())[key := value][k]
        ensures AccessTimes()[k] == old(AccessTimes())[key := now][k]
      {
      }
      assert Contents().Keys == old(Contents())[key := value].Keys;
      assert AccessTimes().Keys == old(AccessTimes())[key := now].Keys;
      assert AccessTimes().Keys == store.Keys;
      assert |AccessTimes()| == |AccessTimes().Keys| == |store.Keys| == |store|;
    }

    /** A read: the value under the key, if any; the entry found records the access. */
    method Get(key: string, now: int) returns (value: Option<string>)
      requires Valid()
      modifies store.Values
      ensures Valid() && store == old(store)
      ensures value == if key in old(Contents()) then Some(old(Contents())[key]) else None
      ensures Contents() == old(Contents())
      ensures AccessTimes() == if key in old(store) then old(AccessTimes())[key := now] else old(AccessTimes())
    {
      if key in store {
        var entry := store[key];
        entry.UpdateAccessTime(now);
        assert forall k :: k in store && k != key ==> store[k] != entry;
        return Some(entry.value);
      }
      return None;
    }

    method Delete(key: string)
      requires Valid()
      modifies this
      ensures Valid()
      ensures Contents() == old(Contents()) - {key} && AccessTimes() == old(AccessTimes()) - {key}
    {
      store := store - {key};
    }

    /**
     * Removes an entry whose last access is earliest, the first one met in the map's
     * order; none when no entry was accessed before the greatest `long` time.
     */
    method Evict() returns (ghost evicted: Option<string>)
      requires Valid()
      modifies this
      ensures Valid()
      ensures evicted.None? <==> forall k :: k in old(store) ==> old(AccessTimes())[k] >= LONG_MAX
      ensures evicted.Some? ==>
                && evicted.value in old(store)
                && (forall k :: k in old(store) ==> old(AccessTimes())[evicted.value] <= old(AccessTimes())[k])
      ensures Contents() == if evicted.Some? then old(Contents()) - {evicted.value} else old(Contents())
      ensures AccessTimes() == if evicted.Some? then old(AccessTimes()) - {evicted.value} else old(AccessTimes())
    {
      var oldestKey: Option<string> := None;
      var oldestTime := LONG_MAX;
      var remaining := store.Keys;
      while remaining != {}
        invariant remaining <= store.Keys
        invariant oldestKey.None? <==> forall k :: k in store.Keys - remaining ==> store[k].lastAccessTime >= LONG_MAX
        invariant oldestKey.None? ==> oldestTime == LONG_MAX
        invariant oldestKey.Some? ==> oldestKey.value in store.Keys - remaining && oldestTime == store[oldestKey.value].lastAccessTime
        invariant forall k :: k in store.Keys - remaining ==> oldestTime <= store[k].lastAccessTime
        decreases remaining
      {
        var k :| k in remaining;
        if store[k].lastAccessTime < oldestTime {
          oldestTime := store[k].lastAccessTime;
          oldestKey := Some(k);
        }
        remaining := remaining - {k};
      }
      if oldestKey.Some? {
        var removed := oldestKey.value;
        store := store - {removed};
        assert Contents().Keys == (old(Contents()) - {removed}).Keys;
        assert AccessTimes().Keys == (old(AccessTimes()) - {removed}).Keys;
      }
      evicted := oldestKey;
    }

    function Size(): (n: nat)
      reads this
      ensures n == |store|
    {
      |store|
    }

    method Clear()
      modifies this
      ensures Valid() && Contents() == map[] && Size() == 0
    {
      store := map[];
    }
  }

  /**
   * A put keeps the cache within its bound: from at most `maxSize` entries, and with
   * a put time below the greatest `long`, the cache holds at most `maxSize` after it.
   */
  lemma PutKeepsBound(before: map<string, int>, key: string, now: int, maxSize: int, evicted: Option<string>, after: map<string, int>)
    requires |before| <= maxSize && now < LONG_MAX
    requires var added := before[key := now];
             && (evicted.None? <==> |added| <= maxSize || forall k :: k in added ==> added[k] >= LONG_MAX)
             && (evicted.Some? ==> evicted.value in added)
             && after == if evicted.Some? then added - {evicted.value} else added
    ensures |after| <= maxSize
  {
    var added := before[key := now];
    assert |added| <= |before| + 1 by {
      if key in before {
        assert added.Keys == before.Keys;
        assert |added| == |added.Keys| == |before.Keys| == |before|;
      } else {
        assert added.Keys == before.Keys + {key};
        assert |added| == |added.Keys| == |before.Keys| + 1 == |before| + 1;
      }
    }
    if evicted.Some? {
      assert after.Keys == added.Keys - {evicted.value};
      assert |after| == |after.Keys| == |added.Keys| - 1 == |added| - 1;
    } else {
      assert key in added && added[key] < LONG_MAX;
    }
  }
}
