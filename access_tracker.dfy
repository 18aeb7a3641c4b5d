/** The tracker of per-key access statistics that feeds the eviction policy. */
module Tracking {
  import opened Windows
  import opened JavaInts
  import opened Stats

  class AccessTracker {
    var accessStatsMap: map<string, AccessStats>

    /** Each tracked key owns its own statistics object, made for that key. */
    ghost predicate Valid()
      reads this, accessStatsMap.Values
    {
      forall k :: k in accessStatsMap ==> accessStatsMap[k].key == k && accessStatsMap[k].Valid()
    }

    constructor ()
      ensures Valid() && accessStatsMap == map[]
    {
      accessStatsMap := map[];
    }

    /** The access history of a key, empty while it is not tracked. */
    function HistoryOf(key: string): seq<int>
      reads this, accessStatsMap.Values
    {
      if key in accessStatsMap then accessStatsMap[key].accessTimestamps else []
    }

    /** The hour and day counters of a key, 0 while it is not tracked. */
    function HourCountOf(key: string): int
      reads this, accessStatsMap.Values
    {
      if key in accessStatsMap then accessStatsMap[key].accessCountHour else 0
    }

    function DayCountOf(key: string): int
      reads this, accessStatsMap.Values
    {
      if key in accessStatsMap then accessStatsMap[key].accessCountDay else 0
    }

    /**
     * Records an access at `timestamp` (the caller's clock reading), creating the
     * key's statistics on its first access.
     */
    method RecordAccess(key: string, timestamp: int)
      requires Valid()
      modifies this, accessStatsMap.Values
      ensures Valid()
      ensures accessStatsMap.Keys == old(accessStatsMap.Keys) + {key}
      ensures key in old(accessStatsMap) ==> accessStatsMap[key] == old(accessStatsMap[key])
      ensures key !in old(accessStatsMap) ==> fresh(accessStatsMap[key])
      ensures accessStatsMap[key].accessTimestamps == Retained(old(HistoryOf(key)), timestamp)
      ensures accessStatsMap[key].lastAccessTime == timestamp
      ensures accessStatsMap[key].accessCountHour == WrapInt(old(HourCountOf(key)) + 1)
      ensures accessStatsMap[key].accessCountDay == WrapInt(old(DayCountOf(key)) + 1)
      ensures forall k :: k in old(accessStatsMap) && k != key ==>
                accessStatsMap[k] == old(accessStatsMap[k]) && unchanged(accessStatsMap[k])
    {
      var stats: AccessStats;
      if key in accessStatsMap {
        stats := accessStatsMap[key];
      } else {
        stats := new AccessStats(key);
        accessStatsMap := accessStatsMap[key := stats];
      }
      stats.RecordAccess(timestamp);
    }

    function GetStats(key: string): (s: AccessStats?)
      reads this
      ensures s != null <==> key in accessStatsMap
      ensures s != null ==> s == accessStatsMap[key]
    {
      if key in accessStatsMap then accessStatsMap[key] else null
    }

    /** The retained access times of every tracked key. */
    function AccessHistory(): (h: map<string, seq<int>>)
      reads this, accessStatsMap.Values
      ensures h.Keys == accessStatsMap.Keys
      ensures forall k :: k in h ==> h[k] == HistoryOf(k)
    {
      map k | k in accessStatsMap :: accessStatsMap[k].accessTimestamps
    }

    method RemoveKey(key: string)
      requires Valid()
      modifies this
      ensures Valid()
      ensures accessStatsMap == old(accessStatsMap) - {key}
    {
      accessStatsMap := accessStatsMap - {key};
    }

    /**
     * The periodic decay: every tracked key's window counters are recounted against
     * the hour and the day before `currentTime`; histories are not touched.
     */
    method PerformDecay(currentTime: int)
      requires Valid()
      modifies accessStatsMap.Values
      ensures Valid()
      ensures forall k :: k in accessStatsMap ==>
                accessStatsMap[k].accessTimestamps == old(accessStatsMap[k].accessTimestamps)
                && accessStatsMap[k].lastAccessTime == old(accessStatsMap[k].lastAccessTime)
      ensures forall k :: k in accessStatsMap ==>
                accessStatsMap[k].accessCountHour == CountAtLeast(accessStatsMap[k].accessTimestamps, currentTime - ONE_HOUR_MS)
                && accessStatsMap[k].accessCountDay == CountAtLeast(accessStatsMap[k].accessTimestamps, currentTime - ONE_DAY_MS)
      ensures forall k :: k in accessStatsMap ==> accessStatsMap[k].accessCountHour <= accessStatsMap[k].accessCountDay
    {
      var hourThreshold := currentTime - ONE_HOUR_MS;
      var dayThreshold := currentTime - ONE_DAY_MS;
      var remaining := accessStatsMap.Keys;
      while remaining != {}
        invariant remaining <= accessStatsMap.Keys
        invariant Valid()
        invariant forall k :: k in accessStatsMap ==>
                    accessStatsMap[k].accessTimestamps == old(accessStatsMap[k].accessTimestamps)
                    && accessStatsMap[k].lastAccessTime == old(accessStatsMap[k].lastAccessTime)
        invariant forall k :: k in accessStatsMap && k !in remaining ==>
                    accessStatsMap[k].accessCountHour == CountAtLeast(accessStatsMap[k].accessTimestamps, hourThreshold)
                    && accessStatsMap[k].accessCountDay == CountAtLeast(accessStatsMap[k].accessTimestamps, dayThreshold)
        decreases remaining
      {
        var k :| k in remaining;
        accessStatsMap[k].Decay(currentTime, hourThreshold, dayThreshold);
        remaining := remaining - {k};
      }
      forall k | k in accessStatsMap
        ensures accessStatsMap[k].accessCountHour <= accessStatsMap[k].accessCountDay
      {
        HourWithinDay(accessStatsMap[k].accessTimestamps, currentTime);
      }
    }

    /** The number of tracked keys: 0 exactly when nothing is tracked. */
    function TrackedKeyCount(): (n: int)
      reads this
      ensures n == |accessStatsMap.Keys|
      ensures n == 0 <==> accessStatsMap == map[]
    {
      |accessStatsMap|
    }

    method Clear()
      modifies this
      ensures Valid() && accessStatsMap == map[]
    {
      accessStatsMap := map[];
    }
  }
}
