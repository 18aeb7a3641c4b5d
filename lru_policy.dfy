/** Least-recently-used eviction over the times this policy has recorded. */
module LRU {
  import opened Wrappers
  import opened Sorting

  datatype KeyTime = KeyTime(key: string, time: int)

  function TimeRank(e: KeyTime): real { e.time as real }

  /** The recorded access time of a key, 0 for a key never recorded. */
  function TimeOf(times: map<string, int>, key: string): int
  {
    GetOrDefault(times, key, 0)
  }

  function KeysOf(es: seq<KeyTime>): (r: seq<string>)
    ensures |r| == |es| && forall i :: 0 <= i < |es| ==> r[i] == es[i].key
  {
    if es == [] then [] else KeysOf(es[..|es| - 1]) + [es[|es| - 1].key]
  }

  /**
   * What the selection may answer: nothing for an empty map or a non-positive
   * count; otherwise `min(count, |data|)` distinct keys of the data, oldest
   * recorded access first, none more recently used than a key left behind. Keys with
   * equal times come in the map's iteration order, which this leaves open.
   */
  ghost predicate LeastRecentlyUsed(times: map<string, int>, data: map<string, string>, count: int, keys: seq<string>)
  {
    if |data| == 0 || count <= 0 then keys == []
    else
      && |keys| == (if count < |data| then count else |data|)
      && NoDup(keys)
      && (forall i :: 0 <= i < |keys| ==> keys[i] in data)
      && (forall i, j :: 0 <= i < j < |keys| ==> TimeOf(times, keys[i]) <= TimeOf(times, keys[j]))
      && (forall i, k :: 0 <= i < |keys| && k in data && k !in keys ==> TimeOf(times, keys[i]) <= TimeOf(times, k))
  }

  /** A table of (key, recorded time) pairs listing each key of `data` exactly once. */
  ghost predicate Tabulated(times: map<string, int>, data: map<string, string>, entries: seq<KeyTime>)
  {
    && |entries| == |data|
    && (forall i :: 0 <= i < |entries| ==> entries[i].key in data && entries[i].time == TimeOf(times, entries[i].key))
    && (forall k :: k in data ==> k in KeysOf(entries))
    && (forall i, j :: 0 <= i < j < |entries| ==> entries[i].key != entries[j].key)
  }

  /** A table listing each key of `done` exactly once with its recorded time. */
  ghost predicate TabulatedSoFar(times: map<string, int>, done: set<string>, entries: seq<KeyTime>)
  {
    && |entries| == |done|
    && (forall i :: 0 <= i < |entries| ==> entries[i].key in done && entries[i].time == TimeOf(times, entries[i].key))
    && (forall k :: k in done ==> k in KeysOf(entries))
    && (forall i, j :: 0 <= i < j < |entries| ==> entries[i].key != entries[j].key)
  }

  /** Listing one more key extends the table. */
  lemma TabulateStep(times: map<string, int>, done: set<string>, entries: seq<KeyTime>, key: string)
    requires key !in done && TabulatedSoFar(times, done, entries)
    ensures TabulatedSoFar(times, done + {key}, entries + [KeyTime(key, TimeOf(times, key))])
  {
    var grown := entries + [KeyTime(key, TimeOf(times, key))];
    assert KeysOf(grown) == KeysOf(entries) + [key];
    assert |done + {key}| == |done| + 1;
  }

  /** A table of every key of the data is a table of the data. */
  lemma CompleteTable(times: map<string, int>, data: map<string, string>, entries: seq<KeyTime>)
    requires TabulatedSoFar(times, data.Keys, entries)
    ensures Tabulated(times, data, entries)
  {
    assert |data.Keys| == |data|;
  }

  /** Reordering the table keeps it a table. */
  lemma PermutedTable(times: map<string, int>, data: map<string, string>, entries: seq<KeyTime>, other: seq<KeyTime>)
    requires Tabulated(times, data, entries) && multiset(other) == multiset(entries)
    ensures Tabulated(times, data, other)
  {
    assert |other| == |multiset(other)| == |multiset(entries)| == |entries|;
    forall i | 0 <= i < |other|
      ensures other[i].key in data && other[i].time == TimeOf(times, other[i].key)
    {
      assert other[i] in multiset(entries);
    }
    forall k | k in data
      ensures k in KeysOf(other)
    {
      var e :| 0 <= e < |entries| && KeysOf(entries)[e] == k;
      assert entries[e] in multiset(other);
      var j :| 0 <= j < |other| && other[j] == entries[e];
      assert KeysOf(other)[j] == k;
    }
    assert NoDup(entries);
    NoDupPermutation(entries, other);
    forall i, j | 0 <= i < j < |other| ensures other[i].key != other[j].key {
      assert other[i] != other[j];
    }
  }

  /** The first keys of a time-ordered table are a least-recently-used selection. */
  lemma OldestPrefix(times: map<string, int>, data: map<string, string>, count: int, sorted: seq<KeyTime>, keys: seq<string>)
    requires |data| > 0 && count > 0 && Tabulated(times, data, sorted) && SortedBy(sorted, TimeRank)
    requires |keys| == (if count < |sorted| then count else |sorted|)
    requires forall i :: 0 <= i < |keys| ==> keys[i] == sorted[i].key
    ensures LeastRecentlyUsed(times, data, count, keys)
  {
    forall i, k | 0 <= i < |keys| && k in data && k !in keys
      ensures TimeOf(times, keys[i]) <= TimeOf(times, k)
    {
      var j :| 0 <= j < |sorted| && KeysOf(sorted)[j] == k;
      assert j >= |keys|;
      assert TimeRank(sorted[i]) <= TimeRank(sorted[j]);
    }
  }

  class LRUEvictionPolicy {
    var accessTimes: map<string, int>

    constructor ()
      ensures accessTimes == map[]
    {
      accessTimes := map[];
    }

    method SelectKeysToEvict(currentData: map<string, string>, count: int) returns (keys: seq<string>)
      ensures LeastRecentlyUsed(accessTimes, currentData, count, keys)
    {
      if |currentData| == 0 || count <= 0 {
        return [];
      }
      var entries := Tabulate(currentData);
      var sorted := SortBy(entries, TimeRank);
      var n := if count < |sorted| then count else |sorted|;
      keys := [];
      for i := 0 to n
        invariant |keys| == i && forall j :: 0 <= j < i ==> keys[j] == sorted[j].key
      {
        keys := keys + [sorted[i].key];
      }
      SortByIsStableSort(entries, TimeRank);
      PermutedTable(accessTimes, currentData, entries, sorted);
      OldestPrefix(accessTimes, currentData, count, sorted, keys);
    }

    /** The (key, recorded time) pair of every key of the data, in the map's iteration order. */
    method Tabulate(currentData: map<string, string>) returns (entries: seq<KeyTime>)
      ensures Tabulated(accessTimes, currentData, entries)
    {
      entries := [];
      var remaining := currentData.Keys;
      ghost var done: set<string> := {};
      while remaining != {}
        invariant done == currentData.Keys - remaining
        invariant TabulatedSoFar(accessTimes, done, entries)
        decreases remaining
      {
        var key :| key in remaining;
        TabulateStep(accessTimes, done, entries, key);
        entries := entries + [KeyTime(key, TimeOf(accessTimes, key))];
        remaining := remaining - {key};
        done := done + {key};
      }
      CompleteTable(accessTimes, currentData, entries);
    }

    method RecordAccess(key: string, now: int)
      modifies this
      ensures accessTimes == old(accessTimes)[key := now]
    {
      accessTimes := accessTimes[key := now];
    }

    method RemoveKey(key: string)
      modifies this
      ensures accessTimes == old(accessTimes) - {key}
    {
      accessTimes := accessTimes - {key};
    }
  }
}
