/**
 * Eviction by predicted access probability, falling back to least-recently-used
 * selection when the prediction service is unreachable or predicts nothing.
 */
module MLEviction {
  import opened Sorting
  import opened Stats
  import opened Tracking
  import opened LRU
  import opened EvictionService

  /** One key's statistics as the client sends them to the prediction service. */
  datatype KeyPayload = KeyPayload(
    accessCount: int,
    lastAccessMs: int,
    accessCountHour: int,
    accessCountDay: int,
    firstAccessMs: int,
    avgIntervalMs: real)

  /**
   * The payload of a key: its retained access count, last access, window counters,
   * first retained access (0 without history) and the mean gap between the first
   * and the last retained access (0 with fewer than two).
   */
  function Payload(timestamps: seq<int>, lastAccessTime: int, hourCount: int, dayCount: int): (p: KeyPayload)
    ensures p.accessCount == |timestamps| && p.lastAccessMs == lastAccessTime
    ensures p.accessCountHour == hourCount && p.accessCountDay == dayCount
    ensures p.firstAccessMs == if timestamps == [] then 0 else timestamps[0]
    ensures |timestamps| <= 1 ==> p.avgIntervalMs == 0.0
    ensures |timestamps| > 1 ==>
              p.avgIntervalMs * (|timestamps| - 1) as real == (timestamps[|timestamps| - 1] - timestamps[0]) as real
  {
    var first := if timestamps == [] then 0 else timestamps[0];
    var avg := if |timestamps| > 1
      then (timestamps[|timestamps| - 1] - timestamps[0]) as real / (|timestamps| - 1) as real
      else 0.0;
    KeyPayload(|timestamps|, lastAccessTime, hourCount, dayCount, first, avg)
  }

  function PayloadOf(s: AccessStats): KeyPayload
    reads s
  {
    Payload(s.accessTimestamps, s.lastAccessTime, s.accessCountHour, s.accessCountDay)
  }

  /**
   * The prediction service as the client sees it during one call: whether the health
   * check answers 200, and the predictions it parses from the answer to a payload
   * (empty on a non-200 status, an unreadable body or a transport error).
   */
  datatype MLClient = MLClient(available: bool, predictions: map<string, KeyPayload> -> seq<Prediction>)

  /**
   * What the selection may answer, given the fallback's recorded access times and
   * the payload sent for the data: nothing for an empty map or a non-positive count;
   * the least-recently-used selection when the service is unavailable or predicts
   * nothing; otherwise the keys of the first `count` predictions after a stable
   * ascending sort by probability.
   */
  ghost predicate Selection(times: map<string, int>, payload: map<string, KeyPayload>, currentData: map<string, string>,
                            count: int, client: MLClient, keys: seq<string>)
  {
    if |currentData| == 0 || count <= 0 then keys == []
    else if !client.available || client.predictions(payload) == [] then
      LeastRecentlyUsed(times, currentData, count, keys)
    else RankedPrefix(client.predictions(payload), count, keys)
  }

  /** The keys of the first `count` predictions after a stable ascending sort by probability. */
  ghost predicate RankedPrefix(predictions: seq<Prediction>, count: int, keys: seq<string>)
  {
    var ranked := SortBy(predictions, Probability);
    && |keys| == (if count < |ranked| then count else |ranked|)
    && (forall i :: 0 <= i < |keys| ==> keys[i] == ranked[i].key)
  }

  /**
   * A ranked selection takes the predictions least likely to be accessed: the ranking
   * is a permutation of the predictions, and no chosen one has a higher probability
   * than one left out.
   */
  lemma RankedPrefixIsLeastLikely(predictions: seq<Prediction>, count: int, keys: seq<string>)
    requires count > 0 && RankedPrefix(predictions, count, keys)
    ensures var ranked := SortBy(predictions, Probability);
            && multiset(ranked) == multiset(predictions)
            && (forall i, j :: 0 <= i < |keys| <= j < |predictions| ==> ranked[i].probability <= ranked[j].probability)
  {
    SortByIsStableSort(predictions, Probability);
    var ranked := SortBy(predictions, Probability);
    assert |ranked| == |predictions| by { assert |multiset(ranked)| == |multiset(predictions)|; }
    forall i, j | 0 <= i < |keys| <= j < |predictions| ensures ranked[i].probability <= ranked[j].probability {
      assert Probability(ranked[i]) <= Probability(ranked[j]);
    }
  }

  class MLEvictionPolicy {
    const accessTracker: AccessTracker
    const lruFallback: LRUEvictionPolicy

    constructor (accessTracker: AccessTracker)
      ensures this.accessTracker == accessTracker
      ensures fresh(lruFallback) && lruFallback.accessTimes == map[]
    {
      this.accessTracker := accessTracker;
      lruFallback := new LRUEvictionPolicy();
    }

    /** The payload sent for `data`: each key with its tracked statistics, or those of a key never accessed. */
    function RequestPayload(data: map<string, string>): (p: map<string, KeyPayload>)
      reads accessTracker, accessTracker.accessStatsMap.Values
      ensures p.Keys == data.Keys
    {
      map k | k in data :: if k in accessTracker.accessStatsMap then PayloadOf(accessTracker.accessStatsMap[k]) else Payload([], 0, 0, 0)
    }

    /**
     * Every key of the data is sent: a tracked key with its statistics, an untracked
     * one with zero counts, zero times and a zero mean interval.
     */
    lemma RequestPayloadContents(data: map<string, string>, k: string)
      requires k in data
      ensures k in RequestPayload(data)
      ensures k !in accessTracker.accessStatsMap ==> RequestPayload(data)[k] == KeyPayload(0, 0, 0, 0, 0, 0.0)
      ensures k in accessTracker.accessStatsMap ==> RequestPayload(data)[k] == PayloadOf(accessTracker.accessStatsMap[k])
    {
    }

    /** Chooses `count` keys of the data to evict, as Selection describes. */
    method SelectKeysToEvict(currentData: map<string, string>, count: int, client: MLClient) returns (keys: seq<string>)
      ensures Selection(lruFallback.accessTimes, RequestPayload(currentData), currentData, count, client, keys)
    {
      if |currentData| == 0 || count <= 0 {
        return [];
      }
      if !client.available {
        keys := lruFallback.SelectKeysToEvict(currentData, count);
        return;
      }
      var payload := CollectPayload(currentData);
      var predictions := client.predictions(payload);
      if predictions == [] {
        keys := lruFallback.SelectKeysToEvict(currentData, count);
        return;
      }
      var ranked := SortBy(predictions, Probability);
      var n := if count < |ranked| then count else |ranked|;
      keys := seq(n, i requires 0 <= i < n => ranked[i].key);
    }

    /**
     * The statistics of every key of the data, those of the tracker or a fresh,
     * empty record for an untracked key, in the form the client sends them.
     */
    method CollectPayload(currentData: map<string, string>) returns (payload: map<string, KeyPayload>)
      ensures payload == RequestPayload(currentData)
    {
      ghost var expected := RequestPayload(currentData);
      payload := map[];
      var remaining := currentData.Keys;
      while remaining != {}
        invariant remaining <= currentData.Keys
        invariant payload.Keys == currentData.Keys - remaining
        invariant forall k :: k in payload ==> payload[k] == expected[k]
        decreases remaining
      {
        var key :| key in remaining;
        var stats := accessTracker.GetStats(key);
        if stats == null {
          stats := new AccessStats(key);
        }
        payload := payload[key := PayloadOf(stats)];
        remaining := remaining - {key};
      }
    }

    /** Recorded accesses feed only the fallback's access times. */
    method RecordAccess(key: string, now: int)
      modifies lruFallback
      ensures lruFallback.accessTimes == old(lruFallback.accessTimes)[key := now]
    {
      lruFallback.RecordAccess(key, now);
    }
  }
}
