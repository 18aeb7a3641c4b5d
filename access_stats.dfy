/** Per-key access statistics: a bounded history of access times and two window counters. */
module Stats {
  import opened JavaInts
  import opened Windows

  const MAX_TIMESTAMPS: int := 100

  /**
   * The history after one more access: the newest `MAX_TIMESTAMPS` timestamps of
   * the old history followed by the new one, oldest dropped first.
   */
  function Retained(history: seq<int>, timestamp: int): (r: seq<int>)
    requires |history| <= MAX_TIMESTAMPS
    ensures |r| == if |history| < MAX_TIMESTAMPS then |history| + 1 else MAX_TIMESTAMPS
    ensures r[|r| - 1] == timestamp
    ensures forall i :: 0 <= i < |r| - 1 ==> r[i] == history[|history| - (|r| - 1) + i]
  {
    var grown := history + [timestamp];
    if |grown| > MAX_TIMESTAMPS then grown[1..] else grown
  }

  class AccessStats {
    const key: string
    var accessTimestamps: seq<int>
    /** Java `AtomicInteger`s: raised by one per access (wrapping at 32 bits), reset by decay. */
    var accessCountHour: int
    var accessCountDay: int
    var lastAccessTime: int

    ghost predicate Valid()
      reads this
    {
      |accessTimestamps| <= MAX_TIMESTAMPS && IsInt(accessCountHour) && IsInt(accessCountDay)
    }

    constructor (key: string)
      ensures Valid() && this.key == key
      ensures accessTimestamps == [] && accessCountHour == 0 && accessCountDay == 0 && lastAccessTime == 0
    {
      this.key := key;
      accessTimestamps := [];
      accessCountHour := 0;
      accessCountDay := 0;
      lastAccessTime := 0;
    }

    method RecordAccess(timestamp: int)
      requires Valid()
      modifies this
      ensures Valid()
      ensures lastAccessTime == timestamp
      ensures accessTimestamps == Retained(old(accessTimestamps), timestamp)
      ensures accessCountHour == WrapInt(old(accessCountHour) + 1)
      ensures accessCountDay == WrapInt(old(accessCountDay) + 1)
    {
      lastAccessTime := timestamp;
      accessTimestamps := accessTimestamps + [timestamp];
      if |accessTimestamps| > MAX_TIMESTAMPS {
        accessTimestamps := accessTimestamps[1..];
      }
      accessCountHour := WrapInt(accessCountHour + 1);
      accessCountDay := WrapInt(accessCountDay + 1);
    }

    /** Recounts both windows from the retained history (`currentTime` itself is not consulted). */
    method Decay(currentTime: int, hourThreshold: int, dayThreshold: int)
      requires Valid()
      modifies this
      ensures Valid()
      ensures accessCountHour == CountAtLeast(accessTimestamps, hourThreshold)
      ensures accessCountDay == CountAtLeast(accessTimestamps, dayThreshold)
      ensures accessTimestamps == old(accessTimestamps) && lastAccessTime == old(lastAccessTime)
    {
      var hourCount := 0;
      var dayCount := 0;
      var ts := accessTimestamps;
      for i := 0 to |ts|
        invariant hourCount == CountAtLeast(ts[..i], hourThreshold)
        invariant dayCount == CountAtLeast(ts[..i], dayThreshold)
      {
        assert ts[..i + 1][..i] == ts[..i];
        if ts[i] >= hourThreshold {
          hourCount := hourCount + 1;
        }
        if ts[i] >= dayThreshold {
          dayCount := dayCount + 1;
        }
      }
      assert ts[..|ts|] == ts;
      accessCountHour := hourCount;
      accessCountDay := dayCount;
    }

    /** The number of retained access times: never more than the retention bound. */
    function TotalAccessCount(): (n: int)
      reads this
      ensures n == |accessTimestamps|
      ensures Valid() ==> 0 <= n <= MAX_TIMESTAMPS
    {
      |accessTimestamps|
    }
  }
}
