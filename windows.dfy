/** Access-time windows: how many timestamps fall in the last hour or the last day. */
module Windows {
  const ONE_HOUR_MS: int := 3_600_000
  const ONE_DAY_MS: int := 86_400_000

  /** How many of the timestamps are at or after `threshold` (the window is inclusive). */
  function CountAtLeast(s: seq<int>, threshold: int): (n: nat)
    ensures n <= |s|
  {
    if s == [] then 0
    else CountAtLeast(s[..|s| - 1], threshold) + (if s[|s| - 1] >= threshold then 1 else 0)
  }

  ghost function IndicesAtLeast(s: seq<int>, threshold: int): set<int>
  {
    set i | 0 <= i < |s| && s[i] >= threshold
  }

  /** The count is the number of positions whose timestamp lies in the window. */
  lemma {:induction false} CountAtLeastIsCardinality(s: seq<int>, threshold: int)
    ensures CountAtLeast(s, threshold) == |IndicesAtLeast(s, threshold)|
  {
    if s != [] {
      var p := s[..|s| - 1];
      CountAtLeastIsCardinality(p, threshold);
      var last := if s[|s| - 1] >= threshold then {|s| - 1} else {};
      assert IndicesAtLeast(s, threshold) == IndicesAtLeast(p, threshold) + last;
      assert |s| - 1 !in IndicesAtLeast(p, threshold);
    }
  }

  /** A later threshold (a shorter window) never counts more accesses. */
  lemma {:induction false} CountAtLeastAntitone(s: seq<int>, lo: int, hi: int)
    requires lo <= hi
    ensures CountAtLeast(s, hi) <= CountAtLeast(s, lo)
  {
    if s != [] {
      CountAtLeastAntitone(s[..|s| - 1], lo, hi);
    }
  }

  /** The hour window never holds more accesses than the day window. */
  lemma HourWithinDay(s: seq<int>, now: int)
    ensures CountAtLeast(s, now - ONE_HOUR_MS) <= CountAtLeast(s, now - ONE_DAY_MS)
  {
    CountAtLeastAntitone(s, now - ONE_DAY_MS, now - ONE_HOUR_MS);
  }
}
