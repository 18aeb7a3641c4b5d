/** One entry of the simple in-memory cache: its value and when it was made and last read. */
module CacheEntries {
  import opened JavaInts

  class CacheEntry {
    const key: string
    const value: string
    const creationTime: int
    var lastAccessTime: int
    /** A Java `int`: it wraps past 2^31 - 1. */
    var accessCount: int

    /** A new entry counts as accessed when it was made, and has never been read. */
    constructor (key: string, value: string, creationTime: int)
      ensures this.key == key && this.value == value && this.creationTime == creationTime
      ensures lastAccessTime == creationTime && accessCount == 0
    {
      this.key := key;
      this.value := value;
      this.creationTime := creationTime;
      lastAccessTime := creationTime;
      accessCount := 0;
    }

    /** A read: the access time becomes `now` and the count goes up by one, wrapping as an `int` does. */
    method UpdateAccessTime(now: int)
      modifies this
      ensures lastAccessTime == now && accessCount == WrapInt(old(accessCount) + 1)
      ensures forall k: nat :: old(accessCount) == Counted(k) ==> accessCount == Counted(k + 1)
    {
      lastAccessTime := now;
      accessCount := WrapInt(accessCount + 1);
    }

    /** Milliseconds from the entry's creation to `now`. */
    function Age(now: int): (a: int)
      reads this
      ensures creationTime + a == now
      ensures now >= creationTime ==> a >= 0
    {
      now - creationTime
    }

    /** Milliseconds from the entry's last read (or its creation) to `now`. */
    function TimeSinceLastAccess(now: int): (t: int)
      reads this
      ensures lastAccessTime + t == now
      ensures now >= lastAccessTime ==> t >= 0
    {
      now - lastAccessTime
    }
  }

  /**
   * The count of a fresh entry after `n` reads, with at most 2^31 - 1 of them, is `n`;
   * only a read beyond that wraps it.
   */
  lemma {:induction false} AccessCountAfterReads(n: nat)
    requires n <= INT_MAX
    ensures Counted(n) == n
  {
    if n > 0 {
      AccessCountAfterReads(n - 1);
    }
  }

  /**
   * The access count after `n` reads of a fresh entry: the constructor starts the count at
   * `Counted(0)` and each `UpdateAccessTime` takes it from `Counted(k)` to `Counted(k + 1)`.
   */
  function Counted(n: nat): int
  {
    if n == 0 then 0 else WrapInt(Counted(n - 1) + 1)
  }
}
