/**
 * The replicated log: a list of entries addressed from 1, with the commit index
 * and the index of the last entry applied to the key-value store.
 */
module Log {
  import opened Wrappers
  import opened Protocol

  /** The entry at a 1-based position; `None` (Java `null`) outside `1..|entries|`. */
  function EntryAt(entries: seq<LogEntry>, index: int): (r: Option<LogEntry>)
    ensures r.Some? <==> 1 <= index <= |entries|
    ensures r.Some? ==> r.value == entries[index - 1]
  {
    if index < 1 || index > |entries| then None else Some(entries[index - 1])
  }

  /**
   * The entries from a 1-based position to the end; empty for a position below 1 or
   * beyond the position just past the last entry.
   */
  function EntriesSince(entries: seq<LogEntry>, index: int): (r: seq<LogEntry>)
    ensures 1 <= index <= |entries| + 1 ==> |r| == |entries| + 1 - index
    ensures 1 <= index <= |entries| + 1 ==> forall k :: 0 <= k < |r| ==> EntryAt(entries, index + k) == Some(r[k])
    ensures index < 1 || index > |entries| + 1 ==> r == []
  {
    if index < 1 || index > |entries| + 1 then [] else entries[index - 1..]
  }

  /** The log after removing the entry at a 1-based position and every later one. */
  function TruncatedFrom(entries: seq<LogEntry>, index: int): (r: seq<LogEntry>)
    ensures 1 <= index <= |entries| ==> |r| == index - 1
    ensures !(1 <= index <= |entries|) ==> r == entries
    ensures forall i :: 1 <= i < index ==> EntryAt(r, i) == EntryAt(entries, i)
    ensures forall i :: i >= index && 1 <= index <= |entries| ==> EntryAt(r, i) == None
  {
    if index < 1 || index > |entries| then entries else entries[..index - 1]
  }

  /** The term of the last entry, 0 for an empty log. */
  function LastTerm(entries: seq<LogEntry>): (t: int)
    ensures entries != [] ==> EntryAt(entries, |entries|).Some? && t == EntryAt(entries, |entries|).value.term
    ensures entries == [] ==> t == 0
  {
    if entries == [] then 0 else entries[|entries| - 1].term
  }

  /**
   * A log described by its last index and last term is at least as up to date as
   * `entries` when (term, index) is lexicographically no smaller.
   */
  function UpToDate(entries: seq<LogEntry>, lastLogIndex: int, lastLogTerm: int): (b: bool)
    ensures b <==> lastLogTerm > LastTerm(entries) || (lastLogTerm == LastTerm(entries) && lastLogIndex >= |entries|)
  {
    if lastLogTerm != LastTerm(entries) then lastLogTerm >= LastTerm(entries) else lastLogIndex >= |entries|
  }

  /** Every log is up to date against itself, and of two logs one is up to date against the other. */
  lemma UpToDateIsTotalPreorder(a: seq<LogEntry>, b: seq<LogEntry>)
    ensures UpToDate(a, |a|, LastTerm(a))
    ensures UpToDate(a, |b|, LastTerm(b)) || UpToDate(b, |a|, LastTerm(a))
  {
  }

  class RaftLog {
    var entries: seq<LogEntry>
    var commitIndex: int
    var lastApplied: int

    ghost predicate Valid()
      reads this
    {
      0 <= commitIndex && 0 <= lastApplied
    }

    /** A log holding the entries read back from disk, nothing committed or applied. */
    constructor (loaded: seq<LogEntry>)
      ensures Valid()
      ensures entries == loaded && commitIndex == 0 && lastApplied == 0
    {
      entries := loaded;
      commitIndex := 0;
      lastApplied := 0;
    }

    method Append(entry: LogEntry)
      requires Valid()
      modifies this
      ensures Valid()
      ensures entries == old(entries) + [entry]
      ensures commitIndex == old(commitIndex) && lastApplied == old(lastApplied)
    {
      entries := entries + [entry];
    }

    /** The entry at a 1-based index, present exactly for the indices the log holds. */
    function GetEntry(index: int): (r: Option<LogEntry>)
      reads this
      ensures r.Some? <==> 1 <= index <= LastIndex()
      ensures r.Some? ==> r.value == entries[index - 1]
    {
      EntryAt(entries, index)
    }

    /** The entries from a 1-based index on, in order; empty outside 1 .. last index + 1. */
    function GetEntriesSince(index: int): (r: seq<LogEntry>)
      reads this
      ensures 1 <= index <= LastIndex() + 1 ==> |r| == LastIndex() + 1 - index
      ensures forall k :: 0 <= k < |r| ==> GetEntry(index + k) == Some(r[k])
      ensures index < 1 || index > LastIndex() + 1 ==> r == []
    {
      EntriesSince(entries, index)
    }

    method DeleteEntriesFrom(index: int)
      requires Valid()
      modifies this
      ensures Valid()
      ensures entries == TruncatedFrom(old(entries), index)
      ensures commitIndex == old(commitIndex) && lastApplied == old(lastApplied)
    {
      if 1 <= index <= |entries| {
        entries := entries[..index - 1];
      }
    }

    /** `getLastIndex`, `getLogSize` and `size` all answer the number of entries held. */
    function LastIndex(): (n: int)
      reads this
      ensures n >= 0
      ensures n > 0 ==> EntryAt(entries, n).Some?
      ensures EntryAt(entries, n + 1).None?
    {
      |entries|
    }

    /** The term of the entry at the last index, 0 for an empty log. */
    function GetLastTerm(): (t: int)
      reads this
      ensures LastIndex() > 0 ==> t == entries[LastIndex() - 1].term
      ensures LastIndex() == 0 ==> t == 0
    {
      LastTerm(entries)
    }

    /** A candidate log is at least as up to date: a higher last term, or the same one and an index no smaller. */
    function IsUpToDate(lastLogIndex: int, lastLogTerm: int): (b: bool)
      reads this
      ensures b <==> lastLogTerm > GetLastTerm() || (lastLogTerm == GetLastTerm() && lastLogIndex >= LastIndex())
    {
      UpToDate(entries, lastLogIndex, lastLogTerm)
    }

    /** The commit index only moves forward. */
    method SetCommitIndex(index: int)
      requires Valid()
      modifies this
      ensures Valid()
      ensures commitIndex == if index > old(commitIndex) then index else old(commitIndex)
      ensures entries == old(entries) && lastApplied == old(lastApplied)
    {
      if index > commitIndex {
        commitIndex := index;
      }
    }

    /** The last-applied index only moves forward. */
    method SetLastApplied(index: int)
      requires Valid()
      modifies this
      ensures Valid()
      ensures lastApplied == if index > old(lastApplied) then index else old(lastApplied)
      ensures entries == old(entries) && commitIndex == old(commitIndex)
    {
      if index > lastApplied {
        lastApplied := index;
      }
    }

    /**
     * Compaction: drops entries from the front while their own index is at most
     * `upToIndex`, and answers how many were dropped.
     */
    method DeleteEntriesUpTo(upToIndex: int) returns (count: int)
      requires Valid()
      modifies this
      ensures Valid()
      ensures 0 <= count <= |old(entries)| && entries == old(entries)[count..]
      ensures forall k :: 0 <= k < count ==> old(entries)[k].index <= upToIndex
      ensures entries != [] ==> entries[0].index > upToIndex
      ensures commitIndex == old(commitIndex) && lastApplied == old(lastApplied)
    {
      count := 0;
      while entries != [] && entries[0].index <= upToIndex
        invariant 0 <= count <= |old(entries)| && entries == old(entries)[count..]
        invariant forall k :: 0 <= k < count ==> old(entries)[k].index <= upToIndex
        invariant commitIndex == old(commitIndex) && lastApplied == old(lastApplied)
        decreases |entries|
      {
        entries := entries[1..];
        count := count + 1;
      }
    }
  }

  /** Entries numbered by their position, as a leader writes them. */
  ghost predicate Dense(entries: seq<LogEntry>)
  {
    forall k :: 0 <= k < |entries| ==> entries[k].index == k + 1
  }

  /**
   * Compacting a densely numbered log up to `n` leaves positions and entry numbers
   * apart by `n`: position `j` then holds the entry numbered `j + n`, and the log
   * reports `|entries| - n` as its last index.
   */
  lemma {:induction false} CompactionShiftsPositions(entries: seq<LogEntry>, n: int, rest: seq<LogEntry>, j: int)
    requires Dense(entries) && 0 <= n <= |entries|
    requires rest == entries[n..]
    requires 1 <= j <= |rest|
    ensures |rest| == |entries| - n
    ensures EntryAt(rest, j).Some? && EntryAt(rest, j).value.index == j + n
    ensures EntryAt(entries, j).Some? && EntryAt(entries, j).value.index == j
  {
    assert rest[j - 1] == entries[j - 1 + n];
  }
}
