/**
 * Taking and restoring snapshots: a snapshot of the store is written once the log
 * holds enough entries, and the log is then compacted up to the last applied entry;
 * at startup the latest snapshot restores the store and the applied index.
 */
module SnapshotManagement {
  import opened Wrappers
  import opened Protocol
  import opened Log
  import opened Store
  import opened Snapshots

  const SNAPSHOT_THRESHOLD := 1000

  /** The term a snapshot records: that of the entry at the index, or the manager's term without one. */
  function SnapshotTerm(entries: seq<LogEntry>, lastApplied: int, currentTerm: int): (t: int)
    ensures EntryAt(entries, lastApplied).Some? ==> t == entries[lastApplied - 1].term
    ensures EntryAt(entries, lastApplied).None? ==> t == currentTerm
  {
    match EntryAt(entries, lastApplied)
    case Some(e) => e.term
    case None => currentTerm
  }

  /**
   * `after` is `before` with its leading run of entries numbered at most `upTo`
   * removed: what compaction up to `upTo` leaves.
   */
  ghost predicate CompactedUpTo(before: seq<LogEntry>, after: seq<LogEntry>, upTo: int)
  {
    && |after| <= |before| && after == before[|before| - |after|..]
    && (forall k :: 0 <= k < |before| - |after| ==> before[k].index <= upTo)
    && (after != [] ==> after[0].index > upTo)
  }

  /**
   * On a log numbered by position, compaction up to an index within the log keeps
   * exactly the entries after it.
   */
  lemma CompactionOfDenseLog(before: seq<LogEntry>, after: seq<LogEntry>, upTo: int)
    requires Dense(before) && 0 <= upTo <= |before| && CompactedUpTo(before, after, upTo)
    ensures after == before[upTo..]
  {
    var dropped := |before| - |after|;
    if after != [] {
      assert after[0] == before[dropped];
    }
    if dropped > 0 {
      assert before[dropped - 1].index == dropped;
    }
    assert dropped == upTo;
  }

  class SnapshotManager {
    const nodeId: string
    const raftLog: RaftLog
    const kvStore: KeyValueStore
    var currentTerm: int

    constructor (nodeId: string, raftLog: RaftLog, kvStore: KeyValueStore)
      ensures this.nodeId == nodeId && this.raftLog == raftLog && this.kvStore == kvStore && currentTerm == 0
    {
      this.nodeId := nodeId;
      this.raftLog := raftLog;
      this.kvStore := kvStore;
      currentTerm := 0;
    }

    method SetCurrentTerm(term: int)
      modifies this
      ensures currentTerm == term
    {
      currentTerm := term;
    }

    /**
     * The periodic check: a log below the threshold is left alone; otherwise a snapshot
     * is taken as CreateSnapshot describes.
     */
    method CheckAndCreateSnapshot(now: int, saveSucceeds: bool) returns (created: bool, written: Option<Snapshot>)
      requires raftLog.Valid()
      modifies raftLog
      ensures raftLog.Valid()
      ensures |old(raftLog.entries)| < SNAPSHOT_THRESHOLD ==>
                !created && written.None? && raftLog.entries == old(raftLog.entries)
      ensures |old(raftLog.entries)| >= SNAPSHOT_THRESHOLD ==> Taken(old(raftLog.entries), old(raftLog.lastApplied), now, saveSucceeds, created, written)
      ensures raftLog.commitIndex == old(raftLog.commitIndex) && raftLog.lastApplied == old(raftLog.lastApplied)
    {
      var logSize := raftLog.LastIndex();
      if logSize >= SNAPSHOT_THRESHOLD {
        created, written := CreateSnapshot(now, saveSucceeds);
        return;
      }
      return false, None;
    }

    /**
     * What taking a snapshot does: nothing before any entry is applied; otherwise the
     * snapshot of the last applied index, its term, the store's data and client sequences
     * and the time is written, and only if writing succeeds is the log compacted up to
     * that index and the snapshot reported as created.
     */
    ghost predicate Taken(before: seq<LogEntry>, lastApplied: int, now: int, saveSucceeds: bool,
                             created: bool, written: Option<Snapshot>)
      reads this, raftLog, kvStore
    {
      && (lastApplied <= 0 ==> written.None?)
      && (lastApplied > 0 ==>
            written == Some(Snapshot(lastApplied, SnapshotTerm(before, lastApplied, currentTerm),
                                     kvStore.data, kvStore.lastAppliedSequence, now)))
      && (created <==> lastApplied > 0 && saveSucceeds)
      && (created ==> CompactedUpTo(before, raftLog.entries, lastApplied))
      && (!created ==> raftLog.entries == before)
    }

    /** Takes a snapshot, as Taken describes; `saveSucceeds` is whether the disk write works. */
    method CreateSnapshot(now: int, saveSucceeds: bool) returns (created: bool, written: Option<Snapshot>)
      requires raftLog.Valid()
      modifies raftLog
      ensures raftLog.Valid()
      ensures Taken(old(raftLog.entries), old(raftLog.lastApplied), now, saveSucceeds, created, written)
      ensures raftLog.commitIndex == old(raftLog.commitIndex) && raftLog.lastApplied == old(raftLog.lastApplied)
    {
      var lastApplied := raftLog.lastApplied;
      if lastApplied <= 0 {
        return false, None;
      }
      var lastEntry := raftLog.GetEntry(lastApplied);
      var lastTerm := if lastEntry.Some? then lastEntry.value.term else currentTerm;
      var snapshot := Snapshot(lastApplied, lastTerm, kvStore.data, kvStore.lastAppliedSequence, now);
      written := Some(snapshot);
      if !saveSucceeds {
        return false, written;
      }
      var deletedCount := raftLog.DeleteEntriesUpTo(lastApplied);
      created := true;
    }

    /**
     * Restores the latest snapshot on disk, if any: the store takes its data and client
     * sequences and the log's applied index rises to its last included index. With no
     * directory, no loadable file or an unreadable one nothing changes.
     */
    method LoadLatestSnapshot(listing: Option<seq<string>>, read: string -> Option<Snapshot>)
      returns (snapshot: Option<Snapshot>, ghost position: nat)
      requires raftLog.Valid()
      modifies kvStore, raftLog
      ensures raftLog.Valid()
      ensures listing.None? ==> snapshot.None?
      ensures listing.Some? && (forall i :: 0 <= i < |listing.value| ==> IndexOf(listing.value[i]).None?) ==> snapshot.None?
      ensures listing.Some? && (exists i :: 0 <= i < |listing.value| && IndexOf(listing.value[i]).Some?) ==>
                IsLatest(listing.value, position) && snapshot == read(listing.value[position])
      ensures snapshot.None? ==>
                && kvStore.data == old(kvStore.data) && kvStore.lastAppliedSequence == old(kvStore.lastAppliedSequence)
                && raftLog.lastApplied == old(raftLog.lastApplied)
      ensures snapshot.Some? ==>
                && kvStore.data == snapshot.value.data && kvStore.lastAppliedSequence == snapshot.value.lastAppliedSequence
                && raftLog.lastApplied == MaxIndex(old(raftLog.lastApplied), snapshot.value.lastIncludedIndex)
      ensures raftLog.entries == old(raftLog.entries) && raftLog.commitIndex == old(raftLog.commitIndex)
      ensures kvStore.currentTerm == old(kvStore.currentTerm) && kvStore.hasReplicator == old(kvStore.hasReplicator)
      ensures kvStore.applied == old(kvStore.applied) && kvStore.evictionCount == old(kvStore.evictionCount)
    {
      snapshot, position := LoadFromDisk(listing, read);
      if snapshot.None? {
        return;
      }
      kvStore.RestoreFromSnapshot(snapshot.value.data, snapshot.value.lastAppliedSequence);
      raftLog.SetLastApplied(snapshot.value.lastIncludedIndex);
    }
  }
}
