/**
 * The follower side of log replication: the consistency check on an
 * AppendEntries request, reconciliation of the request's entries with the log,
 * the commit index the leader allows, and applying committed entries to the store.
 */
module FollowerReplication {
  import opened Wrappers
  import opened Protocol
  import opened Log
  import opened MLEviction
  import opened Store

  /** The log holds the leader's previous entry: nothing to match at position 0 or below. */
  predicate PrevMatches(entries: seq<LogEntry>, prevLogIndex: int, prevLogTerm: int)
  {
    prevLogIndex <= 0 || (EntryAt(entries, prevLogIndex).Some? && EntryAt(entries, prevLogIndex).value.term == prevLogTerm)
  }

  /**
   * One entry of a request against the log: an entry already held with the same term
   * is kept; one held with another term replaces it and everything after it; one
   * not held is appended.
   */
  function ReconcileOne(entries: seq<LogEntry>, e: LogEntry): seq<LogEntry>
  {
    var existing := EntryAt(entries, e.index);
    if existing.Some? then
      if existing.value.term != e.term then TruncatedFrom(entries, e.index) + [e] else entries
    else entries + [e]
  }

  /** The log after reconciling every entry of a request, in order. */
  function Reconcile(entries: seq<LogEntry>, es: seq<LogEntry>): seq<LogEntry>
    decreases |es|
  {
    if es == [] then entries else Reconcile(ReconcileOne(entries, es[0]), es[1..])
  }

  /**
   * A request as a leader builds it, once the consistency check has passed: the
   * previous index lies within the log and the entries are numbered on from it.
   */
  ghost predicate WellFormed(entries: seq<LogEntry>, prevLogIndex: int, es: seq<LogEntry>)
  {
    && 0 <= prevLogIndex <= |entries|
    && forall k :: 0 <= k < |es| ==> es[k].index == prevLogIndex + 1 + k
  }

  /** Every entry of the request is held at its own index with its own term. */
  ghost predicate AllPresent(entries: seq<LogEntry>, es: seq<LogEntry>)
  {
    forall k :: 0 <= k < |es| ==> EntryAt(entries, es[k].index).Some? && EntryAt(entries, es[k].index).value.term == es[k].term
  }

  /** Reconciling the next entry of a well-formed request keeps the log before it and puts the entry's term at its index. */
  lemma ReconcileOnePlaces(entries: seq<LogEntry>, prevLogIndex: int, e: LogEntry)
    requires 0 <= prevLogIndex <= |entries| && e.index == prevLogIndex + 1
    ensures var r := ReconcileOne(entries, e);
            && |r| >= e.index
            && (forall i :: 1 <= i <= prevLogIndex ==> EntryAt(r, i) == EntryAt(entries, i))
            && EntryAt(r, e.index).Some? && EntryAt(r, e.index).value.term == e.term
  {
  }

  /** A well-formed request leaves the log up to its previous index alone and reaches at least its last entry. */
  lemma {:induction false} ReconcileKeepsPrefix(entries: seq<LogEntry>, prevLogIndex: int, es: seq<LogEntry>)
    requires WellFormed(entries, prevLogIndex, es)
    ensures |Reconcile(entries, es)| >= prevLogIndex + |es|
    ensures forall i :: 1 <= i <= prevLogIndex ==> EntryAt(Reconcile(entries, es), i) == EntryAt(entries, i)
    decreases |es|
  {
    if es != [] {
      var next := ReconcileOne(entries, es[0]);
      ReconcileOnePlaces(entries, prevLogIndex, es[0]);
      assert WellFormed(next, prevLogIndex + 1, es[1..]);
      ReconcileKeepsPrefix(next, prevLogIndex + 1, es[1..]);
    }
  }

  /** After a well-formed request every one of its entries is held at its index with its term. */
  lemma {:induction false} ReconcilePlacesAll(entries: seq<LogEntry>, prevLogIndex: int, es: seq<LogEntry>)
    requires WellFormed(entries, prevLogIndex, es)
    ensures AllPresent(Reconcile(entries, es), es)
    decreases |es|
  {
    if es != [] {
      var next := ReconcileOne(entries, es[0]);
      ReconcileOnePlaces(entries, prevLogIndex, es[0]);
      assert WellFormed(next, prevLogIndex + 1, es[1..]);
      ReconcilePlacesAll(next, prevLogIndex + 1, es[1..]);
      ReconcileKeepsPrefix(next, prevLogIndex + 1, es[1..]);
      var r := Reconcile(entries, es);
      assert r == Reconcile(next, es[1..]);
      assert EntryAt(r, es[0].index) == EntryAt(next, es[0].index);
      forall k | 0 <= k < |es| ensures EntryAt(r, es[k].index).Some? && EntryAt(r, es[k].index).value.term == es[k].term {
        if k > 0 {
          assert es[k] == es[1..][k - 1];
        }
      }
    }
  }

  /** A log already holding every entry of a request is left as it is. */
  lemma {:induction false} ReconcileOfPresent(entries: seq<LogEntry>, es: seq<LogEntry>)
    requires AllPresent(entries, es)
    ensures Reconcile(entries, es) == entries
    decreases |es|
  {
    if es != [] {
      assert ReconcileOne(entries, es[0]) == entries;
      assert AllPresent(entries, es[1..]) by {
        forall k | 0 <= k < |es[1..]| ensures EntryAt(entries, es[1..][k].index).Some? && EntryAt(entries, es[1..][k].index).value.term == es[1..][k].term {
          assert es[1..][k] == es[k + 1];
        }
      }
      ReconcileOfPresent(entries, es[1..]);
    }
  }

  /** Delivering the same well-formed request twice leaves the log as one delivery does. */
  lemma RedeliveredRequestIsIdempotent(entries: seq<LogEntry>, prevLogIndex: int, es: seq<LogEntry>)
    requires WellFormed(entries, prevLogIndex, es)
    ensures Reconcile(Reconcile(entries, es), es) == Reconcile(entries, es)
  {
    ReconcilePlacesAll(entries, prevLogIndex, es);
    ReconcileOfPresent(Reconcile(entries, es), es);
  }

  /**
   * The entries applied for a given applied and commit index: those at indices
   * `lastApplied + 1` up to the commit index, stopping at the end of the log.
   */
  function ApplyRange(entries: seq<LogEntry>, lastApplied: int, commitIndex: int): (r: seq<LogEntry>)
    requires 0 <= lastApplied
    ensures commitIndex <= lastApplied || |entries| <= lastApplied ==> r == []
    ensures commitIndex > lastApplied && |entries| > lastApplied ==>
              && |r| == (if commitIndex < |entries| then commitIndex else |entries|) - lastApplied
              && forall k :: 0 <= k < |r| ==> EntryAt(entries, lastApplied + 1 + k) == Some(r[k])
  {
    if commitIndex <= lastApplied || |entries| <= lastApplied then []
    else entries[lastApplied..if commitIndex < |entries| then commitIndex else |entries|]
  }

  class FollowerReplicator {
    const nodeId: string
    const raftLog: RaftLog
    const kvStore: KeyValueStore
    var currentTerm: int
    var currentState: Option<RaftState>

    ghost predicate Valid()
      reads raftLog, kvStore, kvStore.log, kvStore.tracker, kvStore.tracker.accessStatsMap.Values, kvStore.policy
    {
      kvStore.log == raftLog && kvStore.Valid()
    }

    constructor (nodeId: string, raftLog: RaftLog, kvStore: KeyValueStore)
      requires kvStore.log == raftLog && kvStore.Valid()
      ensures Valid()
      ensures this.nodeId == nodeId && this.raftLog == raftLog && this.kvStore == kvStore
      ensures currentTerm == 0 && currentState == None
    {
      this.nodeId := nodeId;
      this.raftLog := raftLog;
      this.kvStore := kvStore;
      currentTerm := 0;
      currentState := None;
    }

    method UpdateState(term: int, state: RaftState)
      modifies this
      ensures currentTerm == term && currentState == Some(state)
    {
      currentTerm := term;
      currentState := Some(state);
    }

    /**
     * Handles an AppendEntries request. A stale term or a missing previous entry is
     * refused with the log untouched; a previous entry of another term is refused
     * after cutting the log there. Otherwise the entries are reconciled with the log,
     * the commit index rises to the leader's commit index capped at the last index,
     * and the answer reports the last index.
     */
    method HandleAppendEntries(request: AppendEntriesRequest) returns (response: AppendEntriesResponse)
      requires Valid()
      modifies raftLog
      ensures Valid()
      ensures raftLog.lastApplied == old(raftLog.lastApplied)
      ensures request.term < currentTerm ==>
                && response == AppendEntriesResponse(currentTerm, false, 0, nodeId)
                && raftLog.entries == old(raftLog.entries) && raftLog.commitIndex == old(raftLog.commitIndex)
      ensures request.term >= currentTerm && request.prevLogIndex > 0 && EntryAt(old(raftLog.entries), request.prevLogIndex).None? ==>
                && response == AppendEntriesResponse(currentTerm, false, 0, nodeId)
                && raftLog.entries == old(raftLog.entries) && raftLog.commitIndex == old(raftLog.commitIndex)
      ensures request.term >= currentTerm && request.prevLogIndex > 0 && EntryAt(old(raftLog.entries), request.prevLogIndex).Some?
              && EntryAt(old(raftLog.entries), request.prevLogIndex).value.term != request.prevLogTerm ==>
                && response == AppendEntriesResponse(currentTerm, false, 0, nodeId)
                && raftLog.entries == TruncatedFrom(old(raftLog.entries), request.prevLogIndex)
                && raftLog.commitIndex == old(raftLog.commitIndex)
      ensures request.term >= currentTerm && PrevMatches(old(raftLog.entries), request.prevLogIndex, request.prevLogTerm) ==>
                && raftLog.entries == Reconcile(old(raftLog.entries), request.entries)
                && raftLog.commitIndex == (if request.leaderCommit > old(raftLog.commitIndex)
                                           then MaxIndex(old(raftLog.commitIndex), MinIndex(request.leaderCommit, |raftLog.entries|))
                                           else old(raftLog.commitIndex))
                && response == AppendEntriesResponse(currentTerm, true, |raftLog.entries|, nodeId)
    {
      if request.term < currentTerm {
        return AppendEntriesResponse(currentTerm, false, 0, nodeId);
      }
      var prevLogIndex := request.prevLogIndex;
      var prevLogTerm := request.prevLogTerm;
      if prevLogIndex > 0 {
        var prevEntry := raftLog.GetEntry(prevLogIndex);
        if prevEntry.None? {
          return AppendEntriesResponse(currentTerm, false, 0, nodeId);
        }
        if prevEntry.value.term != prevLogTerm {
          raftLog.DeleteEntriesFrom(prevLogIndex);
          return AppendEntriesResponse(currentTerm, false, 0, nodeId);
        }
      }
      AppendNewEntries(request.entries);
      var leaderCommit := request.leaderCommit;
      var currentCommitIndex := raftLog.commitIndex;
      if leaderCommit > currentCommitIndex {
        var lastNewEntryIndex := raftLog.LastIndex();
        raftLog.SetCommitIndex(MinIndex(leaderCommit, lastNewEntryIndex));
      }
      response := AppendEntriesResponse(currentTerm, true, raftLog.LastIndex(), nodeId);
    }

    /** Step 4 of the request: reconciles each entry with the log in turn. */
    method AppendNewEntries(es: seq<LogEntry>)
      requires Valid()
      modifies raftLog
      ensures Valid()
      ensures raftLog.entries == Reconcile(old(raftLog.entries), es)
      ensures raftLog.commitIndex == old(raftLog.commitIndex) && raftLog.lastApplied == old(raftLog.lastApplied)
    {
      for k := 0 to |es|
        invariant Valid()
        invariant Reconcile(raftLog.entries, es[k..]) == Reconcile(old(raftLog.entries), es)
        invariant raftLog.commitIndex == old(raftLog.commitIndex) && raftLog.lastApplied == old(raftLog.lastApplied)
      {
        var newEntry := es[k];
        assert es[k..][0] == newEntry && es[k..][1..] == es[k + 1..];
        var existingEntry := raftLog.GetEntry(newEntry.index);
        if existingEntry.Some? {
          if existingEntry.value.term != newEntry.term {
            raftLog.DeleteEntriesFrom(newEntry.index);
            raftLog.Append(newEntry);
          }
        } else {
          raftLog.Append(newEntry);
        }
      }
    }

    /**
     * Applies to the store, in index order, the entries after the applied index up to
     * the commit index, both read once at the start; a missing entry ends the round.
     */
    method ApplyCommittedEntries(client: MLClient)
      requires Valid()
      modifies kvStore, raftLog
      ensures Valid()
      ensures kvStore.applied == old(kvStore.applied) + ApplyRange(old(raftLog.entries), old(raftLog.lastApplied), old(raftLog.commitIndex))
      ensures raftLog.entries == old(raftLog.entries) && raftLog.commitIndex == old(raftLog.commitIndex)
      ensures kvStore.hasReplicator == old(kvStore.hasReplicator) && kvStore.currentTerm == old(kvStore.currentTerm)
    {
      var lastApplied := raftLog.lastApplied;
      var commitIndex := raftLog.commitIndex;
      if commitIndex <= lastApplied {
        return;
      }
      var i := lastApplied + 1;
      while i <= commitIndex
        invariant lastApplied + 1 <= i <= commitIndex + 1
        invariant i - 1 <= |raftLog.entries| || i == lastApplied + 1
        invariant Valid()
        invariant raftLog.entries == old(raftLog.entries) && raftLog.commitIndex == old(raftLog.commitIndex)
        invariant kvStore.hasReplicator == old(kvStore.hasReplicator) && kvStore.currentTerm == old(kvStore.currentTerm)
        invariant kvStore.applied == old(kvStore.applied) + ApplyRange(raftLog.entries, lastApplied, i - 1)
        decreases commitIndex + 1 - i
      {
        var entry := raftLog.GetEntry(i);
        if entry.None? {
          assert ApplyRange(raftLog.entries, lastApplied, i - 1) == ApplyRange(raftLog.entries, lastApplied, commitIndex);
          break;
        }
        assert ApplyRange(raftLog.entries, lastApplied, i) == ApplyRange(raftLog.entries, lastApplied, i - 1) + [entry.value];
        ApplyEntry(entry.value, client);
        i := i + 1;
      }
    }

    /** Applies one entry to the store; of its effect the replicator needs only that it is recorded. */
    method ApplyEntry(entry: LogEntry, client: MLClient)
      requires Valid()
      modifies kvStore, raftLog
      ensures Valid()
      ensures kvStore.applied == old(kvStore.applied) + [entry]
      ensures raftLog.entries == old(raftLog.entries) && raftLog.commitIndex == old(raftLog.commitIndex)
      ensures kvStore.hasReplicator == old(kvStore.hasReplicator) && kvStore.currentTerm == old(kvStore.currentTerm)
    {
      var _ := kvStore.ApplyCommand(entry, client);
    }
  }

  function MinIndex(a: int, b: int): int { if a < b then a else b }
}
