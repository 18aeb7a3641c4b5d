/**
 * A Raft node's term, vote and role: term updates, elections, vote granting,
 * the role transitions, and the term/role part of the AppendEntries handlers. Timers
 * and sockets are left out; a message sent is returned to the caller.
 */
module Node {
  import opened Wrappers
  import opened Protocol
  import opened Log
  import opened Quorum
  import opened MLEviction
  import opened Store
  import opened FollowerReplication
  import opened LeaderReplication
  import opened Lease
  import opened Snapshots
  import opened SnapshotManagement

  /**
   * Whether an election may start: always without peers or without a network;
   * otherwise the connected peers with this node must make a majority.
   */
  function QuorumConnectivity(peerCount: nat, activePeers: Option<int>): (b: bool)
    ensures peerCount == 0 || activePeers.None? ==> b
    ensures peerCount > 0 && activePeers.Some? ==> (b <==> activePeers.value + 1 >= Majority(peerCount + 1))
  {
    if peerCount == 0 || activePeers.None? then true
    else
      var total := peerCount + 1;
      var majority := total / 2 + 1;
      var peersNeeded := majority - 1;
      activePeers.value >= peersNeeded
  }

  /** The same index for every peer. */
  function PerPeer(peers: map<string, string>, index: int): (m: map<string, int>)
    ensures m.Keys == peers.Keys && forall p :: p in m ==> m[p] == index
  {
    map p | p in peers :: index
  }

  /** A leader's index map with every peer's entry set to `index`, other entries kept. */
  function WithPeers(current: map<string, int>, peers: map<string, string>, index: int): (m: map<string, int>)
    ensures m.Keys == current.Keys + peers.Keys
    ensures forall p :: p in m ==> m[p] == (if p in peers then index else current[p])
  {
    current + PerPeer(peers, index)
  }

  /**
   * The RequestVote of a candidate's term to each peer; the last log index and term
   * are sent as 0.
   */
  function VoteRequests(peers: map<string, string>, term: int, candidateId: string): (m: map<string, Message>)
    ensures m.Keys == peers.Keys
    ensures forall p :: p in m ==> m[p] == RequestVote(term, candidateId, candidateId, 0, 0)
  {
    map p | p in peers :: RequestVote(term, candidateId, candidateId, 0, 0)
  }

  /** No two votes of the same term went to different candidates. */
  ghost predicate OneVotePerTerm(grants: set<(int, string)>)
  {
    forall g, h :: g in grants && h in grants && g.0 == h.0 ==> g.1 == h.1
  }

  /** A candidate alone wins an election exactly when it has no peers. */
  lemma SelfVoteWinsAlone(peerCount: nat)
    ensures 1 >= Majority(peerCount + 1) <==> peerCount == 0
  {
  }

  /**
   * The startup wiring: a log over the entries read back from disk, a store and a
   * follower replicator over it, and a snapshot manager that restores the latest
   * snapshot file, if one loads, into the store.
   */
  method StartComponents(nodeId: string, loaded: seq<LogEntry>, listing: Option<seq<string>>, read: string -> Option<Snapshot>)
    returns (log: RaftLog, store: KeyValueStore, follower: FollowerReplicator, manager: SnapshotManager,
             restored: Option<Snapshot>, ghost position: nat)
    ensures fresh(log) && fresh(store) && fresh(follower) && fresh(manager)
    ensures store.log == log && follower.raftLog == log && follower.kvStore == store && follower.Valid()
    ensures manager.raftLog == log && manager.kvStore == store
    ensures log.entries == loaded && log.commitIndex == 0 && !store.hasReplicator
    ensures restored.Some? ==>
              && store.data == restored.value.data && store.lastAppliedSequence == restored.value.lastAppliedSequence
              && log.lastApplied == MaxIndex(0, restored.value.lastIncludedIndex)
    ensures restored.None? ==> store.data == map[] && log.lastApplied == 0
    ensures listing.None? || (forall i :: 0 <= i < |listing.value| ==> IndexOf(listing.value[i]).None?) ==> restored.None?
    ensures listing.Some? && (exists i :: 0 <= i < |listing.value| && IndexOf(listing.value[i]).Some?) ==>
              IsLatest(listing.value, position) && restored == read(listing.value[position])
  {
    log := new RaftLog(loaded);
    store := new KeyValueStore(nodeId, log);
    follower := new FollowerReplicator(nodeId, log, store);
    manager := new SnapshotManager(nodeId, log, store);
    restored, position := manager.LoadLatestSnapshot(listing, read);
  }

  class RaftNode {
    const nodeId: string
    var peers: map<string, string>
    var currentTerm: int
    var votedFor: Option<string>
    var state: RaftState
    /** The commit index heartbeats carry in; replication itself keeps the log's own. */
    var commitIndex: int
    var nextIndex: map<string, int>
    var matchIndex: map<string, int>
    var votesReceived: set<string>
    const raftLog: RaftLog
    const kvStore: KeyValueStore
    const followerReplicator: FollowerReplicator
    var replicator: LeaderReplicator?
    const readLease: ReadLease
    const snapshotManager: SnapshotManager
    /** Every vote this node has cast, as (term, candidate), its own included. */
    ghost var grants: set<(int, string)>

    /** The components share one log and one store. */
    ghost predicate Wired()
      reads raftLog, kvStore, kvStore.log, kvStore.tracker, kvStore.tracker.accessStatsMap.Values, kvStore.policy, followerReplicator
    {
      && kvStore.log == raftLog && followerReplicator.raftLog == raftLog && followerReplicator.kvStore == kvStore
      && followerReplicator.Valid()
      && snapshotManager.raftLog == raftLog && snapshotManager.kvStore == kvStore
    }

    /**
     * The vote record: one candidate per term, and every vote of the current term is
     * the recorded vote.
     */
    ghost predicate VotesSafe()
      reads this
    {
      && OneVotePerTerm(grants)
      && forall g :: g in grants ==> g.0 <= currentTerm && (g.0 == currentTerm ==> votedFor == Some(g.1))
    }

    /** A replicator is installed, in this node and in its store, only while the node leads. */
    ghost predicate LeadershipHeld()
      reads this, kvStore
    {
      && (replicator != null <==> kvStore.hasReplicator)
      && (kvStore.hasReplicator ==> state == Leader)
    }

    ghost predicate Valid()
      reads this, raftLog, kvStore, kvStore.log, kvStore.tracker, kvStore.tracker.accessStatsMap.Values, kvStore.policy,
            followerReplicator, replicator
    {
      && Wired()
      && (replicator != null ==> replicator.raftLog == raftLog)
      && VotesSafe()
      && LeadershipHeld()
    }

    /**
     * The store and applied index after reading the latest snapshot file at startup:
     * the snapshot's data and last included index, or empty and 0 when it is unreadable.
     */
    ghost predicate RestoredFrom(snapshot: Option<Snapshot>)
      reads this, kvStore, raftLog
    {
      if snapshot.Some? then
        kvStore.data == snapshot.value.data && kvStore.lastAppliedSequence == snapshot.value.lastAppliedSequence &&
        raftLog.lastApplied == MaxIndex(0, snapshot.value.lastIncludedIndex)
      else kvStore.data == map[] && raftLog.lastApplied == 0
    }

    /**
     * A follower on the persisted term and vote, over the log read back from disk, with
     * the latest snapshot on disk, if one loads, restored into the store.
     */
    constructor (nodeId: string, storedTerm: int, storedVotedFor: Option<string>, loaded: seq<LogEntry>,
                 listing: Option<seq<string>>, read: string -> Option<Snapshot>)
      ensures Valid()
      ensures this.nodeId == nodeId && state == Follower && currentTerm == storedTerm && votedFor == storedVotedFor
      ensures raftLog.entries == loaded && replicator == null && peers == map[] && votesReceived == {}
      ensures listing.None? || (forall i :: 0 <= i < |listing.value| ==> IndexOf(listing.value[i]).None?) ==>
                kvStore.data == map[] && raftLog.lastApplied == 0
      ensures listing.Some? && (exists i :: 0 <= i < |listing.value| && IndexOf(listing.value[i]).Some?) ==>
                exists p :: IsLatest(listing.value, p) && RestoredFrom(read(listing.value[p]))
    {
      this.nodeId := nodeId;
      peers := map[];
      state := Follower;
      currentTerm := storedTerm;
      votedFor := storedVotedFor;
      commitIndex := 0;
      nextIndex := map[];
      matchIndex := map[];
      votesReceived := {};
      var log, store, follower, manager, restored, position := StartComponents(nodeId, loaded, listing, read);
      raftLog := log;
      kvStore := store;
      followerReplicator := follower;
      snapshotManager := manager;
      replicator := null;
      readLease := new ReadLease();
      grants := if storedVotedFor.Some? then {(storedTerm, storedVotedFor.value)} else {};
      new;
      assert RestoredFrom(restored);
    }

    /** The periodic snapshot check, taken in the node's current term. */
    method SnapshotTick(now: int, saveSucceeds: bool) returns (created: bool, written: Option<Snapshot>)
      requires Valid()
      modifies snapshotManager, raftLog
      ensures Valid()
      ensures snapshotManager.currentTerm == currentTerm
      ensures |old(raftLog.entries)| < SNAPSHOT_THRESHOLD ==> !created && raftLog.entries == old(raftLog.entries)
      ensures |old(raftLog.entries)| >= SNAPSHOT_THRESHOLD ==>
                snapshotManager.Taken(old(raftLog.entries), old(raftLog.lastApplied), now, saveSucceeds, created, written)
    {
      snapshotManager.SetCurrentTerm(currentTerm);
      created, written := snapshotManager.CheckAndCreateSnapshot(now, saveSucceeds);
    }

    method ConfigurePeers(peerMap: map<string, string>)
      modifies this
      ensures peers == old(peers) + peerMap
      ensures currentTerm == old(currentTerm) && votedFor == old(votedFor) && state == old(state)
      ensures replicator == old(replicator) && grants == old(grants) && votesReceived == old(votesReceived)
    {
      peers := peers + peerMap;
    }

    function GetMajority(): int
      reads this
    {
      Majority(|peers| + 1)
    }

    function HasQuorumConnectivity(activePeers: Option<int>): bool
      reads this
    {
      QuorumConnectivity(|peers|, activePeers)
    }

    /**
     * A higher term makes this node a follower of that term without a vote; a leader
     * also gives up its replicator and its read lease, as stepping down does. A term
     * no higher changes nothing.
     */
    method UpdateTerm(newTerm: int)
      requires Valid()
      modifies this, kvStore, readLease
      ensures Valid()
      ensures newTerm > old(currentTerm) ==>
                && currentTerm == newTerm && votedFor == None && state == Follower
                && replicator == null && kvStore.currentTerm == newTerm
                && (old(replicator) != null ==> readLease.leaseExpiresAt == 0)
                && (old(replicator) == null ==> readLease.leaseExpiresAt == old(readLease.leaseExpiresAt))
      ensures newTerm <= old(currentTerm) ==>
                && currentTerm == old(currentTerm) && votedFor == old(votedFor) && state == old(state)
                && replicator == old(replicator) && kvStore.currentTerm == old(kvStore.currentTerm)
                && kvStore.hasReplicator == old(kvStore.hasReplicator)
                && readLease.leaseExpiresAt == old(readLease.leaseExpiresAt)
      ensures StoreKept() && grants == old(grants) && votesReceived == old(votesReceived) && peers == old(peers)
      ensures commitIndex == old(commitIndex)
    {
      if newTerm > currentTerm {
        var oldState := state;
        currentTerm := newTerm;
        votedFor := None;
        state := Follower;
        kvStore.SetCurrentTerm(currentTerm);
        if oldState == Leader && replicator != null {
          replicator := null;
          kvStore.SetReplicator(false);
          readLease.Invalidate();
        }
      }
    }

    /** The store's contents and applied entries as they were on entry. */
    twostate predicate StoreKept()
      reads this, kvStore
    {
      && kvStore.data == old(kvStore.data) && kvStore.lastAppliedSequence == old(kvStore.lastAppliedSequence)
      && kvStore.applied == old(kvStore.applied) && kvStore.evictionCount == old(kvStore.evictionCount)
    }

    /**
     * The term update as the source writes it: a higher term makes the node a follower
     * without a vote, but a leader keeps its replicator installed in the store.
     */
    method UpdateTermAsWritten(newTerm: int)
      requires Valid()
      modifies this, kvStore
      ensures Wired() && VotesSafe() && (replicator != null ==> replicator.raftLog == raftLog)
      ensures newTerm > old(currentTerm) ==>
                && currentTerm == newTerm && votedFor == None && state == Follower && kvStore.currentTerm == newTerm
                && replicator == old(replicator) && kvStore.hasReplicator == old(kvStore.hasReplicator)
      ensures newTerm <= old(currentTerm) ==>
                currentTerm == old(currentTerm) && votedFor == old(votedFor) && state == old(state) && Valid()
      ensures StoreKept() && kvStore.hasReplicator == old(kvStore.hasReplicator)
    {
      if newTerm > currentTerm {
        currentTerm := newTerm;
        votedFor := None;
        state := Follower;
        kvStore.SetCurrentTerm(currentTerm);
      }
    }

    /**
     * With the term update as written, a leader that learns of a higher term is a
     * follower whose store still accepts a write and appends it to the log, in the new term.
     */
    method DemotedLeaderStillAcceptsWrites(key: string, value: string, clientId: string, sequenceNumber: int, now: int)
      returns (r: Result<int, StoreError>)
      requires Valid() && state == Leader && replicator != null
      modifies this, kvStore, raftLog
      ensures state == Follower && currentTerm == old(currentTerm) + 1
      ensures r == Ok(|old(raftLog.entries)| + 1) && |raftLog.entries| == |old(raftLog.entries)| + 1
      ensures raftLog.entries[|raftLog.entries| - 1].term == currentTerm
    {
      UpdateTermAsWritten(currentTerm + 1);
      r := kvStore.Put(key, value, clientId, sequenceNumber, now);
    }

    /**
     * Stepping down: the term rises to a higher one given, the node becomes a follower
     * without a vote, and a leader with a replicator gives it and its lease up. Every
     * caller first updates the term from the same message, so no call is ever made with
     * a term above the current one; with a term no higher the vote is cleared within
     * the term, and the vote record is then only kept for a higher term.
     */
    method StepDown(newTerm: int)
      requires Valid()
      modifies this, kvStore, readLease
      ensures Wired() && LeadershipHeld() && (replicator != null ==> replicator.raftLog == raftLog)
      ensures newTerm > old(currentTerm) ==> currentTerm == newTerm && VotesSafe()
      ensures newTerm <= old(currentTerm) ==> currentTerm == old(currentTerm)
      ensures state == Follower && votedFor == None
      ensures old(state) == Leader && old(replicator) != null ==> replicator == null && readLease.leaseExpiresAt == 0
      ensures !(old(state) == Leader && old(replicator) != null) ==> replicator == old(replicator)
      ensures StoreKept()
    {
      if newTerm > currentTerm {
        currentTerm := newTerm;
      }
      var oldState := state;
      state := Follower;
      votedFor := None;
      if oldState == Leader && replicator != null {
        replicator := null;
        kvStore.SetReplicator(false);
        readLease.Invalidate();
      }
    }

    /** A follower stays one; a leader leaving also drops its replicator and its read lease. */
    method BecomeFollower()
      requires Valid()
      modifies this, kvStore, readLease
      ensures Valid()
      ensures state == Follower && currentTerm == old(currentTerm) && votedFor == old(votedFor)
      ensures old(state) == Leader ==> replicator == null && !kvStore.hasReplicator && readLease.leaseExpiresAt == 0
      ensures old(state) != Leader ==> replicator == old(replicator) && readLease.leaseExpiresAt == old(readLease.leaseExpiresAt)
      ensures StoreKept() && grants == old(grants) && votesReceived == old(votesReceived) && peers == old(peers)
      ensures commitIndex == old(commitIndex) && kvStore.currentTerm == old(kvStore.currentTerm)
    {
      if state == Follower {
        return;
      }
      var oldState := state;
      state := Follower;
      if oldState == Leader {
        if replicator != null {
          replicator := null;
        }
        kvStore.SetReplicator(false);
        readLease.Invalidate();
      }
    }

    /** Becoming a candidate; reached only from an election timeout, never from the leader role. */
    method BecomeCandidate()
      requires Valid() && state != Leader
      modifies this
      ensures Valid()
      ensures state == Candidate && currentTerm == old(currentTerm) && votedFor == old(votedFor)
      ensures replicator == old(replicator) && grants == old(grants) && votesReceived == old(votesReceived) && peers == old(peers)
    {
      if state == Candidate {
        return;
      }
      state := Candidate;
    }

    /**
     * Taking the lead: the store learns the term, every peer's next index is set past the
     * log and its match index to 0, one NO_OP entry of the current term is appended at
     * the next index, and a fresh replicator is installed. A leader stays as it is.
     */
    method BecomeLeader()
      requires Valid()
      modifies this, kvStore, raftLog
      ensures Valid()
      ensures old(state) == Leader ==>
                && raftLog.entries == old(raftLog.entries) && replicator == old(replicator)
                && kvStore.currentTerm == old(kvStore.currentTerm)
      ensures old(state) != Leader ==>
                && state == Leader && kvStore.currentTerm == currentTerm && replicator != null && fresh(replicator)
                && raftLog.entries == old(raftLog.entries) + [LogEntry(|old(raftLog.entries)| + 1, currentTerm, None, NoOpEntry)]
                && nextIndex == WithPeers(old(nextIndex), peers, |old(raftLog.entries)| + 1)
                && matchIndex == WithPeers(old(matchIndex), peers, 0)
                && replicator.currentTerm == currentTerm
      ensures raftLog.commitIndex == old(raftLog.commitIndex) && raftLog.lastApplied == old(raftLog.lastApplied)
      ensures state == Leader && currentTerm == old(currentTerm) && votedFor == old(votedFor)
      ensures StoreKept() && grants == old(grants) && votesReceived == old(votesReceived) && peers == old(peers)
    {
      if state == Leader {
        return;
      }
      state := Leader;
      StoreTerm();
      ResetIndices();
      AppendNoOp();
      InstallReplicator();
    }

    /** Every peer's next index set just past the log's last entry, and its match index to 0. */
    method ResetIndices()
      modifies this
      ensures nextIndex == WithPeers(old(nextIndex), peers, |raftLog.entries| + 1)
      ensures matchIndex == WithPeers(old(matchIndex), peers, 0)
      ensures peers == old(peers) && currentTerm == old(currentTerm) && votedFor == old(votedFor) && state == old(state)
      ensures commitIndex == old(commitIndex) && votesReceived == old(votesReceived) && replicator == old(replicator)
      ensures grants == old(grants)
    {
      var lastLogIndex := raftLog.LastIndex();
      nextIndex := WithPeers(nextIndex, peers, lastLogIndex + 1);
      matchIndex := WithPeers(matchIndex, peers, 0);
    }

    /** Tells the store the node's current term. */
    method StoreTerm()
      requires Wired()
      modifies kvStore
      ensures Wired() && kvStore.currentTerm == currentTerm && kvStore.hasReplicator == old(kvStore.hasReplicator)
      ensures StoreKept()
    {
      kvStore.SetCurrentTerm(currentTerm);
    }

    /** Appends the new leader's NO_OP entry of its term at the next index. */
    method AppendNoOp()
      requires Wired()
      modifies raftLog
      ensures Wired()
      ensures raftLog.entries == old(raftLog.entries) + [LogEntry(|old(raftLog.entries)| + 1, currentTerm, None, NoOpEntry)]
      ensures raftLog.commitIndex == old(raftLog.commitIndex) && raftLog.lastApplied == old(raftLog.lastApplied)
    {
      var noOpIndex := raftLog.LastIndex() + 1;
      raftLog.Append(LogEntry(noOpIndex, currentTerm, None, NoOpEntry));
    }

    /** A fresh replicator over the node's log, installed in the node and in its store. */
    method InstallReplicator()
      requires Wired() && VotesSafe() && state == Leader
      modifies this, kvStore
      ensures Valid() && replicator != null && fresh(replicator) && replicator.raftLog == raftLog && kvStore.hasReplicator
      ensures replicator.currentTerm == currentTerm
      ensures kvStore.currentTerm == old(kvStore.currentTerm) && StoreKept()
      ensures currentTerm == old(currentTerm) && votedFor == old(votedFor) && state == old(state) && grants == old(grants)
      ensures votesReceived == old(votesReceived) && peers == old(peers)
      ensures nextIndex == old(nextIndex) && matchIndex == old(matchIndex) && commitIndex == old(commitIndex)
    {
      replicator := new LeaderReplicator(nodeId, currentTerm, raftLog, peers);
      kvStore.SetReplicator(true);
    }

    /** A candidate holding votes from a majority of the cluster, itself included, takes the lead. */
    method CheckElectionResult()
      requires Valid()
      modifies this, kvStore, raftLog
      ensures Valid()
      ensures old(state) == Candidate && |votesReceived| >= GetMajority() ==>
                && state == Leader
                && raftLog.entries == old(raftLog.entries) + [LogEntry(|old(raftLog.entries)| + 1, currentTerm, None, NoOpEntry)]
      ensures !(old(state) == Candidate && |votesReceived| >= GetMajority()) ==>
                state == old(state) && raftLog.entries == old(raftLog.entries) && replicator == old(replicator)
      ensures raftLog.commitIndex == old(raftLog.commitIndex) && raftLog.lastApplied == old(raftLog.lastApplied)
      ensures currentTerm == old(currentTerm) && votedFor == old(votedFor)
      ensures StoreKept() && grants == old(grants) && votesReceived == old(votesReceived) && peers == old(peers)
    {
      if state != Candidate {
        return;
      }
      var votes := |votesReceived|;
      var majority := GetMajority();
      if votes >= majority {
        BecomeLeader();
      }
    }

    /**
     * An election: the term rises by one, the node becomes a candidate voting for
     * itself with only its own vote received, a RequestVote for the new term goes to
     * every peer, and a node without peers wins at once.
     */
    method StartElection() returns (requests: map<string, Message>)
      requires Valid() && state != Leader
      modifies this, kvStore, raftLog
      ensures Valid()
      ensures currentTerm == old(currentTerm) + 1 && votedFor == Some(nodeId) && votesReceived == {nodeId}
      ensures requests == VoteRequests(peers, currentTerm, nodeId)
      ensures state == Leader <==> |peers| == 0
      ensures state != Leader ==> state == Candidate && raftLog.entries == old(raftLog.entries)
      ensures grants == old(grants) + {(currentTerm, nodeId)}
      ensures raftLog.commitIndex == old(raftLog.commitIndex) && raftLog.lastApplied == old(raftLog.lastApplied)
      ensures StoreKept() && peers == old(peers)
    {
      BeginTerm();
      requests := VoteRequests(peers, currentTerm, nodeId);
      SelfVoteWinsAlone(|peers|);
      CheckElectionResult();
    }

    /** The candidate's own part of an election: a new term, the candidate role and its own vote. */
    method BeginTerm()
      requires Valid() && state != Leader
      modifies this
      ensures Valid()
      ensures currentTerm == old(currentTerm) + 1 && votedFor == Some(nodeId) && votesReceived == {nodeId}
      ensures state == Candidate && grants == old(grants) + {(currentTerm, nodeId)}
      ensures replicator == old(replicator) && peers == old(peers)
    {
      currentTerm := currentTerm + 1;
      BecomeCandidate();
      votedFor := Some(nodeId);
      grants := grants + {(currentTerm, nodeId)};
      votesReceived := {nodeId};
    }

    /** An election timeout starts an election from the follower or candidate role, given a connected majority. */
    method OnElectionTimeout(activePeers: Option<int>) returns (requests: map<string, Message>)
      requires Valid()
      modifies this, kvStore, raftLog
      ensures Valid()
      ensures !old(HasQuorumConnectivity(activePeers)) || old(state) == Leader ==>
                requests == map[] && currentTerm == old(currentTerm) && state == old(state)
      ensures old(HasQuorumConnectivity(activePeers)) && old(state) != Leader ==>
                currentTerm == old(currentTerm) + 1 && votedFor == Some(nodeId) && requests.Keys == peers.Keys
      ensures StoreKept()
    {
      requests := map[];
      if !HasQuorumConnectivity(activePeers) {
        return;
      }
      if state == Follower || state == Candidate {
        requests := StartElection();
      }
    }

    /**
     * A vote request: the term is updated first; the vote goes to the candidate when the
     * request is of the current term and this node has not voted, or voted for it.
     */
    method HandleRequestVote(request: Message) returns (response: Message)
      requires Valid() && request.RequestVote?
      modifies this, kvStore, readLease
      ensures Valid()
      ensures currentTerm == (if request.term > old(currentTerm) then request.term else old(currentTerm))
      ensures var before := if request.term > old(currentTerm) then None else old(votedFor);
              var granted := request.term >= old(currentTerm) && (before.None? || before == Some(request.candidateId));
              && response == RequestVoteResponse(currentTerm, nodeId, granted)
              && votedFor == (if granted then Some(request.candidateId) else before)
              && grants == (if granted then old(grants) + {(currentTerm, request.candidateId)} else old(grants))
      ensures StoreKept() && votesReceived == old(votesReceived)
    {
      var requestTerm := request.term;
      var candidateId := request.candidateId;
      UpdateTerm(requestTerm);
      var success := false;
      if requestTerm == currentTerm {
        if votedFor.None? || votedFor == Some(candidateId) {
          success := true;
          votedFor := Some(candidateId);
          grants := grants + {(currentTerm, candidateId)};
        }
      }
      response := RequestVoteResponse(currentTerm, nodeId, success);
    }

    /**
     * A vote answer: the term is updated first; a candidate counts a vote granted in its
     * current term and takes the lead once the votes make a majority.
     */
    method HandleRequestVoteResponse(response: Message)
      requires Valid() && response.RequestVoteResponse?
      modifies this, kvStore, readLease, raftLog
      ensures Valid()
      ensures currentTerm == (if response.term > old(currentTerm) then response.term else old(currentTerm))
      ensures var counted := old(state) == Candidate && response.success && response.term == old(currentTerm);
              && votesReceived == (if counted then old(votesReceived) + {response.senderId} else old(votesReceived))
              && (counted ==> (state == Leader <==> |votesReceived| >= GetMajority()))
      ensures response.term <= old(currentTerm) && old(state) != Candidate ==> state == old(state)
      ensures response.term > old(currentTerm) ==> state == Follower
      ensures var won := && old(state) == Candidate && response.success && response.term == old(currentTerm)
                         && |votesReceived| >= GetMajority();
              && (old(state) == Candidate && response.term <= old(currentTerm) && !won ==> state == Candidate)
              && (won ==> raftLog.entries == old(raftLog.entries) + [LogEntry(|old(raftLog.entries)| + 1, currentTerm, None, NoOpEntry)])
              && (!won ==> raftLog.entries == old(raftLog.entries))
      ensures StoreKept() && grants == old(grants)
    {
      UpdateTerm(response.term);
      var fromNodeId := response.senderId;
      var responseTerm := response.term;
      var voteGranted := response.success;
      if state != Candidate {
        return;
      }
      if responseTerm > currentTerm {
        // the term was just raised to at least the response's term
        assert false;
      }
      if voteGranted && responseTerm == currentTerm {
        votesReceived := votesReceived + {fromNodeId};
        CheckElectionResult();
      }
    }

    /**
     * An AppendEntries request: the term is updated first; one of an older term is
     * refused. Otherwise the request is accepted as `AcceptAppendEntries` describes.
     */
    method HandleAppendEntries(message: Message) returns (response: Message)
      requires Valid() && message.AppendEntries?
      modifies this, kvStore, readLease, raftLog
      ensures Valid()
      ensures currentTerm == (if message.term > old(currentTerm) then message.term else old(currentTerm))
      ensures response.AppendEntriesReply? && response.term == currentTerm && response.senderId == nodeId
      ensures message.term < old(currentTerm) ==>
                && !response.success && response.matchIndex == 0 && state == old(state)
                && raftLog.entries == old(raftLog.entries) && raftLog.commitIndex == old(raftLog.commitIndex)
      ensures message.term >= old(currentTerm) ==>
                state == (if old(state) == Leader && message.term == old(currentTerm) then Leader else Follower)
      ensures message.term >= old(currentTerm) && (message.entries != [] || message.prevLogIndex > 0) ==>
                && (response.success ==> raftLog.entries == Reconcile(old(raftLog.entries), message.entries)
                                         && response.matchIndex == |raftLog.entries|
                                         && raftLog.commitIndex == (if message.leaderCommit > old(raftLog.commitIndex)
                                                                    then MaxIndex(old(raftLog.commitIndex), MinIndex(message.leaderCommit, |raftLog.entries|))
                                                                    else old(raftLog.commitIndex)))
                && (!response.success ==> response.matchIndex == 0 && raftLog.commitIndex == old(raftLog.commitIndex))
      ensures message.term >= old(currentTerm) && message.entries == [] && message.prevLogIndex <= 0 ==>
                && response.success && response.matchIndex == |raftLog.entries| && raftLog.entries == old(raftLog.entries)
                && commitIndex == (if message.leaderCommit > old(commitIndex) then message.leaderCommit else old(commitIndex))
                && raftLog.commitIndex == (if message.leaderCommit > old(commitIndex)
                                           then MaxIndex(old(raftLog.commitIndex), message.leaderCommit)
                                           else old(raftLog.commitIndex))
      ensures raftLog.lastApplied == old(raftLog.lastApplied) && StoreKept() && grants == old(grants)
    {
      UpdateTerm(message.term);
      var success := false;
      var matchIndex := 0;
      if message.term >= currentTerm {
        if message.term > currentTerm {
          // the term was just raised to at least the message's term
          assert false;
        }
        success, matchIndex := AcceptAppendEntries(message);
      }
      response := AppendEntriesReply(currentTerm, nodeId, success, matchIndex);
    }

    /**
     * An AppendEntries request of the current term: a candidate becomes a follower,
     * and a request carrying entries or a previous index goes to the follower
     * replicator, whose answer is passed on; a bare heartbeat raises the commit index
     * to the leader's and answers the last index.
     */
    method AcceptAppendEntries(message: Message) returns (success: bool, matchIndex: int)
      requires Valid() && message.AppendEntries? && message.term == currentTerm
      modifies this, kvStore, readLease, raftLog
      ensures Valid()
      ensures currentTerm == old(currentTerm) && state == (if old(state) == Candidate then Follower else old(state))
      ensures message.entries != [] || message.prevLogIndex > 0 ==>
                && (success ==> raftLog.entries == Reconcile(old(raftLog.entries), message.entries)
                                && matchIndex == |raftLog.entries|
                                && raftLog.commitIndex == (if message.leaderCommit > old(raftLog.commitIndex)
                                                           then MaxIndex(old(raftLog.commitIndex), MinIndex(message.leaderCommit, |raftLog.entries|))
                                                           else old(raftLog.commitIndex)))
                && (!success ==> matchIndex == 0 && raftLog.commitIndex == old(raftLog.commitIndex))
      ensures message.entries != [] || message.prevLogIndex > 0 ==>
                followerReplicator.currentTerm <= currentTerm ==>
                  && (PrevMatches(old(raftLog.entries), message.prevLogIndex, message.prevLogTerm) ==> success)
                  && (message.prevLogIndex > 0 && EntryAt(old(raftLog.entries), message.prevLogIndex).None? ==>
                        !success && raftLog.entries == old(raftLog.entries))
                  && (message.prevLogIndex > 0 && EntryAt(old(raftLog.entries), message.prevLogIndex).Some?
                      && EntryAt(old(raftLog.entries), message.prevLogIndex).value.term != message.prevLogTerm ==>
                        !success && raftLog.entries == TruncatedFrom(old(raftLog.entries), message.prevLogIndex))
      ensures message.entries == [] && message.prevLogIndex <= 0 ==>
                && success && matchIndex == |raftLog.entries| && raftLog.entries == old(raftLog.entries)
                && commitIndex == (if message.leaderCommit > old(commitIndex) then message.leaderCommit else old(commitIndex))
                && raftLog.commitIndex == (if message.leaderCommit > old(commitIndex)
                                           then MaxIndex(old(raftLog.commitIndex), message.leaderCommit)
                                           else old(raftLog.commitIndex))
      ensures raftLog.lastApplied == old(raftLog.lastApplied) && StoreKept() && grants == old(grants)
    {
      if state == Candidate {
        BecomeFollower();
      }
      if message.entries != [] || message.prevLogIndex > 0 {
        var request := AppendEntriesRequest(message.term, message.leaderId, message.prevLogIndex, message.prevLogTerm,
                                            message.entries, message.leaderCommit);
        var followerResponse := followerReplicator.HandleAppendEntries(request);
        success := followerResponse.success;
        matchIndex := followerResponse.matchIndex;
      } else {
        success := true;
        if message.leaderCommit > commitIndex {
          commitIndex := message.leaderCommit;
          raftLog.SetCommitIndex(commitIndex);
        }
        matchIndex := raftLog.LastIndex();
      }
    }

    /**
     * An AppendEntries answer: the term is updated first; a leader hands it to its
     * replicator, which may return a retry request.
     */
    method HandleAppendEntriesResponse(message: Message) returns (retry: Option<Message>)
      requires Valid() && message.AppendEntriesReply?
      modifies this, kvStore, readLease, raftLog, replicator
      ensures Valid()
      ensures currentTerm == (if message.term > old(currentTerm) then message.term else old(currentTerm))
      ensures message.term > old(currentTerm) ==> state == Follower && retry == None
      ensures old(state) != Leader ==> retry == None && raftLog.entries == old(raftLog.entries)
      ensures old(state) == Leader && message.term <= old(currentTerm) ==>
                && state == Leader && replicator == old(replicator)
                && (replicator == null ==> retry == None && raftLog.commitIndex == old(raftLog.commitIndex))
                && (replicator != null ==>
                      replicator.Answered(AppendEntriesResponse(message.term, message.success, message.matchIndex, message.senderId), retry))
      ensures raftLog.entries == old(raftLog.entries) && raftLog.lastApplied == old(raftLog.lastApplied)
      ensures StoreKept() && grants == old(grants)
    {
      retry := None;
      UpdateTerm(message.term);
      if state != Leader {
        return;
      }
      if message.term > currentTerm {
        // the term was just raised to at least the message's term
        assert false;
      }
      if replicator != null {
        var response := AppendEntriesResponse(message.term, message.success, message.matchIndex, message.senderId);
        retry := replicator.HandleAppendEntriesResponse(response);
      }
    }

    /** A follower or candidate hands its term and role to the follower replicator and applies what is committed. */
    method ApplyCommittedEntries(client: MLClient)
      requires Valid()
      modifies followerReplicator, kvStore, raftLog
      ensures Valid()
      ensures state == Follower || state == Candidate ==>
                kvStore.applied == old(kvStore.applied) + ApplyRange(old(raftLog.entries), old(raftLog.lastApplied), old(raftLog.commitIndex))
      ensures state == Leader ==> kvStore.applied == old(kvStore.applied)
      ensures raftLog.entries == old(raftLog.entries)
    {
      if state == Follower || state == Candidate {
        followerReplicator.UpdateState(currentTerm, state);
        followerReplicator.ApplyCommittedEntries(client);
      }
    }
  }
}
