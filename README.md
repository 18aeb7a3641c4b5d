# raft-cache in Dafny

A verified model of the sequential core of raft-cache. raft-cache is a key-value cache replicated with Raft whose eviction is ranked by a small machine-learning service. The model covers these parts:

- **The eviction service** (`EvictionService`): feature extraction from a key's access times, the bounded hash feature, and `POST /predict`. The classifier is an uninterpreted function into [0, 1]. Predictions are stably sorted by ascending probability. The first prediction is the key to evict, with confidence `1 - p`.
- **The Raft log and replication** (`Log`, `FollowerReplication`, `LeaderReplication`):
  - `Log` is a 1-based log with truncation, suffixes, compaction and commit/applied indices that never fall.
  - `FollowerReplication` covers the follower's AppendEntries consistency check and reconciliation of the sent entries.
  - `LeaderReplication` covers the leader's per-follower next/match indices, the request it builds, next-index backoff, and commit of current-term entries held by a majority.
- **The node's term, vote and role state machine** (`Node`): term updates, elections, vote granting and role transitions. It also covers the term/role part of the AppendEntries handlers and the startup restore from a snapshot.
- **The key-value state machine** (`Store`): applying committed entries with per-client sequence-number deduplication, capacity-triggered eviction, and the leader-only write path.
- **Snapshots** (`Snapshots`, `SnapshotManagement`): the file-name encoding and its parsing, choosing the latest snapshot file, taking a snapshot and compacting the log, and restoring one.
- **Access tracking and eviction policies** (`Stats`, `Tracking`, `LRU`, `MLEviction`):
  - a bounded history of 100 access times per key, with its hour and day counts recomputed on decay;
  - least-recently-used selection;
  - prediction-ranked selection with a fallback to least-recently-used.
- **The simple in-memory cache** (`CacheEntries`, `Cache`).
- **Configuration and small rules** (`Nodes`, `Cluster`, `Lease`, `Peers`):
  - node validation;
  - cluster validation with its exact error messages, lookups and majority size;
  - read-lease expiry;
  - reconnect backoff and per-peer task bookkeeping.

Shared modules:
- `Wrappers`: `Option` and `Result`.
- `JavaInts`: 32-bit wrap-around.
- `Decimal`: `%d` printing and `Long.parseLong`.
- `Sorting`: a stable insertion sort by a real-valued rank.
- `Windows`: inclusive time-window counts.
- `Quorum`: majority `n / 2 + 1`.
- `Protocol`: log entries, commands and messages.

External inputs are parameters:
- the clock, as `now` and `timestamp` arguments;
- the MD5 digest and the local date-time conversion, which has no answer outside the calendar's range, as an `Environment`;
- the classifier (`Model`) and the prediction client (`MLClient`: whether the health check answers, and the predictions returned for a payload);
- the disk, as a directory listing, a reader and a `saveSucceeds` flag.

Hash-map iteration order is the nondeterministic choice `:|`. Where iteration order shows in a result, the contracts allow any order.

## Model

| member | source | states |
|---|---|---|
| EvictionService.HashKey | ml-service/app.py:46-48 | the hash feature lies in [0, 1) and is an exact multiple of 1/10000, namely (digest mod 10000)/10000 |
| EvictionService.MaxOf | ml-service/app.py:71 | the last access of a non-empty history is one of its timestamps and no timestamp exceeds it |
| EvictionService.ExtractFeatures | ml-service/app.py:51-95 | none exactly when the current time has no local date-time (the conversion that raises, first of all); otherwise hash in [0, 1); hours since last access exactly 168 for an empty history or one whose last access is more than 168 hours ago, otherwise the elapsed time in hours; hour and day window counts are the inclusive counts, with hour ≤ day ≤ history length; hour of day and weekday are the local date-time's |
| EvictionService.Score | ml-service/app.py:162-177 | none exactly for a `null` history or a time without a local date-time; otherwise the prediction carries the key, the classifier's probability of its features, and willBeAccessed exactly when the probability is at least 0.5 |
| EvictionService.Health | ml-service/app.py:98-104 | the health check answers 200 exactly when a model is loaded and 503 exactly when none is |
| EvictionService.Predict | ml-service/app.py:107-194 | 503 without a model; 400 invalid format for a missing body, key list or history map; 400 no keys for a null or empty key list; 500 when a non-empty key list meets a null history map or null time, a time without a local date-time, or a requested key whose history is null; otherwise one prediction per requested key at the given time (the clock when absent), a stable ascending permutation of them, the evicted key of minimum probability and confidence 1 - p in [0, 1] |
| Windows.CountAtLeastIsCardinality | src/main/java/com/distributed/cache/store/AccessStats.java:69-76 | the window count is the number of positions whose timestamp is at or after the threshold |
| Windows.CountAtLeastAntitone | ml-service/app.py:76-82 | a later threshold never counts more accesses |
| Windows.HourWithinDay | ml-service/app.py:76-82 | the hour window never holds more accesses than the day window |
| Sorting.SortByIsStableSort | ml-service/app.py:180 | the sort by rank yields a non-decreasing order, a permutation of its input, and keeps the input order among equal ranks |
| Quorum.Majority | src/main/java/com/distributed/cache/raft/RaftNode.java:437-440 | n / 2 + 1 is at most n for a non-empty cluster, more than half of n, and the least such size |
| Quorum.MajoritiesIntersect | src/main/java/com/distributed/cache/raft/RaftNode.java:426-435 | any two majorities of the same members share a member |
| JavaInts.WrapInt | src/main/java/com/distributed/cache/config/ClusterConfig.java:196 | an int expression is its mathematical value narrowed to 32 bits: in range, unchanged when already in range, congruent modulo 2^32 |
| Decimal.IntToString | src/main/java/com/distributed/cache/config/NodeInfo.java:86-88 | a number prints as digits, with a leading minus sign exactly for negative numbers |
| Decimal.ParseLong | src/main/java/com/distributed/cache/raft/Snapshot.java:116 | a parsed value is a long, read from a text starting with a digit or sign, non-negative without a minus sign; the empty text, a lone sign and any non-digit after the first character are rejected |
| Decimal.ParseLongOfIntToString | src/main/java/com/distributed/cache/raft/Snapshot.java:66-116 | a long printed with %d parses back to itself |
| Log.EntryAt | src/main/java/com/distributed/cache/replication/RaftLog.java:72-83 | the entry at index i exists exactly for 1 ≤ i ≤ size and is then entries[i-1] |
| Log.EntriesSince | src/main/java/com/distributed/cache/replication/RaftLog.java:91-103 | for 1 ≤ i ≤ size+1 the suffix holds size+1-i entries, each being the entry at i+k; otherwise it is empty |
| Log.TruncatedFrom | src/main/java/com/distributed/cache/replication/RaftLog.java:111-130 | truncation at 1 ≤ i ≤ size keeps exactly the first i-1 entries and no entry from i on; an index out of range leaves the log as it is |
| Log.LastTerm | src/main/java/com/distributed/cache/replication/RaftLog.java:151-161 | the last term is that of the entry at the last index, 0 for an empty log |
| Log.UpToDate | src/main/java/com/distributed/cache/replication/RaftLog.java:171-187 | a log described by (index, term) is up to date exactly when its term is higher, or equal with an index at least the last index |
| Log.UpToDateIsTotalPreorder | src/main/java/com/distributed/cache/replication/RaftLog.java:171-187 | every log is up to date against itself, and of any two logs one is up to date against the other |
| Log.RaftLog.constructor | src/main/java/com/distributed/cache/replication/RaftLog.java:36-48 | the log starts with the entries loaded from disk, nothing committed or applied |
| Log.RaftLog.Append | src/main/java/com/distributed/cache/replication/RaftLog.java:55-64 | append grows the log by the new entry at the end, earlier entries and indices unchanged |
| Log.RaftLog.DeleteEntriesFrom | src/main/java/com/distributed/cache/replication/RaftLog.java:111-130 | the log becomes its truncation at the index; commit and applied indices unchanged |
| Log.RaftLog.GetEntry | src/main/java/com/distributed/cache/replication/RaftLog.java:72-83 | the entry at a 1-based index exists exactly for 1 ≤ index ≤ last index, and is then entries[index-1] |
| Log.RaftLog.GetEntriesSince | src/main/java/com/distributed/cache/replication/RaftLog.java:91-103 | for 1 ≤ index ≤ last index + 1 the suffix holds last + 1 - index entries, each the entry at index + k; otherwise it is empty |
| Log.RaftLog.LastIndex | src/main/java/com/distributed/cache/replication/RaftLog.java:137-144 | non-negative; the entry at the last index exists when it is positive, and none follows it |
| Log.RaftLog.GetLastTerm | src/main/java/com/distributed/cache/replication/RaftLog.java:151-161 | the term of the entry at the last index, 0 for an empty log |
| Log.RaftLog.IsUpToDate | src/main/java/com/distributed/cache/replication/RaftLog.java:171-187 | a candidate (index, term) is up to date exactly when its term is higher, or equal with an index at least the last index |
| Log.RaftLog.SetCommitIndex | src/main/java/com/distributed/cache/replication/RaftLog.java:200-206 | the commit index becomes the maximum of the old and the given index |
| Log.RaftLog.SetLastApplied | src/main/java/com/distributed/cache/replication/RaftLog.java:219-225 | the applied index becomes the maximum of the old and the given index |
| Log.RaftLog.DeleteEntriesUpTo | src/main/java/com/distributed/cache/replication/RaftLog.java:249-264 | compaction removes exactly the leading entries numbered at most u and answers their count; any remaining first entry is numbered above u |
| Log.CompactionShiftsPositions | src/main/java/com/distributed/cache/replication/RaftLog.java:249-264 | after compacting n entries of a densely numbered log, position j holds entry number j+n, so positions and entry numbers disagree |
| FollowerReplication.ReconcileOnePlaces | src/main/java/com/distributed/cache/replication/FollowerReplicator.java:88-106 | reconciling the next entry keeps the log before it and puts the entry's term at its index |
| FollowerReplication.ReconcileKeepsPrefix | src/main/java/com/distributed/cache/replication/FollowerReplicator.java:88-106 | a well-formed request leaves the log up to its previous index alone and reaches at least its last entry |
| FollowerReplication.ReconcilePlacesAll | src/main/java/com/distributed/cache/replication/FollowerReplicator.java:88-106 | after a well-formed request each of its entries is held at its index with its term |
| FollowerReplication.ReconcileOfPresent | src/main/java/com/distributed/cache/replication/FollowerReplicator.java:88-106 | entries already present with the same term are not re-appended: the log stays as it is |
| FollowerReplication.RedeliveredRequestIsIdempotent | src/main/java/com/distributed/cache/replication/FollowerReplicator.java:88-106 | delivering the same well-formed request twice leaves the log as one delivery does |
| FollowerReplication.ApplyRange | src/main/java/com/distributed/cache/replication/FollowerReplicator.java:134-161 | the entries applied are those at lastApplied+1 up to min(commit index, last index), in order; none when commit ≤ applied |
| FollowerReplication.FollowerReplicator.constructor | src/main/java/com/distributed/cache/replication/FollowerReplicator.java:31-37 | the replicator shares the node's log and store and starts in term 0 without a role |
| FollowerReplication.FollowerReplicator.UpdateState | src/main/java/com/distributed/cache/replication/FollowerReplicator.java:42-45 | the replicator takes the node's term and role |
| FollowerReplication.FollowerReplicator.HandleAppendEntries | src/main/java/com/distributed/cache/replication/FollowerReplicator.java:53-128 | a stale term or a missing previous entry is refused with log and commit untouched; a previous entry of another term is refused after truncating there; otherwise the log is the reconciliation, the commit index rises to min(leaderCommit, last index) when the leader's is higher and never falls, and the answer reports success with the last index |
| FollowerReplication.FollowerReplicator.AppendNewEntries | src/main/java/com/distributed/cache/replication/FollowerReplicator.java:88-106 | the loop over the request's entries leaves the log equal to their reconciliation, indices unchanged |
| FollowerReplication.FollowerReplicator.ApplyCommittedEntries | src/main/java/com/distributed/cache/replication/FollowerReplicator.java:134-161 | exactly the entries of ApplyRange are handed to the store, in index order; log and commit index unchanged |
| FollowerReplication.FollowerReplicator.ApplyEntry | src/main/java/com/distributed/cache/replication/FollowerReplicator.java:147-150 | one entry is handed to the store's apply step |
| LeaderReplication.PrevTerm | src/main/java/com/distributed/cache/replication/LeaderReplicator.java:117-126 | the previous term is that entry's term, 0 at index 0 or for a missing entry |
| LeaderReplication.RequestFor | src/main/java/com/distributed/cache/replication/LeaderReplicator.java:117-137 | the request's previous index is next-1 and its entries are exactly the suffix from the next index |
| LeaderReplication.CatchUpFrom | src/main/java/com/distributed/cache/replication/LeaderReplicator.java:115-151 | reconciling the rest of a dense leader log from an agreed position extends the follower to hold the leader's log as a prefix |
| LeaderReplication.ReplicationCatchesUp | src/main/java/com/distributed/cache/replication/LeaderReplicator.java:115-151 | a follower agreeing up to nextIndex-1 passes the consistency check on the request built for it and then holds the leader's log as a prefix |
| LeaderReplication.LeaderReplicator.constructor | src/main/java/com/distributed/cache/replication/LeaderReplicator.java:48-67 | every peer starts with next index lastIndex+1 and match index 0 |
| LeaderReplication.LeaderReplicator.ReplicateToFollower | src/main/java/com/distributed/cache/replication/LeaderReplicator.java:115-151 | the request is built from the follower's next index (1 when it has none): previous index, its term, the suffix and the leader's commit index |
| LeaderReplication.LeaderReplicator.ReplicateToAllFollowers | src/main/java/com/distributed/cache/replication/LeaderReplicator.java:105-110 | every peer gets its request, then the commit index advances as UpdateCommitIndex states |
| LeaderReplication.LeaderReplicator.HandleAppendEntriesResponse | src/main/java/com/distributed/cache/replication/LeaderReplicator.java:156-189 | `Answered`: a higher-term answer changes no index; a success sets match m and next m+1 and tries to commit; a failure lowers next by one, never below 1, and retries with the request for the new next index only when it did |
| LeaderReplication.LeaderReplicator.UpdateCommitIndex | src/main/java/com/distributed/cache/replication/LeaderReplicator.java:197-227 | the commit index never falls, rises only to an index whose entry is of the current term and held by a majority counting the leader, and no higher index qualifies |
| LeaderReplication.LeaderReplicator.GetNextIndex | src/main/java/com/distributed/cache/replication/LeaderReplicator.java:232-234 | a peer's next index, 0 for an id without one |
| LeaderReplication.LeaderReplicator.GetMatchIndex | src/main/java/com/distributed/cache/replication/LeaderReplicator.java:239-241 | a peer's match index, 0 for an id without one |
| LeaderReplication.LeaderReplicator.ReplicatedCount | src/main/java/com/distributed/cache/replication/LeaderReplicator.java:209-214 | the count is the leader plus the followers whose match index reaches n |
| Node.QuorumConnectivity | src/main/java/com/distributed/cache/raft/RaftNode.java:327-335 | an election may start without peers or network; otherwise exactly when the connected peers with this node make a majority |
| Node.VoteRequests | src/main/java/com/distributed/cache/raft/RaftNode.java:353-369 | each peer is sent a RequestVote of the candidate's term, with last log index and term 0 |
| Node.SelfVoteWinsAlone | src/main/java/com/distributed/cache/raft/RaftNode.java:426-435 | a candidate's own vote is a majority exactly when it has no peers |
| Node.StartComponents | src/main/java/com/distributed/cache/raft/RaftNode.java:90-103 | fresh log, store, follower replicator and snapshot manager wired to one log and one store; the store is restored from the latest loadable snapshot file, or empty with nothing applied when there is none |
| Node.RaftNode.constructor | src/main/java/com/distributed/cache/raft/RaftNode.java:80-112 | a follower on the stored term and vote over the loaded log; without a directory or a loadable name the store is empty and nothing applied; otherwise the store and applied index are restored from reading the latest snapshot file, or empty when it is unreadable |
| Node.RaftNode.SnapshotTick | src/main/java/com/distributed/cache/raft/RaftNode.java:184-191 | the manager takes the node's term, then checks and takes a snapshot as CheckAndCreateSnapshot states |
| Node.RaftNode.ConfigurePeers | src/main/java/com/distributed/cache/raft/RaftNode.java:114-117 | the peers are added to the peer map; term, vote and role unchanged |
| Node.RaftNode.UpdateTerm | src/main/java/com/distributed/cache/raft/RaftNode.java:606-617 | a higher term makes the node a follower of that term without a vote and releases a leader's replicator and lease; a term no higher changes nothing; the one-vote-per-term record is kept |
| Node.RaftNode.UpdateTermAsWritten | src/main/java/com/distributed/cache/raft/RaftNode.java:606-617 | as written, a higher term makes the node a follower without a vote while its replicator stays installed in the store |
| Node.RaftNode.DemotedLeaderStillAcceptsWrites | src/main/java/com/distributed/cache/store/KeyValueStore.java:104-119 | after the term update as written, a demoted leader's store still accepts a write and appends it to the log |
| Node.RaftNode.StepDown | src/main/java/com/distributed/cache/raft/RaftNode.java:620-638 | the node becomes a follower without a vote in the higher of its term and the given one; a leader releases its replicator and lease |
| Node.RaftNode.BecomeFollower | src/main/java/com/distributed/cache/raft/RaftNode.java:541-557 | the node is a follower, term and vote unchanged; a former leader has no replicator and an invalidated lease |
| Node.RaftNode.BecomeCandidate | src/main/java/com/distributed/cache/raft/RaftNode.java:597-603 | the node is a candidate, term, vote and votes unchanged |
| Node.RaftNode.BecomeLeader | src/main/java/com/distributed/cache/raft/RaftNode.java:559-595 | a leader stays as it is; otherwise the store learns the term, every peer gets next lastIndex+1 and match 0, exactly one NO_OP of the current term is appended at lastIndex+1, and a fresh replicator is installed |
| Node.RaftNode.StoreTerm | src/main/java/com/distributed/cache/raft/RaftNode.java:567-568 | the store takes the node's current term |
| Node.RaftNode.ResetIndices | src/main/java/com/distributed/cache/raft/RaftNode.java:570-574 | every peer's next index becomes the log's last index + 1 and its match index 0; other map entries and the node's other fields are kept |
| Node.RaftNode.AppendNoOp | src/main/java/com/distributed/cache/raft/RaftNode.java:576-580 | one NO_OP entry of the current term is appended at the next index |
| Node.RaftNode.InstallReplicator | src/main/java/com/distributed/cache/raft/RaftNode.java:582-584 | a fresh replicator over the node's log in the current term is installed in node and store |
| Node.RaftNode.CheckElectionResult | src/main/java/com/distributed/cache/raft/RaftNode.java:426-435 | a candidate with a majority of votes becomes leader with one NO_OP appended; otherwise nothing changes |
| Node.RaftNode.StartElection | src/main/java/com/distributed/cache/raft/RaftNode.java:337-351 | the term rises by one, the node votes for itself with only its own vote received, a RequestVote goes to each peer, and it leads at once exactly when it has no peers |
| Node.RaftNode.BeginTerm | src/main/java/com/distributed/cache/raft/RaftNode.java:338-345 | the term rises by one and the node is a candidate voting for itself with only its own vote |
| Node.RaftNode.OnElectionTimeout | src/main/java/com/distributed/cache/raft/RaftNode.java:296-325 | without a connected majority, or as leader, nothing happens; otherwise an election starts in the next term |
| Node.RaftNode.HandleRequestVote | src/main/java/com/distributed/cache/raft/RaftNode.java:371-399 | after the term update the vote is granted exactly when the request's term is current and the node has not voted or voted for this candidate; granting records the vote, and one candidate per term is kept |
| Node.RaftNode.HandleRequestVoteResponse | src/main/java/com/distributed/cache/raft/RaftNode.java:401-424 | after the term update a candidate counts a vote granted in its term and becomes leader exactly when the votes make a majority, appending one NO_OP of its term; a higher term makes it a follower; a candidate whose response is denied, of an older term, or short of a majority stays candidate; without a win the log is unchanged |
| Node.RaftNode.HandleAppendEntries | src/main/java/com/distributed/cache/raft/RaftNode.java:446-513 | after the term update an older term is refused with term, role, log and commit unchanged; otherwise a leader of the same term stays leader, any other node is a follower, and the answer and log are those of `AcceptAppendEntries` |
| Node.RaftNode.AcceptAppendEntries | src/main/java/com/distributed/cache/raft/RaftNode.java:463-502 | a candidate becomes a follower; a request with entries or a previous index is answered as the follower replicator does, with the reconciled log and its commit index rising to min(leaderCommit, last index) on success, and match 0 with the commit unchanged on failure; once the follower replicator's term is no later than the node's, a matching previous entry succeeds, a missing one is refused with the log untouched and one of another term is refused after truncating the log there; a bare heartbeat succeeds, raises both commit indices to the leader's and answers the last index |
| Node.RaftNode.HandleAppendEntriesResponse | src/main/java/com/distributed/cache/raft/RaftNode.java:515-539 | after the term update a higher term makes the node a follower without a retry; a non-leader does nothing; a leader stays leader and its replicator handles the answer as `Answered` states (match and next indices, commit advance, retry) |
| Node.RaftNode.ApplyCommittedEntries | src/main/java/com/distributed/cache/raft/RaftNode.java:643-648 | a follower or candidate applies exactly the ApplyRange entries; a leader applies nothing here |
| Store.Step | src/main/java/com/distributed/cache/store/KeyValueStore.java:336-393 | applying one entry never lowers the applied index and raises it only to the entry's; only the command's key is added and only evicted keys or a deleted key removed; clients are never forgotten; a NO_OP keeps data and sequences, an ineffective command keeps sequences and applied index |
| Store.RedeliveryChangesNothing | src/main/java/com/distributed/cache/store/KeyValueStore.java:352-357 | applying the same entry twice changes nothing the second time, except a PUT without a value, which can evict again |
| Store.KeyValueStore.constructor | src/main/java/com/distributed/cache/store/KeyValueStore.java:46-63 | an empty store in term 0 without replicator, with a fresh tracker and an ML policy over it |
| Store.KeyValueStore.SetCurrentTerm | src/main/java/com/distributed/cache/store/KeyValueStore.java:68-70 | the store takes the term; nothing else changes |
| Store.KeyValueStore.SetReplicator | src/main/java/com/distributed/cache/store/KeyValueStore.java:75-77 | the replicator is installed or removed; nothing else changes |
| Store.KeyValueStore.Put | src/main/java/com/distributed/cache/store/KeyValueStore.java:104-119 | without a replicator NotLeader and the log unchanged; otherwise one PUT COMMAND entry of the current term is appended at lastIndex+1 and that index answered |
| Store.KeyValueStore.Delete | src/main/java/com/distributed/cache/store/KeyValueStore.java:289-304 | as Put, with a DELETE command without a value |
| Store.KeyValueStore.Get | src/main/java/com/distributed/cache/store/KeyValueStore.java:154-164 | the local read answers the stored value or none; a hit records an access at now as the tracker does: the key's stats are kept (fresh on its first access), its history is Retained, its last access is now and both counters rise by one with a Java int wrap, and every other key's stats are the same, unchanged objects; a miss leaves the tracker and all its stats unchanged |
| Store.KeyValueStore.ApplyCommand | src/main/java/com/distributed/cache/store/KeyValueStore.java:336-393 | a NO_OP only raises lastApplied; other types, undecodable and duplicate commands change nothing; a PUT of a new key into a full store evicts the policy's selection of 100 first; PUT/DELETE/GET act on the data, the client's sequence is recorded and lastApplied becomes max(old, index); evictionCount grows by the keys removed |
| Store.KeyValueStore.ExecuteCommand | src/main/java/com/distributed/cache/store/KeyValueStore.java:360-388 | a fresh command executes on the data, records its sequence and raises lastApplied; a PUT without a value stops after eviction |
| Store.KeyValueStore.ApplyPut | src/main/java/com/distributed/cache/store/KeyValueStore.java:361-368 | a new key triggers the eviction check, then the value is stored; a missing value stores nothing |
| Store.KeyValueStore.RecordApplied | src/main/java/com/distributed/cache/store/KeyValueStore.java:384-388 | the client's sequence becomes the command's and lastApplied becomes max(old, index) |
| Store.KeyValueStore.CheckAndEvict | src/main/java/com/distributed/cache/store/KeyValueStore.java:452-469 | at 1000 keys or more the policy's selection for 100 is removed and counted; below, nothing happens |
| Store.KeyValueStore.RemoveKeys | src/main/java/com/distributed/cache/store/KeyValueStore.java:462-465 | each listed key is removed and counted once per listing |
| Store.KeyValueStore.RestoreFromSnapshot | src/main/java/com/distributed/cache/store/KeyValueStore.java:440-447 | data and client sequences become exactly the snapshot's |
| Stats.Retained | src/main/java/com/distributed/cache/store/AccessStats.java:46-49 | the history after an access ends with the new timestamp, holds at most 100, and keeps the newest of the old ones, dropping the oldest first |
| Stats.AccessStats.constructor | src/main/java/com/distributed/cache/store/AccessStats.java:28-34 | empty history, zero counters, last access 0 |
| Stats.AccessStats.RecordAccess | src/main/java/com/distributed/cache/store/AccessStats.java:41-54 | last access becomes the timestamp, the history is Retained, and both counters rise by one as Java ints |
| Stats.AccessStats.Decay | src/main/java/com/distributed/cache/store/AccessStats.java:64-81 | both counters become the inclusive window counts of the history; history and last access unchanged |
| Stats.AccessStats.TotalAccessCount | src/main/java/com/distributed/cache/store/AccessStats.java:121-123 | the number of retained access times, at most 100 in a valid record |
| Tracking.AccessTracker.constructor | src/main/java/com/distributed/cache/store/AccessTracker.java:34-42 | no key is tracked |
| Tracking.AccessTracker.RecordAccess | src/main/java/com/distributed/cache/store/AccessTracker.java:91-97 | the key becomes tracked, fresh stats on its first access; its last access becomes the timestamp, its history is Retained, and its hour and day counters are the previous ones (0 when untracked) plus one as Java ints; every other key's stats unchanged |
| Tracking.AccessTracker.GetStats | src/main/java/com/distributed/cache/store/AccessTracker.java:105-107 | the stats of a tracked key, null exactly for an untracked one |
| Tracking.AccessTracker.AccessHistory | src/main/java/com/distributed/cache/store/AccessTracker.java:135-141 | every tracked key maps to its retained access times, and no other key appears |
| Tracking.AccessTracker.RemoveKey | src/main/java/com/distributed/cache/store/AccessTracker.java:148-151 | exactly that key stops being tracked |
| Tracking.AccessTracker.PerformDecay | src/main/java/com/distributed/cache/store/AccessTracker.java:157-173 | every tracked key's counters become its counts at now - 1 hour and now - 1 day, so hour ≤ day; histories unchanged |
| Tracking.AccessTracker.Clear | src/main/java/com/distributed/cache/store/AccessTracker.java:185-188 | no key is tracked |
| Tracking.AccessTracker.TrackedKeyCount | src/main/java/com/distributed/cache/store/AccessTracker.java:178-180 | the number of tracked keys, 0 exactly when none is tracked |
| LRU.OldestPrefix | src/main/java/com/distributed/cache/eviction/LRUEvictionPolicy.java:36-43 | the first keys of a time-sorted table of the data form a least-recently-used selection |
| LRU.LRUEvictionPolicy.constructor | src/main/java/com/distributed/cache/eviction/LRUEvictionPolicy.java:19-21 | no access time is recorded |
| LRU.LRUEvictionPolicy.SelectKeysToEvict | src/main/java/com/distributed/cache/eviction/LRUEvictionPolicy.java:24-46 | nothing for empty data or count ≤ 0; otherwise min(count, size) distinct keys of the data, in non-decreasing access time (0 when never recorded), none more recent than a key left out |
| LRU.LRUEvictionPolicy.Tabulate | src/main/java/com/distributed/cache/eviction/LRUEvictionPolicy.java:30-34 | each key of the data is listed exactly once with its recorded time or 0 |
| LRU.LRUEvictionPolicy.RecordAccess | src/main/java/com/distributed/cache/eviction/LRUEvictionPolicy.java:49-51 | only that key's access time changes, to now |
| LRU.LRUEvictionPolicy.RemoveKey | src/main/java/com/distributed/cache/eviction/LRUEvictionPolicy.java:61-63 | only that key's access time is removed |
| MLEviction.Payload | src/main/java/com/distributed/cache/eviction/MLClient.java:59-76 | the payload carries the history length, last access, window counts, first access (0 without history) and the mean gap between first and last access (0 with fewer than two) |
| MLEviction.RankedPrefixIsLeastLikely | src/main/java/com/distributed/cache/eviction/MLEvictionPolicy.java:67-74 | the ranking is a permutation of the predictions and no chosen key is more likely to be accessed than one left out |
| MLEviction.MLEvictionPolicy.constructor | src/main/java/com/distributed/cache/eviction/MLEvictionPolicy.java:28-32 | the policy uses the given tracker and a fresh LRU fallback with no recorded times |
| MLEviction.MLEvictionPolicy.RequestPayload | src/main/java/com/distributed/cache/eviction/MLEvictionPolicy.java:48-57 | every key of the data is sent and no other |
| MLEviction.MLEvictionPolicy.RequestPayloadContents | src/main/java/com/distributed/cache/eviction/MLEvictionPolicy.java:48-57 | a tracked key is sent with its statistics, an untracked one with the payload of fresh empty stats |
| MLEviction.MLEvictionPolicy.SelectKeysToEvict | src/main/java/com/distributed/cache/eviction/MLEvictionPolicy.java:35-86 | nothing for empty data or count ≤ 0; the LRU fallback's selection when the service is unavailable or predicts nothing; otherwise the keys of the first min(count, n) predictions after a stable ascending sort |
| MLEviction.MLEvictionPolicy.CollectPayload | src/main/java/com/distributed/cache/eviction/MLEvictionPolicy.java:48-57 | the loop builds exactly RequestPayload, with fresh stats for untracked keys |
| MLEviction.MLEvictionPolicy.RecordAccess | src/main/java/com/distributed/cache/eviction/MLEvictionPolicy.java:89-92 | the access goes to the LRU fallback only |
| CacheEntries.CacheEntry.constructor | src/main/java/com/distributed/cache/cache/CacheEntry.java:13-19 | a new entry was last accessed when made and has count 0 |
| CacheEntries.CacheEntry.UpdateAccessTime | src/main/java/com/distributed/cache/cache/CacheEntry.java:21-24 | the access time becomes now and the count rises by one as a Java int, so a count of `Counted(k)` reads becomes `Counted(k + 1)` |
| CacheEntries.CacheEntry.Age | src/main/java/com/distributed/cache/cache/CacheEntry.java:49-51 | the milliseconds from creation to the given clock reading, non-negative when the clock is not behind creation |
| CacheEntries.CacheEntry.TimeSinceLastAccess | src/main/java/com/distributed/cache/cache/CacheEntry.java:56-58 | the milliseconds from the last read to the given clock reading, non-negative when the clock is not behind it |
| CacheEntries.AccessCountAfterReads | src/main/java/com/distributed/cache/cache/CacheEntry.java:21-24 | after n ≤ 2^31-1 reads of a fresh entry its count is exactly n |
| Cache.CacheStore.constructor | src/main/java/com/distributed/cache/cache/CacheStore.java:18-22 | an empty cache with the given bound |
| Cache.CacheStore.Put | src/main/java/com/distributed/cache/cache/CacheStore.java:27-36 | the entry is filed; beyond the bound one least recently read entry is removed; a cache within its bound stays within it |
| Cache.CacheStore.Get | src/main/java/com/distributed/cache/cache/CacheStore.java:41-50 | the stored value or none, contents unchanged; a hit sets that entry's access time to now |
| Cache.CacheStore.Delete | src/main/java/com/distributed/cache/cache/CacheStore.java:55-58 | exactly that key is removed |
| Cache.CacheStore.Evict | src/main/java/com/distributed/cache/cache/CacheStore.java:64-80 | an entry of minimal access time is removed; none when every time is the largest long |
| Cache.CacheStore.Size | src/main/java/com/distributed/cache/cache/CacheStore.java:82-84 | the number of entries |
| Cache.CacheStore.Clear | src/main/java/com/distributed/cache/cache/CacheStore.java:86-89 | the cache is empty, size 0 |
| Cache.PutKeepsBound | src/main/java/com/distributed/cache/cache/CacheStore.java:32-35 | a put into a cache within its bound leaves it within the bound |
| Nodes.Trim | src/main/java/com/distributed/cache/config/NodeInfo.java:57-59 | the trimmed text is a slice of the input that starts and ends with a character above space; every character removed before and after it is at most space |
| Nodes.TrimIdempotent | src/main/java/com/distributed/cache/config/NodeInfo.java:57-59 | trimming twice is trimming once |
| Nodes.NewNodeInfo | src/main/java/com/distributed/cache/config/NodeInfo.java:36-60 | a node is made exactly when id and host are present and not blank and the port lies in [1024, 65535], with id and host trimmed; otherwise the first failed check gives its message: the id message, the host message, or "Node port must be between 1024 and 65535, got: " and the port |
| Nodes.MovedNodeIsSameNode | src/main/java/com/distributed/cache/config/NodeInfo.java:99-104 | equality depends on the id alone: moving a node to another address keeps it equal to the same nodes |
| Nodes.DistinctPortsDistinctAddresses | src/main/java/com/distributed/cache/config/NodeInfo.java:86-88 | two nodes on one host with different ports have different addresses |
| Cluster.NodeIndex | src/main/java/com/distributed/cache/config/ClusterConfig.java:80-81 | the index is built exactly when the ids are distinct, with exactly the listed ids as keys |
| Cluster.NodeIndexFinds | src/main/java/com/distributed/cache/config/ClusterConfig.java:80-81 | every listed node is found under its id |
| Cluster.NodeIndexReportsFirstRepeat | src/main/java/com/distributed/cache/config/ClusterConfig.java:80-81 | a failed build names the first id seen twice |
| Cluster.RepeatErrorsEmptyIff | src/main/java/com/distributed/cache/config/ClusterConfig.java:210-225 | the duplicate checks report nothing exactly when the keys are distinct |
| Cluster.ValidationErrorsEmptyIff | src/main/java/com/distributed/cache/config/ClusterConfig.java:172-237 | validation reports no error exactly when heartbeat, min and max are positive, max > min, 3·heartbeat ≤ min, and the nodes are non-empty with distinct ids and addresses |
| Cluster.ValidationErrorsOrder | src/main/java/com/distributed/cache/config/ClusterConfig.java:172-237 | in the report of `ValidationErrors` a non-positive heartbeat is the first error with its message, else a non-positive min is; an empty node list makes the last error "Cluster must have at least one node" |
| Cluster.AsWrittenAgreesWithoutOverflow | src/main/java/com/distributed/cache/config/ClusterConfig.java:172-237 | `ValidationErrorsAsWritten` reports exactly the errors of `ValidationErrors` whenever 3·heartbeat fits in a Java int |
| Cluster.HeartbeatOverflowPassesValidation | src/main/java/com/distributed/cache/config/ClusterConfig.java:196-200 | heartbeat 1431655766 with 150/300 wraps 3·heartbeat to 2 and passes the check as written, while the intended check rejects it |
| Cluster.BoundaryConfigurationsAccepted | src/main/java/com/distributed/cache/config/ClusterConfig.java:193-208 | heartbeat 50 with min 150 is accepted for one and two nodes; 51 is rejected |
| Cluster.ValidHeartbeatBound | src/main/java/com/distributed/cache/config/ClusterConfig.java:172-237 | a configuration without errors has 0 < heartbeat, 3·heartbeat ≤ min < max |
| Cluster.Validate | src/main/java/com/distributed/cache/config/ClusterConfig.java:172-237 | the errors collected are exactly the specified list, each with the source's message, in the source's order |
| Cluster.CollectRepeats | src/main/java/com/distributed/cache/config/ClusterConfig.java:210-225 | the loop over a seen-set reports each repeated key at each repeat |
| Cluster.Build | src/main/java/com/distributed/cache/config/ClusterConfig.java:68-88 | duplicate ids fail while the index is built; otherwise the configuration is made exactly when valid, with its index, and a failure carries all errors under the source's heading |
| Cluster.NodeByIdFinds | src/main/java/com/distributed/cache/config/ClusterConfig.java:245-247 | lookup finds exactly the listed ids and answers the listed node |
| Cluster.NodeIndexSize | src/main/java/com/distributed/cache/config/ClusterConfig.java:79-80 | with distinct ids the index is built and holds one entry per listed node |
| Cluster.ClusterSizeCountsIds | src/main/java/com/distributed/cache/config/ClusterConfig.java:296-298 | a built configuration's size is the number of node ids in its index |
| Cluster.OtherNodes | src/main/java/com/distributed/cache/config/ClusterConfig.java:266-270 | exactly the nodes whose id differs, none added |
| Cluster.OtherNodesOfOne | src/main/java/com/distributed/cache/config/ClusterConfig.java:266-270 | a single node stays exactly when its id differs |
| Cluster.OtherNodesKeepsOrder | src/main/java/com/distributed/cache/config/ClusterConfig.java:266-270 | the filter keeps list order and multiplicity: a concatenation filters part by part, so with `OtherNodesOfOne` the result is the listed nodes of another id in their original order |
| Cluster.OtherNodesCount | src/main/java/com/distributed/cache/config/ClusterConfig.java:266-270 | with distinct ids, excluding a listed id drops exactly one node and an unlisted id none |
| Cluster.MajoritySize | src/main/java/com/distributed/cache/config/ClusterConfig.java:313-315 | n/2 + 1: at most n for a non-empty cluster, more than half and the least such |
| Lease.Remaining | src/main/java/com/distributed/cache/raft/ReadLease.java:56-59 | the time left is never negative, positive exactly while the lease is valid, and then expiry - now |
| Lease.RenewedLeaseValidity | src/main/java/com/distributed/cache/raft/ReadLease.java:21-40 | a lease renewed at r is valid at t exactly when t < r + 1000 |
| Lease.ClearedLeaseInvalid | src/main/java/com/distributed/cache/raft/ReadLease.java:33-51 | a fresh or invalidated lease is invalid with nothing left at any time from 0 on |
| Lease.ReadLease.constructor | src/main/java/com/distributed/cache/raft/ReadLease.java:14 | a new lease expires at 0 |
| Lease.ReadLease.RenewLease | src/main/java/com/distributed/cache/raft/ReadLease.java:21-28 | the lease expires a full duration after now |
| Lease.ReadLease.Invalidate | src/main/java/com/distributed/cache/raft/ReadLease.java:46-51 | the lease expires at 0 |
| Lease.ReadLease.IsValid | src/main/java/com/distributed/cache/raft/ReadLease.java:33-40 | valid exactly while the current time is before the expiry |
| Lease.ReadLease.GetRemainingMs | src/main/java/com/distributed/cache/raft/ReadLease.java:56-59 | never negative, positive exactly while the lease is valid, and then now + remaining is the expiry |
| Peers.BackoffDelay | src/main/java/com/distributed/cache/network/PeerManager.java:247-250 | the delay lies in [1000, 30000], is 1000·2^r for r ≤ 4 and 30000 from r = 5 on |
| Peers.BackoffMonotone | src/main/java/com/distributed/cache/network/PeerManager.java:247-250 | a later attempt never waits less |
| Peers.PeerManager.constructor | src/main/java/com/distributed/cache/network/PeerManager.java:77-86 | no retry counter and no pending task |
| Peers.PeerManager.ScheduleReconnect | src/main/java/com/distributed/cache/network/PeerManager.java:243-270 | the peer's old task is cancelled and replaced by one for attempt r after its backoff delay, and its counter becomes r; every pending task keeps its attempt's delay |
| Peers.PeerManager.OnConnectionFailure | src/main/java/com/distributed/cache/network/PeerManager.java:220-233 | below the attempt limit the next attempt r+1 is scheduled; at the limit nothing changes |
| Peers.PeerManager.OnConnectionSuccess | src/main/java/com/distributed/cache/network/PeerManager.java:194-201 | the peer's counter is cleared and its pending task cancelled |
| Peers.PeerManager.OnConnectionClosed | src/main/java/com/distributed/cache/network/PeerManager.java:204-210 | a closed connection schedules a fresh first attempt after 1000 ms |
| Snapshots.RemoveAll | src/main/java/com/distributed/cache/raft/Snapshot.java:113-114 | removing a pattern never lengthens the text |
| Snapshots.FirstField | src/main/java/com/distributed/cache/raft/Snapshot.java:115-116 | the split has no first field exactly for a non-empty text of dashes only; a text without a dash is its own first field |
| Snapshots.ParseIndexAsWritten | src/main/java/com/distributed/cache/raft/Snapshot.java:113-124 | reading a name fails outside the handler exactly when its stripped text has no first field |
| Snapshots.DashOnlyNameEscapes | src/main/java/com/distributed/cache/raft/Snapshot.java:113-124 | snapshot--.dat is listed as a candidate and its reading throws past the handler |
| Snapshots.ParseIndex | src/main/java/com/distributed/cache/raft/Snapshot.java:113-124 | a name yields an index exactly when the as-written reading parses one, the same non-negative index; names without a number are skipped |
| Snapshots.FileNameRoundTrip | src/main/java/com/distributed/cache/raft/Snapshot.java:66-116 | the name a snapshot is saved under is a candidate and reads back its non-negative last included index |
| Snapshots.WrappedIsCandidate | src/main/java/com/distributed/cache/raft/Snapshot.java:99-100 | any text between the prefix and the suffix makes a name the listing keeps |
| Snapshots.CandidateIsWrapped | src/main/java/com/distributed/cache/raft/Snapshot.java:99-100 | a kept name long enough for both is the prefix, some text and the suffix |
| Snapshots.LatestIsUnique | src/main/java/com/distributed/cache/raft/Snapshot.java:104-121 | at most one position of a listing is the latest, so the loader's choice is determined |
| Snapshots.IndexOf | src/main/java/com/distributed/cache/raft/Snapshot.java:99-124 | a listed name offers an index exactly when it starts with snapshot-, ends with .dat and parses |
| Snapshots.LatestSnapshotFile | src/main/java/com/distributed/cache/raft/Snapshot.java:107-129 | none exactly when no listed name is loadable; otherwise a loadable name of strictly largest index, the first listed among equals |
| Snapshots.LatestBy | src/main/java/com/distributed/cache/raft/Snapshot.java:107-124 | the scan keeps a name only on a strictly larger key, so it answers the first name of maximal key, none when no name has one |
| Snapshots.LoadFromDisk | src/main/java/com/distributed/cache/raft/Snapshot.java:90-147 | no directory or no loadable name gives none; otherwise the result is what reading the latest file gives: the first listed name of the largest index |
| SnapshotManagement.SnapshotTerm | src/main/java/com/distributed/cache/raft/SnapshotManager.java:69-72 | the snapshot's term is that of the entry at lastApplied, or the manager's term when it is missing |
| SnapshotManagement.CompactionOfDenseLog | src/main/java/com/distributed/cache/raft/SnapshotManager.java:80-86 | on a densely numbered log, compaction up to an index within it keeps exactly the entries after it |
| SnapshotManagement.SnapshotManager.constructor | src/main/java/com/distributed/cache/raft/SnapshotManager.java:23-28 | the manager works on the node's log and store, in term 0 |
| SnapshotManagement.SnapshotManager.SetCurrentTerm | src/main/java/com/distributed/cache/raft/SnapshotManager.java:33-35 | the manager takes the term |
| SnapshotManagement.SnapshotManager.CheckAndCreateSnapshot | src/main/java/com/distributed/cache/raft/SnapshotManager.java:43-53 | below 1000 entries nothing is attempted; otherwise a snapshot is taken as CreateSnapshot states |
| SnapshotManagement.SnapshotManager.CreateSnapshot | src/main/java/com/distributed/cache/raft/SnapshotManager.java:60-96 | nothing when lastApplied ≤ 0; otherwise the snapshot of lastApplied, its term, the data, sequences and time is written, and only a successful save compacts the log up to lastApplied and reports it created |
| SnapshotManagement.SnapshotManager.LoadLatestSnapshot | src/main/java/com/distributed/cache/raft/SnapshotManager.java:103-129 | the snapshot is what reading the latest file gives (none without a directory or a loadable name); a loaded one restores data and sequences and raises lastApplied to its last included index; without one nothing changes |

## Left out

- Network I/O, sockets, serialisation, the REST server, the client and the HTTP calls of the prediction client. A message sent is returned to the caller. The prediction client is an oracle: whether the health check answers 200, and the predictions parsed from a 200 answer to a payload (empty otherwise).
- Timers, threads, futures and locks: election and heartbeat timers, schedulers, `sendHeartbeatAndConfirmLeadership`, the polling in `put`/`delete`/`getSafe`/`waitForApplied`, the read-index manager, and the executors of the leader replicator. Each handler is modelled as one sequential step.
- Disk persistence: the log's persistence, the persisted term and vote, `saveToDisk` and object streams. Listing, reading and saving are parameters.
- YAML and JSON: configuration loading, `KeyValueCommand` JSON, and the message JSON. A log entry carries an already decoded command, or none when the text does not decode (the empty text of a NO_OP).
- Model training, the classifier's internals, MD5, and local-time hour and weekday. These are parameters of the eviction service.
- Floating point: hours, probabilities and mean intervals are exact `real`s.
- The payload format: the payload the Java client sends (per-key statistics without `accessHistory`) does not match what the service reads. The two sides are modelled separately, with no claim that they fit together.
- Node.VoteRequests: the vote request carries last log index and last log term 0, as the source sends them.
- Node.RaftNode.HandleRequestVote: grants never check whether the candidate's log is up to date, as in the source. Election safety across logs is therefore not claimed; `Log.UpToDate` is modelled on its own.
- Node.RaftNode.HandleAppendEntries: the bare-heartbeat path sets the node's commit index to the leader's without bounding it by the last index, as the source does.
- Node.RaftNode.HandleRequestVote: built on the corrected `Node.RaftNode.UpdateTerm` (see Findings), so a leader that learns of a higher term here loses its replicator; the source's `updateTerm` call at RaftNode.java:375 keeps it, as `Node.RaftNode.UpdateTermAsWritten` models.
- Node.RaftNode.HandleRequestVoteResponse: built on the corrected `Node.RaftNode.UpdateTerm`; the source's call at RaftNode.java:402 keeps a demoted leader's replicator.
- Node.RaftNode.HandleAppendEntries: built on the corrected `Node.RaftNode.UpdateTerm`; the source's call at RaftNode.java:447 keeps a demoted leader's replicator.
- Node.RaftNode.HandleAppendEntriesResponse: built on the corrected `Node.RaftNode.UpdateTerm`; the source's call at RaftNode.java:516 keeps a demoted leader's replicator.
- Node.StartComponents: built on the corrected `Snapshots.ParseIndex` (see Findings), so a name such as `snapshot--.dat` is skipped where the source's start-up throws at RaftNode.java:103.
- Node.RaftNode.constructor: built on the corrected `Snapshots.ParseIndex` (see Findings), so a name such as `snapshot--.dat` is skipped; in the source the `ArrayIndexOutOfBoundsException` it raises escapes the loader and startup fails at RaftNode.java:103.
- Snapshots.LoadFromDisk: built on the corrected `Snapshots.ParseIndex`; as written, a candidate name whose stripped text is only dashes throws out of the loop at Snapshot.java:116, which `Snapshots.DashOnlyNameEscapes` states.
- SnapshotManagement.SnapshotManager.LoadLatestSnapshot: built on the corrected `Snapshots.ParseIndex`; as written, the exception of a dash-only name passes through SnapshotManager.java:104 to its caller.
- Cluster.Build: built on the corrected heartbeat check (see Findings); as written, a heartbeat whose triple wraps as a Java int passes, as `Cluster.ValidationErrorsAsWritten` models.
- EvictionService.Predict: the request is modelled as an already parsed body whose fields are absent, null or given, and a key's history as a list of integers or null. A body that is not JSON and fields of another JSON type (a number for the key list, a string among the timestamps, say) are not modelled; the source mostly ends those in its catch-all 500 handler. The range of the local date-time conversion is the platform's and is left to the `Environment`.
- Node.RaftNode.StepDown: every caller first updates the term from the same message, so the call with a higher term never happens. The handlers do not call it.
- Node.RaftNode.BecomeCandidate and Node.RaftNode.StartElection require the node not to be leader. Their only caller, the election timeout, checks that first.
- Node.RaftNode.UpdateTerm: every `(int)` cast of the `long` term is modelled unnarrowed, since terms start at 0 and grow by one per election: in `updateTerm` (RaftNode.java:614), for the snapshot manager (187), the follower request and response (479, 482, 532), the store and the NO_OP entry (568, 578), the replicator (583) and `updateState` (645).
- Decimal.ParseLong: accepts ASCII digits only; `Long.parseLong` reads each character with `Character.digit`, which also takes other Unicode decimal digits, so a name such as `snapshot-\uFF11-0.dat` (a fullwidth one) has index 1 at Snapshot.java:116 but is skipped by the model.
- Node.RaftNode.BecomeLeader: the node's own next/match maps receive the per-peer values by map union, the same values the source's loop puts.
- Compaction (`DeleteEntriesUpTo`) breaks the source's convention that position and entry number agree. The model keeps positions, as the source's lookups do. `Log.CompactionShiftsPositions` states the resulting shift.
- CacheEntries.CacheEntry: `getAge` and `getTimeSinceLastAccess` are plain differences with the clock as a parameter. The wrap of a `long` subtraction is not modelled.
- AccessStats getters other than the total count are field reads, not separate members.
- The timestamp stored in a snapshot is a parameter, not the clock.
- Peers.PeerManager: channels, `connectToPeer`, `attemptConnection`, inbound registration, the health check and shutdown are left out. Only the backoff delay and the per-peer counter and task bookkeeping are modelled. Peers.PeerManager.OnConnectionFailure takes `retryCount` as a `nat`, since the source only ever passes counts from 0 upwards.
- Cluster.Build: the duplicate-ID errors of validation can never appear, because building the index already fails on a duplicate id. `List.copyOf` rejecting null elements is not modelled. The loaders and `toString` are left out.
- Nodes: `toString` and `hashCode` are left out. `hashCode` follows the id, as equality does.
- Cache.CacheStore.Put: when no other entry was read earlier, the new entry itself can be the one evicted. The contract states this rather than "put then get returns the value".
- Store.KeyValueStore.Get: the linearizable and lease reads (`getSafe` and the consistency-level `get`) are left out, because they wait on futures and the read-index manager.

## Findings

| source | as written | input that shows it | evidently intended | confidence | as-written member | corrected member |
|---|---|---|---|---|---|---|
| src/main/java/com/distributed/cache/raft/RaftNode.java:606-617 | `updateTerm` makes a leader a follower but keeps its replicator installed in the key-value store, and the read lease is not invalidated | a leader receiving any message of a higher term; its store then still accepts `put` and appends to the log | a leader that learns of a higher term gives up its replicator and lease, as `stepDown` and `becomeFollower` do | not executed | Node.RaftNode.UpdateTermAsWritten, Node.RaftNode.DemotedLeaderStillAcceptsWrites | Node.RaftNode.UpdateTerm |
| src/main/java/com/distributed/cache/raft/Snapshot.java:113-124 | a candidate name whose stripped text is only dashes splits into an empty array, so `parts[0]` throws `ArrayIndexOutOfBoundsException`, which the `NumberFormatException` handler does not catch | a file named `snapshot--.dat` in the snapshot directory | an unreadable name is skipped like any other invalid snapshot file | not executed | Snapshots.ParseIndexAsWritten, Snapshots.DashOnlyNameEscapes | Snapshots.ParseIndex |
| src/main/java/com/distributed/cache/config/ClusterConfig.java:196 | `heartbeatInterval * 3` is evaluated as a 32-bit int and can wrap, so a huge heartbeat passes the check | heartbeat 1431655766, election timeout 150-300: the product wraps to 2 ≤ 150 | reject any heartbeat with 3 × heartbeat > min | not executed | Cluster.ValidationErrorsAsWritten, Cluster.HeartbeatOverflowPassesValidation | Cluster.ValidationErrors, Cluster.Validate |
