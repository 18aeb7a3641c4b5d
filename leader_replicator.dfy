/**
 * The leader side of log replication: per-follower next and match indices, the
 * AppendEntries request sent to a follower, the reaction to its answer, and
 * advancing the commit index over entries of the current term held by a majority.
 */
module LeaderReplication {
  import opened Wrappers
  import opened Protocol
  import opened Log
  import opened Quorum
  import opened FollowerReplication

  /** The term sent with a previous index: that entry's term, 0 at index 0 or for a missing entry. */
  function PrevTerm(entries: seq<LogEntry>, prevLogIndex: int): (t: int)
    ensures prevLogIndex > 0 && EntryAt(entries, prevLogIndex).Some? ==> t == EntryAt(entries, prevLogIndex).value.term
    ensures prevLogIndex <= 0 || EntryAt(entries, prevLogIndex).None? ==> t == 0
  {
    if prevLogIndex > 0 then
      var prevEntry := EntryAt(entries, prevLogIndex);
      if prevEntry.Some? then prevEntry.value.term else 0
    else 0
  }

  /**
   * The AppendEntries request of a leader for a follower with the given next index:
   * the previous index one below it, the term there, every entry from the next index
   * on, and the leader's commit index.
   */
  function RequestFor(term: int, leaderId: string, entries: seq<LogEntry>, commitIndex: int, next: int): (m: Message)
    ensures m.AppendEntries? && m.prevLogIndex == next - 1 && m.entries == EntriesSince(entries, next)
  {
    AppendEntries(term, leaderId, leaderId, next - 1, PrevTerm(entries, next - 1), commitIndex, EntriesSince(entries, next))
  }

  /** The followers whose match index reaches `n`. */
  function Holders(matchIndex: map<string, int>, n: int): set<string>
  {
    set f | f in matchIndex && matchIndex[f] >= n
  }

  /**
   * An index the leader may commit: its entry belongs to the current term and the
   * leader together with the followers holding it make a majority of the cluster.
   */
  predicate Committable(entries: seq<LogEntry>, matchIndex: map<string, int>, peerCount: nat, term: int, n: int)
  {
    && EntryAt(entries, n).Some? && EntryAt(entries, n).value.term == term
    && 1 + |Holders(matchIndex, n)| >= Majority(peerCount + 1)
  }

  /** Agreement on the first `j` positions, and no position where the two logs hold different entries of one term. */
  ghost predicate Consistent(follower: seq<LogEntry>, leader: seq<LogEntry>, j: int)
  {
    && 0 <= j <= |follower| && j <= |leader|
    && follower[..j] == leader[..j]
    && (forall p :: 0 <= p < |follower| && p < |leader| && follower[p].term == leader[p].term ==> follower[p] == leader[p])
  }

  /** Reconciling the rest of a dense leader log from position `j` on extends the follower to the leader's log. */
  lemma {:induction false} CatchUpFrom(follower: seq<LogEntry>, leader: seq<LogEntry>, j: int)
    requires Dense(leader) && Consistent(follower, leader, j)
    ensures var r := Reconcile(follower, leader[j..]); |r| >= |leader| && r[..|leader|] == leader
    decreases |leader| - j
  {
    if j == |leader| {
      assert leader[j..] == [];
      assert follower[..|leader|] == leader[..|leader|] == leader;
    } else {
      var e := leader[j];
      assert leader[j..][0] == e && leader[j..][1..] == leader[j + 1..];
      var next := ReconcileOne(follower, e);
      if j < |follower| {
        if follower[j].term != e.term {
          assert next == follower[..j] + [e];
          assert next == leader[..j + 1];
        } else {
          assert next == follower;
          assert follower[..j + 1] == follower[..j] + [follower[j]];
          assert leader[..j + 1] == leader[..j] + [e];
        }
      } else {
        assert next == follower + [e];
        assert follower == leader[..j];
        assert next == leader[..j + 1];
      }
      assert Consistent(next, leader, j + 1);
      CatchUpFrom(next, leader, j + 1);
    }
  }

  /**
   * A follower that agrees with a densely numbered leader log up to the previous index,
   * and never holds a different entry of the same term at a position, passes the
   * consistency check on the request built from that index and afterwards holds the
   * leader's log as a prefix.
   */
  lemma ReplicationCatchesUp(follower: seq<LogEntry>, leader: seq<LogEntry>, term: int, leaderId: string, commitIndex: int, nextIndex: int)
    requires Dense(leader) && 1 <= nextIndex && Consistent(follower, leader, nextIndex - 1)
    ensures var m := RequestFor(term, leaderId, leader, commitIndex, nextIndex);
            && PrevMatches(follower, m.prevLogIndex, m.prevLogTerm)
            && var r := Reconcile(follower, m.entries); |r| >= |leader| && r[..|leader|] == leader
  {
    var prev := nextIndex - 1;
    if prev > 0 {
      assert follower[prev - 1] == follower[..prev][prev - 1];
    }
    assert EntriesSince(leader, nextIndex) == leader[prev..];
    CatchUpFrom(follower, leader, prev);
  }

  class LeaderReplicator {
    const nodeId: string
    const currentTerm: int
    const raftLog: RaftLog
    const peers: map<string, string>
    var nextIndex: map<string, int>
    var matchIndex: map<string, int>

    /** Every peer starts with the next index just past the leader's log and match index 0. */
    constructor (nodeId: string, currentTerm: int, raftLog: RaftLog, peers: map<string, string>)
      ensures this.nodeId == nodeId && this.currentTerm == currentTerm && this.raftLog == raftLog && this.peers == peers
      ensures nextIndex == (map p | p in peers :: |raftLog.entries| + 1)
      ensures matchIndex == (map p | p in peers :: 0)
    {
      this.nodeId := nodeId;
      this.currentTerm := currentTerm;
      this.raftLog := raftLog;
      this.peers := peers;
      var lastLogIndex := raftLog.LastIndex();
      var next: map<string, int> := map[];
      var matched: map<string, int> := map[];
      var remaining := peers.Keys;
      while remaining != {}
        invariant remaining <= peers.Keys
        invariant next.Keys == matched.Keys == peers.Keys - remaining
        invariant forall p :: p in next ==> next[p] == lastLogIndex + 1
        invariant forall p :: p in matched ==> matched[p] == 0
        decreases remaining
      {
        var peerId :| peerId in remaining;
        next := next[peerId := lastLogIndex + 1];
        matched := matched[peerId := 0];
        remaining := remaining - {peerId};
      }
      nextIndex := next;
      matchIndex := matched;
    }

    /**
     * The request sent to a follower: previous index one below its next index (1 for
     * a follower without one), the term there, every entry from the next index on, and
     * the leader's commit index.
     */
    method ReplicateToFollower(followerId: string) returns (message: Message)
      ensures message == RequestFor(currentTerm, nodeId, raftLog.entries, raftLog.commitIndex, GetOrDefault(nextIndex, followerId, 1))
    {
      var followerNextIndex := GetOrDefault(nextIndex, followerId, 1);
      var prevLogIndex := followerNextIndex - 1;
      var prevLogTerm := 0;
      if prevLogIndex > 0 {
        var prevEntry := raftLog.GetEntry(prevLogIndex);
        if prevEntry.Some? {
          prevLogTerm := prevEntry.value.term;
        }
      }
      var entries := raftLog.GetEntriesSince(followerNextIndex);
      message := AppendEntries(currentTerm, nodeId, nodeId, prevLogIndex, prevLogTerm, raftLog.commitIndex, entries);
    }

    /**
     * One replication round: a request to every peer, then an attempt to advance the
     * commit index. The requests are returned by recipient.
     */
    method ReplicateToAllFollowers() returns (sent: map<string, Message>)
      requires raftLog.Valid()
      modifies raftLog
      ensures raftLog.Valid()
      ensures sent.Keys == peers.Keys
      ensures forall f :: f in sent ==>
                sent[f] == RequestFor(currentTerm, nodeId, old(raftLog.entries), old(raftLog.commitIndex), GetOrDefault(nextIndex, f, 1))
      ensures raftLog.entries == old(raftLog.entries) && raftLog.lastApplied == old(raftLog.lastApplied)
      ensures CommitAdvanced(old(raftLog.commitIndex), raftLog.commitIndex, raftLog.entries, matchIndex)
    {
      sent := map[];
      var remaining := peers.Keys;
      while remaining != {}
        invariant remaining <= peers.Keys
        invariant sent.Keys == peers.Keys - remaining
        invariant raftLog.Valid() && raftLog.entries == old(raftLog.entries)
        invariant raftLog.commitIndex == old(raftLog.commitIndex) && raftLog.lastApplied == old(raftLog.lastApplied)
        invariant forall f :: f in sent ==>
                    sent[f] == RequestFor(currentTerm, nodeId, old(raftLog.entries), old(raftLog.commitIndex), GetOrDefault(nextIndex, f, 1))
        decreases remaining
      {
        var followerId :| followerId in remaining;
        var message := ReplicateToFollower(followerId);
        sent := sent[followerId := message];
        remaining := remaining - {followerId};
      }
      UpdateCommitIndex();
    }

    /**
     * The commit index after an attempt to advance it from `before`: it never falls,
     * it rises only to a committable index, and no index above it is committable.
     */
    ghost predicate CommitAdvanced(before: int, after: int, entries: seq<LogEntry>, matchIndex: map<string, int>)
    {
      && after >= before
      && (after > before ==> Committable(entries, matchIndex, |peers|, currentTerm, after))
      && (forall m :: after < m <= |entries| ==> !Committable(entries, matchIndex, |peers|, currentTerm, m))
    }

    /**
     * What handling a follower's answer does. One from a higher term changes nothing. A
     * success sets the follower's match index to the index it reports and its next index
     * one above, then tries to advance the commit index. A failure lowers the next index
     * by one, never below 1, and when it did retries at once with the request returned.
     */
    twostate predicate Answered(response: AppendEntriesResponse, new retry: Option<Message>)
      reads this, raftLog
    {
      && (response.term > currentTerm ==>
            && retry == None && nextIndex == old(nextIndex) && matchIndex == old(matchIndex)
            && raftLog.commitIndex == old(raftLog.commitIndex))
      && (response.term <= currentTerm && response.success ==>
            && retry == None
            && matchIndex == old(matchIndex)[response.followerId := response.matchIndex]
            && nextIndex == old(nextIndex)[response.followerId := response.matchIndex + 1]
            && CommitAdvanced(old(raftLog.commitIndex), raftLog.commitIndex, raftLog.entries, matchIndex))
      && (response.term <= currentTerm && !response.success ==>
            var current := GetOrDefault(old(nextIndex), response.followerId, 1);
            && matchIndex == old(matchIndex) && raftLog.commitIndex == old(raftLog.commitIndex)
            && (current > 1 ==> nextIndex == old(nextIndex)[response.followerId := current - 1]
                                && retry == Some(RequestFor(currentTerm, nodeId, raftLog.entries, raftLog.commitIndex, current - 1)))
            && (current <= 1 ==> nextIndex == old(nextIndex) && retry == None))
    }

    /** Handles a follower's answer as `Answered` describes. */
    method HandleAppendEntriesResponse(response: AppendEntriesResponse) returns (retry: Option<Message>)
      requires raftLog.Valid()
      modifies this, raftLog
      ensures raftLog.Valid()
      ensures raftLog.entries == old(raftLog.entries) && raftLog.lastApplied == old(raftLog.lastApplied)
      ensures Answered(response, retry)
    {
      var followerId := response.followerId;
      retry := None;
      if response.term > currentTerm {
        return;
      }
      if response.success {
        var newMatchIndex := response.matchIndex;
        matchIndex := matchIndex[followerId := newMatchIndex];
        nextIndex := nextIndex[followerId := newMatchIndex + 1];
        UpdateCommitIndex();
      } else {
        var currentNextIndex := GetOrDefault(nextIndex, followerId, 1);
        if currentNextIndex > 1 {
          nextIndex := nextIndex[followerId := currentNextIndex - 1];
          var message := ReplicateToFollower(followerId);
          retry := Some(message);
        }
      }
    }

    /**
     * Commits the largest index above the commit index whose entry is of the current
     * term and is held by a majority, counting the leader, searching downwards from the
     * last index.
     */
    method UpdateCommitIndex()
      requires raftLog.Valid()
      modifies raftLog
      ensures raftLog.Valid()
      ensures raftLog.entries == old(raftLog.entries) && raftLog.lastApplied == old(raftLog.lastApplied)
      ensures CommitAdvanced(old(raftLog.commitIndex), raftLog.commitIndex, raftLog.entries, matchIndex)
    {
      var currentCommitIndex := raftLog.commitIndex;
      var lastLogIndex := raftLog.LastIndex();
      var n := lastLogIndex;
      while n > currentCommitIndex
        invariant n <= lastLogIndex
        invariant raftLog.Valid() && raftLog.commitIndex == currentCommitIndex
        invariant raftLog.entries == old(raftLog.entries) && raftLog.lastApplied == old(raftLog.lastApplied)
        invariant forall m :: n < m <= lastLogIndex ==> !Committable(raftLog.entries, matchIndex, |peers|, currentTerm, m)
        decreases n
      {
        var entry := raftLog.GetEntry(n);
        if entry.Some? && entry.value.term == currentTerm {
          var replicatedCount := ReplicatedCount(n);
          var totalNodes := |peers| + 1;
          var majority := totalNodes / 2 + 1;
          if replicatedCount >= majority {
            raftLog.SetCommitIndex(n);
            return;
          }
        }
        n := n - 1;
      }
    }

    /** The nodes holding index `n`: the leader and each follower whose match index reaches it. */
    method ReplicatedCount(n: int) returns (count: int)
      ensures count == 1 + |Holders(matchIndex, n)|
    {
      count := 1;
      var remaining := matchIndex.Keys;
      ghost var holders: set<string> := {};
      while remaining != {}
        invariant remaining <= matchIndex.Keys
        invariant holders == set f | f in matchIndex.Keys - remaining && matchIndex[f] >= n
        invariant count == 1 + |holders|
        decreases remaining
      {
        var f :| f in remaining;
        if matchIndex[f] >= n {
          holders := holders + {f};
          count := count + 1;
        }
        remaining := remaining - {f};
      }
      assert holders == Holders(matchIndex, n);
    }

    /** A follower's next index, 0 for a node that is not a peer. */
    function GetNextIndex(followerId: string): (n: int)
      reads this
      ensures followerId in nextIndex ==> n == nextIndex[followerId]
      ensures followerId !in nextIndex ==> n == 0
    {
      GetOrDefault(nextIndex, followerId, 0)
    }

    /** A follower's match index, 0 for a node that is not a peer. */
    function GetMatchIndex(followerId: string): (n: int)
      reads this
      ensures followerId in matchIndex ==> n == matchIndex[followerId]
      ensures followerId !in matchIndex ==> n == 0
    {
      GetOrDefault(matchIndex, followerId, 0)
    }
  }
}
