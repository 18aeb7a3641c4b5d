/**
 * Reconnection bookkeeping of the peer connections: the exponential backoff delay and
 * the pending reconnect task and retry counter kept per peer.
 */
module Peers {
  import opened JavaInts

  const INITIAL_RETRY_DELAY_MS := 1000
  const MAX_RETRY_DELAY_MS := 30000
  const MAX_RETRY_ATTEMPTS := INT_MAX
  /** The largest shift the delay uses, 2^5 = 32 times the initial delay. */
  const MAX_SHIFT := 5

  function Pow2(n: nat): (p: nat)
    ensures p >= 1
  {
    if n == 0 then 1 else 2 * Pow2(n - 1)
  }

  function Min(a: int, b: int): int { if a <= b then a else b }

  /**
   * The delay before reconnect attempt number `retryCount`: the initial delay doubled
   * once per retry, at most five times, then capped at 30 seconds. It always lies
   * between one and thirty seconds, the first five attempts double it, and from the
   * sixth on it stays at the cap.
   */
  function BackoffDelay(retryCount: nat): (d: int)
    ensures INITIAL_RETRY_DELAY_MS <= d <= MAX_RETRY_DELAY_MS
    ensures retryCount <= 4 ==> d == INITIAL_RETRY_DELAY_MS * Pow2(retryCount)
    ensures retryCount >= 5 ==> d == MAX_RETRY_DELAY_MS
  {
    Min(INITIAL_RETRY_DELAY_MS * Pow2(Min(retryCount, MAX_SHIFT)), MAX_RETRY_DELAY_MS)
  }

  /** A later attempt never waits less than an earlier one. */
  lemma BackoffMonotone(r1: nat, r2: nat)
    requires r1 <= r2
    ensures BackoffDelay(r1) <= BackoffDelay(r2)
  {
    if r2 <= 4 {
      PowMonotone(r1, r2);
    }
  }

  lemma {:induction false} PowMonotone(a: nat, b: nat)
    requires a <= b
    ensures Pow2(a) <= Pow2(b)
  {
    if a < b {
      PowMonotone(a, b - 1);
    }
  }

  /** A scheduled reconnect attempt: which attempt it is and how long it waits. */
  datatype ReconnectTask = ReconnectTask(retryCount: int, delayMs: int)

  class PeerManager {
    const myNodeId: string
    /** The attempt number last scheduled for each peer. */
    var retryCounters: map<string, int>
    /** The pending reconnect task of each peer. */
    var reconnectTasks: map<string, ReconnectTask>
    /** The tasks cancelled so far, in order. */
    ghost var cancelled: seq<ReconnectTask>

    /** Every pending task has its peer's retry counter and waits its attempt's backoff delay. */
    ghost predicate Valid()
      reads this
    {
      forall p :: p in reconnectTasks ==>
        && p in retryCounters
        && reconnectTasks[p].retryCount == retryCounters[p] >= 0
        && reconnectTasks[p].delayMs == BackoffDelay(retryCounters[p])
    }

    constructor (myNodeId: string)
      ensures Valid()
      ensures this.myNodeId == myNodeId && retryCounters == map[] && reconnectTasks == map[] && cancelled == []
    {
      this.myNodeId := myNodeId;
      retryCounters := map[];
      reconnectTasks := map[];
      cancelled := [];
    }

    /**
     * Replaces the peer's pending task, cancelling the old one, by attempt `retryCount`
     * after its backoff delay, and records the attempt number.
     */
    method ScheduleReconnect(peerId: string, retryCount: nat) returns (delay: int)
      requires Valid()
      modifies this
      ensures Valid()
      ensures delay == BackoffDelay(retryCount)
      ensures reconnectTasks == old(reconnectTasks)[peerId := ReconnectTask(retryCount, delay)]
      ensures retryCounters == old(retryCounters)[peerId := retryCount]
      ensures cancelled == old(cancelled) + (if peerId in old(reconnectTasks) then [old(reconnectTasks)[peerId]] else [])
    {
      delay := Min(INITIAL_RETRY_DELAY_MS * Pow2(Min(retryCount, MAX_SHIFT)), MAX_RETRY_DELAY_MS);
      if peerId in reconnectTasks {
        cancelled := cancelled + [reconnectTasks[peerId]];
      }
      reconnectTasks := reconnectTasks[peerId := ReconnectTask(retryCount, delay)];
      retryCounters := retryCounters[peerId := retryCount];
    }

    /** A failed attempt schedules the next one, unless the attempt count is exhausted. */
    method OnConnectionFailure(peerId: string, retryCount: nat)
      requires Valid() && retryCount <= MAX_RETRY_ATTEMPTS
      modifies this
      ensures Valid()
      ensures retryCount < MAX_RETRY_ATTEMPTS ==>
                && reconnectTasks == old(reconnectTasks)[peerId := ReconnectTask(retryCount + 1, BackoffDelay(retryCount + 1))]
                && retryCounters == old(retryCounters)[peerId := retryCount + 1]
      ensures retryCount == MAX_RETRY_ATTEMPTS ==>
                reconnectTasks == old(reconnectTasks) && retryCounters == old(retryCounters) && cancelled == old(cancelled)
    {
      if retryCount < MAX_RETRY_ATTEMPTS {
        var _ := ScheduleReconnect(peerId, retryCount + 1);
      }
    }

    /** A successful connection clears the peer's retry counter and cancels its pending task. */
    method OnConnectionSuccess(peerId: string)
      requires Valid()
      modifies this
      ensures Valid()
      ensures retryCounters == old(retryCounters) - {peerId}
      ensures reconnectTasks == old(reconnectTasks) - {peerId}
      ensures cancelled == old(cancelled) + (if peerId in old(reconnectTasks) then [old(reconnectTasks)[peerId]] else [])
    {
      retryCounters := retryCounters - {peerId};
      if peerId in reconnectTasks {
        cancelled := cancelled + [reconnectTasks[peerId]];
        reconnectTasks := reconnectTasks - {peerId};
      }
    }

    /** A closed connection schedules a fresh first attempt. */
    method OnConnectionClosed(peerId: string)
      requires Valid()
      modifies this
      ensures Valid()
      ensures reconnectTasks == old(reconnectTasks)[peerId := ReconnectTask(0, INITIAL_RETRY_DELAY_MS)]
      ensures retryCounters == old(retryCounters)[peerId := 0]
    {
      var _ := ScheduleReconnect(peerId, 0);
    }
  }
}
