/**
 * The key-value state machine: committed log entries are applied to an in-memory
 * map, with per-client sequence numbers filtering redelivered commands and an
 * eviction round whenever a new key arrives at a full store.
 */
module Store {
  import opened Wrappers
  import opened Protocol
  import opened Log
  import opened Stats
  import opened Tracking
  import opened MLEviction
  import opened JavaInts

  const MAX_CACHE_SIZE := 1000
  /** The keys one eviction round asks for: a tenth of the capacity. */
  const EVICTION_BATCH := 100

  datatype StoreError = NotLeader

  /** A command whose client has already applied this sequence number or a later one. */
  predicate IsDuplicate(lastAppliedSequence: map<string, int>, command: KeyValueCommand)
  {
    command.clientId in lastAppliedSequence && lastAppliedSequence[command.clientId] >= command.sequenceNumber
  }

  /** A decodable, not yet applied command entry. */
  predicate Fresh(lastAppliedSequence: map<string, int>, entry: LogEntry)
  {
    entry.entryType == CommandEntry && entry.command.Some? && !IsDuplicate(lastAppliedSequence, entry.command.value)
  }

  /**
   * A fresh command that runs to the end: every one except a PUT without a value,
   * which the concurrent map refuses.
   */
  predicate Effective(lastAppliedSequence: map<string, int>, entry: LogEntry)
  {
    Fresh(lastAppliedSequence, entry) && !(entry.command.value.kind == Put && entry.command.value.value.None?)
  }

  /** A fresh PUT of a key not yet stored into a full store, which first evicts. */
  predicate EvictionDue(data: map<string, string>, lastAppliedSequence: map<string, int>, entry: LogEntry)
  {
    && Fresh(lastAppliedSequence, entry)
    && entry.command.value.kind == Put
    && entry.command.value.key !in data
    && |data| >= MAX_CACHE_SIZE
  }

  /** The data after a command: PUT stores its value, DELETE removes the key, GET changes nothing. */
  function Execute(data: map<string, string>, command: KeyValueCommand): map<string, string>
    requires command.kind == CommandType.Put ==> command.value.Some?
  {
    match command.kind
    case Put => data[command.key := command.value.value]
    case Delete => data - {command.key}
    case Get => data
  }

  function Without(data: map<string, string>, keys: seq<string>): map<string, string>
  {
    data - (set k | k in keys)
  }

  function MaxIndex(a: int, b: int): int { if a > b then a else b }

  /** The part of the store an applied entry changes: the data, the per-client sequence numbers and the applied index. */
  datatype Machine = Machine(data: map<string, string>, sequences: map<string, int>, lastApplied: int)

  /**
   * The effect of applying one entry, given the keys an eviction round removed on
   * the way. A NO_OP only raises the applied index; a command that runs to the end
   * executes, records its sequence number and raises the applied index; anything
   * else leaves all three as they were, apart from the evicted keys.
   */
  function Step(entry: LogEntry, evicted: seq<string>, s: Machine): (r: Machine)
    ensures r.lastApplied >= s.lastApplied
    ensures r.lastApplied > s.lastApplied ==> r.lastApplied == entry.index
    ensures s.sequences.Keys <= r.sequences.Keys
    ensures forall k :: k in r.data && k !in s.data ==> entry.entryType != NoOpEntry && entry.command.Some? && k == entry.command.value.key
    ensures forall k :: k in s.data && k !in r.data ==>
              k in evicted || (entry.command.Some? && entry.command.value.kind == Delete && k == entry.command.value.key)
    ensures entry.entryType == NoOpEntry ==> r.data == s.data && r.sequences == s.sequences
    ensures entry.entryType != NoOpEntry && !Effective(s.sequences, entry) ==>
              r.sequences == s.sequences && r.lastApplied == s.lastApplied
  {
    if entry.entryType == NoOpEntry then
      s.(lastApplied := MaxIndex(s.lastApplied, entry.index))
    else if Effective(s.sequences, entry) then
      var command := entry.command.value;
      Machine(Execute(Without(s.data, evicted), command),
              s.sequences[command.clientId := command.sequenceNumber],
              MaxIndex(s.lastApplied, entry.index))
    else
      s.(data := Without(s.data, evicted))
  }

  /**
   * Redelivery: applying an entry a second time changes nothing. The one exception
   * is a PUT without a value, which never records its sequence number and so can
   * trigger another eviction round.
   */
  lemma RedeliveryChangesNothing(entry: LogEntry, evicted: seq<string>, s0: Machine)
    ensures var s1 := Step(entry, evicted, s0);
            EvictionDue(s1.data, s1.sequences, entry) ==> entry.command.value.kind == Put && entry.command.value.value.None?
    ensures var s1 := Step(entry, evicted, s0);
            !EvictionDue(s1.data, s1.sequences, entry) ==> Step(entry, [], s1) == s1
  {
    var s1 := Step(entry, evicted, s0);
    WithoutNothing(s1.data);
    if entry.entryType != NoOpEntry && Effective(s0.sequences, entry) {
      var command := entry.command.value;
      assert s1.sequences == s0.sequences[command.clientId := command.sequenceNumber];
      assert IsDuplicate(s1.sequences, command);
      assert !Fresh(s1.sequences, entry);
    }
  }

  lemma WithoutNothing(data: map<string, string>)
    ensures Without(data, []) == data
  {
    var none: seq<string> := [];
    assert (set k | k in none) == {};
  }

  class KeyValueStore {
    const nodeId: string
    const log: RaftLog
    const tracker: AccessTracker
    const policy: MLEvictionPolicy
    var data: map<string, string>
    var lastAppliedSequence: map<string, int>
    var currentTerm: int
    /** Whether a leader replicator is installed; only its presence is observed here. */
    var hasReplicator: bool
    var evictionCount: nat
    /** Every entry handed to ApplyCommand, in order. */
    ghost var applied: seq<LogEntry>

    ghost predicate Valid()
      reads log, tracker, tracker.accessStatsMap.Values, policy
    {
      log.Valid() && tracker.Valid() && policy.accessTracker == tracker
    }

    constructor (nodeId: string, log: RaftLog)
      requires log.Valid()
      ensures Valid()
      ensures this.nodeId == nodeId && this.log == log
      ensures data == map[] && lastAppliedSequence == map[] && currentTerm == 0 && !hasReplicator && evictionCount == 0
      ensures fresh(tracker) && tracker.accessStatsMap == map[]
      ensures fresh(policy) && fresh(policy.lruFallback) && policy.lruFallback.accessTimes == map[]
      ensures applied == []
    {
      this.nodeId := nodeId;
      this.log := log;
      data := map[];
      lastAppliedSequence := map[];
      currentTerm := 0;
      hasReplicator := false;
      evictionCount := 0;
      var t := new AccessTracker();
      tracker := t;
      policy := new MLEvictionPolicy(t);
      applied := [];
    }

    method SetCurrentTerm(term: int)
      modifies this
      ensures currentTerm == term
      ensures data == old(data) && lastAppliedSequence == old(lastAppliedSequence) && hasReplicator == old(hasReplicator)
      ensures evictionCount == old(evictionCount) && applied == old(applied)
    {
      currentTerm := term;
    }

    method SetReplicator(present: bool)
      modifies this
      ensures hasReplicator == present
      ensures data == old(data) && lastAppliedSequence == old(lastAppliedSequence) && currentTerm == old(currentTerm)
      ensures evictionCount == old(evictionCount) && applied == old(applied)
    {
      hasReplicator := present;
    }

    /**
     * The synchronous part of a write: refused with NotLeader without a replicator;
     * otherwise one COMMAND entry in the current term is appended at the next index,
     * which is answered (the caller then waits for it to commit).
     */
    method Put(key: string, value: string, clientId: string, sequenceNumber: int, now: int) returns (r: Result<int, StoreError>)
      requires Valid()
      modifies log
      ensures Valid()
      ensures !hasReplicator ==> r == Err(NotLeader) && log.entries == old(log.entries)
      ensures hasReplicator ==>
                && r == Ok(|old(log.entries)| + 1)
                && log.entries == old(log.entries) + [LogEntry(|old(log.entries)| + 1, currentTerm,
                     Some(KeyValueCommand(CommandType.Put, key, Some(value), now, clientId, sequenceNumber)), CommandEntry)]
      ensures log.commitIndex == old(log.commitIndex) && log.lastApplied == old(log.lastApplied)
    {
      if !hasReplicator {
        return Err(NotLeader);
      }
      var command := KeyValueCommand(CommandType.Put, key, Some(value), now, clientId, sequenceNumber);
      var nextIndex := log.LastIndex() + 1;
      log.Append(LogEntry(nextIndex, currentTerm, Some(command), CommandEntry));
      r := Ok(nextIndex);
    }

    /** As Put, with a DELETE command that carries no value. */
    method Delete(key: string, clientId: string, sequenceNumber: int, now: int) returns (r: Result<int, StoreError>)
      requires Valid()
      modifies log
      ensures Valid()
      ensures !hasReplicator ==> r == Err(NotLeader) && log.entries == old(log.entries)
      ensures hasReplicator ==>
                && r == Ok(|old(log.entries)| + 1)
                && log.entries == old(log.entries) + [LogEntry(|old(log.entries)| + 1, currentTerm,
                     Some(KeyValueCommand(CommandType.Delete, key, None, now, clientId, sequenceNumber)), CommandEntry)]
      ensures log.commitIndex == old(log.commitIndex) && log.lastApplied == old(log.lastApplied)
    {
      if !hasReplicator {
        return Err(NotLeader);
      }
      var command := KeyValueCommand(CommandType.Delete, key, None, now, clientId, sequenceNumber);
      var nextIndex := log.LastIndex() + 1;
      log.Append(LogEntry(nextIndex, currentTerm, Some(command), CommandEntry));
      r := Ok(nextIndex);
    }

    /** A local read; a hit is recorded as an access at `now`. */
    method Get(key: string, now: int) returns (v: Option<string>)
      requires Valid()
      modifies tracker, tracker.accessStatsMap.Values
      ensures Valid()
      ensures v == if key in data then Some(data[key]) else None
      ensures key in data ==> tracker.accessStatsMap.Keys == old(tracker.accessStatsMap.Keys) + {key}
      ensures key in data ==> tracker.HistoryOf(key) == Retained(old(tracker.HistoryOf(key)), now)
      ensures key in data && key in old(tracker.accessStatsMap) ==> tracker.accessStatsMap[key] == old(tracker.accessStatsMap[key])
      ensures key in data && key !in old(tracker.accessStatsMap) ==> fresh(tracker.accessStatsMap[key])
      ensures key in data ==>
                && tracker.accessStatsMap[key].lastAccessTime == now
                && tracker.accessStatsMap[key].accessCountHour == WrapInt(old(tracker.HourCountOf(key)) + 1)
                && tracker.accessStatsMap[key].accessCountDay == WrapInt(old(tracker.DayCountOf(key)) + 1)
      ensures key in data ==> forall k :: k in old(tracker.accessStatsMap) && k != key ==>
                tracker.accessStatsMap[k] == old(tracker.accessStatsMap[k]) && unchanged(tracker.accessStatsMap[k])
      ensures key !in data ==> unchanged(tracker) && unchanged(tracker.accessStatsMap.Values)
    {
      if key in data {
        v := Some(data[key]);
        tracker.RecordAccess(key, now);
      } else {
        v := None;
      }
    }

    /**
     * Applies one committed entry. A NO_OP only raises the applied index. Other
     * non-command entries, undecodable commands and redelivered commands change
     * nothing. A PUT of a new key into a full store first runs an eviction round.
     * A command that runs to the end changes the data as it says, records its
     * sequence number for its client, and raises the applied index to its own.
     */
    method ApplyCommand(entry: LogEntry, client: MLClient) returns (ghost evicted: seq<string>)
      requires Valid()
      modifies this, log
      ensures Valid()
      ensures applied == old(applied) + [entry]
      ensures log.entries == old(log.entries) && log.commitIndex == old(log.commitIndex)
      ensures currentTerm == old(currentTerm) && hasReplicator == old(hasReplicator)
      ensures Machine(data, lastAppliedSequence, log.lastApplied)
              == Step(entry, evicted, Machine(old(data), old(lastAppliedSequence), old(log.lastApplied)))
      ensures EvictionDue(old(data), old(lastAppliedSequence), entry) ==>
                Selection(old(policy.lruFallback.accessTimes), old(policy.RequestPayload(data)), old(data), EVICTION_BATCH, client, evicted)
      ensures !EvictionDue(old(data), old(lastAppliedSequence), entry) ==> evicted == []
      ensures evictionCount == old(evictionCount) + |evicted|
    {
      evicted := [];
      if entry.entryType == NoOpEntry {
        log.SetLastApplied(entry.index);
      } else if Fresh(lastAppliedSequence, entry) {
        evicted := ExecuteCommand(entry.command.value, entry.index, client);
      }
      applied := applied + [entry];
    }

    /** The part of ApplyCommand after its checks: a command not yet applied, from the entry at `index`. */
    method ExecuteCommand(command: KeyValueCommand, index: int, client: MLClient) returns (evicted: seq<string>)
      requires Valid() && !IsDuplicate(lastAppliedSequence, command)
      modifies this, log
      ensures Valid()
      ensures log.entries == old(log.entries) && log.commitIndex == old(log.commitIndex)
      ensures currentTerm == old(currentTerm) && hasReplicator == old(hasReplicator) && applied == old(applied)
      ensures command.kind == CommandType.Put && command.key !in old(data) && |old(data)| >= MAX_CACHE_SIZE ==>
                Selection(old(policy.lruFallback.accessTimes), old(policy.RequestPayload(data)), old(data), EVICTION_BATCH, client, evicted)
      ensures !(command.kind == CommandType.Put && command.key !in old(data) && |old(data)| >= MAX_CACHE_SIZE) ==> evicted == []
      ensures evictionCount == old(evictionCount) + |evicted|
      ensures !(command.kind == CommandType.Put && command.value.None?) ==>
                && data == Execute(Without(old(data), evicted), command)
                && lastAppliedSequence == old(lastAppliedSequence)[command.clientId := command.sequenceNumber]
                && log.lastApplied == MaxIndex(old(log.lastApplied), index)
      ensures command.kind == CommandType.Put && command.value.None? ==>
                && data == Without(old(data), evicted)
                && lastAppliedSequence == old(lastAppliedSequence)
                && log.lastApplied == old(log.lastApplied)
    {
      evicted := [];
      match command.kind {
        case Put =>
          evicted := ApplyPut(command.key, command.value, client);
          if command.value.None? {
            return;
          }
        case Delete =>
          data := data - {command.key};
        case Get =>
      }
      RecordApplied(command, index);
    }

    /**
     * PUT: a key not yet stored first triggers the eviction check; the value is then
     * stored, or, when there is none, the concurrent map refuses it and nothing more
     * happens.
     */
    method ApplyPut(key: string, value: Option<string>, client: MLClient) returns (evicted: seq<string>)
      requires Valid()
      modifies this
      ensures Valid()
      ensures key !in old(data) && |old(data)| >= MAX_CACHE_SIZE ==>
                Selection(old(policy.lruFallback.accessTimes), old(policy.RequestPayload(data)), old(data), EVICTION_BATCH, client, evicted)
      ensures !(key !in old(data) && |old(data)| >= MAX_CACHE_SIZE) ==> evicted == []
      ensures evictionCount == old(evictionCount) + |evicted|
      ensures value.Some? ==> data == Without(old(data), evicted)[key := value.value]
      ensures value.None? ==> data == Without(old(data), evicted)
      ensures lastAppliedSequence == old(lastAppliedSequence) && currentTerm == old(currentTerm)
      ensures hasReplicator == old(hasReplicator) && applied == old(applied)
    {
      evicted := [];
      if key !in data {
        evicted := CheckAndEvict(client);
      }
      if value.Some? {
        data := data[key := value.value];
      }
    }

    /** Records a command's sequence number for its client and raises the applied index to `index`. */
    method RecordApplied(command: KeyValueCommand, index: int)
      requires Valid()
      modifies this, log
      ensures Valid()
      ensures lastAppliedSequence == old(lastAppliedSequence)[command.clientId := command.sequenceNumber]
      ensures log.lastApplied == MaxIndex(old(log.lastApplied), index)
      ensures log.entries == old(log.entries) && log.commitIndex == old(log.commitIndex)
      ensures data == old(data) && evictionCount == old(evictionCount) && currentTerm == old(currentTerm)
      ensures hasReplicator == old(hasReplicator) && applied == old(applied)
    {
      lastAppliedSequence := lastAppliedSequence[command.clientId := command.sequenceNumber];
      log.SetLastApplied(index);
    }

    /**
     * When the store holds at least MAX_CACHE_SIZE keys, removes the keys the
     * eviction policy selects for a batch of EVICTION_BATCH, counting each.
     */
    method CheckAndEvict(client: MLClient) returns (evicted: seq<string>)
      requires Valid()
      modifies this
      ensures Valid()
      ensures |old(data)| >= MAX_CACHE_SIZE ==> Selection(old(policy.lruFallback.accessTimes), old(policy.RequestPayload(data)), old(data), EVICTION_BATCH, client, evicted)
      ensures |old(data)| < MAX_CACHE_SIZE ==> evicted == []
      ensures data == Without(old(data), evicted)
      ensures evictionCount == old(evictionCount) + |evicted|
      ensures lastAppliedSequence == old(lastAppliedSequence) && currentTerm == old(currentTerm)
      ensures hasReplicator == old(hasReplicator) && applied == old(applied)
    {
      evicted := [];
      if |data| >= MAX_CACHE_SIZE {
        evicted := policy.SelectKeysToEvict(data, EVICTION_BATCH, client);
        RemoveKeys(evicted);
      }
    }

    /** Removes each listed key in turn, counting every one as an eviction. */
    method RemoveKeys(keys: seq<string>)
      requires Valid()
      modifies this
      ensures Valid()
      ensures data == Without(old(data), keys)
      ensures evictionCount == old(evictionCount) + |keys|
      ensures lastAppliedSequence == old(lastAppliedSequence) && currentTerm == old(currentTerm)
      ensures hasReplicator == old(hasReplicator) && applied == old(applied)
    {
      for i := 0 to |keys|
        invariant data == Without(old(data), keys[..i])
        invariant evictionCount == old(evictionCount) + i
        invariant lastAppliedSequence == old(lastAppliedSequence) && currentTerm == old(currentTerm)
        invariant hasReplicator == old(hasReplicator) && applied == old(applied)
      {
        assert keys[..i + 1] == keys[..i] + [keys[i]];
        data := data - {keys[i]};
        evictionCount := evictionCount + 1;
      }
      assert keys[..|keys|] == keys;
    }

    method RestoreFromSnapshot(snapshotData: map<string, string>, snapshotSequence: map<string, int>)
      modifies this
      ensures data == snapshotData && lastAppliedSequence == snapshotSequence
      ensures currentTerm == old(currentTerm) && hasReplicator == old(hasReplicator)
      ensures evictionCount == old(evictionCount) && applied == old(applied)
    {
      data := snapshotData;
      lastAppliedSequence := snapshotSequence;
    }
  }
}
