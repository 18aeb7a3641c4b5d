/**
 * The values that travel through the log and between nodes: log entries, the
 * key-value commands they carry, the replication request/response pair and the
 * node-to-node messages.
 */
module Protocol {
  import opened Wrappers

  datatype RaftState = Follower | Candidate | Leader

  datatype LogEntryType = CommandEntry | NoOpEntry | ConfigurationEntry

  datatype CommandType = Put | Delete | Get

  /** A client command; `value` is absent for DELETE and GET. */
  datatype KeyValueCommand = KeyValueCommand(
    kind: CommandType,
    key: string,
    value: Option<string>,
    timestamp: int,
    clientId: string,
    sequenceNumber: int)

  /**
   * A log entry. Its command is stored as JSON text; `command` is the command that
   * text decodes to, or `None` when it does not decode (the empty text of a NO_OP).
   */
  datatype LogEntry = LogEntry(index: int, term: int, command: Option<KeyValueCommand>, entryType: LogEntryType)

  datatype AppendEntriesRequest = AppendEntriesRequest(
    term: int,
    leaderId: string,
    prevLogIndex: int,
    prevLogTerm: int,
    entries: seq<LogEntry>,
    leaderCommit: int)

  datatype AppendEntriesResponse = AppendEntriesResponse(term: int, success: bool, matchIndex: int, followerId: string)

  /** The node-to-node message, one constructor per message type that carries fields. */
  datatype Message =
    | RequestVote(term: int, senderId: string, candidateId: string, lastLogIndex: int, lastLogTerm: int)
    | RequestVoteResponse(term: int, senderId: string, success: bool)
    | AppendEntries(term: int, senderId: string, leaderId: string, prevLogIndex: int, prevLogTerm: int,
                    leaderCommit: int, entries: seq<LogEntry>)
    | AppendEntriesReply(term: int, senderId: string, success: bool, matchIndex: int)
}
