/**
 * The cluster configuration: election timeouts, heartbeat interval and the member
 * list, validated once when the configuration is built, with an index by node id.
 */
module Cluster {
  import opened Wrappers
  import opened JavaInts
  import opened Decimal
  import opened Nodes
  import Quorum

  datatype ClusterConfig = ClusterConfig(
    electionTimeoutMin: int,
    electionTimeoutMax: int,
    heartbeatInterval: int,
    nodes: seq<NodeInfo>,
    nodeIndex: map<string, NodeInfo>)

  /**
   * Why building failed: the index found a repeated id before validation ran, or
   * validation collected errors, reported in one message.
   */
  datatype ConfigError = DuplicateKey(id: string) | Invalid(message: string, errors: seq<string>)

  function Id(n: NodeInfo): string { n.id }

  /** No two nodes of the list share a key. */
  predicate DistinctBy(nodes: seq<NodeInfo>, key: NodeInfo -> string)
  {
    forall i, j :: 0 <= i < j < |nodes| ==> key(nodes[i]) != key(nodes[j])
  }

  /** The keys of the listed nodes. */
  function Seen(nodes: seq<NodeInfo>, key: NodeInfo -> string): set<string>
  {
    set i | 0 <= i < |nodes| :: key(nodes[i])
  }

  /** The keys of a list with one more node are the keys before and the new one. */
  lemma SeenLast(nodes: seq<NodeInfo>, key: NodeInfo -> string)
    requires nodes != []
    ensures Seen(nodes, key) == Seen(nodes[..|nodes| - 1], key) + {key(nodes[|nodes| - 1])}
  {
    var init := nodes[..|nodes| - 1];
    forall k | k in Seen(nodes, key) ensures k in Seen(init, key) + {key(nodes[|nodes| - 1])} {
      var i :| 0 <= i < |nodes| && key(nodes[i]) == k;
      if i < |init| {
        assert key(init[i]) == k;
      }
    }
    forall k | k in Seen(init, key) ensures k in Seen(nodes, key) {
      var i :| 0 <= i < |init| && key(init[i]) == k;
      assert key(nodes[i]) == k;
    }
  }

  /** A list with one more node keeps distinct keys exactly when the new key is not yet seen. */
  lemma DistinctByLast(nodes: seq<NodeInfo>, key: NodeInfo -> string)
    requires nodes != []
    ensures DistinctBy(nodes, key) <==>
              DistinctBy(nodes[..|nodes| - 1], key) && key(nodes[|nodes| - 1]) !in Seen(nodes[..|nodes| - 1], key)
  {
    var init := nodes[..|nodes| - 1];
    if DistinctBy(init, key) && key(nodes[|nodes| - 1]) !in Seen(init, key) {
      forall i, j | 0 <= i < j < |nodes| ensures key(nodes[i]) != key(nodes[j]) {
        if j < |nodes| - 1 {
          assert init[i] == nodes[i] && init[j] == nodes[j];
        } else {
          assert key(init[i]) in Seen(init, key);
        }
      }
    }
    if DistinctBy(nodes, key) {
      assert DistinctBy(init, key) by {
        forall i, j | 0 <= i < j < |init| ensures key(init[i]) != key(init[j]) {
          assert init[i] == nodes[i] && init[j] == nodes[j];
        }
      }
      forall i | 0 <= i < |init| ensures key(init[i]) != key(nodes[|nodes| - 1]) {
        assert init[i] == nodes[i];
      }
    }
  }

  /** The index by id, built in list order; it fails exactly when an id repeats, and otherwise holds every id. */
  function NodeIndex(nodes: seq<NodeInfo>): (r: Result<map<string, NodeInfo>, string>)
    ensures r.Ok? <==> DistinctBy(nodes, Id)
    ensures r.Ok? ==> r.value.Keys == Seen(nodes, Id)
  {
    if nodes == [] then Ok(map[])
    else
      var init := nodes[..|nodes| - 1];
      var last := nodes[|nodes| - 1];
      DistinctByLast(nodes, Id);
      SeenLast(nodes, Id);
      match NodeIndex(init)
      case Err(k) => Err(k)
      case Ok(m) => if last.id in m then Err(last.id) else Ok(m[last.id := last])
  }

  /** Every listed node is found in the index under its own id. */
  lemma {:induction false} NodeIndexFinds(nodes: seq<NodeInfo>, n: NodeInfo)
    requires NodeIndex(nodes).Ok? && n in nodes
    ensures n.id in NodeIndex(nodes).value && NodeIndex(nodes).value[n.id] == n
  {
    var init := nodes[..|nodes| - 1];
    var last := nodes[|nodes| - 1];
    assert NodeIndex(init).Ok? && last.id !in NodeIndex(init).value;
    var m := NodeIndex(init).value;
    assert NodeIndex(nodes).value == m[last.id := last];
    if n != last {
      var i :| 0 <= i < |nodes| && nodes[i] == n;
      assert i < |init| && init[i] == n;
      assert n.id != last.id by {
        assert DistinctBy(nodes, Id);
        assert Id(nodes[i]) != Id(nodes[|nodes| - 1]);
      }
      NodeIndexFinds(init, n);
    }
  }

  /** A failing index names the first node whose id an earlier node already has. */
  lemma {:induction false} NodeIndexReportsFirstRepeat(nodes: seq<NodeInfo>)
    requires NodeIndex(nodes).Err?
    ensures exists j :: && 0 <= j < |nodes| && NodeIndex(nodes).error == nodes[j].id
                        && nodes[j].id in Seen(nodes[..j], Id) && DistinctBy(nodes[..j], Id)
  {
    var init := nodes[..|nodes| - 1];
    if NodeIndex(init).Err? {
      NodeIndexReportsFirstRepeat(init);
      var j :| && 0 <= j < |init| && NodeIndex(init).error == init[j].id
               && init[j].id in Seen(init[..j], Id) && DistinctBy(init[..j], Id);
      assert init[..j] == nodes[..j];
    } else {
      assert nodes[..|nodes| - 1] == init;
    }
  }

  /**
   * One error for each node whose key an earlier node already has, in list order,
   * the heading followed by the key.
   */
  function RepeatErrors(nodes: seq<NodeInfo>, key: NodeInfo -> string, heading: string): seq<string>
  {
    if nodes == [] then []
    else
      var init := nodes[..|nodes| - 1];
      var k := key(nodes[|nodes| - 1]);
      RepeatErrors(init, key, heading) + (if k in Seen(init, key) then [heading + k] else [])
  }

  /** There are no repeat errors exactly when no two nodes share a key. */
  lemma {:induction false} RepeatErrorsEmptyIff(nodes: seq<NodeInfo>, key: NodeInfo -> string, heading: string)
    ensures RepeatErrors(nodes, key, heading) == [] <==> DistinctBy(nodes, key)
  {
    if nodes != [] {
      RepeatErrorsEmptyIff(nodes[..|nodes| - 1], key, heading);
      DistinctByLast(nodes, key);
    }
  }

  /** The corrected heartbeat check: three heartbeats must fit in the shortest election timeout. */
  predicate HeartbeatTooSlow(heartbeatInterval: int, electionTimeoutMin: int)
  {
    heartbeatInterval * 3 > electionTimeoutMin
  }

  /** The heartbeat check as written: `heartbeatInterval * 3` is a 32-bit product that wraps. */
  predicate HeartbeatTooSlowAsWritten(heartbeatInterval: int, electionTimeoutMin: int)
  {
    WrapInt(heartbeatInterval * 3) > electionTimeoutMin
  }

  /** The checks on the timing parameters, in order, given the outcome of the heartbeat check. */
  function TimingErrors(min: int, max: int, hb: int, heartbeatTooSlow: bool): seq<string>
  {
    (if hb <= 0 then ["Heartbeat interval must be positive, got: " + IntToString(hb)] else [])
    + (if min <= 0 then ["Election timeout min must be positive, got: " + IntToString(min)] else [])
    + (if max <= 0 then ["Election timeout max must be positive, got: " + IntToString(max)] else [])
    + (if max <= min then ["Election timeout max (" + IntToString(max) + ") must be greater than min (" + IntToString(min) + ")"] else [])
    + (if heartbeatTooSlow then
         ["Heartbeat interval (" + IntToString(hb) + "ms) must be much smaller than election timeout min ("
          + IntToString(min) + "ms). Recommended: heartbeat * 3 <= election_timeout_min"]
       else [])
  }

  /** The checks on the member list, in order: there is a node, ids and addresses do not repeat. */
  function MemberErrors(nodes: seq<NodeInfo>): seq<string>
  {
    (if nodes == [] then ["Cluster must have at least one node"] else [])
    + RepeatErrors(nodes, Id, "Duplicate node ID found: ")
    + RepeatErrors(nodes, Address, "Duplicate address found: ")
  }

  /** Every error validation reports, in order, with the heartbeat check corrected. */
  function ValidationErrors(min: int, max: int, hb: int, nodes: seq<NodeInfo>): seq<string>
  {
    TimingErrors(min, max, hb, HeartbeatTooSlow(hb, min)) + MemberErrors(nodes)
  }

  /**
   * The order of the report: a non-positive heartbeat is the first error, else a
   * non-positive minimum is; an empty node list is the last.
   */
  lemma ValidationErrorsOrder(min: int, max: int, hb: int, nodes: seq<NodeInfo>)
    ensures var errors := ValidationErrors(min, max, hb, nodes);
            && (hb <= 0 ==> errors != [] && errors[0] == "Heartbeat interval must be positive, got: " + IntToString(hb))
            && (hb > 0 && min <= 0 ==> errors != [] && errors[0] == "Election timeout min must be positive, got: " + IntToString(min))
            && (nodes == [] ==> errors != [] && errors[|errors| - 1] == "Cluster must have at least one node")
  {
    var timing := TimingErrors(min, max, hb, HeartbeatTooSlow(hb, min));
    var members := MemberErrors(nodes);
    assert ValidationErrors(min, max, hb, nodes) == timing + members;
    if nodes == [] {
      assert members == ["Cluster must have at least one node"];
    }
  }

  /** Every error validation reports, with the heartbeat check as written. */
  function ValidationErrorsAsWritten(min: int, max: int, hb: int, nodes: seq<NodeInfo>): seq<string>
  {
    TimingErrors(min, max, hb, HeartbeatTooSlowAsWritten(hb, min)) + MemberErrors(nodes)
  }

  /** The check as written reports the same errors as the corrected one whenever 3 × heartbeat fits in a Java int. */
  lemma AsWrittenAgreesWithoutOverflow(min: int, max: int, hb: int, nodes: seq<NodeInfo>)
    requires IsInt(3 * hb)
    ensures ValidationErrorsAsWritten(min, max, hb, nodes) == ValidationErrors(min, max, hb, nodes)
  {
    assert WrapInt(hb * 3) == hb * 3;
  }

  /** What a valid configuration is. */
  predicate ConfigValid(min: int, max: int, hb: int, nodes: seq<NodeInfo>)
  {
    && hb > 0 && min > 0 && max > 0 && max > min && 3 * hb <= min
    && nodes != [] && DistinctBy(nodes, Id) && DistinctBy(nodes, Address)
  }

  /** Validation reports nothing exactly when the configuration is valid. */
  lemma ValidationErrorsEmptyIff(min: int, max: int, hb: int, nodes: seq<NodeInfo>)
    ensures ValidationErrors(min, max, hb, nodes) == [] <==> ConfigValid(min, max, hb, nodes)
  {
    var timing := TimingErrors(min, max, hb, HeartbeatTooSlow(hb, min));
    assert |timing| == 0 <==> hb > 0 && min > 0 && max > 0 && max > min && !HeartbeatTooSlow(hb, min);
    RepeatErrorsEmptyIff(nodes, Id, "Duplicate node ID found: ");
    RepeatErrorsEmptyIff(nodes, Address, "Duplicate address found: ");
    assert |ValidationErrors(min, max, hb, nodes)| == |timing| + |MemberErrors(nodes)|;
  }

  /**
   * A heartbeat of 1431655766 ms against an election timeout of 150 to 300 ms passes
   * the heartbeat check as written, because three heartbeats wrap around to 2 ms.
   */
  lemma HeartbeatOverflowPassesValidation(n: NodeInfo)
    ensures WrapInt(1431655766 * 3) == 2
    ensures ValidationErrorsAsWritten(150, 300, 1431655766, [n]) == []
    ensures ValidationErrors(150, 300, 1431655766, [n]) != []
  {
    assert WrapInt(1431655766 * 3) == 2 by {
      assert (1431655766 * 3 - INT_MIN) % 0x1_0000_0000 == 2 - INT_MIN;
    }
    assert !HeartbeatTooSlowAsWritten(1431655766, 150);
    assert HeartbeatTooSlow(1431655766, 150);
    assert [n][..0] == [];
    assert RepeatErrors([n], Id, "Duplicate node ID found: ") == [];
    assert RepeatErrors([n], Address, "Duplicate address found: ") == [];
    assert MemberErrors([n]) == [];
  }

  /**
   * Three heartbeats exactly filling the shortest election timeout are accepted, as
   * are clusters of one or two nodes.
   */
  lemma BoundaryConfigurationsAccepted(a: NodeInfo, b: NodeInfo)
    requires a.id != b.id && Address(a) != Address(b)
    ensures ValidationErrors(150, 300, 50, [a]) == []
    ensures ValidationErrors(150, 300, 50, [a, b]) == []
    ensures ValidationErrors(150, 300, 51, [a]) != []
  {
    ValidationErrorsEmptyIff(150, 300, 50, [a]);
    ValidationErrorsEmptyIff(150, 300, 50, [a, b]);
    ValidationErrorsEmptyIff(150, 300, 51, [a]);
  }

  /** The corrected check accepts only heartbeats at most a third of the shortest election timeout. */
  lemma ValidHeartbeatBound(min: int, max: int, hb: int, nodes: seq<NodeInfo>)
    requires ValidationErrors(min, max, hb, nodes) == []
    ensures 0 < hb && 3 * hb <= min < max
  {
    ValidationErrorsEmptyIff(min, max, hb, nodes);
  }

  /** The text of the failure: a header and then one indented line per error. */
  function FailureMessage(errors: seq<string>): string
  {
    "Cluster configuration validation failed:\n" + ErrorLines(errors)
  }

  function ErrorLines(errors: seq<string>): string
  {
    if errors == [] then ""
    else if |errors| == 1 then "  - " + errors[0]
    else "  - " + errors[0] + "\n" + ErrorLines(errors[1..])
  }

  /** Collects the validation errors: the timing and size checks, then one pass over the nodes per key. */
  method Validate(min: int, max: int, hb: int, nodes: seq<NodeInfo>) returns (errors: seq<string>)
    ensures errors == ValidationErrors(min, max, hb, nodes)
  {
    var timingErrors := TimingErrors(min, max, hb, HeartbeatTooSlow(hb, min));
    var memberErrors := if nodes == [] then ["Cluster must have at least one node"] else [];
    var idErrors := CollectRepeats(nodes, Id, "Duplicate node ID found: ");
    var addressErrors := CollectRepeats(nodes, Address, "Duplicate address found: ");
    memberErrors := memberErrors + idErrors + addressErrors;
    assert memberErrors == MemberErrors(nodes);
    errors := timingErrors + memberErrors;
  }

  /** One pass over the nodes adding each key to a set, with an error for each key already in it. */
  method CollectRepeats(nodes: seq<NodeInfo>, key: NodeInfo -> string, heading: string) returns (errors: seq<string>)
    ensures errors == RepeatErrors(nodes, key, heading)
  {
    errors := [];
    var seen: set<string> := {};
    for i := 0 to |nodes|
      invariant seen == Seen(nodes[..i], key)
      invariant errors == RepeatErrors(nodes[..i], key, heading)
    {
      assert nodes[..i + 1][..i] == nodes[..i];
      SeenLast(nodes[..i + 1], key);
      var k := key(nodes[i]);
      if k in seen {
        errors := errors + [heading + k];
      }
      seen := seen + {k};
    }
    assert nodes[..|nodes|] == nodes;
  }

  /**
   * Builds the configuration: an absent node list is empty, the index is built first
   * and fails on a repeated id, then validation fails on any error it collects.
   */
  method Build(min: int, max: int, hb: int, nodeList: Option<seq<NodeInfo>>) returns (r: Result<ClusterConfig, ConfigError>)
    ensures var nodes := if nodeList.Some? then nodeList.value else [];
            && (r.Err? && r.error.DuplicateKey? <==> !DistinctBy(nodes, Id))
            && (r.Ok? <==> ConfigValid(min, max, hb, nodes))
            && (r.Ok? ==> r.value == ClusterConfig(min, max, hb, nodes, NodeIndex(nodes).value) && Built(r.value))
            && (r.Err? && r.error.Invalid? ==>
                  r.error.errors == ValidationErrors(min, max, hb, nodes) && r.error.message == FailureMessage(r.error.errors))
  {
    var nodes := if nodeList.Some? then nodeList.value else [];
    var index := NodeIndex(nodes);
    if index.Err? {
      return Err(DuplicateKey(index.error));
    }
    var errors := Validate(min, max, hb, nodes);
    ValidationErrorsEmptyIff(min, max, hb, nodes);
    if errors != [] {
      return Err(Invalid(FailureMessage(errors), errors));
    }
    r := Ok(ClusterConfig(min, max, hb, nodes, index.value));
  }

  /** A configuration as Build returns it: its index is the index of its node list. */
  ghost predicate Built(c: ClusterConfig)
  {
    NodeIndex(c.nodes) == Ok(c.nodeIndex)
  }

  function NodeById(c: ClusterConfig, nodeId: string): Option<NodeInfo>
  {
    if nodeId in c.nodeIndex then Some(c.nodeIndex[nodeId]) else None
  }

  /** The lookup finds a node exactly when one is listed with that id, and then it is that node. */
  lemma NodeByIdFinds(c: ClusterConfig, nodeId: string)
    requires Built(c)
    ensures NodeById(c, nodeId).Some? <==> exists i :: 0 <= i < |c.nodes| && c.nodes[i].id == nodeId
    ensures forall i :: 0 <= i < |c.nodes| && c.nodes[i].id == nodeId ==> NodeById(c, nodeId) == Some(c.nodes[i])
  {
    forall i | 0 <= i < |c.nodes| && c.nodes[i].id == nodeId {
      NodeIndexFinds(c.nodes, c.nodes[i]);
    }
  }

  /** The nodes without the given id, in list order. */
  function OtherNodes(nodes: seq<NodeInfo>, excludeId: string): (r: seq<NodeInfo>)
    ensures forall n :: n in r <==> n in nodes && n.id != excludeId
    ensures |r| <= |nodes|
  {
    if nodes == [] then []
    else (if nodes[0].id != excludeId then [nodes[0]] else []) + OtherNodes(nodes[1..], excludeId)
  }

  /** A single node stays exactly when its id differs. */
  lemma OtherNodesOfOne(n: NodeInfo, excludeId: string)
    ensures OtherNodes([n], excludeId) == (if n.id != excludeId then [n] else [])
  {
    assert [n][1..] == [];
  }

  /**
   * The filter keeps list order: the nodes of a concatenation are those of its first part
   * followed by those of its second.
   */
  lemma {:induction false} OtherNodesKeepsOrder(x: seq<NodeInfo>, y: seq<NodeInfo>, excludeId: string)
    ensures OtherNodes(x + y, excludeId) == OtherNodes(x, excludeId) + OtherNodes(y, excludeId)
  {
    if x == [] {
      assert x + y == y;
    } else {
      var head := if x[0].id != excludeId then [x[0]] else [];
      var rest := x[1..];
      assert (x + y)[0] == x[0] && (x + y)[1..] == rest + y;
      calc {
        OtherNodes(x + y, excludeId);
        head + OtherNodes(rest + y, excludeId);
        { OtherNodesKeepsOrder(rest, y, excludeId); }
        head + (OtherNodes(rest, excludeId) + OtherNodes(y, excludeId));
        (head + OtherNodes(rest, excludeId)) + OtherNodes(y, excludeId);
        OtherNodes(x, excludeId) + OtherNodes(y, excludeId);
      }
    }
  }

  /** With distinct ids, leaving out a listed node leaves one node fewer, and an unlisted id leaves all. */
  lemma {:induction false} OtherNodesCount(nodes: seq<NodeInfo>, excludeId: string)
    requires DistinctBy(nodes, Id)
    ensures |OtherNodes(nodes, excludeId)| == |nodes| - (if excludeId in Seen(nodes, Id) then 1 else 0)
  {
    if nodes != [] {
      var rest := nodes[1..];
      assert DistinctBy(rest, Id) by {
        forall i, j | 0 <= i < j < |rest| ensures Id(rest[i]) != Id(rest[j]) {
          assert rest[i] == nodes[i + 1] && rest[j] == nodes[j + 1];
        }
      }
      OtherNodesCount(rest, excludeId);
      if nodes[0].id == excludeId {
        assert excludeId !in Seen(rest, Id) by {
          forall i | 0 <= i < |rest| ensures Id(rest[i]) != excludeId {
            assert rest[i] == nodes[i + 1];
          }
        }
      } else {
        assert excludeId in Seen(rest, Id) <==> excludeId in Seen(nodes, Id) by {
          if excludeId in Seen(nodes, Id) {
            var i :| 0 <= i < |nodes| && Id(nodes[i]) == excludeId;
            assert Id(rest[i - 1]) == excludeId;
          }
          if excludeId in Seen(rest, Id) {
            var i :| 0 <= i < |rest| && Id(rest[i]) == excludeId;
            assert Id(nodes[i + 1]) == excludeId;
          }
        }
      }
    }
  }

  function ClusterSize(c: ClusterConfig): nat { |c.nodes| }

  /** With distinct ids the index holds one entry per listed node. */
  lemma {:induction false} NodeIndexSize(nodes: seq<NodeInfo>)
    requires DistinctBy(nodes, Id)
    ensures NodeIndex(nodes).Ok? && |NodeIndex(nodes).value| == |nodes|
  {
    if nodes != [] {
      var init := nodes[..|nodes| - 1];
      DistinctByLast(nodes, Id);
      NodeIndexSize(init);
    }
  }

  /** A built configuration's size is the number of distinct node ids it indexes. */
  lemma ClusterSizeCountsIds(c: ClusterConfig)
    requires Built(c)
    ensures ClusterSize(c) == |c.nodeIndex|
  {
    NodeIndexSize(c.nodes);
  }

  /**
   * The quorum of the configured cluster, `size / 2 + 1`: more than half of the nodes,
   * at most all of them, and the same majority the replication and election code use.
   */
  function MajoritySize(c: ClusterConfig): (m: int)
    ensures |c.nodes| >= 1 ==> 1 <= m <= |c.nodes|
    ensures 2 * m > |c.nodes| && 2 * (m - 1) <= |c.nodes|
    ensures m == Quorum.Majority(|c.nodes|)
  {
    |c.nodes| / 2 + 1
  }
}
