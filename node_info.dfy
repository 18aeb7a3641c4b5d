/** A cluster member as the configuration lists it: a trimmed id and host, and a port. */
module Nodes {
  import opened Wrappers
  import opened Decimal

  datatype NodeInfo = NodeInfo(id: string, host: string, port: int)

  const MIN_PORT := 1024
  const MAX_PORT := 65535

  /** What `String.trim` removes: the characters up to and including the space. */
  predicate IsTrimmed(c: char) { c <= ' ' }

  function TrimStart(s: string): (r: string)
    ensures |r| <= |s| && r == s[|s| - |r|..]
    ensures r != [] ==> !IsTrimmed(r[0])
    ensures forall i :: 0 <= i < |s| - |r| ==> IsTrimmed(s[i])
  {
    if s != [] && IsTrimmed(s[0]) then TrimStart(s[1..]) else s
  }

  function TrimEnd(s: string): (r: string)
    ensures |r| <= |s| && r == s[..|r|]
    ensures r != [] ==> !IsTrimmed(r[|r| - 1])
    ensures forall i :: |r| <= i < |s| ==> IsTrimmed(s[i])
  {
    if s != [] && IsTrimmed(s[|s| - 1]) then TrimEnd(s[..|s| - 1]) else s
  }

  /**
   * `String.trim`: the text is what is left after cutting off the leading and then the
   * trailing characters up to the space, and it starts and ends with a character above it.
   */
  function Trim(s: string): (r: string)
    ensures |r| <= |TrimStart(s)| && r == TrimStart(s)[..|r|]
    ensures forall i :: |r| <= i < |TrimStart(s)| ==> IsTrimmed(TrimStart(s)[i])
    ensures r != [] ==> !IsTrimmed(r[0]) && !IsTrimmed(r[|r| - 1])
  {
    var t := TrimStart(s);
    var r := TrimEnd(t);
    assert r != [] ==> r[0] == t[0];
    r
  }

  /** Trimming a trimmed text changes nothing. */
  lemma TrimIdempotent(s: string)
    ensures Trim(Trim(s)) == Trim(s)
  {
    var r := Trim(s);
    assert TrimStart(r) == r;
    assert TrimEnd(r) == r;
  }

  /**
   * A node as the constructor checks it: the id and then the host must be present and
   * not blank, and the port must lie in [1024, 65535]; id and host are kept trimmed.
   */
  function NewNodeInfo(id: Option<string>, host: Option<string>, port: int): (r: Result<NodeInfo, string>)
    ensures r.Ok? <==> && id.Some? && Trim(id.value) != [] && host.Some? && Trim(host.value) != []
                       && MIN_PORT <= port <= MAX_PORT
    ensures r.Ok? ==> r.value.id == Trim(id.value) && r.value.host == Trim(host.value) && r.value.port == port
    ensures (id.None? || Trim(id.value) == []) ==> r == Err("Node id cannot be null or empty")
    ensures id.Some? && Trim(id.value) != [] && (host.None? || Trim(host.value) == []) ==>
              r == Err("Node host cannot be null or empty")
    ensures id.Some? && Trim(id.value) != [] && host.Some? && Trim(host.value) != [] && (port < MIN_PORT || port > MAX_PORT) ==>
              r == Err("Node port must be between 1024 and 65535, got: " + IntToString(port))
  {
    if id.None? || Trim(id.value) == [] then Err("Node id cannot be null or empty")
    else if host.None? || Trim(host.value) == [] then Err("Node host cannot be null or empty")
    else if port < MIN_PORT || port > MAX_PORT then
      Err("Node port must be between 1024 and 65535, got: " + IntToString(port))
    else Ok(NodeInfo(Trim(id.value), Trim(host.value), port))
  }

  /** `host:port`. */
  function Address(n: NodeInfo): string
  {
    n.host + ":" + IntToString(n.port)
  }

  /** Only the id decides whether two nodes are the same node. */
  predicate SameNode(a: NodeInfo, b: NodeInfo)
  {
    a.id == b.id
  }

  /** A node moved to another host or port is still the same node. */
  lemma MovedNodeIsSameNode(n: NodeInfo, host: string, port: int)
    ensures SameNode(n, n.(host := host, port := port))
    ensures forall m :: SameNode(n, m) <==> SameNode(n.(host := host, port := port), m)
  {
  }

  /** Two nodes on one host with different valid ports have different addresses. */
  lemma DistinctPortsDistinctAddresses(a: NodeInfo, b: NodeInfo)
    requires a.host == b.host && a.port != b.port && a.port >= 0 && b.port >= 0
    ensures Address(a) != Address(b)
  {
    var prefix := a.host + ":";
    if Address(a) == Address(b) {
      assert Address(a) == prefix + NatToString(a.port);
      assert Address(b) == prefix + NatToString(b.port);
      assert NatToString(a.port) == Address(a)[|prefix|..];
      assert NatToString(b.port) == Address(b)[|prefix|..];
      DigitsValueOfNatToString(a.port);
      DigitsValueOfNatToString(b.port);
      assert false;
    }
  }
}
