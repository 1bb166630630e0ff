/**
 Network flows and the direction-free keys under which the flow table stores them.
 */
module Flows {

  type Byte = x: int | 0 <= x < 256
  type Port = x: int | 0 <= x < 65536
  type Proto = Byte

  const TCP: Proto := 6
  const UDP: Proto := 17
  const ICMP: Proto := 1
  const ICMPV6: Proto := 58

  /** A 16-byte address; an IPv4 address sits in the last four bytes. */
  type Ip = s: seq<Byte> | |s| == 16 witness [0, 0, 0, 0, 0, 0, 0, 0, 0, 0, 0, 0, 0, 0, 0, 0]

  datatype Flow = Flow(srcIP: Ip, dstIP: Ip, srcPort: Port, dstPort: Port, proto: Proto, ipv6: bool)

  datatype FlowKey = FlowKey(srcIP: Ip, dstIP: Ip, srcPort: Port, dstPort: Port, proto: Proto, ipv6: bool)

  /** -1, 0 or 1 as `a` is below, equal to or above `b` from byte `i` on. */
  function CompareFrom(a: Ip, b: Ip, i: nat): int
    requires i <= 16
    decreases 16 - i
  {
    if i == 16 then 0
    else if a[i] < b[i] then -1
    else if a[i] > b[i] then 1
    else CompareFrom(a, b, i + 1)
  }

  /** IPv4 addresses are compared on their last four bytes only. */
  function CompareIPs(a: Ip, b: Ip, ipv6: bool): int {
    CompareFrom(a, b, if ipv6 then 0 else 12)
  }

  predicate Forward(f: Flow) {
    var cmp := CompareIPs(f.srcIP, f.dstIP, f.ipv6);
    cmp < 0 || (cmp == 0 && f.srcPort <= f.dstPort)
  }

  /** The key of a flow, and whether the flow runs against the key's direction. */
  function NormalizeFlowKey(f: Flow): (FlowKey, bool) {
    if Forward(f) then (FlowKey(f.srcIP, f.dstIP, f.srcPort, f.dstPort, f.proto, f.ipv6), false)
    else (FlowKey(f.dstIP, f.srcIP, f.dstPort, f.srcPort, f.proto, f.ipv6), true)
  }

  function KeyOf(f: Flow): FlowKey {
    NormalizeFlowKey(f).0
  }

  function Swap(f: Flow): Flow {
    f.(srcIP := f.dstIP, dstIP := f.srcIP, srcPort := f.dstPort, dstPort := f.srcPort)
  }

  lemma {:induction false} CompareAntisymmetric(a: Ip, b: Ip, i: nat)
    requires i <= 16
    ensures CompareFrom(b, a, i) == -CompareFrom(a, b, i)
    ensures CompareFrom(a, b, i) == 0 <==> a[i..] == b[i..]
    decreases 16 - i
  {
    if i < 16 {
      CompareAntisymmetric(a, b, i + 1);
      assert a[i..] == [a[i]] + a[i + 1..] && b[i..] == [b[i]] + b[i + 1..];
    }
  }

  /**
   Both directions of a flow have one key, except when the two addresses differ only
   in bytes the IPv4 comparison ignores and the ports are equal too.
   */
  lemma BothDirectionsShareKey(f: Flow)
    ensures KeyOf(Swap(f)) == KeyOf(f)
            <==> !(!f.ipv6 && f.srcIP != f.dstIP && f.srcIP[12..] == f.dstIP[12..] && f.srcPort == f.dstPort)
  {
    CompareAntisymmetric(f.srcIP, f.dstIP, if f.ipv6 then 0 else 12);
    assert f.srcIP[0..] == f.srcIP && f.dstIP[0..] == f.dstIP;
  }

  /** No two flows share a key unless they are the two directions of one flow. */
  lemma KeyDeterminesFlow(f: Flow, g: Flow)
    ensures KeyOf(f) == KeyOf(g) ==> g == f || g == Swap(f)
  {}

  /** A flow is marked as running against its key exactly if the key is not the flow itself. */
  lemma MarkedAgainstKey(f: Flow)
    ensures var (key, against) := NormalizeFlowKey(f);
            var g := if against then Swap(f) else f;
            && key == FlowKey(g.srcIP, g.dstIP, g.srcPort, g.dstPort, g.proto, g.ipv6)
            && (against ==> CompareIPs(g.srcIP, g.dstIP, g.ipv6) < 0 || (CompareIPs(g.srcIP, g.dstIP, g.ipv6) == 0 && g.srcPort < g.dstPort))
  {
    CompareAntisymmetric(f.srcIP, f.dstIP, if f.ipv6 then 0 else 12);
  }

  /** IPv4 flows that keep the unused address bytes zero, and all IPv6 flows. */
  predicate Canonical(f: Flow) {
    f.ipv6 || (f.srcIP[..12] == seq(12, _ => 0) && f.dstIP[..12] == seq(12, _ => 0))
  }

  /** Two canonical flows share a key exactly when they are the same flow or each other's reverse. */
  lemma SameKeyIffSameConversation(f: Flow, g: Flow)
    requires Canonical(f)
    ensures KeyOf(f) == KeyOf(g) <==> g == f || g == Swap(f)
  {
    BothDirectionsShareKey(f);
    KeyDeterminesFlow(f, g);
    assert f.srcIP == f.srcIP[..12] + f.srcIP[12..] && f.dstIP == f.dstIP[..12] + f.dstIP[12..];
  }
}
