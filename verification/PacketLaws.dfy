/**
 What kind of packet a byte string is, and of which flow, told from its bytes alone.
 */
module PacketLaws {
  import opened Wrappers
  import opened Flows
  import opened Packets

  // ----- Transport headers by their bytes

  /** A complete TCP header at `t`. */
  ghost predicate TCPAt(pkt: Bytes, t: nat) {
    t + 20 <= |pkt| && pkt[t + 12] >= 80 && t + pkt[t + 12] / 16 * 4 <= |pkt|
  }

  ghost predicate Flag(pkt: Bytes, t: nat, mask: nat)
    requires t + 20 <= |pkt| && mask > 0
  {
    pkt[t + 13] / mask % 2 == 1
  }

  /** What starts a flow: a SYN without ACK, any UDP datagram, an echo request. */
  ghost predicate StartBytes(pkt: Bytes, t: nat, proto: Proto) {
    || (proto == 6 && TCPAt(pkt, t) && Flag(pkt, t, 2) && !Flag(pkt, t, 16))
    || (proto == 17 && t + 8 <= |pkt|)
    || (proto == 1 && t + 4 <= |pkt| && pkt[t] == 8 && pkt[t + 1] == 0)
    || (proto == 58 && t + 4 <= |pkt| && pkt[t] == 128 && pkt[t + 1] == 0)
  }

  /** What ends one: a FIN or RST that does not start one. */
  ghost predicate EndBytes(pkt: Bytes, t: nat, proto: Proto) {
    proto == 6 && TCPAt(pkt, t) && !(Flag(pkt, t, 2) && !Flag(pkt, t, 16)) && (Flag(pkt, t, 1) || Flag(pkt, t, 4))
  }

  /** What reports an error about another packet. */
  ghost predicate ErrorBytes(pkt: Bytes, t: nat, proto: Proto) {
    t + 4 <= |pkt| && ((proto == 1 && pkt[t] in {3, 4, 5, 11, 12}) || (proto == 58 && pkt[t] in {1, 2, 3, 4}))
  }

  /** The ports of a flow whose transport header is at `t`. */
  ghost function PortAt(pkt: Bytes, t: nat, proto: Proto): Port {
    if proto in {6, 17} && t + 2 <= |pkt| then pkt[t] as int * 256 + pkt[t + 1] as int else 0
  }

  ghost function WithPorts(f: Flow, pkt: Bytes, t: nat): Flow {
    f.(srcPort := PortAt(pkt, t, f.proto), dstPort := PortAt(pkt, t + 2, f.proto))
  }

  lemma TransportByBytes(f: Flow, pkt: Bytes, t: nat)
    requires t <= |pkt| && f.srcPort == f.dstPort == 0
    ensures var r := ParseTransport(f, f.proto, pkt[t..]);
            && (r.Ok? && r.value.1 == Start <==> StartBytes(pkt, t, f.proto))
            && (r.Ok? && r.value.1 == End <==> EndBytes(pkt, t, f.proto))
            && (r.Ok? && r.value.1 == Error <==> ErrorBytes(pkt, t, f.proto))
            && (r.Ok? ==> r.value.1 != Fragment)
            && (r.Ok? && r.value.1 != Error ==> r.value.0 == WithPorts(f, pkt, t))
  {
    var b := pkt[t..];
    assert forall i :: 0 <= i < |b| ==> b[i] == pkt[t + i];
  }

  // ----- What an ICMP error is about

  /** The bytes at `q` are an IPv4 header complete with its options and the four bytes after it. */
  ghost predicate QuotedIPv4(pkt: Bytes, q: nat) {
    q + 20 <= |pkt| && pkt[q] / 16 == 4 && pkt[q] % 16 >= 5 && q + pkt[q] % 16 * 4 + 4 <= |pkt|
  }

  ghost predicate QuotedIPv6(pkt: Bytes, q: nat) {
    q + 40 <= |pkt| && pkt[q] / 16 == 6
  }

  /**
   An error whose message is at `t` is about the flow of the packet quoted eight bytes
   later: its addresses, protocol and ports. What cannot be read leaves the error's own flow.
   */
  lemma ErrorFlowByBytes(f: Flow, pkt: Bytes, t: nat)
    requires t <= |pkt| && ErrorBytes(pkt, t, f.proto) && f.srcPort == f.dstPort == 0
    ensures var r := ParseTransport(f, f.proto, pkt[t..]);
            var q := t + 8;
            && r.Ok?
            && (QuotedIPv4(pkt, q) ==>
                  r.value.0 == WithPorts(Flow(f.srcIP[..12] + pkt[q + 12..q + 16], f.dstIP[..12] + pkt[q + 16..q + 20], 0, 0, pkt[q + 9], false),
                                         pkt, q + pkt[q] % 16 * 4))
            && (QuotedIPv6(pkt, q) ==>
                  r.value.0 == (var g := Flow(pkt[q + 8..q + 24], pkt[q + 24..q + 40], 0, 0, pkt[q + 6], true);
                                if q + 44 <= |pkt| then WithPorts(g, pkt, q + 40) else g))
            && (!QuotedIPv4(pkt, q) && !QuotedIPv6(pkt, q) ==> r.value.0 == f)
  {
    QuotedByBytes(f, pkt, t);
    assert pkt[t..][0] == pkt[t] && pkt[t..][1] == pkt[t + 1];
    hide ParseQuoted;
  }

  lemma QuotedByBytes(f: Flow, pkt: Bytes, t: nat)
    requires t <= |pkt| && f.srcPort == f.dstPort == 0
    ensures var r := ParseQuoted(f, pkt[t..]);
            var q := t + 8;
            && (QuotedIPv4(pkt, q) ==>
                  r == WithPorts(Flow(f.srcIP[..12] + pkt[q + 12..q + 16], f.dstIP[..12] + pkt[q + 16..q + 20], 0, 0, pkt[q + 9], false),
                                 pkt, q + pkt[q] % 16 * 4))
            && (QuotedIPv6(pkt, q) ==>
                  r == (var g := Flow(pkt[q + 8..q + 24], pkt[q + 24..q + 40], 0, 0, pkt[q + 6], true);
                        if q + 44 <= |pkt| then WithPorts(g, pkt, q + 40) else g))
            && (!QuotedIPv4(pkt, q) && !QuotedIPv6(pkt, q) ==> r == f)
  {
    var icmp := pkt[t..];
    if |icmp| >= 28 {
      var q := t + 8;
      var b := icmp[8..];
      assert b == pkt[q..];
      assert forall i :: 0 <= i < |b| ==> b[i] == pkt[q + i];
      assert b[12..16] == pkt[q + 12..q + 16] && b[16..20] == pkt[q + 16..q + 20];
      if |b| >= 40 {
        assert b[8..24] == pkt[q + 8..q + 24] && b[24..40] == pkt[q + 24..q + 40];
      }
    }
  }

  // ----- IPv4

  /** A complete IPv4 header, its length, and the fragment offset it gives. */
  ghost predicate IPv4Bytes(pkt: Bytes) {
    20 <= |pkt| && pkt[0] / 16 == 4 && pkt[0] % 16 >= 5 && pkt[0] % 16 * 4 <= |pkt|
  }

  ghost function FragmentOffset(pkt: Bytes): nat
    requires |pkt| >= 20
  {
    pkt[6] as int % 32 * 256 + pkt[7] as int
  }

  /** The header's own flow, with no ports. */
  ghost function IPv4Base(pkt: Bytes): Flow
    requires |pkt| >= 20
  {
    Flow(Zeros(12) + pkt[12..16], Zeros(12) + pkt[16..20], 0, 0, pkt[9], false)
  }

  /** The kind of every IPv4 packet, and the flow of all but errors. */
  lemma IPv4ByBytes(pkt: Bytes)
    requires |pkt| >= 20 && pkt[0] / 16 == 4
    ensures var r := ParsePacket(pkt);
            var t := pkt[0] % 16 * 4;
            var whole := IPv4Bytes(pkt) && FragmentOffset(pkt) == 0 && t + 4 <= |pkt|;
            && (r.Ok? ==> IPv4Bytes(pkt))
            && (r.Ok? && r.value.1 == Fragment <==>
                  IPv4Bytes(pkt) && (FragmentOffset(pkt) > 0 || (t + 4 > |pkt| && pkt[6] / 32 % 2 == 1)))
            && (r.Ok? && r.value.1 == Start <==> whole && StartBytes(pkt, t, pkt[9]))
            && (r.Ok? && r.value.1 == End <==> whole && EndBytes(pkt, t, pkt[9]))
            && (r.Ok? && r.value.1 == Error <==> whole && ErrorBytes(pkt, t, pkt[9]))
            && (r.Ok? && r.value.1 != Error ==> r.value.0 == if whole then WithPorts(IPv4Base(pkt), pkt, t) else IPv4Base(pkt))
  {
    OffsetByBytes(pkt);
    BaseByBytes(pkt);
    hide ParseTransport, StartBytes, EndBytes, ErrorBytes, WithPorts;
    var t := pkt[0] % 16 * 4;
    if IPv4Bytes(pkt) {
      TransportByBytes(IPv4Base(pkt), pkt, t);
    }
  }

  lemma OffsetByBytes(pkt: Bytes)
    requires |pkt| >= 20
    ensures U16(pkt, 6) % 0x2000 == FragmentOffset(pkt)
    ensures (U16(pkt, 6) / 0x2000) % 2 == pkt[6] / 32 % 2
  {}

  lemma BaseByBytes(pkt: Bytes)
    requires |pkt| >= 20
    ensures Flow(SetIPv4(NO_IP, pkt[12..16]), SetIPv4(NO_IP, pkt[16..20]), 0, 0, pkt[9], false) == IPv4Base(pkt)
  {
    assert NO_IP[..12] == Zeros(12);
  }

  // ----- IPv6

  /** A header of an IPv6 packet: where it is and of which protocol. */
  datatype Header = Header(at: nat, proto: Proto)

  /** An extension header that lies in the packet and is passed over, with the length it gives. */
  ghost function Size(pkt: Bytes, h: Header): nat
    requires h.at + 2 <= |pkt|
  {
    if h.proto == 44 then 8 else 8 + pkt[h.at + 1] as int * (if h.proto == 51 then 4 else 8)
  }

  ghost predicate Skipped(pkt: Bytes, h: Header) {
    && h.proto in {0, 43, 44, 51, 60} && h.at + 2 <= |pkt| && h.at + Size(pkt, h) <= |pkt|
    && (h.proto == 44 ==> pkt[h.at + 2] as int * 256 + pkt[h.at + 3] as int < 8)
  }

  /** A fragment header that is not the first fragment's. */
  ghost predicate LaterFragment(pkt: Bytes, h: Header) {
    h.proto == 44 && h.at + 8 <= |pkt| && pkt[h.at + 2] as int * 256 + pkt[h.at + 3] as int >= 8
  }

  ghost predicate InPayload(pkt: Bytes, h: Header)
    requires |pkt| >= 40
  {
    h.at - 40 <= pkt[4] as int * 256 + pkt[5] as int
  }

  /** The headers of the packet from the first on, each named by the one before, all within the payload length. */
  ghost predicate Chained(pkt: Bytes, hs: seq<Header>)
    requires |pkt| >= 40
  {
    && hs != [] && hs[0] == Header(40, pkt[6])
    && (forall i :: 0 <= i < |hs| ==> 40 <= hs[i].at <= |pkt| && InPayload(pkt, hs[i]))
    && (forall i :: 0 <= i < |hs| - 1 ==> Skipped(pkt, hs[i]) && hs[i + 1] == Header(hs[i].at + Size(pkt, hs[i]), pkt[hs[i].at]))
  }

  ghost function Last(hs: seq<Header>): Header
    requires hs != []
  {
    hs[|hs| - 1]
  }

  ghost function WalkFrom(pkt: Bytes, h: Header): Parsed
    requires |pkt| >= 40 && 40 <= h.at <= |pkt|
  {
    Walk(pkt, h.at, U16(pkt, 4) - (h.at - 40), h.proto)
  }

  lemma SkippedStep(pkt: Bytes, h: Header)
    requires |pkt| >= 40 && 40 <= h.at <= |pkt| && InPayload(pkt, h) && Skipped(pkt, h)
    ensures WalkFrom(pkt, h) == WalkFrom(pkt, Header(h.at + Size(pkt, h), pkt[h.at]))
  {}

  /** The walk passes through every chain of headers. */
  lemma {:induction false} ChainWalks(pkt: Bytes, hs: seq<Header>)
    requires |pkt| >= 40 && Chained(pkt, hs)
    ensures WalkFrom(pkt, Last(hs)) == ParseIPv6(pkt)
    decreases |hs|
  {
    hide WalkFrom;
    if |hs| == 1 {
      FirstWalk(pkt);
    } else {
      var front := hs[..|hs| - 1];
      assert forall i :: 0 <= i < |front| ==> front[i] == hs[i];
      ChainWalks(pkt, front);
      SkippedStep(pkt, hs[|hs| - 2]);
    }
  }

  lemma FirstWalk(pkt: Bytes)
    requires |pkt| >= 40
    ensures WalkFrom(pkt, Header(40, pkt[6])) == ParseIPv6(pkt)
  {}

  /** The last header does not lead on inside the payload. */
  ghost predicate Complete(pkt: Bytes, hs: seq<Header>)
    requires |pkt| >= 40
  {
    Chained(pkt, hs) &&
    var h := Last(hs);
    Skipped(pkt, h) ==> !InPayload(pkt, Header(h.at + Size(pkt, h), pkt[h.at]))
  }

  lemma {:induction false} CompleteExists(pkt: Bytes, hs: seq<Header>) returns (full: seq<Header>)
    requires |pkt| >= 40 && Chained(pkt, hs)
    ensures Complete(pkt, full)
    decreases |pkt| - Last(hs).at
  {
    var h := Last(hs);
    if Skipped(pkt, h) && InPayload(pkt, Header(h.at + Size(pkt, h), pkt[h.at])) {
      full := CompleteExists(pkt, hs + [Header(h.at + Size(pkt, h), pkt[h.at])]);
    } else {
      full := hs;
    }
  }

  ghost function IPv6Base(pkt: Bytes, proto: Proto): Flow
    requires |pkt| >= 40
  {
    Flow(pkt[8..24], pkt[24..40], 0, 0, proto, true)
  }

  /** What the walk answers at the last header of a complete chain. */
  lemma EndByBytes(pkt: Bytes, hs: seq<Header>)
    requires |pkt| >= 40 && Complete(pkt, hs)
    ensures var r := ParseIPv6(pkt);
            var h := Last(hs);
            && (r.Ok? && r.value.1 == Fragment <==> LaterFragment(pkt, h))
            && (r.Ok? && r.value.1 == Start <==> StartBytes(pkt, h.at, h.proto))
            && (r.Ok? && r.value.1 == End <==> EndBytes(pkt, h.at, h.proto))
            && (r.Ok? && r.value.1 == Error <==> ErrorBytes(pkt, h.at, h.proto))
            && (r.Ok? && r.value.1 == Fragment ==> r.value.0 == IPv6Base(pkt, pkt[h.at]))
            && (r.Ok? && r.value.1 in {Start, End, Other} ==> r.value.0 == WithPorts(IPv6Base(pkt, h.proto), pkt, h.at))
  {
    ChainWalks(pkt, hs);
    var h := Last(hs);
    TransportByBytes(IPv6Base(pkt, h.proto), pkt, h.at);
    WalkAtEnd(pkt, h);
    hide ParseTransport, Walk, TCPAt, Flag, WithPorts;
  }

  /** One step of the walk at a header that does not lead on. */
  lemma WalkAtEnd(pkt: Bytes, h: Header)
    requires |pkt| >= 40 && 40 <= h.at <= |pkt| && InPayload(pkt, h)
    requires Skipped(pkt, h) ==> !InPayload(pkt, Header(h.at + Size(pkt, h), pkt[h.at]))
    ensures WalkFrom(pkt, h) ==
            if h.proto in {1, 6, 17, 58} then
              if h.at == |pkt| then Err(TooShort) else ParseTransport(IPv6Base(pkt, h.proto), h.proto, pkt[h.at..])
            else if LaterFragment(pkt, h) then Ok((IPv6Base(pkt, pkt[h.at]), Fragment))
            else if Skipped(pkt, h) then Err(PayloadExceeded)
            else if h.proto == 50 then Err(Encrypted)
            else if h.proto in {0, 43, 44, 51, 60} then Err(HeaderTruncated)
            else Err(UnknownHeader)
  {
    hide ParseTransport;
    if Skipped(pkt, h) {
      SkippedStep(pkt, h);
      assert WalkFrom(pkt, Header(h.at + Size(pkt, h), pkt[h.at])) == Err(PayloadExceeded);
    }
  }

  /** The kind of every IPv6 packet, by the headers it leads to. */
  lemma IPv6ByBytes(pkt: Bytes)
    requires |pkt| >= 40 && pkt[0] / 16 == 6
    ensures var r := ParsePacket(pkt);
            && (r.Ok? && r.value.1 == Fragment <==> exists hs :: Chained(pkt, hs) && LaterFragment(pkt, Last(hs)))
            && (r.Ok? && r.value.1 == Start <==> exists hs :: Chained(pkt, hs) && StartBytes(pkt, Last(hs).at, Last(hs).proto))
            && (r.Ok? && r.value.1 == End <==> exists hs :: Chained(pkt, hs) && EndBytes(pkt, Last(hs).at, Last(hs).proto))
            && (r.Ok? && r.value.1 == Error <==> exists hs :: Chained(pkt, hs) && ErrorBytes(pkt, Last(hs).at, Last(hs).proto))
  {
    hide ParseIPv6, Flag, TCPAt, WithPorts;
    FirstChained(pkt);
    var full := CompleteExists(pkt, [Header(40, pkt[6])]);
    EndByBytes(pkt, full);
    CompleteIsChained(pkt, full);
    forall hs | hs != [] && Chained(pkt, hs) && !Skipped(pkt, Last(hs))
      ensures var r := ParseIPv6(pkt);
              && (LaterFragment(pkt, Last(hs)) ==> r.Ok? && r.value.1 == Fragment)
              && (StartBytes(pkt, Last(hs).at, Last(hs).proto) ==> r.Ok? && r.value.1 == Start)
              && (EndBytes(pkt, Last(hs).at, Last(hs).proto) ==> r.Ok? && r.value.1 == End)
              && (ErrorBytes(pkt, Last(hs).at, Last(hs).proto) ==> r.Ok? && r.value.1 == Error)
    {
      ChainedNotSkippedIsComplete(pkt, hs);
      EndByBytes(pkt, hs);
    }
  }

  lemma FirstChained(pkt: Bytes)
    requires |pkt| >= 40
    ensures Chained(pkt, [Header(40, pkt[6])])
  {}

  lemma CompleteIsChained(pkt: Bytes, hs: seq<Header>)
    requires |pkt| >= 40 && Complete(pkt, hs)
    ensures Chained(pkt, hs)
  {}

  lemma ChainedNotSkippedIsComplete(pkt: Bytes, hs: seq<Header>)
    requires |pkt| >= 40 && Chained(pkt, hs) && !Skipped(pkt, Last(hs))
    ensures Complete(pkt, hs)
  {}

  // ----- Fragments without a transport header

  /** The packet is a later fragment, by its bytes, of a datagram whose transport is `proto`. */
  ghost predicate LaterFragmentOf(pkt: Bytes, proto: Proto) {
    || (IPv4Bytes(pkt) && FragmentOffset(pkt) > 0 && proto == pkt[9])
    || (|pkt| >= 40 && pkt[0] / 16 == 6 &&
        exists hs :: Chained(pkt, hs) && LaterFragment(pkt, Last(hs)) && proto == pkt[Last(hs).at])
  }

  /** Its two addresses, its protocol and no ports. */
  ghost function Portless(pkt: Bytes, proto: Proto): Flow
    requires LaterFragmentOf(pkt, proto)
  {
    if pkt[0] / 16 == 4 then IPv4Base(pkt) else IPv6Base(pkt, proto)
  }

  lemma FragmentHasNoPorts(pkt: Bytes, proto: Proto)
    requires LaterFragmentOf(pkt, proto)
    ensures ParsePacket(pkt) == Ok((Portless(pkt, proto), Fragment))
    ensures Portless(pkt, proto).srcPort == 0 == Portless(pkt, proto).dstPort && Portless(pkt, proto).proto == proto
  {
    hide ParseIPv4, ParseIPv6;
    if pkt[0] / 16 == 4 {
      IPv4ByBytes(pkt);
    } else {
      var hs :| Chained(pkt, hs) && LaterFragment(pkt, Last(hs)) && proto == pkt[Last(hs).at];
      ChainedNotSkippedIsComplete(pkt, hs);
      EndByBytes(pkt, hs);
    }
  }

  // ----- Built packets

  /** The length fields of the packets the filter builds are those of the packets, and no built packet exceeds the smallest MTU. */
  lemma BuiltLengths(f: Flow, original: Bytes)
    ensures var b := BuildTCPRST(f);
            |b| == (if f.ipv6 then 60 else 40) && U16(b, if f.ipv6 then 4 else 2) == (if f.ipv6 then |b| - 40 else |b|)
    ensures var b := BuildICMPAdminProhibited(f, original);
            && |b| == (if f.ipv6 then 48 + Min(1232, |original|) else 28 + Min(548, |original|))
            && |b| <= (if f.ipv6 then 1280 else 576)
            && U16(b, if f.ipv6 then 4 else 2) == (if f.ipv6 then |b| - 40 else |b|)
  {}
}
