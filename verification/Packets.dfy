/**
 Reading a flow out of a raw IP packet, and the packets the dispatcher builds to
 reject one: a TCP reset, or an ICMP message quoting the rejected packet.
 */
module Packets {
  import opened Wrappers
  import opened Flows

  type Bytes = seq<Byte>

  datatype Kind = Start | Other | Fragment | Error | End

  datatype ParseError =
    | TooShort
    | BadVersion
    | BadHeaderLength
    | HeaderTruncated
    | PayloadExceeded
    | Encrypted
    | UnknownHeader
    | UnknownTransport

  type Parsed = Result<(Flow, Kind), ParseError>

  /** A big-endian 16-bit field. */
  function U16(b: Bytes, i: nat): Port
    requires i + 2 <= |b|
  {
    (b[i] as int) * 256 + b[i + 1]
  }

  function PutU16(v: Port): (b: Bytes)
    ensures |b| == 2 && U16(b, 0) == v
  {
    [v / 256, v % 256]
  }

  function Zeros(n: nat): (z: Bytes)
    ensures |z| == n && forall i :: 0 <= i < n ==> z[i] == 0
  {
    seq(n, _ => 0)
  }

  const NO_IP: Ip := [0, 0, 0, 0, 0, 0, 0, 0, 0, 0, 0, 0, 0, 0, 0, 0]

  /** Writes four bytes over the IPv4 part of an address and leaves the rest. */
  function SetIPv4(ip: Ip, four: Bytes): Ip
    requires |four| == 4
  {
    ip[..12] + four
  }

  // ----- Parsing

  function ParsePacket(pkt: Bytes): Parsed {
    if |pkt| < 20 then Err(TooShort)
    else if pkt[0] / 16 == 4 then ParseIPv4(pkt)
    else if pkt[0] / 16 == 6 then ParseIPv6(pkt)
    else Err(BadVersion)
  }

  function ParseIPv4(pkt: Bytes): Parsed
    requires |pkt| >= 20
  {
    var ihl := pkt[0] % 16;
    if ihl < 5 then Err(BadHeaderLength)
    else if |pkt| < ihl * 4 then Err(HeaderTruncated)
    else
      var fragOffset := U16(pkt, 6) % 0x2000;
      var moreFragments := (U16(pkt, 6) / 0x2000) % 2 == 1;
      var flow := Flow(SetIPv4(NO_IP, pkt[12..16]), SetIPv4(NO_IP, pkt[16..20]), 0, 0, pkt[9], false);
      if fragOffset > 0 then Ok((flow, Fragment))
      else if |pkt| < ihl * 4 + 4 then Ok((flow, if moreFragments then Fragment else Other))
      else ParseTransport(flow, pkt[9], pkt[ihl * 4..])
  }

  function ParseIPv6(pkt: Bytes): Parsed {
    if |pkt| < 40 then Err(TooShort)
    else Walk(pkt, 40, U16(pkt, 4), pkt[6])
  }

  predicate IsTransport(proto: Proto) {
    proto == TCP || proto == UDP || proto == ICMP || proto == ICMPV6
  }

  /** Hop-by-hop options, routing and destination options: a length in units of eight bytes. */
  predicate IsOptions(proto: Proto) {
    proto == 0 || proto == 43 || proto == 60
  }

  function IPv6Flow(pkt: Bytes, proto: Proto): Flow
    requires |pkt| >= 40
  {
    Flow(pkt[8..24], pkt[24..40], 0, 0, proto, true)
  }

  /** The extension-header walk from `offset`, with `remaining` bytes of payload left by the header's count. */
  function Walk(pkt: Bytes, offset: nat, remaining: int, proto: Proto): Parsed
    requires 40 <= offset <= |pkt|
    decreases |pkt| - offset
  {
    if remaining < 0 then Err(PayloadExceeded)
    else if IsTransport(proto) then
      if offset >= |pkt| then Err(TooShort)
      else ParseTransport(IPv6Flow(pkt, proto), proto, pkt[offset..])
    else if IsOptions(proto) || proto == 51 then
      if offset + 2 > |pkt| then Err(HeaderTruncated)
      else
        var size := 8 + (pkt[offset + 1] as int) * (if proto == 51 then 4 else 8);
        if offset + size > |pkt| then Err(HeaderTruncated)
        else Walk(pkt, offset + size, remaining - size, pkt[offset])
    else if proto == 44 then
      if offset + 8 > |pkt| then Err(HeaderTruncated)
      else if U16(pkt, offset + 2) / 8 > 0 then Ok((IPv6Flow(pkt, pkt[offset]), Fragment))
      else Walk(pkt, offset + 8, remaining - 8, pkt[offset])
    else if proto == 50 then Err(Encrypted)
    else Err(UnknownHeader)
  }

  function ParseTransport(flow: Flow, proto: Proto, transport: Bytes): Parsed {
    if proto == TCP then ParseTCP(flow, transport)
    else if proto == UDP then
      if |transport| < 8 then Err(TooShort)
      else Ok((flow.(srcPort := U16(transport, 0), dstPort := U16(transport, 2)), Start))
    else if proto == ICMP then
      if |transport| < 4 then Err(TooShort)
      else if transport[0] == 8 && transport[1] == 0 then Ok((flow, Start))
      else if transport[0] in {3, 4, 5, 11, 12} then Ok((ParseQuoted(flow, transport), Error))
      else Ok((flow, Other))
    else if proto == ICMPV6 then
      if |transport| < 4 then Err(TooShort)
      else if transport[0] == 128 && transport[1] == 0 then Ok((flow, Start))
      else if transport[0] in {1, 2, 3, 4} then Ok((ParseQuoted(flow, transport), Error))
      else Ok((flow, Other))
    else Err(UnknownTransport)
  }

  function ParseTCP(flow: Flow, tcp: Bytes): Parsed {
    if |tcp| < 20 then Err(TooShort)
    else if tcp[12] / 16 < 5 then Err(BadHeaderLength)
    else if |tcp| < tcp[12] / 16 * 4 then Err(HeaderTruncated)
    else
      var flags := tcp[13];
      var syn, ack := (flags / 2) % 2 == 1, (flags / 16) % 2 == 1;
      var fin, rst := flags % 2 == 1, (flags / 4) % 2 == 1;
      Ok((flow.(srcPort := U16(tcp, 0), dstPort := U16(tcp, 2)),
          if syn && !ack then Start else if fin || rst then End else Other))
  }

  /** The flow of an ICMP error: that of the packet it quotes, as far as it can be read. */
  function ParseQuoted(flow: Flow, icmp: Bytes): Flow {
    if |icmp| < 28 then flow
    else if icmp[8] / 16 == 4 then ParseQuotedIPv4(flow, icmp[8..])
    else if icmp[8] / 16 == 6 then ParseQuotedIPv6(flow, icmp[8..])
    else flow
  }

  function ParseQuotedIPv4(flow: Flow, quoted: Bytes): Flow
    requires |quoted| >= 20
  {
    var ihl := quoted[0] % 16;
    if ihl < 5 || |quoted| < ihl * 4 + 4 then flow
    else
      var inner := flow.(proto := quoted[9], ipv6 := false,
                         srcIP := SetIPv4(flow.srcIP, quoted[12..16]), dstIP := SetIPv4(flow.dstIP, quoted[16..20]));
      if quoted[9] == TCP || quoted[9] == UDP
      then inner.(srcPort := U16(quoted, ihl * 4), dstPort := U16(quoted, ihl * 4 + 2))
      else inner
  }

  function ParseQuotedIPv6(flow: Flow, quoted: Bytes): Flow {
    if |quoted| < 40 then flow
    else
      var inner := flow.(proto := quoted[6], ipv6 := true, srcIP := quoted[8..24], dstIP := quoted[24..40]);
      if |quoted| >= 44 && (quoted[6] == TCP || quoted[6] == UDP)
      then inner.(srcPort := U16(quoted, 40), dstPort := U16(quoted, 42))
      else inner
  }

  /** The extension-header loop as the program runs it. */
  method WalkExtensionHeaders(pkt: Bytes) returns (r: Parsed)
    ensures r == ParseIPv6(pkt)
  {
    if |pkt| < 40 {
      return Err(TooShort);
    }
    var offset: nat, remaining: int, proto: Proto := 40, U16(pkt, 4), pkt[6];
    while true
      invariant 40 <= offset <= |pkt|
      invariant Walk(pkt, offset, remaining, proto) == ParseIPv6(pkt)
      decreases |pkt| - offset
    {
      if remaining < 0 {
        return Err(PayloadExceeded);
      }
      var size: nat := 8;
      if IsTransport(proto) {
        if offset >= |pkt| {
          return Err(TooShort);
        }
        return ParseTransport(IPv6Flow(pkt, proto), proto, pkt[offset..]);
      } else if IsOptions(proto) || proto == 51 {
        if offset + 2 > |pkt| {
          return Err(HeaderTruncated);
        }
        size := 8 + (pkt[offset + 1] as int) * (if proto == 51 then 4 else 8);
        if offset + size > |pkt| {
          return Err(HeaderTruncated);
        }
      } else if proto == 44 {
        if offset + 8 > |pkt| {
          return Err(HeaderTruncated);
        }
        if U16(pkt, offset + 2) / 8 > 0 {
          return Ok((IPv6Flow(pkt, pkt[offset]), Fragment));
        }
      } else if proto == 50 {
        return Err(Encrypted);
      } else {
        return Err(UnknownHeader);
      }
      proto := pkt[offset];
      offset := offset + size;
      remaining := remaining - size;
    }
  }

  // ----- Building

  function TCPHeader(src: Port, dst: Port, flags: Byte): (b: Bytes)
    ensures |b| == 20
  {
    PutU16(src) + PutU16(dst) + Zeros(8) + [0x50, flags] + Zeros(6)
  }

  function IPv4Header(total: Port, proto: Proto, src: Ip, dst: Ip): (b: Bytes)
    ensures |b| == 20
  {
    [0x45, 0] + PutU16(total) + Zeros(4) + [64, proto] + Zeros(2) + src[12..] + dst[12..]
  }

  function IPv6Header(payload: Port, next: Proto, src: Ip, dst: Ip): (b: Bytes)
    ensures |b| == 40
  {
    [0x60, 0, 0, 0] + PutU16(payload) + [next, 64] + src + dst
  }

  /** A TCP segment of the flow with the given flags and no data. */
  function Segment(flow: Flow, flags: Byte): Bytes {
    (if flow.ipv6 then IPv6Header(20, TCP, flow.srcIP, flow.dstIP) else IPv4Header(40, TCP, flow.srcIP, flow.dstIP))
    + TCPHeader(flow.srcPort, flow.dstPort, flags)
  }

  const FIN: Byte := 1
  const SYN: Byte := 2
  const RST: Byte := 4
  const ACK: Byte := 16

  /** A reset from the flow's destination to its source. */
  function BuildTCPRST(flow: Flow): Bytes {
    Segment(Swap(flow), RST)
  }

  function Min(a: nat, b: nat): nat {
    if a < b then a else b
  }

  /** "Administratively prohibited", quoting as much of the packet as fits the minimum MTU. */
  function BuildICMPAdminProhibited(flow: Flow, original: Bytes): Bytes {
    if flow.ipv6 then
      var quoted := Min(1232, |original|);
      IPv6Header(8 + quoted, ICMPV6, flow.dstIP, flow.srcIP) + [1, 1] + Zeros(6) + original[..quoted]
    else
      var quoted := Min(548, |original|);
      IPv4Header(28 + quoted, ICMP, flow.dstIP, flow.srcIP) + [3, 13] + Zeros(6) + original[..quoted]
  }

  // ----- Parsing undoes building

  /** The flow with the bytes an IPv4 header cannot carry set to zero. */
  function Canonicalize(f: Flow): (g: Flow)
    ensures Canonical(g) && (Canonical(f) <==> g == f)
  {
    if f.ipv6 then f
    else
      var g := f.(srcIP := SetIPv4(NO_IP, f.srcIP[12..]), dstIP := SetIPv4(NO_IP, f.dstIP[12..]));
      assert f.srcIP == f.srcIP[..12] + f.srcIP[12..] && f.dstIP == f.dstIP[..12] + f.dstIP[12..];
      assert g.srcIP[..12] == Zeros(12) && g.dstIP[..12] == Zeros(12);
      g
  }

  function SegmentKind(flags: Byte): Kind {
    if (flags / 2) % 2 == 1 && (flags / 16) % 2 == 0 then Start
    else if flags % 2 == 1 || (flags / 4) % 2 == 1 then End
    else Other
  }

  lemma ParseTCPHeader(flow: Flow, src: Port, dst: Port, flags: Byte)
    ensures ParseTCP(flow, TCPHeader(src, dst, flags)) == Ok((flow.(srcPort := src, dstPort := dst), SegmentKind(flags)))
  {
    var tcp := TCPHeader(src, dst, flags);
    assert tcp[..2] == PutU16(src) && tcp[2..4] == PutU16(dst);
    assert tcp[12] == 0x50 && tcp[13] == flags;
  }

  /** A packet with the dispatcher's IPv4 header hands its body to the transport parser. */
  lemma IPv4HeaderReads(total: Port, proto: Proto, src: Ip, dst: Ip, body: Bytes)
    requires |body| >= 4
    ensures ParsePacket(IPv4Header(total, proto, src, dst) + body)
            == ParseTransport(Flow(SetIPv4(NO_IP, src[12..]), SetIPv4(NO_IP, dst[12..]), 0, 0, proto, false), proto, body)
  {
    var hdr := IPv4Header(total, proto, src, dst);
    var pkt := hdr + body;
    assert hdr[0] == 0x45 && hdr[9] == proto && hdr[6] == 0 && hdr[7] == 0;
    assert hdr[12..16] == src[12..] && hdr[16..20] == dst[12..];
    assert pkt[12..16] == hdr[12..16] && pkt[16..20] == hdr[16..20] && pkt[20..] == body;
  }

  /** So does one with the dispatcher's IPv6 header. */
  lemma IPv6HeaderReads(payload: Port, next: Proto, src: Ip, dst: Ip, body: Bytes)
    requires |body| > 0 && IsTransport(next)
    ensures ParsePacket(IPv6Header(payload, next, src, dst) + body)
            == ParseTransport(Flow(src, dst, 0, 0, next, true), next, body)
  {
    var hdr := IPv6Header(payload, next, src, dst);
    var pkt := hdr + body;
    assert hdr[0] == 0x60 && hdr[6] == next;
    assert hdr[8..24] == src && hdr[24..40] == dst;
    assert pkt[8..24] == hdr[8..24] && pkt[24..40] == hdr[24..40] && pkt[40..] == body;
  }

  /** A segment reads back as its flow, with the kind its flags give it. */
  lemma SegmentReads(f: Flow, flags: Byte)
    requires f.proto == TCP
    ensures ParsePacket(Segment(f, flags)) == Ok((Canonicalize(f), SegmentKind(flags)))
  {
    hide ParsePacket, TCPHeader, IPv4Header, IPv6Header, ParseTCP;
    var tcp := TCPHeader(f.srcPort, f.dstPort, flags);
    if f.ipv6 {
      IPv6HeaderReads(20, TCP, f.srcIP, f.dstIP, tcp);
    } else {
      IPv4HeaderReads(40, TCP, f.srcIP, f.dstIP, tcp);
    }
    ParseTCPHeader(Canonicalize(f).(srcPort := 0, dstPort := 0), f.srcPort, f.dstPort, flags);
  }

  /** A built reset reads back as the end of the reversed flow. */
  lemma ResetReadsBack(f: Flow)
    requires f.proto == TCP
    ensures ParsePacket(BuildTCPRST(f)) == Ok((Swap(Canonicalize(f)), End))
  {
    hide ParsePacket, Segment;
    SegmentReads(Swap(f), RST);
  }

  /**
   The reset matches the flow it answers in the flow table: it has the flow's own
   key, for every flow except IPv4 ones with stray bytes in the unused address part.
   */
  lemma ResetHasSameKey(f: Flow)
    requires f.proto == TCP
    ensures var parsed := ParsePacket(BuildTCPRST(f));
            parsed.Ok? && parsed.value.1 == End && (KeyOf(parsed.value.0) == KeyOf(f) <==> Canonical(f))
  {
    hide ParsePacket, BuildTCPRST;
    ResetReadsBack(f);
    var g := Canonicalize(f);
    SameKeyIffSameConversation(g, Swap(g));
    KeyDeterminesFlow(Swap(g), f);
  }

  /** The part of an ICMP error that follows its eight-byte header is the packet it quotes. */
  function Message(kind: Byte, code: Byte, quoted: Bytes): Bytes {
    [kind, code] + Zeros(6) + quoted
  }

  lemma QuotedPart(flow: Flow, kind: Byte, code: Byte, quoted: Bytes)
    requires |quoted| >= 20
    ensures var icmp := Message(kind, code, quoted);
            ParseQuoted(flow, icmp) ==
              if quoted[0] / 16 == 4 then ParseQuotedIPv4(flow, quoted)
              else if quoted[0] / 16 == 6 then ParseQuotedIPv6(flow, quoted)
              else flow
  {
    var icmp := Message(kind, code, quoted);
    assert icmp[8..] == quoted;
  }

  /** Reading back the quoted start of an IPv4 packet gives the packet's own flow. */
  lemma QuotedIPv4ReadsBack(outer: Flow, pkt: Bytes, n: nat, f: Flow)
    requires |pkt| >= 20 && pkt[0] / 16 == 4 && ParseIPv4(pkt) == Ok((f, Start))
    requires 64 <= n <= |pkt| || n == |pkt|
    requires outer.srcIP[..12] == Zeros(12) && outer.dstIP[..12] == Zeros(12) && outer.srcPort == outer.dstPort == 0
    ensures n >= 20 && ParseQuotedIPv4(outer, pkt[..n]) == f
  {
    var quoted := pkt[..n];
    var h := (pkt[0] % 16) as int * 4;
    var transport := pkt[h..];
    assert quoted[12..16] == pkt[12..16] && quoted[16..20] == pkt[16..20];
    assert outer.srcIP[..12] == NO_IP[..12];
    assert U16(quoted, h) == U16(transport, 0) && U16(quoted, h + 2) == U16(transport, 2);
  }

  /** For IPv6 the quoted packet is read without walking extension headers, so there must be none. */
  lemma QuotedIPv6ReadsBack(outer: Flow, pkt: Bytes, n: nat, f: Flow)
    requires |pkt| >= 40 && pkt[0] / 16 == 6 && ParseIPv6(pkt) == Ok((f, Start))
    requires 64 <= n <= |pkt| || n == |pkt|
    requires outer.srcPort == outer.dstPort == 0
    ensures n >= 44 && (ParseQuotedIPv6(outer, pkt[..n]) == f <==> IsTransport(pkt[6]))
  {
    var quoted := pkt[..n];
    WalkStart(pkt, 40, U16(pkt, 4), pkt[6], f);
    assert quoted[8..24] == pkt[8..24] && quoted[24..40] == pkt[24..40];
    if IsTransport(pkt[6]) {
      var transport := pkt[40..];
      assert U16(quoted, 40) == U16(transport, 0) && U16(quoted, 42) == U16(transport, 2);
    }
  }

  /** A packet that starts a flow has a transport header, and that header's protocol is the flow's. */
  lemma {:induction false} WalkStart(pkt: Bytes, offset: nat, remaining: int, proto: Proto, f: Flow)
    requires 40 <= offset <= |pkt| && Walk(pkt, offset, remaining, proto) == Ok((f, Start))
    ensures |pkt| >= offset + 4 && IsTransport(f.proto) && (IsTransport(proto) ==> f.proto == proto)
    decreases |pkt| - offset
  {
    if !IsTransport(proto) {
      var size := if proto == 44 then 8 else 8 + (pkt[offset + 1] as int) * (if proto == 51 then 4 else 8);
      WalkStart(pkt, offset + size, remaining - size, pkt[offset], f);
    }
  }

  /**
   A message built to reject a packet that starts a flow (a TCP SYN, any UDP packet or
   an echo request) reads back as an error carrying exactly that packet's flow, unless
   the packet is IPv6 and has extension headers.
   */
  lemma ProhibitedReadsBack(pkt: Bytes, f: Flow)
    requires ParsePacket(pkt) == Ok((f, Start))
    ensures ParsePacket(BuildICMPAdminProhibited(f, pkt)) == Ok((f, Error))
            <==> (f.ipv6 ==> IsTransport(pkt[6]))
  {
    if f.ipv6 {
      ProhibitedIPv6ReadsBack(pkt, f);
    } else {
      ProhibitedIPv4ReadsBack(pkt, f);
    }
  }

  lemma ProhibitedIPv4ReadsBack(pkt: Bytes, f: Flow)
    requires ParsePacket(pkt) == Ok((f, Start)) && !f.ipv6
    ensures ParsePacket(BuildICMPAdminProhibited(f, pkt)) == Ok((f, Error))
  {
    hide ParseIPv4, ParseIPv6, ParsePacket, IPv4Header, ParseQuoted, ParseQuotedIPv4, ParseQuotedIPv6, ParseTCP, Canonical;
    StartVersion(pkt, f);
    var n := Min(548, |pkt|);
    var icmp := Message(3, 13, pkt[..n]);
    var outer := Flow(SetIPv4(NO_IP, f.dstIP[12..]), SetIPv4(NO_IP, f.srcIP[12..]), 0, 0, ICMP, false);
    QuotedIPv4ReadsBack(outer, pkt, n, f);
    QuotedPart(outer, 3, 13, pkt[..n]);
    var built := BuildICMPAdminProhibited(f, pkt);
    assert built == IPv4Header(28 + n, ICMP, f.dstIP, f.srcIP) + icmp;
    IPv4HeaderReads(28 + n, ICMP, f.dstIP, f.srcIP, icmp);
  }

  lemma ProhibitedIPv6ReadsBack(pkt: Bytes, f: Flow)
    requires ParsePacket(pkt) == Ok((f, Start)) && f.ipv6
    ensures ParsePacket(BuildICMPAdminProhibited(f, pkt)) == Ok((f, Error)) <==> IsTransport(pkt[6])
  {
    StartVersion(pkt, f);
    hide ParseIPv4, ParseIPv6, IPv6Header, ParseQuoted, ParseQuotedIPv4, ParseQuotedIPv6;
    var n := Min(1232, |pkt|);
    var icmp := Message(1, 1, pkt[..n]);
    var outer := Flow(f.dstIP, f.srcIP, 0, 0, ICMPV6, true);
    QuotedIPv6ReadsBack(outer, pkt, n, f);
    QuotedPart(outer, 1, 1, pkt[..n]);
    var built := BuildICMPAdminProhibited(f, pkt);
    assert built == IPv6Header(8 + n, ICMPV6, f.dstIP, f.srcIP) + icmp;
    IPv6HeaderReads(8 + n, ICMPV6, f.dstIP, f.srcIP, icmp);
  }

  lemma {:induction false} WalkIPv6(pkt: Bytes, offset: nat, remaining: int, proto: Proto)
    requires 40 <= offset <= |pkt|
    ensures var r := Walk(pkt, offset, remaining, proto); r.Ok? && r.value.1 != Error ==> r.value.0.ipv6
    decreases |pkt| - offset
  {
    if remaining >= 0 && !IsTransport(proto) {
      if (IsOptions(proto) || proto == 51) && offset + 2 <= |pkt| {
        var size := 8 + (pkt[offset + 1] as int) * (if proto == 51 then 4 else 8);
        if offset + size <= |pkt| {
          WalkIPv6(pkt, offset + size, remaining - size, pkt[offset]);
        }
      } else if proto == 44 && offset + 8 <= |pkt| {
        WalkIPv6(pkt, offset + 8, remaining - 8, pkt[offset]);
      }
    }
  }

  /** Which parser read a flow's start. */
  lemma StartVersion(pkt: Bytes, f: Flow)
    requires ParsePacket(pkt) == Ok((f, Start))
    ensures |pkt| >= 20
    ensures if f.ipv6 then |pkt| >= 40 && pkt[0] / 16 == 6 && ParseIPv6(pkt) == Ok((f, Start))
            else pkt[0] / 16 == 4 && ParseIPv4(pkt) == Ok((f, Start))
  {
    if pkt[0] / 16 == 6 && |pkt| >= 40 {
      WalkIPv6(pkt, 40, U16(pkt, 4), pkt[6]);
    }
  }

  // ----- Extension headers are transparent

  /** An IPv6 extension header: its type, and its bytes after the next-header byte. */
  datatype Extension = Extension(kind: Proto, body: Bytes)

  /** The walk can step over the header: its length field is right, and a fragment header is a first fragment's. */
  ghost predicate WellFormed(e: Extension) {
    && |e.body| >= 7
    && (IsOptions(e.kind) || e.kind == 51 || e.kind == 44)
    && (IsOptions(e.kind) ==> |e.body| == 7 + (e.body[0] as int) * 8)
    && (e.kind == 51 ==> |e.body| == 7 + (e.body[0] as int) * 4)
    && (e.kind == 44 ==> |e.body| == 7 && U16(e.body, 1) / 8 == 0)
  }

  function FirstProto(exts: seq<Extension>, last: Proto): Proto {
    if exts == [] then last else exts[0].kind
  }

  /** The bytes of a chain of extension headers that ends at a transport header. */
  function Chain(exts: seq<Extension>, last: Proto, transport: Bytes): Bytes {
    if exts == [] then transport
    else [FirstProto(exts[1..], last)] + exts[0].body + Chain(exts[1..], last, transport)
  }

  function ChainSize(exts: seq<Extension>): nat {
    if exts == [] then 0 else 1 + |exts[0].body| + ChainSize(exts[1..])
  }

  /** The walk steps over one well-formed header. */
  lemma WalkOver(pkt: Bytes, offset: nat, remaining: int, e: Extension, next: Proto, tail: Bytes)
    requires 40 <= offset <= |pkt| && pkt[offset..] == [next] + e.body + tail
    requires WellFormed(e) && remaining >= 0
    ensures var size := 1 + |e.body|;
            && offset + size <= |pkt| && pkt[offset + size..] == tail
            && Walk(pkt, offset, remaining, e.kind) == Walk(pkt, offset + size, remaining - size, next)
  {
    hide ParseTransport;
    var rest := pkt[offset..];
    assert pkt[offset] == rest[0] && pkt[offset + 1] == rest[1] == e.body[0];
    assert pkt[offset + 2] == rest[2] == e.body[1] && pkt[offset + 3] == rest[3] == e.body[2];
    assert pkt[offset + 1 + |e.body|..] == rest[1 + |e.body|..] == tail;
  }

  lemma WalkEnds(pkt: Bytes, offset: nat, remaining: int, proto: Proto)
    requires 40 <= offset <= |pkt|
    ensures remaining < 0 ==> Walk(pkt, offset, remaining, proto) == Err(PayloadExceeded)
    ensures remaining >= 0 && IsTransport(proto) && offset < |pkt| ==>
              Walk(pkt, offset, remaining, proto) == ParseTransport(IPv6Flow(pkt, proto), proto, pkt[offset..])
  {}

  lemma {:induction false} WalkChain(pkt: Bytes, offset: nat, remaining: int, exts: seq<Extension>, last: Proto, transport: Bytes)
    requires 40 <= offset <= |pkt| && pkt[offset..] == Chain(exts, last, transport)
    requires forall e <- exts :: WellFormed(e)
    requires IsTransport(last) && |transport| > 0 && remaining >= 0
    ensures Walk(pkt, offset, remaining, FirstProto(exts, last)) ==
              if remaining < ChainSize(exts) then Err(PayloadExceeded)
              else ParseTransport(IPv6Flow(pkt, last), last, transport)
    decreases |exts|
  {
    hide ParseTransport, Walk, WellFormed, IsTransport;
    if exts == [] {
      WalkEnds(pkt, offset, remaining, last);
    } else {
      var e := exts[0];
      var size := 1 + |e.body|;
      var next := FirstProto(exts[1..], last);
      WalkOver(pkt, offset, remaining, e, next, Chain(exts[1..], last, transport));
      if remaining >= size {
        WalkChain(pkt, offset + size, remaining - size, exts[1..], last, transport);
      } else {
        WalkEnds(pkt, offset + size, remaining - size, next);
      }
    }
  }

  /**
   A packet parses the same with any chain of well-formed extension headers as with
   none, exactly when its payload-length field covers the chain.
   */
  lemma ExtensionHeadersAreTransparent(payload: Port, src: Ip, dst: Ip, exts: seq<Extension>, last: Proto, transport: Bytes)
    requires forall e <- exts :: WellFormed(e)
    requires IsTransport(last) && |transport| > 0
    ensures ParsePacket(IPv6Header(payload, FirstProto(exts, last), src, dst) + Chain(exts, last, transport))
            == ParsePacket(IPv6Header(payload, last, src, dst) + transport)
            <==> ChainSize(exts) <= payload
  {
    var hdr := IPv6Header(payload, FirstProto(exts, last), src, dst);
    var pkt := hdr + Chain(exts, last, transport);
    assert hdr[4..6] == PutU16(payload) && hdr[6] == FirstProto(exts, last) && hdr[0] == 0x60;
    assert hdr[8..24] == src && hdr[24..40] == dst;
    assert pkt[8..24] == hdr[8..24] && pkt[24..40] == hdr[24..40] && pkt[40..] == Chain(exts, last, transport);
    assert U16(pkt, 4) == U16(hdr[4..6], 0) == payload;
    WalkChain(pkt, 40, payload, exts, last, transport);
    IPv6HeaderReads(payload, last, src, dst, transport);
  }

  // ----- Which flows are canonical

  /** A parsed IPv4 flow keeps the first twelve bytes of the addresses it was read on top of. */
  lemma TransportKeepsPrefix(flow: Flow, proto: Proto, transport: Bytes)
    ensures var r := ParseTransport(flow, proto, transport);
            r.Ok? && !r.value.0.ipv6 ==>
              r.value.0.srcIP[..12] == flow.srcIP[..12] && r.value.0.dstIP[..12] == flow.dstIP[..12]
  {}

  lemma {:induction false} WalkCanonical(pkt: Bytes, offset: nat, remaining: int, proto: Proto)
    requires 40 <= offset <= |pkt|
    ensures var r := Walk(pkt, offset, remaining, proto);
            r.Ok? && !r.value.0.ipv6 ==> r.value.0.srcIP[..12] == pkt[8..20] && r.value.0.dstIP[..12] == pkt[24..36]
    decreases |pkt| - offset
  {
    hide ParseTransport;
    assert pkt[8..24][..12] == pkt[8..20] && pkt[24..40][..12] == pkt[24..36];
    if remaining >= 0 {
      if IsTransport(proto) {
        TransportKeepsPrefix(IPv6Flow(pkt, proto), proto, pkt[offset..]);
      } else if (IsOptions(proto) || proto == 51) && offset + 2 <= |pkt| {
        var size := 8 + (pkt[offset + 1] as int) * (if proto == 51 then 4 else 8);
        if offset + size <= |pkt| {
          WalkCanonical(pkt, offset + size, remaining - size, pkt[offset]);
        }
      } else if proto == 44 && offset + 8 <= |pkt| {
        WalkCanonical(pkt, offset + 8, remaining - 8, pkt[offset]);
      }
    }
  }

  lemma IPv4ParsesCanonical(pkt: Bytes)
    requires |pkt| >= 20 && ParseIPv4(pkt).Ok?
    ensures Canonical(ParseIPv4(pkt).value.0)
  {
    hide ParseTransport;
    var flow := Flow(SetIPv4(NO_IP, pkt[12..16]), SetIPv4(NO_IP, pkt[16..20]), 0, 0, pkt[9], false);
    assert NO_IP[..12] == Zeros(12) == flow.srcIP[..12] == flow.dstIP[..12];
    var h := (pkt[0] % 16) as int * 4;
    if |pkt| >= h + 4 {
      TransportKeepsPrefix(flow, pkt[9], pkt[h..]);
    }
  }

  /**
   Every parsed flow is canonical except one read from an IPv4 packet quoted inside
   an IPv6 error, which keeps the outer addresses' first twelve bytes.
   */
  lemma ParsedFlowIsCanonical(pkt: Bytes)
    requires ParsePacket(pkt).Ok?
    ensures var f := ParsePacket(pkt).value.0;
            Canonical(f) <==> f.ipv6 || pkt[0] / 16 == 4 || (pkt[8..20] == Zeros(12) && pkt[24..36] == Zeros(12))
  {
    if pkt[0] / 16 == 6 {
      WalkCanonical(pkt, 40, U16(pkt, 4), pkt[6]);
    } else {
      IPv4ParsesCanonical(pkt);
    }
  }
}
