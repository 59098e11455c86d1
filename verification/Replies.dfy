/** The tolerant IPv4 parser and the gateway's reply builders (dataplane.rs). */
module Replies {
  import opened Base
  import opened Checksum
  import opened Frames

  const IPPROTO_ICMP: byte := 1
  const IPPROTO_UDP: byte := 17
  const ICMP_ECHO_REQUEST: byte := 8
  const BROADCAST: Ip := 0xffff_ffff

  datatype Ipv4 = Ipv4(src: Ip, dst: Ip, proto: byte, payload: Bytes)

  /** The parser's outcome; `Panic` is an out-of-bounds read. */
  datatype Outcome<+T> = Panic | Nothing | Just(value: T)

  predicate IsRoutable(b: byte)
  {
    b in {1, 6, 17, 47, 50, 51, 58}
  }

  function IpAt(b: Bytes, at: nat): Ip
    requires at + 4 <= |b|
  {
    Be32(b[at], b[at + 1], b[at + 2], b[at + 3])
  }

  function PacketAt(frame: Bytes, end: nat): Ipv4
    requires 11 <= end <= |frame|
  {
    Ipv4(IpAt(frame, end - 8), IpAt(frame, end - 4), frame[end - 11], frame[end..])
  }

  /** Fields are located back from the end of the header, in the standard or the TTL-less layout. */
  function ParseIpv4(frame: Bytes): Outcome<Ipv4>
  {
    if Ethertype(frame) != Some(ETHERTYPE_IPV4) then Nothing
    else if |frame| < 15 then Panic
    else
      var ihl := frame[14] % 16 * 4;
      if frame[14] / 16 != 4 || ihl < 20 then Nothing
      else
        var end := 14 + ihl;
        if end > |frame| then Nothing
        else if IsRoutable(frame[end - 11]) then Just(PacketAt(frame, end))
        else if IsRoutable(frame[end - 12]) then Just(PacketAt(frame, end - 1))
        else Nothing
  }

  /** The parser is promised never to panic; it does on one shape of frame and no other. */
  lemma ParsePanicsIff(frame: Bytes)
    ensures ParseIpv4(frame).Panic? <==> |frame| == 14 && Ethertype(frame) == Some(ETHERTYPE_IPV4)
  {}

  /** Where the IP header ends by its own length field. */
  function HeaderEnd(frame: Bytes): nat
    requires |frame| >= 15
  {
    14 + frame[14] % 16 * 4
  }

  /** The fields where section 3.1 of RFC 791 puts them. */
  function HeaderFields(frame: Bytes): Ipv4
    requires |frame| >= 34 && HeaderEnd(frame) <= |frame|
  {
    Ipv4(IpAt(frame, 26), IpAt(frame, 30), frame[23], frame[HeaderEnd(frame)..])
  }

  /**
    The parser is promised never to misread. What it reads is what the header says iff there is
    a routable byte eleven before the header's end and the bytes there repeat the header's own
    protocol and addresses. Without options they are those fields, so that the layout alone
    decides; with options they are others, and it takes option bytes for addresses.
   */
  lemma ParseAgreesIff(frame: Bytes)
    requires ParseIpv4(frame).Just?
    ensures |frame| >= 34 && 34 <= HeaderEnd(frame) <= |frame|
    ensures var end := HeaderEnd(frame);
      ParseIpv4(frame).value == HeaderFields(frame) <==>
        IsRoutable(frame[end - 11]) && frame[end - 11] == frame[23] && frame[end - 8..end] == frame[26..34]
    ensures HeaderEnd(frame) == 34 ==>
      (ParseIpv4(frame).value == HeaderFields(frame) <==> frame[23] in {1, 6, 17, 47, 50, 51, 58})
  {
    var end := HeaderEnd(frame);
    if IsRoutable(frame[end - 11]) {
      SameIpIff(frame, end - 8, 26);
      SameIpIff(frame, end - 4, 30);
      assert frame[end - 8..end] == frame[end - 8..end - 4] + frame[end - 4..end];
      assert frame[26..34] == frame[26..30] + frame[30..34];
    }
  }

  lemma SameIpIff(b: Bytes, i: nat, j: nat)
    requires i + 4 <= |b| && j + 4 <= |b|
    ensures IpAt(b, i) == IpAt(b, j) <==> b[i..i + 4] == b[j..j + 4]
  {
    assert b[i..i + 4] == [b[i], b[i + 1], b[i + 2], b[i + 3]];
    assert b[j..j + 4] == [b[j], b[j + 1], b[j + 2], b[j + 3]];
    if IpAt(b, i) == IpAt(b, j) {
      Be32Injective(b[i], b[i + 1], b[i + 2], b[i + 3], b[j], b[j + 1], b[j + 2], b[j + 3]);
    }
  }

  /** Locally administered: 02:00 and the four octets of the address. */
  function GatewayMac(gateway: Ip): (m: Mac)
    ensures m.o0 == 2 && m.o1 == 0 && Be32(m.o2, m.o3, m.o4, m.o5) == gateway
  {
    var o := Be32Bytes(gateway);
    Mac(2, 0, o[0], o[1], o[2], o[3])
  }

  /** Overwrites four bytes. */
  function Put4(b: Bytes, at: nat, w: Bytes): (r: Bytes)
    requires at + 4 <= |b| && |w| == 4
    ensures |r| == |b|
  {
    b[at := w[0]][at + 1 := w[1]][at + 2 := w[2]][at + 3 := w[3]]
  }

  // ---- ICMP echo -------------------------------------------------------------------------------

  /** The ICMP half: type flipped to reply, checksum field zeroed. */
  function EchoCleared(icmp: Bytes): (r: Bytes)
    requires |icmp| >= 4
    ensures |r| == |icmp|
  {
    Put16(icmp[0 := 0], 2, 0)
  }

  /** The checksum stored back. */
  function EchoMessage(icmp: Bytes, checksum: u16): (r: Bytes)
    requires |icmp| >= 4
    ensures |r| == |icmp|
  {
    Put16(EchoCleared(icmp), 2, checksum)
  }

  /** The IP half: requester becomes destination, gateway becomes source, TTL and checksum refreshed. */
  function EchoHeader(header: Bytes, gateway: Ip): (r: Bytes)
    requires |header| >= 20
    ensures |r| == |header|
  {
    var toRequester := Put4(header, 16, header[12..16]);
    var fromGateway := Put4(toRequester, 12, Be32Bytes(gateway));
    var cleared := Put16(fromGateway[8 := 64], 10, 0);
    Put16(cleared, 10, Sum(cleared))
  }

  function EthernetHeader(dst: Mac, src: Mac, ethertype: u16): (h: Bytes)
    ensures |h| == 14
  {
    dst.Octets() + src.Octets() + Be16Bytes(ethertype)
  }

  /**
    The whole reply, or nothing when the frame is not an echo request for the gateway; `Panic`
    also when the ICMP message sums beyond 32 bits in a build that checks arithmetic.
   */
  function EchoReply(gateway: Ip, vmMac: Mac, frame: Bytes, checked: bool): Outcome<Bytes>
  {
    match ParseIpv4(frame)
    case Panic => Panic
    case Nothing => Nothing
    case Just(ip) =>
      if ip.dst != gateway || ip.proto != IPPROTO_ICMP then Nothing
      else if |ip.payload| < 8 || ip.payload[0] != ICMP_ECHO_REQUEST then Nothing
      else
        var pkt := frame[14..];
        var ihl := pkt[0] % 16 * 4;
        match Sum32(EchoCleared(pkt[ihl..]), checked)
        case None => Panic
        case Some(checksum) =>
          Just(EthernetHeader(vmMac, GatewayMac(gateway), ETHERTYPE_IPV4)
               + EchoHeader(pkt[..ihl], gateway) + EchoMessage(pkt[ihl..], checksum))
  }

  /** An echo request addressed to the gateway. */
  predicate IsGatewayEcho(gateway: Ip, frame: Bytes)
  {
    var ip := ParseIpv4(frame);
    && ip.Just? && ip.value.dst == gateway && ip.value.proto == IPPROTO_ICMP
    && |ip.value.payload| >= 8 && ip.value.payload[0] == ICMP_ECHO_REQUEST
  }

  /** What the reply's checksum sums, without any bound. */
  function EchoSum(gateway: Ip, frame: Bytes): nat
    requires IsGatewayEcho(gateway, frame)
  {
    WordSum(EchoCleared(frame[HeaderEnd(frame)..]))
  }

  /** It fits the accumulator when the message is at most 131074 bytes. */
  lemma ShortEchoFits(gateway: Ip, frame: Bytes)
    requires IsGatewayEcho(gateway, frame) && |frame| <= HeaderEnd(frame) + MAX_SUMMABLE
    ensures EchoSum(gateway, frame) <= U32_MAX && WrapsCancel(EchoSum(gateway, frame))
  {
    WordSumBound(EchoCleared(frame[HeaderEnd(frame)..]));
  }

  /** The reply builder panics on the parser's one shape of frame, and on an overflow that its build checks. */
  lemma EchoPanicsIff(gateway: Ip, vmMac: Mac, frame: Bytes, checked: bool)
    ensures EchoReply(gateway, vmMac, frame, checked).Panic? <==>
      || (|frame| == 14 && Ethertype(frame) == Some(ETHERTYPE_IPV4))
      || (checked && IsGatewayEcho(gateway, frame) && EchoSum(gateway, frame) > U32_MAX)
  {
    if IsGatewayEcho(gateway, frame) {
      assert frame[14..][HeaderEnd(frame) - 14..] == frame[HeaderEnd(frame)..];
    }
  }

  /** When the stored checksum verifies; and outside type and checksum the ICMP message is untouched. */
  lemma EchoMessageVerifies(icmp: Bytes, checked: bool)
    requires |icmp| >= 4 && Sum32(EchoCleared(icmp), checked).Some?
    ensures var r := EchoMessage(icmp, Sum32(EchoCleared(icmp), checked).value);
      && (Sum(r) == 0 <==> WrapsCancel(WordSum(EchoCleared(icmp))))
      && r[0] == 0
      && (forall i :: 0 <= i < |icmp| && i !in {0, 2, 3} ==> r[i] == icmp[i])
  {
    StoredSum32Verifies(EchoCleared(icmp), 2, checked);
  }

  /** The checksum verifies, the addresses are set, and apart from the TTL nothing else changes. */
  lemma EchoHeaderVerifies(header: Bytes, gateway: Ip)
    requires |header| >= 20
    ensures var r := EchoHeader(header, gateway);
      && Sum(r) == 0
      && IpAt(r, 12) == gateway && IpAt(r, 16) == IpAt(header, 12) && r[8] == 64
      && (forall i :: 0 <= i < |header| && i !in {8, 10, 11} && !(12 <= i < 20) ==> r[i] == header[i])
  {
    var toRequester := Put4(header, 16, header[12..16]);
    var fromGateway := Put4(toRequester, 12, Be32Bytes(gateway));
    StoredSumVerifies(Put16(fromGateway[8 := 64], 10, 0), 10);
    EchoAddresses(header, gateway);
  }

  lemma EchoAddresses(header: Bytes, gateway: Ip)
    requires |header| >= 20
    ensures IpAt(EchoHeader(header, gateway), 12) == gateway
    ensures IpAt(EchoHeader(header, gateway), 16) == IpAt(header, 12)
  {
    var r, o := EchoHeader(header, gateway), Be32Bytes(gateway);
    assert r[12] == o[0] && r[13] == o[1] && r[14] == o[2] && r[15] == o[3];
    assert r[16] == header[12] && r[17] == header[13] && r[18] == header[14] && r[19] == header[15];
  }

  /** To `dst`, from the gateway's own MAC, carrying IPv4: the Ethernet header byte by byte. */
  predicate FromGateway(frame: Bytes, dst: Bytes, gateway: Ip)
  {
    && |frame| >= 14 && frame[..6] == dst
    && frame[6] == 2 && frame[7] == 0 && IpAt(frame, 8) == gateway
    && frame[12] == 8 && frame[13] == 0
  }

  lemma HeaderFromGateway(f: Bytes, dst: Mac, gateway: Ip)
    requires |f| >= 14 && f[..14] == EthernetHeader(dst, GatewayMac(gateway), ETHERTYPE_IPV4)
    ensures FromGateway(f, dst.Octets(), gateway)
  {
    var h, g := EthernetHeader(dst, GatewayMac(gateway), ETHERTYPE_IPV4), GatewayMac(gateway);
    assert f[..6] == f[..14][..6] && h[..6] == dst.Octets();
    assert g.Octets() == [g.o0, g.o1, g.o2, g.o3, g.o4, g.o5];
    assert h[6..12] == g.Octets() && forall i :: 6 <= i < 12 ==> h[i] == h[6..12][i - 6];
    assert forall i :: 6 <= i < 14 ==> f[i] == f[..14][i];
    assert h[12..14] == Be16Bytes(ETHERTYPE_IPV4) && h[12] == h[12..14][0] && h[13] == h[12..14][1];
  }

  /** The reply is an Ethernet header, the rewritten IP header and the rewritten ICMP message. */
  lemma EchoParts(gateway: Ip, vmMac: Mac, frame: Bytes, checked: bool, end: nat)
    requires EchoReply(gateway, vmMac, frame, checked).Just? && end == HeaderEnd(frame)
    ensures IsGatewayEcho(gateway, frame) && 34 <= end && end + 4 <= |frame|
    ensures Sum32(EchoCleared(frame[end..]), checked).Some?
    ensures EchoReply(gateway, vmMac, frame, checked).value
      == EthernetHeader(vmMac, GatewayMac(gateway), ETHERTYPE_IPV4)
         + EchoHeader(frame[14..end], gateway)
         + EchoMessage(frame[end..], Sum32(EchoCleared(frame[end..]), checked).value)
  {
    assert frame[14..][..end - 14] == frame[14..end];
    assert frame[14..][end - 14..] == frame[end..];
  }

  lemma Concatenated(eth: Bytes, h: Bytes, m: Bytes)
    requires |eth| == 14
    ensures var f := eth + h + m;
      && |f| == 14 + |h| + |m|
      && f[..14] == eth && f[14..14 + |h|] == h && f[14 + |h|..] == m
  {}

  /**
    Every echo request that is answered, whatever its header length, layout and build: the reply
    goes to the VM from the gateway, its IP header checks to zero, the IP source field is the
    gateway, and the destination field is what stood in the request's source field. Behind the
    header the first byte is zeroed, the third and fourth are rewritten, and the rest is
    unchanged; those bytes check to zero iff the 32-bit sum wrapped a multiple of 65535 times,
    and up to 131074 of them it does not wrap at all. In the standard layout they are the ICMP
    message. In the TTL-less one the message starts a byte earlier, so what is zeroed is its
    code and what is rewritten is half its checksum and half its identifier.
   */
  lemma EchoReplyVerifies(gateway: Ip, vmMac: Mac, frame: Bytes, checked: bool, end: nat, r: Bytes)
    requires EchoReply(gateway, vmMac, frame, checked) == Just(r) && end == HeaderEnd(frame)
    ensures IsGatewayEcho(gateway, frame)
    ensures |r| == |frame| && 34 <= end && end + 4 <= |frame|
    ensures ParseIpv4(frame).value.payload == frame[if IsRoutable(frame[end - 11]) then end else end - 1..]
    ensures HeaderAnswered(gateway, vmMac, frame, end, r) && MessageAnswered(frame, end, r)
    ensures Sum(r[end..]) == 0 <==> WrapsCancel(EchoSum(gateway, frame))
    ensures |frame| <= end + MAX_SUMMABLE ==> Sum(r[end..]) == 0
  {
    EchoPayload(frame, end);
    EchoHeaderPart(gateway, vmMac, frame, checked, end, r);
    EchoMessagePart(gateway, vmMac, frame, checked, end, r);
    if |frame| <= end + MAX_SUMMABLE { ShortEchoFits(gateway, frame); }
  }

  /** From the gateway, to the VM and to what stood in the source field; the header verifies. */
  predicate HeaderAnswered(gateway: Ip, vmMac: Mac, frame: Bytes, end: nat, r: Bytes)
    requires |r| == |frame| && 34 <= end <= |frame|
  {
    && FromGateway(r, vmMac.Octets(), gateway)
    && Sum(r[14..end]) == 0
    && IpAt(r[14..end], 12) == gateway && IpAt(r[14..end], 16) == IpAt(frame[14..end], 12)
  }

  /** Behind the header: first byte zeroed, third and fourth rewritten, the rest unchanged. */
  predicate MessageAnswered(frame: Bytes, end: nat, r: Bytes)
    requires |r| == |frame| && end < |frame|
  {
    && r[end..][0] == 0
    && (forall i :: 0 <= i < |frame| - end && i !in {0, 2, 3} ==> r[end..][i] == frame[end..][i])
  }

  /** Where the ICMP message of a request starts. */
  lemma EchoPayload(frame: Bytes, end: nat)
    requires ParseIpv4(frame).Just? && end == HeaderEnd(frame)
    ensures 34 <= end <= |frame|
    ensures ParseIpv4(frame).value.payload == frame[if IsRoutable(frame[end - 11]) then end else end - 1..]
  {}

  lemma EchoHeaderPart(gateway: Ip, vmMac: Mac, frame: Bytes, checked: bool, end: nat, r: Bytes)
    requires EchoReply(gateway, vmMac, frame, checked) == Just(r) && end == HeaderEnd(frame)
    ensures |r| == |frame| && 34 <= end && end + 4 <= |frame| && HeaderAnswered(gateway, vmMac, frame, end, r)
  {
    EchoSlices(gateway, vmMac, frame, checked, end);
    HeaderFromGateway(r, vmMac, gateway);
    EchoHeaderVerifies(frame[14..end], gateway);
  }

  lemma EchoMessagePart(gateway: Ip, vmMac: Mac, frame: Bytes, checked: bool, end: nat, r: Bytes)
    requires EchoReply(gateway, vmMac, frame, checked) == Just(r) && end == HeaderEnd(frame)
    ensures IsGatewayEcho(gateway, frame) && |r| == |frame| && 34 <= end && end + 4 <= |frame|
    ensures Sum(r[end..]) == 0 <==> WrapsCancel(EchoSum(gateway, frame))
    ensures MessageAnswered(frame, end, r)
  {
    EchoSlices(gateway, vmMac, frame, checked, end);
    EchoMessageVerifies(frame[end..], checked);
  }

  /** The reply cut where the request's headers end. */
  lemma EchoSlices(gateway: Ip, vmMac: Mac, frame: Bytes, checked: bool, end: nat)
    requires EchoReply(gateway, vmMac, frame, checked).Just? && end == HeaderEnd(frame)
    ensures IsGatewayEcho(gateway, frame) && 34 <= end && end + 4 <= |frame|
    ensures Sum32(EchoCleared(frame[end..]), checked).Some?
    ensures var r := EchoReply(gateway, vmMac, frame, checked).value;
      && |r| == |frame|
      && r[..14] == EthernetHeader(vmMac, GatewayMac(gateway), ETHERTYPE_IPV4)
      && r[14..end] == EchoHeader(frame[14..end], gateway)
      && r[end..] == EchoMessage(frame[end..], Sum32(EchoCleared(frame[end..]), checked).value)
  {
    EchoParts(gateway, vmMac, frame, checked, end);
    Concatenated(EthernetHeader(vmMac, GatewayMac(gateway), ETHERTYPE_IPV4),
                 EchoHeader(frame[14..end], gateway),
                 EchoMessage(frame[end..], Sum32(EchoCleared(frame[end..]), checked).value));
  }

  /** The ICMP message `m` turned into its reply: type and checksum aside, every byte the same. */
  predicate EchoOf(m: Bytes, reply: Bytes)
  {
    |reply| == |m| >= 8 && reply[0] == 0 && forall i :: 0 <= i < |m| && i !in {0, 2, 3} ==> reply[i] == m[i]
  }

  /** What a reply is meant to be, as the daemon's own parser reads it: addresses swapped, message echoed. */
  predicate Reflects(request: Ipv4, reply: Bytes)
  {
    var r := ParseIpv4(reply);
    && r.Just? && r.value.src == request.dst && r.value.dst == request.src && r.value.proto == IPPROTO_ICMP
    && EchoOf(request.payload, r.value.payload)
  }

  /** What of the reply's frame is known outside the rewritten fields. */
  lemma EchoKeeps(gateway: Ip, vmMac: Mac, frame: Bytes, checked: bool, end: nat, r: Bytes)
    requires EchoReply(gateway, vmMac, frame, checked) == Just(r) && end == HeaderEnd(frame)
    ensures |r| == |frame| && 34 <= end && end + 4 <= |frame| && Ethertype(r) == Some(ETHERTYPE_IPV4)
    ensures r[14] == frame[14] && r[22] == 64 && r[23] == frame[23]
    ensures forall i :: 34 <= i < end ==> r[i] == frame[i]
  {
    EchoSlices(gateway, vmMac, frame, checked, end);
    EthertypeOf(r, vmMac, GatewayMac(gateway), ETHERTYPE_IPV4);
    HeaderKeeps(frame, r, gateway, end, frame[14..end], r[14..end]);
  }

  lemma HeaderKeeps(frame: Bytes, r: Bytes, gateway: Ip, end: nat, h: Bytes, h': Bytes)
    requires |r| == |frame| && 34 <= end <= |frame| && h == frame[14..end] && h' == r[14..end]
    requires h' == EchoHeader(h, gateway)
    ensures r[14] == frame[14] && r[22] == 64 && r[23] == frame[23]
    ensures forall i :: 34 <= i < end ==> r[i] == frame[i]
  {
    EchoHeaderVerifies(h, gateway);
    assert forall i :: 14 <= i < end ==> r[i] == h'[i - 14] && frame[i] == h[i - 14];
  }

  /** An option-less request is reflected iff in the standard layout; in the TTL-less one the reply does not parse. */
  lemma EchoReplyParses(gateway: Ip, vmMac: Mac, frame: Bytes, checked: bool, r: Bytes)
    requires EchoReply(gateway, vmMac, frame, checked) == Just(r) && HeaderEnd(frame) == 34
    ensures |frame| >= 34 && (ParseIpv4(r).Just? <==> IsRoutable(frame[23]))
    ensures Reflects(ParseIpv4(frame).value, r) <==> IsRoutable(frame[23])
  {
    EchoKeeps(gateway, vmMac, frame, checked, 34, r);
    if IsRoutable(frame[23]) {
      StandardReplyParses(gateway, vmMac, frame, checked, r);
      EchoMessagePart(gateway, vmMac, frame, checked, 34, r);
    }
  }

  lemma StandardReplyParses(gateway: Ip, vmMac: Mac, frame: Bytes, checked: bool, r: Bytes)
    requires EchoReply(gateway, vmMac, frame, checked) == Just(r)
    requires HeaderEnd(frame) == 34 && |frame| >= 34 && IsRoutable(frame[23])
    ensures |frame| >= 42 && ParseIpv4(frame) == Just(Ipv4(IpAt(frame, 26), gateway, IPPROTO_ICMP, frame[34..]))
    ensures |r| == |frame| && ParseIpv4(r) == Just(Ipv4(gateway, IpAt(frame, 26), IPPROTO_ICMP, r[34..]))
  {
    var eth := EthernetHeader(vmMac, GatewayMac(gateway), ETHERTYPE_IPV4);
    EchoParts(gateway, vmMac, frame, checked, 34);
    var h := EchoHeader(frame[14..34], gateway);
    var m := EchoMessage(frame[34..], Sum32(EchoCleared(frame[34..]), checked).value);
    StandardRequest(gateway, vmMac, frame, checked);
    EchoStandardHeader(frame, frame[14..34], gateway);
    StandardParses(eth, vmMac, GatewayMac(gateway), h, m);
    Concatenated(eth, h, m);
  }

  /**
    Every answered request that does not claim to come from the gateway itself is answered by
    its reflection iff its header has no options and the standard layout.
   */
  lemma EchoReflectsIff(gateway: Ip, vmMac: Mac, frame: Bytes, checked: bool, r: Bytes)
    requires EchoReply(gateway, vmMac, frame, checked) == Just(r) && ParseIpv4(frame).value.src != gateway
    ensures Reflects(ParseIpv4(frame).value, r) <==> HeaderEnd(frame) == 34 && |frame| >= 34 && IsRoutable(frame[23])
  {
    if HeaderEnd(frame) == 34 {
      EchoReplyParses(gateway, vmMac, frame, checked, r);
    } else {
      OptionsDoNotReflect(gateway, vmMac, frame, checked, HeaderEnd(frame), r);
    }
  }

  /** With options the address fields the parser reads last, or the type byte, come back as they were. */
  lemma OptionsDoNotReflect(gateway: Ip, vmMac: Mac, frame: Bytes, checked: bool, end: nat, r: Bytes)
    requires EchoReply(gateway, vmMac, frame, checked) == Just(r) && end == HeaderEnd(frame) > 34
    requires ParseIpv4(frame).value.src != gateway
    ensures !Reflects(ParseIpv4(frame).value, r)
  {
    EchoKeeps(gateway, vmMac, frame, checked, end, r);
    var request := ParseIpv4(frame).value;
    if IsRoutable(frame[end - 11]) {
      assert request == PacketAt(frame, end);
      assert IpAt(r, end - 4) == IpAt(frame, end - 4) == gateway;
    } else {
      assert request == PacketAt(frame, end - 1);
      assert r[end - 1] == frame[end - 1] == ICMP_ECHO_REQUEST;
    }
  }

  lemma EchoStandardHeader(frame: Bytes, header: Bytes, gateway: Ip)
    requires |frame| >= 34 && |header| == 20 && header == frame[14..34]
    ensures var h := EchoHeader(header, gateway);
      h[0] == frame[14] && h[9] == frame[23] && IpAt(h, 12) == gateway && IpAt(h, 16) == IpAt(frame, 26)
  {
    FromHeader(frame, header);
    SameIp(frame, 26, header, 12);
    EchoHeaderVerifies(header, gateway);
  }

  lemma StandardRequest(gateway: Ip, vmMac: Mac, frame: Bytes, checked: bool)
    requires EchoReply(gateway, vmMac, frame, checked).Just?
    requires HeaderEnd(frame) == 34 && |frame| >= 34 && IsRoutable(frame[23])
    ensures |frame| >= 34 && ParseIpv4(frame) == Just(Ipv4(IpAt(frame, 26), gateway, IPPROTO_ICMP, frame[34..]))
    ensures frame[14] == 0x45 && frame[23] == IPPROTO_ICMP
  {}

  /** Any frame made of an Ethernet header, a standard 20-byte IP header and a PDU parses into its fields. */
  lemma StandardParses(eth: Bytes, dst: Mac, src: Mac, h: Bytes, pdu: Bytes)
    requires eth == EthernetHeader(dst, src, ETHERTYPE_IPV4)
    requires |h| == 20 && h[0] == 0x45 && IsRoutable(h[9])
    ensures ParseIpv4(eth + h + pdu) == Just(Ipv4(IpAt(h, 12), IpAt(h, 16), h[9], pdu))
  {
    var f := eth + h + pdu;
    Concatenated(eth, h, pdu);
    EthertypeOf(f, dst, src, ETHERTYPE_IPV4);
    FromHeader(f, h);
    SameIp(f, 26, h, 12);
    SameIp(f, 30, h, 16);
  }

  lemma FromHeader(f: Bytes, h: Bytes)
    requires |f| >= 34 && |h| == 20 && f[14..34] == h
    ensures f[14] == h[0] && f[23] == h[9] && f[26..30] == h[12..16] && f[30..34] == h[16..20]
    ensures f[16] == h[2] && f[17] == h[3]
  {
    assert forall i :: 14 <= i < 34 ==> f[i] == f[14..34][i - 14];
  }

  lemma EthertypeOf(frame: Bytes, dst: Mac, src: Mac, ethertype: u16)
    requires |frame| >= 14 && frame[..14] == EthernetHeader(dst, src, ethertype)
    ensures Ethertype(frame) == Some(ethertype)
  {
    var h := EthernetHeader(dst, src, ethertype);
    assert frame[12] == frame[..14][12] == h[12] && frame[13] == frame[..14][13] == h[13];
    assert h[12] == Be16Bytes(ethertype)[0] && h[13] == Be16Bytes(ethertype)[1];
  }

  lemma SameIp(a: Bytes, i: nat, b: Bytes, j: nat)
    requires i + 4 <= |a| && j + 4 <= |b| && a[i..i + 4] == b[j..j + 4]
    ensures IpAt(a, i) == IpAt(b, j)
  {
    var x, y := a[i..i + 4], b[j..j + 4];
    assert a[i] == x[0] == y[0] == b[j] && a[i + 1] == x[1] == y[1] == b[j + 1];
    assert a[i + 2] == x[2] == y[2] == b[j + 2] && a[i + 3] == x[3] == y[3] == b[j + 3];
  }

  // ---- UDP replies --------------------------------------------------------------------------------

  function Saturate16(n: nat): u16
  {
    if n < 0x1_0000 then n else 0xffff
  }

  /** An unspecified reply address is broadcast. */
  function ReplyDst(replyIp: Ip): Ip
  {
    if replyIp == 0 then BROADCAST else replyIp
  }

  /** Version 4, no options, don't fragment, TTL 64, UDP; checksum in place. */
  function UdpIpHeader(src: Ip, dst: Ip, total: u16): (h: Bytes)
    ensures |h| == 20
  {
    var cleared := [0x45, 0] + Be16Bytes(total) + [0, 0, 0x40, 0, 64, IPPROTO_UDP, 0, 0]
      + Be32Bytes(src) + Be32Bytes(dst);
    Put16(cleared, 10, Sum(cleared))
  }

  function UdpDatagram(sport: u16, dport: u16, payload: Bytes): (d: Bytes)
    ensures |d| == 8 + |payload|
  {
    Be16Bytes(sport) + Be16Bytes(dport) + Be16Bytes(Saturate16(8 + |payload|)) + [0, 0] + payload
  }

  function WrapUdp(payload: Bytes, vmMac: Mac, gateway: Ip, replyIp: Ip, sport: u16, dport: u16): Bytes
  {
    var dstMac := if replyIp == 0 then Mac(0xff, 0xff, 0xff, 0xff, 0xff, 0xff) else vmMac;
    EthernetHeader(dstMac, GatewayMac(gateway), ETHERTYPE_IPV4)
    + UdpIpHeader(gateway, ReplyDst(replyIp), Saturate16(28 + |payload|))
    + UdpDatagram(sport, dport, payload)
  }

  datatype Udp = Udp(sport: u16, dport: u16, data: Bytes)

  /** The service seam's view of a transport PDU; None when it is no UDP header. */
  function ParseUdp(pdu: Bytes): Option<Udp>
  {
    if |pdu| < 8 then None
    else
      var field: nat := Be16(pdu[4], pdu[5]);
      var ulen := if field < 8 then 8 else field;
      Some(Udp(Be16(pdu[0], pdu[1]), Be16(pdu[2], pdu[3]), pdu[8..if ulen < |pdu| then ulen else |pdu|]))
  }

  lemma UdpIpHeaderFields(src: Ip, dst: Ip, total: u16)
    ensures var h := UdpIpHeader(src, dst, total);
      && h[0] == 0x45 && h[6] == 0x40 && h[7] == 0 && h[8] == 64 && h[9] == IPPROTO_UDP && Be16(h[2], h[3]) == total
      && IpAt(h, 12) == src && IpAt(h, 16) == dst && Sum(h) == 0
  {
    var t, s, d := Be16Bytes(total), Be32Bytes(src), Be32Bytes(dst);
    var cleared := [0x45, 0] + t + [0, 0, 0x40, 0, 64, IPPROTO_UDP, 0, 0] + s + d;
    StoredSumVerifies(cleared, 10);
    var h := UdpIpHeader(src, dst, total);
    assert h[2] == t[0] && h[3] == t[1];
    assert h[12] == s[0] && h[13] == s[1] && h[14] == s[2] && h[15] == s[3];
    assert h[16] == d[0] && h[17] == d[1] && h[18] == d[2] && h[19] == d[3];
  }

  lemma UdpParses(sport: u16, dport: u16, payload: Bytes)
    ensures ParseUdp(UdpDatagram(sport, dport, payload))
      == Some(Udp(sport, dport, if |payload| <= 65527 then payload else payload[..65527]))
  {
    var s, p, l := Be16Bytes(sport), Be16Bytes(dport), Be16Bytes(Saturate16(8 + |payload|));
    var d := UdpDatagram(sport, dport, payload);
    assert d[0] == s[0] && d[1] == s[1] && d[2] == p[0] && d[3] == p[1] && d[4] == l[0] && d[5] == l[1];
    if |payload| <= 65527 {
      assert d[8..|d|] == payload;
    } else {
      assert d[8..65535] == payload[..65527];
    }
  }

  /** A UDP datagram byte by byte: ports, length, no checksum, then the payload. */
  predicate Carries(d: Bytes, sport: u16, dport: u16, payload: Bytes)
  {
    && |d| == 8 + |payload| && d[8..] == payload
    && Be16(d[0], d[1]) == sport && Be16(d[2], d[3]) == dport
    && Be16(d[4], d[5]) == (if |d| <= 65535 then |d| else 65535)
    && d[6] == 0 && d[7] == 0
  }

  lemma DatagramCarries(sport: u16, dport: u16, payload: Bytes)
    ensures Carries(UdpDatagram(sport, dport, payload), sport, dport, payload)
  {
    var s, p, l := Be16Bytes(sport), Be16Bytes(dport), Be16Bytes(Saturate16(8 + |payload|));
    var d := UdpDatagram(sport, dport, payload);
    assert d[0] == s[0] && d[1] == s[1] && d[2] == p[0] && d[3] == p[1] && d[4] == l[0] && d[5] == l[1];
  }

  /**
    A service reply on the wire: from the gateway to `vmMac` and `replyIp`, or broadcast on both
    layers when that is unspecified; an option-less, unfragmentable IPv4 header with TTL 64
    around a UDP datagram with the payload.
   */
  predicate IsReply(frame: Bytes, vmMac: Mac, gateway: Ip, replyIp: Ip, sport: u16, dport: u16, payload: Bytes)
  {
    && |frame| == 42 + |payload|
    && FromGateway(frame, if replyIp == 0 then [0xff, 0xff, 0xff, 0xff, 0xff, 0xff] else vmMac.Octets(), gateway)
    && frame[14] == 0x45 && frame[20] == 0x40 && frame[21] == 0 && frame[22] == 64 && frame[23] == 17
    && IpAt(frame, 26) == gateway && IpAt(frame, 30) == (if replyIp == 0 then 0xffff_ffff else replyIp)
    && Carries(frame[34..], sport, dport, payload)
  }

  lemma WrapUdpIsReply(payload: Bytes, vmMac: Mac, gateway: Ip, replyIp: Ip, sport: u16, dport: u16)
    ensures IsReply(WrapUdp(payload, vmMac, gateway, replyIp, sport, dport),
                    vmMac, gateway, replyIp, sport, dport, payload)
  {
    var dst, total := ReplyDst(replyIp), Saturate16(28 + |payload|);
    var h, d := UdpIpHeader(gateway, dst, total), UdpDatagram(sport, dport, payload);
    var dstMac := if replyIp == 0 then Mac(0xff, 0xff, 0xff, 0xff, 0xff, 0xff) else vmMac;
    var eth := EthernetHeader(dstMac, GatewayMac(gateway), ETHERTYPE_IPV4);
    var f := eth + h + d;
    Concatenated(eth, h, d);
    HeaderFromGateway(f, dstMac, gateway);
    UdpIpHeaderFields(gateway, dst, total);
    FromHeader(f, h);
    SameIp(f, 26, h, 12);
    SameIp(f, 30, h, 16);
    DatagramCarries(sport, dport, payload);
    assert forall i :: 14 <= i < 34 ==> f[i] == f[14..34][i - 14];
  }

  /**
    Round trip of a service reply: the daemon's own parser takes the standard branch and finds
    the gateway as source, the reply address (or broadcast) as destination and UDP as
    protocol; the IP header checks to zero; and the frame is addressed as it should be, byte by
    byte. The payload comes back exactly iff it is at most 65527 bytes, and the header's total
    length is right iff it is at most 65507.
   */
  lemma WrapUdpRoundTrip(payload: Bytes, vmMac: Mac, gateway: Ip, replyIp: Ip, sport: u16, dport: u16)
    ensures var frame := WrapUdp(payload, vmMac, gateway, replyIp, sport, dport);
      && IsReply(frame, vmMac, gateway, replyIp, sport, dport, payload)
      && ParseIpv4(frame) == Just(Ipv4(gateway, ReplyDst(replyIp), IPPROTO_UDP, UdpDatagram(sport, dport, payload)))
      && Sum(frame[14..34]) == 0
      && (ParseUdp(ParseIpv4(frame).value.payload) == Some(Udp(sport, dport, payload)) <==> |payload| <= 65527)
      && (Be16(frame[16], frame[17]) == 28 + |payload| <==> |payload| <= 65507)
  {
    var dst, total := ReplyDst(replyIp), Saturate16(28 + |payload|);
    var h, d := UdpIpHeader(gateway, dst, total), UdpDatagram(sport, dport, payload);
    var dstMac := if replyIp == 0 then Mac(0xff, 0xff, 0xff, 0xff, 0xff, 0xff) else vmMac;
    var eth := EthernetHeader(dstMac, GatewayMac(gateway), ETHERTYPE_IPV4);
    UdpIpHeaderFields(gateway, dst, total);
    StandardParses(eth, dstMac, GatewayMac(gateway), h, d);
    Concatenated(eth, h, d);
    FromHeader(eth + h + d, h);
    UdpParses(sport, dport, payload);
    WrapUdpIsReply(payload, vmMac, gateway, replyIp, sport, dport);
  }
}
