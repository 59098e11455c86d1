/** The per-network gateway function: ARP responder and WAN egress classifier (switch/gateway.rs). */
module Gateway {
  import opened Base
  import opened Cidr
  import opened Frames
  import Replies

  /** Configured networks by name, and attached ports with their network name. */
  datatype Gateway = Gateway(networks: map<string, Network>, ports: map<PortId, string>)

  const EMPTY: Gateway := Gateway(map[], map[])

  datatype Action = L2 | Wan(frame: Bytes) | ArpReply(frame: Bytes)

  /** A standard IPv4-over-Ethernet ARP request. */
  predicate IsArpRequest(p: Bytes)
  {
    |p| >= 28 && Be16(p[0], p[1]) == 1 && Be16(p[2], p[3]) == 0x0800 && p[4] == 6 && p[5] == 4 && Be16(p[6], p[7]) == 1
  }

  predicate IsValidIpv4Header(p: Bytes)
  {
    |p| >= 20 && p[0] / 16 == 4 && p[0] % 16 >= 5 && |p| >= p[0] % 16 * 4
  }

  /** The reply to a request payload: from the gateway, to the requester. */
  function BuildArpReply(request: Bytes, gateway: Ip): (r: Bytes)
    requires |request| >= 28
    ensures |r| == 42
  {
    var gw := Replies.GatewayMac(gateway).Octets();
    request[8..14] + gw + [0x08, 0x06] + [0, 1, 0x08, 0, 6, 4, 0, 2] + gw + Be32Bytes(gateway)
    + request[8..14] + request[14..18]
  }

  function ArpResponse(net: Network, payload: Bytes): Action
  {
    if !IsArpRequest(payload) then L2
    else if Replies.IpAt(payload, 24) != net.gateway then L2
    else ArpReply(BuildArpReply(payload, net.gateway))
  }

  function Egress(net: Network, payload: Bytes, frame: Bytes): Action
  {
    if IsValidIpv4Header(payload) && |frame| >= 6 && frame[..6] == Replies.GatewayMac(net.gateway).Octets()
    then Wan(frame) else L2
  }

  function HandleFrame(g: Gateway, ingress: PortId, frame: Bytes): Action
  {
    if ingress !in g.ports || g.ports[ingress] !in g.networks then L2
    else
      var net := g.networks[g.ports[ingress]];
      match Parse(frame)
      case None => L2
      case Some(parsed) =>
        if parsed.ethertype == ETHERTYPE_ARP then ArpResponse(net, parsed.payload)
        else if parsed.ethertype == ETHERTYPE_IPV4 then Egress(net, parsed.payload, frame)
        else L2
  }

  /** The wire form of an IPv4-over-Ethernet ARP packet's first eight bytes, with its operation. */
  predicate ArpHeader(p: Bytes, operation: byte)
  {
    |p| >= 8 && p[..8] == [0, 1, 8, 0, 6, 4, 0, operation]
  }

  /** `reply` answers `request`: an ARP reply to its sender, telling it the gateway's hardware address. */
  predicate Answers(reply: Bytes, request: Bytes, gateway: Ip)
  {
    && |request| >= 28 && |reply| == 42
    && reply[..6] == request[8..14] && reply[6] == 2 && reply[7] == 0 && Replies.IpAt(reply, 8) == gateway
    && reply[12] == 8 && reply[13] == 6 && ArpHeader(reply[14..], 2)
    && reply[22..28] == reply[6..12] && Replies.IpAt(reply, 28) == gateway
    && reply[32..38] == request[8..14] && reply[38..42] == request[14..18]
  }

  lemma BuiltReplyAnswers(request: Bytes, gateway: Ip)
    requires |request| >= 28
    ensures Answers(BuildArpReply(request, gateway), request, gateway)
  {
    var m := Replies.GatewayMac(gateway);
    var gw, ip := m.Octets(), Be32Bytes(gateway);
    assert gw == [m.o0, m.o1, m.o2, m.o3, m.o4, m.o5];
    var r := BuildArpReply(request, gateway);
    assert r[14..][..8] == [0, 1, 8, 0, 6, 4, 0, 2];
    assert r[6..12] == gw && forall i :: 6 <= i < 12 ==> r[i] == r[6..12][i - 6];
    assert r[28..32] == ip && forall i :: 28 <= i < 32 ==> r[i] == r[28..32][i - 28];
  }

  /** A payload is taken for a request iff it is at least 28 bytes with the standard header of a request. */
  lemma RequestIff(p: Bytes)
    ensures IsArpRequest(p) <==> |p| >= 28 && ArpHeader(p, 1)
  {
    if |p| >= 8 {
      assert p[..8] == [p[0], p[1], p[2], p[3], p[4], p[5], p[6], p[7]];
    }
  }

  /**
    An ARP reply is an untagged ARP frame to the requester from the gateway, tells the
    requester's hardware and protocol addresses back to it, and is never itself answered.
   */
  lemma ArpReplyMeans(g: Gateway, ingress: PortId, frame: Bytes, other: PortId)
    requires HandleFrame(g, ingress, frame).ArpReply?
    ensures Answers(HandleFrame(g, ingress, frame).frame, Parse(frame).value.payload,
                    g.networks[g.ports[ingress]].gateway)
    ensures var reply := HandleFrame(g, ingress, frame).frame;
      var request := Parse(frame).value.payload;
      var gw := Replies.GatewayMac(g.networks[g.ports[ingress]].gateway);
      && |request| >= 28
      && Parse(reply) == Some(Parsed(MacAt(request, 8), gw, ETHERTYPE_ARP, reply[14..]))
      && MacAt(reply, 22) == gw && MacAt(reply, 32) == MacAt(request, 8)
      && HandleFrame(g, other, reply) == L2
  {
    var request := Parse(frame).value.payload;
    var gateway := g.networks[g.ports[ingress]].gateway;
    ArpReplyBytes(request, gateway);
    BuiltReplyAnswers(request, gateway);
  }

  lemma ArpReplyBytes(request: Bytes, gateway: Ip)
    requires |request| >= 28
    ensures var r := BuildArpReply(request, gateway);
      && MacAt(r, 0) == MacAt(request, 8) && MacAt(r, 6) == Replies.GatewayMac(gateway)
      && Be16(r[12], r[13]) == ETHERTYPE_ARP && r[20] == 0 && r[21] == 2
      && MacAt(r, 22) == Replies.GatewayMac(gateway) && MacAt(r, 32) == MacAt(request, 8)
  {
    var r := BuildArpReply(request, gateway);
    var m, o := request[8..14], Replies.GatewayMac(gateway).Octets();
    assert m[0] == request[8] && m[1] == request[9] && m[2] == request[10];
    assert m[3] == request[11] && m[4] == request[12] && m[5] == request[13];
    assert forall i :: 0 <= i < 6 ==> r[i] == m[i] && r[6 + i] == o[i] && r[22 + i] == o[i] && r[32 + i] == m[i];
  }
}
