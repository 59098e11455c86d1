/** Where frames can go: end-to-end isolation of networks over every run. */
module Isolation {
  import opened Base
  import opened Daemon
  import opened Wiring
  import Checksum
  import Cidr
  import Fabric
  import Frames
  import Framing
  import Gateway
  import Replies

  /** Two ports the switch has on one network. */
  predicate SameSegment(s: Inner, me: PortId, port: string)
  {
    && port in s.ports && s.ports[port].id != me
    && me in s.switch.ports && s.ports[port].id in s.switch.ports
    && s.switch.ports[s.ports[port].id] == s.switch.ports[me]
  }

  /**
    Whatever a pump does with a frame: it answers into the port of its name, or hands the frame
    to that port's passt, or copies it unchanged to ports on the ingress id's segment. This
    holds for the stale pump of a deleted port too; the port of its name is then whichever port
    was created under that name since.
   */
  lemma PumpStaysHome(s: Inner, name: string, me: PortId, frame: Bytes, env: Services, o: Out)
    requires Wired(s) && o in Pump(s, name, me, frame, env).outs
    ensures o == ToPasst(name, Framing.Encode(frame))
      || (o.Inject? && o.port == name)
      || (o == Inject(o.port, frame) && SameSegment(s, me, o.port))
  {
    var egress := Fabric.Forward(s.switch, me, frame).1;
    if o in Copies(s, egress, me, frame) {
      var id :| id in egress && id != me && id in s.names && o == Inject(s.names[id], frame);
      Fabric.ForwardStaysOnNetwork(s.switch, me, frame, id);
      assert IdWired(s, id);
    }
  }

  /**
    A stale pump, whose id is gone, reaches no segment: all it can still do is answer or feed
    the passt of a port created later under its name. With no such port it is silent, except
    for a slot that a failed save left behind.
   */
  lemma StalePump(s: Inner, name: string, me: PortId, frame: Bytes, env: Services)
    requires Wired(s) && me !in s.names
    ensures forall o :: o in Pump(s, name, me, frame, env).outs ==> o.port == name
    ensures name !in s.ports ==>
      (Pump(s, name, me, frame, env).outs == {} <==> !(ForUplink(s, name, frame) && s.passts[name].live))
  {}

  /** A segment shared with an attached port is that port's network; the blank segment has only unattached ports. */
  lemma SegmentIsNetwork(s: Inner, name: string, port: string)
    requires Wired(s) && name in s.ports && SameSegment(s, s.ports[name].id, port)
    ensures s.ports[port].network == s.ports[name].network && port != name
  {
    assert PortWired(s, name) && PortWired(s, port);
    assert Cidr.IsBlank("");
  }

  /** For the sender itself, for its own passt, or an unmodified copy for another port attached to `n`. */
  predicate StaysOnNetwork(s: Inner, name: string, n: string, frame: Bytes, o: Out)
  {
    || o == ToPasst(name, Framing.Encode(frame))
    || (o.Inject? && o.port == name)
    || (o == Inject(o.port, frame) && o.port != name && AttachedTo(s, o.port, n))
  }

  /**
    Isolation: in every reachable state, a frame entering at a port attached to `n` leads only
    to frames for the sender itself, to bytes for the sender's own passt, or to unmodified
    copies for other ports attached to `n`.
   */
  lemma NetworksAreIsolated(events: seq<Event>, e: Event, n: string, o: Out)
    requires AllowedRun(GENESIS, events) && e.Frame?
    requires var s := Run(GENESIS, events).inner;
      AttachedTo(s, e.name, n) && s.ports[e.name].id == e.me
    requires o in Outputs(Run(GENESIS, events), e)
    ensures StaysOnNetwork(Run(GENESIS, events).inner, e.name, n, e.frame, o)
  {
    RunWired(events);
    var s := Run(GENESIS, events).inner;
    PumpStaysHome(s, e.name, e.me, e.frame, e.env, o);
    if SameSegment(s, e.me, o.port) {
      SegmentIsNetwork(s, e.name, o.port);
    }
  }

  /** A port that was never attached reaches only itself and other unattached ports. */
  lemma UnattachedReachNoNetwork(events: seq<Event>, e: Event, o: Out)
    requires AllowedRun(GENESIS, events) && e.Frame?
    requires var s := Run(GENESIS, events).inner;
      e.name in s.ports && s.ports[e.name].network.None? && s.ports[e.name].id == e.me
    requires o in Outputs(Run(GENESIS, events), e)
    ensures o.Inject? && o.port != e.name ==> !Attached(Run(GENESIS, events).inner, o.port)
  {
    RunWired(events);
    var s := Run(GENESIS, events).inner;
    PumpStaysHome(s, e.name, e.me, e.frame, e.env, o);
    if SameSegment(s, e.me, o.port) {
      SegmentIsNetwork(s, e.name, o.port);
    }
  }

  // ---- the switched frames ------------------------------------------------------------------------------

  /** No seam ahead of the switch takes the frame: no service, ARP or ICMP answer, no WAN egress, no uplink reply. */
  predicate Unclaimed(s: Inner, name: string, me: PortId, frame: Bytes, env: Services)
  {
    var ethertype, action := Frames.Ethertype(frame), Gateway.HandleFrame(s.gateway, me, frame);
    && ServiceReply(s, name, frame, env).Nothing?
    && !(ethertype == Some(Frames.ETHERTYPE_ARP) && action.ArpReply?)
    && !(ethertype == Some(Frames.ETHERTYPE_IPV4) && (!IcmpReply(s, name, frame, env).Nothing? || action.Wan?))
    && !ForUplink(s, name, frame)
  }

  /** Exactly the unclaimed frames are switched; a claimed one leaves the whole state as it was. */
  lemma SwitchedIffUnclaimed(s: Inner, name: string, me: PortId, frame: Bytes, env: Services)
    ensures var (switch, egress) := Fabric.Forward(s.switch, me, frame);
      if Unclaimed(s, name, me, frame, env)
      then Pump(s, name, me, frame, env) == Pumped(s.(switch := switch), Copies(s, egress, me, frame), false)
      else Pump(s, name, me, frame, env).inner == s
  {}

  /** One copy for every other port attached to the network. */
  function Segment(s: Inner, name: string, n: string, frame: Bytes): set<Out>
  {
    set p | p in s.ports && p != name && AttachedTo(s, p, n) :: Inject(p, frame)
  }

  /** Flooding the switch segment of an attached port reaches exactly the other ports attached to its network. */
  lemma FloodReachesSegment(s: Inner, name: string, frame: Bytes, n: string)
    requires Wired(s) && AttachedTo(s, name, n)
    ensures var me := s.ports[name].id;
      && me in s.switch.ports && s.switch.ports[me] == n
      && Copies(s, Fabric.FloodSet(s.switch.ports, n, me), me, frame) == Segment(s, name, n, frame)
  {
    var me := s.ports[name].id;
    assert PortWired(s, name);
    var egress := Fabric.FloodSet(s.switch.ports, n, me);
    forall o | o in Copies(s, egress, me, frame) ensures o in Segment(s, name, n, frame) {
      var id :| id in egress && id != me && id in s.names && s.names[id] in s.ports && o == Inject(s.names[id], frame);
      assert IdWired(s, id) && PortWired(s, s.names[id]);
    }
    forall o | o in Segment(s, name, n, frame) ensures o in Copies(s, egress, me, frame) {
      var p :| p in s.ports && p != name && AttachedTo(s, p, n) && o == Inject(p, frame);
      assert PortWired(s, p) && s.ports[p].id in egress;
    }
  }

  /** A group frame that no seam claims reaches exactly the other ports attached to the network. */
  lemma GroupFrameReachesAll(s: Inner, name: string, frame: Bytes, env: Services, n: string)
    requires Wired(s) && AttachedTo(s, name, n)
    requires Frames.Parse(frame).Some? && frame[0] % 2 == 1
    requires ServiceReply(s, name, frame, env).Nothing? && !ForUplink(s, name, frame)
    requires Frames.Ethertype(frame) == Some(Frames.ETHERTYPE_ARP) ==>
      !Gateway.HandleFrame(s.gateway, s.ports[name].id, frame).ArpReply?
    requires Frames.Ethertype(frame) == Some(Frames.ETHERTYPE_IPV4) ==> IcmpReply(s, name, frame, env).Nothing?
    ensures Pump(s, name, s.ports[name].id, frame, env).outs == Segment(s, name, n, frame)
  {
    GroupFramesAreNotWan(s.gateway, s.ports[name].id, frame);
    SwitchedIffUnclaimed(s, name, s.ports[name].id, frame, env);
    FloodReachesSegment(s, name, frame, n);
  }

  /** The gateway MAC is unicast, so no group frame is ever WAN egress. */
  lemma GroupFramesAreNotWan(g: Gateway.Gateway, me: PortId, frame: Bytes)
    requires |frame| > 0 && !Frames.IsLocalUnicast(frame)
    ensures !Gateway.HandleFrame(g, me, frame).Wan?
  {
    if |frame| >= 6 {
      assert frame[..6][0] == frame[0];
    }
  }

  /** What the gateway sees of a wired, attached port is that port's own network. */
  lemma GatewayKnowsPort(s: Inner, name: string, n: string)
    requires Wired(s) && AttachedTo(s, name, n) && n in s.networks
    ensures var g, id := s.gateway, s.ports[name].id;
      id in g.ports && g.ports[id] == n && n in g.networks && g.networks[n] == s.networks[n].net
  {
    assert PortWired(s, name) && NetworkWired(s, n);
  }

  /** The destination MAC is the gateway's: 02:00 and the four octets of its address. */
  predicate ToGatewayMac(frame: Bytes, gateway: Ip)
  {
    |frame| >= 6 && frame[0] == 2 && frame[1] == 0 && Replies.IpAt(frame, 2) == gateway
  }

  lemma ToGatewayIff(frame: Bytes, gateway: Ip)
    requires |frame| >= 6
    ensures frame[..6] == Replies.GatewayMac(gateway).Octets() <==> ToGatewayMac(frame, gateway)
  {
    var m := Replies.GatewayMac(gateway);
    assert frame[..6] == [frame[0], frame[1], frame[2], frame[3], frame[4], frame[5]];
    assert m.Octets() == [m.o0, m.o1, m.o2, m.o3, m.o4, m.o5];
    if Replies.IpAt(frame, 2) == gateway {
      Be32Injective(frame[2], frame[3], frame[4], frame[5], m.o2, m.o3, m.o4, m.o5);
    }
  }

  /** An untagged IPv4 frame whose header is whole: version 4, at least five words, all there. */
  predicate WholeIpv4(frame: Bytes)
  {
    && |frame| >= 34 && frame[12] == 8 && frame[13] == 0
    && frame[14] / 16 == 4 && frame[14] % 16 >= 5 && |frame| >= 14 + frame[14] % 16 * 4
  }

  /** The bytes as they go to passt, which runs for the sender: a length, then the frame. */
  function ToOwnPasst(s: Inner, name: string, frame: Bytes): set<Out>
  {
    if name in s.passts && s.passts[name].live then {ToPasst(name, Framing.Encode(frame))} else {}
  }

  /**
    An IPv4 frame to the gateway MAC that no service answers goes to the sender's own running
    passt and nowhere else.
   */
  lemma GatewayFramesGoToOwnPasst(s: Inner, name: string, frame: Bytes, env: Services, n: string)
    requires Wired(s) && AttachedTo(s, name, n) && n in s.networks
    requires WholeIpv4(frame) && ToGatewayMac(frame, s.networks[n].net.gateway)
    requires ServiceReply(s, name, frame, env).Nothing? && IcmpReply(s, name, frame, env).Nothing?
    ensures Pump(s, name, s.ports[name].id, frame, env) == Pumped(s, ToOwnPasst(s, name, frame), false)
  {
    GatewayKnowsPort(s, name, n);
    ToGatewayIff(frame, s.networks[n].net.gateway);
    WholeIsValid(frame);
  }

  lemma WholeIsValid(frame: Bytes)
    requires WholeIpv4(frame)
    ensures Frames.Ethertype(frame) == Some(Frames.ETHERTYPE_IPV4) && Gateway.IsValidIpv4Header(frame[14..])
    ensures Frames.Parse(frame).Some? && Frames.Parse(frame).value.ethertype == Frames.ETHERTYPE_IPV4
    ensures Frames.Parse(frame).value.payload == frame[14..]
  {}

  /**
    A frame that no service, ARP or echo answer takes, to the MAC learned from the sender's
    running passt, goes to that passt and nowhere else.
   */
  lemma UplinkFramesGoToOwnPasst(s: Inner, name: string, me: PortId, frame: Bytes, env: Services)
    requires ServiceReply(s, name, frame, env).Nothing? && IcmpReply(s, name, frame, env).Nothing?
    requires !Gateway.HandleFrame(s.gateway, me, frame).ArpReply?
    requires name in s.passts && s.passts[name].live && s.passts[name].mac.Some?
    requires |frame| >= 6 && frame[..6] == s.passts[name].mac.value.Octets()
    ensures Pump(s, name, me, frame, env) == Pumped(s, {ToPasst(name, Framing.Encode(frame))}, false)
  {}

  /** Conversely, passt is only ever sent frames addressed to the network's gateway or to passt's own MAC. */
  lemma PasstGetsOnlyItsOwn(s: Inner, name: string, frame: Bytes, env: Services, n: string, o: Out)
    requires Wired(s) && AttachedTo(s, name, n) && n in s.networks
    requires o in Pump(s, name, s.ports[name].id, frame, env).outs && o.ToPasst?
    ensures o == ToPasst(name, Framing.Encode(frame)) && name in s.passts && s.passts[name].live && |frame| >= 6
    ensures (WholeIpv4(frame) && ToGatewayMac(frame, s.networks[n].net.gateway))
      || (s.passts[name].mac.Some? && frame[..6] == s.passts[name].mac.value.Octets())
  {
    GatewayKnowsPort(s, name, n);
    PasstIsFed(s, name, s.ports[name].id, frame, env, o);
    if !ForUplink(s, name, frame) {
      WanIsWhole(s, s.ports[name].id, frame, n);
      ToGatewayIff(frame, s.networks[n].net.gateway);
    }
  }

  lemma PasstIsFed(s: Inner, name: string, me: PortId, frame: Bytes, env: Services, o: Out)
    requires o in Pump(s, name, me, frame, env).outs && o.ToPasst?
    ensures o == ToPasst(name, Framing.Encode(frame)) && name in s.passts && s.passts[name].live
    ensures ForUplink(s, name, frame) ||
      (Frames.Ethertype(frame) == Some(Frames.ETHERTYPE_IPV4) && Gateway.HandleFrame(s.gateway, me, frame).Wan?)
  {}

  lemma WanIsWhole(s: Inner, me: PortId, frame: Bytes, n: string)
    requires me in s.gateway.ports && s.gateway.ports[me] == n && n in s.gateway.networks
    requires Gateway.HandleFrame(s.gateway, me, frame).Wan? && Frames.Ethertype(frame) == Some(Frames.ETHERTYPE_IPV4)
    ensures WholeIpv4(frame) && frame[..6] == Replies.GatewayMac(s.gateway.networks[n].gateway).Octets()
  {}

  /** An untagged ARP request for the address: the standard 28 bytes, operation 1. */
  predicate AsksFor(frame: Bytes, ip: Ip)
  {
    && |frame| >= 42 && frame[12] == 8 && frame[13] == 6
    && Gateway.ArpHeader(frame[14..], 1) && Replies.IpAt(frame, 38) == ip
  }

  lemma ArpAnsweredIff(s: Inner, name: string, frame: Bytes, n: string)
    requires Wired(s) && AttachedTo(s, name, n) && n in s.networks
    requires Frames.Ethertype(frame) == Some(Frames.ETHERTYPE_ARP)
    ensures var action := Gateway.HandleFrame(s.gateway, s.ports[name].id, frame);
      && (action.ArpReply? <==> AsksFor(frame, s.networks[n].net.gateway))
      && (action.ArpReply? ==> Gateway.Answers(action.frame, frame[14..], s.networks[n].net.gateway))
  {
    GatewayKnowsPort(s, name, n);
    Gateway.RequestIff(frame[14..]);
    if |frame| >= 42 {
      Gateway.BuiltReplyAnswers(frame[14..], s.networks[n].net.gateway);
      assert forall i :: 24 <= i < 28 ==> frame[14..][i] == frame[14 + i];
    }
  }

  /**
    An ARP frame from an attached port is answered, to the requester and nowhere else, iff it is a
    request for the network's gateway; the answer tells it the gateway's hardware address.
   */
  lemma GatewayArpIsAnswered(s: Inner, name: string, frame: Bytes, env: Services, n: string)
    requires Wired(s) && AttachedTo(s, name, n) && n in s.networks
    requires |frame| >= 14 && frame[12] == 8 && frame[13] == 6
    ensures var p := Pump(s, name, s.ports[name].id, frame, env);
      if AsksFor(frame, s.networks[n].net.gateway)
      then exists r {:trigger Gateway.Answers(r, frame[14..], s.networks[n].net.gateway)} ::
             Gateway.Answers(r, frame[14..], s.networks[n].net.gateway) && p == Pumped(s, {Inject(name, r)}, false)
      else forall o :: o in p.outs ==> o.ToPasst? || o.port != name
  {
    var p := Pump(s, name, s.ports[name].id, frame, env);
    assert Frames.Ethertype(frame) == Some(Frames.ETHERTYPE_ARP);
    ArpAnsweredIff(s, name, frame, n);
    if AsksFor(frame, s.networks[n].net.gateway) {
      var action := Gateway.HandleFrame(s.gateway, s.ports[name].id, frame);
      assert p == Pumped(s, {Inject(name, action.frame)}, false);
    } else {
      forall o | o in p.outs ensures o.ToPasst? || o.port != name {
        NoEchoOfOwn(s, name, frame, env, o);
      }
    }
  }

  /** An ARP frame that is not answered comes back to its sender in no other way. */
  lemma NoEchoOfOwn(s: Inner, name: string, frame: Bytes, env: Services, o: Out)
    requires Wired(s) && name in s.ports && o in Pump(s, name, s.ports[name].id, frame, env).outs
    requires Frames.Ethertype(frame) == Some(Frames.ETHERTYPE_ARP)
    requires !Gateway.HandleFrame(s.gateway, s.ports[name].id, frame).ArpReply?
    ensures o.ToPasst? || o.port != name
  {
    var me := s.ports[name].id;
    ArpIsNoService(s, name, frame, env);
    if !ForUplink(s, name, frame) {
      SwitchedIffUnclaimed(s, name, me, frame, env);
      CopiesSkipSender(s, name, Fabric.Forward(s.switch, me, frame).1, frame, o);
    }
  }

  lemma ArpIsNoService(s: Inner, name: string, frame: Bytes, env: Services)
    requires Frames.Ethertype(frame) == Some(Frames.ETHERTYPE_ARP)
    ensures ServiceReply(s, name, frame, env).Nothing?
  {}

  lemma CopiesSkipSender(s: Inner, name: string, egress: set<PortId>, frame: Bytes, o: Out)
    requires Wired(s) && name in s.ports && o in Copies(s, egress, s.ports[name].id, frame)
    ensures o.port != name
  {
    var me := s.ports[name].id;
    var id :| id in egress && id != me && id in s.names && s.names[id] in s.ports && o == Inject(s.names[id], frame);
    assert IdWired(s, id);
  }

  // ---- services --------------------------------------------------------------------------------------------

  /** The port is attached to a network that exists, under a MAC. */
  predicate Served(s: Inner, name: string)
  {
    Attached(s, name) && s.ports[name].network.value in s.networks && s.ports[name].mac.Some?
  }

  function GatewayOf(s: Inner, name: string): Ip
    requires Served(s, name)
  {
    s.networks[s.ports[name].network.value].net.gateway
  }

  /** A UDP datagram between these ports. */
  predicate Datagram(ip: Replies.Ipv4, sport: int, dport: int)
  {
    && ip.proto == 17 && |ip.payload| >= 8
    && Be16(ip.payload[0], ip.payload[1]) == sport && Be16(ip.payload[2], ip.payload[3]) == dport
  }

  /** A DNS query: a UDP datagram to the gateway's port 53. */
  predicate IsQuery(ip: Replies.Ipv4, gateway: Ip)
  {
    && ip.proto == 17 && |ip.payload| >= 8
    && Be16(ip.payload[2], ip.payload[3]) == 53 && ip.dst == gateway
  }

  /** The address a DHCP answer offers: its bytes 16 to 19; unspecified when it is shorter. */
  predicate Offers(dhcp: Bytes, ip: Ip)
  {
    if |dhcp| >= 20 then Be32(dhcp[16], dhcp[17], dhcp[18], dhcp[19]) == ip else ip == 0
  }

  /**
    What the services seam does with a parsed frame. DHCP, from port 68 to 67, is answered to the
    sender's MAC and the offered address; a DNS query at the gateway is answered to the port's
    MAC and the asking address and port; every other frame, and one the service itself does not
    answer, is passed on. Unserved ports get no service.
   */
  lemma ServiceMeans(s: Inner, name: string, frame: Bytes, env: Services, ip: Replies.Ipv4, offered: Ip)
    requires Replies.ParseIpv4(frame) == Replies.Just(ip) && |frame| >= 12
    requires env.dhcp.Some? ==> Offers(env.dhcp.value, offered)
    ensures var r := ServiceReply(s, name, frame, env);
      if !Served(s, name) then r.Nothing?
      else if Datagram(ip, 68, 67) then
        if env.dhcp.None? then r.Nothing?
        else r.Just? && Replies.IsReply(r.value, MacAt(frame, 6), GatewayOf(s, name), offered, 67, 68, env.dhcp.value)
      else if IsQuery(ip, GatewayOf(s, name)) && env.dns.Some? then
        && r.Just?
        && Replies.IsReply(r.value, s.ports[name].mac.value, GatewayOf(s, name), ip.src, 53,
                           Be16(ip.payload[0], ip.payload[1]), env.dns.value)
      else r.Nothing?
  {
    if Served(s, name) {
      if Datagram(ip, 68, 67) {
        DhcpMeans(s, name, frame, env, ip, offered);
      } else if IsQuery(ip, GatewayOf(s, name)) {
        DnsMeans(s, name, frame, env, ip);
      } else {
        NoService(s, name, frame, env, ip);
      }
    }
  }

  lemma DhcpMeans(s: Inner, name: string, frame: Bytes, env: Services, ip: Replies.Ipv4, offered: Ip)
    requires Served(s, name) && Replies.ParseIpv4(frame) == Replies.Just(ip) && |frame| >= 12
    requires env.dhcp.Some? ==> Offers(env.dhcp.value, offered)
    requires Datagram(ip, 68, 67)
    ensures var r := ServiceReply(s, name, frame, env);
      if env.dhcp.None? then r.Nothing?
      else r.Just? && Replies.IsReply(r.value, MacAt(frame, 6), GatewayOf(s, name), offered, 67, 68, env.dhcp.value)
  {
    if env.dhcp.Some? {
      Replies.WrapUdpIsReply(env.dhcp.value, MacAt(frame, 6), GatewayOf(s, name), offered, 67, 68);
      assert ReplyAddress(env.dhcp.value) == offered;
      SourceMac(frame);
    }
  }

  lemma SourceMac(frame: Bytes)
    requires Replies.ParseIpv4(frame).Just?
    ensures |frame| >= 12 && Frames.Parse(frame).Some? && Frames.Parse(frame).value.src == MacAt(frame, 6)
  {}

  lemma DnsMeans(s: Inner, name: string, frame: Bytes, env: Services, ip: Replies.Ipv4)
    requires Served(s, name) && Replies.ParseIpv4(frame) == Replies.Just(ip)
    requires IsQuery(ip, GatewayOf(s, name)) && !Datagram(ip, 68, 67)
    ensures var r := ServiceReply(s, name, frame, env);
      if env.dns.None? then r.Nothing?
      else r.Just? && Replies.IsReply(r.value, s.ports[name].mac.value, GatewayOf(s, name), ip.src, 53,
                                      Be16(ip.payload[0], ip.payload[1]), env.dns.value)
  {
    if env.dns.Some? {
      Replies.WrapUdpIsReply(env.dns.value, s.ports[name].mac.value, GatewayOf(s, name), ip.src, 53,
                             Be16(ip.payload[0], ip.payload[1]));
    }
  }

  lemma NoService(s: Inner, name: string, frame: Bytes, env: Services, ip: Replies.Ipv4)
    requires Served(s, name) && Replies.ParseIpv4(frame) == Replies.Just(ip)
    requires !Datagram(ip, 68, 67) && !IsQuery(ip, GatewayOf(s, name))
    ensures ServiceReply(s, name, frame, env).Nothing?
  {}

  /** Every service reply injected into a port parses as UDP from its own network's gateway, with a valid header. */
  lemma ServicesAnswerAsGateway(s: Inner, name: string, frame: Bytes, env: Services)
    requires ServiceReply(s, name, frame, env).Just?
    ensures var reply := ServiceReply(s, name, frame, env).value;
      && Attached(s, name) && s.ports[name].network.value in s.networks
      && Replies.ParseIpv4(reply).Just?
      && Replies.ParseIpv4(reply).value.src == s.networks[s.ports[name].network.value].net.gateway
      && Replies.ParseIpv4(reply).value.proto == Replies.IPPROTO_UDP
      && |reply| >= 42 && Checksum.Sum(reply[14..34]) == 0
  {
    var gateway := s.networks[s.ports[name].network.value].net.gateway;
    var ip := Replies.ParseIpv4(frame).value;
    var udp := Replies.ParseUdp(ip.payload).value;
    if udp.dport == DHCP_SERVER_PORT && udp.sport == DHCP_CLIENT_PORT {
      Replies.WrapUdpRoundTrip(env.dhcp.value, Frames.Parse(frame).value.src, gateway,
                               ReplyAddress(env.dhcp.value), DHCP_SERVER_PORT, DHCP_CLIENT_PORT);
    } else {
      Replies.WrapUdpRoundTrip(env.dns.value, s.ports[name].mac.value, gateway, ip.src, DNS_PORT, udp.sport);
    }
  }

  /** A served answer is the only thing that comes of the frame: one injection into the asking port. */
  lemma ServiceIsAllThatHappens(s: Inner, name: string, me: PortId, frame: Bytes, env: Services)
    requires ServiceReply(s, name, frame, env).Just?
    ensures Pump(s, name, me, frame, env)
      == Pumped(s, {Inject(name, ServiceReply(s, name, frame, env).value)}, false)
  {}

  /** An option-less echo request in the standard layout, at most as long as the accumulator takes. */
  predicate OrdinaryPing(frame: Bytes, gateway: Ip)
  {
    && 42 <= |frame| <= 34 + Checksum.MAX_SUMMABLE && frame[12] == 8 && frame[13] == 0
    && frame[14] == 0x45 && frame[23] == 1 && Replies.IpAt(frame, 30) == gateway && frame[34] == 8
  }

  /** Every ordinary ping of the gateway is answered, into the asking port alone, with valid checksums. */
  lemma PingIsAnswered(s: Inner, name: string, me: PortId, frame: Bytes, env: Services)
    requires Served(s, name) && OrdinaryPing(frame, GatewayOf(s, name))
    ensures exists r ::
      && Pump(s, name, me, frame, env) == Pumped(s, {Inject(name, r)}, false)
      && |r| == |frame| && Replies.HeaderAnswered(GatewayOf(s, name), s.ports[name].mac.value, frame, 34, r)
      && Replies.MessageAnswered(frame, 34, r) && Checksum.Sum(r[34..]) == 0
  {
    var gateway, mac := GatewayOf(s, name), s.ports[name].mac.value;
    PingIsEcho(frame, gateway);
    Replies.ShortEchoFits(gateway, frame);
    Replies.EchoPanicsIff(gateway, mac, frame, env.checked);
    var r := Replies.EchoReply(gateway, mac, frame, env.checked);
    PingPassesServices(s, name, me, frame, env, r);
    Replies.EchoReplyVerifies(gateway, mac, frame, env.checked, 34, r.value);
  }

  lemma PingIsEcho(frame: Bytes, gateway: Ip)
    requires OrdinaryPing(frame, gateway)
    ensures Replies.HeaderEnd(frame) == 34 && Replies.IsGatewayEcho(gateway, frame)
  {
    assert frame[34..][0] == frame[34];
  }

  lemma PingPassesServices(s: Inner, name: string, me: PortId, frame: Bytes, env: Services, r: Replies.Outcome<Bytes>)
    requires Served(s, name) && Replies.IsGatewayEcho(GatewayOf(s, name), frame)
    requires r == Replies.EchoReply(GatewayOf(s, name), s.ports[name].mac.value, frame, env.checked) && !r.Panic?
    ensures r.Just? && Pump(s, name, me, frame, env) == Pumped(s, {Inject(name, r.value)}, false)
  {}

  // ---- panics ---------------------------------------------------------------------------------------

  /**
    The pump takes the shared lock down with it on exactly two kinds of frame from a served
    port: a 14-byte one with the IPv4 ethertype, and, where the build checks arithmetic, an
    echo request to the gateway whose ICMP words sum beyond 32 bits.
   */
  lemma PumpPanicsIff(s: Inner, name: string, me: PortId, frame: Bytes, env: Services)
    ensures Pump(s, name, me, frame, env).panics <==>
      && Served(s, name)
      && var gateway := s.networks[s.ports[name].network.value].net.gateway;
         || (|frame| == 14 && Frames.Ethertype(frame) == Some(Frames.ETHERTYPE_IPV4))
         || (env.checked && Replies.IsGatewayEcho(gateway, frame) && Replies.EchoSum(gateway, frame) > U32_MAX)
  {
    Replies.ParsePanicsIff(frame);
    if Served(s, name) {
      Replies.EchoPanicsIff(s.networks[s.ports[name].network.value].net.gateway, s.ports[name].mac.value, frame,
                            env.checked);
    }
  }

  /** No frame of 15 to 131108 bytes panics the pump, in any build. */
  lemma OrdinaryFramesDoNotPanic(s: Inner, name: string, me: PortId, frame: Bytes, env: Services)
    requires 15 <= |frame| <= 34 + Checksum.MAX_SUMMABLE
    ensures !Pump(s, name, me, frame, env).panics
  {
    PumpPanicsIff(s, name, me, frame, env);
    if Served(s, name) {
      var gateway := s.networks[s.ports[name].network.value].net.gateway;
      if Replies.IsGatewayEcho(gateway, frame) { Replies.ShortEchoFits(gateway, frame); }
    }
  }
}
