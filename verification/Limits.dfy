/**
  Promises the daemon does not keep, each with a run or an input that breaks it. The exact
  conditions under which it does keep them are proved beside the operations.
 */
module Limits {
  import opened Base
  import opened Daemon
  import opened Reservation
  import Checksum
  import Cidr
  import Coherence
  import Dhcp
  import Frames
  import Ipam
  import Isolation
  import Passt
  import Publish
  import Readers
  import Replies
  import Ring
  import Rpcs

  const PARAMS: NetParams := NetParams("n", 0, 0, 1, 10, 20, "{}")
  const MAC: Mac := Mac(2, 0, 0, 0, 0, 1)

  const NET: Cidr.Network := Cidr.Network("n", Cidr.Block(0, 0), 1, Cidr.Pool(10, 20))

  /** A network, a port, and the port attached to the network. */
  function AttachOn(w: World): World
  {
    Step(Step(Step(w, RpcCreateNetwork(PARAMS, Saved)), RpcCreatePort("p", true, Saved)),
         RpcAttachPort("p", "n", MAC, true, 0, Saved))
  }

  function OneAttached(): World
  {
    AttachOn(GENESIS)
  }

  /** One port attached to one network, its MAC bound, its passt wanting no forwards, nothing published. */
  predicate OnePort(w: World)
  {
    && !w.poisoned
    && w.inner.networks == map["n" := NetworkEntry(NET, map[MAC := 10], PARAMS)]
    && w.inner.ports == map["p" := LivePort(1, Some("n"), Some(MAC))]
    && w.inner.passts.Keys == {"p"} && w.inner.passts["p"].desired.forwards == []
  }

  lemma OneAttachedIs()
    ensures OnePort(OneAttached()) && OneAttached().inner.publish == map[]
  {
    AttachFrom(GENESIS);
  }

  lemma NoForwards()
    ensures Passt.ForwardsOf(map[]) == []
  {
    var fs := Passt.ForwardsOf(map[]);
    assert fs == [] || fs[0] in fs;
    Passt.ForwardsDetermineSlice(map[], map[]);
  }

  /** The same three calls on any freshly started daemon. */
  lemma AttachFrom(w: World)
    requires !w.poisoned && w.inner == Start(w.inner.publish)
    ensures OnePort(AttachOn(w)) && AttachOn(w).inner.publish == w.inner.publish && AttachOn(w).inner.nextPortId == 2
  {
    assert !Cidr.IsBlank("n") by { assert !Cidr.IsSpace("n"[0]); }
    assert Cidr.NewNetwork("n", 0, 0, 1, Cidr.Pool(10, 20)) == Ok(NET);
    var w1 := Step(w, RpcCreateNetwork(PARAMS, Saved));
    assert w1.inner.networks == map["n" := NetworkEntry(NET, map[], PARAMS)];
    var w2 := Step(w1, RpcCreatePort("p", true, Saved));
    assert w2.inner.ports == map["p" := LivePort(1, None, None)];
    JoinFirst(w2);
  }

  lemma JoinFirst(w: World)
    requires !w.poisoned && w.inner.networks == map["n" := NetworkEntry(NET, map[], PARAMS)]
    requires w.inner.ports == map["p" := LivePort(1, None, None)] && w.inner.passts == map[]
    ensures var w' := Step(w, RpcAttachPort("p", "n", MAC, true, 0, Saved));
      OnePort(w') && w'.inner.publish == w.inner.publish && w'.inner.nextPortId == w.inner.nextPortId
  {
    var empty: Ipam.Table := map[];
    assert Ipam.Allocate(NET, empty, MAC) == (map[MAC := 10], Ok(10));
    NoForwards();
    JoinPorts(WithBindings(w.inner, "n", map[MAC := 10]), "p", "n", MAC, 10, true, 0, true);
    Rpcs.JoinKeeps(WithBindings(w.inner, "n", map[MAC := 10]), "p", "n", MAC, 10, true, 0, true);
  }

  /** The port is attached and its MAC has no binding. */
  predicate Stranded(w: World)
  {
    Attached(w.inner, "p") && !PortReserved(w.inner, "p")
  }

  /** Deleting a network under an attached port succeeds and leaves the port without a reservation. */
  lemma DeletedNetworkStrandsPort()
    ensures Stranded(Step(OneAttached(), RpcDeleteNetwork("n", Saved)))
  {
    OneAttachedIs();
    StrandedFrom(OneAttached());
  }

  /** Releasing the MAC of an attached port succeeds and leaves the port without a reservation. */
  lemma ReleasedMacStrandsPort()
    ensures Stranded(Step(OneAttached(), RpcReleaseIp("n", MAC, Saved)))
  {
    OneAttachedIs();
    StrandedFrom(OneAttached());
  }

  lemma StrandedFrom(w: World)
    requires OnePort(w)
    ensures Stranded(Step(w, RpcDeleteNetwork("n", Saved))) && Stranded(Step(w, RpcReleaseIp("n", MAC, Saved)))
  {}

  /** Two attached ports with one address. */
  predicate Sharing(w: World)
  {
    && PortReserved(w.inner, "p") && PortReserved(w.inner, "q")
    && AddressOf(w.inner, "p") == AddressOf(w.inner, "q")
  }

  /** One MAC can be attached on two ports of a network, which then share an address. */
  lemma MacAttachedTwice()
    ensures Sharing(Step(Step(OneAttached(), RpcCreatePort("q", true, Saved)),
                         RpcAttachPort("q", "n", MAC, true, 0, Saved)))
  {
    OneAttachedIs();
    SecondPort(OneAttached());
    SecondHolder(Step(OneAttached(), RpcCreatePort("q", true, Saved)));
  }

  lemma SecondPort(w: World)
    requires OnePort(w)
    ensures var w' := Step(w, RpcCreatePort("q", true, Saved));
      && !w'.poisoned && w'.inner.networks == w.inner.networks
      && Holds(w'.inner, "p", "n", MAC) && "q" in w'.inner.ports && w'.inner.ports["q"].network.None?
  {}

  lemma SecondHolder(w: World)
    requires !w.poisoned && w.inner.networks == map["n" := NetworkEntry(NET, map[MAC := 10], PARAMS)]
    requires Holds(w.inner, "p", "n", MAC) && "q" in w.inner.ports && w.inner.ports["q"].network.None?
    ensures Sharing(Step(w, RpcAttachPort("q", "n", MAC, true, 0, Saved)))
  {
    assert Ipam.Allocate(NET, map[MAC := 10], MAC) == (map[MAC := 10], Ok(10));
    JoinPorts(WithBindings(w.inner, "n", map[MAC := 10]), "q", "n", MAC, 10, true, 0, true);
  }

  /** An unattached port with a passt slot. */
  predicate SlotLeftBehind(w: World)
  {
    !Attached(w.inner, "p") && "p" in w.inner.passts
  }

  /** A detach whose save fails leaves a passt slot for a port that is no longer attached. */
  lemma FailedDetachKeepsSlot()
    ensures SlotLeftBehind(Step(OneAttached(), RpcDetachPort("p", NotRenamed)))
  {
    OneAttachedIs();
    DetachFails(OneAttached());
  }

  lemma DetachFails(w: World)
    requires OnePort(w)
    ensures SlotLeftBehind(Step(w, RpcDetachPort("p", NotRenamed)))
  {
    DetachDeparts(w.inner, "p", false);
    Coherence.DetachSlot(w.inner, "p", false);
  }

  lemma FirstPort()
    ensures Publish.Allocate(map[], "p", 80, PUBLISH_LO, PUBLISH_HI) == (map["p" := map[80 := 20000]], Some(20000))
  {
    var empty: Publish.Table := map[];
    assert !Publish.InUse(empty, 20000);
  }

  lemma PublishFirst(w: World)
    requires !w.poisoned && Attached(w.inner, "p") && w.inner.publish == map[]
    ensures var w' := Step(w, RpcPublishPort("p", 80, Saved, true, 0));
      !w'.poisoned && w'.inner.publish == map["p" := map[80 := 20000]] && w'.inner.ports == w.inner.ports
  {
    FirstPort();
  }

  /** An entry in the table that the port's passt does not forward. */
  predicate NotForwarded(w: World)
  {
    && Attached(w.inner, "p") && Publish.SliceOf(w.inner.publish, "p") == map[80 := 20000]
    && "p" in w.inner.passts && w.inner.passts["p"].desired.forwards == []
  }

  /** A publish whose save fails leaves an entry that the port's passt does not forward. */
  lemma FailedPublishForwardsNothing()
    ensures NotForwarded(Step(OneAttached(), RpcPublishPort("p", 80, NotRenamed, true, 0)))
  {
    OneAttachedIs();
    PublishFails(OneAttached());
  }

  lemma PublishFails(w: World)
    requires OnePort(w) && w.inner.publish == map[]
    ensures NotForwarded(Step(w, RpcPublishPort("p", 80, NotRenamed, true, 0)))
  {
    FirstPort();
  }

  lemma UnpublishOnly(w: World)
    requires !w.poisoned && w.inner.publish == map["p" := map[80 := 20000]]
    ensures var w' := Step(w, RpcUnpublishPort("p", 80, Saved, true, 0));
      w'.inner.ports == w.inner.ports && "p" !in w'.inner.passts
  {
    assert Publish.Remove(w.inner.publish, "p", 80) == (map[], Some(20000));
  }

  /** Publishing and then unpublishing one forward leaves an attached VM with no WAN process at all. */
  lemma UnpublishingEndsWan()
    ensures var w := Step(Step(OneAttached(), RpcPublishPort("p", 80, Saved, true, 0)),
                          RpcUnpublishPort("p", 80, Saved, true, 0));
      Attached(w.inner, "p") && "p" !in w.inner.passts
  {
    OneAttachedIs();
    PublishFirst(OneAttached());
    UnpublishOnly(Step(OneAttached(), RpcPublishPort("p", 80, Saved, true, 0)));
  }

  /** Attach, publish, restart: the published entry comes back, the port does not. */
  function Restarted(): World
  {
    Step(Step(OneAttached(), RpcPublishPort("p", 80, Saved, true, 0)), Restart)
  }

  /**
    A restart that brings a published entry back, then the same network, port and attachment
    again: the port's passt runs with no forwards although the table holds one.
   */
  lemma RestoredForwardIsLost()
    ensures NotForwarded(AttachOn(Restarted()))
  {
    OneAttachedIs();
    FirstIsSaved(OneAttached());
    AttachFrom(Restarted());
  }

  lemma FirstIsSaved(w: World)
    requires !w.poisoned && Attached(w.inner, "p") && w.inner.publish == map[]
    ensures Step(w, RpcPublishPort("p", 80, Saved, true, 0)).disk.live == map["p" := map[80 := 20000]]
  {
    FirstPort();
  }

  /**
    AttachPort starts the port's passt with no forwards. After a restart the publish table may
    still hold entries for it; the slot then agrees with the table iff there are none.
   */
  lemma AttachIgnoresRestoredForwards(s: Inner, port: string, network: string, mac: Mac,
    spawned: bool, now: nat, saved: bool)
    requires port in s.ports && s.ports[port].network.None? && network in s.networks
    requires Ipam.Allocate(s.networks[network].net, s.networks[network].bindings, mac).1.Ok?
    ensures var s' := AttachPort(s, port, network, mac, spawned, now, saved).inner;
      && port in s'.passts
      && (s'.passts[port].desired.forwards == Passt.ForwardsOf(Publish.SliceOf(s'.publish, port))
          <==> Publish.SliceOf(s.publish, port) == map[])
  {
    Passt.ForwardsDetermineSlice(map[], Publish.SliceOf(s.publish, port));
  }

  // ---- frames that take the daemon down ------------------------------------------------------------------

  const RUNT: Bytes := [0, 0, 0, 0, 0, 0, 0, 0, 0, 0, 0, 0, 8, 0]

  /** One 14-byte frame from an attached VM, and no RPC does anything any more. */
  lemma RuntPoisonsLock(env: Services, e: Event)
    requires IsRpc(e)
    ensures var w := Step(OneAttached(), Frame("p", 1, RUNT, env));
      w.poisoned && Step(w, e) == w
  {
    OneAttachedIs();
    RuntFrom(OneAttached(), env);
  }

  lemma RuntFrom(w: World, env: Services)
    requires OnePort(w)
    ensures Step(w, Frame("p", 1, RUNT, env)).poisoned
  {
    Isolation.PumpPanicsIff(w.inner, "p", 1, RUNT, env);
  }

  /** An option-less IP header from 0.0.0.2 to the gateway 0.0.0.1, carrying ICMP. */
  const HEADER: Bytes := [0x45, 0, 0, 0, 0, 0, 0, 0, 64, 1, 0, 0, 0, 0, 0, 2, 0, 0, 0, 1]

  /** An echo request for the gateway with the given data after type, code and checksum. */
  function Ping(data: Bytes): Bytes
  {
    Replies.EthernetHeader(Replies.GatewayMac(1), MAC, Frames.ETHERTYPE_IPV4) + HEADER + ([8, 0, 0, 0] + data)
  }

  lemma PingParses(data: Bytes)
    requires |data| >= 4
    ensures |Ping(data)| == 38 + |data| && Ping(data)[34..] == [8, 0, 0, 0] + data
    ensures Replies.IsGatewayEcho(1, Ping(data)) && Replies.HeaderEnd(Ping(data)) == 34
  {
    var eth := Replies.EthernetHeader(Replies.GatewayMac(1), MAC, Frames.ETHERTYPE_IPV4);
    var icmp := [8, 0, 0, 0] + data;
    Replies.StandardParses(eth, Replies.GatewayMac(1), MAC, HEADER, icmp);
    Replies.Concatenated(eth, HEADER, icmp);
    assert Ping(data)[14] == Ping(data)[14..34][0] == 0x45;
  }

  lemma PingSum(data: Bytes)
    ensures Checksum.WordSum(Replies.EchoCleared([8, 0, 0, 0] + data)) == Checksum.WordSum(data)
  {
    assert Replies.EchoCleared([8, 0, 0, 0] + data) == [0, 0, 0, 0] + data;
    Checksum.WordSumSplit([0, 0, 0, 0], data);
    assert [0, 0, 0, 0][2..] == [0, 0] && [0, 0][2..] == [];
  }

  predicate AllOnes(data: Bytes)
  {
    forall i :: 0 <= i < |data| ==> data[i] == 0xff
  }

  /** With 131080 bytes of ones for data, the ICMP words sum past 32 bits exactly once. */
  lemma LongPing(data: Bytes)
    requires |data| == 131080 && AllOnes(data)
    ensures Replies.IsGatewayEcho(1, Ping(data))
    ensures Replies.EchoSum(1, Ping(data)) == 0xffff * 65540
  {
    PingParses(data);
    PingSum(data);
    OnesSum(data);
  }

  lemma OnesSum(data: Bytes)
    requires |data| == 131080 && AllOnes(data)
    ensures Checksum.WordSum(data) == 0xffff * 65540
  {
    Checksum.WordSumOfOnes(data);
  }

  /** In a build that checks arithmetic, that ping takes the lock down too. */
  lemma LongPingPoisonsLock(data: Bytes, env: Services)
    requires |data| == 131080 && AllOnes(data) && env.checked
    ensures Step(OneAttached(), Frame("p", 1, Ping(data), env)).poisoned
  {
    OneAttachedIs();
    LongPingFrom(OneAttached(), data, env);
  }

  lemma LongPingFrom(w: World, data: Bytes, env: Services)
    requires OnePort(w) && |data| == 131080 && AllOnes(data) && env.checked
    ensures Step(w, Frame("p", 1, Ping(data), env)).poisoned
  {
    LongPing(data);
    Isolation.PumpPanicsIff(w.inner, "p", 1, Ping(data), env);
  }

  /** In one that does not, it is answered with an ICMP checksum that does not verify. */
  lemma LongPingUnverified(data: Bytes)
    requires |data| == 131080 && AllOnes(data)
    ensures var r := Replies.EchoReply(1, MAC, Ping(data), false);
      r.Just? && |r.value| == |Ping(data)| && Checksum.Sum(r.value[34..]) != 0
  {
    LongPing(data);
    PingParses(data);
    Replies.EchoPanicsIff(1, MAC, Ping(data), false);
    Replies.EchoMessagePart(1, MAC, Ping(data), false, 34, Replies.EchoReply(1, MAC, Ping(data), false).value);
    OneWrap();
  }

  lemma OneWrap()
    ensures !Checksum.WrapsCancel(0xffff * 65540)
  {}

  // ---- frames misread ------------------------------------------------------------------------------------

  /** An IPv4 frame from the VM to the gateway 0.0.0.1. */
  function FromVm(header: Bytes, pdu: Bytes): Bytes
  {
    Replies.EthernetHeader(Replies.GatewayMac(1), MAC, Frames.ETHERTYPE_IPV4) + header + pdu
  }

  lemma FromVmParts(header: Bytes, pdu: Bytes)
    requires |header| >= 20
    ensures var f := FromVm(header, pdu);
      && |f| == 14 + |header| + |pdu| && Frames.Ethertype(f) == Some(Frames.ETHERTYPE_IPV4)
      && f[14..14 + |header|] == header && f[14 + |header|..] == pdu
  {
    var eth := Replies.EthernetHeader(Replies.GatewayMac(1), MAC, Frames.ETHERTYPE_IPV4);
    Replies.Concatenated(eth, header, pdu);
    Replies.EthertypeOf(FromVm(header, pdu), Replies.GatewayMac(1), MAC, Frames.ETHERTYPE_IPV4);
  }

  lemma SliceAt(f: Bytes, lo: nat, hi: nat, part: Bytes)
    requires lo <= hi <= |f| && f[lo..hi] == part
    ensures forall i {:trigger f[i]} :: lo <= i < hi ==> f[i] == part[i - lo]
  {
    assert forall i {:trigger f[i]} :: lo <= i < hi ==> f[i] == f[lo..hi][i - lo];
  }

  /** Twenty bytes of header in the layout without a TTL byte: ICMP, from 0.0.0.2 to 0.0.0.1, then the ICMP type. */
  const TTL_LESS: Bytes := [0x45, 0, 0, 0, 0, 0, 0, 0, 1, 0, 0, 0, 0, 0, 2, 0, 0, 0, 1, 8]

  lemma TtlLessIsEcho(frame: Bytes)
    requires |frame| == 41 && frame[14..34] == TTL_LESS && Frames.Ethertype(frame) == Some(Frames.ETHERTYPE_IPV4)
    ensures Replies.HeaderEnd(frame) == 34 && frame[23] == 0 && Replies.IsGatewayEcho(1, frame)
  {
    SliceAt(frame, 14, 34, TTL_LESS);
    assert frame[14] == 0x45 && frame[22] == 1 && frame[23] == 0;
    assert frame[29] == 0 && frame[30] == 0 && frame[31] == 0 && frame[32] == 1 && frame[33] == 8;
  }

  /** An echo request under that header is answered, with a frame that the daemon's own parser rejects. */
  lemma TtlLessPingUnreadable(rest: Bytes, checked: bool)
    requires |rest| == 7
    ensures var r := Replies.EchoReply(1, MAC, FromVm(TTL_LESS, rest), checked);
      r.Just? && !Replies.ParseIpv4(r.value).Just?
  {
    FromVmParts(TTL_LESS, rest);
    TtlLessIsEcho(FromVm(TTL_LESS, rest));
    RejectedReply(FromVm(TTL_LESS, rest), checked);
  }

  lemma RejectedReply(frame: Bytes, checked: bool)
    requires |frame| == 41 && Replies.HeaderEnd(frame) == 34 && frame[23] == 0 && Replies.IsGatewayEcho(1, frame)
    ensures var r := Replies.EchoReply(1, MAC, frame, checked);
      r.Just? && !Replies.ParseIpv4(r.value).Just?
  {
    Replies.ShortEchoFits(1, frame);
    Replies.EchoPanicsIff(1, MAC, frame, checked);
    Replies.EchoReplyParses(1, MAC, frame, checked, Replies.EchoReply(1, MAC, frame, checked).value);
  }

  /** A header of a UDP datagram from 10.1.0.2 to 10.0.0.9, with four bytes of options. */
  const WITH_OPTIONS: Bytes := [0x46, 0, 0, 0, 0, 0, 0, 0, 64, 17, 0, 0, 10, 1, 0, 2, 10, 0, 0, 9, 1, 1, 1, 0]

  predicate OptionBytes(f: Bytes)
  {
    && |f| >= 38 && f[14] == 0x46 && f[23] == 17
    && f[26] == 10 && f[27] == 1 && f[28] == 0 && f[29] == 2
    && f[30] == 10 && f[31] == 0 && f[32] == 0 && f[33] == 9
    && f[34] == 1 && f[35] == 1 && f[36] == 1 && f[37] == 0
  }

  lemma HasOptionBytes(f: Bytes)
    requires |f| >= 38 && f[14..38] == WITH_OPTIONS
    ensures OptionBytes(f)
  {
    SliceAt(f, 14, 38, WITH_OPTIONS);
  }

  lemma MisreadBytes(f: Bytes)
    requires OptionBytes(f) && Frames.Ethertype(f) == Some(Frames.ETHERTYPE_IPV4)
    ensures Replies.HeaderEnd(f) == 38
    ensures Replies.HeaderFields(f) == Replies.Ipv4(0x0a01_0002, 0x0a00_0009, Replies.IPPROTO_UDP, f[38..])
    ensures Replies.ParseIpv4(f) == Replies.Just(Replies.Ipv4(0x0a00_0009, 0x0101_0100, Replies.IPPROTO_ICMP, f[38..]))
  {}

  /** The parser takes its destination for its source, its options for its destination, and UDP for ICMP. */
  lemma OptionsMisread(pdu: Bytes)
    ensures var f := FromVm(WITH_OPTIONS, pdu);
      && |f| >= 38 && Replies.HeaderEnd(f) == 38
      && Replies.HeaderFields(f) == Replies.Ipv4(0x0a01_0002, 0x0a00_0009, Replies.IPPROTO_UDP, pdu)
      && Replies.ParseIpv4(f) == Replies.Just(Replies.Ipv4(0x0a00_0009, 0x0101_0100, Replies.IPPROTO_ICMP, pdu))
  {
    FromVmParts(WITH_OPTIONS, pdu);
    HasOptionBytes(FromVm(WITH_OPTIONS, pdu));
    MisreadBytes(FromVm(WITH_OPTIONS, pdu));
  }

  // ---- DHCP ------------------------------------------------------------------------------------------------

  /** An accepted network whose pool starts at 0.0.0.0. */
  const ZERO_NET: Cidr.Network := Cidr.Network("n", Cidr.Block(0, 0), 30, Cidr.Pool(0, 20))

  function Ask(kind: Dhcp.Kind, requested: Option<Ip>): Dhcp.Message
  {
    Dhcp.Message(true, true, MAC, Some(kind), requested, 0, 7, 0)
  }

  /** There the first MAC is bound to 0.0.0.0, and a request that names no address is acknowledged. */
  lemma BareRequestAcknowledged()
    ensures Cidr.NewNetwork("n", 0, 0, 30, Cidr.Pool(0, 20)) == Ok(ZERO_NET)
    ensures var (t, offer) := Dhcp.Process(ZERO_NET, map[], Ask(Dhcp.Discover, None));
      var ack := Dhcp.Process(ZERO_NET, t, Ask(Dhcp.Request, None)).1;
      ack.Some? && ack.value.kind == Dhcp.Ack && ack.value.yiaddr == 0
  {
    assert !Cidr.IsBlank("n") by { assert !Cidr.IsSpace("n"[0]); }
    var empty: Ipam.Table := map[];
    assert Ipam.Allocate(ZERO_NET, empty, MAC) == (map[MAC := 0], Ok(0));
  }

  /** With a fresh server per exchange, an address offered to a MAC without a reservation is then refused. */
  lemma OfferIsForgotten()
    ensures var offer := Dhcp.Process(NET, map[], Ask(Dhcp.Discover, None)).1;
      && offer.Some? && offer.value.kind == Dhcp.Offer && offer.value.yiaddr == 10
      && Dhcp.Process(NET, map[], Ask(Dhcp.Request, Some(10))).1 == Some(Dhcp.Refuse(Ask(Dhcp.Request, Some(10))))
  {
    var empty: Ipam.Table := map[];
    assert Ipam.Allocate(NET, empty, MAC) == (map[MAC := 10], Ok(10));
  }

  // ---- the ingress readers ---------------------------------------------------------------------------------

  /** Network, port and attachment, then the port deleted and created and attached again under its name. */
  function Recreated(): Readers.Fleet
  {
    AttachFleet(CreateFleet(Readers.Next(AttachFleet(CreateFleet(
      Readers.Next(Readers.FIRST, Readers.Core(RpcCreateNetwork(PARAMS, Saved))))),
      Readers.Core(RpcDeletePort("p", Saved)))))
  }

  function CreateFleet(f: Readers.Fleet): Readers.Fleet
  {
    Readers.Next(f, Readers.Core(RpcCreatePort("p", true, Saved)))
  }

  function AttachFleet(f: Readers.Fleet): Readers.Fleet
  {
    Readers.Next(f, Readers.Core(RpcAttachPort("p", "n", MAC, true, 0, Saved)))
  }

  /** The network with no bindings, the port of that id unattached or missing, no slot. */
  predicate Idle(w: World, ports: map<string, LivePort>, next: PortId)
  {
    && !w.poisoned && w.inner.networks == map["n" := NetworkEntry(NET, map[], PARAMS)]
    && w.inner.ports == ports && w.inner.nextPortId == next && w.inner.passts == map[]
  }

  lemma NetworkOnly(f: Readers.Fleet)
    requires f == Readers.FIRST
    ensures Idle(Readers.Next(f, Readers.Core(RpcCreateNetwork(PARAMS, Saved))).world, map[], 1)
  {
    assert !Cidr.IsBlank("n") by { assert !Cidr.IsSpace("n"[0]); }
    assert Cidr.NewNetwork("n", 0, 0, 1, Cidr.Pool(10, 20)) == Ok(NET);
  }

  lemma CreateAdds(f: Readers.Fleet, id: PortId)
    requires Idle(f.world, map[], id) && id < 10
    ensures var f' := CreateFleet(f);
      && Idle(f'.world, map["p" := LivePort(id, None, None)], id + 1)
      && f'.readers == f.readers + {Readers.Reader("p", id, None)}
  {}

  /** Port "p" of that id attached, with a running slot. */
  predicate Running(w: World, id: PortId)
  {
    && id < 10 && !w.poisoned && w.inner.nextPortId == id + 1
    && w.inner.networks == map["n" := NetworkEntry(NET, map[MAC := 10], PARAMS)]
    && w.inner.ports == map["p" := LivePort(id, Some("n"), Some(MAC))]
    && w.inner.passts.Keys == {"p"} && w.inner.passts["p"].live
  }

  lemma AttachRuns(w: World, id: PortId)
    requires id < 10 && Idle(w, map["p" := LivePort(id, None, None)], id + 1)
    ensures Running(Step(w, RpcAttachPort("p", "n", MAC, true, 0, Saved)), id)
  {
    var empty: Ipam.Table := map[];
    assert Ipam.Allocate(NET, empty, MAC) == (map[MAC := 10], Ok(10));
    var s := WithBindings(w.inner, "n", map[MAC := 10]);
    Rpcs.JoinKeeps(s, "p", "n", MAC, 10, true, 0, true);
    assert Join(s, "p", "n", MAC, 10, true, 0, true).inner.passts["p"].live;
  }

  lemma AttachClaims(f: Readers.Fleet, id: PortId)
    requires id < 10 && Idle(f.world, map["p" := LivePort(id, None, None)], id + 1)
    ensures var f' := AttachFleet(f);
      f'.readers == f.readers && Running(f'.world, id) && f'.owners == map["p" := id]
  {
    AttachRuns(f.world, id);
    ClaimedAt(f.world, id);
  }

  lemma ClaimedAt(w: World, id: PortId)
    requires id < 10 && Idle(w, map["p" := LivePort(id, None, None)], id + 1)
    ensures Readers.Claims(w, RpcAttachPort("p", "n", MAC, true, 0, Saved), "p")
  {
    var empty: Ipam.Table := map[];
    assert Ipam.Allocate(NET, empty, MAC) == (map[MAC := 10], Ok(10));
  }

  lemma DeleteEmpties(f: Readers.Fleet)
    requires Running(f.world, 1)
    ensures var f' := Readers.Next(f, Readers.Core(RpcDeletePort("p", Saved)));
      Idle(f'.world, map[], 2) && f'.readers == f.readers
  {
    Coherence.DeleteSlot(f.world.inner, "p", true);
    assert map[MAC := 10 as Ip] - {MAC} == map[];
  }

  /**
    The reader of the deleted port, had it not looked in between, adopts the new port's passt,
    and what it reads goes to the old port's channel.
   */
  lemma OldReaderStealsFrames(frame: Bytes)
    requires |frame| >= 12
    ensures var f := Readers.Next(Recreated(), Readers.Look(Readers.Reader("p", 1, None), true));
      Readers.Arrival(2, 1, frame) in Readers.Arrivals(f, Readers.Read(Readers.Reader("p", 1, Some(2)), frame, false))
  {
    var f0 := Readers.Next(Readers.FIRST, Readers.Core(RpcCreateNetwork(PARAMS, Saved)));
    NetworkOnly(Readers.FIRST);
    CreateAdds(f0, 1);
    AttachClaims(CreateFleet(f0), 1);
    var f1 := Readers.Next(AttachFleet(CreateFleet(f0)), Readers.Core(RpcDeletePort("p", Saved)));
    DeleteEmpties(AttachFleet(CreateFleet(f0)));
    CreateAdds(f1, 2);
    AttachClaims(CreateFleet(f1), 2);
    LookAdopts(Recreated());
  }

  lemma LookAdopts(f: Readers.Fleet)
    requires !f.world.poisoned && Readers.Reader("p", 1, None) in f.readers && f.owners == map["p" := 2]
    requires "p" in f.world.inner.passts && f.world.inner.passts["p"].live
    ensures Readers.Reader("p", 1, Some(2))
      in Readers.Next(f, Readers.Look(Readers.Reader("p", 1, None), true)).readers
  {}

  // ---- the ring --------------------------------------------------------------------------------------------

  /** After a reconnect with the first of two chains in flight, the guest posts the second before any service call. */
  predicate LateReconnect(v: Ring.Vring, first: Ring.Chain, second: Ring.Chain, frame: Bytes)
  {
    v == Ring.Vring(2, [first, second], 2, 1, 0, [frame], []) && second.writable
  }

  /** The in-flight chain is passed over: the second one is completed in its place. */
  lemma LateReconnectSkips(v: Ring.Vring, first: Ring.Chain, second: Ring.Chain, frame: Bytes)
    requires LateReconnect(v, first, second, frame)
    ensures Ring.Tracks(v, [first, second], 1, 0)
    ensures Ring.Service(v).used == [Ring.Place(second, frame)]
  {
    LateTracks(v, first, second, frame);
    SecondServed(v, [first, second], frame);
  }

  lemma LateTracks(v: Ring.Vring, first: Ring.Chain, second: Ring.Chain, frame: Bytes)
    requires LateReconnect(v, first, second, frame)
    ensures Ring.Tracks(v, [first, second], 1, 0)
  {}

  lemma SecondServed(v: Ring.Vring, posted: seq<Ring.Chain>, frame: Bytes)
    requires Ring.Tracks(v, posted, 1, 0) && |posted| == 2 && posted[1].writable
    requires v.channel == [frame] && v.used == []
    ensures Ring.Service(v).used == [Ring.Place(posted[1], frame)]
  {
    Ring.ServiceSkipsInFlight(v, posted, 1, 0);
    ServeOne(posted[1..], posted[1], frame);
  }

  lemma ServeOne(chains: seq<Ring.Chain>, c: Ring.Chain, frame: Bytes)
    requires chains == [c] && c.writable
    ensures Ring.Serve(chains, [frame]).0 == [Ring.Place(c, frame)]
  {
    assert chains[1..] == [];
  }
}
