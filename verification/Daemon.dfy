/**
  The daemon's shared state and everything that acts on it (dataplane.rs): the control-plane
  RPCs, the per-port frame pump, the passt supervisor and ingress reader, crashes and restarts.

  Every handler is a function of the state and of what its environment answered: whether the
  state file could be saved, whether a socket could be bound, whether a process spawned, and
  what the clock read. Handlers that fail midway return the partly changed state they leave.
 */
module Daemon {
  import opened Base
  import Cidr
  import Fabric
  import Frames
  import Framing
  import Gateway
  import Ipam
  import Passt
  import Publish
  import Replies

  // ---- state ------------------------------------------------------------------------------------

  datatype LivePort = LivePort(id: PortId, network: Option<string>, mac: Option<Mac>)

  /** CreateNetwork parameters, decoded and as sent: a repeated call must send the very same object. */
  datatype NetParams = NetParams(name: string, addr: Ip, prefix: byte, gateway: Ip, start: Ip, end: Ip, sent: string)

  datatype NetworkEntry = NetworkEntry(net: Cidr.Network, bindings: Ipam.Table, createdWith: NetParams)

  datatype Inner = Inner(
    networks: map<string, NetworkEntry>,
    ports: map<string, LivePort>,
    names: map<PortId, string>,
    nextPortId: PortId,
    switch: Fabric.Switch,
    gateway: Gateway.Gateway,
    passts: map<string, Passt.Slot>,
    publish: Publish.Table)

  const PUBLISH_LO: u16 := 20000
  const PUBLISH_HI: u16 := 21000

  /** A daemon just started on a restored publish table. */
  function Start(publish: Publish.Table): Inner
  {
    Inner(map[], map[], map[], 1, Fabric.EMPTY, Gateway.EMPTY, map[], publish)
  }

  datatype RpcError = NotFound | Conflict | InvalidParams | Internal

  datatype Value = Null | Address(ip: Ip) | HostPort(port: u16)

  /** What an RPC leaves: the state, its result, and whether it got as far as saving. */
  datatype Done = Done(inner: Inner, result: Result<Value, RpcError>, saves: bool)

  function Refused(s: Inner, e: RpcError): Done
  {
    Done(s, Err(e), false)
  }

  /** The common tail: save, then succeed. */
  function Persist(s: Inner, saved: bool): Done
  {
    Done(s, if saved then Ok(Null) else Err(Internal), true)
  }

  predicate Attached(s: Inner, port: string)
  {
    port in s.ports && s.ports[port].network.Some?
  }

  predicate AttachedTo(s: Inner, port: string, network: string)
  {
    port in s.ports && s.ports[port].network == Some(network)
  }

  function WithBindings(s: Inner, network: string, t: Ipam.Table): Inner
    requires network in s.networks
  {
    s.(networks := s.networks[network := s.networks[network].(bindings := t)])
  }

  // ---- networks ----------------------------------------------------------------------------------

  function CreateNetwork(s: Inner, p: NetParams, saved: bool): Done
  {
    if p.name in s.networks then
      if s.networks[p.name].createdWith == p then Done(s, Ok(Null), false) else Refused(s, Conflict)
    else
      match Cidr.NewPool(p.start, p.end)
      case Err(_) => Refused(s, InvalidParams)
      case Ok(pool) =>
        match Cidr.NewNetwork(p.name, p.addr, p.prefix, p.gateway, pool)
        case Err(_) => Refused(s, InvalidParams)
        case Ok(net) =>
          Persist(s.(gateway := s.gateway.(networks := s.gateway.networks[net.name := net]),
                     networks := s.networks[p.name := NetworkEntry(net, map[], p)]), saved)
  }

  function DeleteNetwork(s: Inner, name: string, saved: bool): Done
  {
    var s1 := s.(gateway := s.gateway.(networks := s.gateway.networks - {name}));
    if name !in s1.networks then Refused(s1, NotFound)
    else Persist(s1.(networks := s1.networks - {name}), saved)
  }

  // ---- ports -------------------------------------------------------------------------------------

  /** A new port joins the switch on the blank network until it is attached. */
  function CreatePort(s: Inner, name: string, bound: bool, saved: bool): Done
  {
    if name in s.ports then Done(s, Ok(Null), false)
    else if !bound then Refused(s, Internal)
    else
      var id := s.nextPortId;
      Persist(s.(nextPortId := (id + 1) % 0x1_0000_0000,
                 switch := Fabric.AddPort(s.switch, id, ""),
                 names := s.names[id := name],
                 ports := s.ports[name := LivePort(id, None, None)]), saved)
  }

  /** Puts a port on a network: on its record, on the switch and on the gateway. */
  function Plug(s: Inner, name: string, network: string, mac: Mac): Inner
    requires name in s.ports
  {
    var id := s.ports[name].id;
    s.(ports := s.ports[name := LivePort(id, Some(network), Some(mac))],
       switch := Fabric.AddPort(s.switch, id, network),
       gateway := s.gateway.(ports := s.gateway.ports[id := network]))
  }

  /** Takes a port off the switch and the gateway. */
  function Unplug(s: Inner, id: PortId): Inner
  {
    s.(switch := Fabric.RemovePort(s.switch, id),
       gateway := s.gateway.(ports := s.gateway.ports - {id}))
  }

  function Teardown(s: Inner, port: string): Inner
  {
    s.(passts := s.passts - {port})
  }

  function DeletePort(s: Inner, name: string, saved: bool): Done
  {
    if name !in s.ports then Refused(s, NotFound)
    else
      var p := s.ports[name];
      var s1 := s.(ports := s.ports - {name});
      var s2 := if p.network.Some? && p.mac.Some? && p.network.value in s1.networks
                then WithBindings(s1, p.network.value,
                                  Ipam.Release(s1.networks[p.network.value].bindings, p.mac.value).0)
                else s1;
      var s3 := Unplug(s2, p.id);
      var s4 := s3.(names := s3.names - {p.id}, publish := Publish.RemovePort(s3.publish, name));
      if !saved then Persist(s4, false) else Persist(Teardown(s4, name), true)
  }

  /** Makes the port's passt run `slice`; the flag is false when the spawn failed. */
  function EnsurePasst(s: Inner, port: string, net: Cidr.Network, vmIp: Ip, slice: Publish.Slice,
                       spawned: bool, now: nat): (Inner, bool)
  {
    var config := Passt.ConfigFor(vmIp, net, slice);
    var slot := if port in s.passts then Some(s.passts[port]) else None;
    (s.(passts := s.passts[port := Passt.Ensure(slot, config, spawned, now)]),
     Passt.UpToDate(slot, config) || spawned)
  }

  /** Reserves an address, joins the segment, starts a passt with no forwards, saves. */
  function AttachPort(s: Inner, port: string, network: string, mac: Mac, spawned: bool, now: nat, saved: bool): Done
  {
    if port !in s.ports then Refused(s, NotFound)
    else if s.ports[port].network == Some(network) && s.ports[port].mac == Some(mac) then Done(s, Ok(Null), false)
    else if s.ports[port].network.Some? then Refused(s, Conflict)
    else if network !in s.networks then Refused(s, NotFound)
    else
      var entry := s.networks[network];
      var (t, r) := Ipam.Allocate(entry.net, entry.bindings, mac);
      if r.Err? then Refused(s, Conflict)
      else Join(WithBindings(s, network, t), port, network, mac, r.value, spawned, now, saved)
  }

  /** The attachment proper, once the address is reserved. */
  function Join(s: Inner, port: string, network: string, mac: Mac, ip: Ip, spawned: bool, now: nat, saved: bool): Done
    requires port in s.ports && network in s.networks
  {
    var (s1, up) := EnsurePasst(Plug(s, port, network, mac), port, s.networks[network].net, ip, map[], spawned, now);
    if !up then Refused(s1, Internal) else Persist(s1, saved)
  }

  /** The network and MAC are taken from the port before anything can fail. */
  function DetachPort(s: Inner, name: string, saved: bool): Done
  {
    if name !in s.ports then Refused(s, NotFound)
    else
      var p := s.ports[name];
      var s1 := Unplug(s.(ports := s.ports[name := LivePort(p.id, None, None)]), p.id);
      if p.network.Some? && p.mac.Some? then
        if p.network.value !in s1.networks then Refused(s1, NotFound)
        else
          var (t, r) := Ipam.Release(s1.networks[p.network.value].bindings, p.mac.value);
          if r.Err? then Refused(s1, NotFound)
          else FinishDetach(WithBindings(s1, p.network.value, t), name, saved)
      else FinishDetach(s1, name, saved)
  }

  function FinishDetach(s: Inner, name: string, saved: bool): Done
  {
    var s1 := s.(publish := Publish.RemovePort(s.publish, name));
    if !saved then Persist(s1, false) else Persist(Teardown(s1, name), true)
  }

  // ---- addresses -----------------------------------------------------------------------------------

  function AllocateIp(s: Inner, network: string, mac: Mac): Done
  {
    if network !in s.networks then Refused(s, NotFound)
    else
      var entry := s.networks[network];
      var (t, r) := Ipam.Allocate(entry.net, entry.bindings, mac);
      if r.Err? then Refused(s, Conflict) else Done(WithBindings(s, network, t), Ok(Address(r.value)), false)
  }

  function ReleaseIp(s: Inner, network: string, mac: Mac, saved: bool): Done
  {
    if network !in s.networks then Refused(s, NotFound)
    else
      var (t, r) := Ipam.Release(s.networks[network].bindings, mac);
      if r.Err? then Refused(s, NotFound) else Persist(WithBindings(s, network, t), saved)
  }

  // ---- published ports -------------------------------------------------------------------------------

  /** Makes the passt of an attached port match its published slice; errors carry the source's codes. */
  function Refresh(s: Inner, port: string, value: Value, spawned: bool, now: nat): Done
  {
    if port !in s.ports || s.ports[port].network.None? then Done(s, Err(NotFound), true)
    else if s.ports[port].mac.None? then Done(s, Err(Internal), true)
    else
      var network := s.ports[port].network.value;
      if network !in s.networks then Done(s, Err(NotFound), true)
      else
        var entry := s.networks[network];
        match Ipam.Lookup(entry.bindings, s.ports[port].mac.value)
        case None => Done(s, Err(NotFound), true)
        case Some(ip) =>
          var (s1, up) := EnsurePasst(s, port, entry.net, ip, Publish.SliceOf(s.publish, port), spawned, now);
          Done(s1, if up then Ok(value) else Err(Internal), true)
  }

  function PublishPort(s: Inner, port: string, vm: u16, saved: bool, spawned: bool, now: nat): Done
  {
    if !Attached(s, port) then Refused(s, NotFound)
    else
      var (t, r) := Publish.Allocate(s.publish, port, vm, PUBLISH_LO, PUBLISH_HI);
      if r.None? then Refused(s, Conflict)
      else
        var s1 := s.(publish := t);
        if !saved then Persist(s1, false) else Refresh(s1, port, HostPort(r.value), spawned, now)
  }

  /** Removing a port's last entry stops its passt. */
  function UnpublishPort(s: Inner, port: string, vm: u16, saved: bool, spawned: bool, now: nat): Done
  {
    var (t, r) := Publish.Remove(s.publish, port, vm);
    if r.None? then Refused(s, NotFound)
    else
      var s1 := s.(publish := t);
      if !saved then Persist(s1, false)
      else if Publish.SliceOf(t, port) == map[] then Persist(Teardown(s1, port), true)
      else Refresh(s1, port, Null, spawned, now)
  }

  // ---- the frame pump ------------------------------------------------------------------------------------

  const DHCP_SERVER_PORT: u16 := 67
  const DHCP_CLIENT_PORT: u16 := 68
  const DNS_PORT: u16 := 53

  /** What leaves the daemon: a frame into a port's virtqueue, or bytes to a port's passt. */
  datatype Out = Inject(port: string, frame: Bytes) | ToPasst(port: string, bytes: Bytes)

  /** What the hosted services answered to this datagram, if asked, and whether the build checks arithmetic. */
  datatype Services = Services(dhcp: Option<Bytes>, dns: Option<Bytes>, checked: bool)

  function ReplyAddress(dhcp: Bytes): Ip
  {
    if |dhcp| >= 20 then Replies.IpAt(dhcp, 16) else 0
  }

  /** DHCP and DNS-to-gateway are answered before any classification. */
  function ServiceReply(s: Inner, name: string, frame: Bytes, env: Services): Replies.Outcome<Bytes>
  {
    if !Attached(s, name) || s.ports[name].network.value !in s.networks || s.ports[name].mac.None? then Replies.Nothing
    else
      var gateway := s.networks[s.ports[name].network.value].net.gateway;
      match Replies.ParseIpv4(frame)
      case Panic => Replies.Panic
      case Nothing => Replies.Nothing
      case Just(ip) =>
        if ip.proto != Replies.IPPROTO_UDP || |ip.payload| < 8 then Replies.Nothing
        else
          var udp := Replies.ParseUdp(ip.payload).value;
          if udp.dport == DHCP_SERVER_PORT && udp.sport == DHCP_CLIENT_PORT then
            if env.dhcp.None? then Replies.Nothing
            else Replies.Just(Replies.WrapUdp(env.dhcp.value, Frames.Parse(frame).value.src, gateway,
                                              ReplyAddress(env.dhcp.value), DHCP_SERVER_PORT, DHCP_CLIENT_PORT))
          else if udp.dport == DNS_PORT && ip.dst == gateway then
            if env.dns.None? then Replies.Nothing
            else Replies.Just(Replies.WrapUdp(env.dns.value, s.ports[name].mac.value, gateway, ip.src,
                                              DNS_PORT, udp.sport))
          else Replies.Nothing
  }

  function IcmpReply(s: Inner, name: string, frame: Bytes, env: Services): Replies.Outcome<Bytes>
  {
    if !Attached(s, name) || s.ports[name].network.value !in s.networks || s.ports[name].mac.None? then Replies.Nothing
    else Replies.EchoReply(s.networks[s.ports[name].network.value].net.gateway, s.ports[name].mac.value, frame,
                           env.checked)
  }

  /** A frame for a port that is gone is dropped. */
  function InjectTo(s: Inner, port: string, frame: Bytes): set<Out>
  {
    if port in s.ports then {Inject(port, frame)} else {}
  }

  /** Dropped when the port has no running passt. */
  function PasstEgress(s: Inner, port: string, frame: Bytes): set<Out>
  {
    if port in s.passts && s.passts[port].live then {ToPasst(port, Framing.Encode(frame))} else {}
  }

  predicate ForUplink(s: Inner, name: string, frame: Bytes)
  {
    name in s.passts && s.passts[name].mac.Some? && |frame| >= 6 && frame[..6] == s.passts[name].mac.value.Octets()
  }

  /** Copies for the switch's egress ports, resolved back to port names. */
  function Copies(s: Inner, egress: set<PortId>, me: PortId, frame: Bytes): set<Out>
  {
    set id | id in egress && id != me && id in s.names && s.names[id] in s.ports :: Inject(s.names[id], frame)
  }

  datatype Pumped = Pumped(inner: Inner, outs: set<Out>, panics: bool)

  /** One frame from the VM on port `name`, whose pump thread was started for switch id `me`. */
  function Pump(s: Inner, name: string, me: PortId, frame: Bytes, env: Services): Pumped
  {
    var service := ServiceReply(s, name, frame, env);
    var ethertype := Frames.Ethertype(frame);
    var action := Gateway.HandleFrame(s.gateway, me, frame);
    var echo := IcmpReply(s, name, frame, env);
    if service.Panic? then Pumped(s, {}, true)
    else if service.Just? then Pumped(s, InjectTo(s, name, service.value), false)
    else if ethertype == Some(Frames.ETHERTYPE_ARP) && action.ArpReply? then
      Pumped(s, InjectTo(s, name, action.frame), false)
    else if ethertype == Some(Frames.ETHERTYPE_IPV4) && echo.Panic? then Pumped(s, {}, true)
    else if ethertype == Some(Frames.ETHERTYPE_IPV4) && echo.Just? then
      Pumped(s, InjectTo(s, name, echo.value), false)
    else if ethertype == Some(Frames.ETHERTYPE_IPV4) && action.Wan? then
      Pumped(s, PasstEgress(s, name, action.frame), false)
    else if ForUplink(s, name, frame) then Pumped(s, PasstEgress(s, name, frame), false)
    else
      var (switch, egress) := Fabric.Forward(s.switch, me, frame);
      Pumped(s.(switch := switch), Copies(s, egress, me, frame), false)
  }

  // ---- the world: events, the lock, the disk ----------------------------------------------------------------

  /** How a save ended: done, failed before the rename, or failed syncing the directory after it. */
  datatype Save = Saved | NotRenamed | NotSynced

  /** What a reader of the state file sees now, and what a power loss may leave in it. */
  datatype Disk = Disk(live: Publish.Table, durable: set<Publish.Table>)

  function Write(d: Disk, t: Publish.Table, save: Save): Disk
  {
    match save
    case Saved => Disk(t, {t})
    case NotRenamed => d
    case NotSynced => Disk(t, d.durable + {t})
  }

  /** `poisoned` is the state lock after a pump panicked while holding it: nothing can take it again. */
  datatype World = World(inner: Inner, disk: Disk, poisoned: bool)

  datatype Event =
    | RpcCreateNetwork(params: NetParams, save: Save)
    | RpcDeleteNetwork(name: string, save: Save)
    | RpcCreatePort(name: string, bound: bool, save: Save)
    | RpcDeletePort(name: string, save: Save)
    | RpcAttachPort(name: string, network: string, mac: Mac, spawned: bool, now: nat, save: Save)
    | RpcDetachPort(name: string, save: Save)
    | RpcAllocateIp(network: string, mac: Mac)
    | RpcReleaseIp(network: string, mac: Mac, save: Save)
    | RpcPublishPort(name: string, vm: u16, save: Save, spawned: bool, now: nat)
    | RpcUnpublishPort(name: string, vm: u16, save: Save, spawned: bool, now: nat)
    | Frame(name: string, me: PortId, frame: Bytes, env: Services)
    | Tick(name: string, exited: bool, reaped: nat, checked: nat, spawned: bool, tried: nat)
    | Uplink(name: string, mac: Mac)
    | Restart
    | PowerLoss(kept: Publish.Table)

  predicate IsRpc(e: Event)
  {
    !e.Frame? && !e.Tick? && !e.Uplink? && !e.Restart? && !e.PowerLoss?
  }

  /** The daemon's life ends and a new one begins. */
  predicate IsStart(e: Event)
  {
    e.Restart? || e.PowerLoss?
  }

  function Call(s: Inner, e: Event): Done
    requires IsRpc(e)
  {
    match e
    case RpcCreateNetwork(p, save) => CreateNetwork(s, p, save.Saved?)
    case RpcDeleteNetwork(name, save) => DeleteNetwork(s, name, save.Saved?)
    case RpcCreatePort(name, bound, save) => CreatePort(s, name, bound, save.Saved?)
    case RpcDeletePort(name, save) => DeletePort(s, name, save.Saved?)
    case RpcAttachPort(name, network, mac, spawned, now, save) =>
      AttachPort(s, name, network, mac, spawned, now, save.Saved?)
    case RpcDetachPort(name, save) => DetachPort(s, name, save.Saved?)
    case RpcAllocateIp(network, mac) => AllocateIp(s, network, mac)
    case RpcReleaseIp(network, mac, save) => ReleaseIp(s, network, mac, save.Saved?)
    case RpcPublishPort(name, vm, save, spawned, now) => PublishPort(s, name, vm, save.Saved?, spawned, now)
    case RpcUnpublishPort(name, vm, save, spawned, now) => UnpublishPort(s, name, vm, save.Saved?, spawned, now)
  }

  function SaveOf(e: Event): Save
    requires IsRpc(e)
  {
    if e.RpcAllocateIp? then NotRenamed else e.save
  }

  /** The reader learns the uplink MAC only into an existing slot. */
  function LearnUplink(s: Inner, name: string, mac: Mac): Inner
  {
    if name in s.passts then s.(passts := s.passts[name := s.passts[name].(mac := Some(mac))]) else s
  }

  function SupervisePasst(s: Inner, e: Event): Inner
    requires e.Tick?
  {
    if e.name !in s.passts then s
    else s.(passts := s.passts[e.name :=
              Passt.Supervise(s.passts[e.name], e.exited, e.reaped, e.checked, e.spawned, e.tried)])
  }

  /** A power loss leaves one of the durable contents. */
  predicate Possible(w: World, e: Event)
  {
    e.PowerLoss? ==> e.kept in w.disk.durable
  }

  function Step(w: World, e: Event): World
  {
    if e.Restart? then World(Start(w.disk.live), w.disk, false)
    else if e.PowerLoss? then World(Start(e.kept), Disk(e.kept, {e.kept}), false)
    else if w.poisoned then w
    else if e.Frame? then
      var p := Pump(w.inner, e.name, e.me, e.frame, e.env);
      w.(inner := p.inner, poisoned := p.panics)
    else if e.Tick? then w.(inner := SupervisePasst(w.inner, e))
    else if e.Uplink? then w.(inner := LearnUplink(w.inner, e.name, e.mac))
    else
      var done := Call(w.inner, e);
      w.(inner := done.inner, disk := if done.saves then Write(w.disk, done.inner.publish, SaveOf(e)) else w.disk)
  }

  /** An RPC that gets the lock. */
  lemma RpcStep(w: World, e: Event)
    requires IsRpc(e) && !w.poisoned
    ensures var d := Call(w.inner, e);
      Step(w, e) == World(d.inner, if d.saves then Write(w.disk, d.inner.publish, SaveOf(e)) else w.disk, false)
  {}

  /** What an event sends out. */
  function Outputs(w: World, e: Event): set<Out>
  {
    if e.Frame? && !w.poisoned then Pump(w.inner, e.name, e.me, e.frame, e.env).outs else {}
  }

  /** A daemon's first start on an empty directory. */
  const GENESIS: World := World(Start(map[]), Disk(map[], {map[]}), false)

  function Run(w: World, events: seq<Event>): World
  {
    if events == [] then w else Step(Run(w, events[..|events| - 1]), events[|events| - 1])
  }

  /** A port is created under the last 32-bit id, and the counter wraps. */
  predicate TakesLastId(w: World, e: Event)
  {
    && e.RpcCreatePort? && e.bound && e.name !in w.inner.ports
    && !w.poisoned && w.inner.nextPortId == U32_MAX
  }

  /** Events the environment can produce, short of the port id counter wrapping. */
  predicate Allowed(w: World, e: Event)
  {
    Possible(w, e) && !TakesLastId(w, e)
  }

  predicate AllowedRun(w: World, events: seq<Event>)
  {
    events == []
    || (AllowedRun(w, events[..|events| - 1]) && Allowed(Run(w, events[..|events| - 1]), events[|events| - 1]))
  }
}
