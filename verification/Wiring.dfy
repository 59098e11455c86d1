/** The cross-map invariant: ports, names, switch, gateway and allocators always agree. */
module Wiring {
  import opened Base
  import opened Daemon
  import Cidr
  import Fabric
  import Frames
  import Ipam
  import Lru
  import Publish

  /** A port's id resolves back to it, and its attachment is the same in every map. */
  predicate PortWired(s: Inner, n: string)
    requires n in s.ports
  {
    var p := s.ports[n];
    && p.id in s.names && s.names[p.id] == n
    && p.mac.Some? == p.network.Some?
    && (if p.network.Some? then
          && !Cidr.IsBlank(p.network.value)
          && p.id in s.switch.ports && s.switch.ports[p.id] == p.network.value
          && p.id in s.gateway.ports && s.gateway.ports[p.id] == p.network.value
        else
          && p.id !in s.gateway.ports
          && (p.id in s.switch.ports ==> s.switch.ports[p.id] == ""))
  }

  predicate IdWired(s: Inner, id: PortId)
    requires id in s.names
  {
    id < s.nextPortId && s.names[id] in s.ports && s.ports[s.names[id]].id == id
  }

  ghost predicate NetworkWired(s: Inner, n: string)
    requires n in s.networks
  {
    var e := s.networks[n];
    && e.net.name == n
    && n in s.gateway.networks && s.gateway.networks[n] == e.net
    && Cidr.WellFormed(e.net) && Ipam.Sound(e.net, e.bindings)
  }

  ghost predicate PortsWired(s: Inner)
  {
    && (forall n {:trigger PortWired(s, n)} :: n in s.ports ==> PortWired(s, n))
    && (forall id {:trigger IdWired(s, id)} :: id in s.names ==> IdWired(s, id))
    && s.switch.ports.Keys <= s.names.Keys
    && s.gateway.ports.Keys <= s.names.Keys
  }

  ghost predicate NetworksWired(s: Inner)
  {
    && s.gateway.networks.Keys == s.networks.Keys
    && (forall n {:trigger NetworkWired(s, n)} :: n in s.networks ==> NetworkWired(s, n))
  }

  /** Learned MACs point only at ids already handed out. */
  predicate TableWired(s: Inner)
  {
    forall b :: b in s.switch.recent ==> b.port < s.nextPortId
  }

  ghost predicate Wired(s: Inner)
  {
    PortsWired(s) && NetworksWired(s) && TableWired(s) && Publish.Sound(s.publish)
  }

  ghost predicate WiredWorld(w: World)
  {
    && Wired(w.inner)
    && Publish.Sound(w.disk.live)
    && (forall t :: t in w.disk.durable ==> Publish.Sound(t))
  }

  // ---- steps on the port maps -----------------------------------------------------------------------

  lemma CreatePortWired(s: Inner, name: string, bound: bool, saved: bool)
    requires Wired(s) && (bound && name !in s.ports ==> s.nextPortId < U32_MAX)
    ensures Wired(CreatePort(s, name, bound, saved).inner)
  {
    var s' := CreatePort(s, name, bound, saved).inner;
    if s' != s {
      var id := s.nextPortId;
      forall i | i in s.names ensures i < id { assert IdWired(s, i); }
      forall n | n in s'.ports ensures PortWired(s', n) {
        if n != name { assert PortWired(s, n); }
      }
      forall i | i in s'.names ensures IdWired(s', i) {
        if i != id { assert IdWired(s, i); }
      }
      assert NetworksWired(s') by {
        forall n | n in s'.networks ensures NetworkWired(s', n) { assert NetworkWired(s, n); }
      }
    }
  }

  /** The port that got the last id is not below the wrapped counter. */
  lemma LastIdUnwires(s: Inner, name: string, saved: bool)
    requires name !in s.ports && s.nextPortId == U32_MAX
    ensures !Wired(CreatePort(s, name, true, saved).inner)
  {
    assert !IdWired(CreatePort(s, name, true, saved).inner, U32_MAX);
  }

  /** Moving one port on the switch and gateway: other ports have other ids, so they are untouched. */
  lemma Replug(s: Inner, name: string, p: LivePort, s': Inner)
    requires PortsWired(s) && name in s.ports && p.id == s.ports[name].id
    requires s'.ports == s.ports[name := p] && s'.names == s.names && s'.nextPortId == s.nextPortId
    requires forall i :: i != p.id ==>
      (i in s'.switch.ports <==> i in s.switch.ports) && (i in s'.gateway.ports <==> i in s.gateway.ports)
    requires forall i :: i != p.id && i in s.switch.ports ==> s'.switch.ports[i] == s.switch.ports[i]
    requires forall i :: i != p.id && i in s.gateway.ports ==> s'.gateway.ports[i] == s.gateway.ports[i]
    requires PortWired(s', name)
    ensures PortsWired(s')
  {
    assert PortWired(s, name);
    forall n | n in s'.ports ensures PortWired(s', n) {
      if n != name {
        assert PortWired(s, n);
        assert s.ports[n].id != p.id;
      }
    }
    forall i | i in s'.names ensures IdWired(s', i) { assert IdWired(s, i); }
  }

  lemma PlugWired(s: Inner, name: string, network: string, mac: Mac)
    requires Wired(s) && name in s.ports && network in s.networks
    ensures Wired(Plug(s, name, network, mac))
  {
    assert PortWired(s, name) && NetworkWired(s, network);
    var s' := Plug(s, name, network, mac);
    Replug(s, name, s'.ports[name], s');
    SameNetworks(s, s');
  }

  function Unplugged(s: Inner, name: string): Inner
    requires name in s.ports
  {
    Unplug(s.(ports := s.ports[name := LivePort(s.ports[name].id, None, None)]), s.ports[name].id)
  }

  lemma UnplugWired(s: Inner, name: string)
    requires Wired(s) && name in s.ports
    ensures Wired(Unplugged(s, name))
  {
    assert PortWired(s, name);
    var s' := Unplugged(s, name);
    Replug(s, name, s'.ports[name], s');
    SameNetworks(s, s');
  }

  function Forgotten(s: Inner, name: string): Inner
    requires name in s.ports
  {
    var id := s.ports[name].id;
    Unplug(s.(ports := s.ports - {name}, names := s.names - {id}), id)
  }

  /** Forgetting one port together with its id. */
  lemma ForgetWired(s: Inner, name: string)
    requires Wired(s) && name in s.ports
    ensures Wired(Forgotten(s, name))
  {
    var s' := Forgotten(s, name);
    assert PortWired(s, name);
    forall n | n in s'.ports ensures PortWired(s', n) {
      assert PortWired(s, n);
      assert s.ports[n].id != s.ports[name].id;
    }
    forall i | i in s'.names ensures IdWired(s', i) { assert IdWired(s, i); }
    SameNetworks(s, s');
  }

  lemma SameNetworks(s: Inner, s': Inner)
    requires NetworksWired(s) && s'.networks == s.networks && s'.gateway.networks == s.gateway.networks
    ensures NetworksWired(s')
  {
    forall n | n in s'.networks ensures NetworkWired(s', n) { assert NetworkWired(s, n); }
  }

  lemma SamePorts(s: Inner, s': Inner)
    requires PortsWired(s) && s'.ports == s.ports && s'.names == s.names && s'.nextPortId == s.nextPortId
    requires s'.switch.ports == s.switch.ports && s'.gateway.ports == s.gateway.ports
    ensures PortsWired(s')
  {
    forall n | n in s'.ports ensures PortWired(s', n) { assert PortWired(s, n); }
    forall i | i in s'.names ensures IdWired(s', i) { assert IdWired(s, i); }
  }

  /** Changing one network's bindings. */
  lemma RebindWired(s: Inner, network: string, t: Ipam.Table)
    requires Wired(s) && network in s.networks && Ipam.Sound(s.networks[network].net, t)
    ensures Wired(WithBindings(s, network, t))
  {
    var s' := WithBindings(s, network, t);
    SamePorts(s, s');
    assert NetworkWired(s, network);
    forall n | n in s'.networks ensures NetworkWired(s', n) { assert NetworkWired(s, n); }
  }

  lemma AllocateWired(s: Inner, network: string, mac: Mac)
    requires Wired(s) && network in s.networks
    ensures var e := s.networks[network];
      Wired(WithBindings(s, network, Ipam.Allocate(e.net, e.bindings, mac).0))
  {
    var e := s.networks[network];
    assert NetworkWired(s, network);
    Ipam.ApplySound(e.net, e.bindings, Ipam.Bind(mac));
    RebindWired(s, network, Ipam.Allocate(e.net, e.bindings, mac).0);
  }

  lemma ReleaseWired(s: Inner, network: string, mac: Mac)
    requires Wired(s) && network in s.networks
    ensures Wired(WithBindings(s, network, Ipam.Release(s.networks[network].bindings, mac).0))
  {
    var e := s.networks[network];
    assert NetworkWired(s, network);
    Ipam.ApplySound(e.net, e.bindings, Ipam.Free(mac));
    RebindWired(s, network, Ipam.Release(e.bindings, mac).0);
  }

  /** Only the publish table and the passt slots differ. */
  predicate SameFabric(s: Inner, s': Inner)
  {
    s'.(publish := s.publish, passts := s.passts) == s
  }

  lemma SameFabricWired(s: Inner, s': Inner)
    requires Wired(s) && SameFabric(s, s') && Publish.Sound(s'.publish)
    ensures Wired(s')
  {
    SamePorts(s, s');
    SameNetworks(s, s');
  }

  // ---- each RPC --------------------------------------------------------------------------------------

  lemma CreateNetworkWired(s: Inner, p: NetParams, saved: bool)
    requires Wired(s)
    ensures Wired(CreateNetwork(s, p, saved).inner)
  {
    var s' := CreateNetwork(s, p, saved).inner;
    if s' != s {
      Cidr.AcceptedIffWellFormed(p.name, p.addr, p.prefix, p.gateway, Cidr.Pool(p.start, p.end));
      SamePorts(s, s');
      forall n | n in s'.networks ensures NetworkWired(s', n) {
        if n != p.name { assert NetworkWired(s, n); }
      }
    }
  }

  lemma DropNetworkWired(s: Inner, name: string, s': Inner)
    requires Wired(s)
    requires s' == s.(gateway := s.gateway.(networks := s.gateway.networks - {name}), networks := s.networks - {name})
    ensures Wired(s')
  {
    SamePorts(s, s');
    forall n | n in s'.networks ensures NetworkWired(s', n) { assert NetworkWired(s, n); }
  }

  lemma DeleteNetworkWired(s: Inner, name: string, saved: bool)
    requires Wired(s)
    ensures Wired(DeleteNetwork(s, name, saved).inner)
  {
    if name !in s.networks {
      assert s.networks - {name} == s.networks;
    }
    DropNetworkWired(s, name, DeleteNetwork(s, name, saved).inner);
  }

  lemma DeletePortWired(s: Inner, name: string, saved: bool)
    requires Wired(s)
    ensures Wired(DeletePort(s, name, saved).inner)
  {
    var s' := DeletePort(s, name, saved).inner;
    if name in s.ports {
      var p := s.ports[name];
      var f := Forgotten(s, name);
      ForgetWired(s, name);
      Publish.RemovePortMeans(s.publish, name);
      if p.network.Some? && p.mac.Some? && p.network.value in s.networks {
        ReleaseWired(f, p.network.value, p.mac.value);
        SameFabricWired(WithBindings(f, p.network.value,
                                     Ipam.Release(f.networks[p.network.value].bindings, p.mac.value).0), s');
      } else {
        SameFabricWired(f, s');
      }
    }
  }

  lemma AttachPortWired(s: Inner, port: string, network: string, mac: Mac, spawned: bool, now: nat, saved: bool)
    requires Wired(s)
    ensures Wired(AttachPort(s, port, network, mac, spawned, now, saved).inner)
  {
    if port in s.ports && s.ports[port].network.None? && network in s.networks {
      var e := s.networks[network];
      var (t, r) := Ipam.Allocate(e.net, e.bindings, mac);
      AllocateWired(s, network, mac);
      if r.Ok? {
        JoinWired(WithBindings(s, network, t), port, network, mac, r.value, spawned, now, saved);
      }
    }
  }

  lemma JoinWired(s: Inner, port: string, network: string, mac: Mac, ip: Ip, spawned: bool, now: nat, saved: bool)
    requires Wired(s) && port in s.ports && network in s.networks
    ensures Wired(Join(s, port, network, mac, ip, spawned, now, saved).inner)
  {
    PlugWired(s, port, network, mac);
    EnsureWired(Plug(s, port, network, mac), port, s.networks[network].net, ip, map[], spawned, now);
  }

  lemma EnsureWired(s: Inner, port: string, net: Cidr.Network, ip: Ip, slice: Publish.Slice, spawned: bool, now: nat)
    requires Wired(s)
    ensures Wired(EnsurePasst(s, port, net, ip, slice, spawned, now).0)
  {
    SameFabricWired(s, EnsurePasst(s, port, net, ip, slice, spawned, now).0);
  }

  lemma DetachPortWired(s: Inner, name: string, saved: bool)
    requires Wired(s)
    ensures Wired(DetachPort(s, name, saved).inner)
  {
    var s' := DetachPort(s, name, saved).inner;
    if name in s.ports {
      var p, s1 := s.ports[name], Unplugged(s, name);
      UnplugWired(s, name);
      Publish.RemovePortMeans(s.publish, name);
      if p.network.Some? && p.mac.Some? && p.network.value in s.networks {
        var (t, r) := Ipam.Release(s1.networks[p.network.value].bindings, p.mac.value);
        ReleaseWired(s1, p.network.value, p.mac.value);
        if r.Ok? { SameFabricWired(WithBindings(s1, p.network.value, t), s'); }
      } else if p.network.None? || p.mac.None? {
        SameFabricWired(s1, s');
      }
    }
  }

  lemma AllocateIpWired(s: Inner, network: string, mac: Mac)
    requires Wired(s)
    ensures Wired(AllocateIp(s, network, mac).inner)
  {
    if network in s.networks { AllocateWired(s, network, mac); }
  }

  lemma ReleaseIpWired(s: Inner, network: string, mac: Mac, saved: bool)
    requires Wired(s)
    ensures Wired(ReleaseIp(s, network, mac, saved).inner)
  {
    if network in s.networks { ReleaseWired(s, network, mac); }
  }

  lemma RefreshFabric(s: Inner, port: string, value: Value, spawned: bool, now: nat)
    ensures SameFabric(s, Refresh(s, port, value, spawned, now).inner)
    ensures Refresh(s, port, value, spawned, now).inner.publish == s.publish
  {}

  lemma PublishWired(s: Inner, port: string, vm: u16, saved: bool, spawned: bool, now: nat)
    requires Wired(s)
    ensures Wired(PublishPort(s, port, vm, saved, spawned, now).inner)
  {
    var (t, r) := Publish.Allocate(s.publish, port, vm, PUBLISH_LO, PUBLISH_HI);
    Publish.AllocateMeans(s.publish, port, vm, PUBLISH_LO, PUBLISH_HI);
    if r.Some? { RefreshFabric(s.(publish := t), port, HostPort(r.value), spawned, now); }
    SameFabricWired(s, PublishPort(s, port, vm, saved, spawned, now).inner);
  }

  lemma UnpublishWired(s: Inner, port: string, vm: u16, saved: bool, spawned: bool, now: nat)
    requires Wired(s)
    ensures Wired(UnpublishPort(s, port, vm, saved, spawned, now).inner)
  {
    var (t, r) := Publish.Remove(s.publish, port, vm);
    Publish.RemoveSound(s.publish, port, vm);
    if r.Some? { RefreshFabric(s.(publish := t), port, Null, spawned, now); }
    SameFabricWired(s, UnpublishPort(s, port, vm, saved, spawned, now).inner);
  }

  lemma {:induction false} WithoutKeeps(l: Lru.Recency, mac: Mac, b: Lru.Binding)
    requires b in Lru.Without(l, mac)
    ensures b in l
  {
    if l[0].mac == mac {
      WithoutKeeps(l[1..], mac, b);
    } else if b != l[0] {
      WithoutKeeps(l[1..], mac, b);
    }
  }

  lemma TouchAdds(l: Lru.Recency, capacity: nat, port: PortId, mac: Mac, b: Lru.Binding)
    requires b in Lru.Touch(l, capacity, port, mac)
    ensures b == Lru.Binding(mac, port) || b in l
  {
    if b in Lru.Without(l, mac) { WithoutKeeps(l, mac, b); }
  }

  lemma PumpWired(s: Inner, name: string, me: PortId, frame: Bytes, env: Services)
    requires Wired(s)
    ensures Wired(Pump(s, name, me, frame, env).inner)
  {
    var s' := Pump(s, name, me, frame, env).inner;
    if s' != s {
      SamePorts(s, s');
      SameNetworks(s, s');
      forall b | b in s'.switch.recent ensures b.port < s'.nextPortId {
        LearnedFrom(s.switch, me, frame, b);
        if b !in s.switch.recent { assert IdWired(s, me); }
      }
    }
  }

  lemma LearnedFrom(sw: Fabric.Switch, me: PortId, frame: Bytes, b: Lru.Binding)
    requires b in Fabric.Forward(sw, me, frame).0.recent
    ensures b in sw.recent || (b.port == me && me in sw.ports)
  {
    var sw' := Fabric.Forward(sw, me, frame).0;
    if sw' != sw {
      TouchAdds(sw.recent, Fabric.MAC_TABLE_CAPACITY, me, Frames.Parse(frame).value.src, b);
    }
  }

  // ---- all events, all runs ------------------------------------------------------------------------------

  lemma CallWired(s: Inner, e: Event)
    requires Wired(s) && IsRpc(e)
    requires e.RpcCreatePort? && e.bound && e.name !in s.ports ==> s.nextPortId < U32_MAX
    ensures Wired(Call(s, e).inner)
  {
    match e {
      case RpcCreateNetwork(p, save) => CreateNetworkWired(s, p, save.Saved?);
      case RpcDeleteNetwork(name, save) => DeleteNetworkWired(s, name, save.Saved?);
      case RpcCreatePort(name, bound, save) => CreatePortWired(s, name, bound, save.Saved?);
      case RpcDeletePort(name, save) => DeletePortWired(s, name, save.Saved?);
      case RpcAttachPort(name, network, mac, spawned, now, save) =>
        AttachPortWired(s, name, network, mac, spawned, now, save.Saved?);
      case RpcDetachPort(name, save) => DetachPortWired(s, name, save.Saved?);
      case RpcAllocateIp(network, mac) => AllocateIpWired(s, network, mac);
      case RpcReleaseIp(network, mac, save) => ReleaseIpWired(s, network, mac, save.Saved?);
      case RpcPublishPort(name, vm, save, spawned, now) => PublishWired(s, name, vm, save.Saved?, spawned, now);
      case RpcUnpublishPort(name, vm, save, spawned, now) => UnpublishWired(s, name, vm, save.Saved?, spawned, now);
    }
  }

  lemma StartWired(t: Publish.Table)
    requires Publish.Sound(t)
    ensures Wired(Start(t))
  {}

  lemma WriteSound(d: Disk, t: Publish.Table, save: Save)
    requires Publish.Sound(d.live) && (forall x :: x in d.durable ==> Publish.Sound(x)) && Publish.Sound(t)
    ensures Publish.Sound(Write(d, t, save).live)
    ensures forall x :: x in Write(d, t, save).durable ==> Publish.Sound(x)
  {}

  lemma RpcWired(w: World, e: Event)
    requires WiredWorld(w) && Allowed(w, e) && IsRpc(e) && !w.poisoned
    ensures WiredWorld(Step(w, e))
  {
    CallWired(w.inner, e);
    WriteSound(w.disk, Call(w.inner, e).inner.publish, SaveOf(e));
  }

  /**
    Every event keeps the invariant, including RPCs that fail midway, panics, crashes and
    restarts; the one that does not is creating a port under the last 32-bit id.
   */
  lemma StepWired(w: World, e: Event)
    requires WiredWorld(w) && Possible(w, e)
    ensures WiredWorld(Step(w, e)) <==> !TakesLastId(w, e)
  {
    if TakesLastId(w, e) {
      LastIdUnwires(w.inner, e.name, e.save.Saved?);
    } else if !w.poisoned || !IsRpc(e) {
      AllowedWired(w, e);
    }
  }

  lemma AllowedWired(w: World, e: Event)
    requires WiredWorld(w) && Allowed(w, e) && (w.poisoned ==> !IsRpc(e))
    ensures WiredWorld(Step(w, e))
  {
    match e {
      case Restart => StartWired(w.disk.live);
      case PowerLoss(kept) => StartWired(kept);
      case Frame(name, me, frame, env) => PumpWired(w.inner, name, me, frame, env);
      case Tick(_, _, _, _, _, _) => SameFabricWired(w.inner, SupervisePasst(w.inner, e));
      case Uplink(name, mac) => SameFabricWired(w.inner, LearnUplink(w.inner, name, mac));
      case _ => RpcWired(w, e);
    }
  }

  /** The invariant holds in every reachable state. */
  lemma {:induction false} RunWired(events: seq<Event>)
    requires AllowedRun(GENESIS, events)
    ensures WiredWorld(Run(GENESIS, events))
  {
    if events != [] {
      var init := events[..|events| - 1];
      RunWired(init);
      StepWired(Run(GENESIS, init), events[|events| - 1]);
    }
  }
}
