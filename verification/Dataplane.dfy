/**
  The dataplane object (dataplane.rs): the RPC methods as they update the shared maps in place,
  exit early, save, and spawn or stop passt, over the real switch engine, publish registry and
  state directory. The object carries its history as ghost state: it is at all times the
  state machine run on that history, so every theorem about runs is a theorem about it.
 */
module Dataplane {
  import opened Base
  import opened Daemon
  import opened Isolation
  import opened StateFile
  import opened Wiring
  import Cidr
  import Fabric
  import Frames
  import Gateway
  import Ipam
  import Lru
  import Passt
  import Publish

  class Dataplane {
    var networks: map<string, NetworkEntry>
    var ports: map<string, LivePort>
    var names: map<PortId, string>
    var nextPortId: PortId
    var gateway: Gateway.Gateway
    var passts: map<string, Passt.Slot>
    var poisoned: bool
    const engine: Fabric.Engine
    const registry: Publish.Registry
    const disk: StateDir
    ghost var history: seq<Event>

    ghost function State(): Inner
      reads this, engine, engine.table, registry
    {
      Inner(networks, ports, names, nextPortId, engine.View(), gateway, passts, registry.entries)
    }

    /** The maps as the seams ahead of the switch see them. */
    function Maps(): Inner
      reads this, registry
    {
      Inner(networks, ports, names, nextPortId, Fabric.EMPTY, gateway, passts, registry.entries)
    }

    ghost predicate Ready()
      reads engine, engine.table, disk
    {
      engine.Valid() && Safe(disk.dir)
    }

    ghost function Now(): World
      requires Ready()
      reads this, engine, engine.table, registry, disk
    {
      World(State(), View(disk.dir), poisoned)
    }

    /** The object is where the state machine stands after its history. */
    ghost predicate Valid()
      reads this, engine, engine.table, registry, disk
    {
      Ready() && AllowedRun(GENESIS, history) && Now() == Run(GENESIS, history)
    }

    /** So the maps always agree. */
    lemma ValidIsWired()
      requires Valid()
      ensures WiredWorld(Now())
    {
      RunWired(history);
    }

    /** The state and the disk after an RPC: saved as far as the file system let it, if the RPC got to saving. */
    ghost predicate Became(d: Done, before: Dir, fails: Reached)
      reads this, engine, engine.table, registry, disk
    {
      && State() == d.inner && Ready()
      && disk.dir == if d.saves then SaveUpTo(before, d.inner.publish, fails) else before
    }

    /**
      A daemon starts, for the first time or again: `before` is everything that happened on this
      state directory and `start` how the last life ended.
     */
    constructor (disk: StateDir, ghost before: seq<Event>, ghost start: Event)
      requires Safe(disk.dir) && AllowedRun(GENESIS, before)
      requires (start.Restart? || start.PowerLoss?) && Possible(Run(GENESIS, before), start)
      requires Step(Run(GENESIS, before), start).disk == View(disk.dir)
      ensures Valid() && history == before + [start] && this.disk == disk
      ensures fresh(engine) && fresh(engine.table) && fresh(registry)
    {
      networks, ports, names, nextPortId := map[], map[], map[], 1;
      gateway, passts, poisoned := Gateway.EMPTY, map[], false;
      engine := new Fabric.Engine();
      registry := new Publish.Registry(Load(disk.dir.main).value);
      this.disk := disk;
      history := before + [start];
      new;
      Extends(before, start);
    }

    method Persist(fails: Reached) returns (ok: bool)
      requires Safe(disk.dir)
      modifies disk
      ensures Safe(disk.dir) && disk.dir == SaveUpTo(old(disk.dir), registry.entries, fails) && ok == fails.Finished?
    {
      ok := disk.Save(registry.entries, fails);
    }

    // ---- the RPC handlers, once the lock is held -----------------------------------------------------------

    method CreateNetwork(p: NetParams, fails: Reached) returns (r: Result<Value, RpcError>)
      requires Ready()
      modifies this`networks, this`gateway, disk
      ensures var d := Daemon.CreateNetwork(old(State()), p, fails.Finished?);
        r == d.result && Became(d, old(disk.dir), fails)
    {
      if p.name in networks {
        return if networks[p.name].createdWith == p then Ok(Null) else Err(Conflict);
      }
      var pool := Cidr.NewPool(p.start, p.end);
      if pool.Err? {
        return Err(InvalidParams);
      }
      var net := Cidr.NewNetwork(p.name, p.addr, p.prefix, p.gateway, pool.value);
      if net.Err? {
        return Err(InvalidParams);
      }
      gateway := gateway.(networks := gateway.networks[net.value.name := net.value]);
      networks := networks[p.name := NetworkEntry(net.value, map[], p)];
      var ok := Persist(fails);
      return if ok then Ok(Null) else Err(Internal);
    }

    method DeleteNetwork(name: string, fails: Reached) returns (r: Result<Value, RpcError>)
      requires Ready()
      modifies this`networks, this`gateway, disk
      ensures var d := Daemon.DeleteNetwork(old(State()), name, fails.Finished?);
        r == d.result && Became(d, old(disk.dir), fails)
    {
      gateway := gateway.(networks := gateway.networks - {name});
      if name !in networks {
        return Err(NotFound);
      }
      networks := networks - {name};
      var ok := Persist(fails);
      return if ok then Ok(Null) else Err(Internal);
    }

    method CreatePort(name: string, bound: bool, fails: Reached) returns (r: Result<Value, RpcError>)
      requires Ready()
      modifies this`ports, this`names, this`nextPortId, engine, disk
      ensures var d := Daemon.CreatePort(old(State()), name, bound, fails.Finished?);
        r == d.result && Became(d, old(disk.dir), fails)
    {
      if name in ports {
        return Ok(Null);
      }
      if !bound {
        return Err(Internal);
      }
      var id := nextPortId;
      nextPortId := (nextPortId + 1) % 0x1_0000_0000;
      engine.Add(id, "");
      names := names[id := name];
      ports := ports[name := LivePort(id, None, None)];
      var ok := Persist(fails);
      return if ok then Ok(Null) else Err(Internal);
    }

    method DeletePort(name: string, fails: Reached) returns (r: Result<Value, RpcError>)
      requires Ready()
      modifies this`networks, this`ports, this`names, this`gateway, this`passts, engine, registry, disk
      ensures var d := Daemon.DeletePort(old(State()), name, fails.Finished?);
        r == d.result && Became(d, old(disk.dir), fails)
    {
      if name !in ports {
        return Err(NotFound);
      }
      var p := ports[name];
      ports := ports - {name};
      if p.network.Some? && p.mac.Some? && p.network.value in networks {
        var n := p.network.value;
        networks := networks[n := networks[n].(bindings := Ipam.Release(networks[n].bindings, p.mac.value).0)];
      }
      var _ := engine.Remove(p.id);
      gateway := gateway.(ports := gateway.ports - {p.id});
      names := names - {p.id};
      var _ := registry.WithdrawPort(name);
      var ok := Persist(fails);
      if !ok {
        return Err(Internal);
      }
      passts := passts - {name};
      return Ok(Null);
    }

    /** Leaves a live slot with the wanted configuration alone, else replaces the process. */
    method EnsurePasst(port: string, net: Cidr.Network, vmIp: Ip, slice: Publish.Slice, spawned: bool, now: nat)
      returns (up: bool)
      modifies this`passts
      ensures (State(), up) == Daemon.EnsurePasst(old(State()), port, net, vmIp, slice, spawned, now)
    {
      var config := Passt.ConfigFor(vmIp, net, slice);
      var slot := if port in passts then passts[port] else Passt.Slot(config, false, 0, None, None);
      if slot.live && slot.desired == config {
        assert passts == passts[port := slot];
        return true;
      }
      slot := slot.(live := false, desired := config);
      if spawned {
        slot := slot.(failures := 0, nextRetry := None, live := true);
      } else {
        var failures := if slot.failures == U32_MAX then U32_MAX else slot.failures + 1;
        slot := slot.(failures := failures, nextRetry := Some(now + Passt.Backoff(failures)));
      }
      passts := passts[port := slot];
      return spawned;
    }

    method AttachPort(port: string, network: string, mac: Mac, spawned: bool, now: nat, fails: Reached)
      returns (r: Result<Value, RpcError>)
      requires Ready()
      modifies this`networks, this`ports, this`gateway, this`passts, engine, disk
      ensures var d := Daemon.AttachPort(old(State()), port, network, mac, spawned, now, fails.Finished?);
        r == d.result && Became(d, old(disk.dir), fails)
    {
      if port !in ports {
        return Err(NotFound);
      }
      if ports[port].network == Some(network) && ports[port].mac == Some(mac) {
        return Ok(Null);
      }
      if ports[port].network.Some? {
        return Err(Conflict);
      }
      if network !in networks {
        return Err(NotFound);
      }
      var net := networks[network].net;
      var (bindings, ip) := Ipam.Allocate(net, networks[network].bindings, mac);
      if ip.Err? {
        return Err(Conflict);
      }
      networks := networks[network := networks[network].(bindings := bindings)];
      r := Enter(port, network, mac, ip.value, spawned, now, fails);
    }

    /** The attachment proper, once the address is reserved. */
    method Enter(port: string, network: string, mac: Mac, ip: Ip, spawned: bool, now: nat, fails: Reached)
      returns (r: Result<Value, RpcError>)
      requires Ready() && port in ports && network in networks
      modifies this`ports, this`gateway, this`passts, engine, disk
      ensures var d := Join(old(State()), port, network, mac, ip, spawned, now, fails.Finished?);
        r == d.result && Became(d, old(disk.dir), fails)
    {
      var id := ports[port].id;
      ports := ports[port := LivePort(id, Some(network), Some(mac))];
      engine.Add(id, network);
      gateway := gateway.(ports := gateway.ports[id := network]);
      var up := EnsurePasst(port, networks[network].net, ip, map[], spawned, now);
      if !up {
        return Err(Internal);
      }
      var ok := Persist(fails);
      return if ok then Ok(Null) else Err(Internal);
    }

    method DetachPort(name: string, fails: Reached) returns (r: Result<Value, RpcError>)
      requires Ready()
      modifies this`networks, this`ports, this`gateway, this`passts, engine, registry, disk
      ensures var d := Daemon.DetachPort(old(State()), name, fails.Finished?);
        r == d.result && Became(d, old(disk.dir), fails)
    {
      if name !in ports {
        return Err(NotFound);
      }
      var p := ports[name];
      ports := ports[name := LivePort(p.id, None, None)];
      gateway := gateway.(ports := gateway.ports - {p.id});
      var _ := engine.Remove(p.id);
      if p.network.Some? && p.mac.Some? {
        var n := p.network.value;
        if n !in networks {
          return Err(NotFound);
        }
        var (bindings, released) := Ipam.Release(networks[n].bindings, p.mac.value);
        if released.Err? {
          return Err(NotFound);
        }
        networks := networks[n := networks[n].(bindings := bindings)];
      }
      r := Withdraw(name, fails);
    }

    /** The end of a detach: entries freed, saved, passt stopped. */
    method Withdraw(name: string, fails: Reached) returns (r: Result<Value, RpcError>)
      requires Ready()
      modifies this`passts, registry, disk
      ensures var d := FinishDetach(old(State()), name, fails.Finished?);
        r == d.result && Became(d, old(disk.dir), fails)
    {
      var _ := registry.WithdrawPort(name);
      var ok := Persist(fails);
      if !ok {
        return Err(Internal);
      }
      passts := passts - {name};
      return Ok(Null);
    }

    method AllocateIp(network: string, mac: Mac) returns (r: Result<Value, RpcError>)
      requires Ready()
      modifies this`networks
      ensures var d := Daemon.AllocateIp(old(State()), network, mac);
        r == d.result && Became(d, old(disk.dir), Finished)
    {
      if network !in networks {
        return Err(NotFound);
      }
      var (bindings, ip) := Ipam.Allocate(networks[network].net, networks[network].bindings, mac);
      if ip.Err? {
        return Err(Conflict);
      }
      networks := networks[network := networks[network].(bindings := bindings)];
      return Ok(Address(ip.value));
    }

    method ReleaseIp(network: string, mac: Mac, fails: Reached) returns (r: Result<Value, RpcError>)
      requires Ready()
      modifies this`networks, disk
      ensures var d := Daemon.ReleaseIp(old(State()), network, mac, fails.Finished?);
        r == d.result && Became(d, old(disk.dir), fails)
    {
      if network !in networks {
        return Err(NotFound);
      }
      var (bindings, released) := Ipam.Release(networks[network].bindings, mac);
      if released.Err? {
        return Err(NotFound);
      }
      networks := networks[network := networks[network].(bindings := bindings)];
      var ok := Persist(fails);
      return if ok then Ok(Null) else Err(Internal);
    }

    /** Brings the passt of an attached port in line with its published entries. */
    method RefreshPasst(port: string, value: Value, spawned: bool, now: nat) returns (r: Result<Value, RpcError>)
      modifies this`passts
      ensures var d := Refresh(old(State()), port, value, spawned, now);
        State() == d.inner && r == d.result
    {
      if port !in ports || ports[port].network.None? {
        return Err(NotFound);
      }
      if ports[port].mac.None? {
        return Err(Internal);
      }
      var network := ports[port].network.value;
      if network !in networks {
        return Err(NotFound);
      }
      var ip := Ipam.Lookup(networks[network].bindings, ports[port].mac.value);
      if ip.None? {
        return Err(NotFound);
      }
      var published := Publish.SliceOf(registry.entries, port);
      var up := EnsurePasst(port, networks[network].net, ip.value, published, spawned, now);
      return if up then Ok(value) else Err(Internal);
    }

    method PublishPort(port: string, vm: u16, fails: Reached, spawned: bool, now: nat)
      returns (r: Result<Value, RpcError>)
      requires Ready()
      modifies this`passts, registry, disk
      ensures var d := Daemon.PublishPort(old(State()), port, vm, fails.Finished?, spawned, now);
        r == d.result && Became(d, old(disk.dir), fails)
    {
      if port !in ports || ports[port].network.None? {
        return Err(NotFound);
      }
      var host := Publish.Get(registry.entries, port, vm);
      if host.None? {
        host := registry.Claim(port, vm, PUBLISH_LO, PUBLISH_HI);
        if host.None? {
          return Err(Conflict);
        }
      }
      var ok := Persist(fails);
      if !ok {
        return Err(Internal);
      }
      r := RefreshPasst(port, HostPort(host.value), spawned, now);
    }

    method UnpublishPort(port: string, vm: u16, fails: Reached, spawned: bool, now: nat)
      returns (r: Result<Value, RpcError>)
      requires Ready()
      modifies this`passts, registry, disk
      ensures var d := Daemon.UnpublishPort(old(State()), port, vm, fails.Finished?, spawned, now);
        r == d.result && Became(d, old(disk.dir), fails)
    {
      var removed := registry.Withdraw(port, vm);
      if removed.None? {
        return Err(NotFound);
      }
      var ok := Persist(fails);
      if !ok {
        return Err(Internal);
      }
      if Publish.SliceOf(registry.entries, port) == map[] {
        passts := passts - {port};
        return Ok(Null);
      }
      r := RefreshPasst(port, Null, spawned, now);
    }

    // ---- what holds the lock ---------------------------------------------------------------------------------

    /**
      One RPC: a poisoned lock is reported, anything else goes to its handler. It is one step of
      the state machine on the maps and the state directory, and the object stays valid; the one
      exception is the port that takes the last 32-bit id.
     */
    method Dispatch(e: Event, fails: Reached) returns (r: Result<Value, RpcError>)
      requires Valid() && IsRpc(e) && (e.RpcAllocateIp? || e.save == OutcomeOf(fails))
      modifies this, engine, registry, disk
      ensures history == old(history) + [e] && Ready()
      ensures Now() == Step(old(Now()), e)
      ensures r == if old(poisoned) then Err(Internal) else Call(old(State()), e).result
      ensures Valid() <==> !old(TakesLastId(Now(), e))
    {
      Extends(history, e);
      if poisoned {
        history := history + [e];
        return Err(Internal);
      }
      ghost var w, d, dir := Now(), Call(State(), e), disk.dir;
      SaveRefinesWrite(dir, d.inner.publish, fails);
      r := Handle(e, fails);
      RpcStep(w, e);
      assert Now() == Step(w, e);
      history := history + [e];
    }

    method Handle(e: Event, fails: Reached) returns (r: Result<Value, RpcError>)
      requires Ready() && IsRpc(e) && (e.RpcAllocateIp? || e.save == OutcomeOf(fails))
      modifies this`networks, this`ports, this`names, this`nextPortId, this`gateway, this`passts
      modifies engine, registry, disk
      ensures var d := Call(old(State()), e);
        r == d.result && Became(d, old(disk.dir), fails)
    {
      match e {
        case RpcCreateNetwork(p, _) => r := CreateNetwork(p, fails);
        case RpcDeleteNetwork(name, _) => r := DeleteNetwork(name, fails);
        case RpcCreatePort(name, bound, _) => r := CreatePort(name, bound, fails);
        case RpcDeletePort(name, _) => r := DeletePort(name, fails);
        case RpcAttachPort(name, network, mac, spawned, now, _) =>
          r := AttachPort(name, network, mac, spawned, now, fails);
        case RpcDetachPort(name, _) => r := DetachPort(name, fails);
        case RpcAllocateIp(network, mac) => r := AllocateIp(network, mac);
        case RpcReleaseIp(network, mac, _) => r := ReleaseIp(network, mac, fails);
        case RpcPublishPort(name, vm, _, spawned, now) => r := PublishPort(name, vm, fails, spawned, now);
        case RpcUnpublishPort(name, vm, _, spawned, now) => r := UnpublishPort(name, vm, fails, spawned, now);
      }
    }

    /** One supervisor tick on the port's pump. */
    method Supervise(port: string, exited: bool, reaped: nat, checked: nat, spawned: bool, tried: nat)
      requires Valid()
      modifies this`passts, this`history
      ensures Valid() && history == old(history) + [Tick(port, exited, reaped, checked, spawned, tried)]
    {
      ghost var e := Tick(port, exited, reaped, checked, spawned, tried);
      Extends(history, e);
      history := history + [e];
      if !poisoned {
        Tend(port, exited, reaped, checked, spawned, tried);
      }
    }

    /** Exit detection and respawn for one port's slot. */
    method Tend(port: string, exited: bool, reaped: nat, checked: nat, spawned: bool, tried: nat)
      modifies this`passts
      ensures State() == SupervisePasst(old(State()), Tick(port, exited, reaped, checked, spawned, tried))
    {
      if port !in passts {
        return;
      }
      var slot := passts[port];
      if slot.live && exited {
        slot := Passt.Failed(slot, reaped);
      }
      if !slot.live && (slot.nextRetry.None? || checked >= slot.nextRetry.value) {
        slot := if spawned then Passt.Running(slot) else Passt.Failed(slot, tried);
      }
      passts := passts[port := slot];
    }

    /** The ingress reader notes the source MAC of a frame from the port's passt. */
    method NoteUplink(port: string, mac: Mac)
      requires Valid()
      modifies this`passts, this`history
      ensures Valid() && history == old(history) + [Uplink(port, mac)]
    {
      Extends(history, Uplink(port, mac));
      history := history + [Uplink(port, mac)];
      if !poisoned && port in passts {
        passts := passts[port := passts[port].(mac := Some(mac))];
      }
    }

    /**
      One VM frame on the port's pump: the object stays valid unless the table's clock wraps, a
      panic leaves the lock poisoned, and a frame from an attached port goes nowhere but to that
      port, its passt, or unchanged to the other ports of its network.
     */
    method PumpFrame(name: string, me: PortId, frame: Bytes, env: Services) returns (outs: set<Out>)
      requires Valid()
      modifies this`poisoned, this`history, engine.table
      ensures history == old(history) + [Frame(name, me, frame, env)]
      ensures Valid() <==> engine.Valid()
      ensures old(engine.table.clock) + 1 < Lru.CLOCK_MODULUS ==> engine.Valid()
      ensures outs == Outputs(old(Now()), Frame(name, me, frame, env))
      ensures old(Attached(State(), name)) && old(ports)[name].id == me ==>
        forall o :: o in outs ==> StaysOnNetwork(old(State()), name, old(ports)[name].network.value, frame, o)
    {
      ghost var e := Frame(name, me, frame, env);
      ghost var before := history;
      Extends(history, e);
      history := history + [e];
      outs := {};
      if !poisoned {
        outs, poisoned := Pass(name, me, frame, env);
      }
      if old(Attached(State(), name)) && old(ports)[name].id == me {
        forall o | o in outs
          ensures StaysOnNetwork(old(State()), name, old(ports)[name].network.value, frame, o)
        {
          NetworksAreIsolated(before, e, old(ports)[name].network.value, o);
        }
      }
    }

    /** The seams ahead of the switch, in order; then the switch. */
    method Pass(name: string, me: PortId, frame: Bytes, env: Services) returns (outs: set<Out>, panics: bool)
      requires Ready()
      modifies engine.table
      ensures Pumped(State(), outs, panics) == Pump(old(State()), name, me, frame, env)
      ensures old(engine.table.clock) + 1 < Lru.CLOCK_MODULUS ==> engine.Valid()
    {
      SwitchedIffUnclaimed(State(), name, me, frame, env);
      var claimed;
      claimed, outs, panics := Seams(name, me, frame, env);
      if !claimed {
        var egress := engine.Deliver(me, frame);
        outs := Copies(Maps(), egress, me, frame);
      }
    }

    /** DHCP and DNS, ARP, ICMP echo, WAN egress, uplink replies: the first that takes the frame. */
    method Seams(name: string, me: PortId, frame: Bytes, env: Services)
      returns (claimed: bool, outs: set<Out>, panics: bool)
      ensures claimed <==> !Unclaimed(State(), name, me, frame, env)
      ensures claimed ==> Pumped(State(), outs, panics) == Pump(State(), name, me, frame, env)
      ensures !claimed ==> !panics
    {
      claimed, outs, panics := true, {}, false;
      var maps := Maps();
      SeamsIgnoreSwitch(State(), maps.switch, name, frame, env);
      var service := ServiceReply(maps, name, frame, env);
      if service.Panic? {
        panics := true;
        return;
      }
      if service.Just? {
        outs := InjectTo(maps, name, service.value);
        return;
      }
      var ethertype := Frames.Ethertype(frame);
      var action := Gateway.HandleFrame(gateway, me, frame);
      if ethertype == Some(Frames.ETHERTYPE_ARP) && action.ArpReply? {
        outs := InjectTo(maps, name, action.frame);
        return;
      }
      if ethertype == Some(Frames.ETHERTYPE_IPV4) {
        var echo := IcmpReply(maps, name, frame, env);
        if echo.Panic? {
          panics := true;
          return;
        }
        if echo.Just? {
          outs := InjectTo(maps, name, echo.value);
          return;
        }
        if action.Wan? {
          outs := PasstEgress(maps, name, action.frame);
          return;
        }
      }
      if ForUplink(maps, name, frame) {
        outs := PasstEgress(maps, name, frame);
        return;
      }
      claimed := false;
    }
  }

  lemma SeamsIgnoreSwitch(s: Inner, switch: Fabric.Switch, name: string, frame: Bytes, env: Services)
    ensures var m := s.(switch := switch);
      && ServiceReply(m, name, frame, env) == ServiceReply(s, name, frame, env)
      && IcmpReply(m, name, frame, env) == IcmpReply(s, name, frame, env)
      && ForUplink(m, name, frame) == ForUplink(s, name, frame)
  {}

  /** One more event on a run. */
  lemma Extends(events: seq<Event>, e: Event)
    ensures Run(GENESIS, events + [e]) == Step(Run(GENESIS, events), e)
    ensures AllowedRun(GENESIS, events + [e]) <==> AllowedRun(GENESIS, events) && Allowed(Run(GENESIS, events), e)
  {
    assert (events + [e])[..|events|] == events;
  }
}
