/**
  What each RPC means to its caller, in any state where the maps agree: when it is refused, what
  it leaves when it fails midway, and what a second call or the opposite call does to it.
 */
module Rpcs {
  import opened Base
  import opened Daemon
  import opened Reservation
  import opened Wiring
  import Cidr
  import Coherence
  import Fabric
  import Ipam
  import Passt
  import Publish

  // ---- networks ------------------------------------------------------------------------------------------

  /** The parameters describe a network the daemon accepts. */
  ghost predicate Acceptable(p: NetParams)
  {
    p.start <= p.end && p.prefix <= 32 && Cidr.WellFormed(NetworkOf(p))
  }

  /** The network the parameters describe. */
  function NetworkOf(p: NetParams): Cidr.Network
    requires p.prefix <= 32
  {
    Cidr.Network(p.name, Cidr.Block(p.addr, p.prefix), p.gateway, Cidr.Pool(p.start, p.end))
  }

  lemma CreateNetworkOutcome(s: Inner, p: NetParams, saved: bool)
    requires p.name !in s.networks
    ensures var d := CreateNetwork(s, p, saved);
      if !Acceptable(p) then d == Refused(s, InvalidParams)
      else
        var net := NetworkOf(p);
        d == Persist(s.(gateway := s.gateway.(networks := s.gateway.networks[p.name := net]),
                        networks := s.networks[p.name := NetworkEntry(net, map[], p)]), saved)
  {
    if p.start <= p.end {
      Cidr.AcceptedIffWellFormed(p.name, p.addr, p.prefix, p.gateway, Cidr.Pool(p.start, p.end));
    }
  }

  /**
    CreateNetwork is refused iff the name is taken with other parameters or the new parameters
    are not acceptable, and then changes nothing. Otherwise the network exists afterwards, even
    when the save failed, so that repeating the call succeeds and changes nothing; and deleting
    a newly created network brings back the exact state before it.
   */
  lemma CreateNetworkMeans(s: Inner, p: NetParams, saved: bool, again: bool)
    requires Wired(s)
    ensures var d := CreateNetwork(s, p, saved);
      && (d.result == Err(Conflict) <==> p.name in s.networks && s.networks[p.name].createdWith != p)
      && (d.result == Err(InvalidParams) <==> p.name !in s.networks && !Acceptable(p))
      && (d.result == Err(Conflict) || d.result == Err(InvalidParams) || p.name in s.networks ==>
            d.inner == s && !d.saves)
      && (p.name in s.networks && s.networks[p.name].createdWith == p ==> d.result == Ok(Null))
      && (p.name !in s.networks && Acceptable(p) ==> d.saves && d.result == if saved then Ok(Null) else Err(Internal))
      && (d.result.Ok? || d.result == Err(Internal) ==>
            && p.name in d.inner.networks && d.inner.networks[p.name].createdWith == p
            && (forall n :: n in s.networks ==> n in d.inner.networks && d.inner.networks[n] == s.networks[n])
            && CreateNetwork(d.inner, p, again) == Done(d.inner, Ok(Null), false))
      && (p.name !in s.networks && Acceptable(p) ==>
            && d.inner.networks[p.name] == NetworkEntry(NetworkOf(p), map[], p)
            && DeleteNetwork(d.inner, p.name, again).inner == s)
  {
    if p.name !in s.networks {
      CreateNetworkOutcome(s, p, saved);
      if Acceptable(p) {
        var s' := CreateNetwork(s, p, saved).inner;
        assert s'.networks - {p.name} == s.networks;
        assert s'.gateway.networks - {p.name} == s.gateway.networks;
      }
    }
  }

  /**
    DeleteNetwork is refused iff there is no such network, and then changes nothing, although it
    has already touched the gateway when it looks. Otherwise the name is gone from allocators
    and gateway, even when the save failed; ports and all other networks are as they were.
   */
  lemma DeleteNetworkMeans(s: Inner, name: string, saved: bool)
    requires Wired(s)
    ensures var d := DeleteNetwork(s, name, saved);
      && (if name !in s.networks then d == Done(s, Err(NotFound), false)
          else d.saves && d.result == if saved then Ok(Null) else Err(Internal))
      && name !in d.inner.networks && name !in d.inner.gateway.networks
      && d.inner.ports == s.ports && d.inner.gateway.ports == s.gateway.ports && d.inner.switch == s.switch
      && (forall n :: n != name ==>
            (n in d.inner.networks <==> n in s.networks) && (n in s.networks ==> d.inner.networks[n] == s.networks[n]))
  {
    if name !in s.networks {
      assert s.gateway.networks - {name} == s.gateway.networks;
    }
  }

  // ---- ports ---------------------------------------------------------------------------------------------

  /** The id is the port's alone: no name, switch port or gateway port carried it before. */
  predicate FreshId(s: Inner, id: PortId)
  {
    && id !in s.names && id !in s.switch.ports && id !in s.gateway.ports
    && (forall n :: n in s.ports ==> s.ports[n].id < id)
    && (forall b :: b in s.switch.recent ==> b.port < id)
  }

  /**
    CreatePort leaves an unattached port whose id no port, switch entry, gateway entry or learned
    MAC has carried; for a name in use, or when the socket cannot be bound, it changes nothing.
    Deleting a newly created port brings back the exact state before it, but for the id that is
    spent and whatever was still recorded under the name.
   */
  lemma CreatePortMeans(s: Inner, name: string, bound: bool, saved: bool)
    requires Wired(s)
    ensures var d := CreatePort(s, name, bound, saved);
      if name in s.ports then d == Done(s, Ok(Null), false)
      else if !bound then d == Done(s, Err(Internal), false)
      else
        && d.inner.ports == s.ports[name := LivePort(s.nextPortId, None, None)]
        && FreshId(s, d.inner.ports[name].id)
        && d.saves && d.result == (if saved then Ok(Null) else Err(Internal))
        && d.inner.switch.ports == s.switch.ports[s.nextPortId := ""]
        && CreatePort(d.inner, name, bound, saved) == Done(d.inner, Ok(Null), false)
        && DeletePort(d.inner, name, true).inner
           == s.(nextPortId := (s.nextPortId + 1) % 0x1_0000_0000,
                 publish := s.publish - {name}, passts := s.passts - {name})
  {
    if name !in s.ports {
      var id, s' := s.nextPortId, CreatePort(s, name, true, saved).inner;
      forall i | i in s.names ensures i < id { assert IdWired(s, i); }
      forall n | n in s.ports ensures s.ports[n].id < id { assert PortWired(s, n) && IdWired(s, s.ports[n].id); }
      assert s'.ports - {name} == s.ports && s'.names - {id} == s.names;
      assert s'.switch.ports - {id} == s.switch.ports && s'.gateway.ports - {id} == s.gateway.ports;
    }
  }

  /** Nothing of the port or its id is left in any map but, perhaps, a passt slot. */
  predicate Erased(s: Inner, name: string, id: PortId)
  {
    && name !in s.ports && name !in s.publish
    && id !in s.names && id !in s.switch.ports && id !in s.gateway.ports
  }

  /**
    DeletePort is refused iff there is no such port, and then changes nothing. Otherwise nothing
    of the port is left in any map, even when the save failed; only its slot then stays. Every
    other port is as it was.
   */
  lemma DeletePortMeans(s: Inner, name: string, saved: bool)
    requires Wired(s)
    ensures var d := DeletePort(s, name, saved);
      if name !in s.ports then d == Done(s, Err(NotFound), false)
      else
        && d.saves && d.result == (if saved then Ok(Null) else Err(Internal))
        && Erased(d.inner, name, s.ports[name].id)
        && (name in d.inner.passts <==> name in s.passts && !saved)
        && Departed(s, d.inner, name)
  {
    if name in s.ports {
      Coherence.DeleteSlot(s, name, saved);
      DeleteDeparts(s, name, saved);
    }
  }

  /** The port is free, the network exists, and it has or can give the MAC an address. */
  predicate Attachable(s: Inner, port: string, network: string, mac: Mac)
  {
    && port in s.ports && s.ports[port].network.None? && network in s.networks
    && Ipam.CanServe(s.networks[network].net, s.networks[network].bindings, mac)
  }

  /** What an attach that changes nothing reports. */
  function AttachRefusal(s: Inner, port: string, network: string, mac: Mac): Result<Value, RpcError>
  {
    if Holds(s, port, network, mac) then Ok(Null)
    else if Attached(s, port) || (port in s.ports && network in s.networks) then Err(Conflict)
    else Err(NotFound)
  }

  /** The port's slot is running this configuration. */
  predicate Runs(s: Inner, port: string, config: Passt.Config)
  {
    port in s.passts && s.passts[port].live && s.passts[port].desired == config
  }

  /** The port joined `network` under `mac` at `ip`; nothing else of ports, allocators, entries or other slots moved. */
  predicate Joined(s: Inner, s': Inner, port: string, network: string, mac: Mac, ip: Ip)
  {
    && port in s.ports && network in s.networks
    && s'.ports == s.ports[port := LivePort(s.ports[port].id, Some(network), Some(mac))]
    && s'.networks == s.networks[network := s.networks[network].(bindings := s.networks[network].bindings[mac := ip])]
    && s'.publish == s.publish && s'.names == s.names && s'.nextPortId == s.nextPortId
    && s'.passts.Keys == s.passts.Keys + {port}
    && (forall n :: n in s.passts && n != port ==> s'.passts[n] == s.passts[n])
  }

  /**
    AttachPort changes something iff the port is free, the network exists and the pool can serve
    the MAC. Then the port holds a reservation (the one the MAC had, else the least free address)
    and its slot wants that address with no forwards, even when the spawn or the save failed;
    every other port, binding and slot is as it was. It succeeds iff the port already holds just
    that attachment, or its slot came up (or was up already) and the save succeeded; it saves iff
    the slot is up. A port attached otherwise, or a used-up pool, is a conflict.
   */
  lemma AttachPortMeans(s: Inner, port: string, network: string, mac: Mac, spawned: bool, now: nat, saved: bool)
    requires Wired(s)
    ensures var d := AttachPort(s, port, network, mac, spawned, now, saved);
      if !Attachable(s, port, network, mac)
      then d == Done(s, AttachRefusal(s, port, network, mac), false)
      else
        && PortReserved(d.inner, port) && Joined(s, d.inner, port, network, mac, AddressOf(d.inner, port))
        && Ok(AddressOf(d.inner, port)) == Ipam.Allocate(s.networks[network].net, s.networks[network].bindings, mac).1
        && d.inner.passts[port].desired == Passt.ConfigFor(AddressOf(d.inner, port), s.networks[network].net, map[])
        && (d.inner.passts[port].live <==> spawned || Runs(s, port, d.inner.passts[port].desired))
        && d.saves == d.inner.passts[port].live
        && d.result == (if d.inner.passts[port].live && saved then Ok(Null) else Err(Internal))
  {
    if Attachable(s, port, network, mac) {
      AttachJoins(s, port, network, mac, spawned, now, saved);
    } else {
      AttachRefused(s, port, network, mac, spawned, now, saved);
    }
  }

  lemma AttachRefused(s: Inner, port: string, network: string, mac: Mac, spawned: bool, now: nat, saved: bool)
    requires Wired(s) && !Attachable(s, port, network, mac)
    ensures var d := AttachPort(s, port, network, mac, spawned, now, saved);
      d == Done(s, AttachRefusal(s, port, network, mac), false)
  {
    if network in s.networks {
      assert NetworkWired(s, network);
      Ipam.ServesIff(s.networks[network].net, s.networks[network].bindings, mac);
    }
  }

  lemma AttachJoins(s: Inner, port: string, network: string, mac: Mac, spawned: bool, now: nat, saved: bool)
    requires Wired(s) && Attachable(s, port, network, mac)
    ensures var d := AttachPort(s, port, network, mac, spawned, now, saved);
      && PortReserved(d.inner, port) && Joined(s, d.inner, port, network, mac, AddressOf(d.inner, port))
      && Ok(AddressOf(d.inner, port)) == Ipam.Allocate(s.networks[network].net, s.networks[network].bindings, mac).1
      && d.inner.passts[port].desired == Passt.ConfigFor(AddressOf(d.inner, port), s.networks[network].net, map[])
      && (d.inner.passts[port].live <==> spawned || Runs(s, port, d.inner.passts[port].desired))
      && d.saves == d.inner.passts[port].live
      && d.result == (if d.inner.passts[port].live && saved then Ok(Null) else Err(Internal))
  {
    var e := s.networks[network];
    assert NetworkWired(s, network);
    Ipam.ServesIff(e.net, e.bindings, mac);
    Ipam.AllocateMeans(e.net, e.bindings, mac);
    var (t, r) := Ipam.Allocate(e.net, e.bindings, mac);
    assert t == e.bindings[mac := r.value];
    JoinKeeps(WithBindings(s, network, t), port, network, mac, r.value, spawned, now, saved);
    assert AttachPort(s, port, network, mac, spawned, now, saved)
      == Join(WithBindings(s, network, t), port, network, mac, r.value, spawned, now, saved);
  }

  lemma JoinKeeps(s: Inner, port: string, network: string, mac: Mac, ip: Ip, spawned: bool, now: nat, saved: bool)
    requires port in s.ports && network in s.networks
    ensures var d := Join(s, port, network, mac, ip, spawned, now, saved);
      && d.inner.networks == s.networks
      && d.inner.ports == s.ports[port := LivePort(s.ports[port].id, Some(network), Some(mac))]
      && d.inner.publish == s.publish && d.inner.names == s.names && d.inner.nextPortId == s.nextPortId
      && d.inner.passts.Keys == s.passts.Keys + {port}
      && (forall n :: n in s.passts && n != port ==> d.inner.passts[n] == s.passts[n])
      && d.inner.passts[port].desired == Passt.ConfigFor(ip, s.networks[network].net, map[])
      && (d.inner.passts[port].live <==> spawned || Runs(s, port, d.inner.passts[port].desired))
      && d.saves == d.inner.passts[port].live
      && d.result == (if d.inner.passts[port].live && saved then Ok(Null) else Err(Internal))
  {}

  /**
    DetachPort is refused without effect iff there is no such port. Otherwise the port is off
    its network, the switch and the gateway, whatever happens next. If its reservation is gone
    already the call ends there, with its published entries and slot left behind; if not, its
    entries go, its slot too unless the save failed, and the save decides the result.
   */
  lemma DetachPortMeans(s: Inner, name: string, saved: bool)
    requires Wired(s)
    ensures var d := DetachPort(s, name, saved);
      if name !in s.ports then d == Done(s, Err(NotFound), false)
      else
        var id := s.ports[name].id;
        && d.inner.ports == s.ports[name := LivePort(id, None, None)]
        && id !in d.inner.switch.ports && id !in d.inner.gateway.ports
        && (d.result == Err(NotFound) <==> Attached(s, name) && !PortReserved(s, name))
        && (if d.result == Err(NotFound)
            then
              && d.inner.publish == s.publish && d.inner.passts == s.passts
              && d.inner.networks == s.networks && !d.saves
            else
              && name !in d.inner.publish && (name in d.inner.passts <==> name in s.passts && !saved)
              && d.saves && d.result == if saved then Ok(Null) else Err(Internal))
  {
    if name in s.ports {
      assert PortWired(s, name);
    }
  }

  /**
    Attaching a port under an unbound MAC and detaching it again brings back the exact state
    before, but for what it takes with it: its switch entry, its slot, and whatever was published
    for it.
   */
  lemma DetachUndoesAttach(s: Inner, port: string, network: string, mac: Mac, spawned: bool, now: nat, saved: bool)
    requires Wired(s) && Attachable(s, port, network, mac) && mac !in s.networks[network].bindings
    ensures var s' := AttachPort(s, port, network, mac, spawned, now, saved).inner;
      DetachPort(s', port, true).inner
      == s.(switch := Fabric.RemovePort(s.switch, s.ports[port].id),
            publish := s.publish - {port}, passts := s.passts - {port})
  {
    AttachPortMeans(s, port, network, mac, spawned, now, saved);
    assert PortWired(s, port) && NetworkWired(s, network);
    var e := s.networks[network];
    var ip := Ipam.Allocate(e.net, e.bindings, mac).1.value;
    AttachLeaves(s, port, network, mac, spawned, now, saved, ip);
    var s' := AttachPort(s, port, network, mac, spawned, now, saved).inner;
    Undo(s, s', port, network, mac, ip);
  }

  /** The whole state an attach under an unbound MAC leaves. */
  lemma AttachLeaves(s: Inner, port: string, network: string, mac: Mac, spawned: bool, now: nat, saved: bool, ip: Ip)
    requires port in s.ports && s.ports[port].network.None? && network in s.networks
    requires mac !in s.networks[network].bindings
    requires Ipam.Allocate(s.networks[network].net, s.networks[network].bindings, mac).1 == Ok(ip)
    ensures var s' := AttachPort(s, port, network, mac, spawned, now, saved).inner;
      && s'.passts - {port} == s.passts - {port}
      && s' == Plug(WithBindings(s, network, s.networks[network].bindings[mac := ip]), port, network, mac)
               .(passts := s'.passts)
  {}

  lemma Undo(s: Inner, s': Inner, port: string, network: string, mac: Mac, ip: Ip)
    requires port in s.ports && s.ports[port] == LivePort(s.ports[port].id, None, None) && network in s.networks
    requires mac !in s.networks[network].bindings && s.ports[port].id !in s.gateway.ports
    requires s'.passts - {port} == s.passts - {port}
    requires s' == Plug(WithBindings(s, network, s.networks[network].bindings[mac := ip]), port, network, mac)
                   .(passts := s'.passts)
    ensures DetachPort(s', port, true).inner
      == s.(switch := Fabric.RemovePort(s.switch, s.ports[port].id),
            publish := s.publish - {port}, passts := s.passts - {port})
  {
    var id := s.ports[port].id;
    assert s.networks[network].bindings[mac := ip] - {mac} == s.networks[network].bindings;
    assert s'.networks[network := s.networks[network]] == s.networks;
    assert s'.ports[port := LivePort(id, None, None)] == s.ports;
    assert s'.gateway.ports - {id} == s.gateway.ports;
    assert s'.switch.ports - {id} == s.switch.ports - {id};
  }

  // ---- addresses -----------------------------------------------------------------------------------------

  /**
    AllocateIP fails iff the network is unknown or its pool is used up by other MACs, and then
    changes nothing. The address it returns lies in the pool, is bound to that MAC alone, and is
    returned again by every repetition; releasing a MAC that was newly bound brings back the
    exact state before it.
   */
  lemma AllocateIpMeans(s: Inner, network: string, mac: Mac, saved: bool)
    requires Wired(s)
    ensures var d := AllocateIp(s, network, mac);
      && (d.result.Ok? <==>
            network in s.networks && Ipam.CanServe(s.networks[network].net, s.networks[network].bindings, mac))
      && !d.saves
      && (d.result.Err? ==> d.inner == s && d.result == Err(if network in s.networks then Conflict else NotFound))
      && (d.result.Ok? ==>
            var t := d.inner.networks[network].bindings;
            && mac in t && d.result.value == Address(t[mac]) && Ipam.InPool(s.networks[network].net, t[mac])
            && (forall m :: m in t && t[m] == t[mac] ==> m == mac)
            && AllocateIp(d.inner, network, mac) == d
            && (mac !in s.networks[network].bindings ==>
                  ReleaseIp(d.inner, network, mac, saved) == Persist(s, saved)))
  {
    if network in s.networks {
      var e := s.networks[network];
      assert NetworkWired(s, network);
      Ipam.ServesIff(e.net, e.bindings, mac);
      Ipam.AllocateMeans(e.net, e.bindings, mac);
      if Ipam.CanServe(e.net, e.bindings, mac) {
        AllocateTwice(s, network, mac);
        if mac !in e.bindings { ReleaseUndoesAllocate(s, network, mac, saved); }
      }
    }
  }

  lemma AllocateTwice(s: Inner, network: string, mac: Mac)
    requires network in s.networks && AllocateIp(s, network, mac).result.Ok?
    ensures AllocateIp(AllocateIp(s, network, mac).inner, network, mac) == AllocateIp(s, network, mac)
  {
    var s' := AllocateIp(s, network, mac).inner;
    assert s'.networks[network := s'.networks[network]] == s'.networks;
  }

  lemma ReleaseUndoesAllocate(s: Inner, network: string, mac: Mac, saved: bool)
    requires network in s.networks && mac !in s.networks[network].bindings && AllocateIp(s, network, mac).result.Ok?
    ensures ReleaseIp(AllocateIp(s, network, mac).inner, network, mac, saved) == Persist(s, saved)
  {
    var e, s' := s.networks[network], AllocateIp(s, network, mac).inner;
    assert s'.networks[network].bindings - {mac} == e.bindings;
    assert s'.networks[network := e] == s.networks;
  }

  /**
    ReleaseIP is refused iff the network or the MAC's binding is unknown, and then changes
    nothing; otherwise it frees that address, even when the save failed, and no other.
   */
  lemma ReleaseIpMeans(s: Inner, network: string, mac: Mac, saved: bool)
    requires Wired(s)
    ensures var d := ReleaseIp(s, network, mac, saved);
      if network !in s.networks || mac !in s.networks[network].bindings then d == Done(s, Err(NotFound), false)
      else
        var before, after := s.networks[network].bindings, d.inner.networks[network].bindings;
        && d.inner == WithBindings(s, network, after)
        && after.Keys == before.Keys - {mac} && after.Values == before.Values - {before[mac]}
        && d.saves && d.result == (if saved then Ok(Null) else Err(Internal))
  {
    if network in s.networks && mac in s.networks[network].bindings {
      assert NetworkWired(s, network);
      Ipam.ReleaseFreesExactly(s.networks[network].net, s.networks[network].bindings, mac);
    }
  }

  // ---- published ports -----------------------------------------------------------------------------------

  /** The port's slot wants its reserved address and exactly its entries; the other slots are as they were. */
  predicate SlotFollows(s: Inner, s': Inner, port: string)
    requires PortReserved(s, port)
  {
    && port in s'.passts
    && s'.passts[port].desired
       == Passt.ConfigFor(AddressOf(s, port), s.networks[s.ports[port].network.value].net,
                          Publish.SliceOf(s'.publish, port))
    && s'.passts - {port} == s.passts - {port}
  }

  /** That slot came up, or was up already with the same configuration. */
  predicate CameUp(s: Inner, s': Inner, port: string, spawned: bool)
    requires port in s'.passts
  {
    s'.passts[port].live <==> spawned || Runs(s, port, s'.passts[port].desired)
  }

  /**
    PublishPort is refused iff the port is not attached, or the pair is new and every host port
    of the range is in use, and then changes nothing. Otherwise the pair alone holds a host port
    from then on, its own or the least unused of 20000 to 21000, even when the rest fails, and no
    other pair has changed. The slot follows,
    whether or not the spawn succeeds, iff the save succeeded and the port is reserved; otherwise
    all slots are as they were. It succeeds, with that host port, iff the slot followed and is up;
    a missing reservation is not_found, every other failure is internal.
   */
  lemma PublishPortMeans(s: Inner, port: string, vm: u16, saved: bool, spawned: bool, now: nat)
    requires Wired(s)
    ensures var d := PublishPort(s, port, vm, saved, spawned, now);
      var t := d.inner.publish;
      if !Attached(s, port) || !(Publish.Held(s.publish, port, vm) || Coherence.WouldClaim(s.publish, port, vm))
      then d == Done(s, Err(if Attached(s, port) then Conflict else NotFound), false)
      else
        && d.saves && d.inner == s.(publish := t, passts := d.inner.passts)
        && Publish.Held(t, port, vm)
        && (if Publish.Held(s.publish, port, vm) then t == s.publish
            else 20000 <= t[port][vm] <= 21000 && forall x :: 20000 <= x < t[port][vm] ==> Publish.InUse(s.publish, x))
        && (forall p, v: u16 :: Publish.Held(t, p, v) && t[p][v] == t[port][vm] ==> (p, v) == (port, vm))
        && (forall p, v: u16 :: (p, v) != (port, vm) ==> Publish.Get(t, p, v) == Publish.Get(s.publish, p, v))
        && (if saved && PortReserved(s, port) then
              && SlotFollows(s, d.inner, port) && CameUp(s, d.inner, port, spawned)
              && d.result == (if d.inner.passts[port].live then Ok(HostPort(t[port][vm])) else Err(Internal))
            else d.inner.passts == s.passts && d.result == Err(if saved then NotFound else Internal))
  {
    if port in s.ports { assert PortWired(s, port); }
    Publish.AllocateMeans(s.publish, port, vm, PUBLISH_LO, PUBLISH_HI);
    Coherence.ClaimsIff(s.publish, port, vm);
    var (t, r) := Publish.Allocate(s.publish, port, vm, PUBLISH_LO, PUBLISH_HI);
    if Attached(s, port) && r.Some? {
      RefreshOutcome(s.(publish := t), port, HostPort(r.value), spawned, now);
    }
  }

  /** A refresh touches nothing but the port's slot, which follows its entries iff the port is reserved. */
  lemma RefreshOutcome(s: Inner, port: string, value: Value, spawned: bool, now: nat)
    requires Attached(s, port) ==> s.ports[port].mac.Some?
    ensures var d := Refresh(s, port, value, spawned, now);
      && d.saves && d.inner == s.(passts := d.inner.passts)
      && (if PortReserved(s, port) then
            && SlotFollows(s, d.inner, port) && CameUp(s, d.inner, port, spawned)
            && d.result == (if d.inner.passts[port].live then Ok(value) else Err(Internal))
          else d.inner == s && d.result == Err(NotFound))
  {}

  /**
    UnpublishPort is refused iff the pair is not published, and then changes nothing; otherwise
    the pair alone leaves the table, even when the rest fails. If the save succeeded the port's
    slot goes with its last entry, and follows the entries left when the port is reserved;
    otherwise all slots are as they were. It succeeds iff the save succeeded and the slot went or
    is up; a missing reservation is not_found, every other failure is internal. It undoes a
    publish: the table is again what it was before the pair was first published.
   */
  lemma UnpublishPortMeans(s: Inner, port: string, vm: u16, saved: bool, spawned: bool, now: nat)
    requires Wired(s)
    ensures var d := UnpublishPort(s, port, vm, saved, spawned, now);
      if !Publish.Held(s.publish, port, vm) then d == Done(s, Err(NotFound), false)
      else
        && d.saves && d.inner == s.(publish := d.inner.publish, passts := d.inner.passts)
        && Publish.Get(d.inner.publish, port, vm).None?
        && (forall p, v: u16 :: (p, v) != (port, vm) ==>
              Publish.Get(d.inner.publish, p, v) == Publish.Get(s.publish, p, v))
        && !Publish.InUse(d.inner.publish, s.publish[port][vm])
        && (if saved && port !in d.inner.publish then d.inner.passts == s.passts - {port} && d.result == Ok(Null)
            else if saved && PortReserved(s, port) then
              && SlotFollows(s, d.inner, port) && CameUp(s, d.inner, port, spawned)
              && d.result == (if d.inner.passts[port].live then Ok(Null) else Err(Internal))
            else d.inner.passts == s.passts && d.result == Err(if saved then NotFound else Internal))
    ensures !Publish.Held(s.publish, port, vm) ==>
      Publish.Remove(PublishPort(s, port, vm, saved, spawned, now).inner.publish, port, vm).0 == s.publish
  {
    Publish.RemoveMeans(s.publish, port, vm);
    var t := Publish.Remove(s.publish, port, vm).0;
    if port in s.ports { assert PortWired(s, port); }
    if Publish.Held(s.publish, port, vm) {
      assert port in t <==> Publish.SliceOf(t, port) != map[];
      RefreshOutcome(s.(publish := t), port, Null, spawned, now);
    } else {
      PublishTable(s, port, vm, saved, spawned, now);
      var host := Publish.LowestUnused(s.publish, PUBLISH_LO, PUBLISH_HI);
      if host.Some? { RemoveClaimed(s.publish, port, vm, host.value); }
    }
  }

  lemma PublishTable(s: Inner, port: string, vm: u16, saved: bool, spawned: bool, now: nat)
    ensures PublishPort(s, port, vm, saved, spawned, now).inner.publish
      == if Attached(s, port) then Publish.Allocate(s.publish, port, vm, PUBLISH_LO, PUBLISH_HI).0 else s.publish
  {}

  lemma RemoveClaimed(t: Publish.Table, port: string, vm: u16, host: u16)
    requires Publish.Sound(t) && !Publish.Held(t, port, vm)
    ensures Publish.Remove(t[port := Publish.SliceOf(t, port)[vm := host]], port, vm).0 == t
  {
    var slice := Publish.SliceOf(t, port);
    assert slice[vm := host] - {vm} == slice;
  }
}
