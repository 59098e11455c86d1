/**
  Reservations: every attached port's MAC is bound on its network, and no other port of that
  network holds it. Exactly three events break this, whatever else fails, crashes or restarts.
 */
module Reservation {
  import opened Base
  import opened Daemon
  import opened Wiring
  import Dhcp
  import Ipam

  /** An attached port's MAC is bound on its network. */
  predicate PortReserved(s: Inner, n: string)
  {
    && Attached(s, n) && s.ports[n].network.value in s.networks && s.ports[n].mac.Some?
    && s.ports[n].mac.value in s.networks[s.ports[n].network.value].bindings
  }

  function AddressOf(s: Inner, n: string): Ip
    requires PortReserved(s, n)
  {
    s.networks[s.ports[n].network.value].bindings[s.ports[n].mac.value]
  }

  predicate Holds(s: Inner, n: string, network: string, mac: Mac)
  {
    n in s.ports && s.ports[n].network == Some(network) && s.ports[n].mac == Some(mac)
  }

  ghost predicate Reserved(s: Inner)
  {
    && (forall n {:trigger PortReserved(s, n)} :: Attached(s, n) ==> PortReserved(s, n))
    && (forall a, b, network, mac {:trigger Holds(s, a, network, mac), Holds(s, b, network, mac)} ::
          Holds(s, a, network, mac) && Holds(s, b, network, mac) ==> a == b)
  }

  // ---- what a caller can check beforehand --------------------------------------------------------------

  ghost predicate MacTaken(s: Inner, network: string, mac: Mac)
  {
    exists n :: Holds(s, n, network, mac)
  }

  ghost predicate NetworkInUse(s: Inner, network: string)
  {
    exists n :: AttachedTo(s, n, network)
  }

  /** The event takes no attached port's reservation and gives none a second holder. */
  ghost predicate Respects(s: Inner, e: Event)
  {
    match e
    case RpcDeleteNetwork(name, _) => !NetworkInUse(s, name)
    case RpcReleaseIp(network, mac, _) => !MacTaken(s, network, mac)
    case RpcAttachPort(name, network, mac, _, _, _) =>
      !(name in s.ports && s.ports[name].network.None? && network in s.networks && MacTaken(s, network, mac))
    case _ => true
  }

  // ---- small steps -------------------------------------------------------------------------------------

  /** Every port attached now was attached before, just as it is now. */
  predicate NoneJoined(s: Inner, s': Inner)
  {
    forall n :: n in s'.ports && s'.ports[n].network.Some? ==> n in s.ports && s'.ports[n] == s.ports[n]
  }

  lemma Carries(s: Inner, s': Inner)
    requires Reserved(s) && NoneJoined(s, s')
    requires forall n :: Attached(s', n) ==> PortReserved(s', n)
    ensures Reserved(s')
  {
    forall a, b, network, mac | Holds(s', a, network, mac) && Holds(s', b, network, mac) ensures a == b {
      assert Holds(s, a, network, mac) && Holds(s, b, network, mac);
    }
  }

  /** Reservations live in the port records and the allocators alone. */
  lemma SameReserved(s: Inner, s': Inner)
    requires Reserved(s) && s'.ports == s.ports && s'.networks == s.networks
    ensures Reserved(s')
  {
    forall n | Attached(s', n) ensures PortReserved(s', n) { assert PortReserved(s, n); }
    Carries(s, s');
  }

  /** The port holds a reservation before and after, for the same address. */
  predicate AddressKept(s: Inner, s': Inner, n: string)
  {
    PortReserved(s, n) && PortReserved(s', n) && AddressOf(s', n) == AddressOf(s, n)
  }

  lemma TakenIsBound(s: Inner, network: string, mac: Mac)
    requires Reserved(s)
    ensures MacTaken(s, network, mac) ==> network in s.networks && mac in s.networks[network].bindings
  {
    forall n | Holds(s, n, network, mac) ensures PortReserved(s, n) {}
  }

  lemma OneHolder(s: Inner, a: string, b: string, network: string, mac: Mac)
    requires Reserved(s) && Holds(s, a, network, mac) && a != b
    ensures !Holds(s, b, network, mac)
  {}

  /** One network gains a binding: every reserved address stays. */
  lemma BindReserved(s: Inner, network: string, mac: Mac, s': Inner)
    requires Wired(s) && Reserved(s) && network in s.networks
    requires s' == WithBindings(s, network, Ipam.Allocate(s.networks[network].net, s.networks[network].bindings, mac).0)
    ensures Reserved(s')
    ensures forall n :: Attached(s, n) ==> AddressKept(s, s', n)
  {
    var e := s.networks[network];
    assert NetworkWired(s, network);
    Ipam.ApplySound(e.net, e.bindings, Ipam.Bind(mac));
    forall n | Attached(s, n) ensures AddressKept(s, s', n) {
      assert PortReserved(s, n);
    }
    forall n | Attached(s', n) ensures PortReserved(s', n) { assert AddressKept(s, s', n); }
    Carries(s, s');
  }

  /** One network loses a binding that nobody holds: every reserved address stays. */
  lemma FreeReserved(s: Inner, network: string, mac: Mac, s': Inner)
    requires Reserved(s) && network in s.networks
    requires s' == WithBindings(s, network, s.networks[network].bindings - {mac})
    ensures Reserved(s') <==> !MacTaken(s, network, mac)
    ensures !MacTaken(s, network, mac) ==> forall n :: Attached(s, n) ==> AddressKept(s, s', n)
  {
    if n :| Holds(s, n, network, mac) {
      assert Attached(s', n) && !PortReserved(s', n);
    } else {
      forall n | Attached(s, n) ensures AddressKept(s, s', n) {
        assert PortReserved(s, n) && !Holds(s, n, network, mac);
      }
      forall n | Attached(s', n) ensures PortReserved(s', n) { assert AddressKept(s, s', n); }
      Carries(s, s');
    }
  }

  // ---- networks and addresses --------------------------------------------------------------------------

  lemma CreateNetworkReserved(s: Inner, p: NetParams, saved: bool)
    requires Reserved(s)
    ensures Reserved(CreateNetwork(s, p, saved).inner)
  {
    var s' := CreateNetwork(s, p, saved).inner;
    forall n | Attached(s', n) ensures PortReserved(s', n) { assert PortReserved(s, n); }
    Carries(s, s');
  }

  lemma DeleteNetworkReserved(s: Inner, name: string, saved: bool)
    requires Reserved(s)
    ensures Reserved(DeleteNetwork(s, name, saved).inner) <==> !NetworkInUse(s, name)
  {
    var s' := DeleteNetwork(s, name, saved).inner;
    if n :| AttachedTo(s, n, name) {
      assert PortReserved(s, n);
      assert Attached(s', n) && !PortReserved(s', n);
    } else {
      forall n | Attached(s', n) ensures PortReserved(s', n) {
        assert PortReserved(s, n) && !AttachedTo(s, n, name);
      }
      Carries(s, s');
    }
  }

  lemma AllocateIpReserved(s: Inner, network: string, mac: Mac)
    requires Wired(s) && Reserved(s)
    ensures Reserved(AllocateIp(s, network, mac).inner)
  {
    if network in s.networks {
      var e := s.networks[network];
      BindReserved(s, network, mac, WithBindings(s, network, Ipam.Allocate(e.net, e.bindings, mac).0));
    }
  }

  lemma ReleaseIpReserved(s: Inner, network: string, mac: Mac, saved: bool)
    requires Reserved(s)
    ensures Reserved(ReleaseIp(s, network, mac, saved).inner) <==> !MacTaken(s, network, mac)
  {
    TakenIsBound(s, network, mac);
    if network in s.networks && mac in s.networks[network].bindings {
      FreeReserved(s, network, mac, WithBindings(s, network, s.networks[network].bindings - {mac}));
    }
  }

  // ---- ports -------------------------------------------------------------------------------------------

  lemma CreatePortReserved(s: Inner, name: string, bound: bool, saved: bool)
    requires Reserved(s)
    ensures Reserved(CreatePort(s, name, bound, saved).inner)
  {
    var s' := CreatePort(s, name, bound, saved).inner;
    forall n | Attached(s', n) ensures PortReserved(s', n) { assert PortReserved(s, n); }
    Carries(s, s');
  }

  /** A port joining under a bound MAC keeps reservations exclusive iff nobody holds that MAC. */
  lemma JoinReserved(s: Inner, port: string, network: string, mac: Mac, s': Inner)
    requires Reserved(s) && port in s.ports && s.ports[port].network.None? && network in s.networks
    requires mac in s.networks[network].bindings && s'.networks == s.networks
    requires s'.ports == s.ports[port := LivePort(s.ports[port].id, Some(network), Some(mac))]
    ensures PortReserved(s', port)
    ensures Reserved(s') <==> !MacTaken(s, network, mac)
  {
    assert Holds(s', port, network, mac) && PortReserved(s', port);
    if n :| Holds(s, n, network, mac) {
      assert Holds(s', n, network, mac) && n != port;
    } else {
      forall n | Attached(s', n) ensures PortReserved(s', n) {
        if n != port { assert PortReserved(s, n); }
      }
      forall a, b, nw, m | Holds(s', a, nw, m) && Holds(s', b, nw, m) ensures a == b {
        assert a != port ==> Holds(s, a, nw, m);
        assert b != port ==> Holds(s, b, nw, m);
      }
    }
  }

  /** What an attach that got its address leaves of ports and allocators. */
  lemma JoinPorts(s: Inner, port: string, network: string, mac: Mac, ip: Ip, spawned: bool, now: nat, saved: bool)
    requires port in s.ports && network in s.networks
    ensures var s' := Join(s, port, network, mac, ip, spawned, now, saved).inner;
      && s'.networks == s.networks
      && s'.ports == s.ports[port := LivePort(s.ports[port].id, Some(network), Some(mac))]
  {}

  lemma AttachPortReserved(s: Inner, port: string, network: string, mac: Mac, spawned: bool, now: nat, saved: bool)
    requires Wired(s) && Reserved(s)
    ensures Reserved(AttachPort(s, port, network, mac, spawned, now, saved).inner) <==>
      !(port in s.ports && s.ports[port].network.None? && network in s.networks && MacTaken(s, network, mac))
  {
    if port in s.ports && s.ports[port].network.None? && network in s.networks {
      var e := s.networks[network];
      var (t, r) := Ipam.Allocate(e.net, e.bindings, mac);
      var s1 := WithBindings(s, network, t);
      BindReserved(s, network, mac, s1);
      forall n ensures Holds(s1, n, network, mac) == Holds(s, n, network, mac) {}
      TakenIsBound(s, network, mac);
      if r.Ok? {
        JoinPorts(s1, port, network, mac, r.value, spawned, now, saved);
        JoinReserved(s1, port, network, mac, Join(s1, port, network, mac, r.value, spawned, now, saved).inner);
      }
    }
  }

  /** The state after `name` gave back its binding and nothing else of the allocators. */
  predicate FreedOnly(s: Inner, s': Inner, name: string)
    requires PortReserved(s, name)
  {
    var network, mac := s.ports[name].network.value, s.ports[name].mac.value;
    s'.networks == s.networks[network := s.networks[network].(bindings := s.networks[network].bindings - {mac})]
  }

  /** `name` is unattached or gone; the other ports are as they were. */
  predicate Departed(s: Inner, s': Inner, name: string)
  {
    && !(name in s'.ports && s'.ports[name].network.Some?)
    && (forall n :: n in s'.ports && n != name ==> n in s.ports && s'.ports[n] == s.ports[n])
    && (forall n :: n in s.ports && n != name ==> n in s'.ports)
  }

  lemma DetachDeparts(s: Inner, name: string, saved: bool)
    ensures Departed(s, DetachPort(s, name, saved).inner, name)
    ensures PortReserved(s, name) ==> FreedOnly(s, DetachPort(s, name, saved).inner, name)
    ensures name in s.ports && s.ports[name].network.None? ==> DetachPort(s, name, saved).inner.networks == s.networks
  {}

  lemma DeleteDeparts(s: Inner, name: string, saved: bool)
    ensures Departed(s, DeletePort(s, name, saved).inner, name)
    ensures PortReserved(s, name) ==> FreedOnly(s, DeletePort(s, name, saved).inner, name)
    ensures name in s.ports && s.ports[name].network.None? ==> DeletePort(s, name, saved).inner.networks == s.networks
  {}

  /** A port that leaves takes only its own reservation with it. */
  lemma DepartReserved(s: Inner, name: string, s': Inner)
    requires Reserved(s) && Departed(s, s', name)
    requires if Attached(s, name) then PortReserved(s, name) && FreedOnly(s, s', name) else s'.networks == s.networks
    ensures Reserved(s')
    ensures forall n :: n != name && Attached(s, n) ==> AddressKept(s, s', n)
  {
    forall n | n != name && Attached(s, n) ensures AddressKept(s, s', n) {
      assert PortReserved(s, n);
      if Attached(s, name) {
        OneHolder(s, name, n, s.ports[name].network.value, s.ports[name].mac.value);
      }
    }
    forall n | Attached(s', n) ensures PortReserved(s', n) { assert Attached(s, n) && n != name; }
    Carries(s, s');
  }

  lemma DetachPortReserved(s: Inner, name: string, saved: bool)
    requires Reserved(s)
    ensures Reserved(DetachPort(s, name, saved).inner)
  {
    if name in s.ports {
      if Attached(s, name) { assert PortReserved(s, name); }
      DetachDeparts(s, name, saved);
      DepartReserved(s, name, DetachPort(s, name, saved).inner);
    }
  }

  lemma DeletePortReserved(s: Inner, name: string, saved: bool)
    requires Reserved(s)
    ensures Reserved(DeletePort(s, name, saved).inner)
  {
    if name in s.ports {
      if Attached(s, name) { assert PortReserved(s, name); }
      DeleteDeparts(s, name, saved);
      DepartReserved(s, name, DeletePort(s, name, saved).inner);
    }
  }

  // ---- all events, all runs ----------------------------------------------------------------------------

  lemma PublishKeepsPorts(s: Inner, port: string, vm: u16, saved: bool, spawned: bool, now: nat)
    ensures var s' := PublishPort(s, port, vm, saved, spawned, now).inner;
      s'.ports == s.ports && s'.networks == s.networks
  {}

  lemma UnpublishKeepsPorts(s: Inner, port: string, vm: u16, saved: bool, spawned: bool, now: nat)
    ensures var s' := UnpublishPort(s, port, vm, saved, spawned, now).inner;
      s'.ports == s.ports && s'.networks == s.networks
  {}

  lemma PumpTouchesSwitch(s: Inner, name: string, me: PortId, frame: Bytes, env: Services)
    ensures var s' := Pump(s, name, me, frame, env).inner; s' == s.(switch := s'.switch)
  {}

  lemma CallReserved(s: Inner, e: Event)
    requires Wired(s) && Reserved(s) && IsRpc(e)
    ensures Reserved(Call(s, e).inner) <==> Respects(s, e)
  {
    match e {
      case RpcCreateNetwork(p, save) => CreateNetworkReserved(s, p, save.Saved?);
      case RpcDeleteNetwork(name, save) => DeleteNetworkReserved(s, name, save.Saved?);
      case RpcCreatePort(name, bound, save) => CreatePortReserved(s, name, bound, save.Saved?);
      case RpcDeletePort(name, save) => DeletePortReserved(s, name, save.Saved?);
      case RpcAttachPort(name, network, mac, spawned, now, save) =>
        AttachPortReserved(s, name, network, mac, spawned, now, save.Saved?);
      case RpcDetachPort(name, save) => DetachPortReserved(s, name, save.Saved?);
      case RpcAllocateIp(network, mac) => AllocateIpReserved(s, network, mac);
      case RpcReleaseIp(network, mac, save) => ReleaseIpReserved(s, network, mac, save.Saved?);
      case RpcPublishPort(name, vm, save, spawned, now) =>
        PublishKeepsPorts(s, name, vm, save.Saved?, spawned, now);
        SameReserved(s, Call(s, e).inner);
      case RpcUnpublishPort(name, vm, save, spawned, now) =>
        UnpublishKeepsPorts(s, name, vm, save.Saved?, spawned, now);
        SameReserved(s, Call(s, e).inner);
    }
  }

  /**
    Exactly which events break a reservation: deleting a network in use, releasing an attached
    MAC, attaching a MAC a second time to one network. Every other event keeps them all, with
    failed saves, failed spawns, panics, restarts and power losses included.
   */
  lemma StepReserved(w: World, e: Event)
    requires WiredWorld(w) && Reserved(w.inner) && (w.poisoned ==> !IsRpc(e))
    ensures Reserved(Step(w, e).inner) <==> Respects(w.inner, e)
  {
    match e {
      case Restart =>
      case PowerLoss(kept) =>
      case Frame(name, me, frame, env) =>
        PumpTouchesSwitch(w.inner, name, me, frame, env);
        SameReserved(w.inner, Pump(w.inner, name, me, frame, env).inner);
      case Tick(_, _, _, _, _, _) => SameReserved(w.inner, SupervisePasst(w.inner, e));
      case Uplink(name, mac) => SameReserved(w.inner, LearnUplink(w.inner, name, mac));
      case _ => CallReserved(w.inner, e);
    }
  }

  /** Every RPC of the run that gets the lock respects the reservations there are when it comes. */
  ghost predicate RespectedThroughout(events: seq<Event>)
  {
    if events == [] then true
    else
      var init, e := events[..|events| - 1], events[|events| - 1];
      var w := Run(GENESIS, init);
      RespectedThroughout(init) && ((w.poisoned && IsRpc(e)) || Respects(w.inner, e))
  }

  /** In every such run each attached port's MAC is bound on its network and held by that port alone. */
  lemma {:induction false} RunReserved(events: seq<Event>)
    requires AllowedRun(GENESIS, events) && RespectedThroughout(events)
    ensures WiredWorld(Run(GENESIS, events)) && Reserved(Run(GENESIS, events).inner)
  {
    RunWired(events);
    if events != [] {
      var init, e := events[..|events| - 1], events[|events| - 1];
      RunReserved(init);
      if !(IsRpc(e) && Run(GENESIS, init).poisoned) {
        StepReserved(Run(GENESIS, init), e);
      }
    }
  }

  // ---- what a reservation is worth ---------------------------------------------------------------------

  /** Distinct attached ports of one network have distinct addresses inside its pool. */
  lemma AddressesAreDistinct(s: Inner, a: string, b: string)
    requires Wired(s) && Reserved(s) && Attached(s, a) && Attached(s, b)
    requires s.ports[a].network == s.ports[b].network
    ensures PortReserved(s, a) && PortReserved(s, b)
    ensures AddressOf(s, a) == AddressOf(s, b) <==> a == b
    ensures Ipam.InPool(s.networks[s.ports[a].network.value].net, AddressOf(s, a))
  {
    assert PortReserved(s, a) && PortReserved(s, b);
    assert NetworkWired(s, s.ports[a].network.value);
    if AddressOf(s, a) == AddressOf(s, b) {
      var network, mac := s.ports[a].network.value, s.ports[a].mac.value;
      assert Holds(s, a, network, mac) && Holds(s, b, network, mac);
    }
  }

  /**
    Detaching and deleting free exactly the port's binding, whether or not they then fail to
    save, and every other port keeps its address.
   */
  lemma DepartureFreesOneBinding(s: Inner, name: string, saved: bool, s': Inner)
    requires Wired(s) && Reserved(s) && Attached(s, name)
    requires s' == DetachPort(s, name, saved).inner || s' == DeletePort(s, name, saved).inner
    ensures PortReserved(s, name) && FreedOnly(s, s', name)
    ensures AddressOf(s, name) !in s'.networks[s.ports[name].network.value].bindings.Values
    ensures forall n :: n != name && Attached(s, n) ==> AddressKept(s, s', n)
  {
    assert PortReserved(s, name);
    var network := s.ports[name].network.value;
    assert NetworkWired(s, network);
    Ipam.ReleaseFreesExactly(s.networks[network].net, s.networks[network].bindings, s.ports[name].mac.value);
    DetachDeparts(s, name, saved);
    DeleteDeparts(s, name, saved);
    DepartReserved(s, name, s');
  }

  /** An attach refused with Conflict or NotFound has changed nothing at all. */
  lemma RefusedAttachChangesNothing(s: Inner, port: string, network: string, mac: Mac,
    spawned: bool, now: nat, saved: bool)
    ensures var d := AttachPort(s, port, network, mac, spawned, now, saved);
      d.result == Err(Conflict) || d.result == Err(NotFound) ==> d.inner == s && !d.saves
  {}

  /**
    DHCP over the live bindings: an attached port's MAC is offered and acknowledged exactly its
    reserved address, and no other MAC is ever granted that address.
   */
  lemma DhcpGrantsReservation(s: Inner, n: string, msg: Dhcp.Message)
    requires Wired(s) && Reserved(s) && Attached(s, n)
    requires msg.bootRequest && msg.ethernet && (msg.kind == Some(Dhcp.Discover) || msg.kind == Some(Dhcp.Request))
    ensures PortReserved(s, n)
    ensures var entry := s.networks[s.ports[n].network.value];
      var reply := Dhcp.Process(entry.net, entry.bindings, msg).1;
      if msg.chaddr == s.ports[n].mac.value then
        && reply.Some?
        && (reply.value.kind == Dhcp.Nak <==> msg.kind == Some(Dhcp.Request) && Dhcp.Wanted(msg) != AddressOf(s, n))
        && (reply.value.kind != Dhcp.Nak ==> reply.value.yiaddr == AddressOf(s, n))
      else reply.Some? && reply.value.kind != Dhcp.Nak ==> reply.value.yiaddr != AddressOf(s, n)
  {
    assert PortReserved(s, n);
    assert NetworkWired(s, s.ports[n].network.value);
    var entry := s.networks[s.ports[n].network.value];
    Ipam.AllocateMeans(entry.net, entry.bindings, msg.chaddr);
  }
}
