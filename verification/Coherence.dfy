/**
  Forwards: what each attached port's passt is owed by the publish table and the allocators, on
  top of the reservations, and exactly which events break the two together.
 */
module Coherence {
  import opened Base
  import opened Daemon
  import opened Reservation
  import opened Wiring
  import Cidr
  import Fabric
  import Ipam
  import Passt
  import Publish

  /** A slot wants exactly its attached port's address, network and published slice. */
  predicate SlotMatches(s: Inner, n: string)
  {
    && n in s.passts && PortReserved(s, n)
    && s.passts[n].desired
       == Passt.ConfigFor(AddressOf(s, n), s.networks[s.ports[n].network.value].net, Publish.SliceOf(s.publish, n))
  }

  ghost predicate ForwardsAgree(s: Inner)
  {
    && (forall n :: n in s.publish ==> Attached(s, n))
    && (forall n {:trigger SlotMatches(s, n)} :: n in s.passts ==> SlotMatches(s, n))
  }

  ghost predicate Coherent(s: Inner)
  {
    Reserved(s) && ForwardsAgree(s)
  }

  // ---- what a caller can check beforehand --------------------------------------------------------------

  /** Publishing the pair would add an entry: it is new and a host port of the range is left. */
  ghost predicate WouldClaim(t: Publish.Table, port: string, vm: u16)
  {
    !Publish.Held(t, port, vm) && exists x: int :: 20000 <= x <= 21000 && !Publish.InUse(t, x)
  }

  /** The events after which the invariant still holds. */
  ghost predicate Keeps(w: World, e: Event)
  {
    var s := w.inner;
    && Respects(s, e)
    && match e
       case RpcDetachPort(name, save) => save.Saved? || name !in s.passts
       case RpcDeletePort(name, save) => save.Saved? || name !in s.passts
       case RpcPublishPort(name, vm, save, _, _) =>
         save.Saved? || name !in s.passts || !WouldClaim(s.publish, name, vm)
       case RpcUnpublishPort(name, vm, save, _, _) =>
         save.Saved? || name !in s.passts || !Publish.Held(s.publish, name, vm)
       case Restart => w.disk.live == map[]
       case PowerLoss(kept) => kept == map[]
       case _ => true
  }

  // ---- small steps -------------------------------------------------------------------------------------

  lemma SlotsAreAttached(s: Inner)
    requires Coherent(s)
    ensures forall n :: n in s.passts ==> Attached(s, n)
  {
    forall n | n in s.passts ensures Attached(s, n) { assert SlotMatches(s, n); }
  }

  /** The port's address, network, slice and slot are what they were. */
  predicate SameWant(s: Inner, s': Inner, n: string)
    requires PortReserved(s, n) && n in s.passts
  {
    && PortReserved(s', n) && AddressOf(s', n) == AddressOf(s, n)
    && s'.ports[n] == s.ports[n]
    && s'.networks[s.ports[n].network.value].net == s.networks[s.ports[n].network.value].net
    && n in s'.passts && s'.passts[n].desired == s.passts[n].desired
    && Publish.SliceOf(s'.publish, n) == Publish.SliceOf(s.publish, n)
  }

  /** Reservations kept, nothing newly published or wanted: coherent still. */
  lemma Unchanged(s: Inner, s': Inner)
    requires Coherent(s) && Reserved(s')
    requires forall n :: n in s'.publish ==> n in s.publish && Attached(s', n)
    requires forall n {:trigger SlotMatches(s, n)} :: n in s'.passts ==>
      n in s.passts && (SlotMatches(s, n) ==> SameWant(s, s', n))
    ensures Coherent(s')
  {
    forall n | n in s'.passts ensures SlotMatches(s', n) { assert SlotMatches(s, n); }
  }

  /** Ports, networks and publish table the same, slots wanting the same. */
  lemma SameWants(s: Inner, s': Inner)
    requires Coherent(s) && s'.ports == s.ports && s'.networks == s.networks && s'.publish == s.publish
    requires s'.passts.Keys == s.passts.Keys
    requires forall n :: n in s.passts ==> s'.passts[n].desired == s.passts[n].desired
    ensures Coherent(s')
  {
    SameReserved(s, s');
    Unchanged(s, s');
  }

  // ---- networks and addresses --------------------------------------------------------------------------

  lemma CreateNetworkCoherent(s: Inner, p: NetParams, saved: bool)
    requires Coherent(s)
    ensures Coherent(CreateNetwork(s, p, saved).inner)
  {
    CreateNetworkReserved(s, p, saved);
    Unchanged(s, CreateNetwork(s, p, saved).inner);
  }

  lemma DeleteNetworkCoherent(s: Inner, name: string, saved: bool)
    requires Coherent(s)
    ensures Coherent(DeleteNetwork(s, name, saved).inner) <==> !NetworkInUse(s, name)
  {
    DeleteNetworkReserved(s, name, saved);
    if !NetworkInUse(s, name) {
      var s' := DeleteNetwork(s, name, saved).inner;
      forall n | SlotMatches(s, n) ensures SameWant(s, s', n) { assert !AttachedTo(s, n, name); }
      Unchanged(s, s');
    }
  }

  lemma BindCoherent(s: Inner, network: string, mac: Mac, s': Inner)
    requires Wired(s) && Coherent(s) && network in s.networks
    requires s' == WithBindings(s, network, Ipam.Allocate(s.networks[network].net, s.networks[network].bindings, mac).0)
    ensures Coherent(s')
  {
    BindReserved(s, network, mac, s');
    Unchanged(s, s');
  }

  lemma AllocateIpCoherent(s: Inner, network: string, mac: Mac)
    requires Wired(s) && Coherent(s)
    ensures Coherent(AllocateIp(s, network, mac).inner)
  {
    if network in s.networks {
      var e := s.networks[network];
      BindCoherent(s, network, mac, WithBindings(s, network, Ipam.Allocate(e.net, e.bindings, mac).0));
    }
  }

  lemma ReleaseIpCoherent(s: Inner, network: string, mac: Mac, saved: bool)
    requires Coherent(s)
    ensures Coherent(ReleaseIp(s, network, mac, saved).inner) <==> !MacTaken(s, network, mac)
  {
    ReleaseIpReserved(s, network, mac, saved);
    if network in s.networks && mac in s.networks[network].bindings && !MacTaken(s, network, mac) {
      var s' := WithBindings(s, network, s.networks[network].bindings - {mac});
      FreeReserved(s, network, mac, s');
      Unchanged(s, s');
    }
  }

  // ---- ports -------------------------------------------------------------------------------------------

  lemma CreatePortCoherent(s: Inner, name: string, bound: bool, saved: bool)
    requires Coherent(s)
    ensures Coherent(CreatePort(s, name, bound, saved).inner)
  {
    CreatePortReserved(s, name, bound, saved);
    Unchanged(s, CreatePort(s, name, bound, saved).inner);
  }

  lemma JoinCoherent(s: Inner, port: string, network: string, mac: Mac, ip: Ip, spawned: bool, now: nat, saved: bool)
    requires Coherent(s) && port in s.ports && s.ports[port].network.None? && network in s.networks
    requires mac in s.networks[network].bindings && s.networks[network].bindings[mac] == ip
    ensures Coherent(Join(s, port, network, mac, ip, spawned, now, saved).inner) <==> !MacTaken(s, network, mac)
  {
    var s' := Join(s, port, network, mac, ip, spawned, now, saved).inner;
    SlotsAreAttached(s);
    JoinPorts(s, port, network, mac, ip, spawned, now, saved);
    JoinReserved(s, port, network, mac, s');
    JoinSlots(s, port, network, mac, ip, spawned, now, saved);
    forall n | n in s'.passts ensures SlotMatches(s', n) {
      if n != port { assert SlotMatches(s, n); }
    }
    forall n | n in s'.publish ensures Attached(s', n) { assert Attached(s, n); }
  }

  /** What an attach leaves of the slots: its own, wanting no forwards. */
  lemma JoinSlots(s: Inner, port: string, network: string, mac: Mac, ip: Ip, spawned: bool, now: nat, saved: bool)
    requires port in s.ports && network in s.networks
    ensures var s' := Join(s, port, network, mac, ip, spawned, now, saved).inner;
      && s'.publish == s.publish && s'.passts.Keys == s.passts.Keys + {port}
      && s'.passts[port].desired == Passt.ConfigFor(ip, s.networks[network].net, map[])
      && (forall n :: n in s.passts && n != port ==> s'.passts[n] == s.passts[n])
  {}

  lemma AttachPortCoherent(s: Inner, port: string, network: string, mac: Mac, spawned: bool, now: nat, saved: bool)
    requires Wired(s) && Coherent(s)
    ensures Coherent(AttachPort(s, port, network, mac, spawned, now, saved).inner) <==>
      !(port in s.ports && s.ports[port].network.None? && network in s.networks && MacTaken(s, network, mac))
  {
    if port in s.ports && s.ports[port].network.None? && network in s.networks {
      var e := s.networks[network];
      var (t, r) := Ipam.Allocate(e.net, e.bindings, mac);
      var s1 := WithBindings(s, network, t);
      BindCoherent(s, network, mac, s1);
      forall n ensures Holds(s1, n, network, mac) == Holds(s, n, network, mac) {}
      TakenIsBound(s, network, mac);
      if r.Ok? {
        JoinCoherent(s1, port, network, mac, r.value, spawned, now, saved);
      }
    }
  }

  /** A departed port with its entries withdrawn leaves coherence iff its slot is gone. */
  lemma DepartCoherent(s: Inner, name: string, s': Inner)
    requires Coherent(s) && Departed(s, s', name)
    requires if Attached(s, name) then PortReserved(s, name) && FreedOnly(s, s', name) else s'.networks == s.networks
    requires s'.publish == s.publish - {name}
    requires s'.passts == s.passts || s'.passts == s.passts - {name}
    ensures Coherent(s') <==> name !in s'.passts
  {
    DepartReserved(s, name, s');
    if name in s'.passts {
      assert !SlotMatches(s', name);
    } else {
      Unchanged(s, s');
    }
  }

  /** What a departure leaves of slots and entries. */
  lemma DetachSlot(s: Inner, name: string, saved: bool)
    requires PortReserved(s, name) || (name in s.ports && s.ports[name].network.None?)
    ensures var s' := DetachPort(s, name, saved).inner;
      s'.publish == s.publish - {name} && s'.passts == if saved then s.passts - {name} else s.passts
  {}

  lemma DeleteSlot(s: Inner, name: string, saved: bool)
    requires name in s.ports
    ensures var s' := DeletePort(s, name, saved).inner;
      s'.publish == s.publish - {name} && s'.passts == if saved then s.passts - {name} else s.passts
  {}

  lemma DetachPortCoherent(s: Inner, name: string, saved: bool)
    requires Coherent(s)
    ensures Coherent(DetachPort(s, name, saved).inner) <==> saved || name !in s.passts
  {
    if name !in s.ports {
      SlotsAreAttached(s);
    } else {
      if Attached(s, name) { assert PortReserved(s, name); }
      DetachDeparts(s, name, saved);
      DetachSlot(s, name, saved);
      DepartCoherent(s, name, DetachPort(s, name, saved).inner);
    }
  }

  lemma DeletePortCoherent(s: Inner, name: string, saved: bool)
    requires Coherent(s)
    ensures Coherent(DeletePort(s, name, saved).inner) <==> saved || name !in s.passts
  {
    if name !in s.ports {
      SlotsAreAttached(s);
    } else {
      if Attached(s, name) { assert PortReserved(s, name); }
      DeleteDeparts(s, name, saved);
      DeleteSlot(s, name, saved);
      DepartCoherent(s, name, DeletePort(s, name, saved).inner);
    }
  }

  // ---- published ports ---------------------------------------------------------------------------------

  /** One port's slice changes while its slot, if any, keeps wanting what it wanted: coherent iff there is no slot. */
  lemma StaleSlot(s: Inner, port: string, t: Publish.Table)
    requires Coherent(s) && Attached(s, port)
    requires forall n :: n in t ==> n in s.publish || n == port
    requires forall n :: n != port ==> Publish.SliceOf(t, n) == Publish.SliceOf(s.publish, n)
    requires Publish.SliceOf(t, port) != Publish.SliceOf(s.publish, port)
    ensures Coherent(s.(publish := t)) <==> port !in s.passts
  {
    var s' := s.(publish := t);
    if port in s.passts {
      assert SlotMatches(s, port);
      Passt.ForwardsDetermineSlice(Publish.SliceOf(t, port), Publish.SliceOf(s.publish, port));
      assert !SlotMatches(s', port);
    } else {
      SliceChanged(s, port, t, s');
    }
  }

  /** One port's slice changes and its slot is dropped or made to want the new slice. */
  lemma SliceChanged(s: Inner, port: string, t: Publish.Table, s': Inner)
    requires Coherent(s) && Attached(s, port)
    requires s' == s.(publish := t, passts := s'.passts)
    requires forall n :: n in t ==> n in s.publish || n == port
    requires forall n :: n != port ==> Publish.SliceOf(t, n) == Publish.SliceOf(s.publish, n)
    requires forall n :: n != port ==>
      (n in s'.passts <==> n in s.passts) && (n in s.passts ==> s'.passts[n] == s.passts[n])
    requires port in s'.passts ==> SlotMatches(s', port)
    ensures Coherent(s')
  {
    SameReserved(s, s');
    forall n | n in s'.passts ensures SlotMatches(s', n) {
      if n != port { assert SlotMatches(s, n); }
    }
  }

  lemma RefreshCoherent(s: Inner, port: string, t: Publish.Table, value: Value, spawned: bool, now: nat)
    requires Coherent(s) && Attached(s, port)
    requires forall n :: n in t ==> n in s.publish || n == port
    requires forall n :: n != port ==> Publish.SliceOf(t, n) == Publish.SliceOf(s.publish, n)
    ensures Coherent(Refresh(s.(publish := t), port, value, spawned, now).inner)
    ensures port in Refresh(s.(publish := t), port, value, spawned, now).inner.passts
  {
    assert PortReserved(s, port);
    var s' := Refresh(s.(publish := t), port, value, spawned, now).inner;
    assert SlotMatches(s', port);
    SliceChanged(s, port, t, s');
  }

  lemma ClaimsIff(t: Publish.Table, port: string, vm: u16)
    ensures var (t', r) := Publish.Allocate(t, port, vm, PUBLISH_LO, PUBLISH_HI);
      if WouldClaim(t, port, vm) then r.Some? && t' == t[port := Publish.SliceOf(t, port)[vm := r.value]] else t' == t
  {
    Publish.LowestUnusedIsLeast(t, PUBLISH_LO, PUBLISH_HI);
  }

  lemma PublishCoherent(s: Inner, port: string, vm: u16, saved: bool, spawned: bool, now: nat)
    requires Coherent(s)
    ensures Coherent(PublishPort(s, port, vm, saved, spawned, now).inner) <==>
      saved || port !in s.passts || !WouldClaim(s.publish, port, vm)
  {
    var (t, r) := Publish.Allocate(s.publish, port, vm, PUBLISH_LO, PUBLISH_HI);
    ClaimsIff(s.publish, port, vm);
    if !Attached(s, port) {
      SlotsAreAttached(s);
    } else if r.Some? {
      if saved {
        RefreshCoherent(s, port, t, HostPort(r.value), spawned, now);
      } else if WouldClaim(s.publish, port, vm) {
        assert vm in Publish.SliceOf(t, port) && vm !in Publish.SliceOf(s.publish, port);
        StaleSlot(s, port, t);
      } else {
        assert s.(publish := t) == s;
      }
    }
  }

  lemma UnpublishCoherent(s: Inner, port: string, vm: u16, saved: bool, spawned: bool, now: nat)
    requires Coherent(s)
    ensures Coherent(UnpublishPort(s, port, vm, saved, spawned, now).inner) <==>
      saved || port !in s.passts || !Publish.Held(s.publish, port, vm)
  {
    var (t, r) := Publish.Remove(s.publish, port, vm);
    if r.Some? {
      Publish.RemoveSlice(s.publish, port, vm);
      assert Attached(s, port);
      if !saved {
        assert vm in Publish.SliceOf(s.publish, port) && vm !in Publish.SliceOf(t, port);
        StaleSlot(s, port, t);
      } else if Publish.SliceOf(t, port) == map[] {
        SliceChanged(s, port, t, Teardown(s.(publish := t), port));
      } else {
        RefreshCoherent(s, port, t, Null, spawned, now);
      }
    }
  }

  // ---- all events --------------------------------------------------------------------------------------

  lemma CallCoherent(w: World, e: Event)
    requires Wired(w.inner) && Coherent(w.inner) && IsRpc(e)
    ensures Coherent(Call(w.inner, e).inner) <==> Keeps(w, e)
  {
    var s := w.inner;
    match e {
      case RpcCreateNetwork(p, save) => CreateNetworkCoherent(s, p, save.Saved?);
      case RpcDeleteNetwork(name, save) => DeleteNetworkCoherent(s, name, save.Saved?);
      case RpcCreatePort(name, bound, save) => CreatePortCoherent(s, name, bound, save.Saved?);
      case RpcDeletePort(name, save) => DeletePortCoherent(s, name, save.Saved?);
      case RpcAttachPort(name, network, mac, spawned, now, save) =>
        AttachPortCoherent(s, name, network, mac, spawned, now, save.Saved?);
      case RpcDetachPort(name, save) => DetachPortCoherent(s, name, save.Saved?);
      case RpcAllocateIp(network, mac) => AllocateIpCoherent(s, network, mac);
      case RpcReleaseIp(network, mac, save) => ReleaseIpCoherent(s, network, mac, save.Saved?);
      case RpcPublishPort(name, vm, save, spawned, now) => PublishCoherent(s, name, vm, save.Saved?, spawned, now);
      case RpcUnpublishPort(name, vm, save, spawned, now) => UnpublishCoherent(s, name, vm, save.Saved?, spawned, now);
    }
  }

  /**
    Exactly which events break the invariant: deleting a network in use, releasing an attached
    MAC, attaching a MAC twice to one network, a failed save while withdrawing or publishing
    under a slot, and restarting on a non-empty publish table. Every other event, failed
    spawns, crashed processes and errors midway included, keeps it.
   */
  lemma StepCoherent(w: World, e: Event)
    requires WiredWorld(w) && Coherent(w.inner) && (w.poisoned ==> !IsRpc(e))
    ensures Coherent(Step(w, e).inner) <==> Keeps(w, e)
  {
    match e {
      case Restart => StartCoherent(w.disk.live);
      case PowerLoss(kept) => StartCoherent(kept);
      case Frame(name, me, frame, env) => PumpCoherent(w.inner, name, me, frame, env);
      case Tick(_, _, _, _, _, _) => TickCoherent(w.inner, e);
      case Uplink(name, mac) => UplinkCoherent(w.inner, name, mac);
      case _ => CallCoherent(w, e);
    }
  }

  lemma PumpCoherent(s: Inner, name: string, me: PortId, frame: Bytes, env: Services)
    requires Coherent(s)
    ensures Coherent(Pump(s, name, me, frame, env).inner)
  {
    PumpTouchesSwitch(s, name, me, frame, env);
    SwitchCoherent(s, Pump(s, name, me, frame, env).inner.switch);
  }

  lemma SwitchCoherent(s: Inner, switch: Fabric.Switch)
    requires Coherent(s)
    ensures Coherent(s.(switch := switch))
  {
    SameWants(s, s.(switch := switch));
  }

  lemma TickCoherent(s: Inner, e: Event)
    requires Coherent(s) && e.Tick?
    ensures Coherent(SupervisePasst(s, e))
  {
    SameWants(s, SupervisePasst(s, e));
  }

  lemma UplinkCoherent(s: Inner, name: string, mac: Mac)
    requires Coherent(s)
    ensures Coherent(LearnUplink(s, name, mac))
  {
    SameWants(s, LearnUplink(s, name, mac));
  }

  lemma StartCoherent(t: Publish.Table)
    ensures Coherent(Start(t)) <==> t == map[]
  {
    if t != map[] {
      var n :| n in t;
      assert n in Start(t).publish && !Attached(Start(t), n);
    }
  }

  /** RPCs on a poisoned lock only report an error; every other event of the run passes its check. */
  ghost predicate KeptThroughout(events: seq<Event>)
  {
    if events == [] then true
    else
      var init, e := events[..|events| - 1], events[|events| - 1];
      var w := Run(GENESIS, init);
      KeptThroughout(init) && ((w.poisoned && IsRpc(e)) || Keeps(w, e))
  }

  /**
    In every run whose events all pass their check: each attached port's MAC has its own
    address, no two ports on a network share one, an unattached port has nothing published and
    no slot, and each slot wants exactly its port's address and slice.
   */
  lemma {:induction false} RunCoherent(events: seq<Event>)
    requires AllowedRun(GENESIS, events) && KeptThroughout(events)
    ensures Coherent(Run(GENESIS, events).inner)
  {
    if events != [] {
      var init, e := events[..|events| - 1], events[|events| - 1];
      RunWired(init);
      RunCoherent(init);
      if !(IsRpc(e) && Run(GENESIS, init).poisoned) {
        StepCoherent(Run(GENESIS, init), e);
      }
    }
  }

  /**
    What a coherent slot's passt is run with: the port's reserved address, the network's gateway
    and mask, and its published entries, each once, by ascending VM port.
   */
  lemma SlotMeans(s: Inner, n: string)
    requires Wired(s) && Coherent(s) && n in s.passts
    ensures PortReserved(s, n)
    ensures var c, net := s.passts[n].desired, s.networks[s.ports[n].network.value].net;
      && c.vmIp == AddressOf(s, n) && c.gateway == net.gateway
      && c.netmask == 0x1_0000_0000 - Cidr.Pow2(32 - net.cidr.prefix)
      && (forall f: Passt.Forward :: f in c.forwards <==> Publish.Get(s.publish, n, f.vm) == Some(f.host))
      && (forall i, j :: 0 <= i < j < |c.forwards| ==> c.forwards[i].vm < c.forwards[j].vm)
  {
    assert SlotMatches(s, n);
    var net := s.networks[s.ports[n].network.value].net;
    Passt.ForwardsDetermineSlice(Publish.SliceOf(s.publish, n), map[]);
    Cidr.MaskValue(net.cidr.prefix);
  }

  // ---- the WAN slot ------------------------------------------------------------------------------------

  /** Every attached port has a passt slot. */
  ghost predicate AllHaveSlots(s: Inner)
  {
    forall n :: Attached(s, n) ==> n in s.passts
  }

  /** The event withdraws the last published entry of an attached port. */
  predicate DropsLastEntry(s: Inner, e: Event)
  {
    && e.RpcUnpublishPort? && e.save.Saved? && Attached(s, e.name)
    && Publish.Held(s.publish, e.name, e.vm) && Publish.SliceOf(s.publish, e.name) - {e.vm} == map[]
  }

  /**
    Every attached VM is meant to keep its WAN process. In any state and whatever fails, exactly
    one event takes a slot from an attached port: unpublishing the port's last forward.
   */
  lemma SlotsKeptUnlessLastUnpublished(w: World, e: Event)
    requires AllHaveSlots(w.inner) && (w.poisoned ==> !IsRpc(e))
    ensures AllHaveSlots(Step(w, e).inner) <==> !DropsLastEntry(w.inner, e)
  {
    if IsRpc(e) {
      CallSlots(w.inner, e);
      RpcStep(w, e);
    } else if e.Frame? {
      PumpTouchesSwitch(w.inner, e.name, e.me, e.frame, e.env);
    }
  }

  lemma CallSlots(s: Inner, e: Event)
    requires AllHaveSlots(s) && IsRpc(e)
    ensures AllHaveSlots(Call(s, e).inner) <==> !DropsLastEntry(s, e)
  {
    match e {
      case RpcUnpublishPort(name, vm, save, spawned, now) => UnpublishSlots(s, name, vm, save.Saved?, spawned, now);
      case RpcPublishPort(name, vm, save, spawned, now) => PublishSlots(s, name, vm, save.Saved?, spawned, now);
      case RpcAttachPort(name, network, mac, spawned, now, save) =>
        AttachSlots(s, name, network, mac, spawned, now, save.Saved?);
      case RpcDetachPort(name, save) => DetachSlots(s, name, save.Saved?);
      case RpcDeletePort(name, save) => DeleteSlots(s, name, save.Saved?);
      case _ =>
    }
  }

  /** No RPC of the run that gets the lock unpublishes an attached port's last forward. */
  predicate NoLastDropped(events: seq<Event>)
  {
    if events == [] then true
    else
      var init, e := events[..|events| - 1], events[|events| - 1];
      var w := Run(GENESIS, init);
      NoLastDropped(init) && ((w.poisoned && IsRpc(e)) || !DropsLastEntry(w.inner, e))
  }

  /** In every such run, with its failures, panics, restarts and power losses, every attached port has its slot. */
  lemma {:induction false} RunHasSlots(events: seq<Event>)
    requires NoLastDropped(events)
    ensures AllHaveSlots(Run(GENESIS, events).inner)
  {
    if events != [] {
      var init, e := events[..|events| - 1], events[|events| - 1];
      RunHasSlots(init);
      if !(IsRpc(e) && Run(GENESIS, init).poisoned) {
        SlotsKeptUnlessLastUnpublished(Run(GENESIS, init), e);
      }
    }
  }

  lemma UnpublishSlots(s: Inner, port: string, vm: u16, saved: bool, spawned: bool, now: nat)
    requires AllHaveSlots(s)
    ensures AllHaveSlots(UnpublishPort(s, port, vm, saved, spawned, now).inner)
      <==> !(saved && Attached(s, port)
             && Publish.Held(s.publish, port, vm) && Publish.SliceOf(s.publish, port) - {vm} == map[])
  {
    Publish.RemoveSlice(s.publish, port, vm);
    var (t, r) := Publish.Remove(s.publish, port, vm);
    var s' := UnpublishPort(s, port, vm, saved, spawned, now).inner;
    if r.Some? && saved {
      if Publish.SliceOf(t, port) == map[] {
        assert s' == s.(publish := t, passts := s.passts - {port});
        if Attached(s, port) { assert Attached(s', port) && port !in s'.passts; }
      } else {
        RefreshSlots(s.(publish := t), port, Null, spawned, now);
      }
    }
  }

  lemma RefreshSlots(s: Inner, port: string, value: Value, spawned: bool, now: nat)
    ensures var s' := Refresh(s, port, value, spawned, now).inner;
      s'.ports == s.ports && s.passts.Keys <= s'.passts.Keys
  {}

  lemma PublishSlots(s: Inner, port: string, vm: u16, saved: bool, spawned: bool, now: nat)
    requires AllHaveSlots(s)
    ensures AllHaveSlots(PublishPort(s, port, vm, saved, spawned, now).inner)
  {}

  lemma AttachSlots(s: Inner, port: string, network: string, mac: Mac, spawned: bool, now: nat, saved: bool)
    requires AllHaveSlots(s)
    ensures AllHaveSlots(AttachPort(s, port, network, mac, spawned, now, saved).inner)
  {}

  lemma DetachSlots(s: Inner, name: string, saved: bool)
    requires AllHaveSlots(s)
    ensures AllHaveSlots(DetachPort(s, name, saved).inner)
  {
    var s' := DetachPort(s, name, saved).inner;
    forall n | Attached(s', n) ensures n in s'.passts { assert Attached(s, n) && n != name; }
  }

  lemma DeleteSlots(s: Inner, name: string, saved: bool)
    requires AllHaveSlots(s)
    ensures AllHaveSlots(DeletePort(s, name, saved).inner)
  {
    var s' := DeletePort(s, name, saved).inner;
    forall n | Attached(s', n) ensures n in s'.passts { assert Attached(s, n) && n != name; }
  }

  /** Every slot is running cleanly, or down with a failure on record and a retry set. */
  ghost predicate AllAtRest(s: Inner)
  {
    forall n :: n in s.passts ==> Passt.AtRest(s.passts[n])
  }

  lemma AttachAtRest(s: Inner, port: string, network: string, mac: Mac, spawned: bool, now: nat, saved: bool)
    requires AllAtRest(s)
    ensures AllAtRest(AttachPort(s, port, network, mac, spawned, now, saved).inner)
  {}

  lemma RefreshAtRest(s: Inner, port: string, value: Value, spawned: bool, now: nat)
    requires AllAtRest(s)
    ensures AllAtRest(Refresh(s, port, value, spawned, now).inner)
  {}

  lemma PublishAtRest(s: Inner, port: string, vm: u16, saved: bool, spawned: bool, now: nat)
    requires AllAtRest(s)
    ensures AllAtRest(PublishPort(s, port, vm, saved, spawned, now).inner)
  {
    var (t, r) := Publish.Allocate(s.publish, port, vm, PUBLISH_LO, PUBLISH_HI);
    if r.Some? { RefreshAtRest(s.(publish := t), port, HostPort(r.value), spawned, now); }
  }

  lemma UnpublishAtRest(s: Inner, port: string, vm: u16, saved: bool, spawned: bool, now: nat)
    requires AllAtRest(s)
    ensures AllAtRest(UnpublishPort(s, port, vm, saved, spawned, now).inner)
  {
    RefreshAtRest(s.(publish := Publish.Remove(s.publish, port, vm).0), port, Null, spawned, now);
  }

  lemma DetachAtRest(s: Inner, name: string, saved: bool)
    requires AllAtRest(s)
    ensures AllAtRest(DetachPort(s, name, saved).inner)
  {}

  lemma DeleteAtRest(s: Inner, name: string, saved: bool)
    requires AllAtRest(s)
    ensures AllAtRest(DeletePort(s, name, saved).inner)
  {}

  lemma TickAtRest(s: Inner, e: Event)
    requires AllAtRest(s) && e.Tick?
    ensures AllAtRest(SupervisePasst(s, e))
  {}

  lemma StepAtRest(w: World, e: Event)
    requires AllAtRest(w.inner)
    ensures AllAtRest(Step(w, e).inner)
  {
    var s := w.inner;
    match e {
      case RpcAttachPort(name, network, mac, spawned, now, save) =>
        AttachAtRest(s, name, network, mac, spawned, now, save.Saved?);
      case RpcDetachPort(name, save) => DetachAtRest(s, name, save.Saved?);
      case RpcDeletePort(name, save) => DeleteAtRest(s, name, save.Saved?);
      case Tick(_, _, _, _, _, _) => TickAtRest(s, e);
      case RpcPublishPort(name, vm, save, spawned, now) => PublishAtRest(s, name, vm, save.Saved?, spawned, now);
      case RpcUnpublishPort(name, vm, save, spawned, now) => UnpublishAtRest(s, name, vm, save.Saved?, spawned, now);
      case _ =>
    }
  }

  /** In every reachable state, whatever spawned, crashed or failed, every slot is at rest between events. */
  lemma {:induction false} RunAtRest(events: seq<Event>)
    ensures AllAtRest(Run(GENESIS, events).inner)
  {
    if events != [] {
      RunAtRest(events[..|events| - 1]);
      StepAtRest(Run(GENESIS, events[..|events| - 1]), events[|events| - 1]);
    }
  }
}
