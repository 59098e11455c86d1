/**
  Each port's passt slot over whole runs of the daemon: what every event asks of it, and the
  pacing of its spawns by the clock.
 */
module Supervision {
  import opened Base
  import opened Daemon
  import opened Reservation
  import Coherence
  import Ipam
  import Passt
  import Publish

  function SlotOf(s: Inner, p: string): Option<Passt.Slot>
  {
    if p in s.passts then Some(s.passts[p]) else None
  }

  /** The configuration a reserved port's slot should run for these entries. */
  function ConfigOf(s: Inner, p: string, slice: Publish.Slice): Passt.Config
    requires PortReserved(s, p)
  {
    Passt.ConfigFor(AddressOf(s, p), s.networks[s.ports[p].network.value].net, slice)
  }

  /** What an RPC on port `p` that gets the lock asks of the port's slot. */
  function Asked(s: Inner, e: Event, p: string): Option<Passt.Event>
    requires IsRpc(e)
  {
    match e
    case RpcAttachPort(name, network, mac, spawned, now, _) =>
      if name != p || p !in s.ports || s.ports[p].network.Some? || network !in s.networks then None
      else
        var net := s.networks[network].net;
        (match Ipam.Allocate(net, s.networks[network].bindings, mac).1
         case Err(_) => None
         case Ok(ip) => Some(Passt.Want(Passt.ConfigFor(ip, net, map[]), now, spawned, now)))
    case RpcPublishPort(name, vm, save, spawned, now) =>
      var (t, r) := Publish.Allocate(s.publish, p, vm, PUBLISH_LO, PUBLISH_HI);
      if name != p || !save.Saved? || !PortReserved(s, p) || r.None? then None
      else Some(Passt.Want(ConfigOf(s, p, Publish.SliceOf(t, p)), now, spawned, now))
    case RpcUnpublishPort(name, vm, save, spawned, now) =>
      var (t, r) := Publish.Remove(s.publish, p, vm);
      if name != p || !save.Saved? || r.None? then None
      else if Publish.SliceOf(t, p) == map[] then Some(Passt.Drop)
      else if !PortReserved(s, p) then None
      else Some(Passt.Want(ConfigOf(s, p, Publish.SliceOf(t, p)), now, spawned, now))
    case RpcDetachPort(name, save) =>
      if name != p || !save.Saved? || p !in s.ports then None
      else if PortReserved(s, p) || s.ports[p].network.None? || s.ports[p].mac.None? then Some(Passt.Drop)
      else None
    case RpcDeletePort(name, save) => if name != p || !save.Saved? || p !in s.ports then None else Some(Passt.Drop)
    case _ => None
  }

  /** What an event of a life asks of port `p`'s slot. */
  function OpOf(w: World, e: Event, p: string): Option<Passt.Event>
    requires !IsStart(e)
  {
    if w.poisoned then None
    else if IsRpc(e) then Asked(w.inner, e, p)
    else if e.Tick? && e.name == p then Some(Passt.Tick(e.exited, e.reaped, e.checked, e.spawned, e.tried))
    else if e.Uplink? && e.name == p then Some(Passt.Learn(e.mac))
    else None
  }

  function Apply(m: Passt.Machine, op: Option<Passt.Event>): Passt.Machine
  {
    if op.None? then m else Passt.Step(m, op.value)
  }

  // ---- every event acts on every slot as the machine does -----------------------------------------------

  lemma AttachSlot(s: Inner, port: string, network: string, mac: Mac, spawned: bool, now: nat, save: Save,
                   p: string, m: Passt.Machine)
    requires m.slot == SlotOf(s, p)
    ensures SlotOf(AttachPort(s, port, network, mac, spawned, now, save.Saved?).inner, p)
      == Apply(m, Asked(s, RpcAttachPort(port, network, mac, spawned, now, save), p)).slot
  {
    if port in s.ports && s.ports[port].network.None? && network in s.networks {
      var (t, r) := Ipam.Allocate(s.networks[network].net, s.networks[network].bindings, mac);
      if r.Ok? { JoinSlot(WithBindings(s, network, t), port, network, mac, r.value, spawned, now, save.Saved?, p, m); }
    }
  }

  lemma JoinSlot(s: Inner, port: string, network: string, mac: Mac, ip: Ip, spawned: bool, now: nat, saved: bool,
                 p: string, m: Passt.Machine)
    requires m.slot == SlotOf(s, p) && port in s.ports && network in s.networks
    ensures SlotOf(Join(s, port, network, mac, ip, spawned, now, saved).inner, p)
      == Apply(m, if port == p
                  then Some(Passt.Want(Passt.ConfigFor(ip, s.networks[network].net, map[]), now, spawned, now))
                  else None).slot
  {}

  lemma RefreshSlot(s: Inner, port: string, value: Value, spawned: bool, now: nat, p: string, m: Passt.Machine)
    requires m.slot == SlotOf(s, p)
    ensures SlotOf(Refresh(s, port, value, spawned, now).inner, p)
      == Apply(m, if port == p && PortReserved(s, p)
                  then Some(Passt.Want(ConfigOf(s, p, Publish.SliceOf(s.publish, p)), now, spawned, now))
                  else None).slot
  {}

  lemma PublishSlot(s: Inner, port: string, vm: u16, save: Save, spawned: bool, now: nat, p: string, m: Passt.Machine)
    requires m.slot == SlotOf(s, p)
    ensures SlotOf(PublishPort(s, port, vm, save.Saved?, spawned, now).inner, p)
      == Apply(m, Asked(s, RpcPublishPort(port, vm, save, spawned, now), p)).slot
  {
    var (t, r) := Publish.Allocate(s.publish, port, vm, PUBLISH_LO, PUBLISH_HI);
    if r.Some? { RefreshSlot(s.(publish := t), port, HostPort(r.value), spawned, now, p, m); }
  }

  lemma UnpublishSlot(s: Inner, port: string, vm: u16, save: Save, spawned: bool, now: nat, p: string,
                      m: Passt.Machine)
    requires m.slot == SlotOf(s, p)
    ensures SlotOf(UnpublishPort(s, port, vm, save.Saved?, spawned, now).inner, p)
      == Apply(m, Asked(s, RpcUnpublishPort(port, vm, save, spawned, now), p)).slot
  {
    var (t, r) := Publish.Remove(s.publish, port, vm);
    if r.Some? { RefreshSlot(s.(publish := t), port, Null, spawned, now, p, m); }
  }

  lemma DetachSlot(s: Inner, name: string, save: Save, p: string, m: Passt.Machine)
    requires m.slot == SlotOf(s, p)
    ensures SlotOf(DetachPort(s, name, save.Saved?).inner, p) == Apply(m, Asked(s, RpcDetachPort(name, save), p)).slot
  {}

  lemma DeleteSlot(s: Inner, name: string, save: Save, p: string, m: Passt.Machine)
    requires m.slot == SlotOf(s, p)
    ensures SlotOf(DeletePort(s, name, save.Saved?).inner, p) == Apply(m, Asked(s, RpcDeletePort(name, save), p)).slot
  {}

  lemma CallSlot(s: Inner, e: Event, p: string, m: Passt.Machine)
    requires IsRpc(e) && m.slot == SlotOf(s, p)
    ensures SlotOf(Call(s, e).inner, p) == Apply(m, Asked(s, e, p)).slot
  {
    match e {
      case RpcAttachPort(name, network, mac, spawned, now, save) =>
        AttachSlot(s, name, network, mac, spawned, now, save, p, m);
      case RpcPublishPort(name, vm, save, spawned, now) => PublishSlot(s, name, vm, save, spawned, now, p, m);
      case RpcUnpublishPort(name, vm, save, spawned, now) => UnpublishSlot(s, name, vm, save, spawned, now, p, m);
      case RpcDetachPort(name, save) => DetachSlot(s, name, save, p, m);
      case RpcDeletePort(name, save) => DeleteSlot(s, name, save, p, m);
      case _ =>
    }
  }

  lemma StepSlot(w: World, e: Event, p: string, m: Passt.Machine)
    requires !IsStart(e) && m.slot == SlotOf(w.inner, p)
    ensures SlotOf(Step(w, e).inner, p) == Apply(m, OpOf(w, e, p)).slot
  {
    if IsRpc(e) && !w.poisoned {
      RpcStep(w, e);
      CallSlot(w.inner, e, p, m);
    } else {
      OtherSlot(w, e, p, m);
    }
  }

  lemma OtherSlot(w: World, e: Event, p: string, m: Passt.Machine)
    requires !IsStart(e) && (IsRpc(e) ==> w.poisoned) && m.slot == SlotOf(w.inner, p)
    ensures SlotOf(Step(w, e).inner, p) == Apply(m, OpOf(w, e, p)).slot
  {
    if e.Frame? {
      PumpTouchesSwitch(w.inner, e.name, e.me, e.frame, e.env);
    }
  }

  // ---- timed runs ---------------------------------------------------------------------------------------

  /** The clock after an event that read it. */
  function ClockAfter(clock: nat, e: Event): nat
  {
    match e
    case RpcAttachPort(_, _, _, _, now, _) => now
    case RpcPublishPort(_, _, _, _, now) => now
    case RpcUnpublishPort(_, _, _, _, now) => now
    case Tick(_, _, _, _, _, tried) => tried
    case _ => clock
  }

  function Clock(events: seq<Event>): nat
  {
    if events == [] then 0 else ClockAfter(Clock(events[..|events| - 1]), events[|events| - 1])
  }

  /** Clock readings never go back. */
  predicate Timely(events: seq<Event>)
  {
    events == [] ||
    var init, e := events[..|events| - 1], events[|events| - 1];
    && Timely(init) && Clock(init) <= Clock(events)
    && (e.Tick? ==> Clock(init) <= e.reaped <= e.checked <= e.tried)
  }

  /** Port `p`'s slot since the daemon last started, with every spawn attempt made for it. */
  function MachineOf(events: seq<Event>, p: string): Passt.Machine
  {
    if events == [] || IsStart(events[|events| - 1]) then Passt.IDLE
    else
      var init, e := events[..|events| - 1], events[|events| - 1];
      Apply(MachineOf(init, p), OpOf(Run(GENESIS, init), e, p))
  }

  lemma ReadsInTime(w: World, e: Event, p: string, m: Passt.Machine, clock: nat)
    requires !IsStart(e) && m.clock <= clock <= ClockAfter(clock, e)
    requires e.Tick? ==> clock <= e.reaped <= e.checked <= e.tried
    requires OpOf(w, e, p).Some?
    ensures Passt.InTime(m, OpOf(w, e, p).value)
    ensures OpOf(w, e, p).value.Want? ==> OpOf(w, e, p).value.known == ClockAfter(clock, e)
    ensures OpOf(w, e, p).value.Tick? ==> OpOf(w, e, p).value.tried == ClockAfter(clock, e)
  {}

  /**
    In every run whose clock readings do not go back, whatever is published, crashes or fails,
    each port's slot is that of a healthy machine: at rest it is running cleanly or backed off;
    since the daemon last started every supervisor spawn came at least 100 ms after the previous
    attempt of any kind; and after k failures in a row the next waits min(100 * 2^(k-1), 2000) ms.
   */
  lemma {:induction false} RunPaced(events: seq<Event>, p: string)
    requires Timely(events)
    ensures SlotOf(Run(GENESIS, events).inner, p) == MachineOf(events, p).slot
    ensures Passt.Healthy(MachineOf(events, p)) && MachineOf(events, p).clock <= Clock(events)
  {
    if events != [] {
      var init, e := events[..|events| - 1], events[|events| - 1];
      RunPaced(init, p);
      if !IsStart(e) {
        var w, m := Run(GENESIS, init), MachineOf(init, p);
        StepSlot(w, e, p, m);
        if OpOf(w, e, p).Some? {
          ReadsInTime(w, e, p, m, Clock(init));
          Passt.StepHealthy(m, OpOf(w, e, p).value);
        }
      }
    }
  }

  /** In particular: two neighbouring attempts, the later one the supervisor's, are 100 ms apart. */
  lemma SupervisorSpawnsAreSpaced(events: seq<Event>, p: string, i: nat)
    requires Timely(events) && 0 < i < |MachineOf(events, p).attempts|
    requires MachineOf(events, p).attempts[i].bySupervisor
    ensures var attempts := MachineOf(events, p).attempts;
      attempts[i].time >= attempts[i - 1].time + Passt.BACKOFF_BASE_MS
  {
    RunPaced(events, p);
  }

  // ---- ticks in daemon runs -----------------------------------------------------------------------------

  /** The event ticks port `p`'s supervisor, and the lock can be taken. */
  predicate Ticks(w: World, e: Event, p: string)
  {
    e.Tick? && e.name == p && !w.poisoned && p in w.inner.passts
  }

  /**
    Crashed passts come back: in every run, a tick tries to restart a slot that is down iff its
    retry time has come. If the spawn succeeds the slot runs with no failures on record; if not
    it is backed off one step further. Before its time, and while its process runs, it is left
    alone. A process found dead is down with one failure for 100 ms. No tick touches other
    slots, or anything but slots.
   */
  lemma TickRestarts(events: seq<Event>, e: Event, p: string)
    requires Ticks(Run(GENESIS, events), e, p)
    ensures var s, s' := Run(GENESIS, events).inner, Step(Run(GENESIS, events), e).inner;
      && p in s'.passts && s' == s.(passts := s.passts[p := s'.passts[p]])
      && Restarted(s.passts[p], s'.passts[p], e)
  {
    Coherence.RunAtRest(events);
    TickStep(Run(GENESIS, events), e, p);
  }

  /** What a tick makes of a slot at rest. */
  predicate Restarted(slot: Passt.Slot, after: Passt.Slot, e: Event)
    requires e.Tick?
  {
    if slot.live && !e.exited then after == slot
    else if slot.live then
      var down := slot.(live := false, failures := 1, nextRetry := Some(e.reaped + 100));
      if e.checked < e.reaped + 100 then after == down else Passt.Tried(down, after, e.spawned, e.tried)
    else
      && slot.nextRetry.Some?
      && if e.checked < slot.nextRetry.value then after == slot else Passt.Tried(slot, after, e.spawned, e.tried)
  }

  lemma TickStep(w: World, e: Event, p: string)
    requires Ticks(w, e, p) && Passt.AtRest(w.inner.passts[p])
    ensures var s, s' := w.inner, Step(w, e).inner;
      && p in s'.passts && s' == s.(passts := s.passts[p := s'.passts[p]])
      && Restarted(s.passts[p], s'.passts[p], e)
  {
    Passt.SuperviseMeans(w.inner.passts[p], e.exited, e.reaped, e.checked, e.spawned, e.tried);
  }

  /** With the clock not going back, such a tick makes one attempt, at the time it checked, and no other tick any. */
  lemma TickAttempts(events: seq<Event>, e: Event, p: string)
    requires Timely(events + [e]) && Ticks(Run(GENESIS, events), e, p)
    ensures var slot := Run(GENESIS, events).inner.passts[p];
      var due := if slot.live then e.exited && e.checked >= e.reaped + 100
                 else slot.nextRetry.Some? && e.checked >= slot.nextRetry.value;
      MachineOf(events + [e], p).attempts
      == MachineOf(events, p).attempts + if due then [Passt.Attempt(e.checked, true)] else []
  {
    assert (events + [e])[..|events|] == events;
    RunPaced(events, p);
    ReadsInTime(Run(GENESIS, events), e, p, MachineOf(events, p), Clock(events));
    Passt.TickAttempts(MachineOf(events, p), OpOf(Run(GENESIS, events), e, p).value);
  }
}
