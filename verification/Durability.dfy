/** What survives: the publish table on disk and host ports across crashes and restarts. */
module Durability {
  import opened Base
  import opened Daemon
  import opened Wiring
  import Publish

  /** The disk holds exactly the table in memory, and would after a power loss too. */
  predicate InSync(w: World)
  {
    w.disk == Disk(w.inner.publish, {w.inner.publish})
  }

  /** Every path through an RPC that changes the publish table reaches the save. */
  lemma ChangesAreSaved(s: Inner, e: Event)
    requires IsRpc(e) && Call(s, e).inner.publish != s.publish
    ensures Call(s, e).saves
  {
    match e {
      case RpcPublishPort(name, vm, save, spawned, now) => PublishSaves(s, name, vm, save.Saved?, spawned, now);
      case RpcUnpublishPort(name, vm, save, spawned, now) => UnpublishSaves(s, name, vm, save.Saved?, spawned, now);
      case RpcAttachPort(name, network, mac, spawned, now, save) =>
        AttachKeepsTable(s, name, network, mac, spawned, now, save.Saved?);
      case RpcDetachPort(_, _) =>
      case RpcDeletePort(_, _) =>
      case _ =>
    }
  }

  lemma AttachKeepsTable(s: Inner, name: string, network: string, mac: Mac, spawned: bool, now: nat, saved: bool)
    ensures AttachPort(s, name, network, mac, spawned, now, saved).inner.publish == s.publish
  {}

  lemma PublishSaves(s: Inner, name: string, vm: u16, saved: bool, spawned: bool, now: nat)
    ensures var d := PublishPort(s, name, vm, saved, spawned, now);
      && (d.inner.publish == s.publish || d.saves)
      && d.inner.publish == (if Attached(s, name)
                             then Publish.Allocate(s.publish, name, vm, PUBLISH_LO, PUBLISH_HI).0 else s.publish)
  {}

  lemma UnpublishSaves(s: Inner, name: string, vm: u16, saved: bool, spawned: bool, now: nat)
    ensures var d := UnpublishPort(s, name, vm, saved, spawned, now);
      && (d.inner.publish == s.publish || d.saves)
      && d.inner.publish == Publish.Remove(s.publish, name, vm).0
  {}

  /**
    A new life: the lock is free, no network, port, slot or learned MAC is left, ids start at 1
    again, and the publish table is the one on disk, or after a power loss the durable one that
    was left. The disk then holds that table, and only it after a power loss.
   */
  lemma StartMeans(w: World, e: Event)
    requires IsStart(e)
    ensures var w' := Step(w, e);
      && !w'.poisoned
      && w'.inner.networks == map[] && w'.inner.ports == map[] && w'.inner.names == map[]
      && w'.inner.passts == map[] && w'.inner.nextPortId == 1
      && w'.inner.switch.ports == map[] && w'.inner.switch.recent == []
      && w'.inner.gateway.networks == map[] && w'.inner.gateway.ports == map[]
      && w'.inner.publish == (if e.Restart? then w.disk.live else e.kept)
      && w'.disk == if e.Restart? then w.disk else Disk(e.kept, {e.kept})
  {}

  /** Memory and disk part exactly when an event changes the table and its save does not succeed. */
  lemma StepInSync(w: World, e: Event)
    requires InSync(w) && Possible(w, e)
    ensures InSync(Step(w, e)) <==>
      Step(w, e).inner.publish == w.inner.publish || (IsRpc(e) && SaveOf(e).Saved?)
  {
    if IsRpc(e) && !w.poisoned {
      var t := Call(w.inner, e).inner.publish;
      if t != w.inner.publish {
        ChangesAreSaved(w.inner, e);
        assert t in Write(w.disk, t, NotSynced).durable && w.inner.publish in Write(w.disk, t, NotSynced).durable;
      }
    }
  }

  /** An RPC that reaches the save, with the lock not poisoned. */
  predicate Saves(w: World, e: Event)
  {
    IsRpc(e) && !w.poisoned && Call(w.inner, e).saves
  }

  /** No save of the run fails. */
  predicate SavesSucceed(w: World, events: seq<Event>)
  {
    events == [] ||
    var init := events[..|events| - 1];
    var last := events[|events| - 1];
    SavesSucceed(w, init) && (Saves(Run(w, init), last) ==> SaveOf(last).Saved?)
  }

  lemma {:induction false} RunInSync(w: World, events: seq<Event>)
    requires InSync(w) && AllowedRun(w, events) && SavesSucceed(w, events)
    ensures InSync(Run(w, events))
  {
    if events != [] {
      var init := events[..|events| - 1];
      RunInSync(w, init);
      SavedStepInSync(Run(w, init), events[|events| - 1]);
    }
  }

  lemma SavedStepInSync(w: World, e: Event)
    requires InSync(w) && Possible(w, e) && (Saves(w, e) ==> SaveOf(e).Saved?)
    ensures InSync(Step(w, e))
  {
    StepInSync(w, e);
    if IsRpc(e) && Call(w.inner, e).inner.publish != w.inner.publish {
      ChangesAreSaved(w.inner, e);
    }
  }

  /**
    Whatever failed before, a save that succeeds brings disk and memory together, and they stay
    together through panics, restarts and power losses until a save fails.
   */
  lemma InSyncSinceLastSave(w: World, e: Event, events: seq<Event>)
    requires Saves(w, e) && SaveOf(e).Saved?
    requires AllowedRun(Step(w, e), events) && SavesSucceed(Step(w, e), events)
    ensures InSync(Run(Step(w, e), events))
  {
    RunInSync(Step(w, e), events);
  }

  // ---- host ports ---------------------------------------------------------------------------------------

  /** In memory and in everything a reload can bring back, the pair holds `host`. */
  ghost predicate Pinned(w: World, port: string, vm: u16, host: u16)
  {
    && Publish.Get(w.inner.publish, port, vm) == Some(host)
    && Publish.Get(w.disk.live, port, vm) == Some(host)
    && (forall t :: t in w.disk.durable ==> Publish.Get(t, port, vm) == Some(host))
  }

  /** The only events that give up the pair. */
  predicate Frees(e: Event, port: string, vm: u16)
  {
    || (e.RpcDetachPort? && e.name == port)
    || (e.RpcDeletePort? && e.name == port)
    || (e.RpcUnpublishPort? && e.name == port && e.vm == vm)
  }

  lemma CallKeepsPair(s: Inner, e: Event, port: string, vm: u16, host: u16)
    requires Publish.Sound(s.publish) && IsRpc(e) && !Frees(e, port, vm)
    requires Publish.Get(s.publish, port, vm) == Some(host)
    ensures Publish.Get(Call(s, e).inner.publish, port, vm) == Some(host)
  {
    match e {
      case RpcPublishPort(name, v, save, spawned, now) =>
        PublishSaves(s, name, v, save.Saved?, spawned, now);
        PairKept(s.publish, name, v, port, vm, host);
      case RpcUnpublishPort(name, v, save, spawned, now) =>
        UnpublishSaves(s, name, v, save.Saved?, spawned, now);
        Publish.RemoveLeavesOthers(s.publish, name, v, port, vm);
      case RpcAttachPort(name, network, mac, spawned, now, save) =>
        AttachKeepsTable(s, name, network, mac, spawned, now, save.Saved?);
      case RpcDetachPort(name, save) => DetachTable(s, name, save.Saved?);
      case RpcDeletePort(name, save) => DeleteTable(s, name, save.Saved?);
      case _ =>
    }
  }

  lemma DetachTable(s: Inner, name: string, saved: bool)
    ensures var t := DetachPort(s, name, saved).inner.publish; t == s.publish || t == s.publish - {name}
  {}

  lemma DeleteTable(s: Inner, name: string, saved: bool)
    ensures var t := DeletePort(s, name, saved).inner.publish; t == s.publish || t == s.publish - {name}
  {}

  lemma PairKept(t: Publish.Table, name: string, v: u16, port: string, vm: u16, host: u16)
    requires Publish.Sound(t) && Publish.Get(t, port, vm) == Some(host)
    ensures Publish.Get(Publish.Allocate(t, name, v, PUBLISH_LO, PUBLISH_HI).0, port, vm) == Some(host)
  {}

  lemma StepPinned(w: World, e: Event, port: string, vm: u16, host: u16)
    requires WiredWorld(w) && Possible(w, e) && Pinned(w, port, vm, host) && !Frees(e, port, vm)
    ensures Pinned(Step(w, e), port, vm, host)
  {
    if IsRpc(e) && !w.poisoned {
      CallKeepsPair(w.inner, e, port, vm, host);
      RpcStep(w, e);
      WritePinned(w.disk, Call(w.inner, e).inner.publish, SaveOf(e), port, vm, host);
    } else {
      OtherStepPinned(w, e, port, vm, host);
    }
  }

  lemma WritePinned(d: Disk, t: Publish.Table, save: Save, port: string, vm: u16, host: u16)
    requires Publish.Get(t, port, vm) == Some(host) && Publish.Get(d.live, port, vm) == Some(host)
    requires forall x :: x in d.durable ==> Publish.Get(x, port, vm) == Some(host)
    ensures Publish.Get(Write(d, t, save).live, port, vm) == Some(host)
    ensures forall x :: x in Write(d, t, save).durable ==> Publish.Get(x, port, vm) == Some(host)
  {}

  lemma OtherStepPinned(w: World, e: Event, port: string, vm: u16, host: u16)
    requires Possible(w, e) && Pinned(w, port, vm, host) && (IsRpc(e) ==> w.poisoned)
    ensures Pinned(Step(w, e), port, vm, host)
  {}

  lemma {:induction false} RunPinned(w: World, events: seq<Event>, port: string, vm: u16, host: u16)
    requires WiredWorld(w) && AllowedRun(w, events) && Pinned(w, port, vm, host)
    requires forall i :: 0 <= i < |events| ==> !Frees(events[i], port, vm)
    ensures WiredWorld(Run(w, events)) && Pinned(Run(w, events), port, vm, host)
  {
    if events != [] {
      var init := events[..|events| - 1];
      RunPinned(w, init, port, vm, host);
      StepWired(Run(w, init), events[|events| - 1]);
      StepPinned(Run(w, init), events[|events| - 1], port, vm, host);
    }
  }

  /**
    Durability: a pair published when memory and disk agree keeps its host port through any
    later run of RPCs, failed saves, panics, restarts and power losses that does not free it.
    Publishing it again, if that succeeds, returns the same host port, and publishing any other
    pair never returns it.
   */
  lemma HostPortSurvives(w: World, events: seq<Event>, port: string, vm: u16, host: u16, e: Event)
    requires WiredWorld(w) && InSync(w) && AllowedRun(w, events)
    requires Publish.Get(w.inner.publish, port, vm) == Some(host)
    requires forall i :: 0 <= i < |events| ==> !Frees(events[i], port, vm)
    requires e.RpcPublishPort?
    ensures var r := Call(Run(w, events).inner, e).result;
      r.Ok? ==> r.value.HostPort? && (r.value.port == host <==> (e.name, e.vm) == (port, vm))
  {
    RunPinned(w, events, port, vm, host);
    var s := Run(w, events).inner;
    PublishResult(s, e.name, e.vm, e.save.Saved?, e.spawned, e.now);
    PairsDiffer(s.publish, port, vm, host, e.name, e.vm);
  }

  lemma PublishResult(s: Inner, name: string, vm: u16, saved: bool, spawned: bool, now: nat)
    ensures var d := PublishPort(s, name, vm, saved, spawned, now);
      var r := Publish.Allocate(s.publish, name, vm, PUBLISH_LO, PUBLISH_HI).1;
      d.result.Ok? ==> r.Some? && d.result.value == HostPort(r.value)
  {}

  lemma PairsDiffer(t: Publish.Table, port: string, vm: u16, host: u16, name: string, v: u16)
    requires Publish.Sound(t) && Publish.Get(t, port, vm) == Some(host)
    ensures var r := Publish.Allocate(t, name, v, PUBLISH_LO, PUBLISH_HI).1;
      r.Some? ==> (r.value == host <==> (name, v) == (port, vm))
  {
    Publish.AllocateMeans(t, name, v, PUBLISH_LO, PUBLISH_HI);
    assert Publish.Held(t, port, vm);
    if Publish.Held(t, name, v) {
      assert Publish.Held(t, name, v) && Publish.Held(t, port, vm);
    } else {
      assert Publish.InUse(t, host);
    }
  }
}
