/**
  The passt ingress readers: one thread per created port, which adopts whatever passt its port's
  name has and injects what it reads into the channel of the port it was created with.
 */
module Readers {
  import opened Base
  import opened Daemon
  import opened Wiring
  import Framing
  import Ipam
  import Passt
  import Reservation
  import Rpcs
  import Supervision

  /** `channel` is the id of the port the thread was started for; `adopted` the port whose passt it reads. */
  datatype Reader = Reader(name: string, channel: PortId, adopted: Option<PortId>)

  /** `owners` tells for each slot which port's configuration it runs. */
  datatype Fleet = Fleet(world: World, readers: set<Reader>, owners: map<string, PortId>)

  datatype Act =
    | Core(event: Event)
    | Look(reader: Reader, cloned: bool)
    | Read(reader: Reader, frame: Bytes, closed: bool)
    | Ends(reader: Reader)

  /** The event creates a port, and starts its reader. */
  predicate Creates(w: World, e: Event)
  {
    e.RpcCreatePort? && e.bound && e.name !in w.inner.ports && !w.poisoned
  }

  /** The event starts a passt for port `n`, or tries to: its slot then runs the port's own configuration. */
  predicate Claims(w: World, e: Event, n: string)
  {
    && !IsStart(e) && Supervision.OpOf(w, e, n).Some?
    && var op := Supervision.OpOf(w, e, n).value;
       op.Want? && !Passt.UpToDate(Supervision.SlotOf(w.inner, n), op.config)
  }

  function IdOf(s: Inner, n: string): PortId
  {
    if n in s.ports then s.ports[n].id else 0
  }

  function OwnersAfter(w: World, owners: map<string, PortId>, e: Event): map<string, PortId>
  {
    map n | n in Step(w, e).inner.passts ::
      if Claims(w, e, n) then IdOf(w.inner, n) else if n in owners then owners[n] else 0
  }

  function ReadersAfter(w: World, readers: set<Reader>, e: Event): set<Reader>
  {
    if IsStart(e) then {}
    else if Creates(w, e) then readers + {Reader(e.name, w.inner.nextPortId, None)}
    else readers
  }

  function Swap(readers: set<Reader>, r: Reader, r': Reader): set<Reader>
  {
    readers - {r} + {r'}
  }

  /** A frame too short for its MAC slice kills the thread, before it takes the lock. */
  function Learned(w: World, r: Reader, frame: Bytes): World
  {
    if |frame| >= 12 then Step(w, Uplink(r.name, MacAt(frame, 6))) else w
  }

  function Next(f: Fleet, a: Act): Fleet
  {
    match a
    case Core(e) => Fleet(Step(f.world, e), ReadersAfter(f.world, f.readers, e), OwnersAfter(f.world, f.owners, e))
    case Look(r, cloned) =>
      var s := f.world.inner;
      if r !in f.readers || r.adopted.Some? || f.world.poisoned then f
      else if r.name in s.passts && s.passts[r.name].live then
        if cloned && r.name in f.owners
        then f.(readers := Swap(f.readers, r, r.(adopted := Some(f.owners[r.name])))) else f
      else if r.name !in s.ports then f.(readers := f.readers - {r})
      else f
    case Read(r, frame, closed) =>
      if r !in f.readers || r.adopted.None? then f
      else if Framing.Fatal(frame) then f.(readers := f.readers - {r})
      else
        var learned := f.(world := Learned(f.world, r, frame));
        if closed then learned.(readers := Swap(f.readers, r, r.(adopted := None))) else learned
    case Ends(r) => if r !in f.readers then f else f.(readers := Swap(f.readers, r, r.(adopted := None)))
  }

  /** A frame of port `source`'s passt, injected into the channel of port `channel`. */
  datatype Arrival = Arrival(source: PortId, channel: PortId, frame: Bytes)

  function Arrivals(f: Fleet, a: Act): set<Arrival>
  {
    if a.Read? && a.reader in f.readers && a.reader.adopted.Some? && !Framing.Fatal(a.frame) && !a.closed
    then {Arrival(a.reader.adopted.value, a.reader.channel, a.frame)} else {}
  }

  // ---- the invariant --------------------------------------------------------------------------------------

  /** The reader serves the port of its name, that name's slot runs that port, and what it reads is that port's. */
  predicate Home(f: Fleet, r: Reader)
  {
    && r.channel < f.world.inner.nextPortId
    && (r.name in f.world.inner.ports ==> f.world.inner.ports[r.name].id == r.channel)
    && (r.name in f.owners ==> f.owners[r.name] == r.channel)
    && (r.adopted.Some? ==> r.adopted.value == r.channel)
  }

  ghost predicate Owned(f: Fleet)
  {
    && f.owners.Keys == f.world.inner.passts.Keys
    && (forall n :: n in f.owners ==> f.owners[n] < f.world.inner.nextPortId)
    && (forall r {:trigger Home(f, r)} :: r in f.readers ==> Home(f, r))
  }

  /** A port is created under a name that still has a reader or a slot. */
  predicate Reuses(f: Fleet, a: Act)
  {
    && a.Core? && Creates(f.world, a.event)
    && (a.event.name in f.world.inner.passts || exists r :: r in f.readers && r.name == a.event.name)
  }

  // ---- what events do to ids ------------------------------------------------------------------------------

  /** Ports keep their ids, and no port appears. */
  predicate IdsKept(s: Inner, s': Inner)
  {
    s'.nextPortId == s.nextPortId && forall n :: n in s'.ports ==> n in s.ports && s'.ports[n].id == s.ports[n].id
  }

  lemma AttachIds(s: Inner, port: string, network: string, mac: Mac, spawned: bool, now: nat, saved: bool)
    ensures IdsKept(s, AttachPort(s, port, network, mac, spawned, now, saved).inner)
  {
    if port in s.ports && s.ports[port].network.None? && network in s.networks {
      var (t, r) := Ipam.Allocate(s.networks[network].net, s.networks[network].bindings, mac);
      if r.Ok? { Rpcs.JoinKeeps(WithBindings(s, network, t), port, network, mac, r.value, spawned, now, saved); }
    }
  }

  lemma DetachIds(s: Inner, name: string, saved: bool)
    ensures IdsKept(s, DetachPort(s, name, saved).inner)
  {}

  lemma DeleteIds(s: Inner, name: string, saved: bool)
    ensures IdsKept(s, DeletePort(s, name, saved).inner)
  {}

  lemma PublishIds(s: Inner, port: string, vm: u16, saved: bool, spawned: bool, now: nat)
    ensures IdsKept(s, PublishPort(s, port, vm, saved, spawned, now).inner)
  {}

  lemma UnpublishIds(s: Inner, port: string, vm: u16, saved: bool, spawned: bool, now: nat)
    ensures IdsKept(s, UnpublishPort(s, port, vm, saved, spawned, now).inner)
  {}

  lemma CallIds(s: Inner, e: Event)
    requires IsRpc(e) && !(e.RpcCreatePort? && e.bound && e.name !in s.ports)
    ensures IdsKept(s, Call(s, e).inner)
  {
    match e {
      case RpcAttachPort(name, network, mac, spawned, now, save) =>
        AttachIds(s, name, network, mac, spawned, now, save.Saved?);
      case RpcDetachPort(name, save) => DetachIds(s, name, save.Saved?);
      case RpcDeletePort(name, save) => DeleteIds(s, name, save.Saved?);
      case RpcPublishPort(name, vm, save, spawned, now) => PublishIds(s, name, vm, save.Saved?, spawned, now);
      case RpcUnpublishPort(name, vm, save, spawned, now) => UnpublishIds(s, name, vm, save.Saved?, spawned, now);
      case _ =>
    }
  }

  lemma StepIds(w: World, e: Event)
    requires !IsStart(e) && !Creates(w, e)
    ensures IdsKept(w.inner, Step(w, e).inner)
  {
    if IsRpc(e) && !w.poisoned {
      RpcStep(w, e);
      CallIds(w.inner, e);
    } else {
      OtherIds(w, e);
    }
  }

  lemma OtherIds(w: World, e: Event)
    requires !IsStart(e) && (IsRpc(e) ==> w.poisoned)
    ensures IdsKept(w.inner, Step(w, e).inner)
  {
    if e.Frame? {
      Reservation.PumpTouchesSwitch(w.inner, e.name, e.me, e.frame, e.env);
    }
  }

  /** Only attached ports are asked for a configuration. */
  lemma ClaimsOwnPort(w: World, e: Event, n: string)
    requires Claims(w, e, n)
    ensures n in w.inner.ports
  {}

  /** A slot is there because it was, or because the event claimed it. */
  lemma SlotsComeFromClaims(w: World, e: Event, n: string)
    requires !IsStart(e) && n in Step(w, e).inner.passts && !Claims(w, e, n)
    ensures n in w.inner.passts
  {
    var m := Passt.IDLE.(slot := Supervision.SlotOf(w.inner, n));
    Supervision.StepSlot(w, e, n, m);
  }

  // ---- steps and runs -------------------------------------------------------------------------------------

  /** A slot's owner is what it was, or the port of its name, which has just claimed it. */
  predicate OwnerFrom(f: Fleet, f': Fleet, n: string)
    requires n in f'.owners
  {
    || (n in f.owners && f'.owners[n] == f.owners[n])
    || (n in f.world.inner.ports && f'.owners[n] == f.world.inner.ports[n].id < f.world.inner.nextPortId)
  }

  lemma OwnerStep(f: Fleet, e: Event, n: string)
    requires WiredWorld(f.world) && Owned(f) && !IsStart(e) && n in Next(f, Core(e)).owners
    ensures OwnerFrom(f, Next(f, Core(e)), n)
  {
    if Claims(f.world, e, n) {
      ClaimsOwnPort(f.world, e, n);
      assert PortWired(f.world.inner, n) && IdWired(f.world.inner, f.world.inner.ports[n].id);
    } else {
      SlotsComeFromClaims(f.world, e, n);
    }
  }

  /** With ids and readers kept and owners so derived, every reader stays at home. */
  lemma StayHome(f: Fleet, f': Fleet)
    requires Owned(f) && f'.readers == f.readers && f'.owners.Keys == f'.world.inner.passts.Keys
    requires IdsKept(f.world.inner, f'.world.inner)
    requires forall n {:trigger OwnerFrom(f, f', n)} :: n in f'.owners ==> OwnerFrom(f, f', n)
    ensures Owned(f')
  {
    forall n | n in f'.owners ensures f'.owners[n] < f'.world.inner.nextPortId { assert OwnerFrom(f, f', n); }
    forall r | r in f'.readers ensures Home(f', r) {
      assert Home(f, r);
      if r.name in f'.owners { assert OwnerFrom(f, f', r.name); }
    }
  }

  /** An event that creates no port leaves every reader at home. */
  lemma QuietOwned(f: Fleet, e: Event)
    requires WiredWorld(f.world) && Owned(f) && !IsStart(e) && !Creates(f.world, e)
    ensures Owned(Next(f, Core(e)))
  {
    var f' := Next(f, Core(e));
    StepIds(f.world, e);
    forall n | n in f'.owners ensures OwnerFrom(f, f', n) { OwnerStep(f, e, n); }
    StayHome(f, f');
  }

  lemma CreateStep(w: World, e: Event)
    requires Creates(w, e) && w.inner.nextPortId < U32_MAX
    ensures var s, s' := w.inner, Step(w, e).inner;
      && s'.nextPortId == s.nextPortId + 1 && s'.passts == s.passts
      && s'.ports == s.ports[e.name := LivePort(s.nextPortId, None, None)]
    ensures forall n :: !Claims(w, e, n)
  {}

  /** A new port's readers are all at home iff its name was free of readers and slots. */
  lemma CreateOwned(f: Fleet, e: Event)
    requires Owned(f) && Creates(f.world, e) && f.world.inner.nextPortId < U32_MAX
    ensures Owned(Next(f, Core(e))) <==> !Reuses(f, Core(e))
  {
    var f', id := Next(f, Core(e)), f.world.inner.nextPortId;
    CreateStep(f.world, e);
    assert f'.owners == f.owners;
    var r' := Reader(e.name, id, None);
    assert r' in f'.readers;
    if e.name in f.world.inner.passts {
      assert !Home(f', r');
    } else if r :| r in f.readers && r.name == e.name {
      assert Home(f, r) && r in f'.readers && !Home(f', r);
    } else {
      forall r | r in f'.readers ensures Home(f', r) {
        if r != r' { assert Home(f, r); }
      }
    }
  }

  lemma Adopts(f: Fleet, r: Reader, r': Reader)
    requires Owned(f) && r in f.readers && r' == r.(adopted := r'.adopted)
    requires r'.adopted.Some? ==> r'.adopted.value == r.channel
    ensures Owned(f.(readers := Swap(f.readers, r, r')))
  {
    var f' := f.(readers := Swap(f.readers, r, r'));
    forall x | x in f'.readers ensures Home(f', x) {
      if x == r' { assert Home(f, r); } else { assert Home(f, x); }
    }
  }

  lemma LearnedOwned(f: Fleet, r: Reader, frame: Bytes)
    requires Owned(f)
    ensures Owned(f.(world := Learned(f.world, r, frame)))
  {
    var f' := f.(world := Learned(f.world, r, frame));
    forall x | x in f'.readers ensures Home(f', x) { assert Home(f, x); }
  }

  lemma FewerOwned(f: Fleet, r: Reader)
    requires Owned(f)
    ensures Owned(f.(readers := f.readers - {r}))
  {
    var f' := f.(readers := f.readers - {r});
    forall x | x in f'.readers ensures Home(f', x) { assert Home(f, x); }
  }

  /** What the readers themselves do never takes one from home. */
  lemma ReaderOwned(f: Fleet, a: Act)
    requires Owned(f) && !a.Core?
    ensures Owned(Next(f, a))
  {
    if a.reader in f.readers {
      var r := a.reader;
      assert Home(f, r);
      FewerOwned(f, r);
      Adopts(f, r, r.(adopted := None));
      if r.name in f.owners { Adopts(f, r, r.(adopted := Some(f.owners[r.name]))); }
      if a.Read? {
        LearnedOwned(f, r, a.frame);
        Adopts(f.(world := Learned(f.world, r, a.frame)), r, r.(adopted := None));
      }
    }
  }

  /**
    Exactly one thing breaks the readers' order: creating a port under a name that still has a
    reader, not yet retired, or a slot, left by a failed save.
   */
  lemma StepOwned(f: Fleet, a: Act)
    requires WiredWorld(f.world) && Owned(f) && (a.Core? ==> Allowed(f.world, a.event))
    ensures Owned(Next(f, a)) <==> !Reuses(f, a)
  {
    if !a.Core? {
      ReaderOwned(f, a);
    } else if IsStart(a.event) {
      assert Owned(Next(f, a));
    } else if Creates(f.world, a.event) {
      CreateOwned(f, a.event);
    } else {
      QuietOwned(f, a.event);
    }
  }

  const FIRST: Fleet := Fleet(GENESIS, {}, map[])

  function After(acts: seq<Act>): Fleet
  {
    if acts == [] then FIRST else Next(After(acts[..|acts| - 1]), acts[|acts| - 1])
  }

  /** Every event is one the environment can produce, and no port is created under a name still in use behind it. */
  predicate NamesFreed(acts: seq<Act>)
  {
    acts == [] ||
    var f, a := After(acts[..|acts| - 1]), acts[|acts| - 1];
    NamesFreed(acts[..|acts| - 1]) && (a.Core? ==> Allowed(f.world, a.event)) && !Reuses(f, a)
  }

  lemma {:induction false} RunOwned(acts: seq<Act>)
    requires NamesFreed(acts)
    ensures WiredWorld(After(acts).world) && Owned(After(acts))
  {
    if acts != [] {
      var f, a := After(acts[..|acts| - 1]), acts[|acts| - 1];
      RunOwned(acts[..|acts| - 1]);
      StepOwned(f, a);
      if a.Core? {
        StepWired(f.world, a.event);
      } else if a.Read? {
        LearnedWired(f.world, a.reader, a.frame);
      }
    }
  }

  lemma LearnedWired(w: World, r: Reader, frame: Bytes)
    requires WiredWorld(w)
    ensures WiredWorld(Learned(w, r, frame))
  {
    if |frame| >= 12 { StepWired(w, Uplink(r.name, MacAt(frame, 6))); }
  }

  /**
    Ingress: in every run that frees a name of readers and slots before it is used again, a
    frame read from a port's passt is injected into that very port's channel.
   */
  lemma FramesArriveHome(acts: seq<Act>, a: Act, x: Arrival)
    requires NamesFreed(acts) && x in Arrivals(After(acts), a)
    ensures x.source == x.channel
  {
    RunOwned(acts);
    assert Home(After(acts), a.reader);
  }

  /** The slot's learned MAC is bytes 6 to 11 of the frame. */
  predicate NotesSource(slot: Passt.Slot, frame: Bytes)
    requires |frame| >= 12
  {
    slot.mac.Some? && slot.mac.value.Octets() == frame[6..12]
  }

  /**
    What one frame from passt does: unless its length is 6 to 11, which kills the thread, it is
    injected unchanged while the channel is open; and if it has a source MAC, the slot of the
    reader's name notes that MAC and nothing else in the daemon changes.
   */
  lemma ReadMeans(f: Fleet, r: Reader, frame: Bytes, closed: bool)
    requires r in f.readers && r.adopted.Some?
    ensures var f', s := Next(f, Read(r, frame, closed)), f.world.inner;
      if 6 <= |frame| < 12 then
        && f' == f.(readers := f.readers - {r}) && Arrivals(f, Read(r, frame, closed)) == {}
      else
        && Arrivals(f, Read(r, frame, closed))
           == (if closed then {} else {Arrival(r.adopted.value, r.channel, frame)})
        && f'.owners == f.owners
        && f'.readers == (if closed then f.readers - {r} + {r.(adopted := None)} else f.readers)
        && (if |frame| < 12 || f.world.poisoned || r.name !in s.passts then f'.world == f.world
            else
              && f'.world == f.world.(inner := s.(passts := f'.world.inner.passts))
              && f'.world.inner.passts
                 == s.passts[r.name := s.passts[r.name].(mac := f'.world.inner.passts[r.name].mac)]
              && NotesSource(f'.world.inner.passts[r.name], frame))
  {}

  /**
    What a look does: a reader with no stream adopts the running passt of its name if the stream
    can be cloned, retires if there is none and no port of that name, and else waits.
   */
  lemma LookMeans(f: Fleet, r: Reader, cloned: bool)
    requires Owned(f) && r in f.readers && r.adopted.None? && !f.world.poisoned
    ensures var f', s := Next(f, Look(r, cloned)), f.world.inner;
      if r.name in s.passts && s.passts[r.name].live then
        f' == if cloned then f.(readers := f.readers - {r} + {r.(adopted := Some(r.channel))}) else f
      else f' == if r.name in s.ports then f else f.(readers := f.readers - {r})
  {
    assert Home(f, r);
  }

  /** When its stream ends the reader lives on, with nothing adopted, and may look again. */
  lemma EndsMeans(f: Fleet, r: Reader)
    requires r in f.readers
    ensures Next(f, Ends(r)) == f.(readers := f.readers - {r} + {Reader(r.name, r.channel, None)})
  {}
}
