/** Learned MACs over whole runs of the daemon: who taught them, and where unicast frames go. */
module Delivery {
  import opened Base
  import opened Daemon
  import opened Isolation
  import opened Wiring
  import Fabric
  import Frames
  import Lru

  // ---- what the switch has heard ------------------------------------------------------------------------

  /** What the event teaches the switch: the source of a frame that gets as far as the switch. */
  function HeardIn(w: World, e: Event): seq<Lru.Binding>
  {
    if e.Frame? && !w.poisoned && Unclaimed(w.inner, e.name, e.me, e.frame, e.env)
    then Fabric.HeardFrom(w.inner.switch, Fabric.Frame(e.me, e.frame)) else []
  }

  /** Everything heard since the daemon last started, oldest first. */
  function Heard(events: seq<Event>): seq<Lru.Binding>
  {
    if events == [] || IsStart(events[|events| - 1]) then []
    else
      var init := events[..|events| - 1];
      Heard(init) + HeardIn(Run(GENESIS, init), events[|events| - 1])
  }

  lemma RpcsDoNotLearn(s: Inner, e: Event)
    requires IsRpc(e)
    ensures Call(s, e).inner.switch.recent == s.switch.recent
  {
    match e {
      case RpcCreateNetwork(_, _) =>
      case RpcDeleteNetwork(_, _) =>
      case RpcCreatePort(_, _, _) =>
      case RpcDeletePort(name, save) => DeleteDoesNotLearn(s, name, save.Saved?);
      case RpcAttachPort(name, network, mac, spawned, now, save) =>
        AttachDoesNotLearn(s, name, network, mac, spawned, now, save.Saved?);
      case RpcDetachPort(name, save) => DetachDoesNotLearn(s, name, save.Saved?);
      case RpcAllocateIp(_, _) =>
      case RpcReleaseIp(_, _, _) =>
      case RpcPublishPort(name, vm, save, spawned, now) =>
        PublishDoesNotLearn(s, name, vm, save.Saved?, spawned, now);
      case RpcUnpublishPort(name, vm, save, spawned, now) =>
        UnpublishDoesNotLearn(s, name, vm, save.Saved?, spawned, now);
    }
  }

  lemma DeleteDoesNotLearn(s: Inner, name: string, saved: bool)
    ensures DeletePort(s, name, saved).inner.switch.recent == s.switch.recent
  {}

  lemma AttachDoesNotLearn(s: Inner, name: string, network: string, mac: Mac, spawned: bool, now: nat, saved: bool)
    ensures AttachPort(s, name, network, mac, spawned, now, saved).inner.switch.recent == s.switch.recent
  {}

  lemma DetachDoesNotLearn(s: Inner, name: string, saved: bool)
    ensures DetachPort(s, name, saved).inner.switch.recent == s.switch.recent
  {}

  lemma PublishDoesNotLearn(s: Inner, name: string, vm: u16, saved: bool, spawned: bool, now: nat)
    ensures PublishPort(s, name, vm, saved, spawned, now).inner.switch == s.switch
  {}

  lemma UnpublishDoesNotLearn(s: Inner, name: string, vm: u16, saved: bool, spawned: bool, now: nat)
    ensures UnpublishPort(s, name, vm, saved, spawned, now).inner.switch == s.switch
  {}

  /** A step that is no start changes the table only by what it hears. */
  lemma StepLearns(w: World, e: Event, heard: seq<Lru.Binding>)
    requires !IsStart(e) && w.inner.switch.recent == Lru.Learned(heard, Fabric.MAC_TABLE_CAPACITY)
    ensures Step(w, e).inner.switch.recent == Lru.Learned(heard + HeardIn(w, e), Fabric.MAC_TABLE_CAPACITY)
  {
    if HeardIn(w, e) == [] { assert heard + [] == heard; }
    if w.poisoned {
    } else if e.Frame? {
      SwitchedIffUnclaimed(w.inner, e.name, e.me, e.frame, e.env);
      Fabric.FrameIsLearned(w.inner.switch, heard, Fabric.Frame(e.me, e.frame));
    } else if IsRpc(e) {
      RpcsDoNotLearn(w.inner, e);
    }
  }

  /** In every reachable state the MAC table is what the frames heard since the last start taught it. */
  lemma {:induction false} TableIsHistory(events: seq<Event>)
    ensures Run(GENESIS, events).inner.switch.recent == Lru.Learned(Heard(events), Fabric.MAC_TABLE_CAPACITY)
  {
    if events != [] && !IsStart(events[|events| - 1]) {
      var init := events[..|events| - 1];
      TableIsHistory(init);
      StepLearns(Run(GENESIS, init), events[|events| - 1], Heard(init));
    }
  }

  // ---- who taught a binding -----------------------------------------------------------------------------

  /** The run has no restart or power loss from `k` on. */
  predicate NoStartFrom(events: seq<Event>, k: nat)
  {
    forall i :: k <= i < |events| ==> !IsStart(events[i])
  }

  /** Event `i` of the run is a frame that taught the switch `b`. */
  predicate TaughtAt(events: seq<Event>, i: nat, b: Lru.Binding)
    requires i < |events|
  {
    b in HeardIn(Run(GENESIS, events[..i]), events[i])
  }

  lemma NewBindingIsHeard(w: World, e: Event, b: Lru.Binding)
    requires b in Step(w, e).inner.switch.recent && b !in w.inner.switch.recent
    ensures b in HeardIn(w, e)
  {
    if e.Frame? {
      SwitchedIffUnclaimed(w.inner, e.name, e.me, e.frame, e.env);
      TouchAdds(w.inner.switch.recent, Fabric.MAC_TABLE_CAPACITY, e.me, Frames.Parse(e.frame).value.src, b);
    } else if IsRpc(e) && !w.poisoned {
      RpcsDoNotLearn(w.inner, e);
    }
  }

  /** A binding that was not there after `k` events was taught by one of the later ones. */
  lemma {:induction false} TaughtSince(events: seq<Event>, k: nat, b: Lru.Binding)
    requires k <= |events| && b !in Run(GENESIS, events[..k]).inner.switch.recent
    requires b in Run(GENESIS, events).inner.switch.recent
    ensures exists i :: k <= i < |events| && TaughtAt(events, i, b)
    decreases |events|
  {
    assert events[..|events|] == events;
    if k < |events| {
      var init := events[..|events| - 1];
      assert init[..k] == events[..k];
      if b in Run(GENESIS, init).inner.switch.recent {
        TaughtSince(init, k, b);
        var i :| k <= i < |init| && TaughtAt(init, i, b);
        assert init[..i] == events[..i];
        assert TaughtAt(events, i, b);
      } else {
        NewBindingIsHeard(Run(GENESIS, init), events[|events| - 1], b);
        assert TaughtAt(events, |events| - 1, b);
      }
    }
  }

  /** The number of events up to and including the last start. */
  function LastStart(events: seq<Event>): (k: nat)
    ensures k <= |events| && NoStartFrom(events, k)
    ensures k > 0 ==> IsStart(events[k - 1])
  {
    if events == [] then 0
    else if IsStart(events[|events| - 1]) then |events|
    else LastStart(events[..|events| - 1])
  }

  /**
    Every learned binding was taught, since the daemon last started, by a frame that entered at
    that very port id with that source and was switched.
   */
  lemma TableIsTaught(events: seq<Event>, b: Lru.Binding)
    requires b in Run(GENESIS, events).inner.switch.recent
    ensures exists i :: LastStart(events) <= i < |events| && TaughtAt(events, i, b)
  {
    StartsEmpty(events[..LastStart(events)]);
    TaughtSince(events, LastStart(events), b);
  }

  lemma StartsEmpty(events: seq<Event>)
    requires events == [] || IsStart(events[|events| - 1])
    ensures Run(GENESIS, events).inner.switch.recent == []
  {}

  /**
    Ids are never reused within one life of the daemon: a binding for an id that had not been
    handed out after `k` events was taught by a later frame, so by the newer port itself.
   */
  lemma NewerPortsTeachThemselves(events: seq<Event>, k: nat, b: Lru.Binding)
    requires AllowedRun(GENESIS, events) && k <= |events|
    requires b.port >= Run(GENESIS, events[..k]).inner.nextPortId
    requires b in Run(GENESIS, events).inner.switch.recent
    ensures exists i :: k <= i < |events| && TaughtAt(events, i, b)
  {
    PrefixAllowed(events, k);
    RunWired(events[..k]);
    TaughtSince(events, k, b);
  }

  lemma {:induction false} PrefixAllowed(events: seq<Event>, k: nat)
    requires AllowedRun(GENESIS, events) && k <= |events|
    ensures AllowedRun(GENESIS, events[..k])
  {
    if k == |events| {
      assert events[..k] == events;
    } else {
      var init := events[..|events| - 1];
      PrefixAllowed(init, k);
      assert init[..k] == events[..k];
    }
  }

  // ---- where unicast frames go --------------------------------------------------------------------------

  /** A frame the switch gets from an attached port on its own pump. */
  predicate FromAttached(w: World, e: Event, n: string)
  {
    && !w.poisoned && e.Frame? && AttachedTo(w.inner, e.name, n) && w.inner.ports[e.name].id == e.me
    && Unclaimed(w.inner, e.name, e.me, e.frame, e.env) && Frames.Parse(e.frame).Some?
  }

  /** A single egress port that is live on the network is one attached port, reached once. */
  lemma OneCopy(s: Inner, q: PortId, me: PortId, frame: Bytes, n: string)
    requires Wired(s) && q in s.switch.ports && s.switch.ports[q] == n && q != me
    ensures q in s.names && s.names[q] in s.ports && s.ports[s.names[q]].id == q
    ensures Copies(s, {q}, me, frame) == {Inject(s.names[q], frame)}
  {
    assert IdWired(s, q);
  }

  /**
    Unicast delivery in any run: with `i` the last time the destination was heard since the
    daemon started (this frame's own source counting), the frame reaches exactly the port it was
    heard on; nobody if that is the sender or has left the switch; every other port attached to
    the network if that port has moved network or 1024 or more other MACs were heard since.
   */
  lemma UnicastDelivered(events: seq<Event>, e: Event, n: string, i: nat)
    requires AllowedRun(GENESIS, events) && FromAttached(Run(GENESIS, events), e, n)
    requires e.frame[0] % 2 == 0
    requires var h := Heard(events) + HeardIn(Run(GENESIS, events), e);
      i < |h| && h[i].mac == Frames.Parse(e.frame).value.dst && h[i].mac !in Lru.NewerMacs(h, i)
    ensures forall q :: q in Run(GENESIS, events).inner.switch.ports ==> q in Run(GENESIS, events).inner.names
    ensures var h := Heard(events) + HeardIn(Run(GENESIS, events), e);
      var s, q := Run(GENESIS, events).inner, h[i].port;
      Outputs(Run(GENESIS, events), e) ==
      if |Lru.NewerMacs(h, i)| >= Fabric.MAC_TABLE_CAPACITY then Segment(s, e.name, n, e.frame)
      else if q == e.me || q !in s.switch.ports then {}
      else if s.switch.ports[q] == n then {Inject(s.names[q], e.frame)}
      else Segment(s, e.name, n, e.frame)
  {
    RunWired(events);
    TableIsHistory(events);
    var w := Run(GENESIS, events);
    var s := w.inner;
    var q := (Heard(events) + HeardIn(w, e))[i].port;
    SwitchedIffUnclaimed(s, e.name, e.me, e.frame, e.env);
    FloodReachesSegment(s, e.name, e.frame, n);
    Fabric.UnicastByHistory(s.switch, Heard(events), e.me, e.frame, i);
    if q in s.switch.ports && q != e.me && s.switch.ports[q] == n { OneCopy(s, q, e.me, e.frame, n); }
  }

  /** A frame to a MAC never heard since the daemon started reaches every other port attached to the network. */
  lemma UnheardReachesSegment(events: seq<Event>, e: Event, n: string)
    requires AllowedRun(GENESIS, events) && FromAttached(Run(GENESIS, events), e, n)
    requires forall b :: b in Heard(events) + HeardIn(Run(GENESIS, events), e) ==>
      b.mac != Frames.Parse(e.frame).value.dst
    ensures Outputs(Run(GENESIS, events), e) == Segment(Run(GENESIS, events).inner, e.name, n, e.frame)
  {
    RunWired(events);
    TableIsHistory(events);
    var s := Run(GENESIS, events).inner;
    SwitchedIffUnclaimed(s, e.name, e.me, e.frame, e.env);
    FloodReachesSegment(s, e.name, e.frame, n);
    Fabric.UnknownByHistory(s.switch, Heard(events), e.me, e.frame);
  }

  lemma {:induction false} FoundIsListed(l: Lru.Recency, mac: Mac, port: PortId)
    requires Lru.Find(l, mac) == Some(port)
    ensures Lru.Binding(mac, port) in l
  {
    if l[0].mac != mac {
      FoundIsListed(l[1..], mac, port);
    }
  }

  /**
    A stale entry never reaches a newer port: if a unicast frame is switched to a port created
    after the first `k` events, then either it went to the whole segment, or that very port sent
    from the destination MAC after those `k` events.
   */
  lemma StaleEntriesMissNewerPorts(events: seq<Event>, e: Event, n: string, k: nat, p: string)
    requires AllowedRun(GENESIS, events) && k <= |events| && FromAttached(Run(GENESIS, events), e, n)
    requires e.frame[0] % 2 == 0 && Inject(p, e.frame) in Outputs(Run(GENESIS, events), e)
    requires p in Run(GENESIS, events).inner.ports
    requires Run(GENESIS, events).inner.ports[p].id >= Run(GENESIS, events[..k]).inner.nextPortId
    ensures var s := Run(GENESIS, events).inner;
      || Outputs(Run(GENESIS, events), e) == Segment(s, e.name, n, e.frame)
      || exists i :: k <= i < |events|
           && TaughtAt(events, i, Lru.Binding(Frames.Parse(e.frame).value.dst, s.ports[p].id))
  {
    RunWired(events);
    var s := Run(GENESIS, events).inner;
    var dst := Frames.Parse(e.frame).value.dst;
    SwitchedIffUnclaimed(s, e.name, e.me, e.frame, e.env);
    FloodReachesSegment(s, e.name, e.frame, n);
    var (learned, egress) := Fabric.Forward(s.switch, e.me, e.frame);
    if egress != Fabric.FloodSet(s.switch.ports, n, e.me) {
      var q := Lru.Find(learned.recent, dst).value;
      OneCopy(s, q, e.me, e.frame, n);
      FoundIsListed(learned.recent, dst, q);
      TouchAdds(s.switch.recent, Fabric.MAC_TABLE_CAPACITY, e.me, Frames.Parse(e.frame).value.src,
                Lru.Binding(dst, q));
      NewerPortsTeachThemselves(events, k, Lru.Binding(dst, q));
    }
  }
}
