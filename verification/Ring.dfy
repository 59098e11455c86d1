/**
  The RX vring service (k8netd-vhost port.rs): frames for the guest are placed in posted
  buffers, with rewind when the channel runs dry and recovery after a frontend reconnect.

  The queue itself is foreign code; it is given only the operations the service uses:
  reading the posted index, yielding the next chain, stepping back one, setting the next
  index, and completing a chain. Indexes are 16-bit and wrap.
 */
module Ring {
  import opened Arith
  import opened Base

  const VNET_HDR_LEN: nat := 12
  const INDEX_MODULUS: nat := 0x1_0000

  /** A posted descriptor chain: whether the device may write it and how much it holds. */
  datatype Chain = Chain(head: u16, writable: bool, capacity: nat)

  datatype Fill = Skipped | Delivered(frame: Bytes) | Dropped(frame: Bytes)

  /** A chain handed back to the guest, with what became of it. */
  datatype Used = Used(chain: Chain, fill: Fill)

  datatype Vring = Vring(
    size: nat, slots: seq<Chain>,
    avail: u16, nextAvail: u16, nextUsed: u16,
    channel: seq<Bytes>, used: seq<Used>)

  /** Ring sizes are powers of two, so they divide the index modulus. */
  predicate Shaped(v: Vring)
  {
    0 < v.size <= 0x8000 && INDEX_MODULUS % v.size == 0 && |v.slots| == v.size
  }

  function Sub16(a: u16, b: u16): u16
  {
    if a >= b then a - b else a - b + INDEX_MODULUS
  }

  function Add16(a: u16, n: nat): u16
  {
    (a + n) % INDEX_MODULUS
  }

  /** The guest posts a chain; a conforming driver never has more than `size` outstanding. */
  function Post(v: Vring, c: Chain): Vring
    requires Shaped(v)
  {
    if Sub16(v.avail, v.nextUsed) >= v.size then v
    else v.(slots := v.slots[v.avail % v.size := c], avail := Add16(v.avail, 1))
  }

  function Inject(v: Vring, frame: Bytes): Vring
  {
    v.(channel := v.channel + [frame])
  }

  /** A queue whose next index has caught up with the posted one while completions lag is rewound. */
  function Recover(v: Vring): Vring
  {
    var newer := Sub16(v.avail, v.nextAvail);
    var pending := Sub16(v.avail, v.nextUsed);
    if newer == 0 && pending != 0 && pending <= v.size then v.(nextAvail := v.nextUsed) else v
  }

  function Place(c: Chain, frame: Bytes): Used
  {
    Used(c, if |frame| + VNET_HDR_LEN <= c.capacity then Delivered(frame) else Dropped(frame))
  }

  lemma YieldsOne(avail: u16, next: u16)
    requires next != avail
    ensures Sub16(avail, Add16(next, 1)) == Sub16(avail, next) - 1
    ensures Sub16(Add16(next, 1), 1) == next
  {}

  /** The service loop: yield, fill or skip, and step back when there is nothing to deliver. */
  function Scan(v: Vring): (Vring, seq<Used>)
    requires Shaped(v)
    decreases Sub16(v.avail, v.nextAvail)
  {
    if v.nextAvail == v.avail then (v, [])
    else
      YieldsOne(v.avail, v.nextAvail);
      var c := v.slots[v.nextAvail % v.size];
      var next := v.(nextAvail := Add16(v.nextAvail, 1));
      if !c.writable then
        var (s, us) := Scan(next);
        (s, [Used(c, Skipped)] + us)
      else if v.channel == [] then (v, [])
      else
        var (s, us) := Scan(next.(channel := v.channel[1..]));
        (s, [Place(c, v.channel[0])] + us)
  }

  function Service(v: Vring): Vring
    requires Shaped(v)
  {
    var r := Recover(v);
    if Sub16(r.avail, r.nextAvail) > r.size then r
    else
      var (s, us) := Scan(r);
      s.(used := s.used + us, nextUsed := Add16(s.nextUsed, |us|))
  }

  // ---- the specification: serving a list of chains from a list of frames -----------------------

  function Serve(chains: seq<Chain>, frames: seq<Bytes>): (seq<Used>, seq<Bytes>)
  {
    if chains == [] then ([], frames)
    else if !chains[0].writable then
      var (us, rest) := Serve(chains[1..], frames);
      ([Used(chains[0], Skipped)] + us, rest)
    else if frames == [] then ([], frames)
    else
      var (us, rest) := Serve(chains[1..], frames[1..]);
      ([Place(chains[0], frames[0])] + us, rest)
  }

  function ChainsOf(us: seq<Used>): seq<Chain>
  {
    if us == [] then [] else [us[0].chain] + ChainsOf(us[1..])
  }

  /** The frames taken off the channel, in order, delivered or dropped. */
  function Consumed(us: seq<Used>): seq<Bytes>
  {
    if us == [] then []
    else (if us[0].fill.Skipped? then [] else [us[0].fill.frame]) + Consumed(us[1..])
  }

  /** Read-only chains are skipped; a frame is dropped only when it and its header exceed the chain. */
  predicate Honest(u: Used)
  {
    match u.fill
    case Skipped => !u.chain.writable
    case Delivered(f) => u.chain.writable && |f| + VNET_HDR_LEN <= u.chain.capacity
    case Dropped(f) => u.chain.writable && |f| + VNET_HDR_LEN > u.chain.capacity
  }

  /** Serving completes chains in order from the front, loses no frame, and stops only for want of chains or frames. */
  lemma {:induction false} ServeMeans(chains: seq<Chain>, frames: seq<Bytes>)
    ensures var (us, rest) := Serve(chains, frames);
      && |us| <= |chains| && ChainsOf(us) == chains[..|us|]
      && Consumed(us) + rest == frames
      && (forall u :: u in us ==> Honest(u))
      && (|us| < |chains| ==> chains[|us|].writable && rest == [])
  {
    if chains == [] {
    } else if !chains[0].writable {
      ServeMeans(chains[1..], frames);
      ServeCons(chains, Used(chains[0], Skipped), Serve(chains[1..], frames).0);
    } else if frames != [] {
      ServeMeans(chains[1..], frames[1..]);
      ServeCons(chains, Place(chains[0], frames[0]), Serve(chains[1..], frames[1..]).0);
      assert frames == [frames[0]] + frames[1..];
    }
  }

  lemma ServeCons(chains: seq<Chain>, u: Used, us: seq<Used>)
    requires chains != [] && u.chain == chains[0] && |us| < |chains| && ChainsOf(us) == chains[1..][..|us|]
    ensures ChainsOf([u] + us) == chains[..|us| + 1]
    ensures Consumed([u] + us) == (if u.fill.Skipped? then [] else [u.fill.frame]) + Consumed(us)
    ensures forall x :: x in [u] + us ==> x == u || x in us
  {
    assert ([u] + us)[1..] == us;
    assert chains[..|us| + 1] == [chains[0]] + chains[1..][..|us|];
  }

  // ---- absolute positions behind the wrapping indexes -------------------------------------------

  /**
    `posted` is every chain the guest ever posted; `a` and `u` are the absolute positions
    behind next_avail and next_used. Everything from `u` on is still in its ring slot.
   */
  ghost predicate Tracks(v: Vring, posted: seq<Chain>, a: nat, u: nat)
  {
    && Shaped(v)
    && u <= a <= |posted| <= u + v.size
    && v.avail == |posted| % INDEX_MODULUS
    && v.nextAvail == a % INDEX_MODULUS
    && v.nextUsed == u % INDEX_MODULUS
    && (forall i :: u <= i < |posted| ==> v.slots[i % v.size] == posted[i])
  }

  /** Wrapped distance is real distance while it is below the modulus. */
  lemma Distance(hi: nat, lo: nat)
    requires lo <= hi < lo + INDEX_MODULUS
    ensures Sub16(hi % INDEX_MODULUS, lo % INDEX_MODULUS) == hi - lo
  {
    var m := INDEX_MODULUS;
    var x, y := hi % m, lo % m;
    assert hi == m * (hi / m) + x && lo == m * (lo / m) + y;
    assert x - y == (hi - lo) - m * (hi / m - lo / m);
  }

  lemma SlotIndex(i: nat, size: nat)
    requires size > 0 && INDEX_MODULUS % size == 0
    ensures (i % INDEX_MODULUS) % size == i % size
  {
    var k, q := INDEX_MODULUS / size, i / INDEX_MODULUS;
    assert INDEX_MODULUS == size * k;
    var r := i % INDEX_MODULUS;
    assert i == r + size * (k * q) by {
      assert INDEX_MODULUS * q == size * k * q == size * (k * q);
    }
    ModAddMultiple(r, size, k * q);
  }

  lemma AddIndex(i: nat, n: nat)
    ensures Add16(i % INDEX_MODULUS, n) == (i + n) % INDEX_MODULUS
  {
    var m := INDEX_MODULUS;
    assert i + n == (i % m + n) + m * (i / m);
    ModAddMultiple(i % m + n, m, i / m);
  }

  /** The loop serves the chains from position `a` on. */
  lemma {:induction false} ScanServes(v: Vring, posted: seq<Chain>, a: nat, u: nat)
    requires Tracks(v, posted, a, u)
    ensures var (us, rest) := Serve(posted[a..], v.channel);
      && a + |us| <= |posted|
      && Scan(v) == (v.(nextAvail := (a + |us|) % INDEX_MODULUS, channel := rest), us)
    decreases |posted| - a
  {
    Distance(|posted|, a);
    if a < |posted| {
      var c := posted[a];
      var next := v.(nextAvail := Add16(v.nextAvail, 1));
      Yields(v, posted, a, u, v.channel);
      assert posted[a..][1..] == posted[a + 1..];
      if !c.writable {
        ScanServes(next, posted, a + 1, u);
      } else if v.channel != [] {
        Yields(v, posted, a, u, v.channel[1..]);
        ScanServes(next.(channel := v.channel[1..]), posted, a + 1, u);
      }
    }
  }

  /** Yielding takes the chain at position `a` from its slot and moves on by one. */
  lemma Yields(v: Vring, posted: seq<Chain>, a: nat, u: nat, channel: seq<Bytes>)
    requires Tracks(v, posted, a, u) && a < |posted|
    ensures v.nextAvail != v.avail && v.slots[v.nextAvail % v.size] == posted[a]
    ensures Tracks(v.(nextAvail := Add16(v.nextAvail, 1), channel := channel), posted, a + 1, u)
  {
    Distance(|posted|, a);
    SlotIndex(a, v.size);
    AddIndex(a, 1);
  }

  /** Completing `n` served chains moves both positions to the same place. */
  lemma Completed(v: Vring, posted: seq<Chain>, u: nat, us: seq<Used>, rest: seq<Bytes>)
    requires Tracks(v, posted, u, u) && u + |us| <= |posted|
    ensures Tracks(v.(nextAvail := (u + |us|) % INDEX_MODULUS, channel := rest, used := v.used + us,
                      nextUsed := Add16(v.nextUsed, |us|)), posted, u + |us|, u + |us|)
  {
    AddIndex(u, |us|);
  }

  /**
    One call, whether the session is steady (`a == u`) or has just reconnected with every
    posted chain in flight (`a == |posted|`): it serves the chains from `u` on, in order, and
    leaves next_avail equal to next_used.
   */
  lemma ServiceServes(v: Vring, posted: seq<Chain>, a: nat, u: nat)
    requires Tracks(v, posted, a, u) && (a == u || a == |posted|)
    ensures var (us, rest) := Serve(posted[u..], v.channel);
      && u + |us| <= |posted|
      && Tracks(Service(v), posted, u + |us|, u + |us|)
      && Service(v).nextAvail == Service(v).nextUsed
      && Service(v).used == v.used + us && Service(v).channel == rest
  {
    Distance(|posted|, a);
    Distance(|posted|, u);
    var r := Recover(v);
    assert r == v.(nextAvail := v.nextUsed);
    ScanServes(r, posted, u, u);
    var (us, rest) := Serve(posted[u..], v.channel);
    Completed(r, posted, u, us, rest);
  }

  /** In a steady session the recovery never fires. */
  lemma SteadyNeverRecovers(v: Vring, posted: seq<Chain>, u: nat)
    requires Tracks(v, posted, u, u)
    ensures Recover(v) == v
  {
    Distance(|posted|, u);
  }

  /** With chains in flight and newer ones posted, the in-flight ones are passed over. */
  lemma ServiceSkipsInFlight(v: Vring, posted: seq<Chain>, a: nat, u: nat)
    requires Tracks(v, posted, a, u) && u < a < |posted|
    ensures Service(v).used == v.used + Serve(posted[a..], v.channel).0
  {
    Distance(|posted|, a);
    ScanServes(v, posted, a, u);
  }

  lemma {:induction false} ServeAll(chains: seq<Chain>, frames: seq<Bytes>)
    requires |frames| >= |chains|
    ensures |Serve(chains, frames).0| == |chains|
  {
    if chains != [] {
      if chains[0].writable { ServeAll(chains[1..], frames[1..]); } else { ServeAll(chains[1..], frames); }
    }
  }

  function Blanks(n: nat): (s: seq<Bytes>)
    ensures |s| == n
  {
    if n == 0 then [] else Blanks(n - 1) + [[]]
  }

  /**
    The in-flight chains are the next ones served, whatever is on the channel, iff the queue is
    steady or fully caught up.
   */
  lemma RecoveryIsExact(v: Vring, posted: seq<Chain>, a: nat, u: nat)
    requires Tracks(v, posted, a, u)
    ensures a == u || a == |posted| <==>
      forall frames :: Service(v.(channel := frames)).used == v.used + Serve(posted[u..], frames).0
  {
    if a == u || a == |posted| {
      forall frames ensures Service(v.(channel := frames)).used == v.used + Serve(posted[u..], frames).0 {
        ServiceServes(v.(channel := frames), posted, a, u);
      }
    } else {
      var frames := Blanks(|posted| - u);
      ServiceSkipsInFlight(v.(channel := frames), posted, a, u);
      ServeMeans(posted[a..], frames);
      ServeAll(posted[u..], frames);
    }
  }

  // ---- runs ---------------------------------------------------------------------------------------

  datatype Op = PostChain(chain: Chain) | InjectFrame(frame: Bytes) | ServiceCall

  function Step(v: Vring, op: Op): (v': Vring)
    requires Shaped(v)
  {
    match op
    case PostChain(c) => Post(v, c)
    case InjectFrame(f) => Inject(v, f)
    case ServiceCall => Service(v)
  }

  /** What the guest has posted after an operation, counting only posts the ring had room for. */
  function Posted(v: Vring, posted: seq<Chain>, op: Op): seq<Chain>
  {
    if op.PostChain? && Sub16(v.avail, v.nextUsed) < v.size then posted + [op.chain] else posted
  }

  function Injected(op: Op): seq<Bytes>
  {
    if op.InjectFrame? then [op.frame] else []
  }

  /** Everything completed and queued accounts for the chains from `base` on and for the frames `all`. */
  ghost predicate Accounted(v: Vring, posted: seq<Chain>, base: nat, u: nat, all: seq<Bytes>)
  {
    && Tracks(v, posted, u, u) && base <= u
    && ChainsOf(v.used) == posted[base..u]
    && Consumed(v.used) + v.channel == all
    && (forall x :: x in v.used ==> Honest(x))
  }

  /** Service stopped only because every posted chain is completed, or the next one needs a frame and none is queued. */
  predicate Drained(v: Vring, posted: seq<Chain>, u: nat)
  {
    u == |posted| || (u < |posted| && posted[u].writable && v.channel == [])
  }

  lemma PostTracks(v: Vring, posted: seq<Chain>, u: nat, c: Chain)
    requires Tracks(v, posted, u, u) && |posted| < u + v.size
    ensures Tracks(v.(slots := v.slots[v.avail % v.size := c], avail := Add16(v.avail, 1)), posted + [c], u, u)
  {
    AddIndex(|posted|, 1);
    SlotIndex(|posted|, v.size);
    forall i | u <= i < |posted| ensures i % v.size != |posted| % v.size {
      DistinctSlots(i, |posted|, v.size);
    }
  }

  lemma DistinctSlots(i: nat, j: nat, size: nat)
    requires i < j < i + size
    ensures i % size != j % size
  {
    var q, r := i / size, i % size;
    assert i == size * q + r;
    if r + (j - i) < size {
      ModUnique(j, size, q, r + (j - i));
    } else {
      assert size * (q + 1) == size * q + size;
      ModUnique(j, size, q + 1, r + (j - i) - size);
    }
  }

  lemma {:induction false} ChainsConcat(a: seq<Used>, b: seq<Used>)
    ensures ChainsOf(a + b) == ChainsOf(a) + ChainsOf(b)
    ensures Consumed(a + b) == Consumed(a) + Consumed(b)
  {
    if a == [] {
      assert a + b == b;
    } else {
      var own := if a[0].fill.Skipped? then [] else [a[0].fill.frame];
      assert (a + b)[1..] == a[1..] + b;
      ChainsConcat(a[1..], b);
      Associative([a[0].chain], ChainsOf(a[1..]), ChainsOf(b));
      Associative(own, Consumed(a[1..]), Consumed(b));
    }
  }

  /** Appending served chains to the log keeps the account. */
  lemma LogAppended(log: seq<Used>, us: seq<Used>, posted: seq<Chain>, base: nat, u: nat,
                    channel: seq<Bytes>, rest: seq<Bytes>)
    requires base <= u && u + |us| <= |posted|
    requires ChainsOf(log) == posted[base..u] && ChainsOf(us) == posted[u..][..|us|]
    requires Consumed(us) + rest == channel
    ensures ChainsOf(log + us) == posted[base..u + |us|]
    ensures Consumed(log + us) + rest == Consumed(log) + channel
  {
    ChainsConcat(log, us);
    assert posted[base..u] + posted[u..][..|us|] == posted[base..u + |us|];
    Associative(Consumed(log), Consumed(us), rest);
    assert Consumed(log) + (Consumed(us) + rest) == Consumed(log) + channel;
  }

  lemma ServiceAccounted(v: Vring, posted: seq<Chain>, base: nat, u: nat, all: seq<Bytes>) returns (u': nat)
    requires Accounted(v, posted, base, u, all)
    ensures u <= u' && Accounted(Service(v), posted, base, u', all) && Drained(Service(v), posted, u')
  {
    ServiceServes(v, posted, u, u);
    ServeMeans(posted[u..], v.channel);
    var (us, rest) := Serve(posted[u..], v.channel);
    LogAppended(v.used, us, posted, base, u, v.channel, rest);
    u' := u + |us|;
  }

  lemma StepAccounted(v: Vring, posted: seq<Chain>, base: nat, u: nat, all: seq<Bytes>, op: Op) returns (u': nat)
    requires Accounted(v, posted, base, u, all)
    ensures u <= u' && Accounted(Step(v, op), Posted(v, posted, op), base, u', all + Injected(op))
    ensures op.ServiceCall? ==> Drained(Step(v, op), posted, u')
  {
    u' := u;
    match op {
      case PostChain(c) =>
        Distance(|posted|, u);
        if |posted| < u + v.size {
          PostTracks(v, posted, u, c);
          assert (posted + [c])[base..u] == posted[base..u];
        }
        assert all + [] == all;
      case InjectFrame(f) =>
        Associative(Consumed(v.used), v.channel, [f]);
      case ServiceCall =>
        u' := ServiceAccounted(v, posted, base, u, all);
        assert all + [] == all;
    }
  }

  function Run(v: Vring, ops: seq<Op>): (r: Vring)
    requires Shaped(v)
    ensures Shaped(r) && r.size == v.size
    decreases |ops|
  {
    if ops == [] then v
    else
      StepShaped(v, ops[0]);
      Run(Step(v, ops[0]), ops[1..])
  }

  lemma StepShaped(v: Vring, op: Op)
    requires Shaped(v)
    ensures Shaped(Step(v, op)) && Step(v, op).size == v.size
  {
    ScanShaped(Recover(v));
  }

  lemma {:induction false} ScanShaped(v: Vring)
    requires Shaped(v)
    ensures Scan(v).0.size == v.size && Scan(v).0.slots == v.slots
    decreases Sub16(v.avail, v.nextAvail)
  {
    if v.nextAvail != v.avail {
      var c := v.slots[v.nextAvail % v.size];
      var next := v.(nextAvail := Add16(v.nextAvail, 1));
      if !c.writable { ScanShaped(next); }
      else if v.channel != [] { ScanShaped(next.(channel := v.channel[1..])); }
    }
  }

  function AllPosted(v: Vring, posted: seq<Chain>, ops: seq<Op>): seq<Chain>
    requires Shaped(v)
    decreases |ops|
  {
    if ops == [] then posted
    else
      StepShaped(v, ops[0]);
      AllPosted(Step(v, ops[0]), Posted(v, posted, ops[0]), ops[1..])
  }

  function AllInjected(ops: seq<Op>): seq<Bytes>
  {
    if ops == [] then [] else Injected(ops[0]) + AllInjected(ops[1..])
  }

  predicate EndsInCall(ops: seq<Op>)
  {
    ops != [] && ops[|ops| - 1].ServiceCall?
  }

  /**
    Any interleaving of posts, injections and service calls on a steady session: the chains
    completed are the posted ones, each once and in order; the frames consumed, followed by
    those still queued, are the injected ones in order; a frame is dropped only when it does
    not fit its chain; next_avail equals next_used throughout; and a run that ends in a call has
    completed every posted chain, or all up to one that needs a frame when none is queued.
   */
  lemma {:induction false} RunAccounted(v: Vring, posted: seq<Chain>, base: nat, u: nat, all: seq<Bytes>, ops: seq<Op>)
    returns (u': nat)
    requires Accounted(v, posted, base, u, all)
    ensures Accounted(Run(v, ops), AllPosted(v, posted, ops), base, u', all + AllInjected(ops))
    ensures Run(v, ops).nextAvail == Run(v, ops).nextUsed
    ensures u <= u' && (ops == [] ==> u' == u)
    ensures EndsInCall(ops) ==> Drained(Run(v, ops), AllPosted(v, posted, ops), u')
    decreases |ops|
  {
    u' := u;
    if ops == [] {
      assert all + [] == all;
    } else {
      var mid := StepAccounted(v, posted, base, u, all, ops[0]);
      var now := all + Injected(ops[0]);
      u' := RunAccounted(Step(v, ops[0]), Posted(v, posted, ops[0]), base, mid, now, ops[1..]);
      Associative(all, Injected(ops[0]), AllInjected(ops[1..]));
    }
  }

  /**
    Reconnect: if the first call after a reconnect finds next_avail at the posted index with
    up to `size` chains in flight, then over that call and every later interleaving all
    in-flight chains and all newer ones are completed at most once, in order, across any number
    of dry spells and index wraps; and right after the first and every later call none of them
    is left, unless the next one needs a frame and none is queued.
   */
  lemma ReconnectServesInFlight(v: Vring, posted: seq<Chain>, u: nat, ops: seq<Op>) returns (u': nat)
    requires Tracks(v, posted, |posted|, u) && v.used == []
    ensures Shaped(Service(v))
    ensures Accounted(Run(Service(v), ops), AllPosted(Service(v), posted, ops), u, u', v.channel + AllInjected(ops))
    ensures ops == [] || EndsInCall(ops) ==> Drained(Run(Service(v), ops), AllPosted(Service(v), posted, ops), u')
  {
    StepShaped(v, ServiceCall);
    var mid := FirstService(v, posted, u);
    u' := RunAccounted(Service(v), posted, u, mid, v.channel, ops);
  }

  lemma FirstService(v: Vring, posted: seq<Chain>, u: nat) returns (u': nat)
    requires Tracks(v, posted, |posted|, u) && v.used == []
    ensures Accounted(Service(v), posted, u, u', v.channel) && Drained(Service(v), posted, u')
  {
    ServiceServes(v, posted, |posted|, u);
    ServeMeans(posted[u..], v.channel);
    var (us, rest) := Serve(posted[u..], v.channel);
    LogAppended([], us, posted, u, u, v.channel, rest);
    u' := u + |us|;
  }

  // ---- the queue object ---------------------------------------------------------------------------

  class RxQueue {
    const size: nat
    var slots: seq<Chain>
    var avail: u16
    var nextAvail: u16
    var nextUsed: u16
    var channel: seq<Bytes>
    var used: seq<Used>

    function View(): Vring
      reads this
    {
      Vring(size, slots, avail, nextAvail, nextUsed, channel, used)
    }

    constructor (v: Vring)
      ensures View() == v
    {
      size, slots, avail, nextAvail, nextUsed, channel, used :=
        v.size, v.slots, v.avail, v.nextAvail, v.nextUsed, v.channel, v.used;
    }

    /** Marks the chains used, one by one, on the used ring. */
    method Complete(done: seq<Used>)
      modifies this`used, this`nextUsed
      ensures used == old(used) + done && nextUsed == Add16(old(nextUsed), |done|)
    {
      for i := 0 to |done|
        invariant used == old(used) + done[..i]
        invariant nextUsed == Add16(old(nextUsed), i)
      {
        used := used + [done[i]];
        assert done[..i] + [done[i]] == done[..i + 1];
        nextUsed := Add16(nextUsed, 1);
      }
      assert done[..|done|] == done;
    }

    /** Walks the available chains, filling them from the channel; returns those to complete. */
    method Walk() returns (done: seq<Used>)
      requires Shaped(View())
      modifies this`nextAvail, this`channel
      ensures (View(), done) == Scan(old(View()))
    {
      done := [];
      assert done + Scan(View()).1 == Scan(View()).1;
      while nextAvail != avail
        invariant Scan(old(View())) == (Scan(View()).0, done + Scan(View()).1)
        decreases Sub16(avail, nextAvail)
      {
        YieldsOne(avail, nextAvail);
        ghost var rest := Scan(View()).1;
        var c := slots[nextAvail % size];
        nextAvail := Add16(nextAvail, 1);
        var entry: Used;
        if !c.writable {
          entry := Used(c, Skipped);
        } else if channel == [] {
          nextAvail := Sub16(nextAvail, 1);
          break;
        } else {
          entry := Place(c, channel[0]);
          channel := channel[1..];
        }
        assert rest == [entry] + Scan(View()).1;
        Associative(done, [entry], Scan(View()).1);
        done := done + [entry];
      }
      assert Scan(View()) == (View(), []);
      assert done + [] == done;
    }

    method Serve()
      requires Shaped(View())
      modifies this
      ensures View() == Service(old(View()))
    {
      var newer := Sub16(avail, nextAvail);
      var pending := Sub16(avail, nextUsed);
      if newer == 0 && pending != 0 && pending <= size {
        nextAvail := nextUsed;
      }
      if Sub16(avail, nextAvail) > size {
        return;
      }
      var done := Walk();
      Complete(done);
    }
  }
}
