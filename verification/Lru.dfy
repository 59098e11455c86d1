/**
  The switch's MAC learning table (switch/mac_table.rs).

  The source stamps entries with a wrapping 64-bit clock and evicts the entry with the
  least stamp. The specification is a plain recency list, newest first; `MacTable`
  is proved to maintain it.
 */
module Lru {
  import opened Base

  datatype Binding = Binding(mac: Mac, port: PortId)

  /** Learned bindings, most recently seen first. */
  type Recency = seq<Binding>

  function Macs(l: Recency): set<Mac>
  {
    if l == [] then {} else {l[0].mac} + Macs(l[1..])
  }

  predicate Distinct(l: Recency)
  {
    l == [] || (l[0].mac !in Macs(l[1..]) && Distinct(l[1..]))
  }

  function Without(l: Recency, mac: Mac): (r: Recency)
    ensures Macs(r) == Macs(l) - {mac}
    ensures |r| <= |l|
  {
    if l == [] then []
    else if l[0].mac == mac then Without(l[1..], mac)
    else [l[0]] + Without(l[1..], mac)
  }

  function Take(l: Recency, n: nat): Recency
  {
    if |l| <= n then l else l[..n]
  }

  function Push(l: Recency, port: PortId, mac: Mac): Recency
  {
    [Binding(mac, port)] + Without(l, mac)
  }

  /** Learning moves a MAC to the front and keeps the `capacity` newest. */
  function Touch(l: Recency, capacity: nat, port: PortId, mac: Mac): Recency
  {
    Take(Push(l, port, mac), capacity)
  }

  function Find(l: Recency, mac: Mac): Option<PortId>
  {
    if l == [] then None else if l[0].mac == mac then Some(l[0].port) else Find(l[1..], mac)
  }

  lemma {:induction false} WithoutDistinct(l: Recency, mac: Mac)
    requires Distinct(l)
    ensures Distinct(Without(l, mac))
  {
    if l != [] {
      WithoutDistinct(l[1..], mac);
    }
  }

  lemma {:induction false} WithoutAbsent(l: Recency, mac: Mac)
    requires mac !in Macs(l)
    ensures Without(l, mac) == l
  {
    if l != [] {
      WithoutAbsent(l[1..], mac);
    }
  }

  // ---- the clocked map -----------------------------------------------------------

  datatype Entry = Entry(port: PortId, lastSeen: nat)

  const CLOCK_MODULUS: nat := 0x1_0000_0000_0000_0000

  /** Every entry but `mac`'s own was stamped before `stamp`. */
  ghost predicate OlderThan(entries: map<Mac, Entry>, mac: Mac, stamp: nat)
  {
    forall m :: m in entries && m != mac ==> entries[m].lastSeen < stamp
  }

  /** `l` lists exactly `entries`, newest stamp first, stamps all different. */
  ghost predicate Represents(entries: map<Mac, Entry>, l: Recency)
    decreases |l|
  {
    if l == [] then entries == map[]
    else
      var m := l[0].mac;
      && m in entries
      && entries[m].port == l[0].port
      && OlderThan(entries, m, entries[m].lastSeen)
      && Represents(entries - {m}, l[1..])
  }

  /** What a representation determines: size, membership, lookups. */
  lemma {:induction false} RepresentsSame(entries: map<Mac, Entry>, l: Recency, mac: Mac)
    requires Represents(entries, l)
    ensures |entries| == |l|
    ensures Macs(l) == entries.Keys && Distinct(l)
    ensures Find(l, mac) == if mac in entries then Some(entries[mac].port) else None
    decreases |l|
  {
    if l != [] {
      RepresentsSame(entries - {l[0].mac}, l[1..], mac);
      assert entries.Keys == {l[0].mac} + (entries - {l[0].mac}).Keys;
    }
  }

  lemma {:induction false} EvictRepresents(entries: map<Mac, Entry>, l: Recency, mac: Mac)
    requires Represents(entries, l)
    ensures Represents(entries - {mac}, Without(l, mac))
    decreases |l|
  {
    if l == [] {
      assert entries - {mac} == map[];
    } else if l[0].mac == mac {
      RepresentsSame(entries - {mac}, l[1..], mac);
      WithoutAbsent(l[1..], mac);
    } else {
      var m := l[0].mac;
      EvictRepresents(entries - {m}, l[1..], mac);
      assert (entries - {m}) - {mac} == (entries - {mac}) - {m};
      assert Without(l, mac)[1..] == Without(l[1..], mac);
    }
  }

  /** Stamping a MAC puts it in front exactly when the stamp is newer than every other. */
  lemma StampRepresents(entries: map<Mac, Entry>, l: Recency, mac: Mac, port: PortId, stamp: nat)
    requires Represents(entries, l)
    ensures Represents(entries[mac := Entry(port, stamp)], Push(l, port, mac)) <==> OlderThan(entries, mac, stamp)
  {
    EvictRepresents(entries, l, mac);
    var stamped := entries[mac := Entry(port, stamp)];
    assert stamped - {mac} == entries - {mac};
    assert Push(l, port, mac)[1..] == Without(l, mac);
    assert OlderThan(stamped, mac, stamp) <==> OlderThan(entries, mac, stamp) by {
      assert forall m :: m in entries && m != mac ==> stamped[m] == entries[m];
    }
  }

  lemma WithoutLast(l: Recency, mac: Mac)
    requires |l| > 1 && l[0].mac != mac && Without(l[1..], mac) == l[1..][..|l| - 2]
    ensures Without(l, mac) == l[..|l| - 1]
  {}

  /** The least stamp belongs to the last element: the victim is unique. */
  lemma {:induction false} OldestIsLast(entries: map<Mac, Entry>, l: Recency, victim: Mac)
    requires Represents(entries, l) && victim in entries
    requires forall m :: m in entries ==> entries[victim].lastSeen <= entries[m].lastSeen
    ensures |l| > 0 && Without(l, victim) == l[..|l| - 1]
    decreases |l|
  {
    var m, rest, tail := l[0].mac, entries - {l[0].mac}, l[1..];
    RepresentsSame(rest, tail, victim);
    if tail == [] {
      assert victim == m;
    } else {
      assert victim != m by {
        assert tail[0].mac in rest;
        assert entries[tail[0].mac].lastSeen < entries[m].lastSeen;
      }
      OldestIsLast(rest, tail, victim);
      WithoutLast(l, victim);
    }
  }

  /** Dropping the last of a full list and pushing a new MAC is the truncating push. */
  lemma DropThenPush(l: Recency, mac: Mac, port: PortId)
    requires |l| > 0 && mac !in Macs(l)
    ensures Push(l[..|l| - 1], port, mac) == Touch(l, |l|, port, mac)
  {
    WithoutAbsent(l, mac);
    TakeMacs(l, |l| - 1);
    WithoutAbsent(l[..|l| - 1], mac);
  }

  /** A new MAC in a full table: evicting the oldest makes exactly the needed room. */
  lemma MakesRoom(entries: map<Mac, Entry>, l: Recency, mac: Mac, port: PortId, victim: Mac)
    requires Represents(entries, l) && victim in entries && mac !in entries
    requires forall m :: m in entries ==> entries[victim].lastSeen <= entries[m].lastSeen
    ensures Represents(entries - {victim}, Without(l, victim))
    ensures Push(Without(l, victim), port, mac) == Touch(l, |l|, port, mac)
    ensures |l| == |entries|
  {
    EvictRepresents(entries, l, victim);
    OldestIsLast(entries, l, victim);
    RepresentsSame(entries, l, mac);
    DropThenPush(l, mac, port);
  }

  /** The class invariant over values: the stamps list `recent` and none is ahead of the clock. */
  ghost predicate Consistent(capacity: nat, clock: nat, entries: map<Mac, Entry>, recent: Recency)
  {
    && clock < CLOCK_MODULUS
    && |recent| <= capacity
    && Represents(entries, recent)
    && StampsUpTo(entries, clock)
  }

  ghost predicate StampsUpTo(entries: map<Mac, Entry>, clock: nat)
  {
    forall m :: m in entries ==> entries[m].lastSeen <= clock
  }

  ghost predicate Only(entries: map<Mac, Entry>, mac: Mac)
  {
    forall m :: m in entries ==> m == mac
  }

  /** The next clock value is newer than every other stamp unless the clock wrapped past one. */
  lemma NextIsNewest(entries: map<Mac, Entry>, mac: Mac, clock: nat, next: nat)
    requires clock < CLOCK_MODULUS && next == (clock + 1) % CLOCK_MODULUS && StampsUpTo(entries, clock)
    ensures OlderThan(entries, mac, next) <==> clock + 1 < CLOCK_MODULUS || Only(entries, mac)
  {
    if clock + 1 == CLOCK_MODULUS && !Only(entries, mac) {
      var m :| m in entries && m != mac;
      assert entries[m].lastSeen >= next;
    }
  }

  /** Stamping with the next clock value stays consistent unless the clock wrapped past another MAC. */
  lemma StampConsistent(entries: map<Mac, Entry>, l: Recency, capacity: nat, mac: Mac, port: PortId,
                        clock: nat, next: nat, stamped: map<Mac, Entry>)
    requires clock < CLOCK_MODULUS && next == (clock + 1) % CLOCK_MODULUS && StampsUpTo(entries, clock)
    requires Represents(entries, l) && |Push(l, port, mac)| <= capacity
    requires stamped == entries[mac := Entry(port, next)]
    ensures Consistent(capacity, next, stamped, Push(l, port, mac))
      <==> clock + 1 < CLOCK_MODULUS || Only(entries, mac)
  {
    StampRepresents(entries, l, mac, port, next);
    NextIsNewest(entries, mac, clock, next);
    assert OlderThan(entries, mac, next) ==> StampsUpTo(stamped, next);
  }

  lemma {:induction false} WithoutKnown(l: Recency, mac: Mac)
    requires mac in Macs(l)
    ensures |Without(l, mac)| < |l|
  {
    if l[0].mac != mac {
      WithoutKnown(l[1..], mac);
    }
  }

  /** A known MAC, or a table with room: nothing is truncated. */
  lemma HasRoom(entries: map<Mac, Entry>, l: Recency, capacity: nat, mac: Mac, port: PortId)
    requires Represents(entries, l) && |l| <= capacity
    requires mac in entries || |entries| != capacity
    ensures |Push(l, port, mac)| <= capacity
    ensures Push(l, port, mac) == Touch(l, capacity, port, mac)
  {
    RepresentsSame(entries, l, mac);
    if mac in entries {
      WithoutKnown(l, mac);
    }
  }

  /** In a table with room that holds at most one MAC, nobody else is left beside the learned one. */
  lemma NobodyElse(entries: map<Mac, Entry>, mac: Mac)
    requires |entries| == 0 || (|entries| == 1 && mac in entries)
    ensures Only(entries, mac)
  {
    if mac in entries {
      assert |entries.Keys - {mac}| == 0;
      forall m | m in entries && m != mac ensures m in entries.Keys - {mac} {}
    }
  }

  /** After an eviction nobody else is left iff the table held one entry. */
  lemma OthersRemain(entries: map<Mac, Entry>, victim: Mac, mac: Mac)
    requires victim in entries && mac !in entries
    ensures Only(entries - {victim}, mac) <==> |entries| == 1
  {
    var rest := (entries - {victim}).Keys;
    assert rest == entries.Keys - {victim} && |rest| == |entries| - 1;
    if m :| m in rest {
      assert m in entries - {victim} && m != mac;
    } else {
      assert rest == {};
    }
  }

  // ---- lookups, whatever the stamps say -------------------------------------------------------

  /** The list and the map find the same port for every MAC. */
  ghost predicate Mirrors(entries: map<Mac, Entry>, l: Recency)
  {
    forall m :: Find(l, m) == if m in entries then Some(entries[m].port) else None
  }

  lemma RepresentsMirrors(entries: map<Mac, Entry>, l: Recency)
    requires Represents(entries, l)
    ensures Mirrors(entries, l)
  {
    forall m ensures Find(l, m) == if m in entries then Some(entries[m].port) else None {
      RepresentsSame(entries, l, m);
    }
  }

  lemma StampMirrors(entries: map<Mac, Entry>, l: Recency, mac: Mac, e: Entry)
    requires Mirrors(entries, l)
    ensures Mirrors(entries[mac := e], Push(l, e.port, mac))
  {
    forall m | m != mac ensures Find(Push(l, e.port, mac), m) == Find(l, m) {
      AheadWithout(l, mac, m);
      assert Push(l, e.port, mac)[1..] == Without(l, mac);
    }
  }

  /** Learning a known MAC, or a new one into a table with room. */
  lemma LearnWithRoom(entries: map<Mac, Entry>, l: Recency, capacity: nat, clock: nat, mac: Mac, e: Entry)
    requires Consistent(capacity, clock, entries, l) && capacity > 0 && e.lastSeen == (clock + 1) % CLOCK_MODULUS
    requires mac in entries || |entries| != capacity
    ensures Push(l, e.port, mac) == Touch(l, capacity, e.port, mac)
    ensures Consistent(capacity, e.lastSeen, entries[mac := e], Push(l, e.port, mac))
      <==> capacity <= 1 || clock + 1 < CLOCK_MODULUS || Only(entries, mac)
    ensures Mirrors(entries[mac := e], Push(l, e.port, mac))
  {
    RepresentsSame(entries, l, mac);
    HasRoom(entries, l, capacity, mac, e.port);
    if capacity == 1 { NobodyElse(entries, mac); }
    StampConsistent(entries, l, capacity, mac, e.port, clock, e.lastSeen, entries[mac := e]);
    RepresentsMirrors(entries, l);
    StampMirrors(entries, l, mac, e);
  }

  /** Learning a new MAC into a full table, the oldest going. */
  lemma LearnByEvicting(entries: map<Mac, Entry>, l: Recency, capacity: nat, clock: nat, mac: Mac, e: Entry,
                        victim: Mac)
    requires Consistent(capacity, clock, entries, l) && e.lastSeen == (clock + 1) % CLOCK_MODULUS
    requires mac !in entries && |entries| == capacity && victim in entries
    requires forall m :: m in entries ==> entries[victim].lastSeen <= entries[m].lastSeen
    ensures Push(Without(l, victim), e.port, mac) == Touch(l, capacity, e.port, mac)
    ensures Consistent(capacity, e.lastSeen, (entries - {victim})[mac := e], Push(Without(l, victim), e.port, mac))
      <==> capacity <= 1 || clock + 1 < CLOCK_MODULUS || Only(entries, mac)
    ensures Mirrors((entries - {victim})[mac := e], Push(Without(l, victim), e.port, mac))
  {
    var rest, kept := entries - {victim}, Without(l, victim);
    MakesRoom(entries, l, mac, e.port, victim);
    OthersRemain(entries, victim, mac);
    assert StampsUpTo(rest, clock);
    StampConsistent(rest, kept, capacity, mac, e.port, clock, e.lastSeen, rest[mac := e]);
    RepresentsMirrors(rest, kept);
    StampMirrors(rest, kept, mac, e);
  }

  /** The table, with the recency list it stands for kept as ghost state. */
  class MacTable {
    const capacity: nat
    var clock: nat
    var entries: map<Mac, Entry>
    ghost var recent: Recency

    ghost predicate Valid()
      reads this
    {
      Consistent(capacity, clock, entries, recent)
    }

    constructor (capacity: nat)
      ensures Valid() && this.capacity == capacity && recent == [] && clock == 0
    {
      this.capacity := capacity;
      clock := 0;
      entries := map[];
      recent := [];
    }

    /** The minimum scan over the entries' stamps. */
    method OldestMac() returns (victim: Mac)
      requires entries != map[]
      ensures victim in entries
      ensures forall m :: m in entries ==> entries[victim].lastSeen <= entries[m].lastSeen
    {
      var rest := entries.Keys;
      assert exists m :: m in entries;
      victim :| victim in rest;
      while rest != {}
        invariant rest <= entries.Keys
        invariant victim in entries
        invariant forall m :: m in entries && m !in rest ==> entries[victim].lastSeen <= entries[m].lastSeen
      {
        var m :| m in rest;
        if entries[m].lastSeen < entries[victim].lastSeen {
          victim := m;
        }
        rest := rest - {m};
      }
    }

    /**
      The recency list always moves on as specified, and lookups follow it. The stamps still
      represent it unless the 64-bit clock wraps in this call with another MAC in the table
      and room for more than one.
     */
    method Learn(port: PortId, mac: Mac)
      requires Valid()
      modifies this
      ensures recent == Touch(old(recent), capacity, port, mac)
      ensures capacity > 0 ==> clock == (old(clock) + 1) % CLOCK_MODULUS
      ensures Valid() <==> capacity <= 1 || old(clock) + 1 < CLOCK_MODULUS || old(Only(entries, mac))
      ensures Mirrors(entries, recent)
    {
      RepresentsMirrors(entries, recent);
      if capacity == 0 {
        return;
      }
      clock := (clock + 1) % CLOCK_MODULUS;
      ghost var kept := recent;
      if mac !in entries && |entries| == capacity {
        var victim := OldestMac();
        LearnByEvicting(entries, recent, capacity, old(clock), mac, Entry(port, clock), victim);
        kept := Without(recent, victim);
        entries := entries - {victim};
      } else {
        LearnWithRoom(entries, recent, capacity, old(clock), mac, Entry(port, clock));
      }
      entries := entries[mac := Entry(port, clock)];
      recent := Push(kept, port, mac);
      assert Consistent(capacity, clock, entries, recent) <==>
        capacity <= 1 || old(clock) + 1 < CLOCK_MODULUS || old(Only(entries, mac));
    }

    method Lookup(mac: Mac) returns (port: Option<PortId>)
      requires Mirrors(entries, recent)
      ensures port == Find(recent, mac)
    {
      port := if mac in entries then Some(entries[mac].port) else None;
    }

    method Evict(mac: Mac) returns (existed: bool)
      requires Valid()
      modifies this
      ensures Valid() && recent == Without(old(recent), mac)
      ensures existed == old(Find(recent, mac)).Some?
    {
      RepresentsSame(entries, recent, mac);
      EvictRepresents(entries, recent, mac);
      existed := mac in entries;
      entries := entries - {mac};
      recent := Without(recent, mac);
    }
  }

  // ---- which MACs a table holds after a history of learns -------------------------

  /** The table after learning `h` from empty. */
  function Learned(h: seq<Binding>, capacity: nat): Recency
  {
    if h == [] then []
    else var e := h[|h| - 1]; Touch(Learned(h[..|h| - 1], capacity), capacity, e.port, e.mac)
  }

  /** The same list with no capacity bound. */
  function Ranked(h: seq<Binding>): Recency
  {
    if h == [] then []
    else var e := h[|h| - 1]; Push(Ranked(h[..|h| - 1]), e.port, e.mac)
  }

  lemma {:induction false} RankedDistinct(h: seq<Binding>)
    ensures Distinct(Ranked(h))
  {
    if h != [] {
      var init, e := h[..|h| - 1], h[|h| - 1];
      RankedDistinct(init);
      WithoutDistinct(Ranked(init), e.mac);
      assert Ranked(h)[1..] == Without(Ranked(init), e.mac);
    }
  }

  lemma {:induction false} TakeWithout(l: Recency, n: nat, mac: Mac)
    requires Distinct(l)
    ensures Take(Without(Take(l, n + 1), mac), n) == Take(Without(l, mac), n)
    decreases |l|
  {
    if l == [] {
    } else if l[0].mac == mac {
      WithoutAbsent(l[1..], mac);
      var t := Take(l[1..], n);
      assert Take(l, n + 1)[1..] == t;
      TakeMacs(l[1..], n);
      WithoutAbsent(t, mac);
    } else if n > 0 {
      TakeWithout(l[1..], n - 1, mac);
      assert l == [l[0]] + l[1..];
      TakeCons(l[0], l[1..], n + 1);
      TakeCons(l[0], Without(Take(l[1..], n), mac), n);
      TakeCons(l[0], Without(l[1..], mac), n);
    }
  }

  lemma {:induction false} TakeMacs(l: Recency, n: nat)
    ensures Macs(Take(l, n)) <= Macs(l)
  {
    if l != [] && n > 0 {
      TakeMacs(l[1..], n - 1);
      assert Take(l, n)[1..] == Take(l[1..], n - 1);
    }
  }

  lemma TakeCons(b: Binding, l: Recency, n: nat)
    requires n > 0
    ensures Take([b] + l, n) == [b] + Take(l, n - 1)
  {}

  lemma {:induction false} LearnedIsTruncated(h: seq<Binding>, capacity: nat)
    ensures Learned(h, capacity) == Take(Ranked(h), capacity)
  {
    if h != [] && capacity > 0 {
      var init, e := h[..|h| - 1], h[|h| - 1];
      LearnedIsTruncated(init, capacity);
      RankedDistinct(init);
      var l := Ranked(init);
      TakeWithout(l, capacity - 1, e.mac);
      TakeCons(Binding(e.mac, e.port), Without(l, e.mac), capacity);
      TakeCons(Binding(e.mac, e.port), Without(Take(l, capacity), e.mac), capacity);
    }
  }

  /** The MACs ahead of `mac` in the list. */
  function Ahead(l: Recency, mac: Mac): set<Mac>
  {
    if l == [] || l[0].mac == mac then {} else {l[0].mac} + Ahead(l[1..], mac)
  }

  lemma {:induction false} AheadWithout(l: Recency, gone: Mac, mac: Mac)
    requires gone != mac
    ensures Ahead(Without(l, gone), mac) == Ahead(l, mac) - {gone}
    ensures Find(Without(l, gone), mac) == Find(l, mac)
  {
    if l != [] {
      AheadWithout(l[1..], gone, mac);
    }
  }

  lemma {:induction false} AheadWithin(l: Recency, mac: Mac)
    ensures Ahead(l, mac) <= Macs(l)
  {
    if l != [] {
      AheadWithin(l[1..], mac);
    }
  }

  /** A MAC survives truncation exactly when fewer than `capacity` MACs are ahead of it. */
  lemma {:induction false} FindTruncated(l: Recency, capacity: nat, mac: Mac)
    requires Distinct(l)
    ensures Find(Take(l, capacity), mac) == if |Ahead(l, mac)| < capacity then Find(l, mac) else None
    decreases |l|
  {
    if l == [] || capacity == 0 || l[0].mac == mac {
    } else {
      FindTruncated(l[1..], capacity - 1, mac);
      AheadWithin(l[1..], mac);
      assert Take(l, capacity)[1..] == Take(l[1..], capacity - 1);
    }
  }

  /** The MACs learned after position `i`. */
  function NewerMacs(h: seq<Binding>, i: nat): set<Mac>
  {
    set b | b in h[if i < |h| then i + 1 else |h|..] :: b.mac
  }

  lemma {:induction false} RankIsNewerMacs(h: seq<Binding>, i: nat)
    requires i < |h| && h[i].mac !in NewerMacs(h, i)
    ensures Find(Ranked(h), h[i].mac) == Some(h[i].port)
    ensures Ahead(Ranked(h), h[i].mac) == NewerMacs(h, i)
    decreases |h|
  {
    var init, e := h[..|h| - 1], h[|h| - 1];
    if i < |h| - 1 {
      assert h[i + 1..] == init[i + 1..] + [e];
      assert e in h[i + 1..];
      assert NewerMacs(h, i) == NewerMacs(init, i) + {e.mac};
      RankIsNewerMacs(init, i);
      AheadWithout(Ranked(init), e.mac, h[i].mac);
      assert Ranked(h)[1..] == Without(Ranked(init), e.mac);
    }
  }

  /**
    A table fed only learns holds exactly the `capacity` most recently seen MACs, each
    with its last port: `h[i].mac` is found iff fewer than `capacity` distinct MACs
    were learned after its last occurrence `i`.
   */
  lemma HoldsMostRecent(h: seq<Binding>, capacity: nat, i: nat)
    requires i < |h| && h[i].mac !in NewerMacs(h, i)
    ensures Find(Learned(h, capacity), h[i].mac)
      == if |NewerMacs(h, i)| < capacity then Some(h[i].port) else None
  {
    LearnedIsTruncated(h, capacity);
    RankedDistinct(h);
    RankIsNewerMacs(h, i);
    FindTruncated(Ranked(h), capacity, h[i].mac);
  }
}
