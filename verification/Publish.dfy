/** The host-port allocator for inbound forwards (model.rs). */
module Publish {
  import opened Base

  /** One port's published entries: VM-side port to host-side port. */
  type Slice = map<u16, u16>

  /** Published entries keyed by port name. */
  type Table = map<string, Slice>

  function Get(t: Table, port: string, vm: u16): Option<u16>
  {
    if port in t && vm in t[port] then Some(t[port][vm]) else None
  }

  /** The entries of one port; empty when it has none. */
  function SliceOf(t: Table, port: string): Slice
  {
    if port in t then t[port] else map[]
  }

  predicate InUse(t: Table, host: int)
  {
    exists p, v :: p in t && v in t[p] && t[p][v] == host
  }

  function LowestUnused(t: Table, from: int, last: u16): Option<u16>
    requires 0 <= from
    decreases last - from
  {
    if from > last then None
    else if !InUse(t, from) then Some(from)
    else LowestUnused(t, from + 1, last)
  }

  function Allocate(t: Table, port: string, vm: u16, lo: u16, hi: u16): (Table, Option<u16>)
  {
    match Get(t, port, vm)
    case Some(host) => (t, Some(host))
    case None =>
      match LowestUnused(t, lo, hi)
      case None => (t, None)
      case Some(host) => (t[port := SliceOf(t, port)[vm := host]], Some(host))
  }

  function RemovePort(t: Table, port: string): Table
  {
    t - {port}
  }

  /** Dropping a port's last entry drops the port. */
  function Remove(t: Table, port: string, vm: u16): (Table, Option<u16>)
  {
    match Get(t, port, vm)
    case None => (t, None)
    case Some(host) =>
      var slice := t[port] - {vm};
      (if slice == map[] then t - {port} else t[port := slice], Some(host))
  }

  // ---- what the operations keep -------------------------------------------------------------

  /** Host ports are distinct across all pairs and no port is listed with no entries. */
  ghost predicate Sound(t: Table)
  {
    && (forall p :: p in t ==> t[p] != map[])
    && (forall p, v: u16, q, w: u16 {:trigger Held(t, p, v), Held(t, q, w)} ::
          Held(t, p, v) && Held(t, q, w) && t[p][v] == t[q][w] ==> p == q && v == w)
  }

  predicate Held(t: Table, port: string, vm: u16)
  {
    port in t && vm in t[port]
  }

  lemma {:induction false} LowestUnusedIsLeast(t: Table, from: int, last: u16)
    requires 0 <= from
    ensures match LowestUnused(t, from, last)
            case Some(h) => from <= h <= last && !InUse(t, h) && (forall x :: from <= x < h ==> InUse(t, x))
            case None => (forall x :: from <= x <= last ==> InUse(t, x))
    decreases last - from
  {
    if from <= last && InUse(t, from) {
      LowestUnusedIsLeast(t, from + 1, last);
    }
  }

  /**
    Allocation: an existing pair keeps its port; a new pair gets the least unused port of
    the range; it fails exactly when the pair is new and the whole range is in use, and then
    nothing changes. No other pair is touched.
   */
  lemma AllocateMeans(t: Table, port: string, vm: u16, lo: u16, hi: u16)
    requires Sound(t)
    ensures var (t', r) := Allocate(t, port, vm, lo, hi);
      && Sound(t')
      && (r.None? <==> !Held(t, port, vm) && (forall x :: lo <= x <= hi ==> InUse(t, x)))
      && (r.None? || Held(t, port, vm) ==> t' == t)
      && (r.Some? ==> Get(t', port, vm) == r)
      && (r.Some? && !Held(t, port, vm) ==>
            lo <= r.value <= hi && !InUse(t, r.value) && (forall x :: lo <= x < r.value ==> InUse(t, x)))
      && (forall p, v: u16 :: (p, v) != (port, vm) ==> Get(t', p, v) == Get(t, p, v))
  {
    LowestUnusedIsLeast(t, lo, hi);
    var (t', r) := Allocate(t, port, vm, lo, hi);
    if r.Some? && !Held(t, port, vm) {
      assert t'[port][vm] == r.value;
      AllocateSound(t, port, vm, r.value);
    }
  }

  lemma AllocateSound(t: Table, port: string, vm: u16, host: u16)
    requires Sound(t) && !Held(t, port, vm) && !InUse(t, host)
    ensures Sound(t[port := SliceOf(t, port)[vm := host]])
  {
    var t' := t[port := SliceOf(t, port)[vm := host]];
    assert vm in t'[port];
    forall p, v | Held(t', p, v) && (p, v) != (port, vm) ensures Held(t, p, v) && t'[p][v] == t[p][v] {}
  }

  lemma RemoveLeavesOthers(t: Table, port: string, vm: u16, p: string, v: u16)
    requires (p, v) != (port, vm)
    ensures Get(Remove(t, port, vm).0, p, v) == Get(t, p, v)
  {
    if p == port && Held(t, port, v) {
      assert v in t[port] - {vm};
    }
  }

  lemma FewerStaySound(t: Table, t': Table)
    requires Sound(t) && (forall p :: p in t' ==> t'[p] != map[])
    requires forall p, v: u16 :: Held(t', p, v) ==> Held(t, p, v) && t'[p][v] == t[p][v]
    ensures Sound(t')
  {}

  lemma RemoveShrinks(t: Table, port: string, vm: u16, p: string, v: u16)
    requires Held(Remove(t, port, vm).0, p, v)
    ensures (p, v) != (port, vm) && Held(t, p, v) && Remove(t, port, vm).0[p][v] == t[p][v]
  {
    if (p, v) != (port, vm) { RemoveLeavesOthers(t, port, vm, p, v); }
  }

  lemma RemoveSound(t: Table, port: string, vm: u16)
    requires Sound(t)
    ensures Sound(Remove(t, port, vm).0)
    ensures Held(t, port, vm) ==> !InUse(Remove(t, port, vm).0, t[port][vm])
  {
    var t' := Remove(t, port, vm).0;
    forall p, v: u16 | Held(t', p, v)
      ensures (p, v) != (port, vm) && Held(t, p, v) && t'[p][v] == t[p][v]
    {
      RemoveShrinks(t, port, vm, p, v);
    }
    FewerStaySound(t, t');
    forall p, v: u16 | Held(t', p, v) && Held(t, port, vm) ensures t'[p][v] != t[port][vm] {}
  }

  /** Removal frees exactly the named entry and hands back its host port. */
  lemma RemoveMeans(t: Table, port: string, vm: u16)
    requires Sound(t)
    ensures var (t', r) := Remove(t, port, vm);
      && Sound(t') && r == Get(t, port, vm) && Get(t', port, vm).None?
      && (forall p, v: u16 :: (p, v) != (port, vm) ==> Get(t', p, v) == Get(t, p, v))
      && (r.Some? ==> !InUse(t', r.value))
  {
    RemoveSound(t, port, vm);
    forall p, v: u16 | (p, v) != (port, vm) ensures Get(Remove(t, port, vm).0, p, v) == Get(t, p, v) {
      RemoveLeavesOthers(t, port, vm, p, v);
    }
  }

  lemma RemoveSlice(t: Table, port: string, vm: u16)
    ensures SliceOf(Remove(t, port, vm).0, port) == SliceOf(t, port) - {vm}
    ensures forall p :: p != port ==> SliceOf(Remove(t, port, vm).0, p) == SliceOf(t, p)
  {}

  lemma RemovePortMeans(t: Table, port: string)
    requires Sound(t)
    ensures Sound(RemovePort(t, port))
    ensures forall p, v: u16 :: Get(RemovePort(t, port), p, v) == if p == port then None else Get(t, p, v)
  {
    forall p, v | Held(RemovePort(t, port), p, v) ensures Held(t, p, v) {}
  }

  // ---- the table object ------------------------------------------------------------------------

  class Registry {
    var entries: Table

    constructor (entries: Table)
      ensures this.entries == entries
    {
      this.entries := entries;
    }

    /** Collects the host ports in use, then takes the first of the range that is not among them. */
    method Claim(port: string, vm: u16, lo: u16, hi: u16) returns (r: Option<u16>)
      modifies this
      ensures (entries, r) == Allocate(old(entries), port, vm, lo, hi)
    {
      var held := Get(entries, port, vm);
      if held.Some? {
        return held;
      }
      var used := set p, v | p in entries && v in entries[p] :: entries[p][v];
      var host: int := lo;
      while host <= hi
        invariant lo <= host
        invariant LowestUnused(entries, lo, hi) == LowestUnused(entries, host, hi)
      {
        assert host in used <==> InUse(entries, host);
        if host !in used {
          entries := entries[port := SliceOf(entries, port)[vm := host]];
          return Some(host);
        }
        host := host + 1;
      }
      return None;
    }

    method Withdraw(port: string, vm: u16) returns (r: Option<u16>)
      modifies this
      ensures (entries, r) == Remove(old(entries), port, vm)
    {
      if port !in entries || vm !in entries[port] {
        return None;
      }
      r := Some(entries[port][vm]);
      entries := entries[port := entries[port] - {vm}];
      if entries[port] == map[] {
        entries := entries - {port};
        assert entries == old(entries) - {port};
      }
    }

    method WithdrawPort(port: string) returns (existed: bool)
      modifies this
      ensures entries == RemovePort(old(entries), port) && existed == (port in old(entries))
    {
      existed := port in entries;
      entries := entries - {port};
    }
  }
}
