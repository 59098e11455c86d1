/** The per-network address allocator (ipam.rs). */
module Ipam {
  import opened Base
  import opened Cidr

  /** MAC-to-address bindings. */
  type Table = map<Mac, Ip>

  datatype IpamError = PoolExhausted | UnknownMac

  predicate InPool(net: Network, ip: int)
  {
    net.pool.start <= ip <= net.pool.end
  }

  /** Every binding lies in the pool and no address is bound twice. */
  ghost predicate Sound(net: Network, t: Table)
  {
    && (forall m :: m in t ==> InPool(net, t[m]))
    && (forall m, n :: m in t && n in t && t[m] == t[n] ==> m == n)
  }

  /** The first unbound address from `from` up to `last`. */
  function LowestFree(t: Table, from: int, last: Ip): Option<Ip>
    requires 0 <= from
    decreases last - from
  {
    if from > last then None
    else if from !in t.Values then Some(from)
    else LowestFree(t, from + 1, last)
  }

  /** Same MAC, same address; otherwise the lowest free pool address. */
  function Allocate(net: Network, t: Table, mac: Mac): (Table, Result<Ip, IpamError>)
  {
    if mac in t then (t, Ok(t[mac]))
    else
      match LowestFree(t, net.pool.start, net.pool.end)
      case Some(ip) => (t[mac := ip], Ok(ip))
      case None => (t, Err(PoolExhausted))
  }

  function Release(t: Table, mac: Mac): (Table, Result<(), IpamError>)
  {
    if mac in t then (t - {mac}, Ok(())) else (t, Err(UnknownMac))
  }

  function Lookup(t: Table, mac: Mac): Option<Ip>
  {
    if mac in t then Some(t[mac]) else None
  }

  lemma {:induction false} LowestFreeIsLeast(t: Table, from: int, last: Ip)
    requires 0 <= from
    ensures match LowestFree(t, from, last)
            case Some(ip) => from <= ip <= last && ip !in t.Values && (forall x :: from <= x < ip ==> x in t.Values)
            case None => (forall x :: from <= x <= last ==> x in t.Values)
    decreases last - from
  {
    if from <= last && from in t.Values {
      LowestFreeIsLeast(t, from + 1, last);
    }
  }

  // ---- counting ----------------------------------------------------------------------

  function Range(lo: int, hi: int): (r: set<int>)
    requires lo <= hi + 1
    ensures forall x :: x in r <==> lo <= x <= hi
    ensures |r| == hi - lo + 1
    decreases hi - lo + 1
  {
    if lo > hi then {} else Range(lo, hi - 1) + {hi}
  }

  lemma {:induction false} ValuesCount(t: Table)
    requires forall m, n :: m in t && n in t && t[m] == t[n] ==> m == n
    ensures |t.Values| == |t|
  {
    if t != map[] {
      var m :| m in t;
      var rest := t - {m};
      ValuesCount(rest);
      assert t.Values == rest.Values + {t[m]} by {
        forall v | v in t.Values ensures v in rest.Values + {t[m]} {
          var n :| n in t && t[n] == v;
          if n != m { assert n in rest && rest[n] == v; }
        }
      }
      assert t[m] !in rest.Values;
    } else {
      assert t.Values == {};
    }
  }

  lemma SubsetOfSameSize<T>(a: set<T>, b: set<T>)
    requires a <= b && |a| == |b|
    ensures a == b
  {
    assert |b - a| == |b| - |a|;
    assert b == a + (b - a);
  }

  /** There are never more bindings than pool addresses. */
  lemma CountBound(net: Network, t: Table)
    requires Sound(net, t) && net.pool.start <= net.pool.end
    ensures t.Values <= Range(net.pool.start, net.pool.end)
    ensures |t.Values| == |t| <= net.pool.end - net.pool.start + 1
  {
    var range, used: set<int> := Range(net.pool.start, net.pool.end), t.Values;
    assert used <= range by {
      forall v | v in t.Values ensures v in range {
        var m :| m in t && t[m] == v;
        assert InPool(net, t[m]);
      }
    }
    ValuesCount(t);
    assert |range - used| == |range| - |used|;
  }

  lemma FullIffCounted(net: Network, t: Table)
    requires Sound(net, t) && net.pool.start <= net.pool.end
    ensures Range(net.pool.start, net.pool.end) <= t.Values <==> |t| == net.pool.end - net.pool.start + 1
  {
    var range, used: set<int> := Range(net.pool.start, net.pool.end), t.Values;
    CountBound(net, t);
    if |used| == |range| {
      SubsetOfSameSize(used, range);
    }
    if range <= used {
      assert used == range;
    }
  }

  /** The pool is exhausted exactly when the MAC is new and as many MACs are bound as the pool has addresses. */
  lemma ExhaustedIffFull(net: Network, t: Table, mac: Mac)
    requires Sound(net, t) && net.pool.start <= net.pool.end
    ensures Allocate(net, t, mac).1.Err? <==> mac !in t && |t| == net.pool.end - net.pool.start + 1
  {
    LowestFreeIsLeast(t, net.pool.start, net.pool.end);
    FullIffCounted(net, t);
    var found := LowestFree(t, net.pool.start, net.pool.end);
    if found.Some? {
      assert found.value in Range(net.pool.start, net.pool.end);
    }
  }

  /** The MAC has an address or there is one left for it. */
  predicate CanServe(net: Network, t: Table, mac: Mac)
  {
    mac in t || |t| <= net.pool.end - net.pool.start
  }

  lemma ServesIff(net: Network, t: Table, mac: Mac)
    requires Sound(net, t) && net.pool.start <= net.pool.end
    ensures Allocate(net, t, mac).1.Ok? <==> CanServe(net, t, mac)
  {
    ExhaustedIffFull(net, t, mac);
    CountBound(net, t);
  }

  /** What allocation gives: the MAC's own address, else the least unbound pool address, else nothing changes. */
  lemma AllocateMeans(net: Network, t: Table, mac: Mac)
    requires Sound(net, t) && net.pool.start <= net.pool.end
    ensures var (t', r) := Allocate(net, t, mac);
      && Sound(net, t')
      && (mac in t ==> r == Ok(t[mac]) && t' == t)
      && (r.Ok? ==> InPool(net, r.value) && t' == t[mac := r.value])
      && (r.Ok? && mac !in t ==>
            r.value !in t.Values && (forall x :: net.pool.start <= x < r.value ==> x in t.Values))
      && (r.Err? ==> t' == t && |t| == net.pool.end - net.pool.start + 1)
  {
    LowestFreeIsLeast(t, net.pool.start, net.pool.end);
    ExhaustedIffFull(net, t, mac);
  }

  // ---- runs ----------------------------------------------------------------------------

  datatype Op = Bind(mac: Mac) | Free(mac: Mac)

  function Apply(net: Network, t: Table, op: Op): Table
  {
    match op
    case Bind(m) => Allocate(net, t, m).0
    case Free(m) => Release(t, m).0
  }

  function Run(net: Network, t: Table, ops: seq<Op>): Table
    decreases |ops|
  {
    if ops == [] then t else Run(net, Apply(net, t, ops[0]), ops[1..])
  }

  lemma ApplySound(net: Network, t: Table, op: Op)
    requires Sound(net, t)
    ensures Sound(net, Apply(net, t, op))
    ensures forall m :: m in t && op != Free(m) ==> m in Apply(net, t, op) && Apply(net, t, op)[m] == t[m]
  {
    LowestFreeIsLeast(t, net.pool.start, net.pool.end);
  }

  /**
    Over any run on an accepted network: bindings stay injective, inside the CIDR block
    and off the gateway, and a MAC that is never released keeps its address.
   */
  lemma {:induction false} RunsStaySound(net: Network, t: Table, ops: seq<Op>, mac: Mac)
    requires WellFormed(net) && Sound(net, t)
    ensures var r := Run(net, t, ops);
      && Sound(net, r)
      && (forall m :: m in r ==> InBlock(r[m], net.cidr) && r[m] != net.gateway)
      && (mac in t && Free(mac) !in ops ==> Lookup(r, mac) == Some(t[mac]))
    decreases |ops|
  {
    if ops != [] {
      ApplySound(net, t, ops[0]);
      RunsStaySound(net, Apply(net, t, ops[0]), ops[1..], mac);
    }
  }

  /** Releasing a MAC frees its address and nothing else. */
  lemma ReleaseFreesExactly(net: Network, t: Table, mac: Mac)
    requires Sound(net, t) && mac in t
    ensures Release(t, mac).0.Values == t.Values - {t[mac]}
    ensures Release(t, mac).0.Keys == t.Keys - {mac}
  {
    var r := Release(t, mac).0;
    forall v | v in t.Values && v != t[mac] ensures v in r.Values {
      var n :| n in t && t[n] == v;
      assert n in r && r[n] == v;
    }
  }

  // ---- the allocator object --------------------------------------------------------------

  class Allocator {
    const network: Network
    var allocations: Table

    ghost predicate Valid()
      reads this
    {
      WellFormed(network) && Sound(network, allocations)
    }

    constructor (network: Network)
      requires WellFormed(network)
      ensures Valid() && this.network == network && allocations == map[]
    {
      this.network := network;
      allocations := map[];
    }

    /** The candidate scan over the pool, lowest address first. */
    method Bind(mac: Mac) returns (r: Result<Ip, IpamError>)
      requires Valid()
      modifies this
      ensures Valid() && (allocations, r) == Allocate(network, old(allocations), mac)
    {
      AllocateMeans(network, allocations, mac);
      if mac in allocations {
        return Ok(allocations[mac]);
      }
      var candidate: int := network.pool.start;
      while candidate <= network.pool.end
        invariant network.pool.start <= candidate <= network.pool.end + 1
        invariant allocations == old(allocations)
        invariant LowestFree(allocations, network.pool.start, network.pool.end)
          == LowestFree(allocations, candidate, network.pool.end)
      {
        if candidate !in allocations.Values {
          allocations := allocations[mac := candidate];
          return Ok(candidate);
        }
        candidate := candidate + 1;
      }
      return Err(PoolExhausted);
    }

    method Free(mac: Mac) returns (r: Result<(), IpamError>)
      requires Valid()
      modifies this
      ensures Valid() && (allocations, r) == Release(old(allocations), mac)
    {
      if mac !in allocations {
        return Err(UnknownMac);
      }
      allocations := allocations - {mac};
      return Ok(());
    }
  }
}
