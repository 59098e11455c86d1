/** Saving and restoring an allocator's bindings as text (ipam.rs). */
module Snapshot {
  import opened Base
  import opened Cidr
  import opened Ipam
  import opened Text

  datatype SnapshotError = InvalidMac | InvalidIp | OutsidePool | DuplicateIp

  lemma MacTextInjective(a: Mac, b: Mac)
    requires MacText(a) == MacText(b)
    ensures a == b
  {
    MacRoundTrip(a);
    MacRoundTrip(b);
  }

  /** One parsed entry on top of those already accepted. */
  function Insert(net: Network, t: Table, mac: Option<Mac>, ip: Option<Ip>): Result<Table, SnapshotError>
  {
    if mac.None? then Err(InvalidMac)
    else if ip.None? then Err(InvalidIp)
    else if !InPool(net, ip.value) then Err(OutsidePool)
    else if ip.value in t.Values then Err(DuplicateIp)
    else Ok(t[mac.value := ip.value])
  }

  function Restore(net: Network, entries: seq<(string, string)>): Result<Table, SnapshotError>
  {
    if entries == [] then Ok(map[])
    else
      var last := entries[|entries| - 1];
      match Restore(net, entries[..|entries| - 1])
      case Err(e) => Err(e)
      case Ok(t) => Insert(net, t, ParseMac(last.0), ParseIp(last.1))
  }

  lemma InsertSound(net: Network, t: Table, mac: Option<Mac>, ip: Option<Ip>)
    requires Sound(net, t) && Insert(net, t, mac, ip).Ok?
    ensures Sound(net, Insert(net, t, mac, ip).value)
  {}

  /** Anything accepted is injective and inside the pool, even when several texts name one MAC. */
  lemma {:induction false} AcceptedIsSound(net: Network, entries: seq<(string, string)>)
    requires Restore(net, entries).Ok?
    ensures Sound(net, Restore(net, entries).value)
  {
    if entries != [] {
      var init, last := entries[..|entries| - 1], entries[|entries| - 1];
      AcceptedIsSound(net, init);
      InsertSound(net, Restore(net, init).value, ParseMac(last.0), ParseIp(last.1));
    }
  }

  /** The bindings of the MACs in `order`, printed one by one. */
  function Printed(t: Table, order: seq<Mac>): seq<(string, string)>
    requires forall m :: m in order ==> m in t
  {
    if order == [] then []
    else
      var mac := order[|order| - 1];
      Printed(t, order[..|order| - 1]) + [(MacText(mac), IpText(t[mac]))]
  }

  function Part(t: Table, order: seq<Mac>): Table
  {
    map m | m in t && m in order :: t[m]
  }

  predicate Once(order: seq<Mac>)
  {
    forall i, j :: 0 <= i < j < |order| ==> order[i] != order[j]
  }

  lemma {:induction false} RestorePart(net: Network, t: Table, order: seq<Mac>)
    requires Sound(net, t) && Once(order) && forall m :: m in order ==> m in t
    ensures Restore(net, Printed(t, order)) == Ok(Part(t, order))
  {
    if order == [] {
      assert Part(t, []) == map[];
    } else {
      var init, mac := order[..|order| - 1], order[|order| - 1];
      RestorePart(net, t, init);
      RestoreLast(net, Printed(t, init), mac, t[mac]);
      AddsOne(net, t, init, mac);
      assert init + [mac] == order;
    }
  }

  lemma RestoreLast(net: Network, entries: seq<(string, string)>, mac: Mac, ip: Ip)
    requires Restore(net, entries).Ok?
    ensures Restore(net, entries + [(MacText(mac), IpText(ip))])
      == Insert(net, Restore(net, entries).value, Some(mac), Some(ip))
  {
    MacRoundTrip(mac);
    IpRoundTrip(ip);
    assert (entries + [(MacText(mac), IpText(ip))])[..|entries|] == entries;
  }

  lemma AddsOne(net: Network, t: Table, init: seq<Mac>, mac: Mac)
    requires Sound(net, t) && mac in t && mac !in init
    ensures Insert(net, Part(t, init), Some(mac), Some(t[mac])) == Ok(Part(t, init + [mac]))
  {
    assert t[mac] !in Part(t, init).Values;
    assert Part(t, init + [mac]) == Part(t, init)[mac := t[mac]];
  }

  /**
    Restoring what was saved gives back exactly the bindings: `order` is any order in which
    the saved map (keyed by the injective printed MAC) is read back.
   */
  lemma RestoreInvertsSave(net: Network, t: Table, order: seq<Mac>)
    requires Sound(net, t) && Once(order) && forall m :: m in order <==> m in t
    ensures Restore(net, Printed(t, order)) == Ok(t)
  {
    RestorePart(net, t, order);
    assert Part(t, order) == t;
  }

  /** The restoring loop. */
  method ReadSnapshot(net: Network, entries: seq<(string, string)>) returns (r: Result<Table, SnapshotError>)
    ensures r == Restore(net, entries)
  {
    var allocations: Table := map[];
    for i := 0 to |entries|
      invariant Restore(net, entries[..i]) == Ok(allocations)
    {
      assert entries[..i + 1][..i] == entries[..i];
      var next := Insert(net, allocations, ParseMac(entries[i].0), ParseIp(entries[i].1));
      if next.Err? {
        Failed(net, entries, i + 1);
        return next;
      }
      allocations := next.value;
    }
    assert entries[..|entries|] == entries;
    return Ok(allocations);
  }

  /** An error stops the restore: later entries cannot change it. */
  lemma {:induction false} Failed(net: Network, entries: seq<(string, string)>, n: nat)
    requires n <= |entries| && Restore(net, entries[..n]).Err?
    ensures Restore(net, entries) == Restore(net, entries[..n])
    decreases |entries|
  {
    if n == |entries| {
      assert entries[..n] == entries;
    } else {
      var init := entries[..|entries| - 1];
      assert init[..n] == entries[..n];
      Failed(net, init, n);
    }
  }
}
