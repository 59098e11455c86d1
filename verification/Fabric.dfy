/** The L2 forwarding engine (switch/engine.rs) over the learning table. */
module Fabric {
  import opened Base
  import opened Frames
  import Lru

  const MAC_TABLE_CAPACITY: nat := 1024

  /** Live ports with their network name, and the learned MACs. */
  datatype Switch = Switch(ports: map<PortId, string>, recent: Lru.Recency)

  const EMPTY: Switch := Switch(map[], [])

  function AddPort(sw: Switch, port: PortId, network: string): Switch
  {
    sw.(ports := sw.ports[port := network])
  }

  function RemovePort(sw: Switch, port: PortId): Switch
  {
    sw.(ports := sw.ports - {port})
  }

  /** Every live port on `network` except `exclude`. */
  function FloodSet(ports: map<PortId, string>, network: string, exclude: PortId): set<PortId>
  {
    set p | p in ports && p != exclude && ports[p] == network
  }

  function UnicastEgress(sw: Switch, network: string, ingress: PortId, dst: Mac): set<PortId>
  {
    match Lru.Find(sw.recent, dst)
    case None => FloodSet(sw.ports, network, ingress)
    case Some(port) =>
      if port == ingress then {}
      else if port !in sw.ports then {}
      else if sw.ports[port] == network then {port}
      else FloodSet(sw.ports, network, ingress)
  }

  /** Learns the source, then picks the egress ports; the frame itself is never changed. */
  function Forward(sw: Switch, ingress: PortId, frame: Bytes): (Switch, set<PortId>)
  {
    if ingress !in sw.ports then (sw, {})
    else
      match Parse(frame)
      case None => (sw, {})
      case Some(parsed) =>
        var network := sw.ports[ingress];
        var learned := sw.(recent := Lru.Touch(sw.recent, MAC_TABLE_CAPACITY, ingress, parsed.src));
        (learned,
         if IsLocalUnicast(frame) then UnicastEgress(learned, network, ingress, parsed.dst)
         else FloodSet(sw.ports, network, ingress))
  }

  /** Egress never leaves the ingress network, never echoes, and needs a live ingress port. */
  lemma ForwardStaysOnNetwork(sw: Switch, ingress: PortId, frame: Bytes, port: PortId)
    requires port in Forward(sw, ingress, frame).1
    ensures ingress in sw.ports && port in sw.ports && port != ingress
    ensures sw.ports[port] == sw.ports[ingress]
  {}

  // ---- runs of the switch ----------------------------------------------------------

  datatype Op = Add(port: PortId, network: string) | Remove(port: PortId) | Frame(port: PortId, frame: Bytes)

  function Apply(sw: Switch, op: Op): Switch
  {
    match op
    case Add(p, n) => AddPort(sw, p, n)
    case Remove(p) => RemovePort(sw, p)
    case Frame(p, f) => Forward(sw, p, f).0
  }

  function Run(ops: seq<Op>): Switch
  {
    if ops == [] then EMPTY else Apply(Run(ops[..|ops| - 1]), ops[|ops| - 1])
  }

  /** Source MACs of the frames accepted during a run, with their ports, oldest first. */
  function Heard(ops: seq<Op>): seq<Lru.Binding>
  {
    if ops == [] then [] else Heard(ops[..|ops| - 1]) + HeardFrom(Run(ops[..|ops| - 1]), ops[|ops| - 1])
  }

  /** What one operation tells the switch: the source of a frame from a live port. */
  function HeardFrom(sw: Switch, op: Op): seq<Lru.Binding>
  {
    if op.Frame? && op.port in sw.ports && Parse(op.frame).Some?
    then [Lru.Binding(Parse(op.frame).value.src, op.port)] else []
  }

  lemma {:induction false} TableIsHistory(ops: seq<Op>)
    ensures Run(ops).recent == Lru.Learned(Heard(ops), MAC_TABLE_CAPACITY)
  {
    if ops != [] {
      var init := ops[..|ops| - 1];
      TableIsHistory(init);
      FrameIsLearned(Run(init), Heard(init), ops[|ops| - 1]);
    }
  }

  /** One operation extends the table as its heard source, if any, extends the history. */
  lemma FrameIsLearned(sw: Switch, heard: seq<Lru.Binding>, op: Op)
    requires sw.recent == Lru.Learned(heard, MAC_TABLE_CAPACITY)
    ensures Apply(sw, op).recent == Lru.Learned(heard + HeardFrom(sw, op), MAC_TABLE_CAPACITY)
  {
    var h := heard + HeardFrom(sw, op);
    if HeardFrom(sw, op) != [] {
      assert h[..|h| - 1] == heard;
    } else {
      assert h == heard;
    }
  }

  /**
    Unicast delivery over any run: after a frame sent to `d`, if `i` is the last time `d`
    was heard (counting the sender of this very frame) and fewer than 1024 other MACs
    were heard since, the frame reaches exactly the port `d` was last heard on; nobody if
    that port is the sender or gone; and it floods if that port has moved network, or if 1024
    or more other MACs were heard since.
   */
  lemma UnicastReachesLastPort(ops: seq<Op>, ingress: PortId, frame: Bytes, i: nat)
    requires ingress in Run(ops).ports && Parse(frame).Some? && IsLocalUnicast(frame)
    requires var h := Heard(ops + [Frame(ingress, frame)]);
      && i < |h| && h[i].mac == Parse(frame).value.dst
      && h[i].mac !in Lru.NewerMacs(h, i)
    ensures var h := Heard(ops + [Frame(ingress, frame)]);
      var q, ports := h[i].port, Run(ops).ports;
      Forward(Run(ops), ingress, frame).1 ==
      if |Lru.NewerMacs(h, i)| >= MAC_TABLE_CAPACITY then FloodSet(ports, ports[ingress], ingress)
      else if q == ingress || q !in ports then {}
      else if ports[q] == ports[ingress] then {q}
      else FloodSet(ports, ports[ingress], ingress)
  {
    var all := ops + [Frame(ingress, frame)];
    assert all[..|all| - 1] == ops;
    TableIsHistory(ops);
    UnicastByHistory(Run(ops), Heard(ops), ingress, frame, i);
  }

  /** The same for any switch whose table is what `heard` taught it. */
  lemma UnicastByHistory(sw: Switch, heard: seq<Lru.Binding>, ingress: PortId, frame: Bytes, i: nat)
    requires sw.recent == Lru.Learned(heard, MAC_TABLE_CAPACITY)
    requires ingress in sw.ports && Parse(frame).Some? && IsLocalUnicast(frame)
    requires var h := heard + HeardFrom(sw, Frame(ingress, frame));
      i < |h| && h[i].mac == Parse(frame).value.dst && h[i].mac !in Lru.NewerMacs(h, i)
    ensures var h := heard + HeardFrom(sw, Frame(ingress, frame));
      var q, ports := h[i].port, sw.ports;
      Forward(sw, ingress, frame).1 ==
      if |Lru.NewerMacs(h, i)| >= MAC_TABLE_CAPACITY then FloodSet(ports, ports[ingress], ingress)
      else if q == ingress || q !in ports then {}
      else if ports[q] == ports[ingress] then {q}
      else FloodSet(ports, ports[ingress], ingress)
  {
    FrameIsLearned(sw, heard, Frame(ingress, frame));
    Lru.HoldsMostRecent(heard + HeardFrom(sw, Frame(ingress, frame)), MAC_TABLE_CAPACITY, i);
  }

  /** A destination never heard, and any group destination, floods the whole segment. */
  lemma UnknownFloods(ops: seq<Op>, ingress: PortId, frame: Bytes)
    requires ingress in Run(ops).ports && Parse(frame).Some?
    requires IsLocalUnicast(frame) ==>
      forall b :: b in Heard(ops + [Frame(ingress, frame)]) ==> b.mac != Parse(frame).value.dst
    ensures Forward(Run(ops), ingress, frame).1 == FloodSet(Run(ops).ports, Run(ops).ports[ingress], ingress)
  {
    var all := ops + [Frame(ingress, frame)];
    assert all[..|all| - 1] == ops;
    TableIsHistory(ops);
    UnknownByHistory(Run(ops), Heard(ops), ingress, frame);
  }

  lemma UnknownByHistory(sw: Switch, heard: seq<Lru.Binding>, ingress: PortId, frame: Bytes)
    requires sw.recent == Lru.Learned(heard, MAC_TABLE_CAPACITY)
    requires ingress in sw.ports && Parse(frame).Some?
    requires IsLocalUnicast(frame) ==>
      forall b :: b in heard + HeardFrom(sw, Frame(ingress, frame)) ==> b.mac != Parse(frame).value.dst
    ensures Forward(sw, ingress, frame).1 == FloodSet(sw.ports, sw.ports[ingress], ingress)
  {
    if IsLocalUnicast(frame) {
      FrameIsLearned(sw, heard, Frame(ingress, frame));
      NeverHeard(heard + HeardFrom(sw, Frame(ingress, frame)), MAC_TABLE_CAPACITY, Parse(frame).value.dst);
    }
  }

  lemma {:induction false} NeverHeard(h: seq<Lru.Binding>, capacity: nat, mac: Mac)
    requires forall b :: b in h ==> b.mac != mac
    ensures Lru.Find(Lru.Learned(h, capacity), mac).None?
    ensures mac !in Lru.Macs(Lru.Learned(h, capacity))
  {
    if h != [] {
      var init, e := h[..|h| - 1], h[|h| - 1];
      assert e in h;
      NeverHeard(init, capacity, mac);
      var l := Lru.Learned(init, capacity);
      Lru.TakeMacs(Lru.Push(l, e.port, e.mac), capacity);
      assert Lru.Push(l, e.port, e.mac)[1..] == Lru.Without(l, e.mac);
      FindAbsent(Lru.Learned(h, capacity), mac);
    }
  }

  lemma {:induction false} FindAbsent(l: Lru.Recency, mac: Mac)
    requires mac !in Lru.Macs(l)
    ensures Lru.Find(l, mac).None?
  {
    if l != [] {
      FindAbsent(l[1..], mac);
    }
  }

  // ---- the engine object -----------------------------------------------------------

  class Engine {
    var ports: map<PortId, string>
    const table: Lru.MacTable

    ghost predicate Valid()
      reads this, table
    {
      table.Valid() && table.capacity == MAC_TABLE_CAPACITY
    }

    ghost function View(): Switch
      reads this, table
    {
      Switch(ports, table.recent)
    }

    constructor ()
      ensures Valid() && View() == EMPTY && fresh(table) && table.clock == 0
    {
      ports := map[];
      table := new Lru.MacTable(MAC_TABLE_CAPACITY);
    }

    method Add(port: PortId, network: string)
      requires Valid()
      modifies this
      ensures Valid() && View() == AddPort(old(View()), port, network)
    {
      ports := ports[port := network];
    }

    method Remove(port: PortId) returns (live: bool)
      requires Valid()
      modifies this
      ensures Valid() && View() == RemovePort(old(View()), port)
      ensures live == (port in old(ports))
    {
      live := port in ports;
      ports := ports - {port};
    }

    method Flood(network: string, exclude: PortId) returns (out: set<PortId>)
      ensures out == FloodSet(ports, network, exclude)
    {
      out := {};
      var rest := ports.Keys;
      while rest != {}
        invariant rest <= ports.Keys
        invariant out == set p | p in ports && p !in rest && p != exclude && ports[p] == network
      {
        var p :| p in rest;
        if p != exclude && ports[p] == network {
          out := out + {p};
        }
        rest := rest - {p};
      }
    }

    method Unicast(network: string, ingress: PortId, dst: Mac) returns (out: set<PortId>)
      requires Lru.Mirrors(table.entries, table.recent)
      ensures out == UnicastEgress(View(), network, ingress, dst)
    {
      var learned := table.Lookup(dst);
      match learned {
        case None =>
          out := Flood(network, ingress);
        case Some(port) =>
          if port == ingress || port !in ports {
            out := {};
          } else if ports[port] == network {
            out := {port};
          } else {
            out := Flood(network, ingress);
          }
      }
    }

    /** One frame through the engine; at the clock's last tick it still delivers, but may leave stamps out of order. */
    method Deliver(ingress: PortId, frame: Bytes) returns (out: set<PortId>)
      requires Valid()
      modifies table
      ensures (View(), out) == Forward(old(View()), ingress, frame)
      ensures table.clock <= old(table.clock) + 1
      ensures Valid() <==>
        || old(table.clock) + 1 < Lru.CLOCK_MODULUS || ingress !in ports || Parse(frame).None?
        || old(Lru.Only(table.entries, Parse(frame).value.src))
    {
      out := {};
      if ingress !in ports {
        return;
      }
      var parsed := Parse(frame);
      if parsed.None? {
        return;
      }
      table.Learn(ingress, parsed.value.src);
      if IsLocalUnicast(frame) {
        out := Unicast(ports[ingress], ingress, parsed.value.dst);
      } else {
        out := Flood(ports[ingress], ingress);
      }
    }
  }
}
