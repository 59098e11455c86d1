/** The DHCP server over one allocator (dhcp.rs), on decoded messages. */
module Dhcp {
  import opened Base
  import opened Cidr
  import opened Ipam

  const LEASE_SECONDS: u32 := 3600

  datatype Kind = Discover | Request | Other

  /** A decoded request; `kind` is its message-type option, `requested` its option 50. */
  datatype Message = Message(
    bootRequest: bool, ethernet: bool, chaddr: Mac, kind: Option<Kind>,
    requested: Option<Ip>, ciaddr: Ip, xid: u32, flags: u16)

  datatype ReplyKind = Offer | Ack | Nak

  datatype Lease = Lease(server: Ip, mask: u32, router: Ip, dns: Ip, seconds: u32)

  datatype Reply = Reply(kind: ReplyKind, chaddr: Mac, yiaddr: Ip, xid: u32, flags: u16, lease: Option<Lease>)

  /** The address a REQUEST asks for: option 50, else the client's own address. */
  function Wanted(msg: Message): Ip
  {
    if msg.requested.Some? then msg.requested.value else msg.ciaddr
  }

  function Grant(net: Network, msg: Message, kind: ReplyKind, ip: Ip): Reply
  {
    Reply(kind, msg.chaddr, ip, msg.xid, msg.flags,
          Some(Lease(net.gateway, Mask(net.cidr.prefix), net.gateway, net.gateway, LEASE_SECONDS)))
  }

  function Refuse(msg: Message): Reply
  {
    Reply(Nak, msg.chaddr, 0, msg.xid, msg.flags, None)
  }

  /** One message: the bindings after it, and the answer if there is one. */
  function Process(net: Network, t: Table, msg: Message): (Table, Option<Reply>)
  {
    if !msg.bootRequest || !msg.ethernet || msg.kind.None? then (t, None)
    else
      match msg.kind.value
      case Other => (t, None)
      case Discover =>
        var (t', r) := Allocate(net, t, msg.chaddr);
        if r.Ok? then (t', Some(Grant(net, msg, Offer, r.value))) else (t, None)
      case Request =>
        if Lookup(t, msg.chaddr) == Some(Wanted(msg)) then (t, Some(Grant(net, msg, Ack, Wanted(msg))))
        else (t, Some(Refuse(msg)))
  }

  /** The reply repeats the request's hardware address, transaction and flags. */
  predicate Echoes(reply: Reply, msg: Message)
  {
    reply.chaddr == msg.chaddr && reply.xid == msg.xid && reply.flags == msg.flags
  }

  /** The lease on a network: an hour, the gateway as server, router and resolver, the network's own mask. */
  predicate LeaseOn(lease: Lease, net: Network)
  {
    && lease.server == net.gateway && lease.router == net.gateway && lease.dns == net.gateway
    && lease.seconds == 3600 && lease.mask == 0x1_0000_0000 - Pow2(32 - net.cidr.prefix)
  }

  /**
    Exactly which messages are answered, and with what. A discover is offered the MAC's address,
    or a newly bound one, iff there is one for it; a request is acknowledged for the address it
    names (option 50, else its ciaddr) iff that is the MAC's own, and refused with no lease
    otherwise; anything else is ignored. Every answer echoes its message, and every grant leases on the network.
   */
  lemma ProcessAnswers(net: Network, t: Table, msg: Message)
    requires WellFormed(net) && Sound(net, t)
    ensures var (t', r) := Process(net, t, msg);
      var asked := msg.bootRequest && msg.ethernet && msg.kind.Some?;
      var named := if msg.requested.Some? then msg.requested.value else msg.ciaddr;
      && (r.Some? ==> Echoes(r.value, msg))
      && (if asked && msg.kind.value == Discover && CanServe(net, t, msg.chaddr) then
            && r.Some? && r.value.kind == Offer && Lookup(t', msg.chaddr) == Some(r.value.yiaddr)
            && r.value.lease.Some? && LeaseOn(r.value.lease.value, net)
          else if asked && msg.kind.value == Request then
            && t' == t && r.Some?
            && (if Lookup(t, msg.chaddr) == Some(named)
                then r.value.kind == Ack && r.value.yiaddr == named
                     && r.value.lease.Some? && LeaseOn(r.value.lease.value, net)
                else r.value.kind == Nak && r.value.yiaddr == 0 && r.value.lease.None?)
          else t' == t && r.None?)
  {
    ServesIff(net, t, msg.chaddr);
    AllocateMeans(net, t, msg.chaddr);
    MaskValue(net.cidr.prefix);
  }

  // ---- runs of one server ---------------------------------------------------------------

  function After(net: Network, t: Table, msgs: seq<Message>): Table
  {
    if msgs == [] then t else Process(net, After(net, t, msgs[..|msgs| - 1]), msgs[|msgs| - 1]).0
  }

  /** The answer to the `i`-th message of a run. */
  function Answer(net: Network, t: Table, msgs: seq<Message>, i: nat): Option<Reply>
    requires i < |msgs|
  {
    Process(net, After(net, t, msgs[..i]), msgs[i]).1
  }

  ghost predicate Extends(small: Table, big: Table)
  {
    forall m :: m in small ==> m in big && big[m] == small[m]
  }

  lemma ProcessKeeps(net: Network, t: Table, msg: Message)
    requires WellFormed(net) && Sound(net, t)
    ensures var (t', r) := Process(net, t, msg);
      && Sound(net, t') && Extends(t, t')
      && (r.Some? && r.value.kind != Nak ==>
            r.value.chaddr == msg.chaddr && Lookup(t', msg.chaddr) == Some(r.value.yiaddr))
  {
    AllocateMeans(net, t, msg.chaddr);
  }

  /** Existing bindings never change, and the table stays injective and in the pool. */
  lemma {:induction false} BindingsNeverChange(net: Network, t: Table, msgs: seq<Message>, i: nat)
    requires WellFormed(net) && Sound(net, t) && i <= |msgs|
    ensures Sound(net, After(net, t, msgs))
    ensures Extends(After(net, t, msgs[..i]), After(net, t, msgs))
    decreases |msgs|
  {
    if i == |msgs| {
      assert msgs[..i] == msgs;
    }
    if msgs != [] {
      var init := msgs[..|msgs| - 1];
      if i < |msgs| {
        BindingsNeverChange(net, t, init, i);
        assert init[..i] == msgs[..i];
      } else {
        BindingsNeverChange(net, t, init, 0);
      }
      ProcessKeeps(net, After(net, t, init), msgs[|msgs| - 1]);
    }
  }

  /** An address granted at step `i` is bound to the grantee at every later point. */
  lemma GrantIsBound(net: Network, t: Table, msgs: seq<Message>, i: nat)
    requires WellFormed(net) && Sound(net, t) && i < |msgs|
    requires Answer(net, t, msgs, i).Some? && Answer(net, t, msgs, i).value.kind != Nak
    ensures Lookup(After(net, t, msgs), msgs[i].chaddr) == Some(Answer(net, t, msgs, i).value.yiaddr)
    ensures Answer(net, t, msgs, i).value.chaddr == msgs[i].chaddr
  {
    BindingsNeverChange(net, t, msgs[..i], 0);
    ProcessKeeps(net, After(net, t, msgs[..i]), msgs[i]);
    assert msgs[..i + 1][..i] == msgs[..i];
    BindingsNeverChange(net, t, msgs, i + 1);
  }

  /** No address is granted to two MACs, whether offered or acknowledged, anywhere in a run. */
  lemma GrantsAreExclusive(net: Network, t: Table, msgs: seq<Message>, i: nat, j: nat)
    requires WellFormed(net) && Sound(net, t) && i < |msgs| && j < |msgs|
    requires Answer(net, t, msgs, i).Some? && Answer(net, t, msgs, i).value.kind != Nak
    requires Answer(net, t, msgs, j).Some? && Answer(net, t, msgs, j).value.kind != Nak
    ensures Answer(net, t, msgs, i).value.yiaddr == Answer(net, t, msgs, j).value.yiaddr
      <==> Answer(net, t, msgs, i).value.chaddr == Answer(net, t, msgs, j).value.chaddr
  {
    GrantIsBound(net, t, msgs, i);
    GrantIsBound(net, t, msgs, j);
    BindingsNeverChange(net, t, msgs, 0);
  }

  /** A REQUEST is acknowledged exactly when it asks for the MAC's own address; that includes every earlier offer. */
  lemma OffersAreHonoured(net: Network, t: Table, msgs: seq<Message>, i: nat, j: nat)
    requires WellFormed(net) && Sound(net, t) && i < j < |msgs|
    requires Answer(net, t, msgs, i).Some? && Answer(net, t, msgs, i).value.kind == Offer
    requires msgs[j].bootRequest && msgs[j].ethernet && msgs[j].kind == Some(Request)
    requires msgs[j].chaddr == msgs[i].chaddr
    ensures Answer(net, t, msgs, j).Some?
    ensures Answer(net, t, msgs, j).value.kind == Ack
      <==> Wanted(msgs[j]) == Answer(net, t, msgs, i).value.yiaddr
    ensures Answer(net, t, msgs, j).value.kind == Ack ==> Answer(net, t, msgs, j).value.yiaddr == Wanted(msgs[j])
  {
    assert msgs[..j][..i] == msgs[..i];
    GrantIsBound(net, t, msgs[..j], i);
  }

  /** A request naming no address at all is refused in every state iff the pool does not hold 0.0.0.0. */
  lemma BareRequestRefused(net: Network, msg: Message)
    requires WellFormed(net) && msg.bootRequest && msg.ethernet && msg.kind == Some(Request) && Wanted(msg) == 0
    ensures net.pool.start > 0
      <==> forall t: Table :: Sound(net, t) ==> Process(net, t, msg).1 == Some(Refuse(msg))
  {
    if net.pool.start == 0 {
      var t: Table := map[msg.chaddr := 0];
      assert Sound(net, t);
      assert Process(net, t, msg).1 != Some(Refuse(msg));
    }
  }

  // ---- the daemon's use: a fresh server on a copy of the live bindings per exchange ---------

  /** Over a copy, an offer outlives its exchange iff the MAC already held a reservation. */
  lemma DaemonHonoursOnlyReservations(net: Network, live: Table, offer: Message, request: Message)
    requires WellFormed(net) && Sound(net, live)
    requires Process(net, live, offer).1.Some? && Process(net, live, offer).1.value.kind == Offer
    requires request.bootRequest && request.ethernet && request.kind == Some(Request)
    requires request.chaddr == offer.chaddr && Wanted(request) == Process(net, live, offer).1.value.yiaddr
    ensures Process(net, live, request).1.value.kind == Ack <==> offer.chaddr in live
  {}

  /** Over a copy, all MACs without a reservation are offered one and the same address. */
  lemma DaemonOffersCoincide(net: Network, live: Table, a: Message, b: Message)
    requires WellFormed(net) && Sound(net, live)
    requires a.chaddr !in live && b.chaddr !in live
    requires Process(net, live, a).1.Some? && Process(net, live, a).1.value.kind == Offer
    requires b.bootRequest && b.ethernet && b.kind == Some(Discover)
    ensures Process(net, live, b).1.Some?
      && Process(net, live, b).1.value.yiaddr == Process(net, live, a).1.value.yiaddr
  {}

  class Server {
    const ipam: Allocator

    constructor (ipam: Allocator)
      ensures this.ipam == ipam
    {
      this.ipam := ipam;
    }

    method Handle(msg: Message) returns (reply: Option<Reply>)
      requires ipam.Valid()
      modifies ipam
      ensures ipam.Valid() && (ipam.allocations, reply) == Process(ipam.network, old(ipam.allocations), msg)
    {
      if !msg.bootRequest || !msg.ethernet || msg.kind.None? {
        return None;
      }
      match msg.kind.value {
        case Other =>
          return None;
        case Discover =>
          var bound := Lookup(ipam.allocations, msg.chaddr);
          if bound.Some? {
            return Some(Grant(ipam.network, msg, Offer, bound.value));
          }
          var bind := ipam.Bind(msg.chaddr);
          if bind.Err? {
            return None;
          }
          return Some(Grant(ipam.network, msg, Offer, bind.value));
        case Request =>
          if Lookup(ipam.allocations, msg.chaddr) == Some(Wanted(msg)) {
            return Some(Grant(ipam.network, msg, Ack, Wanted(msg)));
          }
          return Some(Refuse(msg));
      }
    }
  }
}
