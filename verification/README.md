# k8netd verification

k8netd is a rootless userspace L2 switch for virtual machines, with a JSON-RPC control plane,
per-network address allocation, DHCP, a gateway function and one passt WAN process per port.
This project models its core in Dafny and proves what that core keeps, over every run where the
property is about runs. `dafny verify dfyconfig.toml` checks all of it.

How the model is laid out:

| file | what it models |
|---|---|
| `Base`, `Arith` | machine-width types, byte order, division and sequence facts |
| `Lru`, `Frames`, `Fabric` | the MAC table, Ethernet parsing, the forwarding engine |
| `Cidr`, `Ipam`, `Text`, `Snapshot`, `Dhcp` | CIDR blocks and pools, the allocator, its text form, the DHCP server |
| `Publish`, `Passt` | the host-port table; the passt slot with its restart backoff |
| `Framing`, `Ring` | the length-prefixed passt stream; the RX vring service |
| `Checksum`, `Replies`, `Gateway` | the Internet checksum, the IPv4 parser, ICMP, UDP and ARP replies |
| `Daemon` | the shared state, every RPC, the frame pump, the supervisor, crashes and restarts, as a state machine |
| `Wiring`, `Isolation`, `Delivery`, `Reservation`, `Coherence`, `Durability` | what every run of that state machine keeps |
| `Supervision`, `Readers` | each port's passt slot paced over timed runs; the ingress reader threads |
| `Rpcs` | what each RPC means to its caller, and what undoes it |
| `Limits` | promises it does not keep, each with a run or an input |
| `StateFile`, `Dataplane` | the save sequence and the RPC methods as the source runs them, step by step |

Values first, objects on top: each stateful object of the source (`MacTable`, `Engine`,
`Allocator`, `Server`, `Registry`, `PasstReader`, `RxQueue`, `StateDir`, `Dataplane`) is a class
whose methods update fields in place and are proved equal to a function on values; the properties
are lemmas about those functions. `Dataplane` holds the real `Engine`, `Registry` and `StateDir` and
carries its history as ghost state: it is at all times the state machine run on that history, so the
theorems about runs are theorems about the object. Each network's bindings are a value in its map, as
the source owns them; `Allocator` proves the pool scan itself.

What the environment decides is a parameter: whether a save, a bind or a spawn succeeds, whether a
process has exited, what the clock reads, what DHCP and DNS answered, whether the build checks
arithmetic for overflow, and which durable content a power loss leaves.

Where the code and its own documentation disagree, the model follows the code, and the exact
condition is proved:

- The IPv4 parser is documented never to panic. It reads past a 14-byte IPv4 frame, inside the
  pump, with the state lock held (`Replies.ParsePanicsIff`, `Isolation.PumpPanicsIff`,
  `Limits.RuntPoisonsLock`). The model carries the poisoned lock as part of the state.
- The same parser is documented never to misread. It finds protocol and addresses from the end of
  the header, so with IP options it takes option bytes for addresses (`Replies.ParseAgreesIff`,
  `Limits.OptionsMisread`).
- Echo replies are meant to reflect the request with addresses swapped. Requests in the TTL-less
  layout, which the parser accepts, or with options are answered by frames that do not
  (`Replies.EchoReflectsIff`, `Replies.EchoReplyParses`, `Limits.TtlLessPingUnreadable`).
- Echo replies are meant to carry recomputed checksums. The sum is kept in 32 bits, and nothing caps
  a guest frame: past 131074 bytes of ICMP it can overflow, which panics a build with overflow checks
  and gives a checksum that does not verify in one without (`Replies.EchoPanicsIff`,
  `Replies.EchoReplyVerifies`, `Limits.LongPingPoisonsLock`, `Limits.LongPingUnverified`).
- The passt reader checks a frame for six bytes and slices twelve, so it dies on lengths 6 to 11
  (`Framing.DeliverableIsExact`).
- Every attached VM is meant to have a WAN process. Unpublishing a port's last forward stops it
  (`Coherence.SlotsKeptUnlessLastUnpublished`, `Limits.UnpublishingEndsWan`).
- A port's ingress is meant to reach that port. A reader that has not retired when its port is
  deleted and created again adopts the new port's passt (`Readers.StepOwned`,
  `Limits.OldReaderStealsFrames`).
- AttachPort starts passt without the forwards a restart restored
  (`Limits.AttachIgnoresRestoredForwards`, `Limits.RestoredForwardIsLost`).
- Nothing stops deleting a network in use, releasing an attached MAC or attaching a MAC twice
  (`Reservation.StepReserved`, `Limits.DeletedNetworkStrandsPort`, `Limits.ReleasedMacStrandsPort`,
  `Limits.MacAttachedTwice`).
- A save that fails leaves the publish table and the slots apart (`Coherence.StepCoherent`,
  `Limits.FailedDetachKeepsSlot`, `Limits.FailedPublishForwardsNothing`).
- DHCP runs on a copy of the live bindings, so an offer to a MAC without a reservation is
  forgotten (`Dhcp.DaemonHonoursOnlyReservations`, `Dhcp.DaemonOffersCoincide`,
  `Limits.OfferIsForgotten`).
- The DHCP server's comment that the pool never holds 0.0.0.0 is not enforced
  (`Dhcp.BareRequestRefused`, `Limits.BareRequestAcknowledged`).
- Reconnect recovery of in-flight RX chains needs the first service call to come before the guest
  posts anything newer (`Ring.RecoveryIsExact`, `Limits.LateReconnectSkips`).

`K8NETD_PUBLISH_RANGE` is parsed and never handed to the dataplane, so the model's range is the
constant 20000 to 21000.

## Model

| member | source | states |
|---|---|---|
| `Lru.MacTable.Learn` | crates/k8netd-core/src/switch/mac_table.rs:59-86 | the clocked map with its least-stamp eviction moves exactly as a recency list does, and lookups always follow that list; the stamps stop representing it iff the 64-bit clock wraps with another MAC in a table of capacity above one |
| `Lru.MacTable.Lookup` | crates/k8netd-core/src/switch/mac_table.rs:89-91 | the map lookup is the lookup in the recency list |
| `Lru.MacTable.Evict` | crates/k8netd-core/src/switch/mac_table.rs:94-96 | deletes the MAC from the recency list and reports whether it was there |
| `Lru.MacTable.OldestMac` | crates/k8netd-core/src/switch/mac_table.rs:70-74 | the minimum scan returns an entry with the least stamp |
| `Lru.OldestIsLast` | crates/k8netd-core/src/switch/mac_table.rs:70-77 | stamps are distinct, so the victim is unique: it is the last of the recency list |
| `Lru.HoldsMostRecent` | crates/k8netd-core/src/switch/mac_table.rs:23-29 | after any history of learns, a MAC is found iff fewer than `capacity` distinct MACs were learned after it, and then on its last port |
| `Fabric.ForwardStaysOnNetwork` | crates/k8netd-core/src/switch/engine.rs:82-131 | egress ports are live, on the ingress port's network, and never the ingress port |
| `Fabric.UnicastReachesLastPort` | crates/k8netd-core/src/switch/engine.rs:82-118 | over any run of port changes and frames, a unicast frame goes exactly to the port its destination was last heard on, to nobody if that is the sender or a dead port, and floods if that port is on another network or 1024 or more other MACs were heard since |
| `Fabric.UnknownFloods` | crates/k8netd-core/src/switch/engine.rs:93-131 | group frames and frames to a MAC never heard go to every other port of the network |
| `Fabric.Engine.Deliver` | crates/k8netd-core/src/switch/engine.rs:82-99 | the engine object over the real MAC table delivers and learns as specified on every call; the table stays consistent iff its clock does not wrap past another MAC |
| `Fabric.Engine.Flood` | crates/k8netd-core/src/switch/engine.rs:124-130 | the filter loop collects exactly the other live ports of the network |
| `Cidr.MaskClearsHost` | crates/k8netd-core/src/model.rs:59-65 | anding with the shifted mask clears exactly the host bits, for every prefix 0 to 32 |
| `Cidr.BlankMeans` | crates/k8netd-core/src/model.rs:136-139 | a name is blank iff all its characters are Unicode white space |
| `Cidr.BlockIsRange` | crates/k8netd-core/src/model.rs:59-65 | a block without host bits is exactly the 2^(32 - prefix) addresses from its own |
| `Cidr.BlockIsConvex` | crates/k8netd-core/src/model.rs:59-65 | everything between two members of a block is a member |
| `Cidr.AcceptedIffWellFormed` | crates/k8netd-core/src/model.rs:136-168 | a network is accepted iff its name is not blank, its block has no host bits, its whole pool lies in the block and the gateway lies in the block but not in the pool |
| `Ipam.AllocateMeans` | crates/k8netd-core/src/ipam.rs:109-123 | a bound MAC keeps its address; a new one gets the least unbound pool address; failure changes nothing; bindings stay injective and in the pool |
| `Ipam.ExhaustedIffFull` | crates/k8netd-core/src/ipam.rs:109-123 | allocation fails iff the MAC is unbound and the number of bindings equals the pool size |
| `Ipam.RunsStaySound` | crates/k8netd-core/src/ipam.rs:35-44 | over any run on an accepted network bindings are injective, in the CIDR, never the gateway, and unreleased MACs keep their address |
| `Ipam.ReleaseFreesExactly` | crates/k8netd-core/src/ipam.rs:129-134 | release frees that MAC's address and no other |
| `Ipam.Allocator.Bind` | crates/k8netd-core/src/ipam.rs:109-123 | the pool scan loop computes the specified allocation |
| `Ipam.Allocator.Free` | crates/k8netd-core/src/ipam.rs:129-134 | removes the binding, or reports an unknown MAC and changes nothing |
| `Text.MacRoundTrip` | crates/k8netd-core/src/model.rs:187-214 | parsing inverts printing for every MAC |
| `Text.ParseIgnoresCase` | crates/k8netd-core/src/model.rs:190-203 | parsing a MAC does not depend on the case of its digits |
| `Text.HexByteAccepted` | crates/k8netd-core/src/model.rs:190-203 | an octet parses iff it is two hex digits of either case, or a plus sign and one, which reads as a leading zero |
| `Text.MacTextLooks` | crates/k8netd-core/src/model.rs:206-214 | a MAC prints as six lower-case octets, high digit first, between colons |
| `Text.ReadMac` | crates/k8netd-core/src/model.rs:190-203 | the parsing loop over an octet array computes the specified parse |
| `Text.IpTextIsCanonical` | crates/k8netd-core/src/ipam.rs:61-86 | an address in a snapshot parses iff it is the canonical dotted text of that address |
| `Snapshot.MacTextInjective` | crates/k8netd-core/src/model.rs:206-214 | printed MACs are distinct, so a snapshot map loses nothing |
| `Snapshot.RestoreInvertsSave` | crates/k8netd-core/src/ipam.rs:61-86 | restoring a saved allocator in any reading order gives back exactly its bindings |
| `Snapshot.AcceptedIsSound` | crates/k8netd-core/src/ipam.rs:71-86 | any accepted snapshot yields an injective in-pool table, even when several texts name one MAC |
| `Snapshot.ReadSnapshot` | crates/k8netd-core/src/ipam.rs:71-86 | the restoring loop, stopping at the first error, computes the specified restore |
| `Dhcp.BindingsNeverChange` | crates/k8netd-svc/src/dhcp.rs:89-120 | over any messages to one server, existing bindings never change |
| `Dhcp.ProcessAnswers` | crates/k8netd-svc/src/dhcp.rs:61-148 | exactly which messages are answered: a discover is offered an address iff there is one for the MAC, a request is acknowledged iff it names the MAC's own address and refused otherwise; answers echo hardware address, transaction and flags, and every grant leases for an hour with the gateway as server, router and resolver and the network's mask |
| `Dhcp.GrantsAreExclusive` | crates/k8netd-svc/src/dhcp.rs:89-120 | two granted addresses anywhere in a run are equal iff they were granted to the same MAC |
| `Dhcp.OffersAreHonoured` | crates/k8netd-svc/src/dhcp.rs:97-120 | after an offer, the MAC's request by option 50 or by ciaddr alone is acknowledged iff it names the offered address |
| `Dhcp.BareRequestRefused` | crates/k8netd-svc/src/dhcp.rs:103-109 | a request naming no address is refused in every state iff the pool does not start at 0.0.0.0 |
| `Dhcp.DaemonHonoursOnlyReservations` | crates/k8netd/src/dataplane.rs:722-726 | with a fresh server per exchange an offer is later acknowledged iff the MAC already held a reservation |
| `Dhcp.DaemonOffersCoincide` | crates/k8netd/src/dataplane.rs:722-726 | with a fresh server per exchange all unreserved MACs are offered the same address |
| `Dhcp.Server.Handle` | crates/k8netd-svc/src/dhcp.rs:61-120 | the handler over the allocator object changes bindings and answers as specified |
| `Publish.AllocateMeans` | crates/k8netd-core/src/model.rs:325-333 | a held pair keeps its host port; a new one gets the least unused of the range; it fails iff new and the range is all in use, changing nothing; other pairs are untouched and host ports stay distinct |
| `Publish.RemoveMeans` | crates/k8netd-core/src/model.rs:310-317 | frees exactly the named pair, whose host port is then unused, and drops a port with no entries left |
| `Publish.RemovePortMeans` | crates/k8netd-core/src/model.rs:305-307 | frees exactly the port's entries |
| `Publish.Registry.Claim` | crates/k8netd-core/src/model.rs:325-333 | collecting the used ports and scanning the range computes the specified allocation |
| `Publish.Registry.Withdraw` | crates/k8netd-core/src/model.rs:310-317 | the in-place removal computes the specified one |
| `Passt.ForwardsDetermineSlice` | crates/k8netd-svc/src/passt.rs:123-130 | the forward list is the slice in ascending vm_port order and determines it, so comparing configurations detects every change |
| `Passt.BackoffIsWait` | crates/k8netd/src/dataplane.rs:972-975 | the clamped shift and saturating count give min(100 * 2^(k-1), 2000) ms for every k, between 100 and 2000 |
| `Passt.EnsureMeans` | crates/k8netd/src/dataplane.rs:877-912 | a process already running the configuration is left alone; anything else is one spawn, ending running with no failures or backed off one step further, the learned MAC kept |
| `Passt.SuperviseMeans` | crates/k8netd/src/dataplane.rs:933-968 | a tick tries a slot that is down iff its retry time has come; a process found dead leaves it down with one failure for 100 ms; else nothing changes |
| `Passt.RunHealthy` | crates/k8netd/src/dataplane.rs:859-975 | over any timed run slots rest clean or backed off, supervisor spawns come at least 100 ms after the previous attempt of any kind, and k failures in a row wait min(100 * 2^(k-1), 2000) ms |
| `Passt.TickAttempts` | crates/k8netd/src/dataplane.rs:933-968 | in such a run a tick makes exactly one attempt if the slot is down and due, or has just crashed and is due, and none otherwise |
| `Framing.DecodeEncode` | crates/k8netd-svc/src/passt.rs:134-159 | decoding an encoding followed by anything gives the frame |
| `Framing.LengthInFront` | crates/k8netd-svc/src/passt.rs:134-143 | an encoding is the frame's length in four bytes, most significant first, then the frame |
| `Framing.ChunkingIndependent` | crates/k8netd/src/dataplane.rs:808-853 | for any frames and any cutting of any prefix of their stream, exactly the completed frames come out in order, a strict prefix of the next encoding is held, nothing is discarded |
| `Framing.DeliverableIsExact` | crates/k8netd/src/dataplane.rs:820-848 | a frame survives every legal chunking iff its length is not 6 to 11 and is at most 1 MiB - 3 |
| `Framing.UplinkIsLastSource` | crates/k8netd/src/dataplane.rs:820-834 | whatever bytes arrive and however they are cut, the uplink MAC is bytes 6 to 11 of the last frame handed out that has them, and none if none has |
| `Framing.PasstReader.Read` | crates/k8netd/src/dataplane.rs:820-848 | the draining loop over the growing buffer computes the specified step |
| `Ring.ServiceServes` | crates/k8netd-vhost/src/port.rs:263-342 | a call serves the chains from next_used on, in order, and leaves next_avail equal to next_used, when steady and when all posted chains are in flight |
| `Ring.ServeMeans` | crates/k8netd-vhost/src/port.rs:296-338 | chains complete in order, no frame is lost, a frame is dropped only when it and its header exceed the chain, and service stops only for want of chains or frames |
| `Ring.SteadyNeverRecovers` | crates/k8netd-vhost/src/port.rs:278-291 | in a steady session the rewind never fires |
| `Ring.RecoveryIsExact` | crates/k8netd-vhost/src/port.rs:269-291 | the in-flight chains are served next, whatever is queued, iff next_avail equals next_used or the posted index |
| `Ring.RunAccounted` | crates/k8netd-vhost/src/port.rs:263-342 | over any interleaving of posts, injections and calls each posted chain completes at most once and in order, consumed plus queued frames are the injected ones in order, across index wraps; after a call no chain is left unless the next needs a frame and none is queued |
| `Ring.ReconnectServesInFlight` | crates/k8netd-vhost/src/port.rs:278-336 | after a reconnect with next_avail at the posted index, in-flight and later chains complete at most once in order over every later interleaving, and after the first and every later call none is left unless the next needs a frame and none is queued |
| `Ring.RxQueue.Serve` | crates/k8netd-vhost/src/port.rs:263-342 | the rewind, the service loop and the completions compute the specified call |
| `Ring.RxQueue.Walk` | crates/k8netd-vhost/src/port.rs:296-338 | the loop with its step back on a dry channel computes the specified scan |
| `Ring.RxQueue.Complete` | crates/k8netd-vhost/src/port.rs:379-389 | all chains are appended to the used ring in order |
| `Checksum.FoldMeans` | crates/k8netd/src/dataplane.rs:1085-1087 | folding keeps the residue modulo 65535 and maps only zero to zero |
| `Checksum.StoredSumVerifies` | crates/k8netd/src/dataplane.rs:1076-1089 | storing the checksum in its zeroed even-offset field makes the data check to zero |
| `Checksum.AccumulatorIsEnough` | crates/k8netd/src/dataplane.rs:1077-1084 | a 32-bit accumulator holds every sum over n bytes iff n is at most 131074 |
| `Checksum.StoredSum32Verifies` | crates/k8netd/src/dataplane.rs:1076-1089 | the 32-bit checksum stored in its zeroed field makes the data check to zero iff the accumulator wrapped a multiple of 65535 times |
| `Checksum.Compute` | crates/k8netd/src/dataplane.rs:1076-1089 | the summing and folding loops give the checksum of the wrapped sum, or trap iff the build checks arithmetic and the words sum beyond 32 bits, for data of any length |
| `Replies.ParsePanicsIff` | crates/k8netd/src/dataplane.rs:997-1029 | the parser reads out of bounds iff the frame is 14 bytes with the IPv4 ethertype |
| `Replies.EchoPanicsIff` | crates/k8netd/src/dataplane.rs:1035-1084 | building an echo reply panics iff the frame is 14 bytes of IPv4, or the build checks arithmetic and the frame is an echo request to the gateway whose ICMP words sum beyond 32 bits |
| `Replies.ParseAgreesIff` | crates/k8netd/src/dataplane.rs:997-1029 | what the parser reads is what the header fields of RFC 791 say iff a routable byte stands eleven before the header's end and the bytes there repeat the header's protocol and addresses; without options, iff the layout is the standard one |
| `Replies.EchoReplyVerifies` | crates/k8netd/src/dataplane.rs:1035-1073 | every echo reply is an IPv4 frame to the VM's MAC from the gateway's 02:00 MAC; its IP header verifies, the source field is the gateway, the destination field is the request's source field, and behind the header all but the first, third and fourth byte is unchanged, which is the ICMP message in the standard layout and all but its first byte in the TTL-less one; those bytes verify iff the 32-bit sum wrapped a multiple of 65535 times, so always up to 131074 bytes |
| `Replies.EchoReplyParses` | crates/k8netd/src/dataplane.rs:1005-1073 | the reply to an option-less request parses, and is its reflection with addresses swapped and message echoed, iff the request is in the standard layout |
| `Replies.EchoReflectsIff` | crates/k8netd/src/dataplane.rs:1031-1073 | every answered request not claiming to come from the gateway is answered by its reflection iff it has no options and the standard layout |
| `Replies.WrapUdpIsReply` | crates/k8netd/src/dataplane.rs:1102-1144 | a wrapped reply byte by byte: to the VM's MAC and the reply address, or broadcast on both layers iff that is unspecified, from the gateway's MAC and address, TTL 64, no options, do not fragment, then ports, length, no checksum and the payload |
| `Replies.WrapUdpRoundTrip` | crates/k8netd/src/dataplane.rs:1102-1144 | a wrapped reply parses back to gateway, destination or broadcast, UDP, with a valid header; the payload survives iff at most 65527 bytes and the total length is right iff at most 65507 |
| `Frames.ParseMeans` | crates/k8netd-core/src/switch/frame.rs:57-78 | a frame parses iff it has its 14 bytes of header, or 18 with a tag; the ethertype is the header's last two bytes, the payload the rest |
| `Gateway.ArpReplyMeans` | crates/k8netd-core/src/switch/gateway.rs:125-225 | a reply is to the requester from the gateway, tells it the gateway's hardware and protocol address, repeats the requester's two addresses, and is never itself answered |
| `Wiring.StepWired` | crates/k8netd/src/dataplane.rs:324-621 | ids and names stay inverse, ids below the next id, each port's attachment equal in port record, switch and gateway, and gateway networks equal to the allocators', after every event, failures midway included, iff it does not create a port under the last 32-bit id |
| `Wiring.RunWired` | crates/k8netd/src/dataplane.rs:131-203 | that invariant holds in every reachable state |
| `Isolation.PumpStaysHome` | crates/k8netd/src/dataplane.rs:632-695 | a pump answers the port that now has its name, feeds that port's passt, or copies unchanged to its own id's segment |
| `Isolation.StalePump` | crates/k8netd/src/dataplane.rs:632-695 | a pump whose id is gone reaches no segment; with no port of its name left it is silent iff the frame is not for the learned MAC of a running passt left behind under that name |
| `Isolation.NetworksAreIsolated` | crates/k8netd/src/dataplane.rs:632-695 | in every reachable state a frame from a port attached to n leads only to the sender, the sender's passt, or unmodified copies to other ports attached to n |
| `Isolation.UnattachedReachNoNetwork` | crates/k8netd/src/dataplane.rs:405-409 | ports on the blank network reach no attached port |
| `Isolation.GroupFrameReachesAll` | crates/k8netd/src/dataplane.rs:683-694 | a group frame no seam claims, ARP broadcasts for peers and IP multicast included, reaches exactly the other ports attached to the network |
| `Isolation.GatewayFramesGoToOwnPasst` | crates/k8netd/src/dataplane.rs:665-670 | an unanswered IPv4 frame to the gateway MAC goes to the sender's running passt and nowhere else |
| `Isolation.UplinkFramesGoToOwnPasst` | crates/k8netd/src/dataplane.rs:675-682 | a frame no service, ARP or echo answer takes, to the MAC learned from the sender's running passt, goes to that passt and nowhere else |
| `Isolation.PasstGetsOnlyItsOwn` | crates/k8netd/src/dataplane.rs:659-682 | a running passt is sent only whole IPv4 frames to the gateway's MAC, or frames to passt's own MAC |
| `Isolation.GatewayArpIsAnswered` | crates/k8netd/src/dataplane.rs:642-648 | an ARP frame from an attached port is answered, to the requester and nowhere else, iff it is a standard request for the gateway's address, and with the gateway's hardware address |
| `Isolation.ServiceMeans` | crates/k8netd/src/dataplane.rs:707-761 | what the service seam does with a parsed frame: a datagram from port 68 to 67 gets the DHCP answer back at the sender's MAC and the offered address, one to port 53 at the gateway the DNS answer back at the asking address and port, everything else and every unserved port nothing |
| `Isolation.ServiceIsAllThatHappens` | crates/k8netd/src/dataplane.rs:637-641 | a service answer is injected into the asking port and is all that comes of the frame |
| `Isolation.PingIsAnswered` | crates/k8netd/src/dataplane.rs:652-658 | every ordinary echo request to the gateway is answered into the asking port alone, with valid checksums |
| `Isolation.ServicesAnswerAsGateway` | crates/k8netd/src/dataplane.rs:707-761 | every service reply parses as UDP from the port's own gateway with a valid header |
| `Isolation.PumpPanicsIff` | crates/k8netd/src/dataplane.rs:632-658 | the pump panics iff an attached, configured port sends a 14-byte frame with the IPv4 ethertype or, in a build that checks arithmetic, an echo request to the gateway whose ICMP words sum beyond 32 bits |
| `Isolation.OrdinaryFramesDoNotPanic` | crates/k8netd/src/dataplane.rs:632-658 | no frame of 15 to 131108 bytes panics the pump, in any build |
| `Delivery.TableIsHistory` | crates/k8netd/src/dataplane.rs:683-690 | in every reachable state the MAC table is exactly what the frames switched since the last start taught a 1024-entry table |
| `Delivery.TableIsTaught` | crates/k8netd/src/dataplane.rs:683-690 | every learned binding came from a frame that was switched, since the daemon last started, from that port id with that source |
| `Delivery.NewerPortsTeachThemselves` | crates/k8netd/src/dataplane.rs:405-409 | a binding for an id not yet handed out after k events was taught by a later frame |
| `Delivery.StaleEntriesMissNewerPorts` | crates/k8netd/src/dataplane.rs:405-409 | a unicast frame switched to a port created after k events either went to the whole segment or that very port sent from the destination MAC after those k events |
| `Delivery.UnicastDelivered` | crates/k8netd/src/dataplane.rs:683-694 | in every run an unclaimed unicast frame from an attached port reaches exactly the port its destination was last heard on since the start, nobody if that is the sender or off the switch, and the whole segment if that port moved network or 1024 or more other MACs were heard since |
| `Delivery.UnheardReachesSegment` | crates/k8netd/src/dataplane.rs:683-694 | a frame to a MAC not heard since the start reaches exactly the other ports attached to the network |
| `Reservation.StepReserved` | crates/k8netd/src/dataplane.rs:361-555 | reservations (each attached MAC bound, with one holder) survive an event iff it does not delete a network in use, release an attached MAC or attach a MAC a second time to a network; failed saves, panics, restarts and power losses included |
| `Reservation.RunReserved` | crates/k8netd/src/dataplane.rs:425-531 | over every run that respects those three, each attached port's MAC is bound on its network and held by that port alone |
| `Reservation.AddressesAreDistinct` | crates/k8netd/src/dataplane.rs:481-493 | with reservations held, distinct attached ports of a network have distinct addresses inside its pool |
| `Reservation.DepartureFreesOneBinding` | crates/k8netd/src/dataplane.rs:428-440 | with reservations held, detach and delete free exactly the port's binding, even when the save then fails, and every other port keeps its address |
| `Reservation.RefusedAttachChangesNothing` | crates/k8netd/src/dataplane.rs:471-486 | an attach refused with conflict or not_found leaves the whole state unchanged |
| `Reservation.DhcpGrantsReservation` | crates/k8netd/src/dataplane.rs:722-726 | with reservations held, the per-exchange DHCP server offers and acknowledges an attached port's MAC exactly its reserved address, refuses it any other, and grants that address to no other MAC |
| `Coherence.StepCoherent` | crates/k8netd/src/dataplane.rs:361-620 | reservations and forwards together survive an event iff it passes a check on the state before it; every other failure midway keeps them |
| `Coherence.RunCoherent` | crates/k8netd/src/dataplane.rs:425-620 | over every run of passing events each attached port has its own binding, unattached ports have nothing published and no slot, and each slot wants exactly its port's address and published slice |
| `Coherence.SlotMeans` | crates/k8netd-svc/src/passt.rs:105-131 | a coherent slot's passt is run with the port's reserved address, the network's gateway and mask, and exactly its published entries by ascending VM port |
| `Coherence.SlotsKeptUnlessLastUnpublished` | crates/k8netd/src/dataplane.rs:497-505 | in any state, failed saves, restarts and broken reservations included, every attached port keeps its passt slot through an event iff it does not unpublish an attached port's last forward |
| `Coherence.RunHasSlots` | crates/k8netd/src/dataplane.rs:497-505 | over every run from the first start in which no attached port's last forward is unpublished, every attached port has its slot |
| `Coherence.RunAtRest` | crates/k8netd/src/dataplane.rs:859-968 | in every reachable state each slot is live with no failure, or down with a failure and a retry time |
| `Supervision.StepSlot` | crates/k8netd/src/dataplane.rs:859-968 | every event acts on every port's slot exactly as the one-slot machine does on what the event asks of it |
| `Supervision.RunPaced` | crates/k8netd/src/dataplane.rs:859-975 | over every daemon run whose clock does not go back, each port's slot is that of a healthy machine: spawns spaced, failures counted, waits min(100 * 2^(k-1), 2000) ms |
| `Supervision.SupervisorSpawnsAreSpaced` | crates/k8netd/src/dataplane.rs:933-968 | in such runs every supervisor spawn for a port comes at least 100 ms after the attempt before it |
| `Supervision.TickRestarts` | crates/k8netd/src/dataplane.rs:933-968 | in every run a tick restarts a slot that is down iff its retry time has come, ending running or backed off one step further, leaves running ones alone, takes down those found dead, and touches nothing else |
| `Supervision.TickAttempts` | crates/k8netd/src/dataplane.rs:933-968 | in every timed run such a tick makes exactly one attempt and every other tick none |
| `Readers.StepOwned` | crates/k8netd/src/dataplane.rs:288-316 | readers serve the port of their name and its slot after an event or reader step iff it does not create a port under a name that still has a reader or a slot |
| `Readers.FramesArriveHome` | crates/k8netd/src/dataplane.rs:288-316 | over every run that frees names first, a frame read from a port's passt is injected into that very port's channel |
| `Readers.ReadMeans` | crates/k8netd/src/dataplane.rs:816-843 | a frame read is injected unchanged while the channel is open, unless its length is 6 to 11, which kills the reader; bytes 6 to 11 become the slot's learned MAC and nothing else in the daemon changes |
| `Readers.LookMeans` | crates/k8netd/src/dataplane.rs:290-308 | a reader with no stream adopts the running passt of its name if it can be cloned, retires if there is neither such a passt nor a port, and otherwise waits |
| `Readers.EndsMeans` | crates/k8netd/src/dataplane.rs:309-316 | when its stream ends a reader lives on with nothing adopted |
| `StateFile.SaveRefinesWrite` | crates/k8netd-core/src/state.rs:225-258 | wherever a save stops, the readable content and what a power loss may leave change as the save's outcome says |
| `StateFile.CrashSeesOldOrNew` | crates/k8netd-core/src/state.rs:222-258 | at every crash point a reload gives the new table whole or one loadable before, never a torn one; after success, the new one |
| `StateFile.StateDir.Save` | crates/k8netd-core/src/state.rs:225-258 | the write, sync, rename, sync sequence with its early exits |
| `Durability.StartMeans` | crates/k8netd/src/dataplane.rs:179-203 | a new life has a free lock, nothing in any map, ids from 1, and the publish table that is on disk, or the durable one a power loss left |
| `Durability.StepInSync` | crates/k8netd/src/dataplane.rs:217-258 | memory and disk part iff an event changes the publish table and its save does not succeed |
| `Durability.InSyncSinceLastSave` | crates/k8netd/src/dataplane.rs:179-258 | whatever failed before, after a successful save disk and memory hold the same publish table through any run, with its panics, restarts and power losses, in which no save fails |
| `Durability.HostPortSurvives` | crates/k8netd/src/dataplane.rs:557-593 | a saved pair keeps its host port through any run of RPCs, failed saves, panics, restarts and power losses that does not free it; republishing returns it and no other pair gets it |
| `Limits.DeletedNetworkStrandsPort` | crates/k8netd/src/dataplane.rs:361-368 | a concrete run: deleting a network in use leaves an attached port with no reservation |
| `Limits.UnpublishingEndsWan` | crates/k8netd/src/dataplane.rs:596-604 | a concrete run: publish then unpublish leaves an attached port with no passt slot |
| `Limits.AttachIgnoresRestoredForwards` | crates/k8netd/src/dataplane.rs:497-505 | after an attach the slot's forwards match the publish table iff the table held nothing for the port |
| `Limits.RestoredForwardIsLost` | crates/k8netd/src/dataplane.rs:179-185 | a concrete run: attach, publish, restart, create and attach again leaves the restored entry unforwarded |
| `Limits.ReleasedMacStrandsPort` | crates/k8netd/src/dataplane.rs:544-555 | a concrete run: releasing an attached MAC leaves an attached port with no reservation |
| `Limits.MacAttachedTwice` | crates/k8netd/src/dataplane.rs:466-496 | a concrete run: one MAC attached on two ports of a network gives both one address |
| `Limits.FailedDetachKeepsSlot` | crates/k8netd/src/dataplane.rs:526-529 | a concrete run: a detach whose save fails leaves a passt slot for an unattached port |
| `Limits.FailedPublishForwardsNothing` | crates/k8netd/src/dataplane.rs:569-578 | a concrete run: a publish whose save fails leaves an entry that passt does not forward |
| `Limits.RuntPoisonsLock` | crates/k8netd/src/dataplane.rs:1005-1010 | a concrete run: one 14-byte frame poisons the lock and every later RPC does nothing |
| `Limits.TtlLessPingUnreadable` | crates/k8netd/src/dataplane.rs:1005-1073 | a concrete request in the TTL-less layout, answered with a frame the daemon's own parser rejects |
| `Limits.OptionsMisread` | crates/k8netd/src/dataplane.rs:1005-1029 | a concrete datagram with options whose destination is read as its source, its options as its destination and UDP as ICMP |
| `Limits.OldReaderStealsFrames` | crates/k8netd/src/dataplane.rs:288-316 | a concrete run: the reader of a deleted port adopts the passt of the port created again under its name |
| `Limits.LongPingPoisonsLock` | crates/k8netd/src/dataplane.rs:1076-1084 | a concrete frame: an echo request with 131080 bytes of ones poisons the lock in a build that checks arithmetic |
| `Limits.LongPingUnverified` | crates/k8netd/src/dataplane.rs:1076-1089 | the same frame is answered with an ICMP checksum that does not verify in a build that does not |
| `Limits.BareRequestAcknowledged` | crates/k8netd-svc/src/dhcp.rs:103-109 | an accepted network with a pool from 0.0.0.0, on which a request naming no address is acknowledged |
| `Limits.OfferIsForgotten` | crates/k8netd/src/dataplane.rs:722-726 | an offer made to a MAC without a reservation and refused in the next exchange |
| `Limits.LateReconnectSkips` | crates/k8netd-vhost/src/port.rs:278-291 | a two-slot ring on which a chain posted before the first service call after a reconnect is completed in place of the one in flight |
| `Rpcs.CreateNetworkMeans` | crates/k8netd/src/dataplane.rs:324-359 | refused iff the name is taken with other parameters or the parameters are not acceptable, then changing nothing; otherwise the network exists as described, even after a failed save, which alone decides the result; repeating the call changes nothing, and deleting it brings back the exact earlier state |
| `Rpcs.DeleteNetworkMeans` | crates/k8netd/src/dataplane.rs:361-368 | refused iff unknown, and then without effect although the gateway is touched first; otherwise the name is gone from allocators and gateway, all else as it was, and the save decides the result |
| `Rpcs.CreatePortMeans` | crates/k8netd/src/dataplane.rs:381-423 | nothing changes for a name in use or a socket that cannot be bound; otherwise the new port is unattached under an id nothing has carried, and deleting it brings back the exact earlier state but for the spent id and what was recorded under the name |
| `Rpcs.DeletePortMeans` | crates/k8netd/src/dataplane.rs:425-453 | refused without effect iff unknown; otherwise nothing of the port or its id is left in any map, its slot staying only when the save failed, other ports as they were |
| `Rpcs.AttachPortMeans` | crates/k8netd/src/dataplane.rs:466-509 | something changes iff the port is free, the network exists and the pool can serve the MAC; then the port holds the MAC's old or the least free address and its slot wants that address without forwards, even when spawn or save failed, and every other port, binding and slot is as it was; the result is Ok iff the slot is up and saved, and every refusal has its code |
| `Rpcs.DetachPortMeans` | crates/k8netd/src/dataplane.rs:511-531 | a known port always leaves network, switch and gateway; the call ends there with not_found iff its reservation is already gone, its entries and slot left behind; otherwise entries go, the slot too unless the save failed, and the result is Ok iff the save succeeded |
| `Rpcs.DetachUndoesAttach` | crates/k8netd/src/dataplane.rs:466-531 | attaching under an unbound MAC and detaching brings back the exact earlier state but for the port's switch entry, slot and published entries |
| `Rpcs.AllocateIpMeans` | crates/k8netd/src/dataplane.rs:533-555 | fails iff the network is unknown or the pool is used up by other MACs, without effect; otherwise the address is in the pool, the MAC's alone and the same on repetition, and releasing a new binding brings back the exact earlier state |
| `Rpcs.ReleaseIpMeans` | crates/k8netd/src/dataplane.rs:544-555 | refused without effect iff network or binding is unknown; otherwise frees that address and no other, even when the save failed |
| `Rpcs.PublishPortMeans` | crates/k8netd/src/dataplane.rs:557-594 | refused without effect iff the port is unattached or the pair is new and the range is all in use; otherwise the pair alone holds a host port, even when the rest fails, and other pairs are unchanged; the slot wants the reserved address and exactly the entries iff the save succeeded and the port is reserved, and the result is that host port iff the slot is then up |
| `Rpcs.UnpublishPortMeans` | crates/k8netd/src/dataplane.rs:596-620 | refused without effect iff the pair is not published; otherwise the pair alone leaves the table, even when the rest fails; after a save the slot goes with the last entry or follows those left, and the result is Ok iff it went or is up; a published new pair is undone to the exact earlier table |
| `Dataplane.Dataplane.constructor` | crates/k8netd/src/dataplane.rs:168-203 | a daemon started again on a state directory stands where the state machine stands after the restart or power loss that ended the last life |
| `Dataplane.Dataplane.ValidIsWired` | crates/k8netd/src/dataplane.rs:131-203 | the object, being the state machine run on its history, always has agreeing maps |
| `Dataplane.Dataplane.Dispatch` | crates/k8netd-rpc/src/server.rs:63-83 | any RPC on the maps, the engine, the registry and the state directory appends one event to the history the object is the run of, and keeps it valid iff it does not take the last port id; a poisoned lock is reported and changes nothing |
| `Dataplane.Dataplane.EnsurePasst` | crates/k8netd/src/dataplane.rs:859-913 | one slot is left alone, restarted or backed off in place as specified |
| `Dataplane.Dataplane.Supervise` | crates/k8netd/src/dataplane.rs:933-968 | a supervisor tick on the slot map is one event of the history |
| `Dataplane.Dataplane.PumpFrame` | crates/k8netd/src/dataplane.rs:632-695 | a frame is one event of the history, sends exactly what that event sends, and from an attached port reaches only that port, its passt, or unchanged the other ports of its network; the object stays valid unless the table's clock wraps |

## Left out

- vhost-user handshake, epoll, eventfds, guest memory and the accept loop: foreign crates. The vring has only the queue operations the service uses, and indexes are compared with the queue crate's own bound on new chains.
- `service_tx` and the vnet header helpers: a straight drain, one frame per chain; they would only add easy members.
- The twelve zero bytes written before a delivered frame and the used length reported for its chain: one constant each.
- Errors raised inside one RX service call (an unmappable chain, a failed used-ring write): runs are error-free.
- Process spawning, signals, socketpairs and the passt argument strings: spawn and exit are outcomes; configurations carry addresses as numbers.
- Two readers of one stream racing for its bytes, and bytes still buffered in an adopted stream: a reader reads whole frames of the passt it adopted.
- What the DHCP and DNS services are asked: their answers to a datagram are parameters of the pump; the DHCP server itself is `Dhcp`.
- DHCP and DNS wire codecs, JSON, serde and the version 1 state migration: messages and parameters are datatypes, and the state file is its publish table, the only part startup restores.
- The DNS forwarder: one short first-match loop.
- GetNetwork, GetPort, the JSON-RPC envelope, flags and logging: single-branch facts.
- `MemoryControlPlane`: reference code that differs from the daemon.
- Parsing of CIDR text and of RPC parameters: handlers take decoded values.
- The order in which flooded copies are sent: egress is a set.
- Wiring.RunWired: runs stop before a port is created under the last 32-bit id; `Wiring.StepWired` shows that exactly this event breaks the invariant. The model lets the counter wrap there, as a build without overflow checks does; a checked build panics instead.
- Dataplane.Dataplane.PumpFrame: after the MAC table's 64-bit clock wraps past another entry, further calls are not covered; `Lru.MacTable.Learn` states what the wrap does.
