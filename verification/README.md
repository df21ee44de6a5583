# FSR control plane in Dafny

This project models the control plane of an FSR (Fisheye State Routing)
node, a link-state MANET routing protocol implemented in `Fsr.cc` / `Fsr.h`.
It covers five parts:

- the wire format (`serializeFsrPacket`, `deserializeFsrPacket`);
- handling of received HELLO and LSP packets (`processFsrPacket`,
  `processHello`, `processLSP`), including the freshness gate and the
  relay decision;
- construction of the HELLO and LSP packets a node originates
  (`sendHelloPacket`, `sendTopologyUpdate`), which share one sequence
  counter;
- the neighbour set with its timeout timers, and aging of the topology
  table (`addNeighbor`, `removeNeighbor`, `decrementAge`, `initNode`);
- the route computation (`calculateShortestPath`, `updateRoutes`): a
  unit-weight Dijkstra seeded with the live neighbours. For every
  destination it records a first hop: the second node of a walk from this
  node that reaches the destination.

The modules follow that structure:

| file | module | contents |
|---|---|---|
| numeric.dfy | `Numeric`, `Wrappers` | fixed-width integer types, `++` on `uint32_t`, signed-to-unsigned conversion, `Option` and `Result` |
| codec.dfy | `Codec` | packet datatypes, encoder, decoder, round trip, robustness |
| ordered.dfy | `Ordered` | ascending enumeration of a set of addresses (`std::set` order) |
| topology.dfy | `Topology` | topology entries, initNode, LSP acceptance, aging |
| neighbors.dfy | `Neighbors` | neighbour set and timer keys |
| routing.dfy | `Routing` | calculateShortestPath and updateRoutes, with the loop invariant, the run of the loop as a sequence of visits, and a reachability reference |
| routing_examples.dfy | `RoutingExamples` | concrete topologies: a line, two equal-length paths, a phantom that takes the last visit, and the visit-cap counterexample |
| flooding.dfy | `Flooding` | node state, packet handlers, relaying, packet origination |
| node.dfy | `Node` | the event loop that ties handlers, timers and route recomputation together |

## How the source's types are modelled

**Integers**
- Addresses are their 32-bit integer value (`Addr = U32`).
- `++sequenceNumber` and `age++` wrap explicitly at 2^32 (`WrapInc`).
- The encoder's `uint8_t` and `uint16_t` casts are written as `% 0x100` and `% 0x1_0000`.

**Collections**
- `std::set` and `std::map` are Dafny `set` and `map`.
- Their ascending iteration order is made explicit by `Ordered.Ascending` wherever it matters:
  - the neighbour list of an originated LSP;
  - the key scan that selects the next node in Dijkstra.

**`dist` default reads**
- `dist` is read through `operator[]` (`Routing.Get`).
- A link-set member that is neither a neighbour nor a topology key (a "phantom") is therefore inserted at distance 0. It keeps that distance and never gets a first hop.

**Parameters instead of hidden values**
- The numeric HELLO and LSP type codes come from generated message code, so they are parameters (`Flooding.Config`), required to differ.
- `lifeTime` is a signed `int` compared against a `uint32_t` age, so it is converted to unsigned first (`Topology.AgeLimit`). With `lifeTime = -1`, entries never expire.

**Behaviour of the code worth noting** (the model follows it):
- An LSP's L3 sender is not added as a neighbour; only HELLOs do that.
- Every installed route has metric 1. Direct neighbours get no route.
- The node's own topology entry is never refreshed from its neighbour set. It is the empty entry from initNode until one of its own LSPs comes back from a neighbour, or until decrementAge erases it after lifeTime + 1 ticks (it is aged like every other entry). A returning own LSP passes the self-drop, which checks the L3 sender, and then overwrites the entry.
- The decoder rejects every buffer of 11 bytes or fewer. It is not "fewer than 11": the up-front check passes 11 bytes, but the entry-count bounds check then fails.

## Model

| member | source | states |
|---|---|---|
| Numeric.WrapInc | Fsr.cc:883 | pre-increment of the `uint32_t` counter: one more, except UINT32_MAX wraps to 0 |
| Numeric.ToUnsigned | Fsr.cc:1164 | the signed `lifeTime` as the comparison with a `uint32_t` sees it: unchanged when non-negative, at least 2^31 when negative, congruent mod 2^32 |
| Codec.EncodeHeader | Fsr.cc:686-708 | the fixed header is exactly 12 bytes; Codec.HeaderFields states where each field lands |
| Codec.EncodeEntry | Fsr.cc:712-732 | no contract of its own: one entry's bytes, with the neighbour count cut to 16 bits; Codec.EntryFields states how they read back |
| Codec.EntryFields | Fsr.cc:712-732 | an encoded entry reads back as its address and neighbour count, followed by the encoded neighbours |
| Codec.Encode | Fsr.cc:681-737 | no contract of its own: Codec.RoundTrip, Codec.EncodedLength and Codec.PrefixRejected state what the encoding promises |
| Codec.DecodeAddrs | Fsr.cc:653-665 | a successful read of n neighbours yields exactly n addresses; Codec.DecodeAddrsBounds states when it fails |
| Codec.DecodeEntries | Fsr.cc:626-668 | a successful read of n entries yields exactly n entries; Codec.DecodeEntriesEncode and Codec.PrefixRejected state what they contain and when reading fails |
| Codec.Decode | Fsr.cc:573-679 | every buffer of at most 11 bytes is rejected; on success, type and hop are the bytes at offsets 0 and 9, and source and sequence number are the big-endian words at offsets 1 and 5 |
| Codec.Be32Inverse | Fsr.cc:592-597 | reading back the four big-endian bytes the encoder writes gives the original 32-bit value |
| Codec.ReadU32Inverse | Fsr.cc:689-693 | the four bytes read as a 32-bit word encode back to the same bytes |
| Codec.HeaderFields | Fsr.cc:686-708 | the encoded header puts type, source, sequence number, hop and entry count where the decoder reads them, followed by the encoded entries |
| Codec.DecodeAddrsEncode | Fsr.cc:653-665 | the neighbour loop reads back exactly the encoded addresses and leaves the following bytes |
| Codec.DecodeEntriesEncode | Fsr.cc:626-668 | the entry loop reads back every encoded entry, stamped with the packet's sequence number, and leaves the following bytes |
| Codec.RoundTrip | Fsr.cc:573-737 | if type and hop fit a byte and every count fits 16 bits, decoding an encoding followed by any bytes restores every field in order; every entry's sequence number becomes the packet's |
| Codec.RoundTripExact | Fsr.cc:643 | a packet whose entries already carry the packet's sequence number comes back unchanged |
| Codec.EncodedLength | Fsr.cc:681-737 | the encoding is 12 bytes plus 6 + 4 * neighbours per entry |
| Codec.DecodeAddrsBounds | Fsr.cc:653-657 | reading n neighbours fails exactly when fewer than 4n bytes remain, and otherwise consumes exactly 4n bytes |
| Codec.PrefixRejected | Fsr.cc:615-657 | every strict prefix of a valid encoding is rejected |
| Codec.DecodeConsumes | Fsr.cc:573-679 | a decoded packet is well formed, its entries carry its sequence number, and its re-encoding is a prefix of the input |
| Codec.TrailingIgnored | Fsr.cc:669-673 | appending bytes to a decodable buffer does not change what it decodes to |
| Ordered.Ascending | Fsr.h:83 | the elements of a set as a strictly increasing sequence with the same members |
| Ordered.AscendingUnique | Fsr.cc:896-898 | any strictly increasing enumeration of a set (the iteration of a `std::set`) is the ascending one |
| Topology.InitNode | Fsr.cc:1173-1180 | the own entry becomes (empty, 0, 0); no other entry changes and no other key appears |
| Topology.LinkSet | Fsr.cc:806-818 | an address is in the stored link set iff it is some entry's node or one of its neighbours |
| Topology.IsFresh | Fsr.cc:790-797 | no contract of its own: the freshness test (unknown originator, or a strictly higher sequence number), specified through Topology.ApplyLsp and Topology.AcceptedThenStale |
| Topology.ApplyLsp | Fsr.cc:787-818 | accepted iff the originator is unknown or the sequence number is higher; rejection leaves the table unchanged; acceptance sets the originator's entry to (link set, seq, age 0) and changes no other entry |
| Topology.AcceptedThenStale | Fsr.cc:790-797 | after an LSP is accepted, it and every older LSP from that originator are rejected without change |
| Topology.DecrementAge | Fsr.cc:1159-1171 | every age goes up by one (wrapping as `uint32_t`); exactly the entries whose new age exceeds the limit are removed; link sets and sequence numbers are untouched |
| Topology.AgedWithin | Fsr.cc:1159-1171 | after aging every remaining age is within the limit |
| Topology.TicksAge | Fsr.cc:1159-1171 | below UINT32_MAX, an entry of age a is present after k ticks iff a + k <= limit, with age a + k and otherwise unchanged |
| Topology.ExpiresAfterLifetime | Fsr.cc:1159-1180 | an entry created at age 0 is still present after `lifeTime` ticks and gone after `lifeTime + 1` |
| Topology.NeverExpires | Fsr.cc:1163-1164 | with `lifeTime = -1` aging never removes an entry |
| Neighbors.AddNeighbor | Fsr.cc:1113-1140 | the set gains exactly the argument; a new neighbour gets a timer; a known one leaves both sets as they were |
| Neighbors.RemoveNeighbor | Fsr.cc:1142-1152 | the argument leaves the set and its timer is gone; no other address changes |
| Neighbors.AddIdempotent | Fsr.cc:1113-1140 | adding a neighbour twice equals adding it once |
| Neighbors.SyncedPreserved | Fsr.cc:1113-1152 | both operations keep the timer keys equal to the neighbour set |
| Neighbors.RemoveUndoesAdd | Fsr.cc:1113-1152 | removing a just-added new neighbour restores the table |
| Neighbors.AddUndoesRemove | Fsr.cc:1113-1152 | re-adding a just-removed neighbour restores a synced table |
| Routing.Seed | Fsr.cc:997-1008 | no contract of its own: the state before the loop, specified through Routing.SeedInv |
| Routing.SeedInv | Fsr.cc:997-1008 | the seeded state (self 0, topology nodes UINT32_MAX, neighbours 1 with themselves as first hop) satisfies the loop invariant |
| Routing.Scan | Fsr.cc:1017-1023 | no contract of its own: the strict-`<` scan, specified through Routing.ScanFinds and Routing.ScanKeeps |
| Routing.SelectMin | Fsr.cc:1012-1027 | no contract of its own: the selection over the ascending keys of `dist`, specified through Routing.SelectMinSpec |
| Routing.ScanFinds | Fsr.cc:1017-1023 | the strict-`<` scan over ascending keys returns the unvisited key that is least by distance, then by address |
| Routing.ScanKeeps | Fsr.cc:1017-1023 | with nothing unvisited below the current minimum the scan keeps its candidate |
| Routing.SelectMinSpec | Fsr.cc:1012-1027 | the selection returns the (distance, address)-least unvisited node, and returns nothing exactly when every unvisited node is at UINT32_MAX |
| Routing.NextUnique | Fsr.cc:1017-1023 | the tie-break is total: at most one node is selected |
| Routing.SelectMinOnly | Fsr.cc:1012-1027 | whichever node is (distance, address)-least among the unvisited nodes below UINT32_MAX is the one the scan selects |
| Routing.Relax | Fsr.cc:1032-1047 | each unvisited link-set member of the visited node is lowered to its distance + 1 if that is smaller, taking the node itself or the visited node's first hop as first hop; everything else is unchanged |
| Routing.VisitOne | Fsr.cc:1029-1047 | the selected node joins the visited set and every member of its link set is relaxed as Routing.Relax states (nothing when it has no topology entry) |
| Routing.NextVisitable | Fsr.cc:1025-1029 | the selected node is unvisited and is one of the addresses the tables mention; if it has a topology entry, it is self or already has a first hop |
| Routing.VisitInv | Fsr.cc:1029-1047 | one visit keeps every part of the loop invariant (seeds, first-hop fixpoints, visit order, frontier, soundness, provenance of each lowered distance and first hop, and ties between a visited and an unvisited node broken by address) |
| Routing.VisitTies | Fsr.cc:1017-1047 | after a visit, a visited node at the same distance as an unvisited, non-zero one has the smaller address, because the scan takes ties in ascending address order |
| Routing.ProvenanceLowered | Fsr.cc:1032-1043 | a node lowered by the visit of c is at distance dist[c] + 1 with first hop taken from c, and c is the earliest visited node listing it in (distance, address) order |
| Routing.ProvenanceKept | Fsr.cc:1032-1043 | a node the visit does not lower keeps its distance, its first hop and the visited node it was first reached from, which stays the earliest lister because later visits come after it in (distance, address) order and the strict `<` never lowers on a tie |
| Routing.VisitProvenance | Fsr.cc:1029-1047 | after a visit, every node at a finite distance other than self and the neighbours was reached from a visited node listing it, at that node's distance + 1, with that node's first hop, and that node is the earliest lister in (distance, address) order |
| Routing.HopWalk | Fsr.cc:1004-1043 | every address with a first hop is reached along a walk from self whose first step is that first hop: a neighbour directly, a node reached from self directly, and any other node through the node it inherited its first hop from |
| Routing.Iterate | Fsr.cc:1011-1048 | one loop iteration visits exactly the selected node as Routing.Visit states, keeps the invariant and takes a state of the run one step further; no selection means nothing is left |
| Routing.RunSearch | Fsr.cc:997-1048 | the loop ends in the state of the run after as many visits as it made, with the invariant, and either nothing left to visit or (as written) the topology size + 1 nodes visited, never more |
| Routing.VisitDeterministic | Fsr.cc:1012-1047 | from one state there is one visit: the tie-break selects one node and relaxation has one outcome |
| Routing.AfterVisitsInv | Fsr.cc:997-1048 | every state of the run, from the seeded one on, satisfies the loop invariant |
| Routing.AfterVisitsCount | Fsr.cc:1011-1029 | after k visits exactly k nodes are visited |
| Routing.AfterVisitsUnique | Fsr.cc:997-1048 | there is one state of the run after k visits |
| Routing.AfterVisitsEarlier | Fsr.cc:1025 | every state before the last one on a run still had a node to select, so the loop did not break there |
| Routing.EarlierNotHalted | Fsr.cc:1011-1025 | no state before a halted one on the run is itself halted: the loop stops at the first state where nothing is left or the cap is reached |
| Routing.RunUnique | Fsr.cc:997-1048 | the loop has one outcome: two states of the run at which it stops, with the same cap setting, are equal |
| Routing.InvConsequences | Fsr.cc:997-1048 | self keeps its seed, neighbours are their own first hop at distance 1, exactly the neighbours and reached non-self topology nodes have a first hop, `prev[prev[d]] == prev[d]` with `prev[d]` a neighbour or in self's link set, `prev[d]` is the first step of a walk from self to d, and only reachable nodes are visited |
| Routing.ShortestPaths | Fsr.cc:981-1048 | the facts of InvConsequences for the finished computation, which is the state of the run where the loop stops |
| Routing.RoutesFrom | Fsr.cc:1053-1062 | a route (d, prev[d], 1) exists iff d has a first hop, is not self and is not its own first hop |
| Routing.ComputeRoutes | Fsr.cc:981-1062 | installed routes have metric 1, one per destination, never to self, a neighbour or an address without a topology entry; their next hop is a neighbour or in self's link set, is the first step of a walk from self to the destination, and is never itself a destination; the table is read off the state of the run where the loop stops, which Routing.RunUnique shows is unique, and a destination not adjacent to self takes the first hop of the earliest visited node listing it, in (distance, address) order |
| Routing.Completeness | Fsr.cc:1011-1048 | run until nothing is left, every address reachable from self is visited |
| Routing.RoutedIfReachable | Fsr.cc:981-1062 | run until nothing is left, every reachable topology node other than self gets a first hop, and a route unless it is a first hop itself |
| Routing.CapHarmless | Fsr.cc:1011 | if every mentioned address has a topology entry, the visit cap only stops the loop when nothing is left |
| RoutingExamples.LineRoutes | Fsr.cc:1053-1062 | for the line A - B - C computed at A, the only route is C via B; B gets none |
| RoutingExamples.CappedRoutes | Fsr.cc:1011 | as written, the chain behind three silent neighbours leaves its far end without a route |
| RoutingExamples.UncappedRoutes | Fsr.cc:1011 | run until nothing is left, the same far end gets a route through neighbour 5, the start of the chain that reaches it |
| RoutingExamples.PhantomRoutes | Fsr.cc:1011-1043 | with neighbours 2, 3 and 5, and 5 listing 6 and the entry-less 9, the capped loop visits 1, 2, 3, 5 and then 9 (inserted at distance 0), and stops; 6 gets a route via 5 and 7, behind 6, none |
| RoutingExamples.DiamondRoutes | Fsr.cc:1012-1043 | with neighbours 2 and 3 both listing 4, the scan visits 2 before 3 and the strict `<` keeps the distance 2 found through 2, so the only route is (4, 2, 1) |
| Flooding.Initial | Fsr.cc:1173-1180 | a started node has counter 0, no neighbours, and only its own empty entry |
| Flooding.ProcessHello | Fsr.cc:761-776 | the HELLO's L3 sender is added to the neighbours; topology, counter and address are untouched |
| Flooding.RelayOf | Fsr.cc:826-838 | a relay exists iff the hop count exceeds 1, and it is the same packet with one hop less |
| Flooding.ProcessLsp | Fsr.cc:778-846 | a stale LSP changes nothing and is not relayed; a fresh one replaces only its originator's entry, asks for recomputation and is relayed while hops remain; the neighbours and counter never change |
| Flooding.ProcessPacket | Fsr.cc:739-759 | a packet from this node's own L3 address changes nothing; HELLOs and LSPs go to their handlers; any other type changes nothing |
| Flooding.RelayScope | Fsr.cc:826-838 | an LSP with h hops is relayed exactly h - 1 times along a chain of accepting nodes, each copy identical apart from the hop count |
| Flooding.DuplicateIgnored | Fsr.cc:787-797 | a second delivery of an accepted LSP changes nothing and is not relayed |
| Flooding.GenerateHello | Fsr.cc:848-867 | nothing while the address is unspecified; otherwise the counter advances and the HELLO carries it, with hop 1 and no entries |
| Flooding.GenerateLsp | Fsr.cc:869-909 | nothing while the address is unspecified or there are no neighbours; otherwise the counter advances and the LSP carries it, with hop 10 and one entry listing self and exactly its neighbours in ascending order |
| Flooding.LspAdvertisesNeighbors | Fsr.cc:887-900 | a receiver stores the originator plus its neighbours as the link set of a generated LSP |
| Flooding.Originated | Fsr.cc:848-909 | a run of HELLO and LSP timer firings yields at most one packet per firing and changes neither the address, the neighbours nor the topology table |
| Flooding.SharedCounter | Fsr.cc:848-900 | until the counter wraps, the i-th originated packet of either kind carries the initial counter + i + 1, and nothing but the counter changes |
| Flooding.CounterIncreasing | Fsr.cc:848-900 | originated sequence numbers strictly increase |
| Flooding.OriginatedRoundTrip | Fsr.cc:681-737 | every originated packet decodes back to itself |
| Node.Recompute | Fsr.cc:981-1062 | the installed routes are read off the state of the run over the current tables where the loop stops: with nothing left or, with the visit cap of the code as written, after the topology size + 1 visits |
| Node.RoutesDetermined | Fsr.cc:981-1062 | a recomputation has one outcome: two tables that both satisfy the contract of Node.Recompute for the same tables and cap setting are equal |
| Node.ProcessKeepsTables | Fsr.cc:739-846 | handling a packet keeps timers equal to neighbours, never makes self a neighbour, and keeps ages within the limit |
| Node.Receive | Fsr.cc:540-548 | an undecodable datagram changes nothing; a decoded one is handled, its relay is broadcast, and routes are recomputed (capped as written, or corrected) exactly when the handler asks |
| Node.Expire | Fsr.cc:473-479 | a neighbour timeout removes that neighbour and recomputes routes (capped as written, or corrected), if its timer exists |
| Node.Step | Fsr.cc:439-486 | every event keeps the node valid (synced timers, self not a neighbour, ages within the limit, well-formed routes) whether routes are recomputed with the visit cap as written or with the corrected loop; timers originate packets and age the table as specified |
| Node.StartValid | Fsr.cc:1173-1180 | a freshly started node is valid |
| Node.RoutesCoverReachable | Fsr.cc:981-1062 | after a recomputation every reachable topology node other than self and the first hops has a route via a first hop: always with the corrected loop, and with the loop as written when every address the tables mention has its own topology entry |
| Node.RoutesSound | Fsr.cc:981-1062 | after a recomputation, capped or not, every route's next hop is the first step of a walk from this node to its destination, which is a topology node and not a direct neighbour |

## Left out

- Module lifecycle, staged initialisation, `getRouterId` and broadcast-address discovery. They depend on simulator and interface-table APIs that are not part of this model.
- UDP socket I/O: `socketDataArrived`'s glue, `sendFsrPacketHelper`, `sendMessageToNeighbors` and the test packet. A received datagram is an event carrying its bytes and L3 sender. The `b(12)` pre-check (a length in bits) is glue and is not modelled.
- Timer scheduling: deadlines are simulation-time doubles and jitter is random. Timers are abstract events. The no-op `lspLifeTimeTimer` is not modelled.
- Timestamps: floating point and not on the wire.
- `createRoute` and `clearRoutes`: routing-table library calls. A recomputation yields a route set that replaces the old one wholesale.
- The neighbour-timeout handler's second erase and delete of an already-erased timer: expiry is a single `removeNeighbor`.
- Statistics counters and logging.
- The `routingTable` null check at the top of calculateShortestPath: it guards a missing simulator module.
- The numeric values of HELLO and LSP: they come from generated message code, so they are configuration parameters.
- Routing.Completeness: requires the tables to mention fewer than 2^32 - 3 addresses. Beyond that a distance could reach UINT32_MAX, which the loop treats as unreachable.
- Routing.ShortestPaths: does not prove that the recorded distances are minimal. The contracts state reachability, coverage and the first-hop structure, which is what updateRoutes consumes.
- Node.RoutesCoverReachable: with the visit cap of the code as written, coverage is promised only when every neighbour and link-set member has a topology entry. Without that, the cap can stop the loop before a reachable node is expanded (see Findings).
- Node.Step: the neighbour timeout is modelled only while the neighbour still has a timer. A timer firing for a key that is gone does nothing.

## Findings

| source | as written | input that shows it | evidently intended | confidence | as-written member | corrected member |
|---|---|---|---|---|---|---|
| Fsr.cc:1011 | the main loop stops after the topology table's size + 1 visits, but neighbours without a topology entry and phantom link-set members are visited too and use up that budget | self 1 with neighbours 2, 3, 4, 5; topology entries 1: {}, 5: {1, 5, 6}, 6: {5, 6, 7}, 7: {6, 7}. The loop visits 1, 2, 3, 4 and 5 and stops, so 7 (two hops past neighbour 5) gets no route | run until no unvisited node has a finite distance, so every reachable node is expanded | high (proved; not executed) | RoutingExamples.CappedRoutes | RoutingExamples.UncappedRoutes |

`Routing.ComputeRoutes` takes the visit cap as a flag, so both the
as-written and the corrected computation share one definition and one
invariant. The node (`Node.Step`, `Node.Receive`, `Node.Expire`,
`Node.Recompute`) passes the flag through: `true` is the code as written,
`false` the corrected loop, for which `Node.RoutesCoverReachable` promises
full coverage.
