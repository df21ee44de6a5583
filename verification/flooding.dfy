/** The protocol state of one node and its packet handlers: processing of
    received HELLOs and LSPs (processFsrPacket, processHello, processLSP)
    and construction of the packets the node originates (sendHelloPacket,
    sendTopologyUpdate). Route recomputation is reported, not performed:
    the caller runs the Routing module when a handler asks for it. */
module Flooding {
  import opened Numeric
  import opened Wrappers
  import opened Codec
  import opened Ordered
  import opened Topology
  import opened Neighbors

  /** The numeric codes of the two packet kinds (generated from the message
      definition, so they are parameters here) and the `lifeTime`
      parameter. */
  datatype Config = Config(helloType: nat, lspType: nat, lifeTime: I32)

  predicate ValidConfig(cfg: Config)
  {
    cfg.helloType != cfg.lspType
  }

  /** The hop count of a HELLO: it is never relayed. */
  const HelloHops: nat := 1
  /** The hop count of an originated LSP: the fisheye scope. */
  const LspHops: nat := 10

  /** The node's protocol state: its address, its neighbours with their
      timeout timers, its topology table and the sequence counter shared by
      HELLOs and LSPs. */
  datatype NodeState = NodeState(self: Addr, nbrs: NeighborTable, topo: Table, seqNo: U32)

  /** The state after construction (`sequenceNumber = 0`, empty tables)
      and initNode. */
  function Initial(self: Addr): (st: NodeState)
    ensures st.self == self && st.seqNo == 0
    ensures st.nbrs.members == {} && Synced(st.nbrs)
    ensures st.topo.Keys == {self} && st.topo[self] == TtEntry({}, 0, 0)
  {
    NodeState(self, Empty, InitNode(map[], self), 0)
  }

  // ---------------------------------------------------------------------
  // Receiving

  /** What a handler did: the new state, whether it asked for the routes to
      be recomputed, and the packet it broadcasts in reply, if any. */
  datatype Reaction = Reaction(state: NodeState, recompute: bool, relay: Option<Packet>)

  function Unchanged(st: NodeState): Reaction
  {
    Reaction(st, false, None)
  }

  /** processHello: the L3 sender of the HELLO becomes (or stays) a
      neighbour. Nothing else changes and routes are not recomputed. */
  function ProcessHello(st: NodeState, from: Addr): (r: NodeState)
    ensures r.nbrs.members == st.nbrs.members + {from}
    ensures r.self == st.self && r.topo == st.topo && r.seqNo == st.seqNo
  {
    st.(nbrs := AddNeighbor(st.nbrs, from))
  }

  /** The relay decision of processLSP: a copy of the LSP with one hop less,
      only while more than one hop remains. */
  function RelayOf(p: Packet): (r: Option<Packet>)
    ensures r.Some? <==> p.hop > 1
    ensures r.Some? ==> r.value == Packet(p.ptype, p.src, p.seqNo, p.hop - 1, p.entries)
  {
    if p.hop > 1 then Some(p.(hop := p.hop - 1)) else None
  }

  /** processLSP. The originator is the packet's source field, not the L3
      sender. A stale or duplicate LSP changes nothing, triggers no
      recomputation and is not relayed. A fresh one replaces the
      originator's entry by its link set, sequence number and age 0, asks
      for a recomputation and is relayed while hops remain. The L3 sender
      is not added as a neighbour. */
  function ProcessLsp(st: NodeState, p: Packet): (r: Reaction)
    ensures !IsFresh(st.topo, p) ==> r == Unchanged(st)
    ensures IsFresh(st.topo, p) ==>
      && r.recompute
      && r.relay == RelayOf(p)
      && r.state.topo.Keys == st.topo.Keys + {p.src}
      && r.state.topo[p.src] == TtEntry(LinkSet(p.entries), p.seqNo, 0)
      && (forall a :: a in st.topo && a != p.src ==> r.state.topo[a] == st.topo[a])
    ensures r.state.self == st.self && r.state.nbrs == st.nbrs && r.state.seqNo == st.seqNo
  {
    var (t, accepted) := ApplyLsp(st.topo, p);
    if !accepted then Unchanged(st)
    else Reaction(st.(topo := t), true, RelayOf(p))
  }

  /** processFsrPacket: a packet whose L3 sender is this node is dropped;
      otherwise HELLOs and LSPs go to their handlers and any other type is
      ignored. */
  function ProcessPacket(cfg: Config, st: NodeState, p: Packet, from: Addr): (r: Reaction)
    requires ValidConfig(cfg)
    ensures from == st.self ==> r == Unchanged(st)
    ensures from != st.self && p.ptype == cfg.helloType ==> r == Reaction(ProcessHello(st, from), false, None)
    ensures from != st.self && p.ptype == cfg.lspType ==> r == ProcessLsp(st, p)
    ensures p.ptype != cfg.helloType && p.ptype != cfg.lspType ==> r == Unchanged(st)
  {
    if from == st.self then Unchanged(st)
    else if p.ptype == cfg.helloType then Reaction(ProcessHello(st, from), false, None)
    else if p.ptype == cfg.lspType then ProcessLsp(st, p)
    else Unchanged(st)
  }

  // ---------------------------------------------------------------------
  // Relaying across the network

  /** The packet after `k` successive relays by nodes that each accept it,
      or None once some relay in the chain is withheld. */
  function RelayChain(p: Packet, k: nat): Option<Packet>
    decreases k
  {
    if k == 0 then Some(p)
    else match RelayOf(p)
      case None => None
      case Some(q) => RelayChain(q, k - 1)
  }

  /** An LSP that starts with `hop` hops is relayed exactly `hop - 1` times:
      the k-th relay exists iff k < hop, and carries the original type,
      source, sequence number and entries with `hop - k` hops. */
  lemma {:induction false} RelayScope(p: Packet, k: nat)
    requires p.hop >= 1
    ensures RelayChain(p, k).Some? <==> k < p.hop
    ensures RelayChain(p, k).Some? ==>
      RelayChain(p, k).value == Packet(p.ptype, p.src, p.seqNo, p.hop - k, p.entries)
    decreases k
  {
    if k > 0 && p.hop > 1 {
      RelayScope(p.(hop := p.hop - 1), k - 1);
    }
  }

  /** A re-delivered LSP is stale: the second copy a node receives changes
      nothing and is not relayed again. */
  lemma DuplicateIgnored(st: NodeState, p: Packet)
    requires IsFresh(st.topo, p)
    ensures ProcessLsp(ProcessLsp(st, p).state, p) == Unchanged(ProcessLsp(st, p).state)
  {
  }

  // ---------------------------------------------------------------------
  // Originating

  /** sendHelloPacket: nothing while the address is unspecified; otherwise
      the counter is pre-incremented and a HELLO with one hop and no
      entries is built. */
  function GenerateHello(cfg: Config, st: NodeState): (r: (NodeState, Option<Packet>))
    ensures st.self == 0 ==> r == (st, None)
    ensures st.self != 0 ==>
      && r.0 == st.(seqNo := WrapInc(st.seqNo))
      && r.1 == Some(Packet(cfg.helloType, st.self, WrapInc(st.seqNo), HelloHops, []))
  {
    if st.self == 0 then (st, None)
    else
      var s := WrapInc(st.seqNo);
      (st.(seqNo := s), Some(Packet(cfg.helloType, st.self, s, HelloHops, [])))
  }

  /** sendTopologyUpdate: nothing while the address is unspecified or there
      are no neighbours; otherwise the counter is pre-incremented and an LSP
      with ten hops and a single entry is built, listing this node and its
      neighbours in ascending address order. */
  function GenerateLsp(cfg: Config, st: NodeState): (r: (NodeState, Option<Packet>))
    ensures st.self == 0 || st.nbrs.members == {} ==> r == (st, None)
    ensures st.self != 0 && st.nbrs.members != {} ==>
      && r.0 == st.(seqNo := WrapInc(st.seqNo))
      && r.1.Some?
      && r.1.value.ptype == cfg.lspType && r.1.value.src == st.self
      && r.1.value.seqNo == WrapInc(st.seqNo) && r.1.value.hop == LspHops
      && |r.1.value.entries| == 1
      && r.1.value.entries[0].node == st.self
      && r.1.value.entries[0].seqNo == WrapInc(st.seqNo)
      && Increasing(r.1.value.entries[0].neighbors)
      && (forall a :: a in r.1.value.entries[0].neighbors <==> a in st.nbrs.members)
  {
    if st.self == 0 || st.nbrs.members == {} then (st, None)
    else
      var s := WrapInc(st.seqNo);
      var e := LspEntry(st.self, s, Ascending(st.nbrs.members));
      (st.(seqNo := s), Some(Packet(cfg.lspType, st.self, s, LspHops, [e])))
  }

  /** The link set a receiver stores for a generated LSP is exactly the
      originator and its neighbours. */
  lemma LspAdvertisesNeighbors(cfg: Config, st: NodeState)
    requires st.self != 0 && st.nbrs.members != {}
    ensures GenerateLsp(cfg, st).1.Some?
    ensures LinkSet(GenerateLsp(cfg, st).1.value.entries) == {st.self} + st.nbrs.members
  {
    var p := GenerateLsp(cfg, st).1.value;
    var ls := LinkSet(p.entries);
    forall a
      ensures a in ls <==> a in {st.self} + st.nbrs.members
    {
      if a in ls {
        var i :| 0 <= i < |p.entries| && (a == p.entries[i].node || a in p.entries[i].neighbors);
        assert i == 0;
      }
      if a in st.nbrs.members {
        assert a in p.entries[0].neighbors;
      }
      if a == st.self {
        assert a == p.entries[0].node;
      }
    }
  }

  datatype Origination = HelloTick | LspTick

  function Originate(cfg: Config, st: NodeState, k: Origination): (NodeState, Option<Packet>)
  {
    match k
    case HelloTick => GenerateHello(cfg, st)
    case LspTick => GenerateLsp(cfg, st)
  }

  /** The packets a node originates over a sequence of HELLO and LSP timer
      firings, in order, and its state afterwards. */
  function Originated(cfg: Config, st: NodeState, ks: seq<Origination>): (r: (NodeState, seq<Packet>))
    ensures |r.1| <= |ks|
    ensures r.0.self == st.self && r.0.nbrs == st.nbrs && r.0.topo == st.topo
    decreases ks
  {
    if ks == [] then (st, [])
    else
      var (st1, o) := Originate(cfg, st, ks[0]);
      var (st2, ps) := Originated(cfg, st1, ks[1..]);
      (st2, (if o.Some? then [o.value] else []) + ps)
  }

  /** HELLOs and LSPs draw on one counter, advanced only when a packet is
      actually built: until it wraps, the i-th originated packet carries the
      initial counter plus i + 1, so from the initial state the sequence
      numbers are 1, 2, 3, ... across both kinds. */
  lemma {:induction false} SharedCounter(cfg: Config, st: NodeState, ks: seq<Origination>)
    requires st.seqNo as int + |ks| <= U32Max
    ensures Originated(cfg, st, ks).0.seqNo as int == st.seqNo as int + |Originated(cfg, st, ks).1|
    ensures forall i :: 0 <= i < |Originated(cfg, st, ks).1| ==>
      Originated(cfg, st, ks).1[i].seqNo as int == st.seqNo as int + i + 1
    ensures Originated(cfg, st, ks).0 == st.(seqNo := Originated(cfg, st, ks).0.seqNo)
    decreases ks
  {
    if ks != [] {
      var (st1, o) := Originate(cfg, st, ks[0]);
      SharedCounter(cfg, st1, ks[1..]);
      var (st2, ps) := Originated(cfg, st1, ks[1..]);
      if o.Some? {
        assert st1.seqNo as int == st.seqNo as int + 1;
        var all := [o.value] + ps;
        forall i | 0 <= i < |all|
          ensures all[i].seqNo as int == st.seqNo as int + i + 1
        {
          if i > 0 {
            assert all[i] == ps[i - 1];
          }
        }
      }
    }
  }

  /** Consequently originated sequence numbers strictly increase. */
  lemma CounterIncreasing(cfg: Config, st: NodeState, ks: seq<Origination>, i: nat, j: nat)
    requires st.seqNo as int + |ks| <= U32Max
    requires i < j < |Originated(cfg, st, ks).1|
    ensures Originated(cfg, st, ks).1[i].seqNo < Originated(cfg, st, ks).1[j].seqNo
  {
    SharedCounter(cfg, st, ks);
  }

  /** What a node originates goes through the codec unchanged: with byte
      sized type codes and fewer than 65536 neighbours, a receiver decodes
      exactly the packet that was built (the LSP entry already carries the
      packet's sequence number). */
  lemma OriginatedRoundTrip(cfg: Config, st: NodeState, k: Origination)
    requires cfg.helloType < 0x100 && cfg.lspType < 0x100
    requires |st.nbrs.members| < 0x1_0000
    requires Originate(cfg, st, k).1.Some?
    ensures Decode(Encode(Originate(cfg, st, k).1.value)) == Success(Originate(cfg, st, k).1.value)
  {
    var p := Originate(cfg, st, k).1.value;
    assert WellFormed(p);
    RoundTripExact(p);
  }
}
