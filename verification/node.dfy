/** One FSR node driven by its events: a received datagram, the HELLO, LSP
    and aging timers, and the expiry of a neighbour's timeout. Each event
    runs the matching handler, recomputes the routes when the handler asks
    for it, and may broadcast one packet. */
module Node {
  import opened Numeric
  import opened Wrappers
  import opened Codec
  import opened Topology
  import opened Neighbors
  import opened Routing
  import opened Flooding

  /** The events of handleMessageWhenUp and socketDataArrived. Timer
      deadlines and jitter are not modelled: a timer is just its firing. */
  datatype Event =
    | Received(bytes: seq<Byte>, from: Addr)
    | HelloTimer
    | LspTimer
    | AgeTimer
    | NeighborTimeout(nbr: Addr)

  /** The protocol state and the MANET routes currently installed. */
  datatype Node = Node(st: NodeState, routes: set<Route>)

  function GraphOf(st: NodeState): Graph
  {
    Graph(st.self, st.nbrs.members, st.topo)
  }

  /** `routes` is what calculateShortestPath and updateRoutes install for
      `st`: the routes of the run over its tables at the point where it
      stopped, because nothing was left or, with `capVisits`, because
      |topology| + 1 nodes were visited. `capVisits` true is
      calculateShortestPath as written; false is the corrected loop that
      runs until nothing is left. */
  ghost predicate RoutesFor(st: NodeState, routes: set<Route>, capVisits: bool)
  {
    exists s :: StoppedRun(st, capVisits, s) && routes == RoutesFrom(st.self, s.prev)
  }

  /** `s` is the state the main loop stops in for `st`. */
  ghost predicate StoppedRun(st: NodeState, capVisits: bool, s: Search)
  {
    && Inv(GraphOf(st), s)
    && AfterVisits(GraphOf(st), |s.visited|, s)
    && Halted(GraphOf(st), capVisits, s)
  }

  /** A recomputation has one outcome: the installed table is a function
      of the tables and the cap setting. */
  lemma RoutesDetermined(st: NodeState, capVisits: bool, routes: set<Route>, routes': set<Route>)
    requires RoutesFor(st, routes, capVisits) && RoutesFor(st, routes', capVisits)
    ensures routes == routes'
  {
    var s :| StoppedRun(st, capVisits, s) && routes == RoutesFrom(st.self, s.prev);
    var s' :| StoppedRun(st, capVisits, s') && routes' == RoutesFrom(st.self, s'.prev);
    RunUnique(GraphOf(st), capVisits, s, s');
  }

  /** What every reachable node state satisfies. */
  ghost predicate Valid(cfg: Config, n: Node)
  {
    && Synced(n.st.nbrs)
    && n.st.self !in n.st.nbrs.members
    && AgesWithin(n.st.topo, AgeLimit(cfg.lifeTime))
    && WellFormedRoutes(n.st.self, n.routes)
  }

  /** A freshly started node: no neighbours, its own empty entry, counter
      zero, no routes. */
  function Start(self: Addr): (n: Node)
    ensures n.st == Initial(self) && n.routes == {}
  {
    Node(Initial(self), {})
  }

  lemma StartValid(cfg: Config, self: Addr)
    ensures Valid(cfg, Start(self))
  {
  }

  /** calculateShortestPath followed by updateRoutes, with or without the
      visit cap. */
  method Recompute(st: NodeState, capVisits: bool) returns (routes: set<Route>)
    ensures RoutesFor(st, routes, capVisits)
    ensures WellFormedRoutes(st.self, routes)
  {
    ghost var s;
    routes, s := ComputeRoutes(GraphOf(st), capVisits);
  }

  /** The table invariants processFsrPacket keeps: timers match
      neighbours, self is never its own neighbour (its own HELLOs are
      dropped), and ages stay within the limit (accepted entries start at
      age 0). */
  lemma ProcessKeepsTables(cfg: Config, st: NodeState, p: Packet, from: Addr, limit: U32)
    requires ValidConfig(cfg)
    requires Synced(st.nbrs) && st.self !in st.nbrs.members && AgesWithin(st.topo, limit)
    ensures var r := ProcessPacket(cfg, st, p, from).state;
      Synced(r.nbrs) && r.self !in r.nbrs.members && AgesWithin(r.topo, limit) && r.self == st.self
  {
    SyncedPreserved(st.nbrs, from);
  }

  /** A datagram: dropped if it does not decode, otherwise handled by
      processFsrPacket, with routes recomputed when the handler asks and the
      relay, if any, broadcast. */
  method Receive(cfg: Config, n: Node, bytes: seq<Byte>, from: Addr, capVisits: bool) returns (n': Node, out: Option<Packet>)
    requires ValidConfig(cfg) && Valid(cfg, n)
    ensures Valid(cfg, n') && n'.st.self == n.st.self
    ensures Decode(bytes).Failure? ==> n' == n && out == None
    ensures Decode(bytes).Success? ==>
      var r := ProcessPacket(cfg, n.st, Decode(bytes).value, from);
      && n'.st == r.state && out == r.relay
      && (r.recompute ==> RoutesFor(n'.st, n'.routes, capVisits))
      && (!r.recompute ==> n'.routes == n.routes)
  {
    var d := Decode(bytes);
    if d.Failure? {
      n', out := n, None;
    } else {
      var r := ProcessPacket(cfg, n.st, d.value, from);
      ProcessKeepsTables(cfg, n.st, d.value, from, AgeLimit(cfg.lifeTime));
      out := r.relay;
      if r.recompute {
        var routes := Recompute(r.state, capVisits);
        n' := Node(r.state, routes);
      } else {
        n' := n.(st := r.state);
      }
    }
  }

  /** A neighbour's timeout: if it still has a timer, it is removed and the
      routes are recomputed. */
  method Expire(cfg: Config, n: Node, a: Addr, capVisits: bool) returns (n': Node)
    requires Valid(cfg, n)
    ensures Valid(cfg, n') && n'.st.self == n.st.self
    ensures a !in n.st.nbrs.timers ==> n' == n
    ensures a in n.st.nbrs.timers ==>
      n'.st == n.st.(nbrs := RemoveNeighbor(n.st.nbrs, a)) && RoutesFor(n'.st, n'.routes, capVisits)
  {
    if a in n.st.nbrs.timers {
      SyncedPreserved(n.st.nbrs, a);
      var st := n.st.(nbrs := RemoveNeighbor(n.st.nbrs, a));
      var routes := Recompute(st, capVisits);
      n' := Node(st, routes);
    } else {
      n' := n;
    }
  }

  /** One event. A datagram goes to Receive. A HELLO or LSP timer
      broadcasts what the generator built. The aging timer ages the
      topology without recomputing routes. A neighbour timeout goes to
      Expire. Every event keeps the node valid. */
  method Step(cfg: Config, n: Node, e: Event, capVisits: bool) returns (n': Node, out: Option<Packet>)
    requires ValidConfig(cfg) && Valid(cfg, n)
    ensures Valid(cfg, n') && n'.st.self == n.st.self
    ensures e.HelloTimer? ==> n' == n.(st := GenerateHello(cfg, n.st).0) && out == GenerateHello(cfg, n.st).1
    ensures e.LspTimer? ==> n' == n.(st := GenerateLsp(cfg, n.st).0) && out == GenerateLsp(cfg, n.st).1
    ensures e.AgeTimer? ==>
      n' == n.(st := n.st.(topo := DecrementAge(n.st.topo, AgeLimit(cfg.lifeTime)))) && out == None
    ensures e.NeighborTimeout? ==> out == None
  {
    match e {
      case Received(bytes, from) =>
        n', out := Receive(cfg, n, bytes, from, capVisits);
      case HelloTimer =>
        var (st, p) := GenerateHello(cfg, n.st);
        n', out := n.(st := st), p;
      case LspTimer =>
        var (st, p) := GenerateLsp(cfg, n.st);
        n', out := n.(st := st), p;
      case AgeTimer =>
        var limit := AgeLimit(cfg.lifeTime);
        AgedWithin(n.st.topo, limit);
        n', out := n.(st := n.st.(topo := DecrementAge(n.st.topo, limit))), None;
      case NeighborTimeout(a) =>
        n' := Expire(cfg, n, a, capVisits);
        out := None;
    }
  }

  /** Installed routes cover the network: every topology node reachable
      from this node other than itself and its first hops has a route via a
      first hop. The corrected loop always achieves this. The loop as
      written achieves it when every address the tables mention has a
      topology entry of its own; otherwise the visit cap can stop it early
      (RoutingExamples.CappedRoutes). Both need the tables to mention fewer
      than 2^32 - 3 addresses. */
  lemma RoutesCoverReachable(st: NodeState, routes: set<Route>, capVisits: bool, x: Addr)
    requires RoutesFor(st, routes, capVisits)
    requires |Universe(GraphOf(st))| < U32Max - 2
    requires Reachable(GraphOf(st), x) && x in st.topo && x != st.self
    requires x !in FirstHops(GraphOf(st))
    ensures !capVisits || Universe(GraphOf(st)) <= st.topo.Keys + {st.self} ==>
      exists r :: r in routes && r.dest == x && r.nextHop in FirstHops(GraphOf(st))
  {
    var g := GraphOf(st);
    var s :| StoppedRun(st, capVisits, s) && routes == RoutesFrom(st.self, s.prev);
    if !capVisits || Universe(g) <= g.topo.Keys + {g.self} {
      if !Exhausted(s) {
        CapHarmless(g, s);
      }
      RoutedIfReachable(g, s, x);
      InvConsequences(g, s);
      assert Route(x, s.prev[x], 1) in routes;
    }
  }

  /** Installed routes, with or without the visit cap, lead somewhere: the
      destination is reachable along a walk from this node whose first step
      is the route's next hop, and it is neither a direct neighbour nor an
      address without a topology entry. */
  lemma RoutesSound(st: NodeState, routes: set<Route>, capVisits: bool, r: Route)
    requires RoutesFor(st, routes, capVisits) && r in routes
    ensures LeadsVia(GraphOf(st), r.nextHop, r.dest)
    ensures Reachable(GraphOf(st), r.dest)
    ensures r.dest !in st.nbrs.members && r.dest in st.topo
    ensures r.nextHop in FirstHops(GraphOf(st))
  {
    var g := GraphOf(st);
    var s :| StoppedRun(st, capVisits, s) && routes == RoutesFrom(st.self, s.prev);
    InvConsequences(g, s);
    assert Sound(g, s);
  }
}
