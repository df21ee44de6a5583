/** Worked instances of calculateShortestPath and updateRoutes on small
    topologies, derived from the general contracts of the Routing module. */
module RoutingExamples {
  import opened Numeric
  import opened Codec
  import opened Topology
  import opened Routing

  // ---------------------------------------------------------------------
  // A line 1 - 2 - 3 seen from node 1

  /** Node 1 hears HELLOs from 2 only; 2's LSP lists 1 and 3, and 3's lists
      2. Node 1's own entry is the empty one initNode creates. */
  function LineGraph(): Graph
  {
    Graph(1, {2}, map[1 := TtEntry({}, 0, 0), 2 := TtEntry({1, 3}, 4, 0), 3 := TtEntry({2}, 7, 0)])
  }

  /** The only route installed is to 3 via 2: the neighbour 2 itself gets
      no route, and the visit cap is harmless because every address has a
      topology entry. */
  method LineRoutes() returns (routes: set<Route>)
    ensures routes == {Route(3, 2, 1)}
  {
    ghost var s;
    routes, s := ComputeRoutes(LineGraph(), true);
    LineSearch(s);
  }

  lemma LineUniverse()
    ensures Universe(LineGraph()) == {1, 2, 3}
    ensures |Universe(LineGraph())| == 3
  {
    LineListed();
    var three: set<Addr> := {1, 2, 3};
    assert Universe(LineGraph()) == three;
    Card3(three);
  }

  lemma Card3(s: set<Addr>)
    requires s == {1, 2, 3}
    ensures |s| == 3
  {
    var a: set<Addr> := {1, 2};
    assert |a| == 2;
    assert s == a + {3} && 3 !in a;
  }

  /** The addresses some link set mentions. */
  lemma LineListed()
    ensures (set v, x | v in LineGraph().topo && x in LineGraph().topo[v].ls :: x) == {1, 2, 3}
  {
    var g := LineGraph();
    var listed := set v, x | v in g.topo && x in g.topo[v].ls :: x;
    forall x | x in listed
      ensures x in {1, 2, 3}
    {
      var v :| v in g.topo && x in g.topo[v].ls;
      assert v in {1, 2, 3};
    }
    assert 1 in g.topo[2].ls && 3 in g.topo[2].ls && 2 in g.topo[3].ls;
  }

  /** Every address has a topology entry, so the capped loop also ends
      with nothing left to visit. */
  lemma LineExhausted(s: Search)
    requires Inv(LineGraph(), s)
    requires Exhausted(s) || |s.visited| == |LineGraph().topo| + 1
    ensures Exhausted(s)
  {
    LineUniverse();
    if !Exhausted(s) {
      CapHarmless(LineGraph(), s);
    }
  }

  lemma LineReach()
    ensures Reachable(LineGraph(), 3)
  {
    var g := LineGraph();
    ReachSelf(g);
    ReachStep(g, 1, 2);
    ReachStep(g, 2, 3);
  }

  /** Exhausted, the search reaches 3. */
  lemma LineReached(s: Search)
    requires Inv(LineGraph(), s) && Exhausted(s)
    ensures 3 in s.prev
  {
    LineUniverse();
    LineReach();
    RoutedIfReachable(LineGraph(), s, 3);
  }

  /** Once 3 is reached, it is reached through 2, and 2 and 3 are the only
      addresses with a first hop. */
  lemma LineFirstHops(s: Search)
    requires HopKeys(LineGraph(), s) && HopsFixed(LineGraph(), s) && NbrsSeeded(LineGraph(), s)
    requires 3 in s.prev
    ensures s.prev.Keys == {2, 3} && s.prev[2] == 2 && s.prev[3] == 2
  {
    var g := LineGraph();
    assert FirstHops(g) == {2};
    assert IsFirstHop(g, s, s.prev[3]);
    forall x | x in s.prev
      ensures x == 2 || x == 3
    {
      assert x in g.nbrs || (x in g.topo && x != g.self);
    }
  }

  /** updateRoutes on the first hops of the line. */
  lemma LineTable(prev: map<Addr, Addr>)
    requires prev.Keys == {2, 3} && prev[2] == 2 && prev[3] == 2
    ensures RoutesFrom(1, prev) == {Route(3, 2, 1)}
  {
    forall r | r in RoutesFrom(1, prev)
      ensures r == Route(3, 2, 1)
    {
      assert r.dest in prev.Keys;
    }
  }

  /** Any search the capped loop can end in yields the route to 3 via 2 and
      nothing else. */
  lemma LineSearch(s: Search)
    requires Inv(LineGraph(), s)
    requires Exhausted(s) || |s.visited| == |LineGraph().topo| + 1
    ensures RoutesFrom(1, s.prev) == {Route(3, 2, 1)}
  {
    LineExhausted(s);
    LineReached(s);
    LineFirstHops(s);
    LineTable(s.prev);
  }

  // ---------------------------------------------------------------------
  // A diamond 1 - {2, 3} - 4: two equally short ways to 4

  /** Node 1 hears HELLOs from 2 and 3, and both of their LSPs list 4. */
  function DiamondGraph(): Graph
  {
    Graph(1, {2, 3}, map[
      1 := TtEntry({}, 0, 0),
      2 := TtEntry({4}, 5, 0),
      3 := TtEntry({4}, 6, 0),
      4 := TtEntry({}, 8, 0)])
  }

  /** 4 is two hops away through either neighbour. The scan visits 2
      before 3 (same distance, smaller address), and 3's relaxation of 4
      fails the strict `<`, so the only route is 4 via 2. */
  method DiamondRoutes() returns (routes: set<Route>)
    ensures routes == {Route(4, 2, 1)}
  {
    ghost var s;
    routes, s := ComputeRoutes(DiamondGraph(), true);
    DiamondSearch(s);
  }

  /** Any search the capped loop can end in yields the route to 4 via 2
      and nothing else. */
  lemma DiamondSearch(s: Search)
    requires Inv(DiamondGraph(), s)
    requires Exhausted(s) || |s.visited| == |DiamondGraph().topo| + 1
    ensures RoutesFrom(1, s.prev) == {Route(4, 2, 1)}
  {
    DiamondExhausted(s);
    DiamondReached(s);
    FourFromTwo(s);
    DiamondFirstHops(s);
    DiamondTable(s.prev);
  }

  lemma DiamondUniverse()
    ensures Universe(DiamondGraph()) <= DiamondGraph().topo.Keys + {1}
  {
  }

  /** Every address has a topology entry, so the capped loop also ends
      with nothing left to visit. */
  lemma DiamondExhausted(s: Search)
    requires Inv(DiamondGraph(), s)
    requires Exhausted(s) || |s.visited| == |DiamondGraph().topo| + 1
    ensures Exhausted(s)
  {
    DiamondUniverse();
    if !Exhausted(s) {
      CapHarmless(DiamondGraph(), s);
    }
  }

  lemma DiamondReach()
    ensures Reachable(DiamondGraph(), 4)
  {
    var g := DiamondGraph();
    ReachSelf(g);
    ReachStep(g, 1, 2);
    ReachStep(g, 2, 4);
  }

  lemma DiamondSize()
    ensures |Universe(DiamondGraph())| <= 4
  {
    DiamondUniverse();
    var four: set<Addr> := {1, 2, 3, 4};
    assert DiamondGraph().topo.Keys + {1} == four;
    Card4(four);
    SubsetSize(Universe(DiamondGraph()), four);
  }

  lemma Card4(s: set<Addr>)
    requires s == {1, 2, 3, 4}
    ensures |s| == 4
  {
    var a: set<Addr> := {1, 2};
    var b: set<Addr> := {3, 4};
    assert |a| == 2 && |b| == 2;
    assert s == a + b && a * b == {};
  }

  /** Exhausted, the search reaches 4. */
  lemma DiamondReached(s: Search)
    requires Inv(DiamondGraph(), s) && Exhausted(s)
    ensures 4 in s.prev
  {
    DiamondSize();
    DiamondReach();
    RoutedIfReachable(DiamondGraph(), s, 4);
  }

  /** 4's provenance is the first of its visited listers in (distance,
      address) order: 2 and 3 are both visited at distance 1, so it is 2,
      and 4 inherits 2's first hop, 2 itself. */
  lemma FourFromTwo(s: Search)
    requires NbrsSeeded(DiamondGraph(), s) && TopoKeyed(DiamondGraph(), s)
    requires HopKeys(DiamondGraph(), s) && Provenance(DiamondGraph(), s)
    requires Exhausted(s) && 4 in s.prev
    ensures s.prev[4] == 2
  {
    var g := DiamondGraph();
    assert 4 !in g.nbrs && 4 in g.topo;
    var v :| ReachedFrom(g, s, v, 4);
    ListersOfFour(v);
    assert 2 in s.visited && 3 in s.visited;
    assert Lists(g, s, 2, 4) && Lists(g, s, 3, 4);
  }

  lemma ListersOfFour(v: Addr)
    requires v in DiamondGraph().topo && v != 4 && 4 in DiamondGraph().topo[v].ls
    ensures v == 2 || v == 3
  {
  }

  /** The neighbours are their own first hop, and 4 is the only other
      address with one. */
  lemma DiamondFirstHops(s: Search)
    requires HopKeys(DiamondGraph(), s) && NbrsSeeded(DiamondGraph(), s)
    requires 4 in s.prev && s.prev[4] == 2
    ensures s.prev.Keys == {2, 3, 4} && s.prev[2] == 2 && s.prev[3] == 3 && s.prev[4] == 2
  {
    var g := DiamondGraph();
    forall x | x in s.prev
      ensures x in {2, 3, 4}
    {
      assert x in g.nbrs || (x in g.topo && x != g.self);
    }
  }

  /** updateRoutes on the diamond's first hops. */
  lemma DiamondTable(prev: map<Addr, Addr>)
    requires prev.Keys == {2, 3, 4} && prev[2] == 2 && prev[3] == 3 && prev[4] == 2
    ensures RoutesFrom(1, prev) == {Route(4, 2, 1)}
  {
    forall r | r in RoutesFrom(1, prev)
      ensures r == Route(4, 2, 1)
    {
      assert r.dest in prev.Keys;
    }
  }

  // ---------------------------------------------------------------------
  // The visit cap: a chain behind three extra neighbours

  /** Node 1 has neighbours 2, 3, 4 and 5, of which only 5 has sent an LSP.
      Beyond 5 lies the chain 5 - 6 - 7. */
  function CapGraph(): Graph
  {
    Graph(1, {2, 3, 4, 5}, map[
      1 := TtEntry({}, 0, 0),
      5 := TtEntry({1, 5, 6}, 3, 0),
      6 := TtEntry({5, 6, 7}, 2, 0),
      7 := TtEntry({6, 7}, 9, 0)])
  }

  /** As written, the loop stops after |topology| + 1 = 5 visits: 1, 2, 3,
      4 and 5. 6 is reached but never expanded, so 7 gets no first hop and
      no route, although it is two hops beyond a neighbour. */
  method CappedRoutes() returns (routes: set<Route>)
    ensures forall r :: r in routes ==> r.dest != 7
  {
    ghost var s;
    routes, s := ComputeRoutes(CapGraph(), true);
    CapMissesSeven(s);
  }

  /** Without the cap the loop runs until nothing is left, and 7 gets a
      route through neighbour 5, the first hop of the chain 5 - 6 - 7. */
  method UncappedRoutes() returns (routes: set<Route>)
    ensures Route(7, 5, 1) in routes
  {
    ghost var s;
    routes, s := ComputeRoutes(CapGraph(), false);
    UncappedReachesSeven(s);
  }

  /** Exhausted, the search gives 7 a first hop, and it is 5: 7 was
      reached from 6, and 6 from 5. */
  lemma UncappedReachesSeven(s: Search)
    requires Inv(CapGraph(), s) && Exhausted(s)
    ensures 7 in s.prev && s.prev[7] == 5
  {
    CapUniverse();
    CapReach();
    RoutedIfReachable(CapGraph(), s, 7);
    SevenFromSix(s);
    SixReached(s);
    SixFromFive(s);
  }

  lemma CapUniverse()
    ensures Universe(CapGraph()) == {1, 2, 3, 4, 5, 6, 7}
    ensures |Universe(CapGraph())| == 7
  {
    CapListed();
    var seven: set<Addr> := {1, 2, 3, 4, 5, 6, 7};
    assert Universe(CapGraph()) == seven;
    Card7(seven);
  }

  /** The addresses some link set mentions. */
  lemma CapListed()
    ensures (set v, x | v in CapGraph().topo && x in CapGraph().topo[v].ls :: x) == {1, 5, 6, 7}
  {
    var g := CapGraph();
    var listed := set v, x | v in g.topo && x in g.topo[v].ls :: x;
    forall x | x in listed
      ensures x in {1, 5, 6, 7}
    {
      var v :| v in g.topo && x in g.topo[v].ls;
      assert v in {1, 5, 6, 7};
    }
    assert 6 in g.topo[5].ls && 1 in g.topo[5].ls && 5 in g.topo[6].ls && 7 in g.topo[6].ls;
  }

  lemma Card7(s: set<Addr>)
    requires s == {1, 2, 3, 4, 5, 6, 7}
    ensures |s| == 7
  {
    var a: set<Addr> := {1, 2, 3, 4};
    var b: set<Addr> := {5, 6, 7};
    assert |a| == 4 && |b| == 3;
    assert s == a + b && a * b == {};
  }

  lemma CapReach()
    ensures Reachable(CapGraph(), 7)
  {
    var g := CapGraph();
    ReachSelf(g);
    ReachStep(g, 1, 5);
    ReachStep(g, 5, 6);
    ReachStep(g, 6, 7);
  }

  /** Within the visit cap, 7 never gets a first hop: that would need 6
      expanded at distance 2, which needs 1 to 5 visited first. */
  lemma CapMissesSeven(s: Search)
    requires Inv(CapGraph(), s) && |s.visited| <= |CapGraph().topo| + 1
    ensures 7 !in s.prev
  {
    if 7 in s.prev {
      SevenFromSix(s);
      SixReached(s);
      SixFromFive(s);
      SixAfterAll(s);
      SixVisits(s.visited);
      CapTopoSize();
    }
  }

  lemma CapTopoSize()
    ensures |CapGraph().topo| == 4
  {
    assert CapGraph().topo.Keys == {1, 5, 6, 7};
  }

  lemma SixReached(s: Search)
    requires TopoKeyed(CapGraph(), s) && VisitedReached(s) && 6 in s.visited
    ensures 6 in s.dist && 0 < s.dist[6] < U32Max
  {
    assert 6 in CapGraph().topo;
  }

  lemma SixVisits(visited: set<Addr>)
    requires {1, 2, 3, 4, 5, 6} <= visited
    ensures |visited| >= 6
  {
    var six: set<Addr> := {1, 2, 3, 4, 5, 6};
    assert |six| == 6;
    SubsetSize(six, visited);
  }

  /** Only 6 lists 7, so a first hop for 7 means 6 was expanded, and 7
      inherited 6's first hop. */
  lemma SevenFromSix(s: Search)
    requires HopKeys(CapGraph(), s) && TopoKeyed(CapGraph(), s) && Provenance(CapGraph(), s)
    requires 7 in s.prev
    ensures 6 in s.visited && 6 in s.dist && 7 in s.dist
    ensures s.dist[7] as int == s.dist[6] as int + 1
    ensures 6 in s.prev && s.prev[7] == s.prev[6]
  {
    SevenReached(s);
    var v :| ReachedFrom(CapGraph(), s, v, 7);
    ListersOfSeven(v);
  }

  lemma SevenReached(s: Search)
    requires HopKeys(CapGraph(), s) && TopoKeyed(CapGraph(), s)
    requires 7 in s.prev
    ensures 7 in s.dist && 0 < s.dist[7] < U32Max
  {
    assert 7 !in CapGraph().nbrs;
  }

  lemma ListersOfSeven(v: Addr)
    requires v in CapGraph().topo && v != 7 && 7 in CapGraph().topo[v].ls
    ensures v == 6
  {
  }

  /** 6 was reached from 5, so its distance is 2 and its first hop is 5. */
  lemma SixFromFive(s: Search)
    requires NbrsSeeded(CapGraph(), s) && Provenance(CapGraph(), s)
    requires 6 in s.dist && 0 < s.dist[6] < U32Max
    requires 7 in s.dist && s.dist[7] as int == s.dist[6] as int + 1
    ensures s.dist[6] == 2
    ensures 6 in s.prev && s.prev[6] == 5
  {
    var v :| ReachedFrom(CapGraph(), s, v, 6);
    ListersOfSix(v);
  }

  lemma ListersOfSix(v: Addr)
    requires v in CapGraph().topo && v != 6 && 6 in CapGraph().topo[v].ls
    ensures v == 5 || v == 7
  {
  }

  /** Visiting 6 at distance 2 comes after self and the four neighbours. */
  lemma SixAfterAll(s: Search)
    requires NbrsSeeded(CapGraph(), s) && SelfFirst(CapGraph(), s) && VisitOrder(s)
    requires 6 in s.visited && 6 in s.dist && s.dist[6] == 2
    ensures {1, 2, 3, 4, 5, 6} <= s.visited
  {
    var g := CapGraph();
    forall n | n in g.nbrs
      ensures n in s.visited
    {
      assert s.dist[n] == 1;
    }
  }

  // ---------------------------------------------------------------------
  // A phantom that uses up the last visit

  /** Node 1 hears HELLOs from 2, 3 and 5. 5's LSP lists 1, 5, 6 and 9,
      6's lists 5 and 7, and 9 has no entry and is no neighbour. */
  function PhantomGraph(): Graph
  {
    Graph(1, {2, 3, 5}, map[
      1 := TtEntry({}, 0, 0),
      5 := TtEntry({1, 5, 6, 9}, 3, 0),
      6 := TtEntry({5, 6, 7}, 4, 0),
      7 := TtEntry({6, 7}, 2, 0)])
  }

  /** The capped loop visits 1, 2, 3 and 5; visiting 5 gives 6 distance 2
      and inserts 9 at 0, so 9 is selected next and its visit is the fifth
      and last. 6 is never expanded, so 7 gets no route; 6 gets one via 5. */
  method PhantomRoutes() returns (routes: set<Route>)
    ensures routes == {Route(6, 5, 1)}
  {
    ghost var s;
    routes, s := ComputeRoutes(PhantomGraph(), true);
    PhantomRun();
    RunUnique(PhantomGraph(), true, s, PhantomState(5));
    PhantomTable();
  }

  /** The loop states of the phantom example after 0 to 5 visits. */
  function PhantomState(k: nat): Search
    requires k <= 5
  {
    var m := U32Max;
    var early := Search(map[1 := 0, 2 := 1, 3 := 1, 5 := 1, 6 := m, 7 := m], map[2 := 2, 3 := 3, 5 := 5], {});
    if k == 0 then early
    else if k == 1 then early.(visited := {1})
    else if k == 2 then early.(visited := {1, 2})
    else if k == 3 then early.(visited := {1, 2, 3})
    else
      var late := Search(map[1 := 0, 2 := 1, 3 := 1, 5 := 1, 6 := 2, 7 := m, 9 := 0],
        map[2 := 2, 3 := 3, 5 := 5, 6 := 5], {1, 2, 3, 5});
      if k == 4 then late else late.(visited := {1, 2, 3, 5, 9})
  }

  /** The seeded state is the first of them. */
  lemma PhantomSeed()
    ensures Seed(PhantomGraph()) == PhantomState(0)
  {
    var g := PhantomGraph();
    var keys: set<Addr> := {1, 2, 3, 5, 6, 7};
    assert g.topo.Keys + {g.self} + g.nbrs == keys;
    var m := U32Max;
    var dist := map x | x in keys :: if x in g.nbrs then 1 else if x == g.self then 0 else m;
    assert dist == map[1 := 0, 2 := 1, 3 := 1, 5 := 1, 6 := m, 7 := m];
    assert (map n | n in g.nbrs :: n) == map[2 := 2, 3 := 3, 5 := 5];
  }

  /** The node the k-th visit selects. */
  function PhantomNode(k: nat): Addr
    requires 1 <= k <= 5
  {
    [1, 2, 3, 5, 9][k - 1]
  }

  /** Each state is one visit on from the one before. */
  lemma PhantomVisit(k: nat)
    requires 1 <= k <= 5
    ensures Visit(PhantomGraph(), PhantomState(k - 1), PhantomNode(k), PhantomState(k))
  {
    if k == 4 {
      PhantomVisitFive();
    }
  }

  /** The visit of 5, the only one that relaxes anything. */
  lemma PhantomVisitFive()
    ensures Visit(PhantomGraph(), PhantomState(3), 5, PhantomState(4))
  {
  }

  /** The k-th state is the state of the run after k visits. */
  lemma {:induction false} PhantomAfter(k: nat)
    requires k <= 5
    ensures AfterVisits(PhantomGraph(), k, PhantomState(k))
  {
    if k == 0 {
      PhantomSeed();
    } else {
      PhantomAfter(k - 1);
      PhantomVisit(k);
    }
  }

  /** The fifth state is where the capped loop stops. */
  lemma PhantomRun()
    ensures AfterVisits(PhantomGraph(), |PhantomState(5).visited|, PhantomState(5))
    ensures Halted(PhantomGraph(), true, PhantomState(5))
  {
    PhantomSizes();
    PhantomAfter(5);
  }

  /** Five visited nodes, four topology entries. */
  lemma PhantomSizes()
    ensures |PhantomState(5).visited| == 5 && |PhantomGraph().topo| == 4
  {
    var a: set<Addr> := {1, 2};
    var b: set<Addr> := {3, 5, 9};
    var c: set<Addr> := {5, 6, 7};
    assert |a| == 2 && |b| == 3 && |c| == 3;
    assert PhantomState(5).visited == a + b && a * b == {};
    assert PhantomGraph().topo.Keys == {1} + c && 1 !in c;
  }

  /** Only 6 has a first hop other than itself. */
  lemma PhantomTable()
    ensures RoutesFrom(1, PhantomState(5).prev) == {Route(6, 5, 1)}
  {
  }
}
