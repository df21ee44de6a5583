/** calculateShortestPath and updateRoutes: a unit-weight Dijkstra over the
    topology table, seeded with the live neighbours, that records for every
    destination the direct neighbour through which it was first reached.

    The C++ keeps `dist` and `prev` in `std::map`s and reads them with
    `operator[]`, which inserts a zero for a missing key. A link-set member
    that has no topology entry of its own and is not a neighbour (a
    "phantom") is therefore inserted at distance 0 the first time it is
    relaxed against, and keeps that distance. */
module Routing {
  import opened Numeric
  import opened Wrappers
  import opened Codec
  import opened Ordered
  import opened Topology

  /** A routing-table entry: destination, next hop, metric. */
  datatype Route = Route(dest: Addr, nextHop: Addr, metric: U32)

  /** What the computation reads: the node's address, its live neighbours
      and its topology table. */
  datatype Graph = Graph(self: Addr, nbrs: set<Addr>, topo: Table)

  /** The loop state: tentative distances, first hops, visited nodes. */
  datatype Search = Search(dist: map<Addr, U32>, prev: map<Addr, Addr>, visited: set<Addr>)

  /** `m[x]` through `operator[]`: a missing key reads as 0. */
  function Get(m: map<Addr, U32>, x: Addr): U32
  {
    if x in m then m[x] else 0
  }

  /** The distance self is seeded with: 0, or 1 when self is also listed as
      a neighbour (the neighbour loop runs after `dist[self] = 0`). */
  function SelfDist(g: Graph): U32
  {
    if g.self in g.nbrs then 1 else 0
  }

  /** The link set relaxed from `c`: its topology entry's, if it has one. */
  function LinksOf(g: Graph, c: Addr): set<Addr>
  {
    if c in g.topo then g.topo[c].ls else {}
  }

  /** The only addresses that can ever be a first hop: the live neighbours
      and the members of self's own link set. */
  function FirstHops(g: Graph): set<Addr>
  {
    g.nbrs + LinksOf(g, g.self)
  }

  /** Every address the computation can touch. */
  function Universe(g: Graph): set<Addr>
  {
    {g.self} + g.nbrs + g.topo.Keys + (set v, x | v in g.topo && x in g.topo[v].ls :: x)
  }

  // ---------------------------------------------------------------------
  // Reachability: the reference the computation is measured against

  /** One step of the graph: self reaches its live neighbours, and every node
      with a topology entry reaches the members of its link set. */
  ghost predicate Edge(g: Graph, u: Addr, v: Addr)
  {
    (u == g.self && v in g.nbrs) || (u in g.topo && v in g.topo[u].ls)
  }

  ghost predicate IsWalk(g: Graph, p: seq<Addr>)
  {
    && |p| > 0
    && p[0] == g.self
    && forall i :: 0 <= i < |p| - 1 ==> Edge(g, p[i], p[i + 1])
  }

  ghost predicate Reachable(g: Graph, x: Addr)
  {
    exists p :: IsWalk(g, p) && p[|p| - 1] == x
  }

  lemma ReachSelf(g: Graph)
    ensures Reachable(g, g.self)
  {
    assert IsWalk(g, [g.self]);
  }

  lemma ReachStep(g: Graph, u: Addr, v: Addr)
    requires Reachable(g, u) && Edge(g, u, v)
    ensures Reachable(g, v)
  {
    var p :| IsWalk(g, p) && p[|p| - 1] == u;
    var q := p + [v];
    forall i | 0 <= i < |q| - 1
      ensures Edge(g, q[i], q[i + 1])
    {
      if i < |p| - 1 {
        assert q[i] == p[i] && q[i + 1] == p[i + 1];
      }
    }
    assert IsWalk(g, q);
  }

  /** `x` is reached along a walk from self whose first step goes to `h`. */
  ghost predicate LeadsVia(g: Graph, h: Addr, x: Addr)
  {
    exists p :: IsWalk(g, p) && |p| >= 2 && p[1] == h && p[|p| - 1] == x
  }

  lemma LeadsViaStep(g: Graph, h: Addr, u: Addr, v: Addr)
    requires LeadsVia(g, h, u) && Edge(g, u, v)
    ensures LeadsVia(g, h, v)
  {
    var p :| IsWalk(g, p) && |p| >= 2 && p[1] == h && p[|p| - 1] == u;
    var q := p + [v];
    forall i | 0 <= i < |q| - 1
      ensures Edge(g, q[i], q[i + 1])
    {
      if i < |p| - 1 {
        assert q[i] == p[i] && q[i + 1] == p[i + 1];
      }
    }
    assert IsWalk(g, q) && q[1] == h;
  }

  // ---------------------------------------------------------------------
  // Seeding

  /** The state before the main loop: self at 0, every other topology node
      at UINT32_MAX, then every neighbour at 1 with itself as first hop. */
  function Seed(g: Graph): Search
  {
    var keys := g.topo.Keys + {g.self} + g.nbrs;
    var dist := map x | x in keys ::
      if x in g.nbrs then 1 else if x == g.self then 0 else U32Max;
    Search(dist, map n | n in g.nbrs :: n, {})
  }

  // ---------------------------------------------------------------------
  // Selecting the next node

  /** The selection loop of calculateShortestPath, over the keys of `dist`
      in ascending order: an unvisited key replaces the candidate only if
      its distance is strictly below the best seen so far. */
  function Scan(keys: seq<Addr>, s: Search, best: Option<Addr>, minDist: U32): Option<Addr>
    requires forall i :: 0 <= i < |keys| ==> keys[i] in s.dist
  {
    if keys == [] then best
    else
      var k := keys[0];
      if k !in s.visited && s.dist[k] < minDist then Scan(keys[1..], s, Some(k), s.dist[k])
      else Scan(keys[1..], s, best, minDist)
  }

  /** The node the next iteration visits, or None when no unvisited node
      has a distance below UINT32_MAX (the loop then breaks). */
  function SelectMin(s: Search): Option<Addr>
  {
    var keys := Ascending(s.dist.Keys);
    Scan(keys, s, None, U32Max)
  }

  /** `c` comes first in (distance, address) order among the unvisited
      addresses of `keys` whose distance is below `bound`. */
  predicate IsLeast(keys: seq<Addr>, s: Search, bound: U32, c: Addr)
    requires forall i :: 0 <= i < |keys| ==> keys[i] in s.dist
  {
    && c in keys && c !in s.visited && s.dist[c] < bound
    && forall i :: 0 <= i < |keys| && keys[i] !in s.visited && s.dist[keys[i]] < bound ==>
         s.dist[c] < s.dist[keys[i]] || (s.dist[c] == s.dist[keys[i]] && c <= keys[i])
  }

  /** `c` is the node calculateShortestPath's scan picks: the least distance, and the
      smallest address among those at that distance. */
  predicate IsNext(s: Search, c: Addr)
  {
    && c in s.dist && c !in s.visited && s.dist[c] < U32Max
    && forall y :: y in s.dist && y !in s.visited && s.dist[y] < U32Max ==>
         s.dist[c] < s.dist[y] || (s.dist[c] == s.dist[y] && c <= y)
  }

  /** The loop has nothing left to do: no unvisited address has a finite
      distance. */
  predicate Exhausted(s: Search)
  {
    forall y :: y in s.dist && y !in s.visited ==> s.dist[y] == U32Max
  }

  /** With nothing unvisited below `minDist`, the scan keeps its candidate. */
  lemma {:induction false} ScanKeeps(keys: seq<Addr>, s: Search, best: Option<Addr>, minDist: U32)
    requires forall i :: 0 <= i < |keys| ==> keys[i] in s.dist
    requires forall i :: 0 <= i < |keys| && keys[i] !in s.visited ==> s.dist[keys[i]] >= minDist
    ensures Scan(keys, s, best, minDist) == best
  {
    if keys != [] {
      var rest := keys[1..];
      assert forall i :: 0 <= i < |rest| ==> rest[i] == keys[i + 1];
      ScanKeeps(rest, s, best, minDist);
    }
  }

  /** With some unvisited key below `minDist`, the scan over increasing
      keys returns the (distance, address)-least of them. */
  lemma {:induction false} ScanFinds(keys: seq<Addr>, s: Search, best: Option<Addr>, minDist: U32)
    requires Increasing(keys)
    requires forall i :: 0 <= i < |keys| ==> keys[i] in s.dist
    requires exists i :: 0 <= i < |keys| && keys[i] !in s.visited && s.dist[keys[i]] < minDist
    ensures Scan(keys, s, best, minDist).Some?
    ensures IsLeast(keys, s, minDist, Scan(keys, s, best, minDist).value)
  {
    var k := keys[0];
    var rest := keys[1..];
    assert forall i :: 0 <= i < |rest| ==> rest[i] == keys[i + 1];
    if k !in s.visited && s.dist[k] < minDist {
      var d := s.dist[k];
      if exists i :: 0 <= i < |rest| && rest[i] !in s.visited && s.dist[rest[i]] < d {
        ScanFinds(rest, s, Some(k), d);
      } else {
        ScanKeeps(rest, s, Some(k), d);
      }
      var r := Scan(keys, s, best, minDist).value;
      forall i | 0 <= i < |keys| && keys[i] !in s.visited && s.dist[keys[i]] < minDist
        ensures s.dist[r] < s.dist[keys[i]] || (s.dist[r] == s.dist[keys[i]] && r <= keys[i])
      {
        if i > 0 {
          assert k < keys[i];
        }
      }
    } else {
      ScanFinds(rest, s, best, minDist);
    }
  }

  /** SelectMin returns exactly the node calculateShortestPath's scan
      selects, and None exactly when every unvisited node is at UINT32_MAX. */
  lemma SelectMinSpec(s: Search)
    ensures SelectMin(s).Some? ==> IsNext(s, SelectMin(s).value)
    ensures SelectMin(s).None? <==> Exhausted(s)
  {
    var keys := Ascending(s.dist.Keys);
    assert forall i :: 0 <= i < |keys| ==> keys[i] in s.dist;
    if y :| y in s.dist && y !in s.visited && s.dist[y] < U32Max {
      assert y in keys;
      ScanFinds(keys, s, None, U32Max);
      LeastIsNext(keys, s, SelectMin(s).value);
    } else {
      ScanKeeps(keys, s, None, U32Max);
    }
  }

  /** The selection is the only node that can be next. */
  lemma SelectMinOnly(s: Search, c: Addr)
    requires IsNext(s, c)
    ensures SelectMin(s) == Some(c)
  {
    SelectMinSpec(s);
    NextUnique(s, c, SelectMin(s).value);
  }

  /** Least among all keys of `dist` is next. */
  lemma LeastIsNext(keys: seq<Addr>, s: Search, c: Addr)
    requires forall i :: 0 <= i < |keys| ==> keys[i] in s.dist
    requires forall y :: y in s.dist ==> y in keys
    requires IsLeast(keys, s, U32Max, c)
    ensures IsNext(s, c)
  {
    forall y | y in s.dist && y !in s.visited && s.dist[y] < U32Max
      ensures s.dist[c] < s.dist[y] || (s.dist[c] == s.dist[y] && c <= y)
    {
      var i :| 0 <= i < |keys| && keys[i] == y;
    }
  }

  /** The tie-break is total: at most one node is next. */
  lemma NextUnique(s: Search, a: Addr, b: Addr)
    requires IsNext(s, a) && IsNext(s, b)
    ensures a == b
  {
  }

  // ---------------------------------------------------------------------
  // Relaxation

  /** The first hop recorded for a node relaxed from `c`: the node itself
      when `c` is self, otherwise `c`'s own first hop. */
  function Hop(g: Graph, prev: map<Addr, Addr>, c: Addr, v: Addr): Addr
    requires c == g.self || c in prev
  {
    if c == g.self then v else prev[c]
  }

  predicate SameAt<V(==)>(m: map<Addr, V>, m': map<Addr, V>, v: Addr)
  {
    (v in m' <==> v in m) && (v in m ==> m'[v] == m[v])
  }

  /** What relaxing from `c` does to one address `v`: an unvisited member of
      `c`'s link set is inserted at 0 if missing, and if `dist[c] + 1` is
      below its distance it takes that distance and `c`'s first hop;
      anything else is untouched. */
  predicate RelaxedAt(g: Graph, s: Search, c: Addr, dist: map<Addr, U32>, prev: map<Addr, Addr>, v: Addr)
    requires c in s.dist && s.dist[c] < U32Max && (c in g.topo ==> c == g.self || c in s.prev)
  {
    if v in LinksOf(g, c) && v !in s.visited then
      var nd := s.dist[c] + 1;
      && v in dist
      && if nd < Get(s.dist, v) then
           dist[v] == nd && v in prev && prev[v] == Hop(g, s.prev, c, v)
         else
           dist[v] == Get(s.dist, v) && SameAt(s.prev, prev, v)
    else
      SameAt(s.dist, dist, v) && SameAt(s.prev, prev, v)
  }

  predicate RelaxedFrom(g: Graph, s: Search, c: Addr, dist: map<Addr, U32>, prev: map<Addr, Addr>)
    requires c in s.dist && s.dist[c] < U32Max && (c in g.topo ==> c == g.self || c in s.prev)
  {
    forall v :: RelaxedAt(g, s, c, dist, prev, v)
  }

  /** The inner loop of calculateShortestPath over `c`'s link set. Members
      are distinct and `c` is visited, so no iteration reads what another
      one wrote, and the ascending order of the `std::set` does not affect the
      result. */
  method Relax(g: Graph, s: Search, c: Addr) returns (dist: map<Addr, U32>, prev: map<Addr, Addr>)
    requires c in g.topo && c in s.visited
    requires c in s.dist && s.dist[c] < U32Max
    requires c == g.self || c in s.prev
    ensures RelaxedFrom(g, s, c, dist, prev)
  {
    var nd := s.dist[c] + 1;
    var todo := g.topo[c].ls;
    dist, prev := s.dist, s.prev;
    while todo != {}
      invariant todo <= g.topo[c].ls
      invariant forall v :: v !in todo ==> RelaxedAt(g, s, c, dist, prev, v)
      invariant forall v :: v in todo ==> SameAt(s.dist, dist, v) && SameAt(s.prev, prev, v)
      decreases todo
    {
      var v :| v in todo;
      if v !in s.visited {
        var current := Get(dist, v);
        if v !in dist {
          dist := dist[v := 0];
        }
        if nd < current {
          dist := dist[v := nd];
          prev := prev[v := Hop(g, s.prev, c, v)];
        }
      }
      todo := todo - {v};
    }
  }

  // ---------------------------------------------------------------------
  // Loop invariant, one fact per predicate

  /** Self keeps its seed distance. */
  ghost predicate SelfSeeded(g: Graph, s: Search)
  {
    g.self in s.dist && s.dist[g.self] == SelfDist(g)
  }

  /** Neighbours stay at distance 1 with themselves as first hop. */
  ghost predicate NbrsSeeded(g: Graph, s: Search)
  {
    forall n :: n in g.nbrs ==> n in s.dist && s.dist[n] == 1 && n in s.prev && s.prev[n] == n
  }

  /** Every topology node has a distance, at least 1 unless it is self. */
  ghost predicate TopoKeyed(g: Graph, s: Search)
  {
    forall x :: x in g.topo ==> x in s.dist && (x != g.self ==> s.dist[x] >= 1)
  }

  /** An address that is not self, a neighbour or a topology node (a
      phantom) is at distance 0. */
  ghost predicate PhantomsAtZero(g: Graph, s: Search)
  {
    forall x :: x in s.dist ==> x == g.self || x in g.nbrs || x in g.topo || s.dist[x] == 0
  }

  ghost predicate Bounded(g: Graph, s: Search)
  {
    s.dist.Keys <= Universe(g) && s.visited <= s.dist.Keys
  }

  /** Exactly the neighbours and the reached non-self topology nodes have a
      first hop. */
  ghost predicate HopKeys(g: Graph, s: Search)
  {
    forall x :: x in s.prev <==>
      x in g.nbrs || (x in g.topo && x != g.self && x in s.dist && s.dist[x] < U32Max)
  }

  /** `h` is a proper first hop: its own first hop, in FirstHops, and at
      most one step beyond self. */
  ghost predicate IsFirstHop(g: Graph, s: Search, h: Addr)
  {
    && h in s.prev && s.prev[h] == h
    && h in s.dist && s.dist[h] as int <= SelfDist(g) as int + 1
    && h in FirstHops(g)
  }

  ghost predicate HopsFixed(g: Graph, s: Search)
  {
    forall x :: x in s.prev ==> IsFirstHop(g, s, s.prev[x])
  }

  /** Visited addresses have a finite distance. */
  ghost predicate VisitedReached(s: Search)
  {
    forall v :: v in s.visited ==> v in s.dist && s.dist[v] < U32Max
  }

  /** Self is visited first when it is at 0; before that, every other
      address is at least 1. */
  ghost predicate SelfFirst(g: Graph, s: Search)
  {
    && (SelfDist(g) == 0 && s.visited != {} ==> g.self in s.visited)
    && (s.visited == {} ==> forall x :: x in s.dist && x != g.self ==> s.dist[x] >= 1)
  }

  /** At equal distance, a visited address is no larger than any unvisited
      non-phantom: the scan takes the smallest address of a distance level,
      and a level is complete before its first node is selected. */
  ghost predicate TieOrder(s: Search)
  {
    forall v, u :: (v in s.visited && v in s.dist && u in s.dist && u !in s.visited && s.dist[u] != 0
      && s.dist[v] == s.dist[u]) ==> v <= u
  }

  /** A visited address is no further than any unvisited non-phantom. */
  ghost predicate VisitOrder(s: Search)
  {
    forall v, u :: v in s.visited && v in s.dist && u in s.dist && u !in s.visited && s.dist[u] != 0 ==>
      s.dist[v] <= s.dist[u]
  }

  /** The link-set members of a visited topology node are visited or at
      most one step beyond it. */
  ghost predicate Frontier(g: Graph, s: Search)
  {
    forall v, w :: v in s.visited && v in g.topo && w in g.topo[v].ls ==>
      w in s.visited || (w in s.dist && v in s.dist && s.dist[w] as int <= s.dist[v] as int + 1)
  }

  /** No finite distance exceeds the number of visits plus one. */
  ghost predicate DistBound(s: Search)
  {
    forall x :: x in s.dist && s.dist[x] < U32Max ==> s.dist[x] as int <= |s.visited| + 1
  }

  /** Every address with a finite distance is reachable. */
  ghost predicate Sound(g: Graph, s: Search)
  {
    forall x :: x in s.dist && s.dist[x] < U32Max ==> Reachable(g, x)
  }

  /** A reached address that is neither self, a neighbour nor a phantom got
      its distance and its first hop from a visited topology node one step
      closer. */
  ghost predicate Provenance(g: Graph, s: Search)
  {
    forall x :: x in s.dist && x != g.self && x !in g.nbrs && 0 < s.dist[x] < U32Max ==>
      exists v :: ReachedFrom(g, s, v, x)
  }

  /** `u` is a visited topology node other than `x` whose link set lists `x`. */
  ghost predicate Lists(g: Graph, s: Search, u: Addr, x: Addr)
  {
    u in s.visited && u in g.topo && u != x && x in g.topo[u].ls && u in s.dist
  }

  /** `u` comes no later than `w` in (distance, address) order. */
  ghost predicate NotAfter(s: Search, u: Addr, w: Addr)
    requires u in s.dist && w in s.dist
  {
    s.dist[u] < s.dist[w] || (s.dist[u] == s.dist[w] && u <= w)
  }

  /** `x` is one step beyond the visited topology node `v`, took its
      distance and first hop from it, and `v` is the first of the visited
      nodes listing `x` in (distance, address) order: the one visited
      first, since later ones fail the strict `newDist < dist[neighbor]`. */
  ghost predicate ReachedFrom(g: Graph, s: Search, v: Addr, x: Addr)
  {
    && Lists(g, s, v, x)
    && x in s.dist && s.dist[x] as int == s.dist[v] as int + 1
    && (v == g.self || v in s.prev) && x in s.prev && s.prev[x] == Hop(g, s.prev, v, x)
    && forall u :: Lists(g, s, u, x) ==> NotAfter(s, v, u)
  }

  ghost predicate Inv(g: Graph, s: Search)
  {
    && SelfSeeded(g, s) && NbrsSeeded(g, s) && TopoKeyed(g, s) && PhantomsAtZero(g, s)
    && Bounded(g, s) && HopKeys(g, s) && HopsFixed(g, s)
    && VisitedReached(s) && SelfFirst(g, s) && VisitOrder(s) && TieOrder(s) && Frontier(g, s)
    && DistBound(s) && Sound(g, s) && Provenance(g, s)
  }

  lemma SeedInv(g: Graph)
    ensures Inv(g, Seed(g))
  {
    var s := Seed(g);
    ReachSelf(g);
    forall x | x in s.dist && s.dist[x] < U32Max
      ensures Reachable(g, x)
    {
      if x != g.self {
        assert Edge(g, g.self, x);
        ReachStep(g, g.self, x);
      }
    }
  }

  // ---------------------------------------------------------------------
  // One visit preserves the invariant

  /** Visiting `c` turns `s` into `t`: `c` is the selected node, it joins
      the visited set, and its link set is relaxed (an empty one when it
      has no topology entry). */
  ghost predicate Visit(g: Graph, s: Search, c: Addr, t: Search)
  {
    && IsNext(s, c)
    && t.visited == s.visited + {c}
    && (c in g.topo ==> c == g.self || c in s.prev)
    && RelaxedFrom(g, s.(visited := t.visited), c, t.dist, t.prev)
  }

  /** An address whose distance the visit lowered. */
  predicate Lowered(g: Graph, s: Search, c: Addr, v: Addr)
    requires c in s.dist
  {
    v in LinksOf(g, c) && v != c && v !in s.visited && v in s.dist && s.dist[c] as int + 1 < s.dist[v]
  }

  lemma VisitFacts(g: Graph, s: Search, c: Addr, t: Search)
    requires Visit(g, s, c, t)
    ensures c in s.dist && s.dist[c] < U32Max && c !in s.visited
    ensures forall v :: v in s.dist ==> v in t.dist && t.dist[v] <= s.dist[v]
    ensures forall v :: v in s.dist && !Lowered(g, s, c, v) ==> t.dist[v] == s.dist[v]
    ensures forall v :: !Lowered(g, s, c, v) ==> SameAt(s.prev, t.prev, v)
    ensures forall v :: Lowered(g, s, c, v) ==>
      t.dist[v] as int == s.dist[c] as int + 1 && v in t.prev && t.prev[v] == Hop(g, s.prev, c, v)
    ensures forall v :: v in t.dist && v !in s.dist ==>
      t.dist[v] == 0 && v in LinksOf(g, c) && v !in t.visited
    ensures forall v :: v in LinksOf(g, c) && v !in t.visited ==>
      v in t.dist && t.dist[v] as int <= s.dist[c] as int + 1
  {
    var s1 := s.(visited := t.visited);
    forall v
      ensures v in s.dist ==> v in t.dist && t.dist[v] <= s.dist[v]
      ensures v in s.dist && !Lowered(g, s, c, v) ==> t.dist[v] == s.dist[v]
      ensures !Lowered(g, s, c, v) ==> SameAt(s.prev, t.prev, v)
      ensures Lowered(g, s, c, v) ==>
        t.dist[v] as int == s.dist[c] as int + 1 && v in t.prev && t.prev[v] == Hop(g, s.prev, c, v)
      ensures v in t.dist && v !in s.dist ==> t.dist[v] == 0 && v in LinksOf(g, c) && v !in t.visited
      ensures v in LinksOf(g, c) && v !in t.visited ==>
        v in t.dist && t.dist[v] as int <= s.dist[c] as int + 1
    {
      assert RelaxedAt(g, s1, c, t.dist, t.prev, v);
    }
  }

  /** A lowered address is a non-self, non-neighbour topology node more than
      one step beyond self, and the new distance is beyond self too. */
  lemma LoweredFacts(g: Graph, s: Search, c: Addr, v: Addr)
    requires SelfSeeded(g, s) && NbrsSeeded(g, s) && TopoKeyed(g, s) && PhantomsAtZero(g, s)
    requires c in s.dist && Lowered(g, s, c, v)
    ensures v != g.self && v !in g.nbrs && v in g.topo
    ensures s.dist[c] as int + 1 > SelfDist(g) as int
    ensures s.dist[v] as int > SelfDist(g) as int + 1
  {
    assert c in g.topo;
  }

  lemma VisitShape(g: Graph, s: Search, c: Addr, t: Search)
    requires Visit(g, s, c, t)
    requires SelfSeeded(g, s) && NbrsSeeded(g, s) && TopoKeyed(g, s) && PhantomsAtZero(g, s)
    requires Bounded(g, s)
    ensures SelfSeeded(g, t) && NbrsSeeded(g, t) && TopoKeyed(g, t) && PhantomsAtZero(g, t)
    ensures Bounded(g, t)
  {
    VisitFacts(g, s, c, t);
    forall x | x in t.dist
      ensures x in Universe(g)
      ensures x == g.self || x in g.nbrs || x in g.topo || t.dist[x] == 0
    {
      if x !in s.dist {
        assert x in LinksOf(g, c);
      } else if Lowered(g, s, c, x) {
        LoweredFacts(g, s, c, x);
      }
    }
    forall n | n in g.nbrs
      ensures t.dist[n] == 1 && t.prev[n] == n
    {
      if Lowered(g, s, c, n) {
        LoweredFacts(g, s, c, n);
      }
    }
    forall x | x in g.topo && x != g.self
      ensures t.dist[x] >= 1
    {
      if Lowered(g, s, c, x) {
        LoweredFacts(g, s, c, x);
      }
    }
    if Lowered(g, s, c, g.self) {
      LoweredFacts(g, s, c, g.self);
    }
  }

  lemma VisitHopKeys(g: Graph, s: Search, c: Addr, t: Search)
    requires Visit(g, s, c, t)
    requires SelfSeeded(g, s) && NbrsSeeded(g, s) && TopoKeyed(g, s) && PhantomsAtZero(g, s)
    requires HopKeys(g, s)
    ensures HopKeys(g, t)
  {
    VisitFacts(g, s, c, t);
    forall x
      ensures x in t.prev <==>
        x in g.nbrs || (x in g.topo && x != g.self && x in t.dist && t.dist[x] < U32Max)
    {
      if Lowered(g, s, c, x) {
        LoweredFacts(g, s, c, x);
      }
    }
  }

  /** A first hop is never lowered: it is at most one step beyond self, and
      a lowered address was further than that. */
  lemma FirstHopKept(g: Graph, s: Search, c: Addr, t: Search, h: Addr)
    requires Visit(g, s, c, t)
    requires SelfSeeded(g, s) && NbrsSeeded(g, s) && TopoKeyed(g, s) && PhantomsAtZero(g, s)
    requires IsFirstHop(g, s, h)
    ensures IsFirstHop(g, t, h)
  {
    VisitFacts(g, s, c, t);
    if Lowered(g, s, c, h) {
      LoweredFacts(g, s, c, h);
    }
  }

  lemma VisitHopsFixed(g: Graph, s: Search, c: Addr, t: Search)
    requires Visit(g, s, c, t)
    requires SelfSeeded(g, s) && NbrsSeeded(g, s) && TopoKeyed(g, s) && PhantomsAtZero(g, s)
    requires HopsFixed(g, s)
    ensures HopsFixed(g, t)
  {
    VisitFacts(g, s, c, t);
    forall x | x in t.prev
      ensures IsFirstHop(g, t, t.prev[x])
    {
      if Lowered(g, s, c, x) {
        LoweredFacts(g, s, c, x);
        if c == g.self {
          assert t.prev[x] == x && x in LinksOf(g, g.self);
        } else {
          FirstHopKept(g, s, c, t, s.prev[c]);
        }
      } else {
        FirstHopKept(g, s, c, t, s.prev[x]);
      }
    }
  }

  lemma VisitOrdered(g: Graph, s: Search, c: Addr, t: Search)
    requires Visit(g, s, c, t)
    requires SelfSeeded(g, s) && TopoKeyed(g, s)
    requires VisitedReached(s) && SelfFirst(g, s) && VisitOrder(s)
    ensures VisitedReached(t) && SelfFirst(g, t) && VisitOrder(t)
  {
    VisitFacts(g, s, c, t);
    if SelfDist(g) == 0 && s.visited == {} {
      assert s.dist[c] <= s.dist[g.self];
    }
    forall v, u | v in t.visited && v in t.dist && u in t.dist && u !in t.visited && t.dist[u] != 0
      ensures t.dist[v] <= t.dist[u]
    {
    }
  }

  /** A lowered address ends up beyond every visited address. */
  lemma LoweredBeyondVisited(g: Graph, s: Search, c: Addr, t: Search)
    requires Visit(g, s, c, t)
    requires SelfSeeded(g, s) && NbrsSeeded(g, s) && TopoKeyed(g, s) && PhantomsAtZero(g, s)
    requires SelfFirst(g, s) && VisitOrder(s)
    ensures forall u, v :: Lowered(g, s, c, u) && u in t.dist && v in t.visited && v in t.dist ==>
      t.dist[v] < t.dist[u]
  {
    VisitFacts(g, s, c, t);
    forall u, v | Lowered(g, s, c, u) && u in t.dist && v in t.visited && v in t.dist
      ensures t.dist[v] < t.dist[u]
    {
      LoweredFacts(g, s, c, u);
    }
  }

  lemma VisitTies(g: Graph, s: Search, c: Addr, t: Search)
    requires Visit(g, s, c, t)
    requires SelfSeeded(g, s) && NbrsSeeded(g, s) && TopoKeyed(g, s) && PhantomsAtZero(g, s)
    requires SelfFirst(g, s) && VisitOrder(s) && TieOrder(s)
    ensures TieOrder(t)
  {
    VisitFacts(g, s, c, t);
    LoweredBeyondVisited(g, s, c, t);
  }

  lemma VisitFrontier(g: Graph, s: Search, c: Addr, t: Search)
    requires Visit(g, s, c, t)
    requires Frontier(g, s)
    ensures Frontier(g, t)
  {
    VisitFacts(g, s, c, t);
    forall v, w | v in t.visited && v in g.topo && w in g.topo[v].ls
      ensures w in t.visited || (w in t.dist && v in t.dist && t.dist[w] as int <= t.dist[v] as int + 1)
    {
      if v == c {
        assert w in LinksOf(g, c);
      }
    }
  }

  lemma VisitDistBound(g: Graph, s: Search, c: Addr, t: Search)
    requires Visit(g, s, c, t)
    requires DistBound(s)
    ensures DistBound(t)
  {
    VisitFacts(g, s, c, t);
    assert |t.visited| == |s.visited| + 1;
  }

  lemma VisitSound(g: Graph, s: Search, c: Addr, t: Search)
    requires Visit(g, s, c, t) && Sound(g, s)
    ensures Sound(g, t)
  {
    VisitFacts(g, s, c, t);
    forall x | x in t.dist && t.dist[x] < U32Max
      ensures Reachable(g, x)
    {
      if x !in s.dist || t.dist[x] != s.dist[x] {
        assert x in LinksOf(g, c);
        ReachStep(g, c, x);
      }
    }
  }

  /** An address that some visited node lists is within one step of the
      node visited next, so that visit does not lower it. */
  lemma ListedNotLowered(g: Graph, s: Search, c: Addr, x: Addr)
    requires IsNext(s, c) && c in g.topo
    requires SelfSeeded(g, s) && TopoKeyed(g, s)
    requires SelfFirst(g, s) && VisitOrder(s) && Frontier(g, s)
    ensures forall u :: Lists(g, s, u, x) ==> !Lowered(g, s, c, x)
  {
    forall u | Lists(g, s, u, x) && x !in s.visited
      ensures x in s.dist && s.dist[x] as int <= s.dist[c] as int + 1
    {
      assert s.dist[u] <= s.dist[c];
    }
  }

  /** A visit leaves the distance and first hop of every address it does
      not lower as they were. */
  lemma UnloweredKept(g: Graph, s: Search, c: Addr, t: Search, y: Addr)
    requires Visit(g, s, c, t) && y in s.dist && !Lowered(g, s, c, y)
    ensures y in t.dist && t.dist[y] == s.dist[y] && SameAt(s.prev, t.prev, y)
  {
    assert RelaxedAt(g, s.(visited := t.visited), c, t.dist, t.prev, y);
  }

  /** A visit that lowers `x` gives it the visited node's distance plus one
      and the visited node's first hop. */
  lemma LoweredAt(g: Graph, s: Search, c: Addr, t: Search, x: Addr)
    requires Visit(g, s, c, t) && Lowered(g, s, c, x)
    ensures x in t.dist && t.dist[x] as int == s.dist[c] as int + 1
    ensures x in t.prev && t.prev[x] == Hop(g, s.prev, c, x)
  {
    assert RelaxedAt(g, s.(visited := t.visited), c, t.dist, t.prev, x);
  }

  /** A visit that lowers `x` makes the visited node its provenance: no
      earlier visited node lists `x`. */
  lemma ProvenanceLowered(g: Graph, s: Search, c: Addr, t: Search, x: Addr)
    requires Visit(g, s, c, t) && Lowered(g, s, c, x)
    requires SelfSeeded(g, s) && TopoKeyed(g, s) && VisitedReached(s)
    requires SelfFirst(g, s) && VisitOrder(s) && Frontier(g, s)
    ensures ReachedFrom(g, t, c, x)
  {
    LoweredAt(g, s, c, t, x);
    UnloweredKept(g, s, c, t, c);
    ListedNotLowered(g, s, c, x);
  }

  /** The node visited next, if it lists an address it does not lower,
      comes after that address's provenance in (distance, address) order. */
  lemma NextListerLater(g: Graph, s: Search, c: Addr, x: Addr, v: Addr)
    requires IsNext(s, c) && c in g.topo && c != x && x in g.topo[c].ls
    requires !Lowered(g, s, c, x) && ReachedFrom(g, s, v, x)
    requires SelfSeeded(g, s) && TopoKeyed(g, s)
    requires SelfFirst(g, s) && VisitOrder(s) && TieOrder(s)
    ensures NotAfter(s, v, c)
  {
  }

  /** A visit that does not lower `x` keeps its provenance. */
  lemma ProvenanceKept(g: Graph, s: Search, c: Addr, t: Search, x: Addr, v: Addr)
    requires Visit(g, s, c, t) && !Lowered(g, s, c, x) && ReachedFrom(g, s, v, x)
    requires SelfSeeded(g, s) && TopoKeyed(g, s) && VisitedReached(s)
    requires SelfFirst(g, s) && VisitOrder(s) && TieOrder(s)
    ensures ReachedFrom(g, t, v, x)
  {
    UnloweredKept(g, s, c, t, x);
    UnloweredKept(g, s, c, t, v);
    UnloweredKept(g, s, c, t, c);
    if c in g.topo && c != x && x in g.topo[c].ls {
      NextListerLater(g, s, c, x, v);
    }
    forall u | Lists(g, t, u, x)
      ensures NotAfter(t, v, u)
    {
      if u != c {
        UnloweredKept(g, s, c, t, u);
        assert Lists(g, s, u, x);
      }
    }
  }

  lemma VisitProvenance(g: Graph, s: Search, c: Addr, t: Search)
    requires Visit(g, s, c, t) && Provenance(g, s)
    requires SelfSeeded(g, s) && NbrsSeeded(g, s) && TopoKeyed(g, s) && PhantomsAtZero(g, s)
    requires VisitedReached(s) && SelfFirst(g, s) && VisitOrder(s) && TieOrder(s) && Frontier(g, s)
    ensures Provenance(g, t)
  {
    VisitFacts(g, s, c, t);
    forall x | x in t.dist && x != g.self && x !in g.nbrs && 0 < t.dist[x] < U32Max
      ensures exists v :: ReachedFrom(g, t, v, x)
    {
      if Lowered(g, s, c, x) {
        ProvenanceLowered(g, s, c, t, x);
      } else {
        assert x in s.dist;
        var v :| ReachedFrom(g, s, v, x);
        ProvenanceKept(g, s, c, t, x, v);
      }
    }
  }

  lemma VisitInv(g: Graph, s: Search, c: Addr, t: Search)
    requires Inv(g, s) && Visit(g, s, c, t)
    ensures Inv(g, t)
  {
    VisitShape(g, s, c, t);
    VisitHopKeys(g, s, c, t);
    VisitHopsFixed(g, s, c, t);
    VisitOrdered(g, s, c, t);
    VisitTies(g, s, c, t);
    VisitFrontier(g, s, c, t);
    VisitDistBound(g, s, c, t);
    VisitSound(g, s, c, t);
    VisitProvenance(g, s, c, t);
  }

  /** One iteration of the main loop after the selection: mark `c`
      visited and, if it has a topology entry, relax its link set. */
  method VisitOne(g: Graph, s: Search, c: Addr) returns (t: Search)
    requires IsNext(s, c)
    requires c in g.topo ==> c == g.self || c in s.prev
    ensures Visit(g, s, c, t)
  {
    var s1 := s.(visited := s.visited + {c});
    if c in g.topo {
      var dist, prev := Relax(g, s1, c);
      t := Search(dist, prev, s1.visited);
    } else {
      t := s1;
      forall v
        ensures RelaxedAt(g, s1, c, t.dist, t.prev, v)
      {
      }
    }
  }

  /** The selected node can be visited: it is not yet visited, it belongs to
      the universe, and unless it is self it has a first hop to pass on. */
  lemma NextVisitable(g: Graph, s: Search, c: Addr)
    requires Inv(g, s) && IsNext(s, c)
    ensures c !in s.visited && c in Universe(g)
    ensures c in g.topo ==> c == g.self || c in s.prev
  {
  }

  // ---------------------------------------------------------------------
  // The run: a loop state is determined by how many visits led to it

  /** The same state admits one visit only, and it has one outcome: the
      tie-break selects one node and relaxation is a function of it. */
  lemma VisitDeterministic(g: Graph, s: Search, c: Addr, t: Search, c': Addr, t': Search)
    requires Visit(g, s, c, t) && Visit(g, s, c', t')
    ensures c == c' && t == t'
  {
    NextUnique(s, c, c');
    var s1 := s.(visited := t.visited);
    forall v
      ensures (v in t.dist <==> v in t'.dist) && (v in t.dist ==> t.dist[v] == t'.dist[v])
      ensures (v in t.prev <==> v in t'.prev) && (v in t.prev ==> t.prev[v] == t'.prev[v])
    {
      assert RelaxedAt(g, s1, c, t.dist, t.prev, v);
      assert RelaxedAt(g, s1, c, t'.dist, t'.prev, v);
    }
  }

  /** `s` is the loop state of calculateShortestPath after `k` visits: the
      seeded state for 0, one visit of the selected node further for
      `k + 1`. */
  ghost predicate AfterVisits(g: Graph, k: nat, s: Search)
    decreases k
  {
    if k == 0 then s == Seed(g)
    else exists p: Search, c: Addr :: AfterVisits(g, k - 1, p) && Visit(g, p, c, s)
  }

  /** Where the main loop stops: nothing left, or, with the visit cap of
      calculateShortestPath as written, `|topology| + 1` visits; with the
      cap it never runs past that count. */
  predicate Halted(g: Graph, capVisits: bool, s: Search)
  {
    && (capVisits ==> |s.visited| <= |g.topo| + 1)
    && (Exhausted(s) || (capVisits && |s.visited| == |g.topo| + 1))
  }

  /** One more visit is one more step of the run. */
  lemma AfterVisitsStep(g: Graph, s: Search, c: Addr, t: Search)
    requires AfterVisits(g, |s.visited|, s) && Visit(g, s, c, t)
    ensures AfterVisits(g, |t.visited|, t)
  {
    assert |t.visited| == |s.visited| + 1;
  }

  /** Every state of the run satisfies the loop invariant. */
  lemma {:induction false} AfterVisitsInv(g: Graph, k: nat, s: Search)
    requires AfterVisits(g, k, s)
    ensures Inv(g, s)
    decreases k
  {
    if k == 0 {
      SeedInv(g);
    } else {
      var p, c := Predecessor(g, k, s);
      AfterVisitsInv(g, k - 1, p);
      VisitInv(g, p, c, s);
    }
  }

  /** Every visit adds one node, so the step count is the visited count. */
  lemma {:induction false} AfterVisitsCount(g: Graph, k: nat, s: Search)
    requires AfterVisits(g, k, s)
    ensures |s.visited| == k
    decreases k
  {
    if k > 0 {
      var p, c := Predecessor(g, k, s);
      AfterVisitsCount(g, k - 1, p);
    }
  }

  /** The state one visit before `s`, and the node visited from it. */
  lemma Predecessor(g: Graph, k: nat, s: Search) returns (p: Search, c: Addr)
    requires k > 0 && AfterVisits(g, k, s)
    ensures AfterVisits(g, k - 1, p) && Visit(g, p, c, s)
  {
    p, c :| AfterVisits(g, k - 1, p) && Visit(g, p, c, s);
  }

  /** There is one state after `k` visits. */
  lemma {:induction false} AfterVisitsUnique(g: Graph, k: nat, s: Search, s': Search)
    requires AfterVisits(g, k, s) && AfterVisits(g, k, s')
    ensures s == s'
    decreases k
  {
    if k > 0 {
      var p, c := Predecessor(g, k, s);
      var p', c' := Predecessor(g, k, s');
      AfterVisitsUnique(g, k - 1, p, p');
      VisitDeterministic(g, p, c, s, c', s');
    }
  }

  /** Every state on the way to `s` still had a node to select. */
  lemma {:induction false} AfterVisitsEarlier(g: Graph, k: nat, s: Search, j: nat, q: Search)
    requires AfterVisits(g, k, s) && AfterVisits(g, j, q) && j < k
    ensures !Exhausted(q)
    decreases k
  {
    var p := Unfinished(g, k, s);
    if j < k - 1 {
      AfterVisitsEarlier(g, k - 1, p, j, q);
    } else {
      AfterVisitsUnique(g, j, p, q);
    }
  }

  /** The state before a visit still had something left. */
  lemma Unfinished(g: Graph, k: nat, s: Search) returns (p: Search)
    requires k > 0 && AfterVisits(g, k, s)
    ensures AfterVisits(g, k - 1, p) && !Exhausted(p)
  {
    var c;
    p, c := Predecessor(g, k, s);
    assert IsNext(p, c);
  }

  /** The loop stops at the first halted state: no earlier state on its
      run is halted. */
  lemma EarlierNotHalted(g: Graph, capVisits: bool, k: nat, s: Search, j: nat, p: Search)
    requires AfterVisits(g, k, s) && Halted(g, capVisits, s) && AfterVisits(g, j, p)
    ensures j < k ==> !Halted(g, capVisits, p)
  {
    if j < k {
      AfterVisitsEarlier(g, k, s, j, p);
      AfterVisitsCount(g, j, p);
      AfterVisitsCount(g, k, s);
    }
  }

  /** calculateShortestPath has one outcome: two halted states of the run,
      with the same cap setting, are the same state. */
  lemma RunUnique(g: Graph, capVisits: bool, s: Search, s': Search)
    requires AfterVisits(g, |s.visited|, s) && Halted(g, capVisits, s)
    requires AfterVisits(g, |s'.visited|, s') && Halted(g, capVisits, s')
    ensures s == s'
  {
    var k, k' := |s.visited|, |s'.visited|;
    EarlierNotHalted(g, capVisits, k, s, k', s');
    EarlierNotHalted(g, capVisits, k', s', k, s);
    assert k == k';
    AfterVisitsUnique(g, k, s, s');
  }

  // ---------------------------------------------------------------------
  // The computation

  /** One iteration of the main loop: select the next node and, if there
      is one, visit it. The invariant is kept and exactly that node joins
      the visited set; no selection means nothing is left. */
  method Iterate(g: Graph, s: Search) returns (next: Option<Addr>, t: Search)
    requires Inv(g, s)
    ensures next.None? ==> Exhausted(s) && t == s
    ensures next.Some? ==> IsNext(s, next.value) && next.value in Universe(g)
    ensures next.Some? ==> t.visited == s.visited + {next.value} && next.value !in s.visited
    ensures next.Some? ==> Visit(g, s, next.value, t)
    ensures Inv(g, t)
    ensures AfterVisits(g, |s.visited|, s) ==> AfterVisits(g, |t.visited|, t)
  {
    next := SelectMin(s);
    SelectMinSpec(s);
    if next.None? {
      t := s;
    } else {
      var c := next.value;
      NextVisitable(g, s, c);
      t := VisitOne(g, s, c);
      VisitInv(g, s, c, t);
      if AfterVisits(g, |s.visited|, s) {
        AfterVisitsStep(g, s, c, t);
      }
    }
  }

  /** calculateShortestPath up to the call of updateRoutes. With
      `capVisits` the loop runs while fewer than `|topology| + 1` nodes are
      visited, as calculateShortestPath does; without it, until no unvisited node has a
      finite distance. */
  method RunSearch(g: Graph, capVisits: bool) returns (s: Search)
    ensures Inv(g, s) && AfterVisits(g, |s.visited|, s)
    ensures Halted(g, capVisits, s)
  {
    s := Seed(g);
    assert AfterVisits(g, 0, s);
    while !capVisits || |s.visited| < |g.topo| + 1
      invariant AfterVisits(g, |s.visited|, s)
      invariant capVisits ==> |s.visited| <= |g.topo| + 1
      decreases Universe(g) - s.visited
    {
      AfterVisitsInv(g, |s.visited|, s);
      var next, t := Iterate(g, s);
      if next.None? {
        break;
      }
      s := t;
    }
    AfterVisitsInv(g, |s.visited|, s);
  }

  /** Following first hops is sound: every address with a first hop is
      reached along a walk from self whose first step is that hop. For a
      node reached from another one, the walk is the other node's walk plus
      one link. */
  lemma {:induction false} HopWalk(g: Graph, s: Search, x: Addr)
    requires NbrsSeeded(g, s) && TopoKeyed(g, s) && HopKeys(g, s) && Provenance(g, s)
    requires x in s.prev
    ensures LeadsVia(g, s.prev[x], x)
    decreases if x in s.dist then s.dist[x] as int else 0
  {
    if x in g.nbrs {
      assert IsWalk(g, [g.self, x]);
    } else {
      var v :| ReachedFrom(g, s, v, x);
      if v == g.self {
        assert IsWalk(g, [g.self, x]);
      } else {
        HopWalk(g, s, v);
        LeadsViaStep(g, s.prev[v], v, x);
      }
    }
  }

  /** What the invariant says about the finished computation. */
  lemma InvConsequences(g: Graph, s: Search)
    requires Inv(g, s)
    ensures g.self in s.dist && s.dist[g.self] == SelfDist(g)
    ensures forall n :: n in g.nbrs ==> n in s.prev && s.prev[n] == n && s.dist[n] == 1
    ensures forall x :: x in s.prev <==>
      x in g.nbrs || (x in g.topo && x != g.self && x in s.dist && s.dist[x] < U32Max)
    ensures forall x :: x in s.prev ==>
      s.prev[x] in s.prev && s.prev[s.prev[x]] == s.prev[x] && s.prev[x] in FirstHops(g)
    ensures forall x :: x in s.visited ==> Reachable(g, x)
    ensures forall x :: x in s.prev ==> LeadsVia(g, s.prev[x], x)
  {
    assert HopsFixed(g, s);
    forall x | x in s.prev
      ensures LeadsVia(g, s.prev[x], x)
    {
      HopWalk(g, s, x);
    }
  }

  /** calculateShortestPath up to the call of updateRoutes: self keeps its
      seed distance, every neighbour is its own first hop at distance 1,
      exactly the neighbours and the reached non-self topology nodes get a
      first hop, every first hop is its own first hop and a neighbour or a
      member of self's link set, and only reachable nodes are visited. */
  method ShortestPaths(g: Graph, capVisits: bool) returns (s: Search)
    ensures Inv(g, s)
    ensures g.self in s.dist && s.dist[g.self] == SelfDist(g)
    ensures forall n :: n in g.nbrs ==> n in s.prev && s.prev[n] == n && s.dist[n] == 1
    ensures forall x :: x in s.prev <==>
      x in g.nbrs || (x in g.topo && x != g.self && x in s.dist && s.dist[x] < U32Max)
    ensures forall x :: x in s.prev ==>
      s.prev[x] in s.prev && s.prev[s.prev[x]] == s.prev[x] && s.prev[x] in FirstHops(g)
    ensures forall x :: x in s.visited ==> Reachable(g, x)
    ensures forall x :: x in s.prev ==> LeadsVia(g, s.prev[x], x)
    ensures AfterVisits(g, |s.visited|, s) && Halted(g, capVisits, s)
  {
    s := RunSearch(g, capVisits);
    InvConsequences(g, s);
  }

  // ---------------------------------------------------------------------
  // updateRoutes

  /** updateRoutes: one route, metric 1, for every destination other than
      self whose first hop is not itself. */
  function RoutesFrom(self: Addr, prev: map<Addr, Addr>): (r: set<Route>)
    ensures forall rt :: rt in r <==>
      rt.dest in prev && rt.dest != self && rt.nextHop == prev[rt.dest]
        && rt.nextHop != rt.dest && rt.metric == 1
  {
    set d | d in prev && d != self && d != prev[d] :: Route(d, prev[d], 1)
  }

  /** A routing table as updateRoutes installs it: metric 1, never for self,
      never to a next hop equal to the destination, at most one route per
      destination. */
  ghost predicate WellFormedRoutes(self: Addr, routes: set<Route>)
  {
    && (forall r :: r in routes ==> r.metric == 1 && r.dest != self && r.dest != r.nextHop)
    && (forall r, r' :: r in routes && r' in routes && r.dest == r'.dest ==> r == r')
  }

  /** calculateShortestPath followed by updateRoutes: the new MANET routes,
      which replace the old ones wholesale. */
  method ComputeRoutes(g: Graph, capVisits: bool) returns (routes: set<Route>, ghost s: Search)
    ensures Inv(g, s) && routes == RoutesFrom(g.self, s.prev)
    ensures AfterVisits(g, |s.visited|, s) && Halted(g, capVisits, s)
    ensures WellFormedRoutes(g.self, routes)
    ensures forall r :: r in routes ==>
      r.dest !in g.nbrs && r.dest in g.topo && r.nextHop in FirstHops(g)
    ensures forall r :: r in routes ==> LeadsVia(g, r.nextHop, r.dest)
    ensures forall r, r' :: r in routes && r' in routes ==> r'.dest != r.nextHop
  {
    var search := ShortestPaths(g, capVisits);
    s := search;
    routes := RoutesFrom(g.self, search.prev);
  }

  // ---------------------------------------------------------------------
  // What the result covers

  lemma {:induction false} SubsetSize<T>(a: set<T>, b: set<T>)
    requires a <= b
    ensures |a| <= |b|
    ensures |a| == |b| ==> a == b
    decreases |b|
  {
    if a != {} {
      var x :| x in a;
      SubsetSize(a - {x}, b - {x});
      assert a == (a - {x}) + {x};
      assert b == (b - {x}) + {x};
    } else if |b| == 0 {
      assert b == {};
    }
  }

  /** If no distance is close to UINT32_MAX, an exhausted search has
      visited every reachable address. */
  lemma Completeness(g: Graph, s: Search, x: Addr)
    requires Inv(g, s) && Exhausted(s)
    requires |Universe(g)| < U32Max - 2
    requires Reachable(g, x)
    ensures x in s.visited
  {
    SubsetSize(s.visited, Universe(g));
    var p :| IsWalk(g, p) && p[|p| - 1] == x;
    WalkVisited(g, s, p, |p| - 1);
  }

  lemma {:induction false} WalkVisited(g: Graph, s: Search, p: seq<Addr>, i: nat)
    requires SelfSeeded(g, s) && NbrsSeeded(g, s) && VisitedReached(s)
    requires Frontier(g, s) && DistBound(s) && Exhausted(s)
    requires |s.visited| < U32Max - 2
    requires IsWalk(g, p) && i < |p|
    ensures p[i] in s.visited
  {
    if i > 0 {
      WalkVisited(g, s, p, i - 1);
      var u, v := p[i - 1], p[i];
      assert Edge(g, u, v);
    }
  }

  /** Exhausted, every reachable topology node other than self has a first
      hop, and a route unless that first hop is itself. */
  lemma RoutedIfReachable(g: Graph, s: Search, x: Addr)
    requires Inv(g, s) && Exhausted(s)
    requires |Universe(g)| < U32Max - 2
    requires Reachable(g, x) && x in g.topo && x != g.self
    ensures x in s.prev
    ensures x !in FirstHops(g) ==> Route(x, s.prev[x], 1) in RoutesFrom(g.self, s.prev)
  {
    Completeness(g, s, x);
  }

  /** The visit cap is harmless when every neighbour and every link-set
      member has a topology entry of its own: the capped loop then also
      ends exhausted. */
  lemma CapHarmless(g: Graph, s: Search)
    requires Inv(g, s) && |s.visited| == |g.topo| + 1
    requires Universe(g) <= g.topo.Keys + {g.self}
    ensures Exhausted(s)
  {
    var all := g.topo.Keys + {g.self};
    SubsetSize(s.visited, all);
    assert |all| <= |g.topo.Keys| + 1;
    SubsetSize(s.visited, all);
    assert s.visited == all;
  }
}
