/** The neighbour set and the neighbour-timeout map (addNeighbor,
    removeNeighbor). A timer is modelled by the key it is filed under; its
    deadline is simulation time and is not modelled. */
module Neighbors {
  import opened Codec

  /** `neighbors` and the key set of `neighborTimeouts`. */
  datatype NeighborTable = NeighborTable(members: set<Addr>, timers: set<Addr>)

  const Empty := NeighborTable({}, {})

  /** Every neighbour has exactly one timer and every timer belongs to a
      neighbour. */
  predicate Synced(t: NeighborTable)
  {
    t.timers == t.members
  }

  /** addNeighbor: a new neighbour is inserted and gets a fresh timer (any
      old timer under that key is replaced); a known neighbour only has its
      timer rescheduled, which leaves both sets as they were. */
  function AddNeighbor(t: NeighborTable, a: Addr): (r: NeighborTable)
    ensures r.members == t.members + {a}
    ensures a in t.members ==> r == t
    ensures a !in t.members ==> r.timers == t.timers + {a}
  {
    if a !in t.members then NeighborTable(t.members + {a}, t.timers + {a})
    else t
  }

  /** removeNeighbor (without the route recomputation it ends with): the
      address leaves the set and its timer is cancelled and erased. */
  function RemoveNeighbor(t: NeighborTable, a: Addr): (r: NeighborTable)
    ensures a !in r.members && a !in r.timers
    ensures forall b :: b != a ==> (b in r.members <==> b in t.members)
    ensures forall b :: b != a ==> (b in r.timers <==> b in t.timers)
  {
    NeighborTable(t.members - {a}, t.timers - {a})
  }

  /** Hearing a neighbour twice is the same as hearing it once. */
  lemma AddIdempotent(t: NeighborTable, a: Addr)
    ensures AddNeighbor(AddNeighbor(t, a), a) == AddNeighbor(t, a)
  {
  }

  /** Both operations keep the timer keys equal to the neighbour set. */
  lemma SyncedPreserved(t: NeighborTable, a: Addr)
    requires Synced(t)
    ensures Synced(AddNeighbor(t, a))
    ensures Synced(RemoveNeighbor(t, a))
  {
  }

  /** Removing a neighbour that was just added restores a table that did
      not know it. */
  lemma RemoveUndoesAdd(t: NeighborTable, a: Addr)
    requires a !in t.members && a !in t.timers
    ensures RemoveNeighbor(AddNeighbor(t, a), a) == t
  {
    assert t.members + {a} - {a} == t.members;
    assert t.timers + {a} - {a} == t.timers;
  }

  /** Adding back a neighbour that was just removed restores a synced
      table that knew it. */
  lemma AddUndoesRemove(t: NeighborTable, a: Addr)
    requires Synced(t) && a in t.members
    ensures AddNeighbor(RemoveNeighbor(t, a), a) == t
  {
    assert t.members - {a} + {a} == t.members;
  }
}
