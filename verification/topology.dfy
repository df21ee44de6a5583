/** The topology table: one entry per originator whose link state this node
    has accepted, plus the node's own entry. Covers initNode, the freshness
    gate and replacement of processLSP, and decrementAge. */
module Topology {
  import opened Numeric
  import opened Codec

  /** `tt_entry_t`: the originator's link set, the sequence number of the
      LSP it came from, and the number of aging ticks since then. */
  datatype TtEntry = TtEntry(ls: set<Addr>, seqNo: U32, age: U32)

  type Table = map<Addr, TtEntry>

  /** initNode: the node's own entry is (re)set to an empty link set with
      sequence number and age zero. */
  function InitNode(t: Table, self: Addr): (r: Table)
    ensures self in r && r[self].ls == {} && r[self].seqNo == 0 && r[self].age == 0
    ensures r.Keys == t.Keys + {self}
    ensures forall a :: a in t && a != self ==> r[a] == t[a]
  {
    t[self := TtEntry({}, 0, 0)]
  }

  // ---------------------------------------------------------------------
  // Accepting an LSP

  /** Every address an LSP mentions: the node of each entry and each of its
      neighbours. */
  function LinkSet(es: seq<LspEntry>): (r: set<Addr>)
    ensures forall x :: x in r <==>
      exists i :: 0 <= i < |es| && (x == es[i].node || x in es[i].neighbors)
  {
    if es == [] then {}
    else
      var rest := LinkSet(es[1..]);
      assert forall x :: x in rest <==>
        exists i :: 1 <= i < |es| && (x == es[i].node || x in es[i].neighbors) by {
        forall x
          ensures x in rest <==>
            exists i :: 1 <= i < |es| && (x == es[i].node || x in es[i].neighbors)
        {
          if x in rest {
            var j :| 0 <= j < |es[1..]| && (x == es[1..][j].node || x in es[1..][j].neighbors);
            assert es[j + 1] == es[1..][j];
          }
          if exists i :: 1 <= i < |es| && (x == es[i].node || x in es[i].neighbors) {
            var i :| 1 <= i < |es| && (x == es[i].node || x in es[i].neighbors);
            assert es[1..][i - 1] == es[i];
          }
        }
      }
      {es[0].node} + (set x | x in es[0].neighbors) + rest
  }

  /** The freshness test of processLSP: an LSP is new when its originator is
      unknown or it carries a higher sequence number than the stored one. */
  predicate IsFresh(t: Table, p: Packet)
  {
    p.src !in t || p.seqNo > t[p.src].seqNo
  }

  /** processLSP's table update. A stale or duplicate LSP (sequence number
      not above the stored one) is ignored; otherwise the originator's entry
      is replaced by the LSP's link set, its sequence number and age zero.
      Returns the new table and whether the LSP was accepted. */
  function ApplyLsp(t: Table, p: Packet): (r: (Table, bool))
    ensures r.1 <==> IsFresh(t, p)
    ensures !r.1 ==> r.0 == t
    ensures r.1 ==> p.src in r.0 && r.0[p.src] == TtEntry(LinkSet(p.entries), p.seqNo, 0)
    ensures r.0.Keys == if r.1 then t.Keys + {p.src} else t.Keys
    ensures forall a :: a in t && a != p.src ==> r.0[a] == t[a]
  {
    if p.src in t && p.seqNo <= t[p.src].seqNo then (t, false)
    else (t[p.src := TtEntry(LinkSet(p.entries), p.seqNo, 0)], true)
  }

  /** Once an LSP is accepted, the same LSP (or any older one from that
      originator) is rejected until the entry ages out. */
  lemma AcceptedThenStale(t: Table, p: Packet, q: Packet)
    requires ApplyLsp(t, p).1
    requires q.src == p.src && q.seqNo <= p.seqNo
    ensures !ApplyLsp(ApplyLsp(t, p).0, q).1
    ensures ApplyLsp(ApplyLsp(t, p).0, q).0 == ApplyLsp(t, p).0
  {
  }

  // ---------------------------------------------------------------------
  // Aging

  /** The expiry threshold. `lifeTime` is an `int` compared with a
      `uint32_t` age, so it is converted to unsigned first. */
  function AgeLimit(lifeTime: I32): U32
  {
    ToUnsigned(lifeTime)
  }

  /** decrementAge: every entry's age is incremented (as a `uint32_t`) and
      the entries whose new age exceeds the limit are erased. */
  function DecrementAge(t: Table, limit: U32): (r: Table)
    ensures forall a :: a in r <==> a in t && WrapInc(t[a].age) <= limit
    ensures forall a :: a in r ==>
      r[a].age == WrapInc(t[a].age) && r[a].ls == t[a].ls && r[a].seqNo == t[a].seqNo
  {
    map a | a in t && WrapInc(t[a].age) <= limit :: t[a].(age := WrapInc(t[a].age))
  }

  /** All ages are within the limit. */
  predicate AgesWithin(t: Table, limit: U32)
  {
    forall a :: a in t ==> t[a].age <= limit
  }

  /** After a tick, every remaining entry is within the limit. */
  lemma AgedWithin(t: Table, limit: U32)
    ensures AgesWithin(DecrementAge(t, limit), limit)
  {
  }

  /** `k` consecutive aging ticks with no LSP in between. */
  function Ticks(t: Table, limit: U32, k: nat): Table
  {
    if k == 0 then t else Ticks(DecrementAge(t, limit), limit, k - 1)
  }

  /** With a limit below UINT32_MAX and ages within it, an entry of age `a`
      survives exactly `limit - a` ticks: after `k` ticks it is present iff
      `a + k <= limit`, with age `a + k` and link set and sequence number
      untouched. */
  lemma {:induction false} TicksAge(t: Table, limit: U32, k: nat, x: Addr)
    requires limit < U32Max
    requires x in t && t[x].age <= limit
    ensures x in Ticks(t, limit, k) <==> t[x].age + k <= limit
    ensures x in Ticks(t, limit, k) ==>
      Ticks(t, limit, k)[x] == t[x].(age := t[x].age + k)
  {
    if k > 0 {
      var t1 := DecrementAge(t, limit);
      if x in t1 {
        TicksAge(t1, limit, k - 1, x);
      } else {
        TicksGone(t1, limit, k - 1, x);
      }
    }
  }

  /** An erased entry stays erased while only aging happens. */
  lemma {:induction false} TicksGone(t: Table, limit: U32, k: nat, x: Addr)
    requires x !in t
    ensures x !in Ticks(t, limit, k)
  {
    if k > 0 {
      TicksGone(DecrementAge(t, limit), limit, k - 1, x);
    }
  }

  /** An entry created with age 0 (an accepted LSP, or the node's own entry
      from initNode) is present through tick `limit` and erased by tick
      `limit + 1`, unless a newer LSP refreshes it first. */
  lemma ExpiresAfterLifetime(t: Table, limit: U32, x: Addr)
    requires limit < U32Max
    requires x in t && t[x].age == 0
    ensures x in Ticks(t, limit, limit)
    ensures x !in Ticks(t, limit, limit + 1)
  {
    TicksAge(t, limit, limit, x);
    TicksAge(t, limit, limit + 1, x);
  }

  /** With `lifeTime == -1` the limit is UINT32_MAX: the `uint32_t` age wraps
      to zero instead of exceeding it, and no entry ever expires. */
  lemma NeverExpires(t: Table)
    ensures DecrementAge(t, AgeLimit(-1)).Keys == t.Keys
  {
  }
}
