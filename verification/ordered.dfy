/** Ascending enumeration of a finite set of 32-bit values: the iteration
    order of `std::set<Ipv4Address>` and of the keys of
    `std::map<Ipv4Address, T>`, which compare addresses numerically. */
module Ordered {
  import opened Numeric

  /** Strictly increasing, hence duplicate-free. */
  predicate Increasing(xs: seq<U32>)
  {
    forall i, j :: 0 <= i < j < |xs| ==> xs[i] < xs[j]
  }

  /** A least element of a non-empty set, found by removing an arbitrary
      element and comparing it with the least of the rest. */
  ghost function MinOf(s: set<U32>): (m: U32)
    requires s != {}
    ensures m in s
    ensures forall y :: y in s ==> m <= y
    decreases |s|
  {
    var x :| x in s;
    if s == {x} then x
    else
      var m := MinOf(s - {x});
      assert forall y :: y in s ==> y == x || y in s - {x};
      if x < m then x else m
  }

  /** Every non-empty finite set of integers has a least element. */
  lemma HasMinimum(s: set<U32>)
    requires s != {}
    ensures exists m :: m in s && forall y :: y in s ==> m <= y
  {
    var m := MinOf(s);
    assert m in s && forall y :: y in s ==> m <= y;
  }

  /** The least element of a non-empty set. */
  function Least(s: set<U32>): (m: U32)
    requires s != {}
    ensures m in s
    ensures forall y :: y in s ==> m <= y
  {
    HasMinimum(s);
    var m :| m in s && forall y :: y in s ==> m <= y;
    m
  }

  /** The elements of `s` in ascending order. */
  function Ascending(s: set<U32>): (r: seq<U32>)
    ensures Increasing(r)
    ensures |r| == |s|
    ensures forall x :: x in r <==> x in s
    decreases |s|
  {
    if s == {} then []
    else
      var m := Least(s);
      var rest := Ascending(s - {m});
      assert forall i :: 0 <= i < |rest| ==> m < rest[i] by {
        forall i | 0 <= i < |rest|
          ensures m < rest[i]
        {
          assert rest[i] in s - {m};
        }
      }
      [m] + rest
  }

  /** An increasing sequence is determined by its elements, so `Ascending`
      is the only increasing enumeration of a set. */
  lemma {:induction false} AscendingUnique(xs: seq<U32>, s: set<U32>)
    requires Increasing(xs)
    requires forall x :: x in xs <==> x in s
    ensures xs == Ascending(s)
    decreases |xs|
  {
    if xs == [] {
      assert s == {} by {
        forall x
          ensures x !in s
        {
          assert x !in xs;
        }
      }
    } else {
      var m := xs[0];
      HeadIsLeast(xs, s);
      TailElements(xs, s);
      AscendingUnique(xs[1..], s - {m});
      assert xs == [m] + xs[1..];
    }
  }

  lemma HeadIsLeast(xs: seq<U32>, s: set<U32>)
    requires xs != [] && Increasing(xs)
    requires forall x :: x in xs <==> x in s
    ensures s != {} && Least(s) == xs[0]
  {
    assert xs[0] in s;
    forall y | y in s
      ensures xs[0] <= y
    {
      var k :| 0 <= k < |xs| && xs[k] == y;
      if k > 0 {
        assert xs[0] < xs[k];
      }
    }
  }

  lemma TailElements(xs: seq<U32>, s: set<U32>)
    requires xs != [] && Increasing(xs)
    requires forall x :: x in xs <==> x in s
    ensures Increasing(xs[1..])
    ensures forall x :: x in xs[1..] <==> x in s - {xs[0]}
  {
    var tail := xs[1..];
    forall i, j | 0 <= i < j < |tail|
      ensures tail[i] < tail[j]
    {
      assert tail[i] == xs[i + 1] && tail[j] == xs[j + 1];
    }
    forall x
      ensures x in tail <==> x in s - {xs[0]}
    {
      if x in tail {
        var k :| 0 <= k < |tail| && tail[k] == x;
        assert xs[k + 1] == x;
        assert xs[0] < xs[k + 1];
      }
      if x in s - {xs[0]} {
        assert x in xs;
        var k :| 0 <= k < |xs| && xs[k] == x;
        assert k != 0;
        assert tail[k - 1] == x;
      }
    }
  }
}
