/**
  The three selections main.cpp makes from the sorted pool, each a
  `std::copy_if` into a fresh vector: first octet 1, first octets 46 and 70,
  and `filter_any`, some octet equal to a given value.
*/
module Filters {
  import opened IpTypes
  import opened Ordering

  /** What `copy_if` appends: the records `keep` accepts, in pool order. */
  function Select(pool: seq<Address>, keep: Address -> bool): (r: seq<Address>)
    ensures |r| <= |pool|
    ensures forall k :: 0 <= k < |r| ==> keep(r[k])
  {
    if pool == [] then []
    else
      var last := pool[|pool| - 1];
      Select(pool[..|pool| - 1], keep) + (if keep(last) then [last] else [])
  }

  /** The loop of `copy_if` with a `back_inserter`: one pass, appending each match. */
  method CopyIf(pool: seq<Address>, keep: Address -> bool) returns (res: seq<Address>)
    ensures res == Select(pool, keep)
  {
    res := [];
    for i := 0 to |pool|
      invariant res == Select(pool[..i], keep)
    {
      assert pool[..i + 1][..i] == pool[..i];
      if keep(pool[i]) {
        res := res + [pool[i]];
      }
    }
    assert pool[..|pool|] == pool;
  }

  /** The lambda at main.cpp:124; what it keeps, `filter_any(ip_pool, 1)` keeps too. */
  predicate FirstOctetIs1(addr: Address)
    ensures FirstOctetIs1(addr) ==> Containing(1)(addr)
  {
    addr[0] == 1
  }

  /** The lambda at main.cpp:136-138; what it keeps holds both 46 and 70. */
  predicate FirstOctetsAre46And70(addr: Address)
    ensures FirstOctetsAre46And70(addr) ==> Containing(46)(addr) && Containing(70)(addr)
  {
    addr[0] == 46 && addr[1] == 70
  }

  /** The lambda of `filter_any`: `std::any_of` over all octets of the record. */
  function Containing(value: Octet): Address -> bool
  {
    addr => exists k :: 0 <= k < |addr| && addr[k] == value
  }

  /** `filter_any(ip_pool, value)`. */
  method FilterAny(pool: seq<Address>, value: Octet) returns (res: seq<Address>)
    ensures res == Select(pool, Containing(value))
    ensures forall addr :: addr in res ==> value in addr
  {
    res := CopyIf(pool, Containing(value));
    SelectMembers(pool, Containing(value));
  }

  /**
    The positions of `pool` that `copy_if` copies, in increasing order: the
    witness that a selection is a subsequence of the pool.
  */
  function KeptPositions(pool: seq<Address>, keep: Address -> bool): seq<nat>
  {
    if pool == [] then []
    else
      var n := |pool| - 1;
      KeptPositions(pool[..n], keep) + (if keep(pool[n]) then [n] else [])
  }

  /**
    A selection is the pool read at strictly increasing positions, and those
    are exactly the positions of the records `keep` accepts: the matches,
    all of them, in their relative order.
  */
  lemma {:induction false} SelectIsSubsequence(pool: seq<Address>, keep: Address -> bool)
    ensures var r, ix := Select(pool, keep), KeptPositions(pool, keep);
      && |ix| == |r|
      && (forall k :: 0 <= k < |ix| ==> ix[k] < |pool| && pool[ix[k]] == r[k])
      && (forall k, l :: 0 <= k < l < |ix| ==> ix[k] < ix[l])
      && (forall i :: 0 <= i < |pool| ==> (keep(pool[i]) <==> i in ix))
  {
    if pool != [] {
      var n := |pool| - 1;
      SelectIsSubsequence(pool[..n], keep);
      var ix := KeptPositions(pool[..n], keep);
      assert forall i :: 0 <= i < n ==> pool[..n][i] == pool[i];
      assert forall k :: 0 <= k < |ix| ==> ix[k] < n;
    }
  }

  /** Every record of a selection appears as often as in the pool, if kept, else not at all. */
  lemma {:induction false} SelectCounts(pool: seq<Address>, keep: Address -> bool, x: Address)
    ensures multiset(Select(pool, keep))[x] == if keep(x) then multiset(pool)[x] else 0
  {
    if pool != [] {
      var n := |pool| - 1;
      SelectCounts(pool[..n], keep, x);
      assert pool == pool[..n] + [pool[n]];
    }
  }

  /** A record is selected exactly when it is in the pool and `keep` accepts it. */
  lemma SelectMembers(pool: seq<Address>, keep: Address -> bool)
    ensures forall x :: x in Select(pool, keep) <==> x in pool && keep(x)
  {
    forall x: Address
      ensures x in Select(pool, keep) <==> x in pool && keep(x)
    {
      SelectCounts(pool, keep, x);
    }
  }

  /** Selecting from a descending pool keeps it descending. */
  lemma SelectKeepsOrder(pool: seq<Address>, keep: Address -> bool)
    requires SortedDesc(pool)
    ensures SortedDesc(Select(pool, keep))
  {
    SelectIsSubsequence(pool, keep);
    var r, ix := Select(pool, keep), KeptPositions(pool, keep);
    forall i, j | 0 <= i < j < |r|
      ensures !CompareIps(r[j], r[i])
    {
      assert ix[i] < ix[j];
    }
  }

  /**
    A selection by a stronger test is the same as selecting from the
    selection by the weaker one.
  */
  lemma {:induction false} SelectNarrows(pool: seq<Address>, strong: Address -> bool, weak: Address -> bool)
    requires forall a :: strong(a) ==> weak(a)
    ensures Select(pool, strong) == Select(Select(pool, weak), strong)
  {
    if pool != [] {
      var n := |pool| - 1;
      SelectNarrows(pool[..n], strong, weak);
      var w := Select(pool[..n], weak);
      if weak(pool[n]) {
        assert (w + [pool[n]])[..|w|] == w;
      } else {
        assert w + [] == w;
      }
    }
  }

  /** Every record the 46.70 filter prints is also printed by `filter_any(ip_pool, 46)`. */
  lemma FirstOctets46And70AreAny46(pool: seq<Address>)
    ensures Select(pool, FirstOctetsAre46And70) ==
            Select(Select(pool, Containing(46)), FirstOctetsAre46And70)
    ensures forall x :: x in Select(pool, FirstOctetsAre46And70) ==> x in Select(pool, Containing(46))
  {
    SelectNarrows(pool, FirstOctetsAre46And70, Containing(46));
    SelectMembers(Select(pool, Containing(46)), FirstOctetsAre46And70);
  }

  /** A four-record filter example: each of the three filters on one small sorted pool. */
  lemma FilterExample()
    ensures var pool: seq<Address> := [[1, 231, 69, 33], [46, 70, 225, 39], [46, 70, 147, 26], [2, 2, 2, 2]];
      && Select(pool, FirstOctetIs1) == [[1, 231, 69, 33]]
      && Select(pool, FirstOctetsAre46And70) == [[46, 70, 225, 39], [46, 70, 147, 26]]
      && Select(pool, Containing(46)) == [[46, 70, 225, 39], [46, 70, 147, 26]]
  {
    var pool: seq<Address> := [[1, 231, 69, 33], [46, 70, 225, 39], [46, 70, 147, 26], [2, 2, 2, 2]];
    var p1, p2, p3 := pool[..1], pool[..2], pool[..3];
    assert p3[..2] == p2 && p2[..1] == p1 && p1[..0] == [];
    assert Containing(46)(pool[1]) by { assert pool[1][0] == 46; }
    assert Containing(46)(pool[2]) by { assert pool[2][0] == 46; }
    assert !Containing(46)(pool[0]);
    assert !Containing(46)(pool[3]);
    assert Select(p1, FirstOctetIs1) == [pool[0]];
    assert Select(p2, FirstOctetIs1) == [pool[0]];
    assert Select(p3, FirstOctetIs1) == [pool[0]];
    assert Select(p1, FirstOctetsAre46And70) == [];
    assert Select(p2, FirstOctetsAre46And70) == [pool[1]];
    assert Select(p3, FirstOctetsAre46And70) == [pool[1], pool[2]];
    assert Select(p1, Containing(46)) == [];
    assert Select(p2, Containing(46)) == [pool[1]];
    assert Select(p3, Containing(46)) == [pool[1], pool[2]];
  }
}
