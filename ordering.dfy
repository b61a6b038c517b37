/**
  `compare_ips` of main.cpp and the `std::sort` it drives: the pool is put in
  descending order, the greatest address (octet 0 most significant) first.
*/
module Ordering {
  import opened IpTypes

  /**
    `compare_ips(lhs, rhs)`: the cascade of tests on octets 0..3, true when
    `lhs` is the greater record.
  */
  predicate CompareIps(lhs: Address, rhs: Address)
    ensures lhs[0] != rhs[0] ==> (CompareIps(lhs, rhs) <==> lhs[0] > rhs[0])
    ensures CompareIps(lhs, rhs) ==> lhs[..4] != rhs[..4]
  {
    || lhs[0] > rhs[0]
    || (lhs[0] == rhs[0] && lhs[1] > rhs[1])
    || (lhs[0] == rhs[0] && lhs[1] == rhs[1] && lhs[2] > rhs[2])
    || (lhs[0] == rhs[0] && lhs[1] == rhs[1] && lhs[2] == rhs[2] && lhs[3] > rhs[3])
  }

  /** Lexicographic "greater" on octet strings of one length, first octet most significant. */
  predicate LexGreater(x: seq<Octet>, y: seq<Octet>)
    requires |x| == |y|
  {
    x != [] && (x[0] > y[0] || (x[0] == y[0] && LexGreater(x[1..], y[1..])))
  }

  /** `compare_ips` is lexicographic comparison of the first four octets. */
  lemma CompareIpsIsLexGreater(lhs: Address, rhs: Address)
    ensures CompareIps(lhs, rhs) <==> LexGreater(lhs[..4], rhs[..4])
  {
    var x, y := lhs[..4], rhs[..4];
    assert x[1..][1..][1..][1..] == [];
    assert LexGreater(x[1..][1..][1..], y[1..][1..][1..]) <==> lhs[3] > rhs[3];
    assert LexGreater(x[1..][1..], y[1..][1..]) <==>
      lhs[2] > rhs[2] || (lhs[2] == rhs[2] && lhs[3] > rhs[3]);
  }

  lemma {:induction false} LexIrreflexive(x: seq<Octet>)
    ensures !LexGreater(x, x)
  {
    if x != [] {
      LexIrreflexive(x[1..]);
    }
  }

  lemma {:induction false} LexAsymmetric(x: seq<Octet>, y: seq<Octet>)
    requires |x| == |y|
    ensures LexGreater(x, y) ==> !LexGreater(y, x)
  {
    if x != [] {
      LexAsymmetric(x[1..], y[1..]);
    }
  }

  lemma {:induction false} LexTransitive(x: seq<Octet>, y: seq<Octet>, z: seq<Octet>)
    requires |x| == |y| == |z|
    ensures LexGreater(x, y) && LexGreater(y, z) ==> LexGreater(x, z)
  {
    if x != [] {
      LexTransitive(x[1..], y[1..], z[1..]);
    }
  }

  /** Of two different octet strings of one length, one is the greater. */
  lemma {:induction false} LexTotal(x: seq<Octet>, y: seq<Octet>)
    requires |x| == |y|
    ensures LexGreater(x, y) || LexGreater(y, x) || x == y
  {
    if x != [] {
      LexTotal(x[1..], y[1..]);
      if x[0] == y[0] && x[1..] == y[1..] {
        assert x == [x[0]] + x[1..] && y == [y[0]] + y[1..];
      }
    }
  }

  /**
    `compare_ips` is a strict order: irreflexive, asymmetric and transitive;
    neither side is greater exactly when octets 0..3 agree.
  */
  lemma CompareIpsStrictOrder(a: Address, b: Address, c: Address)
    ensures !CompareIps(a, a)
    ensures CompareIps(a, b) ==> !CompareIps(b, a)
    ensures CompareIps(a, b) && CompareIps(b, c) ==> CompareIps(a, c)
    ensures !CompareIps(a, b) && !CompareIps(b, a) <==> a[..4] == b[..4]
  {
    CompareIpsIsLexGreater(a, a);
    CompareIpsIsLexGreater(a, b);
    CompareIpsIsLexGreater(b, a);
    CompareIpsIsLexGreater(b, c);
    CompareIpsIsLexGreater(a, c);
    LexIrreflexive(a[..4]);
    LexAsymmetric(a[..4], b[..4]);
    LexTransitive(a[..4], b[..4], c[..4]);
    LexTotal(a[..4], b[..4]);
  }

  /** "not greater" chains: what the sort needs to extend a sorted prefix. */
  lemma NotGreaterTransitive(a: Address, b: Address, c: Address)
    ensures !CompareIps(a, b) && !CompareIps(b, c) ==> !CompareIps(a, c)
  {
    CompareIpsStrictOrder(a, b, c);
    CompareIpsStrictOrder(c, a, b);
    CompareIpsStrictOrder(b, c, a);
  }

  /** Descending under `compare_ips`: no later record is greater than an earlier one. */
  predicate SortedDesc(s: seq<Address>)
  {
    forall i, j :: 0 <= i < j < |s| ==> !CompareIps(s[j], s[i])
  }

  /**
    The `std::sort` of the pool with `compare_ips` as "comes first": here an
    insertion sort in place, with the same outcome, the pool rearranged into
    descending order.
  */
  method SortDescending(a: array<Address>)
    modifies a
    ensures SortedDesc(a[..])
    ensures multiset(a[..]) == old(multiset(a[..]))
  {
    for i := 0 to a.Length
      invariant SortedDesc(a[..i])
      invariant multiset(a[..]) == old(multiset(a[..]))
    {
      InsertDown(a, i);
    }
  }

  /**
    One pass of the insertion sort: `a[i]` moves down past every record it
    is greater than, so that `a[..i + 1]` is descending.
  */
  method InsertDown(a: array<Address>, i: nat)
    requires i < a.Length && SortedDesc(a[..i])
    modifies a
    ensures SortedDesc(a[..i + 1])
    ensures a[i + 1..] == old(a[i + 1..])
    ensures multiset(a[..]) == old(multiset(a[..]))
  {
    var j := i;
    while j > 0 && CompareIps(a[j], a[j - 1])
      invariant 0 <= j <= i < a.Length
      invariant SortedExceptAt(a[..], i, j)
      invariant a[i + 1..] == old(a[i + 1..])
      invariant multiset(a[..]) == old(multiset(a[..]))
    {
      SwapDown(a[..], i, j);
      Swap(a, j - 1, j);
      j := j - 1;
    }
    InsertDone(a[..], i, j);
  }

  /** Exchanges two records of the pool. */
  method Swap(a: array<Address>, k: nat, l: nat)
    requires k < l < a.Length
    modifies a
    ensures a[..] == old(a[..])[k := old(a[l])][l := old(a[k])]
    ensures multiset(a[..]) == old(multiset(a[..]))
  {
    a[k], a[l] := a[l], a[k];
  }

  /**
    The state of `InsertDown` while the moving record sits at `j`: the
    prefix up to `i` is descending except possibly right before `j`.
  */
  predicate SortedExceptAt(s: seq<Address>, i: nat, j: nat)
    requires j <= i < |s|
  {
    forall p, q :: 0 <= p < q <= i && q != j ==> !CompareIps(s[q], s[p])
  }

  lemma SwapDown(s: seq<Address>, i: nat, j: nat)
    requires 0 < j <= i < |s| && SortedExceptAt(s, i, j)
    requires CompareIps(s[j], s[j - 1])
    ensures SortedExceptAt(s[j - 1 := s[j]][j := s[j - 1]], i, j - 1)
  {
    CompareIpsStrictOrder(s[j], s[j - 1], s[j]);
  }

  lemma InsertDone(s: seq<Address>, i: nat, j: nat)
    requires j <= i < |s| && SortedExceptAt(s, i, j)
    requires j > 0 ==> !CompareIps(s[j], s[j - 1])
    ensures SortedDesc(s[..i + 1])
  {
    forall p, q | 0 <= p < q <= i
      ensures !CompareIps(s[q], s[p])
    {
      if q == j {
        NotGreaterTransitive(s[j], s[j - 1], s[p]);
      }
    }
  }

  /** A record that is the first of a descending pool is greater than none of it. */
  lemma HeadIsMaximal(s: seq<Address>, e: Address)
    requires SortedDesc(s) && e in s && s != []
    ensures !CompareIps(e, s[0])
  {
    var k :| 0 <= k < |s| && s[k] == e;
    if k > 0 {
      assert !CompareIps(s[k], s[0]);
    } else {
      CompareIpsStrictOrder(e, e, e);
    }
  }

  /**
    For records of exactly four octets the sorted result is determined by
    the input: two descending arrangements of the same records are equal,
    so the order in which `std::sort` leaves equal records cannot show.
  */
  lemma {:induction false} SortedUnique(x: seq<Address>, y: seq<Address>)
    requires forall k :: 0 <= k < |x| ==> |x[k]| == 4
    requires SortedDesc(x) && SortedDesc(y)
    requires multiset(x) == multiset(y)
    ensures x == y
  {
    if x != [] {
      assert |y| == |x| by {
        assert |multiset(x)| == |x| && |multiset(y)| == |y|;
      }
      SortedHeads(x, y);
      SameTails(x, y);
      SortedUnique(x[1..], y[1..]);
      assert x == [x[0]] + x[1..] && y == [y[0]] + y[1..];
    }
  }

  /** Removing one common first record from two arrangements of the same records. */
  lemma SameTails(x: seq<Address>, y: seq<Address>)
    requires x != [] && y != [] && x[0] == y[0] && multiset(x) == multiset(y)
    requires SortedDesc(x) && SortedDesc(y)
    ensures multiset(x[1..]) == multiset(y[1..])
    ensures SortedDesc(x[1..]) && SortedDesc(y[1..])
  {
    assert x == [x[0]] + x[1..] && y == [y[0]] + y[1..];
    assert multiset(x[1..]) == multiset(x) - multiset{x[0]};
    assert multiset(y[1..]) == multiset(y) - multiset{y[0]};
  }

  /** Two descending arrangements of the same four-octet records start alike. */
  lemma SortedHeads(x: seq<Address>, y: seq<Address>)
    requires forall k :: 0 <= k < |x| ==> |x[k]| == 4
    requires SortedDesc(x) && SortedDesc(y)
    requires multiset(x) == multiset(y) && x != [] && y != []
    ensures x[0] == y[0]
  {
    assert x[0] in multiset(y) && y[0] in multiset(x);
    HeadIsMaximal(y, x[0]);
    HeadIsMaximal(x, y[0]);
    CompareIpsStrictOrder(x[0], y[0], y[0]);
    var k :| 0 <= k < |x| && x[k] == y[0];
    assert x[0] == x[0][..4] && y[0] == y[0][..4];
  }

  /** A sorting example: 1.1.1.1, 2.2.2.2, 1.2.3.4 sort to 2.2.2.2, 1.2.3.4, 1.1.1.1. */
  lemma SortExample(s: seq<Address>)
    requires SortedDesc(s)
    requires multiset(s) == multiset([[1, 1, 1, 1], [2, 2, 2, 2], [1, 2, 3, 4]])
    ensures s == [[2, 2, 2, 2], [1, 2, 3, 4], [1, 1, 1, 1]]
  {
    var x: Address, y: Address, z: Address := [2, 2, 2, 2], [1, 2, 3, 4], [1, 1, 1, 1];
    var expected := [x, y, z];
    assert multiset(expected) == multiset([z, x, y]);
    assert CompareIps(x, y) && CompareIps(y, z) && CompareIps(x, z);
    CompareIpsStrictOrder(x, y, z);
    assert SortedDesc(expected);
    SortedUnique(expected, s);
  }
}
