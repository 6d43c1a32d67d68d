/**
  The part of the `slab` crate that both services rely on: a slab is a table
  from `usize` keys to values, modelled as a finite map. The key that
  `vacant_entry` or `insert` picks is left unspecified beyond being unoccupied,
  and iteration visits the occupied keys in ascending order.
*/
module Slab {
  import opened Decimal

  /** The keys 0 .. n - 1. */
  function Below(n: nat): (r: set<nat>)
    ensures forall k: nat :: k in r <==> k < n
    ensures |r| == n
  {
    if n == 0 then {} else Below(n - 1) + {n - 1}
  }

  lemma SubsetSize<T>(a: set<T>, b: set<T>)
    requires a <= b
    ensures |a| <= |b|
  {
    assert b == a + (b - a);
  }

  /** Among the keys 0 .. |keys| at least one is not taken. */
  lemma VacantBelow(keys: set<nat>)
    ensures exists k: nat :: k <= |keys| && k !in keys
  {
    var all := Below(|keys| + 1);
    if all <= keys {
      SubsetSize(all, keys);
    } else {
      var k :| k in all && k !in keys;
    }
  }

  /** `Slab::vacant_entry().key()`: some key not in use. */
  method VacantKey<V>(m: map<Usize, V>) returns (k: Usize)
    requires |m| <= USIZE_MAX
    ensures k !in m
  {
    VacantBelow(m.Keys);
    var j: nat :| j <= |m.Keys| && j !in m.Keys;
    k := j;
  }

  /** `Slab::insert`: stores `v` under a vacant key and returns that key. */
  method Insert<V>(m: map<Usize, V>, v: V) returns (m': map<Usize, V>, k: Usize)
    requires |m| <= USIZE_MAX
    ensures k !in m
    ensures m' == m[k := v] && |m'| == |m| + 1
  {
    k := VacantKey(m);
    m' := m[k := v];
  }

  predicate IsLeast(m: Usize, s: set<Usize>) {
    m in s && forall x :: x in s ==> m <= x
  }

  lemma {:induction false} HasMinimum(s: set<Usize>)
    requires s != {}
    ensures exists m :: IsLeast(m, s)
    decreases |s|
  {
    var y :| y in s;
    if s == {y} {
      assert IsLeast(y, s);
    } else {
      var rest := s - {y};
      HasMinimum(rest);
      var m :| IsLeast(m, rest);
      var least := if y < m then y else m;
      forall x | x in s
        ensures least <= x
      {
        if x != y {
          assert x in rest;
        }
      }
      assert IsLeast(least, s);
    }
  }

  predicate Ascending(ks: seq<Usize>) {
    forall i, j :: 0 <= i < j < |ks| ==> ks[i] < ks[j]
  }

  lemma PrependLeast(m: Usize, s: set<Usize>, rest: seq<Usize>)
    requires IsLeast(m, s)
    requires |rest| == |s - {m}| && Ascending(rest)
    requires forall k :: k in s - {m} <==> k in rest
    ensures |[m] + rest| == |s| && Ascending([m] + rest)
    ensures forall k :: k in s <==> k in [m] + rest
  {
    var ks := [m] + rest;
    forall i, j | 0 <= i < j < |ks|
      ensures ks[i] < ks[j]
    {
      assert ks[j] == rest[j - 1] && ks[j] in s - {m};
      if i > 0 {
        assert ks[i] == rest[i - 1];
      }
    }
  }

  /** The occupied keys in the order `Slab::iter` visits them. */
  function SortedKeys(s: set<Usize>): (ks: seq<Usize>)
    ensures |ks| == |s| && Ascending(ks)
    ensures forall k :: k in s <==> k in ks
    decreases |s|
  {
    if s == {} then
      []
    else
      HasMinimum(s);
      var m :| IsLeast(m, s);
      var rest := SortedKeys(s - {m});
      PrependLeast(m, s, rest);
      [m] + rest
  }
}
