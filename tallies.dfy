/** Sequences of keys and the counts summed over them.

    A Python dict keeps its keys in insertion order; the model keeps that
    order as a sequence of distinct keys beside a map. The totals of a
    summary are sums of set sizes over those keys, and they are shown here
    to equal an order-free count: the number of (key, member) pairs. */
module Tallies {

  predicate NoDuplicates<T(==)>(s: seq<T>) {
    forall i, j :: 0 <= i < j < |s| ==> s[i] != s[j]
  }

  ghost function Elements<T>(s: seq<T>): set<T> {
    set x | x in s
  }

  lemma {:induction false} NoDuplicatesCard<T>(s: seq<T>)
    requires NoDuplicates(s)
    ensures |Elements(s)| == |s|
  {
    if s != [] {
      assert Elements(s) == {s[0]} + Elements(s[1..]);
      assert s[0] !in Elements(s[1..]);
      NoDuplicatesCard(s[1..]);
    }
  }

  lemma ElementsAppend<T>(s: seq<T>, x: T)
    ensures Elements(s + [x]) == Elements(s) + {x}
  {
  }

  lemma ElementsWithout<T>(s: seq<T>, x: T)
    ensures Elements(Without(s, x)) == Elements(s) - {x}
  {
  }

  lemma NoDuplicatesAppend<T>(s: seq<T>, x: T)
    requires NoDuplicates(s) && x !in s
    ensures NoDuplicates(s + [x])
  {
    forall i, j | 0 <= i < j < |s + [x]| ensures (s + [x])[i] != (s + [x])[j] {
      if j == |s| {
        assert (s + [x])[i] == s[i];
      }
    }
  }

  /** s with x taken out; the other elements keep their relative order. */
  function Without<T(==)>(s: seq<T>, x: T): (r: seq<T>)
    ensures Elements(r) == Elements(s) - {x}
    ensures NoDuplicates(s) ==> NoDuplicates(r)
    ensures NoDuplicates(s) && x in s ==> |r| == |s| - 1
    ensures x !in s ==> r == s
  {
    if s == [] then []
    else
      assert s == [s[0]] + s[1..];
      assert Elements(s) == {s[0]} + Elements(s[1..]);
      var t := Without(s[1..], x);
      if s[0] == x then t
      else
        assert Elements([s[0]] + t) == {s[0]} + Elements(t);
        assert NoDuplicates(s) ==> s[0] !in Elements(t);
        [s[0]] + t
  }
  /** Without removes the one occurrence of x from a duplicate-free sequence
      and keeps the other elements in their order. */
  lemma {:induction false} WithoutKeepsOrder<T>(s: seq<T>, x: T, i: int)
    requires NoDuplicates(s) && 0 <= i < |s| && s[i] == x
    ensures Without(s, x) == s[..i] + s[i + 1..]
  {
    assert s == [s[0]] + s[1..];
    if i == 0 {
      assert x !in s[1..];
    } else {
      assert s[0] != x;
      WithoutKeepsOrder(s[1..], x, i - 1);
      assert s[..i] == [s[0]] + s[1..][..i - 1];
      assert s[i + 1..] == s[1..][i..];
    }
  }


  /** The values stored under ks, in the order of ks. */
  function ValuesInOrder<K, V>(ks: seq<K>, m: map<K, V>): (vs: seq<V>)
    requires forall i :: 0 <= i < |ks| ==> ks[i] in m
    ensures |vs| == |ks| && forall i :: 0 <= i < |ks| ==> vs[i] == m[ks[i]]
  {
    if ks == [] then [] else [m[ks[0]]] + ValuesInOrder(ks[1..], m)
  }

  /** The size of the set stored under k, or 0 when k is absent. */
  function Size<K, V>(m: map<K, set<V>>, k: K): nat {
    if k in m then |m[k]| else 0
  }

  /** The sizes of the sets stored under ks, added up. */
  function SumCard<K, V>(ks: seq<K>, m: map<K, set<V>>): nat {
    if ks == [] then 0 else Size(m, ks[0]) + SumCard(ks[1..], m)
  }

  lemma {:induction false} SumAppend<K, V>(ks: seq<K>, k: K, m: map<K, set<V>>)
    ensures SumCard(ks + [k], m) == SumCard(ks, m) + Size(m, k)
  {
    if ks != [] {
      assert (ks + [k])[1..] == ks[1..] + [k];
      SumAppend(ks[1..], k, m);
    }
  }

  /** The sum depends only on the sets stored under the keys summed over. */
  lemma {:induction false} SumFrame<K, V>(ks: seq<K>, m1: map<K, set<V>>, m2: map<K, set<V>>)
    requires forall i :: 0 <= i < |ks| ==> Size(m1, ks[i]) == Size(m2, ks[i])
    ensures SumCard(ks, m1) == SumCard(ks, m2)
  {
    if ks != [] {
      SumFrame(ks[1..], m1, m2);
    }
  }

  /** Taking a key out of the sequence takes its size out of the sum. */
  lemma {:induction false} SumWithout<K, V>(ks: seq<K>, k: K, m: map<K, set<V>>)
    requires NoDuplicates(ks) && k in ks
    ensures SumCard(Without(ks, k), m) + Size(m, k) == SumCard(ks, m)
  {
    if ks[0] == k {
      assert k !in ks[1..];
    } else {
      assert Without(ks, k) == [ks[0]] + Without(ks[1..], k);
      assert ([ks[0]] + Without(ks[1..], k))[1..] == Without(ks[1..], k);
      SumWithout(ks[1..], k, m);
    }
  }

  /** Replacing the set under one key changes the sum by the difference. */
  lemma {:induction false} SumUpdate<K, V>(ks: seq<K>, k: K, m: map<K, set<V>>, s: set<V>)
    requires NoDuplicates(ks) && k in ks
    ensures SumCard(ks, m[k := s]) + Size(m, k) == SumCard(ks, m) + |s|
  {
    if ks[0] == k {
      assert k !in ks[1..];
      SumFrame(ks[1..], m[k := s], m);
    } else {
      SumUpdate(ks[1..], k, m, s);
    }
  }

  /** Filing a set under a key not yet summed over, and appending that key,
      adds exactly the set's size. */
  lemma SumAddKey<K, V>(ks: seq<K>, k: K, m: map<K, set<V>>, s: set<V>)
    requires k !in ks
    ensures SumCard(ks + [k], m[k := s]) == SumCard(ks, m) + |s|
  {
    SumAppend(ks, k, m[k := s]);
    SumFrame(ks, m[k := s], m);
  }

  /** Deleting a key from the map and from the sequence takes exactly its
      set's size out of the sum. */
  lemma SumRemoveKey<K, V>(ks: seq<K>, k: K, m: map<K, set<V>>)
    requires NoDuplicates(ks) && k in ks
    ensures SumCard(Without(ks, k), m - {k}) + Size(m, k) == SumCard(ks, m)
  {
    SumWithout(ks, k, m);
    SumFrame(Without(ks, k), m - {k}, m);
  }

  /** The (key, member) pairs of m, one per member of each stored set. */
  ghost function Pairs<K, V>(m: map<K, set<V>>): set<(K, V)> {
    set k, v | k in m && v in m[k] :: (k, v)
  }

  ghost function PairsOn<K, V>(ks: seq<K>, m: map<K, set<V>>): set<(K, V)> {
    set k, v | k in ks && k in m && v in m[k] :: (k, v)
  }

  ghost function Row<K, V>(k: K, s: set<V>): set<(K, V)> {
    set v | v in s :: (k, v)
  }

  lemma {:induction false} RowCard<K, V>(k: K, s: set<V>)
    ensures |Row(k, s)| == |s|
    decreases |s|
  {
    if s != {} {
      var v :| v in s;
      assert Row(k, s) == Row(k, s - {v}) + {(k, v)};
      assert (k, v) !in Row(k, s - {v});
      RowCard(k, s - {v});
    }
  }

  lemma {:induction false} SumIsPairCountOn<K, V>(ks: seq<K>, m: map<K, set<V>>)
    requires NoDuplicates(ks)
    ensures SumCard(ks, m) == |PairsOn(ks, m)|
  {
    if ks == [] {
      assert PairsOn(ks, m) == {};
    } else {
      var k := ks[0];
      var row := if k in m then Row(k, m[k]) else {};
      assert PairsOn(ks, m) == row + PairsOn(ks[1..], m);
      assert k !in ks[1..];
      assert row !! PairsOn(ks[1..], m);
      if k in m {
        RowCard(k, m[k]);
      }
      SumIsPairCountOn(ks[1..], m);
    }
  }

  /** Summing the set sizes over every key once, in any order, counts the
      (key, member) pairs of the map. */
  lemma SumIsPairCount<K, V>(ks: seq<K>, m: map<K, set<V>>)
    requires NoDuplicates(ks) && Elements(ks) == m.Keys
    ensures SumCard(ks, m) == |Pairs(m)|
  {
    SumIsPairCountOn(ks, m);
    assert PairsOn(ks, m) == Pairs(m);
  }
}
