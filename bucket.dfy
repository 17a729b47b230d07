/**
 * The collision chain of one hash slot (src/bucket.rs): a vector of
 * (key, value) pairs, searched front to back by linear scan.
 *
 * The first half states what a bucket's operations compute, as functions on
 * the sequence of pairs; the class `Bucket` holds the vector and its methods
 * run the source's scanning loops, each proved against those functions.
 */
module Buckets {
  import opened Wrappers

  /** The set of keys that occur in `s`. */
  function KeySet<K, V>(s: seq<(K, V)>): set<K> {
    set i | 0 <= i < |s| :: s[i].0
  }

  /** No two pairs of `s` have equal keys: the bucket invariant. */
  ghost predicate DistinctKeys<K, V>(s: seq<(K, V)>) {
    forall i, j :: 0 <= i < j < |s| ==> s[i].0 != s[j].0
  }

  /** The position of the first pair whose key is `key` (`iter().position`). */
  function IndexOf<K(==), V>(items: seq<(K, V)>, key: K): (r: Option<nat>)
    ensures r.Some? ==> r.value < |items| && items[r.value].0 == key
    ensures r.Some? ==> forall j :: 0 <= j < r.value ==> items[j].0 != key
    ensures r.None? <==> key !in KeySet(items)
  {
    if items == [] then None
    else if items[0].0 == key then Some(0)
    else match IndexOf(items[1..], key)
      case None =>
        assert KeySet(items) == {items[0].0} + KeySet(items[1..]) by {
          forall k | k in KeySet(items) ensures k in {items[0].0} + KeySet(items[1..]) {
            var j :| 0 <= j < |items| && items[j].0 == k;
            if j > 0 { assert items[1..][j - 1].0 == k; }
          }
        }
        None
      case Some(i) => Some(i + 1)
  }

  /** The value `get` returns: that of the first pair whose key is `key`. */
  function Find<K(==), V>(items: seq<(K, V)>, key: K): (r: Option<V>)
    ensures r.None? <==> key !in KeySet(items)
    ensures r.Some? ==> exists j :: 0 <= j < |items| && items[j] == (key, r.value)
  {
    match IndexOf(items, key)
    case Some(i) => Some(items[i].1)
    case None => None
  }

  /**
   * The vector `insert` leaves: the first pair with key `key` gets the new
   * value in place, or, when there is none, the pair is pushed at the end.
   */
  function Upsert<K(==), V>(items: seq<(K, V)>, key: K, value: V): (r: seq<(K, V)>)
    ensures key in KeySet(items) ==>
              |r| == |items| && KeySet(r) == KeySet(items)
              && exists i :: 0 <= i < |items| && items[i].0 == key && r == items[i := (key, value)]
    ensures key !in KeySet(items) ==> r == items + [(key, value)]
  {
    match IndexOf(items, key)
    case Some(i) =>
      var r := items[i := (key, value)];
      assert r[i] == (key, value);
      assert KeySet(r) == KeySet(items) by {
        forall k | k in KeySet(items) ensures k in KeySet(r) {
          var j :| 0 <= j < |items| && items[j].0 == k;
          assert r[j].0 == k;
        }
        forall k | k in KeySet(r) ensures k in KeySet(items) {
          var j :| 0 <= j < |r| && r[j].0 == k;
          assert items[j].0 == k;
        }
      }
      r
    case None =>
      var r := items + [(key, value)];
      assert r[|items|] == (key, value);
      r
  }

  /** Vec::swap_remove: the last element takes the place of the removed one. */
  function SwapRemove<T>(s: seq<T>, i: nat): (r: seq<T>)
    requires i < |s|
    ensures |r| == |s| - 1
    ensures r[..i] == s[..i]
    ensures i < |r| ==> r[i] == s[|s| - 1]
    ensures forall j :: i < j < |r| ==> r[j] == s[j]
  {
    s[i := s[|s| - 1]][..|s| - 1]
  }

  /**
   * The vector `remove` leaves: the first pair with key `key` swap-removed.
   * It only removes, and it removes one pair exactly when the key is present.
   */
  function Delete<K(==), V>(items: seq<(K, V)>, key: K): (r: seq<(K, V)>)
    ensures multiset(r) <= multiset(items)
    ensures |r| == if key in KeySet(items) then |items| - 1 else |items|
  {
    match IndexOf(items, key)
    case None => items
    case Some(i) =>
      SwapRemoveMultiset(items, i);
      SwapRemove(items, i)
  }

  // ---------- Properties of the bucket operations ----------

  /** In a bucket with distinct keys, every stored pair is what `get` finds for its key. */
  lemma {:induction false} FindStored<K, V>(items: seq<(K, V)>, j: nat)
    requires DistinctKeys(items) && j < |items|
    ensures Find(items, items[j].0) == Some(items[j].1)
  {
    assert items[j].0 in KeySet(items);
  }

  /** `insert` adds at most the new pair, and adds `key` to the bucket's keys. */
  lemma UpsertContents<K, V>(items: seq<(K, V)>, key: K, value: V)
    ensures multiset(Upsert(items, key, value)) <= multiset(items) + multiset{(key, value)}
    ensures KeySet(Upsert(items, key, value)) == KeySet(items) + {key}
    ensures |Upsert(items, key, value)| <= |items| + 1
  {
    var r := Upsert(items, key, value);
    if key !in KeySet(items) {
      forall k | k in KeySet(r) ensures k in KeySet(items) + {key} {
        var j :| 0 <= j < |r| && r[j].0 == k;
        if j < |items| { assert items[j].0 == k; }
      }
      forall k | k in KeySet(items) ensures k in KeySet(r) {
        var j :| 0 <= j < |items| && items[j].0 == k;
        assert r[j].0 == k;
      }
      assert r[|items|].0 == key;
    }
  }

  /** After `insert`, `get` finds the new value, and the keys stay distinct. */
  lemma UpsertFind<K, V>(items: seq<(K, V)>, key: K, value: V)
    ensures Find(Upsert(items, key, value), key) == Some(value)
    ensures DistinctKeys(items) ==> DistinctKeys(Upsert(items, key, value))
  {
    var r := Upsert(items, key, value);
    match IndexOf(items, key)
    case Some(i) =>
      assert r[i] == (key, value);
    case None =>
      assert r[|items|] == (key, value);
  }

  /** Inserting under `key` does not change what `get` finds for any other key. */
  lemma UpsertOther<K, V>(items: seq<(K, V)>, key: K, value: V, other: K)
    requires other != key
    ensures Find(Upsert(items, key, value), other) == Find(items, other)
  {
    var r := Upsert(items, key, value);
    UpsertContents(items, key, value);
    match IndexOf(items, other)
    case None =>
    case Some(i) =>
      assert r[i] == items[i];
      var i' := IndexOf(r, other).value;
      assert r[i'] == items[i'];
  }

  /** A swap-remove loses exactly the removed element. */
  lemma SwapRemoveMultiset<T>(s: seq<T>, i: nat)
    requires i < |s|
    ensures multiset(SwapRemove(s, i)) + multiset{s[i]} == multiset(s)
  {
    var n := |s| - 1;
    var r := SwapRemove(s, i);
    if i < n {
      assert r == s[..i] + [s[n]] + s[i + 1..n];
      assert s == s[..i] + [s[i]] + s[i + 1..n] + [s[n]];
    } else {
      assert r == s[..n];
      assert s == s[..n] + [s[n]];
    }
  }

  /**
   * `remove` drops at most one pair, keeps the bucket invariant, and in a
   * bucket with distinct keys makes `key` absent while every other key keeps
   * the value `get` found before.
   */
  lemma {:induction false} DeleteProperties<K, V>(items: seq<(K, V)>, key: K)
    ensures key !in KeySet(items) ==> Delete(items, key) == items
    ensures key in KeySet(items) ==> |Delete(items, key)| == |items| - 1
    ensures multiset(Delete(items, key)) <= multiset(items)
    ensures DistinctKeys(items) ==> DistinctKeys(Delete(items, key))
    ensures DistinctKeys(items) ==> key !in KeySet(Delete(items, key))
  {
    match IndexOf(items, key)
    case None =>
    case Some(i) =>
      SwapRemoveMultiset(items, i);
      if DistinctKeys(items) {
        SwapRemoveDistinct(items, i);
      }
  }

  /** Swap-removing from a bucket with distinct keys keeps them distinct and drops the removed key. */
  lemma SwapRemoveDistinct<K, V>(items: seq<(K, V)>, i: nat)
    requires DistinctKeys(items) && i < |items|
    ensures DistinctKeys(SwapRemove(items, i)) && items[i].0 !in KeySet(SwapRemove(items, i))
  {
    var r := SwapRemove(items, i);
    var n := |items| - 1;
    // Position j of r holds items[j], except position i, which holds the former last pair.
    forall j | 0 <= j < |r| ensures r[j] == items[if j == i then n else j] {
      if j < i { assert r[j] == r[..i][j] == items[..i][j]; }
    }
    forall a, b | 0 <= a < b < |r| ensures r[a].0 != r[b].0 {
      var sa := if a == i then n else a;
      var sb := if b == i then n else b;
      if sa < sb { assert items[sa].0 != items[sb].0; } else { assert items[sb].0 != items[sa].0; }
    }
    forall j | 0 <= j < |r| ensures r[j].0 != items[i].0 {
      var sj := if j == i then n else j;
      if sj < i { assert items[sj].0 != items[i].0; } else { assert items[i].0 != items[sj].0; }
    }
  }

  /** With distinct keys, `remove` leaves what `get` finds for every other key unchanged. */
  lemma DeleteOther<K, V>(items: seq<(K, V)>, key: K, other: K)
    requires DistinctKeys(items) && other != key
    ensures Find(Delete(items, key), other) == Find(items, other)
  {
    DeleteProperties(items, key);
    var r := Delete(items, key);
    match IndexOf(items, key)
    case None =>
    case Some(i) =>
      SwapRemoveMultiset(items, i);
      if other in KeySet(items) {
        var j := IndexOf(items, other).value;
        assert j != i;
        var j' := if j == |items| - 1 then i else j;
        assert r[j'] == items[j];
        FindStored(items, j);
        FindStored(r, j');
      }
  }

  /** Where a key is first found depends only on the keys, not on the values. */
  lemma {:induction false} IndexOfSameKeys<K, V>(a: seq<(K, V)>, b: seq<(K, V)>, key: K)
    requires |a| == |b| && forall j :: 0 <= j < |a| ==> a[j].0 == b[j].0
    ensures IndexOf(a, key) == IndexOf(b, key)
  {
    if a != [] {
      IndexOfSameKeys(a[1..], b[1..], key);
    }
  }

  // ---------- The bucket object ----------

  class Bucket<K(==), V> {
    var items: seq<(K, V)>

    /** `Bucket::new` / `Default`: an empty vector. */
    constructor ()
      ensures items == []
    {
      items := [];
    }

    /** `get`: scans the pairs in order and returns the first match's value. */
    method Get(key: K) returns (r: Option<V>)
      ensures r == Find(items, key)
    {
      var i := 0;
      while i < |items|
        invariant 0 <= i <= |items|
        invariant forall j :: 0 <= j < i ==> items[j].0 != key
      {
        if items[i].0 == key {
          return Some(items[i].1);
        }
        i := i + 1;
      }
      return None;
    }

    /**
     * `get_mut`: the same scan as `get`, handing out the position of the
     * match in place of a mutable reference to its value.
     */
    method GetMut(key: K) returns (pos: Option<nat>)
      ensures pos == IndexOf(items, key)
    {
      var i := 0;
      while i < |items|
        invariant 0 <= i <= |items|
        invariant forall j :: 0 <= j < i ==> items[j].0 != key
      {
        if items[i].0 == key {
          return Some(i);
        }
        i := i + 1;
      }
      return None;
    }

    /** `contains_key`: some pair has key `key`, exactly when `get` finds a value. */
    function ContainsKey(key: K): (b: bool)
      reads this
      ensures b <==> Find(items, key).Some?
    {
      exists j | 0 <= j < |items| :: items[j].0 == key
    }

    /** `insert`: replaces the matching pair's value in place, or appends. */
    method Insert(key: K, value: V) returns (prev: Option<V>)
      modifies this
      ensures prev == Find(old(items), key)
      ensures items == Upsert(old(items), key, value)
    {
      var i := 0;
      while i < |items|
        invariant 0 <= i <= |items|
        invariant items == old(items)
        invariant forall j :: 0 <= j < i ==> items[j].0 != key
      {
        if items[i].0 == key {
          prev := Some(items[i].1);
          items := items[i := (items[i].0, value)];
          return;
        }
        i := i + 1;
      }
      items := items + [(key, value)];
      prev := None;
    }

    /**
     * `insert_mut`: places the pair as `insert` does and hands out the
     * position where the value now lives.
     */
    method InsertMut(key: K, value: V) returns (pos: nat)
      modifies this
      ensures items == Upsert(old(items), key, value)
      ensures pos < |items| && items[pos] == (key, value)
      ensures IndexOf(items, key) == Some(pos)
    {
      var i := 0;
      while i < |items|
        invariant 0 <= i <= |items|
        invariant items == old(items)
        invariant forall j :: 0 <= j < i ==> items[j].0 != key
      {
        if items[i].0 == key {
          items := items[i := (items[i].0, value)];
          return i;
        }
        i := i + 1;
      }
      items := items + [(key, value)];
      pos := |items| - 1;
    }

    /** `remove`: finds the first match's position and swap-removes it. */
    method Remove(key: K) returns (r: Option<V>)
      modifies this
      ensures r == Find(old(items), key)
      ensures items == Delete(old(items), key)
    {
      var i := 0;
      while i < |items| && items[i].0 != key
        invariant 0 <= i <= |items|
        invariant forall j :: 0 <= j < i ==> items[j].0 != key
      {
        i := i + 1;
      }
      if i == |items| {
        return None;
      }
      r := Some(items[i].1);
      items := SwapRemove(items, i);
    }

    /** `at`: the pair at position `idx`, or nothing past the end. */
    function At(idx: nat): (r: Option<(K, V)>)
      reads this
      ensures r.Some? <==> idx < |items|
      ensures r.Some? ==> r.value == items[idx]
    {
      if idx < |items| then Some(items[idx]) else None
    }

    /** A write through the mutable reference `at_mut` / `get_mut` / `insert_mut` hand out. */
    method WriteValue(pos: nat, value: V)
      requires pos < |items|
      modifies this
      ensures items == old(items)[pos := (old(items)[pos].0, value)]
      ensures KeySet(items) == KeySet(old(items))
    {
      items := items[pos := (items[pos].0, value)];
      assert items[pos].0 == old(items)[pos].0;
      assert forall j :: 0 <= j < |items| ==> items[j].0 == old(items)[j].0;
    }
  }
}
