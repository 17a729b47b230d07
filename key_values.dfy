/**
 * The key and value views of src/key_values.rs: `Keys` and `Values` each
 * wrap a `HashMapIterator` over the map and, on every `next`, advance it
 * once and hand back one component of the pair it yields.
 */
module KeyValues {
  import opened Wrappers
  import opened Tables
  import opened HashMapper

  /** The second components of `pairs`, in order. */
  function ValuesOf<K, V>(pairs: seq<(K, V)>): (vs: seq<V>)
    ensures |vs| == |pairs| && forall i :: 0 <= i < |pairs| ==> vs[i] == pairs[i].1
  {
    seq(|pairs|, i requires 0 <= i < |pairs| => pairs[i].1)
  }

  /** The key of a pair that may be missing, as `next` projects it (key_values.rs:22-23). */
  function FirstOf<K, V>(p: Option<(K, V)>): (r: Option<K>)
    ensures r.None? <==> p.None?
    ensures r.Some? ==> r.value == p.value.0
  {
    match p
    case None => None
    case Some((k, _)) => Some(k)
  }

  /** The value of a pair that may be missing, as `next` projects it (key_values.rs:43-44). */
  function SecondOf<K, V>(p: Option<(K, V)>): (r: Option<V>)
    ensures r.None? <==> p.None?
    ensures r.Some? ==> r.value == p.value.1
  {
    match p
    case None => None
    case Some((_, v)) => Some(v)
  }

  /** `Keys` (key_values.rs:7-9): an iterator over the keys of `mapIter.hmap`. */
  class Keys<K(==), V> {
    const mapIter: HashMapIterator<K, V>

    /** The keys still to be yielded: those of the wrapped iterator's pending pairs. */
    ghost function Pending(): seq<K>
      reads mapIter, mapIter.hmap
    {
      KeysOf(mapIter.Pending())
    }

    /** `Keys::new` (key_values.rs:12-16): a fresh iterator with every stored key pending. */
    constructor (m: HashMap<K, V>)
      ensures mapIter.hmap == m && fresh(mapIter)
      ensures mapIter.bucketIdx == 0 && mapIter.bucketAt == 0
      ensures Pending() == KeysOf(Flatten(m.Contents))
    {
      mapIter := new HashMapIterator(m);
    }

    /**
     * `next` (key_values.rs:21-24): advances the wrapped iterator exactly
     * once, as `NextCursor` says, and yields the key of the pair it yields,
     * or nothing exactly when it yields nothing. The key is the first one
     * pending and is stored in the map; a map counting no item yields none.
     */
    method Next() returns (r: Option<K>)
      requires mapIter.hmap.Valid()
      modifies mapIter
      ensures mapIter.hmap.Valid()
      ensures var c := NextCursor(mapIter.hmap.Contents, mapIter.hmap.numItems,
                                  old(mapIter.bucketIdx), old(mapIter.bucketAt));
              r == FirstOf(c.0) && mapIter.bucketIdx == c.1 && mapIter.bucketAt == c.2
      ensures mapIter.hmap.numItems == 0 ==> r.None?
      ensures r.None? <==> old(Pending()) == []
      ensures r.None? ==> Pending() == []
      ensures r.Some? ==> old(Pending()) == [r.value] + Pending()
      ensures r.Some? ==> r.value in KeysOf(Flatten(mapIter.hmap.Contents))
    {
      ghost var t := mapIter.hmap.Contents;
      var p := mapIter.Next();
      PendingStep(t, mapIter.hmap.numItems, old(mapIter.bucketIdx), old(mapIter.bucketAt));
      match p {
        case None =>
          r := None;
        case Some(kv) =>
          r := Some(kv.0);
          KeysOfCons(kv, mapIter.Pending());
          StoredComponents(Flatten(t), kv);
      }
    }
  }

  /** `Values` (key_values.rs:28-30): an iterator over the values of `mapIter.hmap`. */
  class Values<K(==), V> {
    const mapIter: HashMapIterator<K, V>

    /** The values still to be yielded: those of the wrapped iterator's pending pairs. */
    ghost function Pending(): seq<V>
      reads mapIter, mapIter.hmap
    {
      ValuesOf(mapIter.Pending())
    }

    /** `Values::new` (key_values.rs:33-37): a fresh iterator with every stored value pending. */
    constructor (m: HashMap<K, V>)
      ensures mapIter.hmap == m && fresh(mapIter)
      ensures mapIter.bucketIdx == 0 && mapIter.bucketAt == 0
      ensures Pending() == ValuesOf(Flatten(m.Contents))
    {
      mapIter := new HashMapIterator(m);
    }

    /**
     * `next` (key_values.rs:42-45): advances the wrapped iterator exactly
     * once and yields the value of the pair it yields, or nothing exactly
     * when it yields nothing. The value is the first one pending and is
     * stored in the map; a map counting no item yields none.
     */
    method Next() returns (r: Option<V>)
      requires mapIter.hmap.Valid()
      modifies mapIter
      ensures mapIter.hmap.Valid()
      ensures var c := NextCursor(mapIter.hmap.Contents, mapIter.hmap.numItems,
                                  old(mapIter.bucketIdx), old(mapIter.bucketAt));
              r == SecondOf(c.0) && mapIter.bucketIdx == c.1 && mapIter.bucketAt == c.2
      ensures mapIter.hmap.numItems == 0 ==> r.None?
      ensures r.None? <==> old(Pending()) == []
      ensures r.None? ==> Pending() == []
      ensures r.Some? ==> old(Pending()) == [r.value] + Pending()
      ensures r.Some? ==> r.value in ValuesOf(Flatten(mapIter.hmap.Contents))
    {
      ghost var t := mapIter.hmap.Contents;
      var p := mapIter.Next();
      PendingStep(t, mapIter.hmap.numItems, old(mapIter.bucketIdx), old(mapIter.bucketAt));
      match p {
        case None =>
          r := None;
        case Some(kv) =>
          r := Some(kv.1);
          ValuesOfCons(kv, mapIter.Pending());
          StoredComponents(Flatten(t), kv);
      }
    }
  }

  /**
   * One `next` of the wrapped iterator over a valid map: it yields nothing
   * exactly when nothing is pending, and then nothing is left pending;
   * otherwise it yields the first pending pair, a stored one, and leaves the
   * rest pending.
   */
  lemma PendingStep<K, V>(t: Table<K, V>, count: nat, bi: nat, ba: nat)
    requires |Flatten(t)| <= count
    ensures var c := NextCursor(t, count, bi, ba);
            && (c.0.None? <==> Remaining(t, bi, ba) == [])
            && (c.0.None? ==> Remaining(t, c.1, c.2) == [])
            && (c.0.Some? ==> Remaining(t, bi, ba) == [c.0.value] + Remaining(t, c.1, c.2)
                              && c.0.value in Flatten(t))
  {
    var c := NextCursor(t, count, bi, ba);
    var rest := Remaining(t, bi, ba);
    if count == 0 {
      RemainingSuffix(t, bi, ba);
      assert rest == [] && c == (None, bi, ba);
    } else {
      assert c == Seek(t, bi, ba);
      SeekYieldsFirst(t, bi, ba);
      if c.0.Some? {
        assert rest == [rest[0]] + rest[1..];
      }
    }
  }

  lemma KeysOfCons<K, V>(p: (K, V), rest: seq<(K, V)>)
    ensures KeysOf([p] + rest) == [p.0] + KeysOf(rest)
  {
  }

  lemma ValuesOfCons<K, V>(p: (K, V), rest: seq<(K, V)>)
    ensures ValuesOf([p] + rest) == [p.1] + ValuesOf(rest)
  {
  }

  lemma ValuesOfSnoc<K, V>(pairs: seq<(K, V)>, p: (K, V))
    ensures ValuesOf(pairs + [p]) == ValuesOf(pairs) + [p.1]
  {
    assert forall i :: 0 <= i < |pairs| ==> (pairs + [p])[i] == pairs[i];
  }

  /** A stored pair's key is a stored key, and its value a stored value. */
  lemma StoredComponents<K, V>(f: seq<(K, V)>, p: (K, V))
    requires p in f
    ensures p.0 in KeysOf(f) && p.1 in ValuesOf(f)
  {
    var i :| 0 <= i < |f| && f[i] == p;
    assert KeysOf(f)[i] == p.0;
    assert ValuesOf(f)[i] == p.1;
  }

  /**
   * A `for` loop over `map.keys()` (tests/test.rs:127-129): driving `next`
   * until it returns None yields the key of every stored pair exactly once,
   * in the order the pairs are stored; the loop ends.
   */
  method CollectKeys<K(==), V>(m: HashMap<K, V>) returns (out: seq<K>)
    requires m.Valid()
    ensures out == KeysOf(Flatten(m.Contents))
  {
    ghost var t := m.Contents;
    var it := new Keys(m);
    ghost var seen: seq<(K, V)> := [];
    RemainingFromStart(t);
    out := [];
    var done := false;
    while !done
      invariant m.Valid() && m.Contents == t && it.mapIter.hmap == m && fresh(it.mapIter)
      invariant seen + Remaining(t, it.mapIter.bucketIdx, it.mapIter.bucketAt) == Flatten(t)
      invariant out == KeysOf(seen)
      invariant done ==> Remaining(t, it.mapIter.bucketIdx, it.mapIter.bucketAt) == []
      decreases |Remaining(t, it.mapIter.bucketIdx, it.mapIter.bucketAt)|, !done
    {
      CollectStep(t, m.numItems, seen, it.mapIter.bucketIdx, it.mapIter.bucketAt);
      ghost var c := NextCursor(t, m.numItems, it.mapIter.bucketIdx, it.mapIter.bucketAt);
      var r := it.Next();
      match r {
        case None =>
          done := true;
        case Some(k) =>
          KeysOfSnoc(seen, c.0.value);
          seen := seen + [c.0.value];
          out := out + [k];
      }
    }
  }

  /**
   * A `for` loop over `map.values()` (tests/test.rs:124-126): it yields the
   * value of every stored pair exactly once, in the order the pairs are
   * stored; the loop ends.
   */
  method CollectValues<K(==), V>(m: HashMap<K, V>) returns (out: seq<V>)
    requires m.Valid()
    ensures out == ValuesOf(Flatten(m.Contents))
  {
    ghost var t := m.Contents;
    var it := new Values(m);
    ghost var seen: seq<(K, V)> := [];
    RemainingFromStart(t);
    out := [];
    var done := false;
    while !done
      invariant m.Valid() && m.Contents == t && it.mapIter.hmap == m && fresh(it.mapIter)
      invariant seen + Remaining(t, it.mapIter.bucketIdx, it.mapIter.bucketAt) == Flatten(t)
      invariant out == ValuesOf(seen)
      invariant done ==> Remaining(t, it.mapIter.bucketIdx, it.mapIter.bucketAt) == []
      decreases |Remaining(t, it.mapIter.bucketIdx, it.mapIter.bucketAt)|, !done
    {
      CollectStep(t, m.numItems, seen, it.mapIter.bucketIdx, it.mapIter.bucketAt);
      ghost var c := NextCursor(t, m.numItems, it.mapIter.bucketIdx, it.mapIter.bucketAt);
      var r := it.Next();
      match r {
        case None =>
          done := true;
        case Some(v) =>
          ValuesOfSnoc(seen, c.0.value);
          seen := seen + [c.0.value];
          out := out + [v];
      }
    }
  }

  /**
   * `key_value_iterators` (tests/test.rs:117-130): after inserting (1, 1),
   * (2, 2) and (5, 3) into a new map, `values()` yields three values, each
   * between 1 and 3, and `keys()` three keys, each between 1 and 5, for
   * either way of hashing in `resize`.
   */
  method KeyValueIterators(digest: Digest<int>, how: Hashing) returns (vals: seq<int>, keys: seq<int>)
    ensures |vals| == 3 && forall i :: 0 <= i < |vals| ==> 1 <= vals[i] <= 3
    ensures |keys| == 3 && forall i :: 0 <= i < |keys| ==> 1 <= keys[i] <= 5
  {
    var m := new HashMap(digest, how);
    InsertThree(m);
    ThreePairsRange(Flatten(m.Contents));
    vals := CollectValues(m);
    keys := CollectKeys(m);
  }

  /** The three inserts of `key_value_iterators` on a new map. */
  method InsertThree(m: HashMap<int, int>)
    requires m.Valid() && m.Model() == Store([], 0) && m.buckets == []
    modifies m
    ensures m.Valid() && multiset(Flatten(m.Contents)) == multiset{(1, 1)} + multiset{(2, 2)} + multiset{(5, 3)}
  {
    var s1, s2, s3 := ThreeInserts(m.digest, m.how);
    var _ := m.Insert(1, 1);
    assert forall i :: 0 <= i < |m.buckets| ==> fresh(m.buckets[i]);
    var _, _ := InsertPair(m, 2, 2, 5, 3);
  }

  /** After each insert of `key_value_iterators` the map holds exactly the pairs inserted so far. */
  lemma ThreeInserts(digest: Digest<int>, how: Hashing) returns (s1: Store<int, int>, s2: Store<int, int>, s3: Store<int, int>)
    ensures s1 == Put(Store([], 0), digest, how, 1, 1).0
    ensures s2 == Put(s1, digest, how, 2, 2).0
    ensures s3 == Put(s2, digest, how, 5, 3).0
    ensures multiset(Flatten(s3.table)) == multiset{(1, 1)} + multiset{(2, 2)} + multiset{(5, 3)}
  {
    s1 := FirstStep(Store([], 0), digest, how, 1, 1);
    s2, s3 := SecondAndThirdInserts(digest, how, s1);
  }

  /** The second and third inserts of `key_value_iterators`, into the map holding (1, 1). */
  lemma SecondAndThirdInserts(digest: Digest<int>, how: Hashing, s1: Store<int, int>)
    returns (s2: Store<int, int>, s3: Store<int, int>)
    requires HoldsExactly(s1, digest, multiset{(1, 1)})
    ensures s2 == Put(s1, digest, how, 2, 2).0
    ensures s3 == Put(s2, digest, how, 5, 3).0
    ensures multiset(Flatten(s3.table)) == multiset{(1, 1)} + multiset{(2, 2)} + multiset{(5, 3)}
  {
    var m1 := multiset{(1, 1)};
    s2 := NextStep(s1, digest, how, 2, 2, m1);
    s3 := NextStep(s2, digest, how, 5, 3, m1 + multiset{(2, 2)});
  }

  /** Every pair of a sequence holding exactly those three has its key in 1..5 and its value in 1..3. */
  lemma ThreePairsRange(f: seq<(int, int)>)
    requires multiset(f) == multiset{(1, 1)} + multiset{(2, 2)} + multiset{(5, 3)}
    ensures |ValuesOf(f)| == 3 && forall i :: 0 <= i < |f| ==> 1 <= ValuesOf(f)[i] <= 3
    ensures |KeysOf(f)| == 3 && forall i :: 0 <= i < |f| ==> 1 <= KeysOf(f)[i] <= 5
  {
    assert |f| == |multiset(f)|;
    forall i | 0 <= i < |f|
      ensures 1 <= f[i].1 <= 3 && 1 <= f[i].0 <= 5
    {
      assert f[i] in multiset(f);
    }
  }
}
