/**
 * The map object of src/lib.rs: its bucket vector and item counter, the
 * lookups, `insert`, `insert_mut`, `remove`, `resize`, and the cursor
 * iterator `HashMapIterator`.
 *
 * A ghost field `Contents` mirrors the buckets' pair vectors; every method
 * is proved to move `Contents` and `numItems` exactly as the functions of
 * module `Tables` say, and to keep `Tables.Inv`.
 */
module HashMapper {
  import opened Wrappers
  import opened Buckets
  import opened Tables

  /** The bucket objects `bs` hold the pair vectors of `t`, one by one. */
  ghost predicate Mirrors<K, V>(bs: seq<Bucket<K, V>>, t: Table<K, V>)
    reads bs
  {
    |bs| == |t| && forall i :: 0 <= i < |bs| ==> bs[i].items == t[i]
  }

  /** No bucket object appears twice in the vector. */
  ghost predicate Distinct<T>(s: seq<T>) {
    forall i, j :: 0 <= i < j < |s| ==> s[i] != s[j]
  }

  /** `(0..n).map(|_| Bucket::new())` collected (lib.rs:131-132): `n` new empty buckets. */
  method NewBuckets<K(==), V>(n: nat) returns (bs: seq<Bucket<K, V>>)
    ensures |bs| == n && Distinct(bs)
    ensures forall i :: 0 <= i < n ==> fresh(bs[i]) && bs[i].items == []
  {
    bs := [];
    while |bs| < n
      invariant |bs| <= n && Distinct(bs)
      invariant forall i :: 0 <= i < |bs| ==> fresh(bs[i]) && bs[i].items == []
    {
      var b := new Bucket();
      bs := bs + [b];
    }
  }

  /**
   * The body of the drain loop in `resize` (lib.rs:133-137) for the pairs of
   * one old bucket, each inserted into the new bucket the hasher picks.
   * `fed` is the hasher's state, the keys fed to it so far: with `Shared`,
   * as written, the one hasher made before the loop is fed every drained
   * key in turn; with `PerKey` each key gets a new hasher.
   */
  method DrainInto<K(==), V>(bs: seq<Bucket<K, V>>, items: seq<(K, V)>, ghost drained: seq<(K, V)>,
                             fed: seq<K>, digest: Digest<K>, how: Hashing) returns (fed': seq<K>)
    requires |bs| > 0 && Distinct(bs)
    requires how == Shared ==> fed == KeysOf(drained)
    requires Mirrors(bs, Drain(drained, |bs|, digest, how))
    modifies bs
    ensures how == Shared ==> fed' == KeysOf(drained + items)
    ensures Mirrors(bs, Drain(drained + items, |bs|, digest, how))
  {
    var j := 0;
    ghost var done := drained;
    fed' := fed;
    while j < |items|
      invariant 0 <= j <= |items| && done == drained + items[..j]
      invariant how == Shared ==> fed' == KeysOf(done)
      invariant Mirrors(bs, Drain(done, |bs|, digest, how))
    {
      fed' := DrainOne(bs, items[j], done, fed', digest, how);
      PrefixSnoc(drained, items, j);
      done := done + [items[j]];
      j := j + 1;
    }
    assert items[..|items|] == items;
  }

  /**
   * One pair of the drain loop: its key is fed to the hasher, and the pair
   * is inserted into the bucket `finish() % len` picks.
   */
  method DrainOne<K(==), V>(bs: seq<Bucket<K, V>>, p: (K, V), ghost before: seq<(K, V)>,
                            fed: seq<K>, digest: Digest<K>, how: Hashing) returns (fed': seq<K>)
    requires |bs| > 0 && Distinct(bs)
    requires how == Shared ==> fed == KeysOf(before)
    requires Mirrors(bs, Drain(before, |bs|, digest, how))
    modifies bs
    ensures how == Shared ==> fed' == KeysOf(before + [p])
    ensures Mirrors(bs, Drain(before + [p], |bs|, digest, how))
  {
    var (key, value) := p;
    fed' := if how == Shared then fed + [key] else [key];
    var idx := digest(fed') % |bs|;
    DrainSnoc(before, p, |bs|, digest, how);
    KeysOfSnoc(before, p);
    InsertAt(bs, idx, key, value, Drain(before, |bs|, digest, how));
  }

  /**
   * The allocation and drain loop of `resize` (lib.rs:130-137): a hasher and
   * `n` new buckets, into which the pairs of the old buckets `olds` are
   * drained in order, bucket by bucket: the new buckets hold `Rehash`.
   */
  method DrainAll<K(==), V>(olds: seq<Bucket<K, V>>, ghost t: Table<K, V>, n: nat, digest: Digest<K>, how: Hashing)
    returns (bs: seq<Bucket<K, V>>)
    requires n > 0 && Mirrors(olds, t)
    ensures |bs| == n && Distinct(bs) && Mirrors(bs, Rehash(t, n, digest, how))
    ensures forall i :: 0 <= i < n ==> fresh(bs[i])
  {
    var fed: seq<K> := [];
    bs := NewBuckets(n);
    assert Mirrors(bs, Drain([], n, digest, how));
    ghost var drained: seq<(K, V)> := [];
    var bi := 0;
    while bi < |olds|
      invariant 0 <= bi <= |olds|
      invariant drained == Flatten(t[..bi])
      invariant how == Shared ==> fed == KeysOf(drained)
      invariant |bs| == n && Distinct(bs) && Mirrors(bs, Drain(drained, n, digest, how))
      invariant forall i :: 0 <= i < n ==> fresh(bs[i])
    {
      var items := olds[bi].items;
      fed := DrainInto(bs, items, drained, fed, digest, how);
      FlattenPrefix(t, bi);
      drained := drained + items;
      bi := bi + 1;
    }
    assert t[..bi] == t;
  }

  /** One more element of `b` taken after `a`. */
  lemma PrefixSnoc<T>(a: seq<T>, b: seq<T>, j: nat)
    requires j < |b|
    ensures a + b[..j + 1] == (a + b[..j]) + [b[j]]
  {
    assert b[..j + 1] == b[..j] + [b[j]];
  }

  /** `bs[idx].insert(key, value)` on buckets that mirror `t`. */
  method InsertAt<K(==), V>(bs: seq<Bucket<K, V>>, idx: nat, key: K, value: V, ghost t: Table<K, V>)
    requires idx < |bs| && Distinct(bs) && Mirrors(bs, t)
    modifies bs[idx]
    ensures Mirrors(bs, t[idx := Upsert(t[idx], key, value)])
  {
    var _ := bs[idx].Insert(key, value);
    forall i | 0 <= i < |bs| && i != idx
      ensures bs[i].items == t[i]
    {
      assert bs[i] != bs[idx];
    }
  }

  class HashMap<K(==), V> {
    var buckets: seq<Bucket<K, V>>
    var numItems: nat
    /** The hasher: `digest(ks)` is `finish()` after feeding the keys `ks`. */
    const digest: Digest<K>
    /**
     * How `resize` hashes the keys it drains: `Shared`, as written, with one
     * hasher for all of them; `PerKey` with a new hasher for each, as `get`
     * hashes them.
     */
    const how: Hashing
    /** The pairs of each bucket, bucket by bucket. */
    ghost var Contents: Table<K, V>

    ghost predicate Valid()
      reads this, buckets
    {
      && Mirrors(buckets, Contents) && Distinct(buckets) && Inv(Store(Contents, numItems))
      && (how == PerKey ==> Placed(Contents, digest)) && LoadBounded(Store(Contents, numItems))
    }

    /** The map as a value: its buckets' pairs and its counter. */
    ghost function Model(): Store<K, V>
      reads this
    {
      Store(Contents, numItems)
    }

    /** `new` / `Default` (lib.rs:23-35): no buckets and no items. */
    constructor (digest: Digest<K>, how: Hashing)
      ensures Valid() && buckets == [] && Model() == Store([], 0) && this.digest == digest && this.how == how
    {
      buckets := [];
      numItems := 0;
      this.digest := digest;
      this.how := how;
      Contents := [];
    }

    /**
     * `get` (lib.rs:37-46): scans the key's slot, and so finds only stored
     * values; while every pair sits in its key's slot (always with `PerKey`),
     * it finds a value exactly when the key is stored. Panics on an empty
     * bucket vector.
     */
    method Get(key: K) returns (r: Option<V>)
      requires Valid() && |buckets| > 0
      ensures r == Lookup(Contents, digest, key)
      ensures r.Some? ==> (key, r.value) in Flatten(Contents)
      ensures Placed(Contents, digest) ==> (r.None? <==> key !in KeySet(Flatten(Contents)))
    {
      var idx := digest([key]) % |buckets|;
      r := buckets[idx].Get(key);
      if Placed(Contents, digest) {
        LookupStored(Contents, digest, key);
      }
    }

    /** `get_mut` (lib.rs:48-57): a handle to the value `get` would return. */
    method GetMut(key: K) returns (h: Option<Handle>)
      requires Valid() && |buckets| > 0
      ensures h == Locate(Contents, digest, key)
    {
      var idx := digest([key]) % |buckets|;
      var pos := buckets[idx].GetMut(key);
      if pos.Some? {
        h := Some(Handle(idx, pos.value));
      } else {
        h := None;
      }
    }

    /**
     * `contains_key` (lib.rs:59-71): false without hashing when no item is
     * counted, else whether the key's slot holds the key; exactly when `get`
     * finds a value, and so, while every pair sits in its key's slot,
     * exactly when the key is stored.
     */
    function ContainsKey(key: K): (b: bool)
      reads this, buckets
      requires Valid()
      ensures b <==> |Contents| > 0 && Lookup(Contents, digest, key).Some?
      ensures Placed(Contents, digest) ==> (b <==> key in KeySet(Flatten(Contents)))
    {
      if numItems == 0 then
        assert Flatten(Contents) == [];
        false
      else
        assert Placed(Contents, digest) ==> (Lookup(Contents, digest, key).None? <==> key !in KeySet(Flatten(Contents))) by {
          if Placed(Contents, digest) {
            LookupStored(Contents, digest, key);
          }
        }
        buckets[digest([key]) % |buckets|].ContainsKey(key)
    }

    /** `len` (lib.rs:117-119): the counter, which bounds the stored pairs from above. */
    function Len(): (n: nat)
      reads this, buckets
      requires Valid()
      ensures |Flatten(Contents)| <= n
      ensures n == Model().count
    {
      numItems
    }

    /** `is_empty` (lib.rs:121-123): no item counted; then no pair is stored. */
    function IsEmpty(): (b: bool)
      reads this, buckets
      requires Valid()
      ensures b <==> Len() == 0
      ensures b ==> Flatten(Contents) == []
    {
      numItems == 0
    }

    /**
     * `resize` (lib.rs:125-139): allocates 1024 empty buckets from empty and
     * twice as many otherwise, then drains every old pair, bucket by bucket,
     * into the bucket the hasher picks. With a new hasher per key, `get`
     * then finds what it found before; with the shared hasher as written it
     * need not (`Tables.ResizeLosesLookup`).
     */
    method Resize()
      requires Valid()
      modifies this
      ensures Valid() && numItems == old(numItems)
      ensures Contents == Rehash(old(Contents), Grow(old(|buckets|)), digest, how)
      ensures how == PerKey && old(|buckets|) > 0 ==>
                forall key :: Lookup(Contents, digest, key) == Lookup(old(Contents), digest, key)
      ensures forall i :: 0 <= i < |buckets| ==> fresh(buckets[i])
    {
      var targetSize := if |buckets| == 0 then 1024 else 2 * |buckets|;
      var newBuckets := DrainAll(buckets, Contents, targetSize, digest, how);
      ghost var r := Rehash(Contents, targetSize, digest, how);
      RehashInv(Model(), digest, how);
      if how == PerKey {
        RehashPlaced(Contents, targetSize, digest);
        if |buckets| > 0 {
          forall key ensures Lookup(r, digest, key) == Lookup(Contents, digest, key) {
            RehashLookup(Contents, targetSize, digest, key);
          }
        }
      }
      buckets := newBuckets;
      Contents := r;
    }

    /**
     * `get_bucket_mut` (lib.rs:73-81): allocates the buckets when there are
     * none yet, then picks the key's slot by a fresh digest.
     */
    method GetBucketMut(key: K) returns (idx: nat)
      requires Valid()
      modifies this
      ensures Valid() && numItems == old(numItems) && |buckets| > 0
      ensures old(|buckets|) > 0 ==> buckets == old(buckets) && Contents == old(Contents)
      ensures old(|buckets|) == 0 ==> Contents == Empties(INITIAL_CAPACITY)
      ensures idx == Slot(digest, key, |buckets|)
      ensures forall i :: 0 <= i < |buckets| ==> buckets[i] in old(buckets) || fresh(buckets[i])
    {
      if |buckets| == 0 {
        Resize();
        RehashEmpty(old(Contents), INITIAL_CAPACITY, digest, how);
      }
      idx := digest([key]) % |buckets|;
    }

    /**
     * The resize check and count at the top of `insert` and `insert_mut`
     * (lib.rs:84-88, 93-97): the map becomes `Reserve` of the old one, with
     * one more item counted.
     */
    method Prepare()
      requires Valid()
      modifies this
      ensures Valid() && |buckets| > 0
      ensures Model() == Store(Reserve(old(Model()), digest, how).table, old(numItems) + 1)
      ensures forall i :: 0 <= i < |buckets| ==> buckets[i] in old(buckets) || fresh(buckets[i])
    {
      ghost var s := Model();
      var l := |buckets|;
      if l == 0 || numItems > 3 * l {
        Resize();
      }
      assert Contents == Reserve(s, digest, how).table;
      ReserveCounted(s, digest, how);
      ReserveLoad(s, digest, how);
      numItems := numItems + 1;
    }

    /**
     * `insert` (lib.rs:83-90): resizes when the vector is empty or counts
     * more than three items per bucket, counts one more item whatever
     * happens, and inserts into the key's bucket, returning its old value.
     */
    method Insert(key: K, value: V) returns (prev: Option<V>)
      requires Valid()
      modifies this, buckets
      ensures Valid()
      ensures Model() == Put(old(Model()), digest, how, key, value).0
      ensures prev == Put(old(Model()), digest, how, key, value).1
      ensures forall i :: 0 <= i < |buckets| ==> buckets[i] in old(buckets) || fresh(buckets[i])
    {
      ghost var s := Model();
      Prepare();
      var idx := GetBucketMut(key);
      prev := InsertBucket(idx, key, value);
      PutAt(s, digest, how, key, value);
      PutValid(s, digest, how, key, value);
    }

    /**
     * `insert_mut` (lib.rs:92-99): as `insert`, handing out the place of the
     * stored value in place of the old value.
     */
    method InsertMut(key: K, value: V) returns (h: Handle)
      requires Valid()
      modifies this, buckets
      ensures Valid()
      ensures Model() == Put(old(Model()), digest, how, key, value).0
      ensures h == PutHandle(old(Model()), digest, how, key, value)
      ensures forall i :: 0 <= i < |buckets| ==> buckets[i] in old(buckets) || fresh(buckets[i])
    {
      ghost var s := Model();
      Prepare();
      var idx := GetBucketMut(key);
      var pos := InsertBucketMut(idx, key, value);
      PutAt(s, digest, how, key, value);
      PutValid(s, digest, how, key, value);
      h := Handle(idx, pos);
    }

    /** `self.buckets[idx].insert(key, value)` (lib.rs:89): only that bucket changes. */
    method InsertBucket(idx: nat, key: K, value: V) returns (prev: Option<V>)
      requires Mirrors(buckets, Contents) && Distinct(buckets) && idx < |buckets|
      modifies this, buckets[idx]
      ensures Mirrors(buckets, Contents) && Distinct(buckets)
      ensures buckets == old(buckets) && numItems == old(numItems)
      ensures Contents == old(Contents)[idx := Upsert(old(Contents)[idx], key, value)]
      ensures prev == Find(old(Contents)[idx], key)
    {
      prev := buckets[idx].Insert(key, value);
      forall i | 0 <= i < |buckets| && i != idx
        ensures buckets[i].items == Contents[i]
      {
        assert buckets[i] != buckets[idx];
      }
      Contents := Contents[idx := buckets[idx].items];
    }

    /** `self.buckets[idx].insert_mut(key, value)` (lib.rs:98): only that bucket changes. */
    method InsertBucketMut(idx: nat, key: K, value: V) returns (pos: nat)
      requires Mirrors(buckets, Contents) && Distinct(buckets) && idx < |buckets|
      modifies this, buckets[idx]
      ensures Mirrors(buckets, Contents) && Distinct(buckets)
      ensures buckets == old(buckets) && numItems == old(numItems)
      ensures Contents == old(Contents)[idx := Upsert(old(Contents)[idx], key, value)]
      ensures IndexOf(Contents[idx], key) == Some(pos)
    {
      pos := buckets[idx].InsertMut(key, value);
      forall i | 0 <= i < |buckets| && i != idx
        ensures buckets[i].items == Contents[i]
      {
        assert buckets[i] != buckets[idx];
      }
      Contents := Contents[idx := buckets[idx].items];
    }

    /**
     * `remove` (lib.rs:101-115): swap-removes the key from its slot and
     * lowers the counter only when a pair was removed; panics on an empty
     * bucket vector.
     */
    method Remove(key: K) returns (r: Option<V>)
      requires Valid() && |buckets| > 0
      modifies this, buckets
      ensures Valid() && buckets == old(buckets)
      ensures Model() == Take(old(Model()), digest, key).0
      ensures r == Take(old(Model()), digest, key).1
    {
      ghost var s := Model();
      var idx := digest([key]) % |buckets|;
      TakeAt(s, digest, key);
      TakeLoad(s, digest, key);
      if how == PerKey {
        TakeValid(s, digest, key);
      } else {
        TakeInv(s, digest, key);
      }
      r := RemoveBucket(idx, key);
      if r.Some? {
        numItems := numItems - 1;
      }
    }

    /** `self.buckets[idx].remove(&key)` (lib.rs:108): only that bucket changes. */
    method RemoveBucket(idx: nat, key: K) returns (r: Option<V>)
      requires Mirrors(buckets, Contents) && Distinct(buckets) && idx < |buckets|
      modifies this, buckets[idx]
      ensures Mirrors(buckets, Contents) && Distinct(buckets)
      ensures buckets == old(buckets) && numItems == old(numItems)
      ensures Contents == old(Contents)[idx := Delete(old(Contents)[idx], key)]
      ensures r == Find(old(Contents)[idx], key)
    {
      r := buckets[idx].Remove(key);
      forall i | 0 <= i < |buckets| && i != idx
        ensures buckets[i].items == Contents[i]
      {
        assert buckets[i] != buckets[idx];
      }
      Contents := Contents[idx := buckets[idx].items];
    }

    /** The value a handle refers to (a read through `&mut V`). */
    function Read(h: Handle): (v: V)
      reads this, buckets
      requires Valid() && h.bucket < |buckets| && h.pos < |Contents[h.bucket]|
      ensures v == Contents[h.bucket][h.pos].1
    {
      buckets[h.bucket].items[h.pos].1
    }

    /**
     * A write `*v = value` through a handle that `get_mut` or `insert_mut`
     * handed out: only that pair's value changes.
     */
    method WriteValue(h: Handle, value: V)
      requires Valid() && h.bucket < |buckets| && h.pos < |Contents[h.bucket]|
      modifies this, buckets[h.bucket]
      ensures Valid() && buckets == old(buckets) && numItems == old(numItems)
      ensures Contents == Overwrite(old(Contents), h, value)
    {
      OverwriteInv(Model(), h, value);
      if how == PerKey {
        OverwritePlaced(Contents, digest, h, value);
      }
      buckets[h.bucket].WriteValue(h.pos, value);
      Contents := Overwrite(Contents, h, value);
    }
  }

  /**
   * `HashMapIterator` (lib.rs:158-201): a cursor (`bucket_idx`,
   * `bucket_at`) over a map it only reads.
   */
  class HashMapIterator<K(==), V> {
    const hmap: HashMap<K, V>
    var bucketIdx: nat
    var bucketAt: nat

    /** The pairs still to be yielded. */
    ghost function Pending(): seq<(K, V)>
      reads this, hmap
    {
      Remaining(hmap.Contents, bucketIdx, bucketAt)
    }

    /** `HashMapIterator::new` / `into_iter` (lib.rs:164-172, 203-209): everything is pending. */
    constructor (hm: HashMap<K, V>)
      ensures hmap == hm && bucketIdx == 0 && bucketAt == 0
      ensures Pending() == Flatten(hm.Contents)
    {
      hmap := hm;
      bucketIdx := 0;
      bucketAt := 0;
      new;
      RemainingFromStart(hm.Contents);
    }

    /**
     * `next` (lib.rs:176-199): nothing, with the cursor left alone, when no
     * item is counted; else the loop walks the cursor over exhausted buckets
     * to the next pair, as `Seek` says, and yields it. `SeekYieldsFirst`
     * states what this yields: the first pending pair.
     */
    method Next() returns (r: Option<(K, V)>)
      requires hmap.Valid()
      modifies this
      ensures (r, bucketIdx, bucketAt) == NextCursor(hmap.Contents, hmap.numItems, old(bucketIdx), old(bucketAt))
    {
      if hmap.numItems == 0 {
        return None;
      }
      ghost var t := hmap.Contents;
      ghost var target := Seek(t, bucketIdx, bucketAt);
      while bucketIdx < |hmap.buckets|
        invariant Mirrors(hmap.buckets, t) && hmap.Contents == t
        invariant Seek(t, bucketIdx, bucketAt) == target
        decreases |hmap.buckets| - bucketIdx
      {
        var newPair := hmap.buckets[bucketIdx].At(bucketAt);
        match newPair {
          case None =>
            bucketAt := 0;
            bucketIdx := bucketIdx + 1;
          case Some(p) =>
            bucketAt := bucketAt + 1;
            return Some(p);
        }
      }
      return None;
    }
  }

  /**
   * The `for` loop of `iter_on_hashmap` (lib.rs:256-260): driving `next`
   * until it returns None yields every stored pair exactly once, bucket by
   * bucket and each bucket front to back; the loop ends.
   */
  method CollectPairs<K(==), V>(m: HashMap<K, V>) returns (out: seq<(K, V)>)
    requires m.Valid()
    ensures out == Flatten(m.Contents)
  {
    ghost var t := m.Contents;
    var it := new HashMapIterator(m);
    out := [];
    var done := false;
    while !done
      invariant it.hmap == m && fresh(it)
      invariant out + Remaining(t, it.bucketIdx, it.bucketAt) == Flatten(t)
      invariant done ==> Remaining(t, it.bucketIdx, it.bucketAt) == []
      decreases |Remaining(t, it.bucketIdx, it.bucketAt)|, !done
    {
      CollectStep(t, m.numItems, out, it.bucketIdx, it.bucketAt);
      var r := it.Next();
      match r {
        case None =>
          done := true;
        case Some(p) =>
          out := out + [p];
      }
    }
  }

  /** Two inserts in a row: the map becomes the second `Put` of the first, each returning what `Put` says. */
  method InsertPair<K(==), V>(m: HashMap<K, V>, k1: K, v1: V, k2: K, v2: V) returns (p1: Option<V>, p2: Option<V>)
    requires m.Valid()
    modifies m, m.buckets
    ensures m.Valid()
    ensures var r1 := Put(old(m.Model()), m.digest, m.how, k1, v1);
            var r2 := Put(r1.0, m.digest, m.how, k2, v2);
            m.Model() == r2.0 && p1 == r1.1 && p2 == r2.1
    ensures forall i :: 0 <= i < |m.buckets| ==> m.buckets[i] in old(m.buckets) || fresh(m.buckets[i])
  {
    p1 := m.Insert(k1, v1);
    p2 := m.Insert(k2, v2);
  }

  /**
   * The test `iter_on_hashmap` (lib.rs:248-262): inserting (3, "hi"),
   * (4, "hi"), (5, "hi") and (0, "hi") into a new map returns None four
   * times; iterating then yields four pairs, each with a key of at most 5
   * and the value "hi". This holds for either way of hashing in `resize`.
   */
  method IterOnHashMap(digest: Digest<int>, how: Hashing) returns (inserted: seq<Option<string>>, items: seq<(int, string)>)
    ensures inserted == [None, None, None, None]
    ensures |items| == 4 && forall i :: 0 <= i < |items| ==> items[i].0 <= 5 && items[i].1 == "hi"
  {
    var m := new HashMap<int, string>(digest, how);
    inserted := InsertFour(m);
    items := CollectPairs(m);
    FourPairsRange(items, "hi");
  }

  /** The four inserts of `iter_on_hashmap` on a new map: each returns None, and the map holds exactly those pairs. */
  method InsertFour(m: HashMap<int, string>) returns (inserted: seq<Option<string>>)
    requires m.Valid() && m.Model() == Store([], 0) && m.buckets == []
    modifies m
    ensures m.Valid() && multiset(Flatten(m.Contents)) == multiset{(3, "hi"), (4, "hi"), (5, "hi"), (0, "hi")}
    ensures inserted == [None, None, None, None]
  {
    var s1, s2, s3, s4 := FourInsertsState(m.digest, m.how, "hi");
    var p1, p2 := InsertPair(m, 3, "hi", 4, "hi");
    assert forall i :: 0 <= i < |m.buckets| ==> fresh(m.buckets[i]);
    var p3, p4 := InsertPair(m, 5, "hi", 0, "hi");
    inserted := [p1, p2, p3, p4];
  }

  /** A sequence holding exactly those four pairs has four elements, each with a key of at most 5. */
  lemma FourPairsRange<V>(f: seq<(int, V)>, hi: V)
    requires multiset(f) == multiset{(3, hi), (4, hi), (5, hi), (0, hi)}
    ensures |f| == 4 && forall i :: 0 <= i < |f| ==> f[i].0 <= 5 && f[i].1 == hi
  {
    assert |f| == |multiset(f)|;
    forall i | 0 <= i < |f|
      ensures f[i].0 <= 5 && f[i].1 == hi
    {
      assert f[i] in multiset(f);
    }
  }
}
