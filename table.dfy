/**
 * The hash map of src/lib.rs as a value: its bucket array, each bucket given
 * by its vector of pairs, and its `num_items` counter. The functions here say
 * what `resize`, `insert`, `insert_mut`, `remove`, the lookups and the
 * iterator's cursor compute; the class `HashMap` runs the source's steps and
 * is proved against them.
 *
 * The hasher is a parameter: `digest(ks)` is what `finish()` returns after a
 * new `DefaultHasher` has been fed the keys `ks` in order. A lookup feeds one
 * key, so its slot is `digest([k]) % n`. `resize` as written feeds ONE hasher
 * every key it drains, so the j-th drained pair goes to `digest(k0, ..., kj) % n`
 * (`Rehash` with `Shared`), a slot lookups need not visit: `get` then misses
 * a stored pair (`ResizeLosesLookup`, `InsertLosesLookup`). With a new hasher
 * per drained key (`Rehash` with `PerKey`), as evidently intended, the resize
 * keeps every lookup (`RehashLookup`). Every map operation takes the hashing
 * mode `how`, so both the map as written and the corrected one are modelled.
 */
module Tables {
  import opened Wrappers
  import opened Buckets

  /** The bucket array, each bucket given by its vector of pairs. */
  type Table<K, V> = seq<seq<(K, V)>>

  /** The hasher: what `finish()` gives after feeding the keys in order. */
  type Digest<!K> = seq<K> -> nat

  /** Bucket count of the first allocation (lib.rs:127). */
  const INITIAL_CAPACITY: nat := 1024
  /** `insert` resizes once `num_items` exceeds this many items per bucket. */
  const LOAD_FACTOR: nat := 3

  /** A mutable reference into the map, as (bucket index, position in the bucket). */
  datatype Handle = Handle(bucket: nat, pos: nat)

  /** The map's two fields: the buckets and `num_items`. */
  datatype Store<K, V> = Store(table: Table<K, V>, count: nat)

  // ---------- Flattening the bucket array ----------

  /** All pairs, bucket after bucket, each bucket front to back. */
  function Flatten<T>(t: seq<seq<T>>): seq<T>
  {
    if t == [] then [] else Flatten(t[..|t| - 1]) + t[|t| - 1]
  }

  function Empties<T>(n: nat): seq<seq<T>>
  {
    seq(n, _ => [])
  }

  lemma {:induction false} FlattenAppend<T>(a: seq<seq<T>>, b: seq<seq<T>>)
    ensures Flatten(a + b) == Flatten(a) + Flatten(b)
    decreases |b|
  {
    if b == [] {
      assert a + b == a;
    } else {
      var n := |b| - 1;
      var ab := a + b;
      assert ab[..|ab| - 1] == a + b[..n];
      assert ab[|ab| - 1] == b[n];
      FlattenAppend(a, b[..n]);
      calc {
        Flatten(ab);
        Flatten(a + b[..n]) + b[n];
        (Flatten(a) + Flatten(b[..n])) + b[n];
        Flatten(a) + (Flatten(b[..n]) + b[n]);
        Flatten(a) + Flatten(b);
      }
    }
  }

  /** The pairs of the first `i + 1` buckets: those of the first `i`, then bucket `i`'s. */
  lemma FlattenPrefix<T>(t: seq<seq<T>>, i: nat)
    requires i < |t|
    ensures Flatten(t[..i + 1]) == Flatten(t[..i]) + t[i]
  {
    assert t[..i + 1][..i] == t[..i];
  }

  lemma FlattenAt<T>(t: seq<seq<T>>, i: nat)
    requires i < |t|
    ensures Flatten(t) == Flatten(t[..i]) + t[i] + Flatten(t[i + 1..])
  {
    var a := t[..i + 1];
    var b := t[i + 1..];
    FlattenPrefix(t, i);
    FlattenAppend(a, b);
    SplitJoin(t, i + 1);
  }

  lemma SplitJoin<T>(t: seq<T>, k: nat)
    requires k <= |t|
    ensures t[..k] + t[k..] == t
  {
  }

  /** Replacing one bucket replaces its pairs in the flattened sequence. */
  lemma FlattenUpdate<T>(t: seq<seq<T>>, i: nat, b: seq<T>)
    requires i < |t|
    ensures Flatten(t) == Flatten(t[..i]) + t[i] + Flatten(t[i + 1..])
    ensures Flatten(t[i := b]) == Flatten(t[..i]) + b + Flatten(t[i + 1..])
  {
    FlattenAt(t, i);
    FlattenAt(t[i := b], i);
    assert t[i := b][..i] == t[..i];
    assert t[i := b][i + 1..] == t[i + 1..];
  }

  lemma {:induction false} FlattenAllEmpty<T>(t: seq<seq<T>>)
    requires forall i :: 0 <= i < |t| ==> t[i] == []
    ensures Flatten(t) == []
  {
    if t != [] {
      FlattenAllEmpty(t[..|t| - 1]);
    }
  }

  /** Every pair of every bucket is among the flattened pairs. */
  lemma InFlatten<T>(t: seq<seq<T>>, i: nat, x: T)
    requires i < |t| && x in t[i]
    ensures x in Flatten(t)
  {
    FlattenAt(t, i);
  }

  /** Every flattened pair sits in some bucket. */
  lemma {:induction false} FromFlatten<T>(t: seq<seq<T>>, x: T) returns (i: nat)
    requires x in Flatten(t)
    ensures i < |t| && x in t[i]
  {
    var n := |t| - 1;
    if x in t[n] {
      i := n;
    } else {
      i := FromFlatten(t[..n], x);
    }
  }

  lemma KeySetAppend<K, V>(a: seq<(K, V)>, b: seq<(K, V)>)
    ensures KeySet(a + b) == KeySet(a) + KeySet(b)
  {
    var s := a + b;
    forall k | k in KeySet(s) ensures k in KeySet(a) + KeySet(b) {
      var j :| 0 <= j < |s| && s[j].0 == k;
      if j < |a| { assert a[j].0 == k; } else { assert b[j - |a|].0 == k; }
    }
    forall k | k in KeySet(a) + KeySet(b) ensures k in KeySet(s) {
      if k in KeySet(a) {
        var j :| 0 <= j < |a| && a[j].0 == k;
        assert s[j].0 == k;
      } else {
        var j :| 0 <= j < |b| && b[j].0 == k;
        assert s[|a| + j].0 == k;
      }
    }
  }

  /** The keys of one bucket are among the keys of the whole table. */
  lemma BucketKeys<K, V>(t: Table<K, V>, i: nat)
    requires i < |t|
    ensures KeySet(t[i]) <= KeySet(Flatten(t))
  {
    FlattenAt(t, i);
    KeySetAppend(Flatten(t[..i]) + t[i], Flatten(t[i + 1..]));
    KeySetAppend(Flatten(t[..i]), t[i]);
  }

  /** Inserting a pair with a new key in the middle keeps keys distinct. */
  lemma DistinctKeysInsert<K, V>(x: seq<(K, V)>, p: (K, V), y: seq<(K, V)>)
    requires DistinctKeys(x + y) && p.0 !in KeySet(x + y)
    ensures DistinctKeys(x + [p] + y)
  {
    var s := x + [p] + y;
    var xy := x + y;
    forall a, b | 0 <= a < b < |s| ensures s[a].0 != s[b].0 {
      if a == |x| {
        assert s[b] == xy[b - 1];
        assert xy[b - 1].0 in KeySet(xy);
      } else if b == |x| {
        assert s[a] == xy[a];
        assert xy[a].0 in KeySet(xy);
      } else {
        var a' := if a < |x| then a else a - 1;
        var b' := if b < |x| then b else b - 1;
        assert s[a] == xy[a'] && s[b] == xy[b'];
      }
    }
  }

  /**
   * Appending a pair whose key is stored nowhere to any bucket adds exactly
   * that pair to the table and keeps the table's keys distinct.
   */
  lemma AppendFresh<K, V>(t: Table<K, V>, i: nat, p: (K, V))
    requires i < |t|
    requires DistinctKeys(Flatten(t)) && p.0 !in KeySet(Flatten(t))
    ensures multiset(Flatten(t[i := t[i] + [p]])) == multiset(Flatten(t)) + multiset{p}
    ensures DistinctKeys(Flatten(t[i := t[i] + [p]]))
    ensures KeySet(Flatten(t[i := t[i] + [p]])) == KeySet(Flatten(t)) + {p.0}
  {
    FlattenUpdate(t, i, t[i] + [p]);
    PushFresh(Flatten(t[..i]), t[i], p, Flatten(t[i + 1..]));
  }

  /** `AppendFresh` on the flattened pairs: `p` joins the pairs of its bucket `b`. */
  lemma PushFresh<K, V>(a: seq<(K, V)>, b: seq<(K, V)>, p: (K, V), c: seq<(K, V)>)
    requires DistinctKeys(a + b + c) && p.0 !in KeySet(a + b + c)
    ensures multiset(a + (b + [p]) + c) == multiset(a + b + c) + multiset{p}
    ensures DistinctKeys(a + (b + [p]) + c)
    ensures KeySet(a + (b + [p]) + c) == KeySet(a + b + c) + {p.0}
  {
    var x := a + b;
    assert a + b + c == x + c;
    assert a + (b + [p]) + c == x + [p] + c;
    DistinctKeysInsert(x, p, c);
    KeySetAppend(x, c);
    KeySetAppend(x + [p], c);
    KeySetAppend(x, [p]);
    assert KeySet([p]) == {p.0} by { assert [p][0].0 == p.0; }
  }

  // ---------- Slots and lookups ----------

  /** The bucket a lookup of `key` visits: a fresh digest modulo the bucket count. */
  function Slot<K>(digest: Digest<K>, key: K, n: nat): (i: nat)
    requires n > 0
    ensures i < n
  {
    digest([key]) % n
  }

  /**
   * What `get` returns (lib.rs:42-45): the scan of the key's slot. A value it
   * finds is always a stored value.
   */
  function Lookup<K(==), V>(t: Table<K, V>, digest: Digest<K>, key: K): (r: Option<V>)
    requires |t| > 0
    ensures r.Some? ==> (key, r.value) in Flatten(t)
  {
    var i := Slot(digest, key, |t|);
    var r := Find(t[i], key);
    if r.Some? then InFlatten(t, i, (key, r.value)); r else r
  }

  /**
   * Where `get_mut` finds the key (lib.rs:53-56): a handle to the pair holding
   * the value `get` returns, present exactly when `get` finds one.
   */
  function Locate<K(==), V>(t: Table<K, V>, digest: Digest<K>, key: K): (h: Option<Handle>)
    requires |t| > 0
    ensures h.Some? <==> Lookup(t, digest, key).Some?
    ensures h.Some? ==> h.value.bucket < |t| && h.value.pos < |t[h.value.bucket]|
                        && t[h.value.bucket][h.value.pos] == (key, Lookup(t, digest, key).value)
  {
    var i := Slot(digest, key, |t|);
    match IndexOf(t[i], key)
    case Some(p) => Some(Handle(i, p))
    case None => None
  }

  /** Every pair sits in the bucket a lookup of its key visits. */
  ghost predicate Placed<K, V>(t: Table<K, V>, digest: Digest<K>) {
    forall i, j :: 0 <= i < |t| && 0 <= j < |t[i]| ==> Slot(digest, t[i][j].0, |t|) == i
  }

  /**
   * When every pair sits in its key's slot and buckets have distinct keys,
   * `get` finds every stored pair: the table then is a faithful map.
   */
  lemma PlacedLookup<K, V>(t: Table<K, V>, digest: Digest<K>, p: (K, V))
    requires Placed(t, digest) && (forall i :: 0 <= i < |t| ==> DistinctKeys(t[i]))
    requires p in Flatten(t)
    ensures |t| > 0 && Lookup(t, digest, p.0) == Some(p.1)
  {
    var i := FromFlatten(t, p);
    var j :| 0 <= j < |t[i]| && t[i][j] == p;
    assert Slot(digest, t[i][j].0, |t|) == i;
    FindStored(t[i], j);
  }

  /**
   * When every pair sits in its key's slot, `get` finds a value exactly when
   * the key is stored, and then the stored value: the table is a faithful map.
   */
  lemma LookupStored<K, V>(t: Table<K, V>, digest: Digest<K>, key: K)
    requires |t| > 0 && Placed(t, digest) && (forall i :: 0 <= i < |t| ==> DistinctKeys(t[i]))
    ensures Lookup(t, digest, key).None? <==> key !in KeySet(Flatten(t))
  {
    var f := Flatten(t);
    if key in KeySet(f) {
      var j :| 0 <= j < |f| && f[j].0 == key;
      PlacedLookup(t, digest, f[j]);
    } else if Lookup(t, digest, key).Some? {
      StoredKey(f, (key, Lookup(t, digest, key).value));
    }
  }

  // ---------- resize (lib.rs:125-139) ----------

  /** The keys of `pairs`, in order: what the shared hasher has been fed. */
  function KeysOf<K, V>(pairs: seq<(K, V)>): (ks: seq<K>)
    ensures |ks| == |pairs| && forall i :: 0 <= i < |pairs| ==> ks[i] == pairs[i].0
  {
    seq(|pairs|, i requires 0 <= i < |pairs| => pairs[i].0)
  }

  /**
   * How `resize` hashes a drained key: `Shared`, by the one hasher created
   * before the loop and fed every key drained so far (as written), or
   * `PerKey`, by a new hasher fed that key alone (as evidently intended).
   */
  datatype Hashing = Shared | PerKey

  /** The bucket the last of `pairs` is drained into. */
  function DrainSlot<K, V>(pairs: seq<(K, V)>, n: nat, digest: Digest<K>, how: Hashing): (i: nat)
    requires n > 0 && pairs != []
    ensures i < n
    ensures how == PerKey ==> i == Slot(digest, pairs[|pairs| - 1].0, n)
  {
    match how
    case Shared => digest(KeysOf(pairs)) % n
    case PerKey => Slot(digest, pairs[|pairs| - 1].0, n)
  }

  /**
   * The new bucket array after `resize` has drained `pairs` into `n` empty
   * buckets: each pair goes, by the bucket `insert`, to the bucket `how`
   * picks for it.
   */
  function Drain<K(==), V>(pairs: seq<(K, V)>, n: nat, digest: Digest<K>, how: Hashing): (t: Table<K, V>)
    requires n > 0
    ensures |t| == n
    decreases |pairs|
  {
    if pairs == [] then Empties(n)
    else
      var prev := Drain(pairs[..|pairs| - 1], n, digest, how);
      var (key, value) := pairs[|pairs| - 1];
      var i := DrainSlot(pairs, n, digest, how);
      prev[i := Upsert(prev[i], key, value)]
  }

  /** Feeding the hasher one more pair's key. */
  lemma KeysOfSnoc<K, V>(pairs: seq<(K, V)>, p: (K, V))
    ensures KeysOf(pairs + [p]) == KeysOf(pairs) + [p.0]
  {
    assert forall i :: 0 <= i < |pairs| ==> (pairs + [p])[i] == pairs[i];
  }

  /**
   * `resize`'s new array (lib.rs:130-137): every old pair, bucket by bucket,
   * each bucket front to back, drained into `n` empty buckets. With `Shared`
   * this is the source as written; with `PerKey`, each pair goes to the slot
   * its key alone hashes to, as in `get` (lib.rs:42-44).
   */
  function Rehash<K(==), V>(t: Table<K, V>, n: nat, digest: Digest<K>, how: Hashing): (r: Table<K, V>)
    requires n > 0
    ensures |r| == n
    ensures KeySet(Flatten(r)) == KeySet(Flatten(t))
    ensures multiset(Flatten(r)) <= multiset(Flatten(t))
  {
    DrainKeys(Flatten(t), n, digest, how);
    DrainBounded(Flatten(t), n, digest, how);
    Drain(Flatten(t), n, digest, how)
  }

  /** The bucket count `resize` allocates: 1024 from empty, else double. */
  function Grow(n: nat): (m: nat)
    ensures m > n
    ensures (n == 0 || n >= INITIAL_CAPACITY) ==> m >= INITIAL_CAPACITY
  {
    if n == 0 then INITIAL_CAPACITY else 2 * n
  }

  /** The test at the top of `insert` and `insert_mut` (lib.rs:84-85, 93-94). */
  predicate NeedsResize(n: nat, count: nat) {
    n == 0 || count > LOAD_FACTOR * n
  }

  /** Draining keeps each new bucket's keys distinct. */
  lemma {:induction false} DrainDistinctBuckets<K, V>(pairs: seq<(K, V)>, n: nat, digest: Digest<K>, how: Hashing)
    requires n > 0
    ensures forall i :: 0 <= i < n ==> DistinctKeys(Drain(pairs, n, digest, how)[i])
    decreases |pairs|
  {
    if pairs != [] {
      DrainDistinctBuckets(pairs[..|pairs| - 1], n, digest, how);
    }
  }

  /** Draining stores only old pairs, never more of one than there were. */
  lemma {:induction false} DrainBounded<K, V>(pairs: seq<(K, V)>, n: nat, digest: Digest<K>, how: Hashing)
    requires n > 0
    ensures multiset(Flatten(Drain(pairs, n, digest, how))) <= multiset(pairs)
    decreases |pairs|
  {
    if pairs == [] {
      FlattenAllEmpty(Drain(pairs, n, digest, how));
    } else {
      var m := |pairs| - 1;
      DrainBounded(pairs[..m], n, digest, how);
      var p := pairs[m];
      var prev := Drain(pairs[..m], n, digest, how);
      var i := DrainSlot(pairs, n, digest, how);
      DrainUnfold(pairs, n, digest, how);
      DrainStep(prev, i, p.0, p.1);
      LastSplit(pairs);
    }
  }

  /** The last pair drained goes to the bucket `how` picks for it. */
  lemma DrainUnfold<K, V>(pairs: seq<(K, V)>, n: nat, digest: Digest<K>, how: Hashing)
    requires n > 0 && pairs != []
    ensures var m := |pairs| - 1;
      Drain(pairs, n, digest, how) == Drain(pairs[..m], n, digest, how)[DrainSlot(pairs, n, digest, how) :=
        Upsert(Drain(pairs[..m], n, digest, how)[DrainSlot(pairs, n, digest, how)], pairs[m].0, pairs[m].1)]
  {
  }

  /**
   * Draining one more pair inserts it into the bucket the hasher picks: the
   * shared hasher after it has been fed that key too, or a new hasher fed
   * that key alone.
   */
  lemma DrainSnoc<K, V>(before: seq<(K, V)>, p: (K, V), n: nat, digest: Digest<K>, how: Hashing)
    requires n > 0
    ensures var i := match how
                     case Shared => digest(KeysOf(before) + [p.0]) % n
                     case PerKey => Slot(digest, p.0, n);
            Drain(before + [p], n, digest, how)
            == Drain(before, n, digest, how)[i := Upsert(Drain(before, n, digest, how)[i], p.0, p.1)]
  {
    var after := before + [p];
    DrainUnfold(after, n, digest, how);
    assert after[..|after| - 1] == before;
    KeysOfSnoc(before, p);
  }

  /** Draining loses no key. */
  lemma {:induction false} DrainKeys<K, V>(pairs: seq<(K, V)>, n: nat, digest: Digest<K>, how: Hashing)
    requires n > 0
    ensures KeySet(Flatten(Drain(pairs, n, digest, how))) == KeySet(pairs)
    decreases |pairs|
  {
    if pairs == [] {
      FlattenAllEmpty(Drain(pairs, n, digest, how));
    } else {
      var m := |pairs| - 1;
      var p := pairs[m];
      var prev := Drain(pairs[..m], n, digest, how);
      var i := DrainSlot(pairs, n, digest, how);
      DrainKeys(pairs[..m], n, digest, how);
      DrainUnfold(pairs, n, digest, how);
      DrainStep(prev, i, p.0, p.1);
      LastSplit(pairs);
    }
  }

  /** The pairs of a non-empty sequence: those before the last one, and the last one. */
  lemma LastSplit<K, V>(pairs: seq<(K, V)>)
    requires pairs != []
    ensures multiset(pairs) == multiset(pairs[..|pairs| - 1]) + multiset{pairs[|pairs| - 1]}
    ensures KeySet(pairs) == KeySet(pairs[..|pairs| - 1]) + {pairs[|pairs| - 1].0}
  {
    var m := |pairs| - 1;
    var p := pairs[m];
    assert pairs == pairs[..m] + [p];
    KeySetAppend(pairs[..m], [p]);
    assert KeySet([p]) == {p.0} by { assert [p][0].0 == p.0; }
  }

  /** One step of the drain adds at most the drained pair, and adds its key. */
  lemma DrainStep<K, V>(prev: Table<K, V>, i: nat, key: K, value: V)
    requires i < |prev|
    ensures multiset(Flatten(prev[i := Upsert(prev[i], key, value)]))
            <= multiset(Flatten(prev)) + multiset{(key, value)}
    ensures KeySet(Flatten(prev[i := Upsert(prev[i], key, value)])) == KeySet(Flatten(prev)) + {key}
  {
    var b := Upsert(prev[i], key, value);
    UpsertContents(prev[i], key, value);
    FlattenUpdate(prev, i, b);
    var x := Flatten(prev[..i]);
    var y := Flatten(prev[i + 1..]);
    assert multiset(x + b + y) == multiset(x) + multiset(b) + multiset(y);
    assert multiset(x + prev[i] + y) == multiset(x) + multiset(prev[i]) + multiset(y);
    KeySetAppend(x + b, y);
    KeySetAppend(x, b);
    KeySetAppend(x + prev[i], y);
    KeySetAppend(x, prev[i]);
  }

  /**
   * When the drained pairs have distinct keys, every one of them is placed,
   * exactly once: the new array holds precisely the old pairs.
   */
  lemma {:induction false} DrainExact<K, V>(pairs: seq<(K, V)>, n: nat, digest: Digest<K>, how: Hashing)
    requires n > 0 && DistinctKeys(pairs)
    ensures multiset(Flatten(Drain(pairs, n, digest, how))) == multiset(pairs)
    ensures DistinctKeys(Flatten(Drain(pairs, n, digest, how)))
    decreases |pairs|
  {
    if pairs == [] {
      FlattenAllEmpty(Drain(pairs, n, digest, how));
    } else {
      var m := |pairs| - 1;
      var p := pairs[m];
      var prev := Drain(pairs[..m], n, digest, how);
      var i := DrainSlot(pairs, n, digest, how);
      DistinctPrefix(pairs, m);
      DrainExact(pairs[..m], n, digest, how);
      DrainKeys(pairs[..m], n, digest, how);
      BucketKeys(prev, i);
      DrainUnfold(pairs, n, digest, how);
      assert Drain(pairs, n, digest, how) == prev[i := prev[i] + [p]];
      AppendFresh(prev, i, p);
      LastSplit(pairs);
    }
  }

  /** A prefix of pairs with distinct keys has distinct keys, none of them the next key. */
  lemma DistinctPrefix<K, V>(pairs: seq<(K, V)>, m: nat)
    requires m < |pairs| && DistinctKeys(pairs)
    ensures DistinctKeys(pairs[..m]) && pairs[m].0 !in KeySet(pairs[..m])
  {
    forall a, b | 0 <= a < b < m ensures pairs[..m][a].0 != pairs[..m][b].0 {
      assert pairs[..m][a] == pairs[a] && pairs[..m][b] == pairs[b];
    }
    forall j | 0 <= j < m ensures pairs[..m][j].0 != pairs[m].0 {
      assert pairs[..m][j] == pairs[j];
    }
  }

  /** A table whose buckets are all empty is rehashed into empty buckets. */
  lemma RehashEmpty<K, V>(t: Table<K, V>, n: nat, digest: Digest<K>, how: Hashing)
    requires n > 0 && Flatten(t) == []
    ensures Rehash(t, n, digest, how) == Empties(n)
    ensures Flatten(Rehash(t, n, digest, how)) == [] && Placed(Rehash(t, n, digest, how), digest)
  {
    FlattenAllEmpty(Empties<(K, V)>(n));
  }

  /** Upserting a pair into its key's slot keeps every pair in its key's slot. */
  lemma UpsertPlaced<K, V>(t: Table<K, V>, digest: Digest<K>, key: K, value: V)
    requires |t| > 0 && Placed(t, digest)
    ensures var i := Slot(digest, key, |t|);
            Placed(t[i := Upsert(t[i], key, value)], digest)
  {
    var i := Slot(digest, key, |t|);
    var b: seq<(K, V)> := Upsert(t[i], key, value);
    var u: Table<K, V> := t[i := b];
    UpsertContents(t[i], key, value);
    forall a: int, j: int | 0 <= a < |u| && 0 <= j < |u[a]| ensures Slot(digest, u[a][j].0, |u|) == a {
      if a == i {
        assert u[a][j].0 in KeySet(b);
        if u[a][j].0 != key {
          var j' :| 0 <= j' < |t[i]| && t[i][j'].0 == u[a][j].0;
        }
      }
    }
  }

  /** With a new hasher per key, every drained pair lands in the slot a lookup of its key visits. */
  lemma {:induction false} DrainPlaced<K, V>(pairs: seq<(K, V)>, n: nat, digest: Digest<K>)
    requires n > 0
    ensures Placed(Drain(pairs, n, digest, PerKey), digest)
    decreases |pairs|
  {
    if pairs != [] {
      var m := |pairs| - 1;
      var p := pairs[m];
      var prev := Drain(pairs[..m], n, digest, PerKey);
      DrainPlaced(pairs[..m], n, digest);
      DrainUnfold(pairs, n, digest, PerKey);
      UpsertPlaced(prev, digest, p.0, p.1);
    }
  }

  /** After the corrected `resize`, every pair sits in the slot a lookup of its key visits. */
  lemma RehashPlaced<K, V>(t: Table<K, V>, n: nat, digest: Digest<K>)
    requires n > 0
    ensures Placed(Rehash(t, n, digest, PerKey), digest)
  {
    DrainPlaced(Flatten(t), n, digest);
  }

  /**
   * The corrected `resize` keeps every lookup: in a map whose pairs sit in
   * their keys' slots, `get(key)` finds after the resize what it found before.
   */
  lemma RehashLookup<K, V>(t: Table<K, V>, n: nat, digest: Digest<K>, key: K)
    requires n > 0 && |t| > 0 && Placed(t, digest) && (forall i :: 0 <= i < |t| ==> DistinctKeys(t[i]))
    ensures Lookup(Rehash(t, n, digest, PerKey), digest, key) == Lookup(t, digest, key)
  {
    var pairs := Flatten(t);
    var r := Rehash(t, n, digest, PerKey);
    DrainPlaced(pairs, n, digest);
    DrainDistinctBuckets(pairs, n, digest, PerKey);
    DrainKeys(pairs, n, digest, PerKey);
    DrainBounded(pairs, n, digest, PerKey);
    if key in KeySet(pairs) {
      var fr := Flatten(r);
      assert key in KeySet(fr);
      var j :| 0 <= j < |fr| && fr[j].0 == key;
      var w := fr[j].1;
      assert (key, w) in multiset(pairs);
      PlacedLookup(t, digest, (key, w));
      PlacedLookup(r, digest, (key, w));
    } else {
      if Lookup(t, digest, key).Some? {
        StoredKey(pairs, (key, Lookup(t, digest, key).value));
      }
      if Lookup(r, digest, key).Some? {
        StoredKey(Flatten(r), (key, Lookup(r, digest, key).value));
      }
    }
  }

  /** The key of a stored pair is a stored key. */
  lemma StoredKey<K, V>(s: seq<(K, V)>, p: (K, V))
    requires p in s
    ensures p.0 in KeySet(s)
  {
    var j :| 0 <= j < |s| && s[j] == p;
  }

  // ---------- The whole map: insert, insert_mut, remove ----------

  /**
   * What every reachable map satisfies: buckets have distinct keys,
   * `num_items` bounds the number of stored pairs from above (it counts
   * replacing inserts too), an unallocated map is empty, and an allocated one
   * has at least 1024 buckets.
   */
  ghost predicate Inv<K, V>(s: Store<K, V>) {
    && (forall i :: 0 <= i < |s.table| ==> DistinctKeys(s.table[i]))
    && |Flatten(s.table)| <= s.count
    && (|s.table| == 0 ==> s.count == 0)
    && (|s.table| == 0 || |s.table| >= INITIAL_CAPACITY)
  }

  /**
   * The map after the resize check at the top of `insert` (lib.rs:84-87):
   * resized exactly when the array is empty or `num_items > 3 * len`, to 1024
   * buckets from empty and to twice as many otherwise; never smaller.
   */
  function Reserve<K(==), V>(s: Store<K, V>, digest: Digest<K>, how: Hashing): (r: Store<K, V>)
    ensures r.count == s.count && |r.table| > 0
    ensures NeedsResize(|s.table|, s.count) ==> |r.table| == Grow(|s.table|) > |s.table|
    ensures !NeedsResize(|s.table|, s.count) ==> r == s
  {
    if NeedsResize(|s.table|, s.count) then Store(Rehash(s.table, Grow(|s.table|), digest, how), s.count)
    else s
  }

  /**
   * `insert(key, value)` (lib.rs:83-90): the new map and the value returned.
   * The counter goes up by one on every call; afterwards `get(key)` finds
   * `value`, whatever was stored before.
   */
  function Put<K(==), V>(s: Store<K, V>, digest: Digest<K>, how: Hashing, key: K, value: V): (r: (Store<K, V>, Option<V>))
    ensures r.0.count == s.count + 1
    ensures |r.0.table| > 0 && Lookup(r.0.table, digest, key) == Some(value)
    ensures r.1 == Lookup(Reserve(s, digest, how).table, digest, key)
    ensures |r.0.table| == |Reserve(s, digest, how).table|
  {
    var t := Reserve(s, digest, how).table;
    var i := Slot(digest, key, |t|);
    UpsertFind(t[i], key, value);
    (Store(t[i := Upsert(t[i], key, value)], s.count + 1), Find(t[i], key))
  }

  /**
   * The handle `insert_mut` (lib.rs:92-99) returns: it points at the stored
   * pair, and it is the handle `get_mut` would find.
   */
  function PutHandle<K(==), V>(s: Store<K, V>, digest: Digest<K>, how: Hashing, key: K, value: V): (h: Handle)
    ensures var t := Put(s, digest, how, key, value).0.table;
            h.bucket < |t| && h.pos < |t[h.bucket]| && t[h.bucket][h.pos] == (key, value)
            && Locate(t, digest, key) == Some(h)
  {
    var t := Put(s, digest, how, key, value).0.table;
    var i := Slot(digest, key, |t|);
    Handle(i, IndexOf(t[i], key).value)
  }

  /**
   * `remove(key)` (lib.rs:101-115): the key's slot loses its pair by
   * swap-remove, and the counter drops by one exactly when a pair was
   * removed. Since the counter bounds the stored pairs, it never underflows.
   */
  function Take<K(==), V>(s: Store<K, V>, digest: Digest<K>, key: K): (r: (Store<K, V>, Option<V>))
    requires |s.table| > 0 && |Flatten(s.table)| <= s.count
    ensures r.1 == Lookup(s.table, digest, key)
    ensures r.1.None? ==> r.0 == s
    ensures r.1.Some? ==> r.0.count == s.count - 1 && |r.0.table| == |s.table|
  {
    var i := Slot(digest, key, |s.table|);
    var res := Find(s.table[i], key);
    var table := s.table[i := Delete(s.table[i], key)];
    DeleteProperties(s.table[i], key);
    if res.Some? then
      FlattenAt(s.table, i);
      (Store(table, s.count - 1), res)
    else
      assert table == s.table;
      (Store(table, s.count), res)
  }

  // ---------- Properties of the map operations ----------

  /** `resize` keeps the invariant, stores no new pair and loses no key. */
  lemma ReserveInv<K, V>(s: Store<K, V>, digest: Digest<K>, how: Hashing)
    requires Inv(s)
    ensures Inv(Reserve(s, digest, how))
    ensures multiset(Flatten(Reserve(s, digest, how).table)) <= multiset(Flatten(s.table))
    ensures KeySet(Flatten(Reserve(s, digest, how).table)) == KeySet(Flatten(s.table))
  {
    if NeedsResize(|s.table|, s.count) {
      RehashInv(s, digest, how);
      DrainBounded(Flatten(s.table), Grow(|s.table|), digest, how);
      DrainKeys(Flatten(s.table), Grow(|s.table|), digest, how);
    }
  }

  /** The resize check, then the counter's increment, keep the invariant. */
  lemma ReserveCounted<K, V>(s: Store<K, V>, digest: Digest<K>, how: Hashing)
    requires Inv(s)
    ensures Inv(Store(Reserve(s, digest, how).table, s.count + 1))
  {
    ReserveInv(s, digest, how);
  }

  /** `resize` keeps the invariant, whatever map it starts from. */
  lemma RehashInv<K, V>(s: Store<K, V>, digest: Digest<K>, how: Hashing)
    requires Inv(s)
    ensures Inv(Store(Rehash(s.table, Grow(|s.table|), digest, how), s.count))
  {
    var pairs := Flatten(s.table);
    var n := Grow(|s.table|);
    DrainBounded(pairs, n, digest, how);
    DrainDistinctBuckets(pairs, n, digest, how);
    MultisetSize(Flatten(Drain(pairs, n, digest, how)), pairs);
  }

  /** A sub-multiset is no longer. */
  lemma MultisetSize<T>(a: seq<T>, b: seq<T>)
    requires multiset(a) <= multiset(b)
    ensures |a| <= |b|
  {
    var d := multiset(b) - multiset(a);
    assert multiset(b) == multiset(a) + d;
    assert |multiset(b)| == |multiset(a)| + |d|;
  }

  /** With keys distinct across buckets, `resize` keeps every pair. */
  lemma ReserveExact<K, V>(s: Store<K, V>, digest: Digest<K>, how: Hashing)
    requires Inv(s) && DistinctKeys(Flatten(s.table))
    ensures multiset(Flatten(Reserve(s, digest, how).table)) == multiset(Flatten(s.table))
    ensures DistinctKeys(Flatten(Reserve(s, digest, how).table))
  {
    if NeedsResize(|s.table|, s.count) {
      DrainExact(Flatten(s.table), Grow(|s.table|), digest, how);
    }
  }

  /** `insert` upserts into the key's slot of the reserved table and returns that bucket's old value. */
  lemma PutAt<K, V>(s: Store<K, V>, digest: Digest<K>, how: Hashing, key: K, value: V)
    ensures var t := Reserve(s, digest, how).table;
            var i := Slot(digest, key, |t|);
            && Put(s, digest, how, key, value).0 == Store(t[i := Upsert(t[i], key, value)], s.count + 1)
            && Put(s, digest, how, key, value).1 == Find(t[i], key)
  {
  }

  /**
   * `remove` deletes from the key's slot and returns that bucket's old
   * value; a value found means the counter is positive.
   */
  lemma TakeAt<K, V>(s: Store<K, V>, digest: Digest<K>, key: K)
    requires |s.table| > 0 && |Flatten(s.table)| <= s.count
    ensures var i := Slot(digest, key, |s.table|);
            var found := Find(s.table[i], key);
            && Take(s, digest, key).1 == found
            && (found.Some? ==> s.count > 0)
            && Take(s, digest, key).0
               == Store(s.table[i := Delete(s.table[i], key)], if found.Some? then s.count - 1 else s.count)
  {
    var i := Slot(digest, key, |s.table|);
    DeleteProperties(s.table[i], key);
    if Find(s.table[i], key).Some? {
      FlattenAt(s.table, i);
    }
  }

  /** `insert` keeps the invariant. */
  lemma PutInv<K, V>(s: Store<K, V>, digest: Digest<K>, how: Hashing, key: K, value: V)
    requires Inv(s)
    ensures Inv(Put(s, digest, how, key, value).0)
  {
    ReserveInv(s, digest, how);
    var r := Reserve(s, digest, how);
    UpsertInv(r, Slot(digest, key, |r.table|), key, value);
  }

  /**
   * `insert` keeps the invariant; with a new hasher per drained key it also
   * keeps every pair in its key's slot.
   */
  lemma PutValid<K, V>(s: Store<K, V>, digest: Digest<K>, how: Hashing, key: K, value: V)
    requires Inv(s) && (how == PerKey ==> Placed(s.table, digest))
    ensures Inv(Put(s, digest, how, key, value).0)
    ensures how == PerKey ==> Placed(Put(s, digest, how, key, value).0.table, digest)
  {
    PutInv(s, digest, how, key, value);
    if how == PerKey {
      PutPlaced(s, digest, how, key, value);
    }
  }

  /** `insert` into bucket `i` of a consistent map, counting one more item, keeps it consistent. */
  lemma UpsertInv<K, V>(s: Store<K, V>, i: nat, key: K, value: V)
    requires Inv(s) && i < |s.table|
    ensures Inv(Store(s.table[i := Upsert(s.table[i], key, value)], s.count + 1))
  {
    var t := s.table;
    var b := Upsert(t[i], key, value);
    UpsertContents(t[i], key, value);
    UpsertFind(t[i], key, value);
    FlattenUpdate(t, i, b);
  }

  /**
   * Inserting a key stored nowhere in a map whose keys are distinct across
   * buckets adds exactly that pair, whether or not the insert resizes.
   */
  lemma PutFresh<K, V>(s: Store<K, V>, digest: Digest<K>, how: Hashing, key: K, value: V)
    requires Inv(s) && DistinctKeys(Flatten(s.table)) && key !in KeySet(Flatten(s.table))
    ensures multiset(Flatten(Put(s, digest, how, key, value).0.table))
            == multiset(Flatten(s.table)) + multiset{(key, value)}
    ensures DistinctKeys(Flatten(Put(s, digest, how, key, value).0.table))
    ensures KeySet(Flatten(Put(s, digest, how, key, value).0.table)) == KeySet(Flatten(s.table)) + {key}
    ensures Put(s, digest, how, key, value).1 == None
  {
    ReserveInv(s, digest, how);
    ReserveExact(s, digest, how);
    var t := Reserve(s, digest, how).table;
    var i := Slot(digest, key, |t|);
    BucketKeys(t, i);
    assert Put(s, digest, how, key, value).0.table == t[i := t[i] + [(key, value)]];
    AppendFresh(t, i, (key, value));
  }

  /**
   * The resize check of the next `insert` keeps every pair in its key's
   * slot: it does not resize, or there is nothing to drain, or each drained
   * key gets a new hasher. `ResizeLosesLookup` shows that the shared hasher
   * otherwise can move a pair out of its slot.
   */
  predicate ResizePlaces<K, V>(s: Store<K, V>, how: Hashing)
  {
    how == PerKey || !NeedsResize(|s.table|, s.count) || Flatten(s.table) == []
  }

  /** The resize check keeps placement whenever `ResizePlaces` holds. */
  lemma ReservePlaced<K, V>(s: Store<K, V>, digest: Digest<K>, how: Hashing)
    requires Placed(s.table, digest) && ResizePlaces(s, how)
    ensures Placed(Reserve(s, digest, how).table, digest)
  {
    if NeedsResize(|s.table|, s.count) {
      if how == PerKey {
        RehashPlaced(s.table, Grow(|s.table|), digest);
      } else {
        RehashEmpty(s.table, Grow(|s.table|), digest, how);
      }
    }
  }

  /**
   * Placement survives an insert whose resize check keeps it: the new pair
   * goes to its key's slot.
   */
  lemma PutPlaced<K, V>(s: Store<K, V>, digest: Digest<K>, how: Hashing, key: K, value: V)
    requires Placed(s.table, digest) && ResizePlaces(s, how)
    ensures Placed(Put(s, digest, how, key, value).0.table, digest)
  {
    ReservePlaced(s, digest, how);
    UpsertPlaced(Reserve(s, digest, how).table, digest, key, value);
  }

  /**
   * `insert(key, value)` leaves what `get` finds for every other key
   * unchanged, whenever its resize check keeps placement.
   */
  lemma PutOther<K, V>(s: Store<K, V>, digest: Digest<K>, how: Hashing, key: K, value: V, other: K)
    requires Inv(s) && |s.table| > 0 && Placed(s.table, digest) && ResizePlaces(s, how) && other != key
    ensures Lookup(Put(s, digest, how, key, value).0.table, digest, other) == Lookup(s.table, digest, other)
  {
    var t := Reserve(s, digest, how).table;
    ReserveLookup(s, digest, how, other);
    UpsertOther(t[Slot(digest, key, |t|)], key, value, other);
  }

  /** The resize check leaves what `get` finds unchanged whenever it keeps placement. */
  lemma ReserveLookup<K, V>(s: Store<K, V>, digest: Digest<K>, how: Hashing, key: K)
    requires |s.table| > 0 && Placed(s.table, digest) && ResizePlaces(s, how)
    requires forall i :: 0 <= i < |s.table| ==> DistinctKeys(s.table[i])
    ensures Lookup(Reserve(s, digest, how).table, digest, key) == Lookup(s.table, digest, key)
  {
    if NeedsResize(|s.table|, s.count) {
      if how == PerKey {
        RehashLookup(s.table, Grow(|s.table|), digest, key);
      } else {
        RehashEmpty(s.table, Grow(|s.table|), digest, how);
      }
    }
  }

  /**
   * The load the resize check keeps: at most three items per bucket, plus
   * the one counted by the insert that found the map exactly full.
   */
  predicate LoadBounded<K, V>(s: Store<K, V>) {
    s.count <= LOAD_FACTOR * |s.table| + 1
  }

  /**
   * The resize check (lib.rs:84-85) of a map with bounded load leaves at
   * most three items per bucket: it resizes whenever the vector is empty or
   * counts more than three items per bucket.
   */
  lemma ReserveLoad<K, V>(s: Store<K, V>, digest: Digest<K>, how: Hashing)
    requires LoadBounded(s)
    ensures Reserve(s, digest, how).count <= LOAD_FACTOR * |Reserve(s, digest, how).table|
  {
  }

  /** `insert` keeps the load bounded. */
  lemma PutLoad<K, V>(s: Store<K, V>, digest: Digest<K>, how: Hashing, key: K, value: V)
    requires LoadBounded(s)
    ensures LoadBounded(Put(s, digest, how, key, value).0)
  {
    ReserveLoad(s, digest, how);
  }

  /** `remove` keeps the load bounded. */
  lemma TakeLoad<K, V>(s: Store<K, V>, digest: Digest<K>, key: K)
    requires |s.table| > 0 && |Flatten(s.table)| <= s.count && LoadBounded(s)
    ensures LoadBounded(Take(s, digest, key).0)
  {
  }

  /** `remove` keeps every pair in its key's slot. */
  lemma TakePlaced<K, V>(s: Store<K, V>, digest: Digest<K>, key: K)
    requires |s.table| > 0 && |Flatten(s.table)| <= s.count && Placed(s.table, digest)
    ensures Placed(Take(s, digest, key).0.table, digest)
  {
    var i := Slot(digest, key, |s.table|);
    var b: seq<(K, V)> := Delete(s.table[i], key);
    var u: Table<K, V> := s.table[i := b];
    DeleteProperties(s.table[i], key);
    forall a: int, j: int | 0 <= a < |u| && 0 <= j < |u[a]| ensures Slot(digest, u[a][j].0, |u|) == a {
      if a == i {
        assert u[a][j] in multiset(s.table[i]);
        var j' :| 0 <= j' < |s.table[i]| && s.table[i][j'] == u[a][j];
      }
    }
  }

  /** `remove` keeps the invariant; afterwards `get(key)` finds nothing. */
  lemma TakeInv<K, V>(s: Store<K, V>, digest: Digest<K>, key: K)
    requires Inv(s) && |s.table| > 0
    ensures Inv(Take(s, digest, key).0)
    ensures Lookup(Take(s, digest, key).0.table, digest, key).None?
  {
    var i := Slot(digest, key, |s.table|);
    DeleteProperties(s.table[i], key);
    FlattenUpdate(s.table, i, Delete(s.table[i], key));
  }

  /** `remove` keeps the invariant and every pair in its key's slot. */
  lemma TakeValid<K, V>(s: Store<K, V>, digest: Digest<K>, key: K)
    requires Inv(s) && |s.table| > 0 && Placed(s.table, digest)
    ensures Inv(Take(s, digest, key).0) && Placed(Take(s, digest, key).0.table, digest)
  {
    TakeInv(s, digest, key);
    TakePlaced(s, digest, key);
  }

  /** `remove` leaves what `get` finds for every other key unchanged. */
  lemma TakeOther<K, V>(s: Store<K, V>, digest: Digest<K>, key: K, other: K)
    requires Inv(s) && |s.table| > 0 && other != key
    ensures Lookup(Take(s, digest, key).0.table, digest, other) == Lookup(s.table, digest, other)
  {
    var i := Slot(digest, key, |s.table|);
    if Slot(digest, other, |s.table|) == i {
      DeleteOther(s.table[i], key, other);
    }
  }

  /**
   * Round trip: right after `insert(key, value)`, `remove(key)` returns
   * `value`, lowers the counter by one and leaves `key` absent.
   */
  lemma PutTake<K, V>(s: Store<K, V>, digest: Digest<K>, how: Hashing, key: K, value: V)
    requires Inv(s)
    ensures var s1 := Put(s, digest, how, key, value).0;
            Inv(s1) && Take(s1, digest, key).1 == Some(value)
            && Take(s1, digest, key).0.count == s.count
            && Lookup(Take(s1, digest, key).0.table, digest, key).None?
  {
    PutInv(s, digest, how, key, value);
    TakeInv(Put(s, digest, how, key, value).0, digest, key);
  }

  // ---------- Writes through a handle ----------

  /** The table after `*v = value` through a handle to a stored pair: only that pair's value changes. */
  function Overwrite<K, V>(t: Table<K, V>, h: Handle, value: V): (r: Table<K, V>)
    requires h.bucket < |t| && h.pos < |t[h.bucket]|
    ensures |r| == |t| && forall i :: 0 <= i < |t| ==> |r[i]| == |t[i]|
    ensures forall i, j :: 0 <= i < |t| && 0 <= j < |t[i]| ==> r[i][j].0 == t[i][j].0
    ensures r[h.bucket][h.pos].1 == value
  {
    t[h.bucket := t[h.bucket][h.pos := (t[h.bucket][h.pos].0, value)]]
  }

  /**
   * Writing through the handle `get_mut` finds for `key` acts like an insert
   * that leaves the counter alone: `get(key)` then finds `value`, every other
   * key what it found before, and the invariant and placement are kept.
   */
  lemma OverwriteLocated<K, V>(s: Store<K, V>, digest: Digest<K>, key: K, value: V)
    requires Inv(s) && |s.table| > 0 && Locate(s.table, digest, key).Some?
    ensures var u := Overwrite(s.table, Locate(s.table, digest, key).value, value);
            && u == s.table[Slot(digest, key, |s.table|) := Upsert(s.table[Slot(digest, key, |s.table|)], key, value)]
            && Inv(Store(u, s.count))
            && Lookup(u, digest, key) == Some(value)
            && (forall other :: other != key ==> Lookup(u, digest, other) == Lookup(s.table, digest, other))
  {
    var i := Slot(digest, key, |s.table|);
    var b := Upsert(s.table[i], key, value);
    var u := s.table[i := b];
    assert Overwrite(s.table, Locate(s.table, digest, key).value, value) == u;
    FlattenUpdate(s.table, i, b);
    forall other | other != key ensures Lookup(u, digest, other) == Lookup(s.table, digest, other) {
      UpsertOther(s.table[i], key, value, other);
    }
  }

  /** A write through a handle moves no key, so every pair stays in its key's slot. */
  lemma OverwritePlaced<K, V>(t: Table<K, V>, digest: Digest<K>, h: Handle, value: V)
    requires h.bucket < |t| && h.pos < |t[h.bucket]| && Placed(t, digest)
    ensures Placed(Overwrite(t, h, value), digest)
  {
    var u: Table<K, V> := Overwrite(t, h, value);
    forall a: int, j: int | 0 <= a < |u| && 0 <= j < |u[a]| ensures Slot(digest, u[a][j].0, |u|) == a {
      assert u[a][j].0 == t[a][j].0;
    }
  }

  /** A write through any handle to a stored pair keeps the invariant: it changes no key. */
  lemma OverwriteInv<K, V>(s: Store<K, V>, h: Handle, value: V)
    requires Inv(s) && h.bucket < |s.table| && h.pos < |s.table[h.bucket]|
    ensures Inv(Store(Overwrite(s.table, h, value), s.count))
  {
    var u := Overwrite(s.table, h, value);
    FlattenUpdate(s.table, h.bucket, u[h.bucket]);
    assert u == s.table[h.bucket := u[h.bucket]];
    forall i | 0 <= i < |u| ensures DistinctKeys(u[i]) {
      assert forall a :: 0 <= a < |u[i]| ==> u[i][a].0 == s.table[i][a].0;
    }
  }

  /** A write through a handle leaves every key where `get_mut` finds it. */
  lemma OverwriteLocate<K, V>(t: Table<K, V>, digest: Digest<K>, h: Handle, value: V, key: K)
    requires |t| > 0 && h.bucket < |t| && h.pos < |t[h.bucket]|
    ensures Locate(Overwrite(t, h, value), digest, key) == Locate(t, digest, key)
  {
    var i := Slot(digest, key, |t|);
    var u := Overwrite(t, h, value);
    IndexOfSameKeys(u[i], t[i], key);
  }

  // ---------- The iterator's cursor (lib.rs:158-200) ----------

  /**
   * The pairs a `HashMapIterator` at (`bucket_idx`, `bucket_at`) has still
   * to yield: the rest of its current bucket, then every later bucket in full.
   */
  function Remaining<T>(t: seq<seq<T>>, bi: nat, ba: nat): seq<T>
  {
    if bi < |t| then Tail(t[bi], ba) + Flatten(t[bi + 1..]) else []
  }

  /** The pairs of a bucket from position `ba` on (none past its end). */
  function Tail<T>(b: seq<T>, ba: nat): seq<T>
  {
    if ba < |b| then b[ba..] else []
  }

  /**
   * What the loop of `next` (lib.rs:180-199) does to a cursor over buckets
   * `t`: it skips exhausted buckets and yields the pair under the cursor,
   * moving one on; past the last bucket it yields nothing. The result is the
   * pair yielded and the new (`bucket_idx`, `bucket_at`).
   */
  function Seek<T>(t: seq<seq<T>>, bi: nat, ba: nat): (r: (Option<T>, nat, nat))
    ensures r.0.None? ==> r.1 >= |t|
    ensures r.0.Some? ==> bi <= r.1 < |t| && 0 < r.2 <= |t[r.1]| && r.0.value == t[r.1][r.2 - 1]
    decreases |t| - bi
  {
    if bi >= |t| then (None, bi, ba)
    else if ba < |t[bi]| then (Some(t[bi][ba]), bi, ba + 1)
    else Seek(t, bi + 1, 0)
  }

  /**
   * `next` (lib.rs:176-199) as a whole: nothing, cursor unmoved, when the map
   * counts no item; else `Seek`. A pair yielded is the one just before the
   * new cursor, in a bucket at or after the old one.
   */
  function NextCursor<T>(t: seq<seq<T>>, count: nat, bi: nat, ba: nat): (r: (Option<T>, nat, nat))
    ensures r.0.None? ==> count == 0 || r.1 >= |t|
    ensures r.0.Some? ==> count > 0 && bi <= r.1 < |t| && 0 < r.2 <= |t[r.1]| && r.0.value == t[r.1][r.2 - 1]
  {
    if count == 0 then (None, bi, ba) else Seek(t, bi, ba)
  }

  /**
   * One round of a `for` loop over the map: with `out` collected so far in
   * front of the pending pairs, a call of `next` either ends the loop with
   * everything collected or yields the next pair, leaving fewer pending.
   */
  lemma CollectStep<T>(t: seq<seq<T>>, count: nat, out: seq<T>, bi: nat, ba: nat)
    requires |Flatten(t)| <= count && out + Remaining(t, bi, ba) == Flatten(t)
    ensures var (r, bi', ba') := NextCursor(t, count, bi, ba);
            && (r.None? ==> out == Flatten(t) && Remaining(t, bi', ba') == [])
            && (r.Some? ==> (out + [r.value]) + Remaining(t, bi', ba') == Flatten(t)
                            && |Remaining(t, bi', ba')| < |Remaining(t, bi, ba)|)
  {
    var rest := Remaining(t, bi, ba);
    var c := NextCursor(t, count, bi, ba);
    if count == 0 {
      RemainingSuffix(t, bi, ba);
      assert out + [] == out;
    } else {
      SeekYieldsFirst(t, bi, ba);
      assert c == Seek(t, bi, ba);
      if c.0.None? {
        assert out + [] == out;
      } else {
        MoveFirst(out, rest);
      }
    }
  }

  /** Moving the first element of `b` to the end of `a` keeps `a + b`. */
  lemma MoveFirst<T>(a: seq<T>, b: seq<T>)
    requires b != []
    ensures (a + [b[0]]) + b[1..] == a + b
  {
    assert b == [b[0]] + b[1..];
  }

  /**
   * `next` yields the first pair still to be yielded, and exactly that pair
   * is no longer pending; it yields nothing exactly when nothing is pending.
   */
  lemma {:induction false} SeekYieldsFirst<T>(t: seq<seq<T>>, bi: nat, ba: nat)
    ensures var (r, bi', ba') := Seek(t, bi, ba);
            && (r.None? <==> Remaining(t, bi, ba) == [])
            && (r.None? ==> Remaining(t, bi', ba') == [])
            && (r.Some? ==> r.value == Remaining(t, bi, ba)[0]
                            && Remaining(t, bi', ba') == Remaining(t, bi, ba)[1..]
                            && r.value in Flatten(t))
    decreases |t| - bi
  {
    if bi < |t| {
      if ba < |t[bi]| {
        RemainingAdvance(t, bi, ba);
        InFlatten(t, bi, t[bi][ba]);
      } else {
        RemainingNextBucket(t, bi, ba);
        SeekYieldsFirst(t, bi + 1, 0);
      }
    }
  }

  /** Once `next` has returned None, calling it again returns None and leaves the cursor where it is. */
  lemma NextAfterNone<T>(t: seq<seq<T>>, count: nat, bi: nat, ba: nat)
    ensures var c := NextCursor(t, count, bi, ba);
            c.0.None? ==> NextCursor(t, count, c.1, c.2) == c
  {
  }

  lemma FlattenCons<T>(a: seq<T>, r: seq<seq<T>>)
    ensures Flatten([a] + r) == a + Flatten(r)
  {
    FlattenAppend([a], r);
    assert [a][..0] == [];
  }

  /** A new iterator has every stored pair to yield, bucket by bucket, in position order. */
  lemma RemainingFromStart<T>(t: seq<seq<T>>)
    ensures Remaining(t, 0, 0) == Flatten(t)
  {
    if t != [] {
      assert t == [t[0]] + t[1..];
      FlattenCons(t[0], t[1..]);
    }
  }

  /** Inside its bucket, `next` yields the pair under the cursor and moves one on. */
  lemma RemainingAdvance<T>(t: seq<seq<T>>, bi: nat, ba: nat)
    requires bi < |t| && ba < |t[bi]|
    ensures Remaining(t, bi, ba) != [] && Remaining(t, bi, ba)[0] == t[bi][ba]
    ensures Remaining(t, bi, ba)[1..] == Remaining(t, bi, ba + 1)
  {
    var f := Flatten(t[bi + 1..]);
    var b := t[bi];
    var rest := Tail(b, ba + 1);
    assert b[ba..] == [b[ba]] + rest;
    ConsTail(b[ba], rest, f);
  }

  lemma ConsTail<T>(x: T, r: seq<T>, f: seq<T>)
    ensures ([x] + r + f)[0] == x && ([x] + r + f)[1..] == r + f
  {
  }

  /** Past its bucket's end, `next` moves to the next bucket's start, leaving the same pairs. */
  lemma RemainingNextBucket<T>(t: seq<seq<T>>, bi: nat, ba: nat)
    requires bi < |t| && ba >= |t[bi]|
    ensures Remaining(t, bi, ba) == Remaining(t, bi + 1, 0)
  {
    if bi + 1 < |t| {
      assert t[bi + 1..] == [t[bi + 1]] + t[bi + 2..];
      FlattenCons(t[bi + 1], t[bi + 2..]);
    } else {
      assert t[bi + 1..] == [];
    }
  }

  /** What is left to yield is a suffix of the stored pairs: the iterator yields only stored pairs. */
  lemma RemainingSuffix<T>(t: seq<seq<T>>, bi: nat, ba: nat)
    ensures |Remaining(t, bi, ba)| <= |Flatten(t)|
    ensures Remaining(t, bi, ba) == Flatten(t)[|Flatten(t)| - |Remaining(t, bi, ba)|..]
  {
    if bi < |t| {
      FlattenAt(t, bi);
      var b := t[bi];
      var c := if ba < |b| then ba else |b|;
      assert Tail(b, ba) == b[c..];
      Regroup(Flatten(t[..bi]), b, Flatten(t[bi + 1..]), c);
    }
  }

  lemma Regroup<T>(p: seq<T>, b: seq<T>, f: seq<T>, c: nat)
    requires c <= |b|
    ensures p + b + f == (p + b[..c]) + (b[c..] + f)
  {
    assert b == b[..c] + b[c..];
  }

  // ---------- Scenarios from the unit tests ----------

  /**
   * `create_insert` and `insert_get_remove` (lib.rs:216-231): the first
   * insert into a new map allocates 1024 buckets, returns None and counts one
   * item; `get` then finds the value and `remove` returns it, back to zero items.
   */
  lemma FirstInsert<K, V>(digest: Digest<K>, how: Hashing, key: K, value: V)
    ensures var s1 := Put(Store([], 0), digest, how, key, value);
            && s1.1 == None && s1.0.count == 1 && |s1.0.table| == INITIAL_CAPACITY
            && Flatten(s1.0.table) == [(key, value)]
            && Lookup(s1.0.table, digest, key) == Some(value)
            && Take(s1.0, digest, key).1 == Some(value) && Take(s1.0, digest, key).0.count == 0
  {
    FirstInsertTable(digest, how, key, value);
    PutTake(Store([], 0), digest, how, key, value);
  }

  /** The first insert into a new map allocates 1024 buckets and stores just its pair, found by `get`. */
  lemma FirstInsertTable<K, V>(digest: Digest<K>, how: Hashing, key: K, value: V)
    ensures var s1 := Put(Store([], 0), digest, how, key, value);
            && s1.1 == None && s1.0.count == 1 && |s1.0.table| == INITIAL_CAPACITY
            && Flatten(s1.0.table) == [(key, value)]
            && Lookup(s1.0.table, digest, key) == Some(value)
  {
    var s0: Store<K, V> := Store([], 0);
    var s1 := FirstStep(s0, digest, how, key, value);
    SingleElement(Flatten(s1.table), (key, value));
    PlacedLookup(s1.table, digest, (key, value));
  }

  /** A table whose only pair is (key, value) finds nothing for any other key. */
  lemma OnlyPair<K, V>(t: Table<K, V>, digest: Digest<K>, key: K, value: V, other: K)
    requires |t| > 0 && Flatten(t) == [(key, value)] && other != key
    ensures Lookup(t, digest, other) == None
  {
  }

  /** After the first insert into a new map, `get` finds nothing for any other key. */
  lemma FirstInsertOther<K, V>(digest: Digest<K>, how: Hashing, key: K, value: V, other: K)
    requires other != key
    ensures var t := Put(Store([], 0), digest, how, key, value).0.table;
            |t| > 0 && Lookup(t, digest, other) == None
  {
    FirstInsertTable(digest, how, key, value);
    OnlyPair(Put(Store([], 0), digest, how, key, value).0.table, digest, key, value, other);
  }

  lemma SingleElement<T>(f: seq<T>, x: T)
    requires multiset(f) == multiset{x}
    ensures f == [x]
  {
    MultisetSize(f, [x]);
    MultisetSize([x], f);
    assert f[0] in multiset(f);
  }

  /**
   * Unconditional counting: inserting the same key twice stores one pair but
   * counts two items, and the second insert returns the first value.
   */
  lemma InsertTwice<K, V>(digest: Digest<K>, how: Hashing, key: K, v1: V, v2: V)
    ensures var s1 := Put(Store([], 0), digest, how, key, v1).0;
            var s2 := Put(s1, digest, how, key, v2);
            && s2.1 == Some(v1) && s2.0.count == 2
            && Flatten(s2.0.table) == [(key, v2)]
  {
    FirstInsertTable(digest, how, key, v1);
    var s1 := Put(Store([], 0), digest, how, key, v1).0;
    assert !NeedsResize(|s1.table|, s1.count);
    PutAt(s1, digest, how, key, v2);
    var i := Slot(digest, key, |s1.table|);
    assert Find(s1.table[i], key) == Some(v1);
    SoleBucket(s1.table, i, [(key, v2)]);
    assert Upsert([(key, v1)], key, v2) == [(key, v2)];
  }

  /** In a table holding one element, that element's non-empty bucket is all there is. */
  lemma SoleBucket<T>(t: seq<seq<T>>, i: nat, b: seq<T>)
    requires i < |t| && |Flatten(t)| == 1 && t[i] != []
    ensures t[i] == Flatten(t) && Flatten(t[i := b]) == b
  {
    FlattenUpdate(t, i, b);
  }

  /**
   * The inserts of `iter_on_hashmap` (lib.rs:249-261): inserting 3, 4, 5
   * and 0, each with the same value, into a new map returns None four times;
   * the map then counts four items and holds exactly the four pairs. Beyond
   * what the test checks, `get(5)` then finds its value and `remove(4)`
   * returns its value.
   */
  lemma FourInserts<V>(digest: Digest<int>, how: Hashing, hi: V)
    ensures var s1 := Put(Store([], 0), digest, how, 3, hi);
            var s2 := Put(s1.0, digest, how, 4, hi);
            var s3 := Put(s2.0, digest, how, 5, hi);
            var s4 := Put(s3.0, digest, how, 0, hi);
            && s1.1 == None && s2.1 == None && s3.1 == None && s4.1 == None
            && s4.0.count == 4
            && multiset(Flatten(s4.0.table)) == multiset{(3, hi), (4, hi), (5, hi), (0, hi)}
            && Lookup(s4.0.table, digest, 5) == Some(hi)
            && Take(s4.0, digest, 4).1 == Some(hi) && Take(s4.0, digest, 4).0.count == 3
  {
    var s1, s2, s3, s4 := FourInsertsState(digest, how, hi);
    assert (5, hi) in multiset(Flatten(s4.table));
    PlacedLookup(s4.table, digest, (5, hi));
    assert (4, hi) in multiset(Flatten(s4.table));
    PlacedLookup(s4.table, digest, (4, hi));
  }

  /** The maps the four inserts of `iter_on_hashmap` build, and what each insert returns. */
  lemma FourInsertsState<V>(digest: Digest<int>, how: Hashing, hi: V)
    returns (s1: Store<int, V>, s2: Store<int, V>, s3: Store<int, V>, s4: Store<int, V>)
    ensures s1 == Put(Store([], 0), digest, how, 3, hi).0 && Put(Store([], 0), digest, how, 3, hi).1 == None
    ensures s2 == Put(s1, digest, how, 4, hi).0 && Put(s1, digest, how, 4, hi).1 == None
    ensures s3 == Put(s2, digest, how, 5, hi).0 && Put(s2, digest, how, 5, hi).1 == None
    ensures s4 == Put(s3, digest, how, 0, hi).0 && Put(s3, digest, how, 0, hi).1 == None
    ensures HoldsExactly(s4, digest, multiset{(3, hi), (4, hi), (5, hi), (0, hi)})
  {
    FourPairs(hi);
    s1, s2 := TwoInserts(digest, how, hi);
    s3, s4 := LastTwoInserts(digest, how, hi, s2);
  }

  /** The last two inserts of `iter_on_hashmap`, into the map holding (3, hi) and (4, hi). */
  lemma LastTwoInserts<V>(digest: Digest<int>, how: Hashing, hi: V, s2: Store<int, V>) returns (s3: Store<int, V>, s4: Store<int, V>)
    requires HoldsExactly(s2, digest, multiset{(3, hi)} + multiset{(4, hi)})
    ensures s3 == Put(s2, digest, how, 5, hi).0 && Put(s2, digest, how, 5, hi).1 == None
    ensures s4 == Put(s3, digest, how, 0, hi).0 && Put(s3, digest, how, 0, hi).1 == None
    ensures HoldsExactly(s4, digest, multiset{(3, hi)} + multiset{(4, hi)} + multiset{(5, hi)} + multiset{(0, hi)})
  {
    var m2 := multiset{(3, hi)} + multiset{(4, hi)};
    s3 := NextStep(s2, digest, how, 5, hi, m2);
    s4 := NextStep(s3, digest, how, 0, hi, m2 + multiset{(5, hi)});
  }

  /** The first two inserts of `iter_on_hashmap`. */
  lemma TwoInserts<V>(digest: Digest<int>, how: Hashing, hi: V) returns (s1: Store<int, V>, s2: Store<int, V>)
    ensures s1 == Put(Store([], 0), digest, how, 3, hi).0 && Put(Store([], 0), digest, how, 3, hi).1 == None
    ensures s2 == Put(s1, digest, how, 4, hi).0 && Put(s1, digest, how, 4, hi).1 == None
    ensures HoldsExactly(s2, digest, multiset{(3, hi)} + multiset{(4, hi)})
  {
    s1 := FirstStep(Store([], 0), digest, how, 3, hi);
    s2 := NextStep(s1, digest, how, 4, hi, multiset{(3, hi)});
  }

  lemma FourPairs<V>(hi: V)
    ensures multiset{(3, hi)} + multiset{(4, hi)} + multiset{(5, hi)} + multiset{(0, hi)}
            == multiset{(3, hi), (4, hi), (5, hi), (0, hi)}
  {
  }

  /** What the scenario keeps track of: a well-placed allocated map holding exactly `m`. */
  ghost predicate HoldsExactly<K, V>(s: Store<K, V>, digest: Digest<K>, m: multiset<(K, V)>) {
    && Inv(s) && DistinctKeys(Flatten(s.table)) && Placed(s.table, digest)
    && |s.table| == INITIAL_CAPACITY && s.count == |m|
    && multiset(Flatten(s.table)) == m
  }

  lemma FirstStep<K, V>(s: Store<K, V>, digest: Digest<K>, how: Hashing, key: K, value: V) returns (r: Store<K, V>)
    requires s == Store([], 0)
    ensures r == Put(s, digest, how, key, value).0 && Put(s, digest, how, key, value).1 == None
    ensures HoldsExactly(r, digest, multiset{(key, value)})
  {
    assert KeySet(Flatten(s.table)) == {};
    r := FreshStep(s, digest, how, key, value);
  }

  lemma NextStep<K, V>(s: Store<K, V>, digest: Digest<K>, how: Hashing, key: K, value: V, m: multiset<(K, V)>)
    returns (r: Store<K, V>)
    requires HoldsExactly(s, digest, m) && |m| < LOAD_FACTOR * INITIAL_CAPACITY
    requires forall v :: (key, v) !in m
    ensures r == Put(s, digest, how, key, value).0 && Put(s, digest, how, key, value).1 == None
    ensures HoldsExactly(r, digest, m + multiset{(key, value)})
  {
    r := FreshStep(s, digest, how, key, value);
  }

  /**
   * One insert of a new key into a well-placed map: it stores one more pair,
   * and keeps placement whenever its resize check does.
   */
  lemma FreshStep<K, V>(s: Store<K, V>, digest: Digest<K>, how: Hashing, key: K, value: V) returns (r: Store<K, V>)
    requires Inv(s) && DistinctKeys(Flatten(s.table)) && key !in KeySet(Flatten(s.table))
    requires Placed(s.table, digest)
    ensures r == Put(s, digest, how, key, value).0 && Put(s, digest, how, key, value).1 == None
    ensures Inv(r) && DistinctKeys(Flatten(r.table))
    ensures ResizePlaces(s, how) ==> Placed(r.table, digest)
    ensures KeySet(Flatten(r.table)) == KeySet(Flatten(s.table)) + {key}
    ensures multiset(Flatten(r.table)) == multiset(Flatten(s.table)) + multiset{(key, value)}
    ensures NeedsResize(|s.table|, s.count) ==> |r.table| == Grow(|s.table|)
    ensures !NeedsResize(|s.table|, s.count) ==> |r.table| == |s.table|
  {
    r := Put(s, digest, how, key, value).0;
    PutInv(s, digest, how, key, value);
    PutFresh(s, digest, how, key, value);
    if ResizePlaces(s, how) {
      PutPlaced(s, digest, how, key, value);
    }
  }

  /** A digest that returns the number of keys fed: a legitimate, if poor, hasher. */
  function CountKeys<K>(ks: seq<K>): nat { |ks| }

  /**
   * An `n`-bucket map holding (k1, v1) and (k2, v2) in slot 1, where
   * `CountKeys` puts every key looked up, and counting 3n + 1 items.
   */
  function LossExample<K, V>(n: nat, k1: K, v1: V, k2: K, v2: V): Store<K, V>
    requires n > 1
  {
    Store(Empties<(K, V)>(n)[1 := [(k1, v1), (k2, v2)]], 3 * n + 1)
  }

  lemma LossExampleValid<K, V>(n: nat, k1: K, v1: V, k2: K, v2: V)
    requires n >= INITIAL_CAPACITY && k1 != k2
    ensures var s := LossExample(n, k1, v1, k2, v2);
            && Flatten(s.table) == [(k1, v1), (k2, v2)]
            && Inv(s) && Placed(s.table, CountKeys) && NeedsResize(|s.table|, s.count)
            && Lookup(s.table, CountKeys, k2) == Some(v2)
  {
    var t := LossExample(n, k1, v1, k2, v2).table;
    var b := [(k1, v1), (k2, v2)];
    LossExampleFlatten(n, b);
    assert t[1] == b;
    assert DistinctKeys(b);
    assert forall i :: 0 <= i < |t| && i != 1 ==> t[i] == [];
    SmallMod(CountKeys([k2]), n);
    assert Find(b, k2) == Some(v2) by { assert b[1..][0] == (k2, v2); }
  }

  /** The example's pairs are those of bucket 1. */
  lemma LossExampleFlatten<T>(n: nat, b: seq<T>)
    requires n > 1
    ensures Flatten(Empties<T>(n)[1 := b]) == b
  {
    var e := Empties<T>(n);
    FlattenUpdate(e, 1, b);
    FlattenAllEmpty(e[..1]);
    FlattenAllEmpty(e[1 + 1..]);
  }

  /** `resize` of the example: (k1, v1) is drained to bucket 1 and (k2, v2) to bucket 2. */
  lemma LossExampleRehash<K, V>(n: nat, k1: K, v1: V, k2: K, v2: V) returns (r: Table<K, V>)
    requires n >= INITIAL_CAPACITY && k1 != k2
    ensures r == Rehash(LossExample(n, k1, v1, k2, v2).table, Grow(n), CountKeys, Shared)
    ensures |r| == 2 * n && r[1] == [(k1, v1)] && r[2] == [(k2, v2)]
  {
    var pairs := [(k1, v1), (k2, v2)];
    LossExampleFlatten(n, pairs);
    DrainTwo(pairs, 2 * n);
    r := Drain(pairs, 2 * n, CountKeys, Shared);
  }

  /** Draining two pairs into empty buckets with `CountKeys`: they land in buckets 1 and 2. */
  lemma DrainTwo<K, V>(pairs: seq<(K, V)>, n: nat)
    requires n > 2 && |pairs| == 2
    ensures Drain(pairs, n, CountKeys, Shared) == Empties<(K, V)>(n)[1 := [pairs[0]]][2 := [pairs[1]]]
  {
    var d1 := DrainFirst(pairs[..1], n);
    DrainUnfold(pairs, n, CountKeys, Shared);
    SmallMod(CountKeys(KeysOf(pairs)), n);
    assert pairs[..1][0] == pairs[0];
    assert Upsert(d1[2], pairs[1].0, pairs[1].1) == [pairs[1]] by { assert KeySet(d1[2]) == {}; }
  }

  /** Draining one pair into empty buckets with `CountKeys`: it lands in bucket 1. */
  lemma DrainFirst<K, V>(pairs: seq<(K, V)>, n: nat) returns (d: Table<K, V>)
    requires n > 2 && |pairs| == 1
    ensures d == Drain(pairs, n, CountKeys, Shared) == Empties<(K, V)>(n)[1 := [pairs[0]]]
  {
    var d0 := Empties<(K, V)>(n);
    assert pairs[..0] == [];
    DrainUnfold(pairs, n, CountKeys, Shared);
    SmallMod(CountKeys(KeysOf(pairs)), n);
    assert Upsert(d0[1], pairs[0].0, pairs[0].1) == [pairs[0]] by { assert KeySet(d0[1]) == {}; }
    d := Drain(pairs, n, CountKeys, Shared);
  }

  /**
   * After `resize` as written, with its shared hasher, `get` no longer finds
   * a stored pair. With the digest that counts the keys fed, the example
   * map, which `get` reads correctly and which the next `insert` must
   * resize, is resized so that (k2, v2) is drained to bucket 2 (two keys
   * fed) while `get(k2)` visits bucket 1 (one key fed) and finds nothing,
   * though the pair is still stored.
   */
  lemma ResizeLosesLookup<K, V>(n: nat, k1: K, v1: V, k2: K, v2: V)
    requires n >= INITIAL_CAPACITY && k1 != k2
    ensures var s := LossExample(n, k1, v1, k2, v2);
            var r := Rehash(s.table, Grow(n), CountKeys, Shared);
            && Inv(s) && Placed(s.table, CountKeys) && Lookup(s.table, CountKeys, k2) == Some(v2)
            && NeedsResize(|s.table|, s.count)
            && (k2, v2) in Flatten(r) && Lookup(r, CountKeys, k2) == None
  {
    LossExampleValid(n, k1, v1, k2, v2);
    var r := LossExampleRehash(n, k1, v1, k2, v2);
    SmallMod(CountKeys([k2]), |r|);
    assert Find(r[1], k2) == None by { assert r[1][0].0 == k1; }
    InFlatten(r, 2, (k2, v2));
  }

  /**
   * The same through `insert` as written: inserting a third key into the
   * example map makes `get(k2)` find nothing though (k2, v2) is still
   * stored, while with a new hasher per drained key it still finds `v2`.
   */
  lemma InsertLosesLookup<K, V>(n: nat, k1: K, v1: V, k2: K, v2: V, k3: K, v3: V)
    requires n >= INITIAL_CAPACITY && k1 != k2 && k3 != k2
    ensures var s := LossExample(n, k1, v1, k2, v2);
            var shared := Put(s, CountKeys, Shared, k3, v3).0.table;
            var perKey := Put(s, CountKeys, PerKey, k3, v3).0.table;
            && Inv(s) && Placed(s.table, CountKeys) && Lookup(s.table, CountKeys, k2) == Some(v2)
            && (k2, v2) in Flatten(shared) && Lookup(shared, CountKeys, k2) == None
            && Lookup(perKey, CountKeys, k2) == Some(v2)
  {
    var s := LossExample(n, k1, v1, k2, v2);
    LossExampleValid(n, k1, v1, k2, v2);
    var r := LossExampleRehash(n, k1, v1, k2, v2);
    var i := Slot(CountKeys, k3, |r|);
    SmallMod(CountKeys([k3]), |r|);
    var u := r[i := Upsert(r[i], k3, v3)];
    assert Put(s, CountKeys, Shared, k3, v3).0.table == u;
    UpsertOther(r[1], k3, v3, k2);
    assert Find(r[1], k2) == None by { assert r[1][0].0 == k1; }
    assert u[2] == r[2];
    InFlatten(u, 2, (k2, v2));
    PutOther(s, CountKeys, PerKey, k3, v3, k2);
  }

  lemma SmallMod(a: nat, m: nat)
    requires a < m
    ensures a % m == a
  {
  }
}
