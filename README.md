# hashmapper-rs in Dafny

A model of `hashmapper-rs`, a bucketed hash map written in Rust, with proofs
about it. The map keeps a vector of buckets and a counter `num_items`. Each
bucket is a `Vec<(K, V)>` collision chain. A key goes to bucket
`digest % buckets.len()`. The map grows on the first insert to 1024 buckets,
and doubles when `num_items > 3 * len`. On top of the map sit an entry API,
key and value views, a pair iterator and `m[key]` indexing.

Modules, one per core source file, plus `Tables`, the value model the
classes are proved against, and `Wrappers`, which holds the `Option` type:

- `Buckets` (bucket.dfy, `src/bucket.rs`): the class `Bucket`, whose `items`
  sequence its methods change in place. The scanning loops are methods proved
  against the pure functions `IndexOf`, `Find`, `Upsert`, `SwapRemove` and
  `Delete`.
- `Tables` (table.dfy): the map as a value. A `Store` is the table of bucket
  contents plus the counter. `Reserve`, `Put`, `Take`, `Drain` and `Rehash`
  say what `insert`, `remove` and `resize` (`src/lib.rs`) do to it, and the
  cursor functions `Seek`, `NextCursor` and `Remaining` say what the iterator
  does. The lemmas about these functions carry most of the proofs.
- `HashMapper` (hashmap.dfy, `src/lib.rs`): the class `HashMap`, with the
  fields `buckets` and `numItems`, and the class `HashMapIterator`, with the
  fields `bucketIdx` and `bucketAt`. Each method states its new state as a
  function of the old one, and keeps the invariant `Valid()`. `Valid()` holds
  that:
  - the buckets mirror the ghost table;
  - no bucket object appears twice;
  - each bucket's keys are distinct;
  - the counter bounds the stored pairs;
  - the bucket count is 0 or at least 1024;
  - the counter is at most three items per bucket, plus one;
  - with per-key hashing in `resize`, every pair sits in the bucket its key
    hashes to.
- `Entries` (entry.dfy, `src/entry.rs`): `Entry` as a datatype. A `&mut V` is
  a `ValueRef`: the map plus a (bucket, position) handle.
- `KeyValues` (key_values.dfy, `src/key_values.rs`): `Keys` and `Values` as
  classes, each wrapping a `HashMapIterator`.
- `Indexing` (indexing.dfy, `src/indexing.rs`): `Index`.

The hasher is a parameter: `digest(ks)` is what `DefaultHasher::finish()`
returns after being fed the keys `ks` in order. A lookup uses `digest([key])`.

`resize` in the source feeds a single hasher every key it drains, while
`get` hashes each key with a new hasher. Every map operation therefore takes
a hashing mode for `resize`: `Shared` is the source as written, `PerKey` the
evidently intended fix. With `Shared`, after a resize of a non-empty map `get`
no longer finds some stored pairs (`Tables.ResizeLosesLookup`,
`Tables.InsertLosesLookup`); with `PerKey` every lookup survives
(`Tables.RehashLookup`). The class `HashMap` has the mode as a constant, and
the unit-test scenarios are proved for both modes (see "## Findings").

## Model

| member | source | states |
|---|---|---|
| Buckets.IndexOf | src/bucket.rs:60-63 | the position `position` finds is the first one holding the key, and there is none exactly when the key is absent from the bucket |
| Buckets.Find | src/bucket.rs:30-35 | the scan finds nothing exactly when the key is absent, and otherwise a value stored with that key |
| Buckets.Upsert | src/bucket.rs:45-53 | a present key keeps length and key set, and only that pair changes, to the new value; an absent key is appended at the end |
| Buckets.SwapRemove | src/bucket.rs:64 | length drops by one, positions before `i` are untouched, the former last element now sits at `i`, and later positions are unchanged |
| Buckets.Delete | src/bucket.rs:55-65 | the vector `remove` leaves only loses pairs, and loses one exactly when the key is present |
| Buckets.FindStored | src/bucket.rs:30-35 | in a bucket with distinct keys, `get` of a stored key yields the value stored with it |
| Buckets.UpsertContents | src/bucket.rs:45-53 | `insert` adds at most the new pair, adds exactly the key to the key set, and grows the bucket by at most one |
| Buckets.UpsertFind | src/bucket.rs:45-53 | after `insert(k, v)`, `get(k)` is `Some(v)`; `insert` keeps the keys distinct |
| Buckets.UpsertOther | src/bucket.rs:45-53 | `insert(k, v)` leaves `get` of every other key unchanged |
| Buckets.SwapRemoveMultiset | src/bucket.rs:64 | `swap_remove(i)` removes exactly the element at `i` and keeps all the others |
| Buckets.DeleteProperties | src/bucket.rs:55-65 | removing an absent key leaves the items unchanged; removing a present one shortens them by one, only removes, keeps keys distinct and leaves the key absent |
| Buckets.SwapRemoveDistinct | src/bucket.rs:64 | `swap_remove` keeps keys distinct, and the removed key is gone |
| Buckets.DeleteOther | src/bucket.rs:55-65 | `remove(k)` leaves `get` of every other key unchanged |
| Buckets.IndexOfSameKeys | src/bucket.rs:71-73 | writing a value through `at_mut` keeps every key's position |
| Buckets.Bucket.constructor | src/bucket.rs:14-23 | a new bucket is empty |
| Buckets.Bucket.Get | src/bucket.rs:25-36 | the scanning loop returns `Find` of the items |
| Buckets.Bucket.GetMut | src/lib.rs:56 | the bucket `get_mut` called here hands out the position `IndexOf` finds |
| Buckets.Bucket.ContainsKey | src/bucket.rs:37-43 | true exactly when `get` finds a value |
| Buckets.Bucket.Insert | src/bucket.rs:45-53 | returns the old value `get` would have found, and the items become `Upsert` of the old ones |
| Buckets.Bucket.InsertMut | src/lib.rs:98 | the bucket `insert_mut` called here inserts as `insert` does, and hands out the position holding the new pair, the one `get_mut` finds |
| Buckets.Bucket.Remove | src/bucket.rs:55-65 | returns the value `get` would have found, and swap-removes that pair |
| Buckets.Bucket.At | src/bucket.rs:67-69 | a pair exactly when `idx < len`, and then `items[idx]` |
| Buckets.Bucket.WriteValue | src/bucket.rs:71-73 | a write through `at_mut` replaces only that pair's value, and keeps its key and the key set |
| Tables.Slot | src/lib.rs:42-44 | the slot `digest([key]) % len` lies inside the bucket vector |
| Tables.Lookup | src/lib.rs:37-46 | a value `get` finds is stored with the key |
| Tables.Locate | src/lib.rs:48-57 | `get_mut` gives a handle exactly when `get` finds a value, and the handle points at that pair |
| Tables.PlacedLookup | src/lib.rs:37-46 | when every pair sits in its key's slot and bucket keys are distinct, `get` finds every stored pair |
| Tables.LookupStored | src/lib.rs:37-46 | on such a table, `get` finds nothing exactly when the key is not stored |
| Tables.Grow | src/lib.rs:126-129 | the new capacity is larger than the old one, and at least 1024 when growing from empty or from 1024 or more |
| Tables.Reserve | src/lib.rs:84-87 | resizes exactly when the vector is empty or `num_items > 3 * len`, to `Grow(len)` buckets holding `Rehash` of the old table in the map's hashing mode, and is otherwise the identity; the counter is unchanged |
| Tables.ReserveInv | src/lib.rs:84-87 | the resize check keeps the invariant, the stored keys, and at most the stored pairs |
| Tables.ReserveExact | src/lib.rs:84-87 | with distinct keys, the resize check keeps exactly the stored pairs |
| Tables.ReserveLoad | src/lib.rs:84-85 | on a map with at most three items per bucket plus one, the resize check leaves at most three items per bucket |
| Tables.PutLoad | src/lib.rs:83-90 | `insert` keeps the counter at most three items per bucket, plus one |
| Tables.TakeLoad | src/lib.rs:101-115 | `remove` keeps the counter at most three items per bucket, plus one |
| Tables.ReservePlaced | src/lib.rs:84-87 | the resize check keeps every pair in its key's slot when it does not resize, when there is nothing to drain, or with per-key hashing |
| Tables.ReserveLookup | src/lib.rs:84-87 | under the same condition the resize check leaves `get` of every key unchanged |
| Tables.Put | src/lib.rs:83-90 | `insert` counts one more item whatever happens; afterwards `get(key)` is the new value, and it returns what `get(key)` found after the resize check |
| Tables.PutAt | src/lib.rs:83-90 | `insert` upserts into the slot of the key after the resize check, and returns that bucket's old value for the key |
| Tables.PutInv | src/lib.rs:83-90 | `insert` keeps the invariant (distinct keys per bucket, counter bounding the pairs, capacity 0 or at least 1024) |
| Tables.PutValid | src/lib.rs:83-90 | `insert` keeps the invariant in either hashing mode, and with per-key hashing also keeps every pair in its key's slot |
| Tables.PutPlaced | src/lib.rs:83-90 | `insert` keeps every pair in its key's slot whenever its resize check does (no resize, nothing to drain, or per-key hashing) |
| Tables.PutFresh | src/lib.rs:83-90 | inserting an absent key adds exactly that pair, keeps keys distinct, adds the key, and returns None |
| Tables.PutOther | src/lib.rs:83-90 | `insert(k, v)` leaves `get` of every other key unchanged whenever its resize check keeps placement, across a resize too |
| Tables.FreshStep | src/lib.rs:83-90 | inserting an absent key adds exactly that pair, the capacity grows exactly when the resize check fires, and placement is kept whenever that check keeps it |
| Tables.InsertTwice | src/lib.rs:83-90 | inserting one key twice into a new map returns the first value, counts two items and stores one pair |
| Tables.PutHandle | src/lib.rs:92-99 | `insert_mut` hands out the handle of the stored pair, the one `get_mut` then finds |
| Tables.Take | src/lib.rs:101-115 | `remove` returns what `get` finds; with nothing found the map is unchanged, otherwise the counter drops by one |
| Tables.TakeAt | src/lib.rs:101-115 | `remove` deletes the key from its slot, and the counter cannot underflow |
| Tables.TakeInv | src/lib.rs:101-115 | `remove` keeps the invariant, and afterwards `get` of the key finds nothing |
| Tables.TakeValid | src/lib.rs:101-115 | `remove` keeps the invariant and keeps every pair in its key's slot |
| Tables.TakePlaced | src/lib.rs:101-115 | `remove` keeps every pair in its key's slot |
| Tables.TakeOther | src/lib.rs:101-115 | `remove(k)` leaves `get` of every other key unchanged |
| Tables.PutTake | src/lib.rs:83-115 | right after `insert(k, v)`, `remove(k)` returns `Some(v)`, restores the counter, and leaves `k` absent |
| Tables.FirstInsert | src/lib.rs:216-231 | `insert(3, "hi")` into a new map returns None and counts one; `get` finds the value; `remove` returns it, and `len` is 0 |
| Tables.FirstInsertOther | src/entry.rs:96 | after one insert into a new map, `get` of another key finds nothing |
| Tables.FourInserts | src/lib.rs:248-262 | the four inserts of `iter_on_hashmap` return None, count four and store exactly those pairs, in either hashing mode; beyond what the test checks, `get(5)` then finds "hi" and `remove(4)` returns it |
| Tables.FourInsertsState | src/lib.rs:250-254 | each of the four inserts returns None, and the last map holds exactly the four pairs, each in its key's slot, in either hashing mode |
| Tables.DrainSlot | src/lib.rs:134-135 | the bucket a drained pair goes to lies in the new vector, and with per-key hashing it is the key's slot, as `get` computes it |
| Tables.Drain | src/lib.rs:133-137 | draining yields exactly `n` new buckets |
| Tables.DrainSnoc | src/lib.rs:133-136 | draining one more pair feeds its key to the hasher (the shared one, or a new one) and upserts the pair into the bucket it picks |
| Tables.DrainDistinctBuckets | src/lib.rs:133-137 | draining keeps each new bucket's keys distinct |
| Tables.DrainBounded | src/lib.rs:133-137 | draining never invents a pair |
| Tables.DrainKeys | src/lib.rs:133-137 | draining keeps exactly the set of keys |
| Tables.DrainExact | src/lib.rs:133-137 | with distinct keys, every drained pair lands exactly once |
| Tables.DrainPlaced | src/lib.rs:133-137 | draining with a per-key digest puts every pair in its key's slot |
| Tables.Rehash | src/lib.rs:130-137 | the new vector has `n` buckets, holds exactly the old keys and no pair that was not stored; `Shared` is the drain as written, `PerKey` the corrected one |
| Tables.RehashEmpty | src/lib.rs:125-139 | resizing an empty map gives empty buckets, in either hashing mode |
| Tables.RehashInv | src/lib.rs:125-139 | resizing keeps the invariant, in either hashing mode |
| Tables.RehashPlaced | src/lib.rs:125-139 | after the corrected resize every pair sits in its key's slot |
| Tables.RehashLookup | src/lib.rs:125-139 | the corrected resize keeps `get` of every key unchanged |
| Tables.ResizeLosesLookup | src/lib.rs:130-137 | with the shared hasher as written, a valid, well-placed map that must grow and holds `(k2, v2)` still stores the pair after `resize`, but `get(k2)` no longer finds it |
| Tables.InsertLosesLookup | src/lib.rs:83-90 | the same through `insert(k3, v3)` as written: `get(k2)` finds `v2` before and nothing after, though the pair is still stored; with per-key hashing it still finds `v2` |
| Tables.Overwrite | src/entry.rs:47-48 | a write through a value handle keeps shape and keys, and sets that pair's value |
| Tables.OverwriteLocated | src/entry.rs:47-48 | writing through the handle `get_mut(k)` gave is an upsert of `k`; it keeps the invariant, `get(k)` finds the new value and every other key is unchanged |
| Tables.OverwritePlaced | src/entry.rs:47-48 | such a write keeps every pair in its key's slot |
| Tables.OverwriteInv | src/entry.rs:47-48 | such a write keeps the invariant |
| Tables.OverwriteLocate | src/entry.rs:47-48 | such a write keeps the handle `get_mut` finds for every key |
| Tables.RemainingFromStart | src/lib.rs:164-171 | a new iterator has every stored pair pending, bucket by bucket |
| Tables.SeekYieldsFirst | src/lib.rs:180-199 | the loop in `next` yields nothing exactly when nothing is pending; otherwise it yields the first pending pair, a stored one, and leaves the rest pending |
| Tables.Seek | src/lib.rs:180-199 | the loop in `next` yields nothing only once the cursor is past the last bucket; a pair it yields is the one just before the new cursor, in a bucket at or after the old one |
| Tables.NextCursor | src/lib.rs:176-199 | `next` yields nothing when no item is counted or the cursor is past the last bucket; a pair it yields is the one just before the new cursor |
| Tables.NextAfterNone | src/lib.rs:176-199 | once `next` has returned None, it keeps returning None |
| Tables.CollectStep | src/lib.rs:176-199 | each `next` yields the next pair of the bucket-by-bucket order, and shrinks what is pending, so iteration ends |
| HashMapper.NewBuckets | src/lib.rs:131-132 | `target_size` new, distinct, empty buckets |
| HashMapper.InsertAt | src/lib.rs:136 | `new_buckets[idx].insert` changes only that bucket, by `Upsert` |
| HashMapper.DrainOne | src/lib.rs:134-136 | feeds the pair's key to the hasher (the shared one as written, or a new one) and inserts the pair into the bucket `finish() % len` picks: one more step of `Drain` |
| HashMapper.DrainInto | src/lib.rs:133-136 | draining one old bucket's items extends the drain by exactly those pairs, in order, and the shared hasher has then been fed every drained key |
| HashMapper.DrainAll | src/lib.rs:130-137 | a hasher and new buckets: the new buckets are distinct and fresh, and hold `Rehash` of the old table in the given hashing mode |
| HashMapper.HashMap.constructor | src/lib.rs:23-35 | a new map, in the given hashing mode, has no buckets and no items |
| HashMapper.HashMap.Get | src/lib.rs:37-46 | returns the value in the key's slot, a stored one; while every pair sits in its key's slot (always with per-key hashing), None exactly when the key is not stored |
| HashMapper.HashMap.GetMut | src/lib.rs:48-57 | returns the handle of the key's pair in its slot |
| HashMapper.HashMap.ContainsKey | src/lib.rs:59-71 | true exactly when `get` finds a value; while every pair sits in its key's slot, exactly when the key is stored |
| HashMapper.HashMap.Len | src/lib.rs:117-119 | the counter, which bounds the stored pairs from above |
| HashMapper.HashMap.IsEmpty | src/lib.rs:121-123 | true exactly when `len` is 0, and then nothing is stored |
| HashMapper.HashMap.Resize | src/lib.rs:125-139 | keeps the counter and the invariant; the buckets become `Rehash` of the old ones, in the map's hashing mode, in new bucket objects; with per-key hashing `get` of every key is unchanged |
| HashMapper.HashMap.GetBucketMut | src/lib.rs:73-81 | allocates 1024 empty buckets when there are none, and returns the key's slot |
| HashMapper.HashMap.Prepare | src/lib.rs:84-88 | the map becomes `Reserve` of the old one, with one more item counted, and keeps the invariant and the load bound |
| HashMapper.HashMap.Insert | src/lib.rs:83-90 | the map becomes `Put` of the old one, and the return value is `Put`'s |
| HashMapper.HashMap.InsertMut | src/lib.rs:92-99 | the map becomes `Put` of the old one, and the handle is `PutHandle`'s |
| HashMapper.HashMap.InsertBucket | src/lib.rs:89 | only the chosen bucket changes, by `Upsert`, and its old value is returned |
| HashMapper.HashMap.InsertBucketMut | src/lib.rs:98 | only the chosen bucket changes, by `Upsert`, and the position of the key is returned |
| HashMapper.HashMap.Remove | src/lib.rs:101-115 | the map becomes `Take` of the old one, and the return value is `Take`'s |
| HashMapper.HashMap.RemoveBucket | src/lib.rs:108-110 | only the chosen bucket changes, by `Delete`, and the value `get` found is returned |
| HashMapper.HashMap.WriteValue | src/entry.rs:47-48 | a write through a handle changes only that pair's value, and keeps the invariant |
| HashMapper.HashMapIterator.constructor | src/lib.rs:164-171 | cursor (0, 0), with every stored pair pending |
| HashMapper.HashMapIterator.Next | src/lib.rs:176-200 | the result and the new cursor are `NextCursor` of the old cursor: None when no item is counted, else the result of the bucket-walking loop |
| HashMapper.CollectPairs | src/lib.rs:256-260 | iterating to the end yields every stored pair exactly once, bucket by bucket, and ends |
| HashMapper.InsertFour | src/lib.rs:250-254 | the four inserts return None, and the map holds exactly the four pairs |
| HashMapper.IterOnHashMap | src/lib.rs:248-262 | the test's iteration yields four pairs, each with key at most 5 and value "hi", in either hashing mode |
| Entries.NewEntry | src/entry.rs:12-19 | `entry(k)` is occupied exactly when `contains_key(k)`, then refers to the value `get` finds; it keeps the key and only reads the map |
| Entries.VacantInsert | src/entry.rs:60-64 | `insert_mut` of the key, returning a reference to the stored value, which `get` now finds |
| Entries.OrInsert | src/entry.rs:20-25 | vacant: `Put` of the value, and the reference points at it; occupied: the entry's reference, with the map and counter unchanged |
| Entries.OrInsertWith | src/entry.rs:27-32 | `or_insert` of `f()` |
| Entries.AndModify | src/entry.rs:41-52 | vacant: unchanged; occupied: `f` applied once to the value in place, the counter kept, and `get` then finds `f(old)` |
| Entries.EntryApi | src/entry.rs:77-98 | the test `entry_api`, in either hashing mode: vacant, then "hi"; occupied, and "hi" kept; the closure's "hi" for key 2 |
| Entries.EntryApiFirst | src/entry.rs:79-87 | the first `entry(3)` is vacant, `or_insert` stores "hi", and `contains_key(3)` holds |
| Entries.EntryApiAgain | src/entry.rs:88-95 | the second `entry(3)` is occupied, and `or_insert("hi0")` leaves the map unchanged |
| Entries.EntryApiLazy | src/entry.rs:96-97 | `or_insert_with` on the vacant `entry(2)` stores the closure's value |
| Entries.KeyAndModify | src/entry.rs:100-112 | the test `key_and_modify`, in either hashing mode: `key()` is "poneyland", then 42, then 43 |
| Entries.ModifyOrInsertNew | src/entry.rs:107-108 | on a new map, the chain stores 42 |
| Entries.ModifyOrInsertAgain | src/entry.rs:110-111 | on the map storing 42, the chain makes the value 43 |
| Indexing.Index | src/indexing.rs:8-13 | `m[key]` is the value `get` finds, a stored one; the map is only read |
| KeyValues.FirstOf | src/key_values.rs:22-23 | the key of the pair, and nothing exactly when there is no pair |
| KeyValues.SecondOf | src/key_values.rs:43-44 | the value of the pair, and nothing exactly when there is no pair |
| KeyValues.Keys.constructor | src/key_values.rs:11-17 | wraps a new iterator, with the keys of all stored pairs pending |
| KeyValues.Keys.Next | src/key_values.rs:19-25 | advances the wrapped iterator once and yields its key. It yields nothing exactly when nothing is pending, and nothing at all when no item is counted. Otherwise it yields the first pending key, a stored one |
| KeyValues.Values.constructor | src/key_values.rs:32-38 | wraps a new iterator, with the values of all stored pairs pending |
| KeyValues.Values.Next | src/key_values.rs:40-46 | advances the wrapped iterator once and yields its value. It yields nothing exactly when nothing is pending, and nothing at all when no item is counted. Otherwise it yields the first pending value, a stored one |
| KeyValues.PendingStep | src/lib.rs:176-200 | on a valid map, `next` yields nothing exactly when nothing is pending, and otherwise the first pending pair, a stored one |
| KeyValues.CollectKeys | tests/test.rs:127-129 | the `for` over `keys()` yields the key of every stored pair exactly once, in stored order |
| KeyValues.CollectValues | tests/test.rs:124-126 | the `for` over `values()` yields the value of every stored pair exactly once, in stored order |
| KeyValues.ThreeInserts | tests/test.rs:119-122 | after the three inserts the map holds exactly (1, 1), (2, 2) and (5, 3) |
| KeyValues.InsertThree | tests/test.rs:119-122 | the class map, after the three inserts, holds exactly those pairs |
| KeyValues.KeyValueIterators | tests/test.rs:117-130 | the test `key_value_iterators`, in either hashing mode: three values, each between 1 and 3, and three keys, each between 1 and 5 |

## Left out

- The hasher. SipHash is a foreign library algorithm, so `digest` is a parameter of the map: a function from the keys fed to a number.
- `Borrow<Q>` and `?Sized` lookups. Keys are looked up as `K` itself.
- Lifetimes and borrow checking. A `&mut V` is a (bucket, position) handle. The borrow checker's promise that the map does not change while an entry lives becomes the precondition `Entries.Current`.
- `ValuesMut` and `values_mut` (src/lib.rs:149-151). Their definitions are not part of this model.
- `Bucket::get_mut` and `Bucket::insert_mut` (called at src/lib.rs:56 and src/lib.rs:98). Their definitions are not part of this model. They are taken to be the scans of `get` and `insert` that return the position of the pair, as `Buckets.Bucket.GetMut` and `Buckets.Bucket.InsertMut`.
- `usize` and `u64` overflow of `3 * l`, `2 * n`, the counter and the digest. All are unbounded naturals.
- The I/O in tests/test.rs. Only its `key_value_iterators` test is modelled.
- The bucket's `IntoIterator` and the `iter_on_bucket` test. A bucket's items are a sequence.
- Buckets.Bucket.WriteValue: `at_mut` is modelled as the write it serves, not as a reference.
- HashMapper.HashMap.Resize: `drain(..)` empties the old buckets, but the model reads them and then drops them. They are unreachable once the vector is replaced.
- HashMapper.HashMap.Get: `% self.buckets.len()` panics on a map without buckets. Get, GetMut and Remove therefore require a non-empty vector, where one might expect them to return None on an empty map.
- Indexing.Index: the `unwrap` panics on an absent key, so the key is required to be present. Index is a method because `get`'s scan is a loop.
- Entries.OrInsertWith: `f` is a pure function. That it is called only for a vacant entry is not observable.
- Entries.AndModify: the `FnOnce(&mut V)` is modelled as a function from the old value to the new one.
- Entries.Entry.Key: stated through `Entries.NewEntry`, which ensures that the entry keeps its key.
- Tables.PutOther: with the shared hasher as written, `get` of other keys is kept only when the insert's resize check keeps placement (`Tables.ResizePlaces`), because the source breaks it otherwise (`Tables.InsertLosesLookup`).
- Tables.PutPlaced: placement is kept only under the same condition, for the same reason.
- Tables.PutValid: with the shared hasher, only the invariant is kept, not placement, for the same reason.
- Tables.FreshStep: placement is promised only under the same condition, for the same reason.
- HashMapper.HashMap.Get: "None exactly when the key is not stored" is promised only while every pair sits in its key's slot, which per-key hashing keeps and the shared hasher as written does not (`Tables.InsertLosesLookup`).
- HashMapper.HashMap.ContainsKey: "true exactly when the key is stored" is promised only under the same condition, for the same reason.
- HashMapper.HashMap.Resize: unchanged lookups are promised only with per-key hashing, because after `resize` as written `get` can miss a stored pair (`Tables.ResizeLosesLookup`).

## Findings

| source | as written | input that shows it | evidently intended | confidence | as-written member | corrected member |
|---|---|---|---|---|---|---|
| src/lib.rs:130-137 | `resize` creates one `DefaultHasher` before the drain loop and feeds it every drained key. Each pair's bucket therefore depends on every key drained before it | a map with at least 1024 buckets that must grow, holding two keys in bucket 1, under a digest that counts the keys fed: the second key lands in bucket 2, where `get` never looks | a fresh hasher per key, as `get`, `get_mut`, `remove` and `get_bucket_mut` use, so that every pair lands in its key's slot | high; not executed | Tables.ResizeLosesLookup and Tables.InsertLosesLookup (on Tables.Rehash with `Shared`, as HashMapper.HashMap.Resize drains when its mode is `Shared`) | Tables.RehashLookup (on Tables.Rehash with `PerKey`, as HashMapper.HashMap.Resize drains when its mode is `PerKey`) |
