/**
 * `impl Index for HashMap` (src/indexing.rs): `m[key]` is `get(key)`
 * unwrapped. It only reads the map; `get`'s scan of a bucket is a loop in
 * this model, so indexing is a method without a `modifies` clause.
 */
module Indexing {
  import opened Wrappers
  import opened Buckets
  import opened Tables
  import opened HashMapper

  /**
   * `index` (indexing.rs:10-12): the value `get` finds for a key that is
   * present; the `unwrap` panics otherwise, and `get` panics on a map with
   * no buckets.
   */
  method Index<K(==), V>(m: HashMap<K, V>, key: K) returns (v: V)
    requires m.Valid() && |m.buckets| > 0 && Lookup(m.Contents, m.digest, key).Some?
    ensures Lookup(m.Contents, m.digest, key) == Some(v)
    ensures (key, v) in Flatten(m.Contents)
  {
    var r := m.Get(key);
    v := r.value;
  }
}
