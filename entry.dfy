/**
 * The entry API of src/entry.rs: `HashMap::entry` builds a Vacant or an
 * Occupied entry for a key; `or_insert`, `or_insert_with`, `and_modify`
 * and `VacantEntry::insert` consume it.
 *
 * A `&'a mut V` into the map is a `ValueRef`: the map and the handle
 * (bucket index, position) of the pair whose value it points at. The
 * borrow checker's guarantee that the map does not change while an entry
 * is alive becomes the precondition `Current`.
 */
module Entries {
  import opened Wrappers
  import opened Buckets
  import opened Tables
  import opened HashMapper
  import opened Indexing

  /** A mutable reference to a value stored in `hmap`, at `at`. */
  datatype ValueRef<K(==), V> = ValueRef(hmap: HashMap<K, V>, at: Handle)

  /** `VacantEntry` (entry.rs:55-58): the map, borrowed mutably, and the absent key. */
  datatype VacantEntry<K(==), V> = VacantEntry(hmap: HashMap<K, V>, key: K)

  /** `OccupiedEntry` (entry.rs:66-69): the key and a reference to its value. */
  datatype OccupiedEntry<K(==), V> = OccupiedEntry(key: K, value: ValueRef<K, V>)

  /** `Entry` (entry.rs:6-9). */
  datatype Entry<K(==), V> = Vacant(ventry: VacantEntry<K, V>) | Occupied(oentry: OccupiedEntry<K, V>)
  {
    /** `key` (entry.rs:34-39): the entry's key, in either state. */
    function Key(): K {
      match this
      case Vacant(v) => v.key
      case Occupied(o) => o.key
    }

    /** The map the entry borrows. */
    function Map(): HashMap<K, V> {
      match this
      case Vacant(v) => v.hmap
      case Occupied(o) => o.value.hmap
    }
  }

  /** `r` points at the value stored for `key`: the place `get_mut(key)` finds. */
  ghost predicate Refers<K, V>(r: ValueRef<K, V>, key: K)
    reads r.hmap, r.hmap.buckets
  {
    r.hmap.Valid() && |r.hmap.Contents| > 0 && Locate(r.hmap.Contents, r.hmap.digest, key) == Some(r.at)
  }

  /** The value `r` points at. */
  ghost function Deref<K, V>(r: ValueRef<K, V>): V
    reads r.hmap, r.hmap.buckets
    requires r.hmap.Valid() && r.at.bucket < |r.hmap.Contents| && r.at.pos < |r.hmap.Contents[r.at.bucket]|
  {
    r.hmap.Contents[r.at.bucket][r.at.pos].1
  }

  /** The entry still describes its map: an occupied entry's reference is where its key is stored. */
  ghost predicate Current<K, V>(e: Entry<K, V>)
    reads e.Map(), e.Map().buckets
  {
    e.Map().Valid() && (e.Occupied? ==> Refers(e.oentry.value, e.oentry.key))
  }

  /**
   * `Entry::new` (entry.rs:12-19), called by `HashMap::entry` (lib.rs:153-155):
   * occupied exactly when `contains_key` holds, then referring to the value
   * `get_mut` finds; the map is only read.
   */
  method NewEntry<K(==), V>(m: HashMap<K, V>, key: K) returns (e: Entry<K, V>)
    requires m.Valid()
    ensures e.Map() == m && e.Key() == key && Current(e)
    ensures e.Occupied? <==> m.ContainsKey(key)
    ensures e.Occupied? ==> Lookup(m.Contents, m.digest, key) == Some(Deref(e.oentry.value))
  {
    if m.ContainsKey(key) {
      var h := m.GetMut(key);
      e := Occupied(OccupiedEntry(key, ValueRef(m, h.value)));
    } else {
      e := Vacant(VacantEntry(m, key));
    }
  }

  /**
   * `VacantEntry::insert` (entry.rs:61-63): `insert_mut` of the key; the
   * reference points at the stored value, which `get` now finds.
   */
  method VacantInsert<K(==), V>(v: VacantEntry<K, V>, value: V) returns (r: ValueRef<K, V>)
    requires v.hmap.Valid()
    modifies v.hmap, v.hmap.buckets
    ensures v.hmap.Valid() && r.hmap == v.hmap && Refers(r, v.key) && Deref(r) == value
    ensures v.hmap.Model() == Put(old(v.hmap.Model()), v.hmap.digest, v.hmap.how, v.key, value).0
    ensures r.at == PutHandle(old(v.hmap.Model()), v.hmap.digest, v.hmap.how, v.key, value)
    ensures Lookup(v.hmap.Contents, v.hmap.digest, v.key) == Some(value)
    ensures forall i :: 0 <= i < |v.hmap.buckets| ==> v.hmap.buckets[i] in old(v.hmap.buckets) || fresh(v.hmap.buckets[i])
  {
    var h := v.hmap.InsertMut(v.key, value);
    r := ValueRef(v.hmap, h);
  }

  /**
   * `or_insert` (entry.rs:20-25): a vacant entry inserts `value` as
   * `VacantEntry::insert` does; an occupied one returns its reference and
   * leaves the map as it was, counter included.
   */
  method OrInsert<K(==), V>(e: Entry<K, V>, value: V) returns (r: ValueRef<K, V>)
    requires Current(e)
    modifies e.Map(), e.Map().buckets
    ensures e.Map().Valid() && r.hmap == e.Map() && Refers(r, e.Key())
    ensures e.Vacant? ==> e.Map().Model() == Put(old(e.Map().Model()), e.Map().digest, e.Map().how, e.Key(), value).0
                          && Deref(r) == value
    ensures e.Occupied? ==> r == e.oentry.value && e.Map().Model() == old(e.Map().Model())
                            && e.Map().buckets == old(e.Map().buckets)
                            && Deref(r) == old(Deref(e.oentry.value))
    ensures forall i :: 0 <= i < |e.Map().buckets| ==> e.Map().buckets[i] in old(e.Map().buckets) || fresh(e.Map().buckets[i])
  {
    match e
    case Vacant(v) =>
      r := VacantInsert(v, value);
    case Occupied(o) =>
      r := o.value;
  }

  /**
   * `or_insert_with` (entry.rs:27-32): `or_insert` of the value `f` makes.
   */
  method OrInsertWith<K(==), V>(e: Entry<K, V>, f: () -> V) returns (r: ValueRef<K, V>)
    requires Current(e)
    modifies e.Map(), e.Map().buckets
    ensures e.Map().Valid() && r.hmap == e.Map() && Refers(r, e.Key())
    ensures e.Vacant? ==> e.Map().Model() == Put(old(e.Map().Model()), e.Map().digest, e.Map().how, e.Key(), f()).0
                          && Deref(r) == f()
    ensures e.Occupied? ==> r == e.oentry.value && e.Map().Model() == old(e.Map().Model())
                            && e.Map().buckets == old(e.Map().buckets)
                            && Deref(r) == old(Deref(e.oentry.value))
    ensures forall i :: 0 <= i < |e.Map().buckets| ==> e.Map().buckets[i] in old(e.Map().buckets) || fresh(e.Map().buckets[i])
  {
    match e
    case Vacant(v) =>
      r := VacantInsert(v, f());
    case Occupied(o) =>
      r := o.value;
  }

  /**
   * `and_modify` (entry.rs:41-52): a vacant entry is handed back untouched;
   * an occupied one has `f` applied once to its value, which `get` then
   * finds, and is handed back still referring to it.
   */
  method AndModify<K(==), V>(e: Entry<K, V>, f: V -> V) returns (e': Entry<K, V>)
    requires Current(e)
    modifies e.Map(), e.Map().buckets
    ensures e' == e && Current(e') && e.Map().buckets == old(e.Map().buckets)
    ensures e.Vacant? ==> e.Map().Model() == old(e.Map().Model())
    ensures e.Occupied? ==>
              var r := e.oentry.value;
              && e.Map().numItems == old(e.Map().numItems)
              && e.Map().Contents == Overwrite(old(e.Map().Contents), r.at, f(old(Deref(r))))
              && Deref(r) == f(old(Deref(r)))
              && Lookup(e.Map().Contents, e.Map().digest, e.Key()) == Some(f(old(Deref(r))))
  {
    e' := e;
    match e
    case Vacant(_) =>
    case Occupied(o) =>
      var m := o.value.hmap;
      var h := o.value.at;
      OverwriteLocated(m.Model(), m.digest, o.key, f(m.Read(h)));
      OverwriteLocate(m.Contents, m.digest, h, f(m.Read(h)), o.key);
      m.WriteValue(h, f(m.Read(h)));
  }

  /**
   * The test `entry_api` (entry.rs:77-98): `entry(3)` of a new map is
   * vacant and `or_insert("hi")` stores "hi"; `entry(3)` is then occupied
   * and `or_insert("hi0")` keeps "hi"; `or_insert_with` on the vacant
   * `entry(2)` stores the closure's "hi". This holds for either way of
   * hashing in `resize`.
   */
  method EntryApi(digest: Digest<int>, how: Hashing)
    returns (vacant: bool, first: string, present: bool, occupied: bool, kept: string, made: string)
    ensures vacant && first == "hi" && present && occupied && kept == "hi" && made == "hi"
  {
    var m := new HashMap<int, string>(digest, how);
    vacant, first, present := EntryApiFirst(m);
    occupied, kept := EntryApiAgain(m);
    made := EntryApiLazy(m);
  }

  /** The first half of `entry_api` (entry.rs:79-87), on a new map. */
  method EntryApiFirst(m: HashMap<int, string>) returns (vacant: bool, first: string, present: bool)
    requires m.Valid() && m.Model() == Store([], 0) && m.buckets == []
    modifies m
    ensures m.Valid() && |m.Contents| > 0
    ensures Lookup(m.Contents, m.digest, 3) == Some("hi") && Lookup(m.Contents, m.digest, 2) == None
    ensures forall i :: 0 <= i < |m.buckets| ==> fresh(m.buckets[i])
    ensures vacant && first == "hi" && present
  {
    var e0 := NewEntry(m, 3);
    vacant := e0.Vacant?;
    assert e0.Map().buckets == [];
    var _ := OrInsert(e0, "hi");
    assert forall i :: 0 <= i < |m.buckets| ==> fresh(m.buckets[i]);
    FirstInsertOther(m.digest, m.how, 3, "hi", 2);
    first := Index(m, 3);
    present := m.ContainsKey(3);
  }

  /**
   * `entry(3)` and `or_insert("hi0")` in `entry_api` (entry.rs:88-95): the
   * entry is occupied, so the map keeps "hi".
   */
  method EntryApiAgain(m: HashMap<int, string>) returns (occupied: bool, kept: string)
    requires m.Valid() && |m.Contents| > 0 && Lookup(m.Contents, m.digest, 3) == Some("hi")
    modifies m, m.buckets
    ensures m.Valid() && m.Contents == old(m.Contents) && m.buckets == old(m.buckets)
    ensures occupied && kept == "hi"
  {
    var e1 := NewEntry(m, 3);
    occupied := e1.Occupied?;
    var _ := OrInsert(e1, "hi0");
    kept := Index(m, 3);
  }

  /**
   * `entry(2).or_insert_with(|| "hi")` in `entry_api` (entry.rs:96-97), on
   * a map where `get(2)` finds nothing: the entry is vacant, and the
   * closure's value is stored.
   */
  method EntryApiLazy(m: HashMap<int, string>) returns (made: string)
    requires m.Valid() && |m.Contents| > 0 && Lookup(m.Contents, m.digest, 2) == None
    modifies m, m.buckets
    ensures made == "hi"
  {
    var e2 := NewEntry(m, 2);
    assert !m.ContainsKey(2);
    var _ := OrInsertWith(e2, () => "hi");
    assert Lookup(m.Contents, m.digest, 2) == Some("hi");
    made := Index(m, 2);
  }

  /**
   * The test `key_and_modify` (entry.rs:100-112): `key()` gives back the
   * key; `and_modify(+1)` then `or_insert(42)` stores 42 for a new key, and
   * the same chain again turns it into 43, for either way of hashing in
   * `resize`.
   */
  method KeyAndModify(digest: Digest<string>, how: Hashing) returns (k: string, first: int, second: int)
    ensures k == "poneyland" && first == 42 && second == 43
  {
    var mapKey := new HashMap<string, int>(digest, how);
    var ek := NewEntry(mapKey, "poneyland");
    k := ek.Key();
    var m := new HashMap<string, int>(digest, how);
    first := ModifyOrInsertNew(m);
    second := ModifyOrInsertAgain(m);
  }

  /**
   * The first `map.entry("poneyland").and_modify(|e| *e += 1).or_insert(42)`
   * and `map["poneyland"]` (entry.rs:107-108), on a new map: the entry is
   * vacant, `and_modify` leaves it so, and 42 is stored.
   */
  method ModifyOrInsertNew(m: HashMap<string, int>) returns (v: int)
    requires m.Valid() && m.Model() == Store([], 0) && m.buckets == []
    modifies m
    ensures m.Valid() && |m.Contents| > 0 && Lookup(m.Contents, m.digest, "poneyland") == Some(42)
    ensures forall i :: 0 <= i < |m.buckets| ==> fresh(m.buckets[i])
    ensures v == 42
  {
    var e := NewEntry(m, "poneyland");
    e := AndModify(e, x => x + 1);
    assert e.Map().buckets == [];
    var _ := OrInsert(e, 42);
    assert forall i :: 0 <= i < |m.buckets| ==> fresh(m.buckets[i]);
    v := Index(m, "poneyland");
  }

  /**
   * The same chain again (entry.rs:110-111), on the map storing 42: the
   * entry is occupied, `and_modify` makes the value 43, and `or_insert(42)`
   * keeps it.
   */
  method ModifyOrInsertAgain(m: HashMap<string, int>) returns (v: int)
    requires m.Valid() && |m.Contents| > 0 && Lookup(m.Contents, m.digest, "poneyland") == Some(42)
    modifies m, m.buckets
    ensures v == 43
  {
    var e := NewEntry(m, "poneyland");
    e := AndModify(e, x => x + 1);
    var _ := OrInsert(e, 42);
    v := Index(m, "poneyland");
  }
}
