/// The bucket array of the hash map, seen as a value: a sequence of chains,
/// one per bucket.  These functions say what each HashMap operation does to
/// the table, and the lemmas say what that means for the key/value map the
/// table stands for.
module Tables {
  import opened Chains

  type Table<K, V> = seq<seq<Entry<K, V>>>

  /** The bucket of key `k` in a table of `n` buckets: `hash(key) % capacity`.
      Python's `%` with a positive divisor, like Dafny's, is never negative. */
  function Slot<K>(h: K -> int, k: K, n: int): (i: nat)
    requires n > 0
    ensures i < n
  {
    h(k) % n
  }

  /** `n` empty chains, as the constructor builds them. */
  function Empty<K, V>(n: nat): (t: Table<K, V>)
    ensures |t| == n
    ensures forall i :: 0 <= i < n ==> t[i] == []
  {
    seq(n, _ => [])
  }

  /** All entries of the table, bucket by bucket, each chain from head to tail. */
  function Entries<K, V>(t: Table<K, V>): seq<Entry<K, V>>
  {
    if t == [] then [] else Entries(t[..|t| - 1]) + t[|t| - 1]
  }

  /** The key/value map the table stands for. */
  function Map<K(==), V>(t: Table<K, V>): map<K, V>
  {
    ToMap(Entries(t))
  }

  /** Every key sits in bucket `hash(key) % n`. */
  ghost predicate PlacedIn<K, V>(t: Table<K, V>, h: K -> int, n: int)
  {
    n > 0 &&
    forall i, j :: 0 <= i < |t| && 0 <= j < |t[i]| ==> h(t[i][j].key) % n == i
  }

  /** The invariant of a hash table: at least one bucket, every key in its own
      bucket, and no key twice in a chain (hence nowhere twice in the table). */
  ghost predicate WellFormed<K, V>(t: Table<K, V>, h: K -> int)
  {
    |t| > 0 && PlacedIn(t, h, |t|) &&
    forall i :: 0 <= i < |t| ==> UniqueKeys(t[i])
  }

  /** `put(k, v)`: overwrite the value of `k` in its chain when it is there,
      otherwise add `(k, v)` at the front of that chain. */
  function Put<K(==), V>(t: Table<K, V>, h: K -> int, k: K, v: V): Table<K, V>
    requires |t| > 0
  {
    var i := Slot(h, k, |t|);
    if k in Keys(t[i]) then t[i := SetValue(t[i], k, v)]
    else t[i := [Entry(k, v)] + t[i]]
  }

  /** `remove(k)`: unlink `k` from its chain, if it is there. */
  function Remove<K(==), V>(t: Table<K, V>, h: K -> int, k: K): Table<K, V>
    requires |t| > 0
  {
    var i := Slot(h, k, |t|);
    t[i := RemoveFirst(t[i], k)]
  }

  /** `put` of every entry of `es`, first to last. */
  function PutAll<K(==), V>(t: Table<K, V>, h: K -> int, es: seq<Entry<K, V>>): (r: Table<K, V>)
    requires |t| > 0
    ensures |r| == |t|
  {
    if es == [] then t
    else
      var last := es[|es| - 1];
      Put(PutAll(t, h, es[..|es| - 1]), h, last.key, last.value)
  }

  /** `resize_table(n)`: a fresh table of `n` buckets into which every entry of
      the old one is put, bucket by bucket, each chain from head to tail. */
  function Rehash<K(==), V>(t: Table<K, V>, h: K -> int, n: int): Table<K, V>
    requires n > 0
  {
    PutAll(Empty(n), h, Entries(t))
  }

  /** The number of buckets whose chain is empty. */
  function EmptyCount<K, V>(t: Table<K, V>): (r: nat)
    ensures r <= |t|
  {
    if t == [] then 0
    else EmptyCount(t[..|t| - 1]) + (if t[|t| - 1] == [] then 1 else 0)
  }

  // ---------------------------------------------------------------------
  // Flattening

  lemma {:induction false} EntriesConcat<K, V>(a: Table<K, V>, b: Table<K, V>)
    ensures Entries(a + b) == Entries(a) + Entries(b)
  {
    if b == [] {
      assert a + b == a;
    } else {
      var b', c := b[..|b| - 1], b[|b| - 1];
      assert (a + b)[..|a + b| - 1] == a + b' && (a + b)[|a + b| - 1] == c;
      EntriesConcat(a, b');
      calc {
        Entries(a + b);
        Entries(a + b') + c;
        (Entries(a) + Entries(b')) + c;
        Entries(a) + (Entries(b') + c);
        Entries(a) + Entries(b);
      }
    }
  }

  /** The entries of a table are those before bucket `i`, then chain `i`, then those after. */
  lemma {:induction false} EntriesAt<K, V>(t: Table<K, V>, i: nat)
    requires i < |t|
    ensures Entries(t) == Entries(t[..i]) + t[i] + Entries(t[i + 1..])
  {
    var a, b := t[..i], t[i + 1..];
    assert t == (a + [t[i]]) + b;
    EntriesConcat(a + [t[i]], b);
    EntriesConcat(a, [t[i]]);
    EntriesOne(t[i]);
  }

  lemma {:induction false} EntriesOne<K, V>(c: seq<Entry<K, V>>)
    ensures Entries([c]) == c
  {
    assert [c][..0] == [];
  }

  /** A key among the entries of a table is in one of its buckets. */
  lemma {:induction false} EntriesKeys<K, V>(t: Table<K, V>, k: K)
    requires k in Keys(Entries(t))
    ensures exists b :: 0 <= b < |t| && k in Keys(t[b])
  {
    var t' := t[..|t| - 1];
    KeysConcat(Entries(t'), t[|t| - 1]);
    if k in Keys(Entries(t')) {
      EntriesKeys(t', k);
      var b :| 0 <= b < |t'| && k in Keys(t'[b]);
      assert t[b] == t'[b];
    }
  }

  /** The empty table has no entries. */
  lemma {:induction false} EmptyEntries<K, V>(n: nat)
    ensures Entries(Empty<K, V>(n)) == []
  {
    if n > 0 {
      assert Empty<K, V>(n)[..n - 1] == Empty<K, V>(n - 1);
      EmptyEntries<K, V>(n - 1);
    }
  }

  // ---------------------------------------------------------------------
  // Placement: what a key's bucket says about the whole map

  /** In a placed table the keys outside bucket `Slot(h, k)` are all different from `k`,
      so the map of the table splits around that bucket. */
  lemma {:induction false} SlotSplit<K, V>(t: Table<K, V>, h: K -> int, k: K)
    requires |t| > 0 && PlacedIn(t, h, |t|)
    ensures var i := Slot(h, k, |t|);
      && Entries(t) == Entries(t[..i]) + t[i] + Entries(t[i + 1..])
      && Map(t) == ToMap(Entries(t[..i])) + ToMap(t[i]) + ToMap(Entries(t[i + 1..]))
      && k !in ToMap(Entries(t[..i])) && k !in ToMap(Entries(t[i + 1..]))
  {
    var i := Slot(h, k, |t|);
    EntriesAt(t, i);
    ToMapConcat(Entries(t[..i]) + t[i], Entries(t[i + 1..]));
    ToMapConcat(Entries(t[..i]), t[i]);
    ToMapKeys(Entries(t[..i]));
    ToMapKeys(Entries(t[i + 1..]));
    if k in Keys(Entries(t[..i])) {
      EntriesKeys(t[..i], k);
    }
    if k in Keys(Entries(t[i + 1..])) {
      EntriesKeys(t[i + 1..], k);
    }
  }

  /** `get(k)` and `contains_key(k)` look only at bucket `Slot(h, k)`: in a
      well-formed table `k` is in the map exactly when that chain holds it, with
      the value of its (only) entry there. */
  lemma {:induction false} LookupAtSlot<K, V>(t: Table<K, V>, h: K -> int, k: K)
    requires WellFormed(t, h)
    ensures var c := t[Slot(h, k, |t|)];
      && (k in Map(t) <==> k in Keys(c))
      && (k in Keys(c) ==> Map(t)[k] == c[IndexOf(c, k)].value)
  {
    var i := Slot(h, k, |t|);
    SlotSplit(t, h, k);
    ToMapKeys(t[i]);
    if k in Keys(t[i]) {
      ToMapAt(t[i], k);
    }
  }

  /** Replacing the chain of `k`'s bucket by one with the same placement: the
      map changes only in what the chain says about `k`. */
  lemma {:induction false} ReplaceSlot<K, V>(t: Table<K, V>, h: K -> int, k: K, c: seq<Entry<K, V>>)
    requires |t| > 0 && PlacedIn(t, h, |t|)
    requires forall j :: 0 <= j < |c| ==> Slot(h, c[j].key, |t|) == Slot(h, k, |t|)
    ensures var i := Slot(h, k, |t|);
      && PlacedIn(t[i := c], h, |t|)
      && |Entries(t[i := c])| == |Entries(t)| - |t[i]| + |c|
      && Map(t[i := c]) == ToMap(Entries(t[..i])) + ToMap(c) + ToMap(Entries(t[i + 1..]))
  {
    var i := Slot(h, k, |t|);
    var t1 := t[i := c];
    assert t1[..i] == t[..i] && t1[i + 1..] == t[i + 1..];
    SlotSplit(t, h, k);
    EntriesAt(t1, i);
    ToMapConcat(Entries(t1[..i]) + t1[i], Entries(t1[i + 1..]));
    ToMapConcat(Entries(t1[..i]), t1[i]);
  }

  // ---------------------------------------------------------------------
  // The operations on the abstract map

  /** A chain whose keys all belong in `k`'s bucket and are unique may replace that bucket. */
  lemma {:induction false} ReplaceWellFormed<K, V>(t: Table<K, V>, h: K -> int, k: K, c: seq<Entry<K, V>>)
    requires WellFormed(t, h) && UniqueKeys(c)
    requires forall j :: 0 <= j < |c| ==> Slot(h, c[j].key, |t|) == Slot(h, k, |t|)
    ensures WellFormed(t[Slot(h, k, |t|) := c], h)
  {
    ReplaceSlot(t, h, k, c);
  }

  /** `put(k, v)` keeps the table well formed, maps `k` to `v` and leaves every
      other key as it was; the entry count grows by one exactly when `k` was new. */
  lemma {:induction false} PutMap<K, V>(t: Table<K, V>, h: K -> int, k: K, v: V)
    requires WellFormed(t, h)
    ensures WellFormed(Put(t, h, k, v), h)
    ensures Map(Put(t, h, k, v)) == Map(t)[k := v]
    ensures |Entries(Put(t, h, k, v))| == |Entries(t)| + (if k in Map(t) then 0 else 1)
  {
    var i := Slot(h, k, |t|);
    var c := t[i];
    LookupAtSlot(t, h, k);
    if k in Keys(c) {
      PutPresent(t, h, k, v);
    } else {
      PutAbsent(t, h, k, v);
    }
  }

  lemma {:induction false} PutPresent<K, V>(t: Table<K, V>, h: K -> int, k: K, v: V)
    requires WellFormed(t, h)
    requires k in Keys(t[Slot(h, k, |t|)])
    ensures WellFormed(Put(t, h, k, v), h)
    ensures Map(Put(t, h, k, v)) == Map(t)[k := v]
    ensures |Entries(Put(t, h, k, v))| == |Entries(t)|
  {
    var i := Slot(h, k, |t|);
    var c := t[i];
    var c1 := SetValue(c, k, v);
    SetValueMap(c, k, v);
    assert forall j :: 0 <= j < |c1| ==> c1[j].key == c[j].key;
    ReplaceWellFormed(t, h, k, c1);
    SlotSplit(t, h, k);
    ReplaceSlot(t, h, k, c1);
    UpdateUnionMiddle(ToMap(Entries(t[..i])), ToMap(c), ToMap(Entries(t[i + 1..])), k, v);
  }

  lemma {:induction false} PutAbsent<K, V>(t: Table<K, V>, h: K -> int, k: K, v: V)
    requires WellFormed(t, h)
    requires k !in Keys(t[Slot(h, k, |t|)])
    ensures WellFormed(Put(t, h, k, v), h)
    ensures Map(Put(t, h, k, v)) == Map(t)[k := v]
    ensures |Entries(Put(t, h, k, v))| == |Entries(t)| + 1
  {
    var i := Slot(h, k, |t|);
    var c := t[i];
    var c1 := [Entry(k, v)] + c;
    AddFrontMap(c, k, v);
    forall j | 0 <= j < |c1| ensures Slot(h, c1[j].key, |t|) == i {
      if j > 0 { assert c1[j] == c[j - 1]; }
    }
    ReplaceWellFormed(t, h, k, c1);
    SlotSplit(t, h, k);
    ReplaceSlot(t, h, k, c1);
    UpdateUnionMiddle(ToMap(Entries(t[..i])), ToMap(c), ToMap(Entries(t[i + 1..])), k, v);
  }

  /** `remove(k)` keeps the table well formed and deletes exactly `k` from the
      map; the entry count drops by one exactly when `k` was there. */
  lemma {:induction false} RemoveMap<K, V>(t: Table<K, V>, h: K -> int, k: K)
    requires WellFormed(t, h)
    ensures WellFormed(Remove(t, h, k), h)
    ensures Map(Remove(t, h, k)) == Map(t) - {k}
    ensures |Entries(Remove(t, h, k))| == |Entries(t)| - (if k in Map(t) then 1 else 0)
  {
    var i := Slot(h, k, |t|);
    var c := t[i];
    var c1 := RemoveFirst(c, k);
    LookupAtSlot(t, h, k);
    RemoveFirstMap(c, k);
    forall j | 0 <= j < |c1| ensures Slot(h, c1[j].key, |t|) == i {
      assert c1[j].key in Keys(c1);
    }
    ReplaceWellFormed(t, h, k, c1);
    RemoveSize(c, k);
    SlotSplit(t, h, k);
    ReplaceSlot(t, h, k, c1);
    RemoveFromUnionMiddle(ToMap(Entries(t[..i])), ToMap(c), ToMap(Entries(t[i + 1..])), k);
  }

  lemma {:induction false} RemoveSize<K, V>(c: seq<Entry<K, V>>, k: K)
    requires UniqueKeys(c)
    ensures |RemoveFirst(c, k)| == |c| - (if k in Keys(c) then 1 else 0)
  {
  }

  lemma {:induction false} UpdateUnionMiddle<K, V>(a: map<K, V>, b: map<K, V>, c: map<K, V>, k: K, v: V)
    requires k !in c
    ensures a + b[k := v] + c == (a + b + c)[k := v]
  {
  }

  lemma {:induction false} RemoveFromUnionMiddle<K, V>(a: map<K, V>, b: map<K, V>, c: map<K, V>, k: K)
    requires k !in a && k !in c
    ensures a + (b - {k}) + c == (a + b + c) - {k}
  {
  }

  /** A well-formed table holds each key once: the entry count is the size of its map. */
  lemma {:induction false} SizeIsMapSize<K, V>(t: Table<K, V>, h: K -> int)
    requires WellFormed(t, h)
    ensures |Map(t)| == |Entries(t)|
  {
    EntriesUnique(t, h, |t|);
    ToMapSize(Entries(t));
  }

  /** Keys are unique across the whole table, not only within one chain. */
  lemma {:induction false} EntriesUnique<K, V>(t: Table<K, V>, h: K -> int, n: int)
    requires PlacedIn(t, h, n)
    requires forall i :: 0 <= i < |t| ==> UniqueKeys(t[i])
    ensures UniqueKeys(Entries(t))
  {
    if t != [] {
      var m := |t| - 1;
      var t' := t[..m];
      EntriesUnique(t', h, n);
      forall k | k in Keys(Entries(t')) && k in Keys(t[m]) ensures false {
        EntriesKeys(t', k);
      }
      UniqueConcat(Entries(t'), t[m]);
    }
  }

  /** Putting a sequence of entries into a well-formed table overrides its map with theirs. */
  lemma {:induction false} PutAllMap<K, V>(t: Table<K, V>, h: K -> int, es: seq<Entry<K, V>>)
    requires WellFormed(t, h)
    ensures WellFormed(PutAll(t, h, es), h)
    ensures Map(PutAll(t, h, es)) == Map(t) + ToMap(es)
  {
    if es != [] {
      var es' := es[..|es| - 1];
      var last := es[|es| - 1];
      PutAllMap(t, h, es');
      PutMap(PutAll(t, h, es'), h, last.key, last.value);
    }
  }

  /** Putting one more entry after `es` is one more `put`. */
  lemma PutAllSnoc<K, V>(t: Table<K, V>, h: K -> int, es: seq<Entry<K, V>>, e: Entry<K, V>)
    requires |t| > 0
    ensures PutAll(t, h, es + [e]) == Put(PutAll(t, h, es), h, e.key, e.value)
  {
    assert (es + [e])[..|es|] == es;
  }

  /** Putting `a` and then `b` is putting `a + b`: a rehash can go chain by chain. */
  lemma {:induction false} PutAllConcat<K, V>(t: Table<K, V>, h: K -> int, a: seq<Entry<K, V>>, b: seq<Entry<K, V>>)
    requires |t| > 0
    ensures PutAll(t, h, a + b) == PutAll(PutAll(t, h, a), h, b)
  {
    if b == [] {
      assert a + b == a;
    } else {
      var b' := b[..|b| - 1];
      assert (a + b)[..|a + b| - 1] == a + b';
      PutAllConcat(t, h, a, b');
    }
  }

  /** `resize_table(n)` yields a well-formed table of `n` buckets holding exactly
      the same key/value pairs, hence the same number of entries. */
  lemma {:induction false} RehashMap<K, V>(t: Table<K, V>, h: K -> int, n: int)
    requires WellFormed(t, h) && n > 0
    ensures |Rehash(t, h, n)| == n
    ensures WellFormed(Rehash(t, h, n), h)
    ensures Map(Rehash(t, h, n)) == Map(t)
    ensures |Entries(Rehash(t, h, n))| == |Entries(t)|
  {
    EmptyEntries<K, V>(n);
    PutAllMap(Empty<K, V>(n), h, Entries(t));
    SizeIsMapSize(t, h);
    SizeIsMapSize(Rehash(t, h, n), h);
  }

  /** The empty table: well formed, no entries, every bucket empty. */
  lemma {:induction false} EmptyTable<K, V>(h: K -> int, n: nat)
    requires n > 0
    ensures WellFormed(Empty<K, V>(n), h)
    ensures Map(Empty<K, V>(n)) == map[]
    ensures EmptyCount(Empty<K, V>(n)) == n
  {
    EmptyEntries<K, V>(n);
    EmptyCountAll<K, V>(n);
  }

  lemma {:induction false} EmptyCountAll<K, V>(n: nat)
    ensures EmptyCount(Empty<K, V>(n)) == n
  {
    if n > 0 {
      assert Empty<K, V>(n)[..n - 1] == Empty<K, V>(n - 1);
      EmptyCountAll<K, V>(n - 1);
    }
  }

  /** At least `capacity - entries` buckets are empty, and all of them are
      empty exactly when the table holds no entry. */
  lemma {:induction false} EmptyCountBounds<K, V>(t: Table<K, V>)
    ensures |t| - |Entries(t)| <= EmptyCount(t)
    ensures EmptyCount(t) == |t| <==> Entries(t) == []
  {
    if t != [] {
      EmptyCountBounds(t[..|t| - 1]);
    }
  }
}
