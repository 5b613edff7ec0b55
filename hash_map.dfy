/// The hash map: a sequence of bucket chains (`LinkedList`s) indexed by
/// `hash(key) % capacity`.  The ghost `Chains` is the table the buckets hold,
/// and every method is proved against the table functions of module Tables,
/// whose lemmas say what each operation does to the key/value map.
module HashMaps {
  import opened Chains
  import opened LinkedLists
  import opened Tables
  import Hashing

  /** The buckets `bs` are valid chains holding the table `t`, no two sharing
      an object, all inside the footprint `fp`. */
  ghost predicate BucketsHold<K(!new), V(!new)>(bs: seq<LinkedList<K, V>>, t: Table<K, V>, fp: set<object>)
    reads fp
  {
    |bs| == |t| &&
    (forall i :: 0 <= i < |bs| ==> bs[i] in fp) &&
    (forall i :: 0 <= i < |bs| ==> bs[i].Repr <= fp) &&
    (forall i {:trigger bs[i].Valid()} :: 0 <= i < |bs| ==> bs[i].Valid()) &&
    (forall i :: 0 <= i < |bs| ==> bs[i].Contents == t[i]) &&
    (forall i, j :: 0 <= i < j < |bs| ==> bs[i].Repr !! bs[j].Repr)
  }

  /** The bucket part of `put`: when bucket `i` holds `key`, walk to its node
      and overwrite the value in place, otherwise add a node at the front.  The
      other buckets are untouched, so the buckets hold the table with chain `i`
      replaced; `added` tells whether a node was added. */
  method PutInBucket<K(==, !new), V(!new)>(bs: seq<LinkedList<K, V>>, ghost t: Table<K, V>, ghost fp: set<object>,
                               ghost h: K -> int, i: nat, key: K, value: V) returns (added: bool)
    requires BucketsHold(bs, t, fp) && |t| > 0 && i == Slot(h, key, |t|)
    modifies bs[i].Repr
    ensures fresh(bs[i].Repr - old(bs[i].Repr)) && old(bs[i].Repr) <= bs[i].Repr
    ensures BucketsHold(bs, Tables.Put(t, h, key, value), fp + bs[i].Repr)
    ensures added <==> key !in Keys(t[i])
  {
    var bucket := bs[i];
    var found := bucket.Contains(key);
    if found != null {
      var current := bucket.head;
      ghost var j := 0;
      ghost var at := IndexOf(bucket.Contents, key);
      while current.key != key
        modifies {}
        invariant 0 <= j <= at
        invariant current == bucket.Nodes[j]
        decreases at - j
      {
        bucket.NextOf(j);
        current := current.next;
        j := j + 1;
      }
      OverwriteInBucket(bs, t, fp, i, current, j, key, value);
      added := false;
    } else {
      AddFrontInBucket(bs, t, fp, i, key, value);
      added := true;
    }
  }

  /** `current.value = value` on node `j` of bucket `i`, the first node holding its key. */
  method OverwriteInBucket<K(==, !new), V(!new)>(bs: seq<LinkedList<K, V>>, ghost t: Table<K, V>, ghost fp: set<object>,
                                     i: nat, node: SLNode<K, V>, ghost j: nat, ghost key: K, value: V)
    requires BucketsHold(bs, t, fp) && i < |bs|
    requires j < |bs[i].Nodes| && node == bs[i].Nodes[j] && j == IndexOf(t[i], key)
    modifies bs[i].Repr
    ensures key in Keys(t[i]) && bs[i].Repr == old(bs[i].Repr)
    ensures BucketsHold(bs, t[i := bs[i].Contents], fp)
    ensures bs[i].Contents == SetValue(t[i], key, value)
  {
    assert bs[i].Valid();
    bs[i].Overwrite(node, j, value);
  }

  /** `add_front(key, value)` on bucket `i`. */
  method AddFrontInBucket<K(==, !new), V(!new)>(bs: seq<LinkedList<K, V>>, ghost t: Table<K, V>, ghost fp: set<object>,
                                    i: nat, key: K, value: V)
    requires BucketsHold(bs, t, fp) && i < |bs|
    modifies bs[i]
    ensures fresh(bs[i].Repr - old(bs[i].Repr)) && old(bs[i].Repr) <= bs[i].Repr
    ensures BucketsHold(bs, t[i := bs[i].Contents], fp + bs[i].Repr)
    ensures bs[i].Contents == [Entry(key, value)] + t[i]
  {
    assert bs[i].Valid();
    bs[i].AddFront(key, value);
  }

  /** The bucket part of `remove`: bucket `i` unlinks its first `key` node, the
      other buckets are untouched; `removed` tells whether there was one. */
  method RemoveFromBucket<K(==, !new), V(!new)>(bs: seq<LinkedList<K, V>>, ghost t: Table<K, V>, ghost fp: set<object>,
                                    i: nat, key: K) returns (removed: bool)
    requires BucketsHold(bs, t, fp) && i < |bs|
    modifies bs[i].Repr
    ensures BucketsHold(bs, t[i := RemoveFirst(t[i], key)], fp)
    ensures removed <==> key in Keys(t[i])
  {
    assert bs[i].Valid();
    removed := bs[i].Remove(key);
    forall j | 0 <= j < |bs|
      ensures bs[j].Repr == old(bs[j].Repr)
      ensures j != i ==> bs[j].Valid() && bs[j].Contents == t[j]
    {
      assert old(bs[j].Valid());
    }
  }

  class HashMap<K(==, !new), V(!new)> {
    var buckets: seq<LinkedList<K, V>>
    var capacity: int
    const hashFunction: K -> int
    var size: int

    ghost var Chains: Table<K, V>
    ghost var Repr: set<object>
    ghost var BucketsRepr: set<object>

    /** One valid chain per bucket, no two sharing an object, holding the
        table `Chains`; with at least one bucket the table is well formed;
        `size` counts its entries. */
    ghost predicate Valid()
      reads this, Repr
    {
      Repr == {this} + BucketsRepr && this !in BucketsRepr &&
      BucketsHold(buckets, Chains, BucketsRepr) &&
      |buckets| == capacity &&
      (capacity > 0 ==> WellFormed(Chains, hashFunction)) &&
      size == |Entries(Chains)|
    }

    /** The key/value map the hash map stands for. */
    ghost function Model(): map<K, V>
      reads this
    {
      Map(Chains)
    }

    /** `capacity` new, empty chains, as `__init__` appends them. */
    static method NewBuckets(capacity: nat) returns (bs: seq<LinkedList<K, V>>, ghost r: set<object>)
      ensures fresh(r) && BucketsHold(bs, Empty(capacity), r)
    {
      bs, r := [], {};
      for i := 0 to capacity
        invariant fresh(r) && BucketsHold(bs, Empty(i), r)
      {
        var list := new LinkedList();
        bs, r := bs + [list], r + list.Repr;
        assert Empty<K, V>(i + 1) == Empty<K, V>(i) + [[]];
      }
    }

    /** `__init__`: `capacity` empty buckets and a size of zero. */
    constructor (capacity: nat, hash: K -> int)
      ensures Valid() && fresh(Repr)
      ensures this.capacity == capacity && hashFunction == hash
      ensures Chains == Empty(capacity) && size == 0 && Model() == map[]
    {
      var bs;
      ghost var r;
      bs, r := NewBuckets(capacity);
      buckets := bs;
      this.capacity := capacity;
      hashFunction := hash;
      size := 0;
      Chains := Empty(capacity);
      Repr := {this} + r;
      BucketsRepr := r;
      new;
      EmptyEntries<K, V>(capacity);
      if capacity > 0 {
        EmptyTable<K, V>(hash, capacity);
      }
    }

    /** `clear`: the buckets are built afresh with the same capacity and hash function. */
    method Clear()
      requires Valid()
      modifies this
      ensures Valid() && fresh(Repr - old(Repr))
      ensures capacity == old(capacity)
      ensures Chains == Empty(capacity) && size == 0 && Model() == map[]
    {
      var bs;
      ghost var r;
      bs, r := NewBuckets(capacity);
      buckets := bs;
      size := 0;
      Chains := Empty(capacity);
      Repr := {this} + r;
      BucketsRepr := r;
      EmptyEntries<K, V>(capacity);
      if capacity > 0 {
        EmptyTable<K, V>(hashFunction, capacity);
      }
    }

    /** `get`: the value stored under `key`, or None when the key is absent. */
    method Get(key: K) returns (r: Option<V>)
      requires Valid() && capacity > 0
      ensures r == if key in Model() then Some(Model()[key]) else None
    {
      var index := hashFunction(key) % capacity;
      LookupAtSlot(Chains, hashFunction, key);
      var node := buckets[index].Contains(key);
      if node == null {
        return None;
      }
      node := buckets[index].Contains(key);
      return Some(node.value);
    }

    /** `contains_key`: whether some entry holds `key`. */
    method ContainsKey(key: K) returns (b: bool)
      requires Valid() && capacity > 0
      ensures b <==> key in Model()
    {
      var index := hashFunction(key) % capacity;
      LookupAtSlot(Chains, hashFunction, key);
      var node := buckets[index].Contains(key);
      if node != null {
        return true;
      } else {
        return false;
      }
    }

    /** `resize_table`: a new map of `newCapacity` buckets receives a `put` of
        every node, bucket by bucket and each chain from head to tail, and its
        buckets replace the old ones.  `size` is left as it was, and stays right. */
    method ResizeTable(newCapacity: int)
      requires Valid() && newCapacity > 0
      modifies this
      ensures Valid() && fresh(Repr - old(Repr))
      ensures capacity == newCapacity
      ensures Chains == Rehash(old(Chains), hashFunction, newCapacity)
      ensures Model() == old(Model()) && size == old(size)
    {
      var newMap := new HashMap(newCapacity, hashFunction);
      ghost var t := Chains;
      newMap.PutBuckets(buckets, t, BucketsRepr);
      var newBuckets := newMap.buckets;
      ghost var newChains, newRepr := newMap.Chains, newMap.BucketsRepr;
      assert newChains == Rehash(t, hashFunction, newCapacity);
      if capacity > 0 {
        RehashMap(t, hashFunction, newCapacity);
      } else {
        assert Entries(t) == [];
        EmptyEntries<K, V>(newCapacity);
        EmptyTable<K, V>(hashFunction, newCapacity);
      }
      assert WellFormed(newChains, hashFunction) && size == |Entries(newChains)|;
      Install(newBuckets, newMap.capacity, size, newChains, newRepr);
    }

    /** The map takes over a bucket array holding table `t` with `count`
        entries: the field writes that end `put`, `remove` and `resize_table`. */
    method Install(bs: seq<LinkedList<K, V>>, n: int, count: int, ghost t: Table<K, V>, ghost fp: set<object>)
      requires BucketsHold(bs, t, fp) && this !in fp && |bs| == n > 0
      requires WellFormed(t, hashFunction) && count == |Entries(t)|
      modifies this
      ensures Valid() && Repr == {this} + fp
      ensures buckets == bs && capacity == n && Chains == t && size == count
    {
      buckets, capacity, size, Chains, BucketsRepr, Repr := bs, n, count, t, fp, {this} + fp;
    }

    /** The walk over the old buckets in `resize_table`: every chain of `bs`,
        first bucket to last, goes through `PutChain`. */
    method PutBuckets(bs: seq<LinkedList<K, V>>, ghost t: Table<K, V>, ghost fp: set<object>)
      requires Valid() && capacity > 0 && BucketsHold(bs, t, fp) && fp !! Repr
      modifies Repr
      ensures Valid() && fresh(Repr - old(Repr))
      ensures capacity == old(capacity)
      ensures Chains == PutAll(old(Chains), hashFunction, Entries(t))
    {
      ghost var es: seq<Entry<K, V>> := [];
      for b := 0 to |bs|
        invariant Valid() && fresh(Repr - old(Repr)) && capacity == old(capacity)
        invariant fp !! Repr && BucketsHold(bs, t, fp)
        invariant es == Entries(t[..b])
        invariant Chains == PutAll(old(Chains), hashFunction, es)
      {
        assert bs[b].Valid();
        PutChain(bs[b]);
        PutAllConcat(old(Chains), hashFunction, es, t[b]);
        assert t[..b + 1][..b] == t[..b];
        es := es + t[b];
      }
      assert t[..|t|] == t;
    }

    /** The walk over one old bucket in `resize_table`: a `put` of every node
        of `list`, from head to tail. */
    method PutChain(list: LinkedList<K, V>)
      requires Valid() && capacity > 0 && list.Valid() && list.Repr !! Repr
      modifies Repr
      ensures Valid() && fresh(Repr - old(Repr))
      ensures capacity == old(capacity)
      ensures Chains == PutAll(old(Chains), hashFunction, list.Contents)
    {
      var current := list.head;
      ghost var j := 0;
      while current != null
        invariant 0 <= j <= |list.Nodes|
        invariant current == if j < |list.Nodes| then list.Nodes[j] else null
        invariant Valid() && fresh(Repr - old(Repr)) && capacity == old(capacity)
        invariant Chains == PutAll(old(Chains), hashFunction, list.Contents[..j])
        decreases |list.Nodes| - j
      {
        assert list.Valid();
        list.NextOf(j);
        var key, value := current.key, current.value;
        ghost var e := list.Contents[j];
        assert key == e.key && value == e.value;
        assert list.Contents[..j + 1] == list.Contents[..j] + [e];
        PutAllSnoc(old(Chains), hashFunction, list.Contents[..j], e);
        current := current.next;
        Put(key, value);
        j := j + 1;
      }
      assert list.Contents[..j] == list.Contents;
    }

    /** `put`: overwrite the value of `key` in place when its bucket holds it,
        otherwise add a node at the front of that bucket and count it. */
    method Put(key: K, value: V)
      requires Valid() && capacity > 0
      modifies Repr
      ensures Valid() && fresh(Repr - old(Repr))
      ensures buckets == old(buckets) && capacity == old(capacity)
      ensures Chains == Tables.Put(old(Chains), hashFunction, key, value)
      ensures Model() == old(Model())[key := value]
      ensures size == old(size) + (if key in old(Model()) then 0 else 1)
    {
      var index := hashFunction(key) % capacity;
      ghost var t := Chains;
      assert index == Slot(hashFunction, key, |t|);
      LookupAtSlot(t, hashFunction, key);
      PutMap(t, hashFunction, key, value);
      var added := PutInBucket(buckets, t, BucketsRepr, hashFunction, index, key, value);
      Install(buckets, capacity, if added then size + 1 else size,
              Tables.Put(t, hashFunction, key, value), BucketsRepr + buckets[index].Repr);
    }

    /** `remove`: unlink `key` from its bucket; `size` drops only when a node was unlinked. */
    method Remove(key: K)
      requires Valid() && capacity > 0
      modifies Repr
      ensures Valid() && Repr == old(Repr)
      ensures buckets == old(buckets) && capacity == old(capacity)
      ensures Chains == Tables.Remove(old(Chains), hashFunction, key)
      ensures Model() == old(Model()) - {key}
      ensures size == old(size) - (if key in old(Model()) then 1 else 0)
    {
      var index := hashFunction(key) % capacity;
      ghost var t := Chains;
      assert index == Slot(hashFunction, key, |t|);
      LookupAtSlot(t, hashFunction, key);
      RemoveMap(t, hashFunction, key);
      assert Tables.Remove(t, hashFunction, key) == t[index := RemoveFirst(t[index], key)];
      var removed := RemoveFromBucket(buckets, t, BucketsRepr, index, key);
      Install(buckets, capacity, if removed then size - 1 else size,
              Tables.Remove(t, hashFunction, key), BucketsRepr);
    }

    /** `empty_buckets`: the number of buckets without a node.  At least
        `capacity - size` of them, and all of them exactly when the map is empty. */
    method EmptyBuckets() returns (count: int)
      requires Valid()
      ensures count == EmptyCount(Chains)
      ensures capacity - size <= count <= capacity
      ensures count == capacity <==> size == 0
    {
      count := 0;
      for b := 0 to |buckets|
        invariant count == EmptyCount(Chains[..b])
      {
        assert buckets[b].Valid();
        if buckets[b].head == null {
          count := count + 1;
        }
        assert Chains[..b + 1][..b] == Chains[..b];
      }
      assert Chains[..|buckets|] == Chains;
      EmptyCountBounds(Chains);
    }

    /** `element_count`: the nodes of all buckets, counted one by one; this is
        `size`, and the number of keys in the map. */
    method ElementCount() returns (count: int)
      requires Valid()
      ensures count == |Entries(Chains)|
      ensures count == size && count == |Model()|
    {
      count := 0;
      for b := 0 to |buckets|
        invariant count == |Entries(Chains[..b])|
      {
        assert buckets[b].Valid();
        var current := buckets[b].head;
        ghost var j := 0;
        while current != null
          invariant 0 <= j <= |Chains[b]|
          invariant current == if j < |Chains[b]| then buckets[b].Nodes[j] else null
          invariant count == |Entries(Chains[..b])| + j
          decreases |Chains[b]| - j
        {
          buckets[b].NextOf(j);
          count := count + 1;
          current := current.next;
          j := j + 1;
        }
        assert Chains[..b + 1][..b] == Chains[..b];
      }
      assert Chains[..|buckets|] == Chains;
      if capacity > 0 {
        SizeIsMapSize(Chains, hashFunction);
      }
    }

    /** `table_load`: entries per bucket, as an exact ratio. */
    method TableLoad() returns (load: real)
      requires Valid() && capacity > 0
      ensures load == (|Model()| as real) / (capacity as real)
    {
      var count := ElementCount();
      load := (count as real) / (capacity as real);
    }
  }
}

