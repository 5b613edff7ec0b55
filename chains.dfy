/// A bucket chain of the hash map, seen as a value: the sequence of its
/// key/value entries from head to tail.  The linked implementation in
/// LinkedLists is proved against these functions.
module Chains {

  datatype Option<T> = None | Some(value: T)

  /** The payload of one `SLNode`. */
  datatype Entry<K, V> = Entry(key: K, value: V)

  /** The keys present in a chain. */
  function Keys<K(==), V>(c: seq<Entry<K, V>>): set<K>
  {
    set i | 0 <= i < |c| :: c[i].key
  }

  /** No two entries of the chain share a key. */
  predicate UniqueKeys<K(==), V>(c: seq<Entry<K, V>>)
  {
    forall i, j :: 0 <= i < j < |c| ==> c[i].key != c[j].key
  }

  /** Position of the first entry with key `k` in a head-to-tail walk, or |c| when there is none. */
  function IndexOf<K(==), V>(c: seq<Entry<K, V>>, k: K): (r: nat)
    ensures r <= |c|
    ensures r < |c| ==> c[r].key == k
    ensures forall j :: 0 <= j < r ==> c[j].key != k
    ensures r < |c| <==> k in Keys(c)
  {
    if c == [] then 0
    else if c[0].key == k then 0
    else 1 + IndexOf(c[1..], k)
  }

  /** The chain after the value of its first `k` entry is overwritten with `v`. */
  function SetValue<K(==), V>(c: seq<Entry<K, V>>, k: K, v: V): seq<Entry<K, V>>
    requires k in Keys(c)
  {
    c[IndexOf(c, k) := Entry(k, v)]
  }

  /** The chain after its first `k` entry, if any, is unlinked. */
  function RemoveFirst<K(==), V>(c: seq<Entry<K, V>>, k: K): seq<Entry<K, V>>
  {
    var i := IndexOf(c, k);
    if i < |c| then c[..i] + c[i + 1..] else c
  }

  /** The association a sequence of entries stands for; a later entry overrides an
      earlier one with the same key (in a chain with unique keys there is none). */
  function ToMap<K(==), V>(c: seq<Entry<K, V>>): map<K, V>
  {
    if c == [] then map[]
    else ToMap(c[..|c| - 1])[c[|c| - 1].key := c[|c| - 1].value]
  }

  lemma {:induction false} ToMapKeys<K, V>(c: seq<Entry<K, V>>)
    ensures ToMap(c).Keys == Keys(c)
  {
    if c != [] {
      var c' := c[..|c| - 1];
      ToMapKeys(c');
      assert Keys(c) == Keys(c') + {c[|c| - 1].key} by {
        forall k | k in Keys(c) ensures k in Keys(c') + {c[|c| - 1].key} {
          var i :| 0 <= i < |c| && c[i].key == k;
          if i < |c| - 1 { assert c'[i] == c[i]; }
        }
        forall k | k in Keys(c') ensures k in Keys(c) {
          var i :| 0 <= i < |c'| && c'[i].key == k;
          assert c[i] == c'[i];
        }
      }
    }
  }

  lemma {:induction false} ToMapConcat<K, V>(a: seq<Entry<K, V>>, b: seq<Entry<K, V>>)
    ensures ToMap(a + b) == ToMap(a) + ToMap(b)
  {
    if b == [] {
      assert a + b == a;
    } else {
      var b' := b[..|b| - 1];
      var e := b[|b| - 1];
      assert (a + b)[..|a + b| - 1] == a + b';
      ToMapConcat(a, b');
      assert ToMap(a + b) == (ToMap(a) + ToMap(b'))[e.key := e.value];
    }
  }

  /** Two sequences of entries with disjoint keys, each without repeats, concatenate to one without repeats. */
  lemma {:induction false} UniqueConcat<K, V>(a: seq<Entry<K, V>>, b: seq<Entry<K, V>>)
    requires UniqueKeys(a) && UniqueKeys(b) && Keys(a) !! Keys(b)
    ensures UniqueKeys(a + b)
  {
    forall i, j | 0 <= i < j < |a + b| ensures (a + b)[i].key != (a + b)[j].key {
      if i < |a| && |a| <= j {
        assert (a + b)[i].key in Keys(a);
        assert (a + b)[j].key == b[j - |a|].key;
      }
    }
  }

  /** With unique keys, the association of a chain gives the value its first (only) `k` entry holds. */
  lemma {:induction false} ToMapAt<K, V>(c: seq<Entry<K, V>>, k: K)
    requires UniqueKeys(c) && k in Keys(c)
    ensures k in ToMap(c) && ToMap(c)[k] == c[IndexOf(c, k)].value
  {
    var i := IndexOf(c, k);
    var n := |c|;
    if i == n - 1 {
    } else {
      var c' := c[..n - 1];
      assert c'[i] == c[i];
      assert k in Keys(c');
      assert IndexOf(c', k) == i;
      ToMapAt(c', k);
      assert c[n - 1].key != k;
    }
  }

  /** With unique keys, a chain holds as many entries as its association has keys. */
  lemma {:induction false} ToMapSize<K, V>(c: seq<Entry<K, V>>)
    requires UniqueKeys(c)
    ensures |ToMap(c)| == |c|
  {
    if c != [] {
      var c' := c[..|c| - 1];
      ToMapSize(c');
      ToMapKeys(c');
      assert c[|c| - 1].key !in Keys(c');
    }
  }

  /** `add_front` of a key the chain lacks: the association gains exactly that key. */
  lemma {:induction false} AddFrontMap<K, V>(c: seq<Entry<K, V>>, k: K, v: V)
    requires UniqueKeys(c) && k !in Keys(c)
    ensures UniqueKeys([Entry(k, v)] + c)
    ensures Keys([Entry(k, v)] + c) == Keys(c) + {k}
    ensures ToMap([Entry(k, v)] + c) == ToMap(c)[k := v]
  {
    var c1 := [Entry(k, v)] + c;
    KeysOne(Entry(k, v));
    UniqueConcat([Entry(k, v)], c);
    ToMapConcat([Entry(k, v)], c);
    ToMapKeys(c);
    assert ToMap([Entry(k, v)]) == map[k := v];
    forall x | x in Keys(c1) ensures x in Keys(c) + {k} {
      var i :| 0 <= i < |c1| && c1[i].key == x;
      if i > 0 { assert c1[i] == c[i - 1]; }
    }
    forall x | x in Keys(c) ensures x in Keys(c1) {
      var i :| 0 <= i < |c| && c[i].key == x;
      assert c1[i + 1] == c[i];
    }
    assert c1[0].key == k;
  }

  lemma {:induction false} KeysOne<K, V>(e: Entry<K, V>)
    ensures Keys([e]) == {e.key}
  {
    assert [e][0] == e;
  }

  lemma {:induction false} KeysConcat<K, V>(a: seq<Entry<K, V>>, b: seq<Entry<K, V>>)
    ensures Keys(a + b) == Keys(a) + Keys(b)
  {
    forall x | x in Keys(a + b) ensures x in Keys(a) + Keys(b) {
      var j :| 0 <= j < |a + b| && (a + b)[j].key == x;
      if j < |a| { assert a[j].key == x; } else { assert b[j - |a|].key == x; }
    }
    forall x | x in Keys(a) + Keys(b) ensures x in Keys(a + b) {
      if x in Keys(a) {
        var j :| 0 <= j < |a| && a[j].key == x;
        assert (a + b)[j].key == x;
      } else {
        var j :| 0 <= j < |b| && b[j].key == x;
        assert (a + b)[|a| + j].key == x;
      }
    }
  }

  /** A chain cut around position `i`: its keys and its association in terms of the two sides. */
  lemma {:induction false} SplitAt<K, V>(c: seq<Entry<K, V>>, i: nat)
    requires i < |c|
    ensures c == c[..i] + [c[i]] + c[i + 1..]
    ensures Keys(c) == Keys(c[..i]) + {c[i].key} + Keys(c[i + 1..])
    ensures ToMap(c) == ToMap(c[..i])[c[i].key := c[i].value] + ToMap(c[i + 1..])
  {
    var pre, post := c[..i], c[i + 1..];
    assert c == pre + [c[i]] + post;
    KeysConcat(pre + [c[i]], post);
    KeysConcat(pre, [c[i]]);
    KeysOne(c[i]);
    ToMapConcat(pre + [c[i]], post);
    assert (pre + [c[i]])[..|pre + [c[i]]| - 1] == pre;
  }

  /** In a chain with unique keys, the key at position `i` occurs on neither side of it. */
  lemma {:induction false} UniqueSplit<K, V>(c: seq<Entry<K, V>>, i: nat)
    requires UniqueKeys(c) && i < |c|
    ensures c[i].key !in Keys(c[..i]) && c[i].key !in Keys(c[i + 1..])
    ensures UniqueKeys(c[..i]) && UniqueKeys(c[i + 1..])
    ensures Keys(c[..i]) !! Keys(c[i + 1..])
  {
  }

  /** Overriding one key on the left of a union whose right side lacks it overrides it in the union. */
  lemma {:induction false} UpdateUnion<K, V>(m1: map<K, V>, m2: map<K, V>, k: K, v: V, w: V)
    requires k !in m2
    ensures m1[k := v] + m2 == (m1[k := w] + m2)[k := v]
  {
  }

  /** Overwriting the value of a present key in place: same keys, the association maps `k` to `v`. */
  lemma {:induction false} SetValueMap<K, V>(c: seq<Entry<K, V>>, k: K, v: V)
    requires UniqueKeys(c) && k in Keys(c)
    ensures UniqueKeys(SetValue(c, k, v))
    ensures Keys(SetValue(c, k, v)) == Keys(c)
    ensures ToMap(SetValue(c, k, v)) == ToMap(c)[k := v]
  {
    var i := IndexOf(c, k);
    var c1 := SetValue(c, k, v);
    SplitAt(c, i);
    SplitAt(c1, i);
    assert c1[..i] == c[..i] && c1[i + 1..] == c[i + 1..];
    UniqueSplit(c, i);
    ToMapKeys(c[i + 1..]);
    UpdateUnion(ToMap(c[..i]), ToMap(c[i + 1..]), k, v, c[i].value);
    assert forall a :: 0 <= a < |c1| ==> c1[a].key == c[a].key;
  }

  /** `remove(k)` on a chain with unique keys: `k` is gone and nothing else changes in the association. */
  lemma {:induction false} RemoveFirstMap<K, V>(c: seq<Entry<K, V>>, k: K)
    requires UniqueKeys(c)
    ensures UniqueKeys(RemoveFirst(c, k))
    ensures Keys(RemoveFirst(c, k)) == Keys(c) - {k}
    ensures ToMap(RemoveFirst(c, k)) == ToMap(c) - {k}
  {
    var i := IndexOf(c, k);
    ToMapKeys(c);
    if i < |c| {
      var pre, post := c[..i], c[i + 1..];
      SplitAt(c, i);
      UniqueSplit(c, i);
      KeysConcat(pre, post);
      UniqueConcat(pre, post);
      ToMapConcat(pre, post);
      ToMapKeys(pre);
      ToMapKeys(post);
      RemoveFromUnion(ToMap(pre), ToMap(post), k, c[i].value);
    }
  }

  lemma {:induction false} RemoveFromUnion<K, V>(m1: map<K, V>, m2: map<K, V>, k: K, w: V)
    requires k !in m1 && k !in m2
    ensures m1 + m2 == (m1[k := w] + m2) - {k}
  {
  }
}
