/// The bucket chain: a singly linked list of `SLNode`s with a `head` field
/// and a `size` counter.  The ghost spine `Nodes` lists the nodes from head to
/// tail and `Contents` their key/value pairs; every method is proved against
/// the chain functions of module Chains.
module LinkedLists {
  import opened Chains

  /** Dropping one element of a sequence without repeats leaves one without repeats. */
  lemma {:induction false} Distinct<T>(s: seq<T>, i: nat)
    requires i < |s|
    requires forall a, b :: 0 <= a < b < |s| ==> s[a] != s[b]
    ensures var r := s[..i] + s[i + 1..];
      forall a, b :: 0 <= a < b < |r| ==> r[a] != r[b]
  {
    var r := s[..i] + s[i + 1..];
    forall a, b | 0 <= a < b < |r| ensures r[a] != r[b] {
      var a' := if a < i then a else a + 1;
      var b' := if b < i then b else b + 1;
      assert r[a] == s[a'] && r[b] == s[b'];
    }
  }

  /** Before node `i` is unlinked: every other link of the shortened spine is
      already in place, and none of them leaves from node `i - 1`. */
  lemma {:induction false} SpliceOut<K, V>(ns: seq<SLNode<K, V>>, i: nat)
    requires 0 < i < |ns|
    requires forall j :: 0 <= j < |ns| - 1 ==> ns[j].next == ns[j + 1]
    requires forall a, b :: 0 <= a < b < |ns| ==> ns[a] != ns[b]
    ensures var r := ns[..i] + ns[i + 1..];
      forall j :: 0 <= j < |r| - 1 && j != i - 1 ==> r[j].next == r[j + 1] && r[j] != ns[i - 1]
  {
    var r := ns[..i] + ns[i + 1..];
    forall j | 0 <= j < |r| - 1 && j != i - 1
      ensures r[j].next == r[j + 1] && r[j] != ns[i - 1]
    {
      if j < i - 1 {
        assert r[j] == ns[j] && r[j + 1] == ns[j + 1];
      } else {
        assert r[j] == ns[j + 1] && r[j + 1] == ns[j + 2];
      }
    }
  }

  class SLNode<K, V> {
    var next: SLNode?<K, V>
    var key: K
    var value: V

    constructor (key: K, value: V)
      ensures this.key == key && this.value == value && next == null
    {
      this.next := null;
      this.key := key;
      this.value := value;
    }
  }

  class LinkedList<K(==), V> {
    var head: SLNode?<K, V>
    var size: int

    ghost var Nodes: seq<SLNode<K, V>>
    ghost var Contents: seq<Entry<K, V>>
    ghost var Repr: set<object>

    /** The spine is linked through `next` from `head` to null, without
        repeated nodes; `size` counts it and `Contents` reads it. */
    ghost predicate Valid()
      reads this, Repr
    {
      this in Repr &&
      (forall i :: 0 <= i < |Nodes| ==> Nodes[i] in Repr) &&
      |Contents| == |Nodes| == size &&
      head == (if Nodes == [] then null else Nodes[0]) &&
      (forall i :: 0 <= i < |Nodes| - 1 ==> Nodes[i].next == Nodes[i + 1]) &&
      (Nodes != [] ==> Nodes[|Nodes| - 1].next == null) &&
      (forall i :: 0 <= i < |Nodes| ==>
         Nodes[i].key == Contents[i].key && Nodes[i].value == Contents[i].value) &&
      (forall i, j :: 0 <= i < j < |Nodes| ==> Nodes[i] != Nodes[j])
    }

    constructor ()
      ensures Valid() && fresh(Repr)
      ensures Contents == [] && size == 0
    {
      head := null;
      size := 0;
      Nodes := [];
      Contents := [];
      Repr := {this};
    }

    /** `add_front`: the new node becomes the head, the rest of the chain follows it unchanged. */
    method AddFront(key: K, value: V)
      requires Valid()
      modifies this
      ensures Valid() && fresh(Repr - old(Repr)) && old(Repr) <= Repr
      ensures Contents == [Entry(key, value)] + old(Contents)
      ensures size == old(size) + 1
    {
      ghost var oldNodes := Nodes;
      var newNode := new SLNode(key, value);
      newNode.next := head;
      head := newNode;
      size := size + 1;
      Nodes := [newNode] + Nodes;
      Contents := [Entry(key, value)] + Contents;
      Repr := Repr + {newNode};
      forall i | 0 < i < |Nodes| - 1
        ensures Nodes[i].next == Nodes[i + 1]
      {
        var j := i - 1;
        assert Nodes[i] == oldNodes[j] && oldNodes[j] in old(Repr);
        assert old(Nodes[j].next) == old(Nodes)[j + 1];
      }
      if |Nodes| > 1 {
        assert Nodes[|Nodes| - 1] == oldNodes[|oldNodes| - 1] && oldNodes[|oldNodes| - 1] in old(Repr);
      }
    }

    /** `remove`: unlink the first node holding `key` and report whether there was one. */
    method Remove(key: K) returns (removed: bool)
      requires Valid()
      modifies Repr
      ensures Valid() && Repr == old(Repr)
      ensures removed <==> key in Keys(old(Contents))
      ensures Contents == RemoveFirst(old(Contents), key)
      ensures size == if removed then old(size) - 1 else old(size)
    {
      if head == null {
        return false;
      }
      if head.key == key {
        assert IndexOf(Contents, key) == 0;
        UnlinkHead();
        return true;
      }
      NextOf(0);
      var cur := head.next;
      var prev := head;
      ghost var i := 1;
      // The walk stops at the first match; the unlinking the source does there
      // follows the loop.
      while cur != null
        modifies {}
        invariant 1 <= i <= |Nodes|
        invariant prev == Nodes[i - 1]
        invariant cur == if i < |Nodes| then Nodes[i] else null
        invariant forall j :: 0 <= j < i ==> Contents[j].key != key
        decreases |Nodes| - i
      {
        if cur.key == key {
          break;
        }
        NextOf(i);
        prev := cur;
        cur := cur.next;
        i := i + 1;
      }
      if cur == null {
        assert IndexOf(Contents, key) == |Contents|;
        return false;
      }
      assert i < |Nodes| && cur == Nodes[i];
      UnlinkAt(i);
      UnlinkAfter(prev, cur, i);
      return true;
    }

    /** `head = head.next`: the first node leaves the spine. */
    method UnlinkHead()
      requires Valid() && head != null
      modifies this
      ensures Valid() && Repr == old(Repr)
      ensures Nodes == old(Nodes[1..]) && Contents == old(Contents[1..])
      ensures size == old(size) - 1
    {
      NextOf(0);
      head := head.next;
      size := size - 1;
      Nodes := Nodes[1..];
      Contents := Contents[1..];
    }

    /** `prev.next = cur.next`: node `i` leaves the spine, the others keep their order. */
    method UnlinkAfter(prev: SLNode<K, V>, cur: SLNode<K, V>, ghost i: nat)
      requires Valid() && 0 < i < |Nodes| && prev == Nodes[i - 1] && cur == Nodes[i]
      modifies Repr
      ensures Valid() && Repr == old(Repr)
      ensures Nodes == old(Nodes[..i] + Nodes[i + 1..])
      ensures Contents == old(Contents[..i] + Contents[i + 1..])
      ensures size == old(size) - 1
    {
      NextOf(i);
      SpliceOut(Nodes, i);
      Distinct(Nodes, i);
      ghost var ns, cs := Nodes, Contents;
      prev.next := cur.next;
      size := size - 1;
      Nodes := Nodes[..i] + Nodes[i + 1..];
      Contents := Contents[..i] + Contents[i + 1..];
      forall j | 0 <= j < |Nodes|
        ensures Nodes[j] in Repr
        ensures Nodes[j].key == Contents[j].key && Nodes[j].value == Contents[j].value
      {
        var j' := if j < i then j else j + 1;
        assert Nodes[j] == ns[j'] && Contents[j] == cs[j'];
      }
    }

    /** `node.value = value` on the node at position `j`: the chain keeps its
        nodes and keys, and entry `j` now holds `value`. */
    method Overwrite(node: SLNode<K, V>, ghost j: nat, value: V)
      requires Valid() && j < |Nodes| && node == Nodes[j]
      modifies this, node
      ensures Valid() && Repr == old(Repr)
      ensures Contents == old(Contents)[j := Entry(old(Contents)[j].key, value)]
      ensures size == old(size)
    {
      node.value := value;
      Contents := Contents[j := Entry(node.key, value)];
    }

    /** The successor of node `i` on the spine. */
    lemma {:induction false} NextOf(i: nat)
      requires Valid() && i < |Nodes|
      ensures Nodes[i].next == if i + 1 < |Nodes| then Nodes[i + 1] else null
    {
    }

    /** What unlinking node `i` means for the chain functions: it removes the first `key` entry. */
    lemma {:induction false} UnlinkAt(i: nat)
      requires Valid() && 0 < i < |Contents|
      requires forall j :: 0 <= j < i ==> Contents[j].key != Contents[i].key
      ensures IndexOf(Contents, Contents[i].key) == i
      ensures RemoveFirst(Contents, Contents[i].key) == Contents[..i] + Contents[i + 1..]
    {
    }

    /** `contains`: the first node holding `key`, or null when no node does. */
    method Contains(key: K) returns (node: SLNode?<K, V>)
      requires Valid()
      ensures node == null <==> key !in Keys(Contents)
      ensures node != null ==> node == Nodes[IndexOf(Contents, key)]
      ensures node != null ==> node.key == key && node.value == Contents[IndexOf(Contents, key)].value
    {
      if head != null {
        var cur := head;
        ghost var i := 0;
        while cur != null
          invariant 0 <= i <= |Nodes|
          invariant cur == if i < |Nodes| then Nodes[i] else null
          invariant forall j :: 0 <= j < i ==> Contents[j].key != key
          decreases |Nodes| - i
        {
          if cur.key == key {
            return cur;
          }
          cur := cur.next;
          i := i + 1;
        }
      }
      return null;
    }
  }
}
