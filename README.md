# Separate-chaining hash map, modelled in Dafny

This project models `hash_map.py`. It is a hash map whose buckets are singly linked
lists of `SLNode` key/value nodes. A key goes to bucket `hash(key) % capacity` of a
Python list of `LinkedList` chains. The map keeps its hash function and a running `size`.

The model has five modules, one per file:

- `Chains` (`chains.dfy`) treats a bucket chain as a value: the sequence of its entries
  from head to tail. It defines the chain operations (`IndexOf`, `SetValue`,
  `RemoveFirst`) and the map a chain stands for (`ToMap`). Its lemmas say what each
  operation does to that map.
- `LinkedLists` (`linked_list.dfy`) holds the `SLNode` and `LinkedList` classes, with
  real nodes linked through `next`. A ghost spine `Nodes` lists the nodes and a ghost
  `Contents` lists their entries. `add_front`, `remove` and `contains` are methods
  proved against the chain functions.
- `Tables` (`tables.dfy`) treats the bucket list as a sequence of chains. It gives
  `put`, `remove` and `resize_table` as functions (`Put`, `Remove`, `Rehash`), and
  defines the well-formedness invariant: each key lies in bucket `hash(key) % n`, and
  no key appears twice in a chain. Its lemmas show how each function changes the map
  the table stands for.
- `Hashing` (`hashing.dfy`) holds the three hash functions over strings.
- `HashMaps` (`hash_map.dfy`) holds the `HashMap` class. Its `buckets` field is a
  sequence of `LinkedList` objects. Its ghost field `Chains` is the table those
  objects hold, and `Model()` is the key/value map. Each method states its new state
  through the `Tables` functions, and through them its effect on `Model()`.

## Model

| member | source | states |
|---|---|---|
| `LinkedLists.SLNode.constructor` | hash_map.py:8-11 | a new node holds the given key and value and has no successor |
| `LinkedLists.LinkedList.constructor` | hash_map.py:18-20 | a new chain is empty: no head, size 0 |
| `LinkedLists.LinkedList.AddFront` | hash_map.py:22-30 | the new entry becomes the head and the old chain follows it unchanged; size grows by exactly one; the chain stays well linked |
| `LinkedLists.LinkedList.Remove` | hash_map.py:32-51 | the result is true exactly when some node holds the key; the chain becomes `RemoveFirst` of the old one, so only the first such node is unlinked and the others keep their order; size drops by one exactly when a node was unlinked; no node is created or freed |
| `LinkedLists.LinkedList.UnlinkHead` | hash_map.py:38-40 | `head = head.next` drops the first node and entry and decrements size |
| `LinkedLists.LinkedList.UnlinkAfter` | hash_map.py:45-47 | `prev.next = cur.next` removes exactly node `i` from the spine and its entry from the contents; the other entries keep their order |
| `LinkedLists.LinkedList.UnlinkAt` | hash_map.py:41-48 | when no node before `i` holds the key of node `i`, node `i` is the first match, and removing it is `RemoveFirst` of that key |
| `LinkedLists.LinkedList.Overwrite` | hash_map.py:165 | assigning `value` to a node changes only that entry's value; keys, order and size are unchanged |
| `LinkedLists.LinkedList.NextOf` | hash_map.py:44-50 | following `next` from node `i` reaches node `i + 1`, or null after the last node |
| `LinkedLists.LinkedList.Contains` | hash_map.py:53-65 | the result is null exactly when no entry holds the key; otherwise it is the first node holding the key, with that entry's value |
| `Chains.IndexOf` | hash_map.py:59-64 | the position of the first entry with the key, or the chain length; earlier entries do not hold it; it is in range exactly when the key is present |
| `Chains.AddFrontMap` | hash_map.py:22-30 | adding an absent key at the front keeps keys unique, adds exactly that key, and maps it to the new value |
| `Chains.SetValueMap` | hash_map.py:162-165 | overwriting the value of a present key keeps the keys and maps the key to the new value |
| `Chains.RemoveFirstMap` | hash_map.py:32-51 | unlinking the first match removes exactly that key from the chain's map and keeps keys unique |
| `Chains.ToMapAt` | hash_map.py:127-130 | with unique keys, the map of a chain gives the value of the key's (only) entry |
| `Chains.ToMapSize` | hash_map.py:216-228 | with unique keys, a chain has as many entries as its map has keys |
| `Tables.Slot` | hash_map.py:126 | `hash(key) % capacity` is a valid bucket index for every integer hash, negative ones included |
| `Tables.LookupAtSlot` | hash_map.py:118-130 | in a well-formed table, a key is in the map exactly when the chain of its own bucket holds it, and the map gives that entry's value |
| `Tables.PutMap` | hash_map.py:148-169 | `put` keeps the table well formed, maps the key to the value and leaves every other key alone; the entry count grows exactly when the key was absent |
| `Tables.PutPresent` | hash_map.py:161-165 | `put` of a key its bucket holds overwrites the value and keeps the entry count |
| `Tables.PutAbsent` | hash_map.py:166-169 | `put` of a key its bucket lacks adds one entry at the front of that bucket |
| `Tables.RemoveMap` | hash_map.py:171-181 | `remove` keeps the table well formed, deletes exactly the key from the map, and drops one entry exactly when the key was present |
| `Tables.RehashMap` | hash_map.py:132-146 | rehashing into `n` buckets gives a well-formed table of `n` buckets with the same key/value map and the same number of entries |
| `Tables.PutAllMap` | hash_map.py:139-143 | putting a sequence of entries into a well-formed table keeps it well formed and overrides its map with the entries' map |
| `Tables.PutAllConcat` | hash_map.py:140-143 | putting `a` and then `b` is putting `a + b`, so the rehash can go one bucket at a time |
| `Tables.SizeIsMapSize` | hash_map.py:216-228 | in a well-formed table, the number of entries is the number of keys in the map |
| `Tables.EntriesUnique` | hash_map.py:148-169 | with every key placed in its bucket and unique within its chain, no key appears twice in the whole table |
| `Tables.EmptyTable` | hash_map.py:112-116 | the empty table is well formed, has the empty map, and all its buckets are empty |
| `Tables.EmptyCountBounds` | hash_map.py:197-206 | at least `capacity - entries` buckets are empty, and every bucket is empty exactly when there are no entries |
| `Hashing.HashFunction3` | hash_map.py:243-244 | the sum of the character code points is never negative |
| `Hashing.HashFunction1` | hash_map.py:80-84 | the accumulator loop computes exactly `hash_function_3` |
| `Hashing.PositionWeightedSum` | hash_map.py:87-93 | the position-weighted sum of code points is never negative |
| `Hashing.HashFunction2` | hash_map.py:87-93 | the accumulator loop with its running index computes the position-weighted sum |
| `Hashing.WeightedSumBounds` | hash_map.py:87-93 | `hash_function_2` lies between `hash_function_3` and the key length times it |
| `Hashing.AnagramsCollide` | hash_map.py:243-244 | keys with the same characters in any order have the same `hash_function_3` value |
| `HashMaps.HashMap.NewBuckets` | hash_map.py:105-107 | the loop appends `capacity` new chains: all empty, all fresh, no two sharing an object |
| `HashMaps.HashMap.constructor` | hash_map.py:104-110 | `capacity` empty, disjoint chains, the given hash function, size 0 and the empty map |
| `HashMaps.HashMap.Clear` | hash_map.py:112-116 | the buckets are rebuilt empty with the same capacity and hash function; size 0, empty map |
| `HashMaps.HashMap.Get` | hash_map.py:118-130 | the stored value of the key, or None exactly when the key is absent; nothing changes |
| `HashMaps.HashMap.ContainsKey` | hash_map.py:183-195 | true exactly when the key is in the map; nothing changes |
| `HashMaps.HashMap.ResizeTable` | hash_map.py:132-146 | the new table is the rehash of the old one into `newCapacity` buckets; the map and size are unchanged and the invariant holds for the new capacity |
| `HashMaps.HashMap.PutBuckets` | hash_map.py:140-143 | putting every chain of the old buckets, in bucket order, puts their flattened entries |
| `HashMaps.HashMap.PutChain` | hash_map.py:141-144 | walking one old chain from head to tail and putting each node puts that chain's entries in order |
| `HashMaps.HashMap.Install` | hash_map.py:145-146 | the map takes over a bucket list and capacity that hold a well-formed table, and the invariant holds |
| `HashMaps.HashMap.Put` | hash_map.py:148-169 | the new table is `Put` of the old one; the map gains or updates exactly that key; size grows exactly when the key was new; buckets and capacity stay the same |
| `HashMaps.PutInBucket` | hash_map.py:160-169 | on the key's bucket: overwrite in place when the bucket holds the key, else add at the front; other buckets are untouched; `added` is true exactly when the key was absent |
| `HashMaps.OverwriteInBucket` | hash_map.py:162-165 | after the walk to the first node with the key, the value assignment turns the chain into `SetValue` of it |
| `HashMaps.AddFrontInBucket` | hash_map.py:167-168 | `add_front` on one bucket puts the new entry at the head of that chain; other buckets are untouched |
| `HashMaps.RemoveFromBucket` | hash_map.py:180 | the bucket unlinks its first node with the key and reports whether there was one; other buckets are untouched |
| `HashMaps.HashMap.Remove` | hash_map.py:171-181 | the new table is `Remove` of the old one; the key leaves the map and every other key keeps its value; size drops exactly when the key was present |
| `HashMaps.HashMap.EmptyBuckets` | hash_map.py:197-206 | the count of empty buckets lies between `capacity - size` and `capacity`, and equals `capacity` exactly when the map is empty |
| `HashMaps.HashMap.ElementCount` | hash_map.py:216-228 | the node count over all buckets equals `size` and the number of keys in the map |
| `HashMaps.HashMap.TableLoad` | hash_map.py:208-214 | the load is the number of keys divided by the capacity |

## Left out

- `word_count.py` is not part of this model. It reads files, tokenises with regular expressions and sorts, and uses the map only through its public operations.
- The `__str__` methods of `SLNode`, `LinkedList` and `HashMap` are not modelled. They only render diagnostic text.
- The commented-out demonstration at the end of `hash_map.py` is not modelled.
- `HashMaps.HashMap.TableLoad`: the load is an exact `real`. Python's floating-point rounding is not modelled.
- `HashMaps.HashMap.Get`: the result is an `Option`. The source returns `None` for an absent key, so it cannot tell that case from a stored `None`. The model can.
- `HashMaps.HashMap.Put`, `HashMaps.HashMap.Remove`, `HashMaps.HashMap.Get` and `HashMaps.HashMap.ContainsKey` require `capacity > 0`. With no buckets, `hash % capacity` raises `ZeroDivisionError` in the source.
- `HashMaps.HashMap.ResizeTable` requires `newCapacity > 0`. The source survives `resize_table(0)` only on an empty map, and leaves a map that no keyed operation can use.
- `HashMaps.HashMap.constructor` takes `capacity` as a `nat`. With a negative capacity the source builds no buckets and stores a negative capacity; the model does not cover that state.
- The hash function is a total, pure `K -> int` field. A hash that raises an exception, or returns different values for one key, is not modelled.
- Keys and values are plain values (`K(==, !new)`, `V(!new)`): a key or value that is itself a mutable object of the map's heap is not modelled.
- `clear` rebuilds the buckets directly, not by re-entering the constructor as the source does. `resize_table` takes over the new map's bucket sequence itself, not a shallow copy of the Python list. Either way the old chains are no longer reachable from the map, so the state is the same.
- The bucket updates of `put` and `remove` are factored into the module-level methods `PutInBucket`, `OverwriteInBucket`, `AddFrontInBucket` and `RemoveFromBucket`. The two loops of `resize_table` are the methods `PutBuckets` and `PutChain`, and its last two assignments are `Install`. Each does what the inline source code does.
- Python integers are unbounded, like Dafny's `int`, so the hashes and counters have no overflow to model.
