# SharedCollections core, modelled in Dafny

SharedCollections provides immutable ("persistent") Java collections. Every update
returns a new collection that shares structure with the old one, and the old one stays
as it was. This project models the core of the library:

- **TrieArray**: a 32-way index trie plus a tail block holding the last 1..32 elements.
  - `get`, path-copying `update`, `append` in its five cases, `take`/`remend`, and
    `appendAll` with its recursive `concatTrie` merge.
  - The caching list iterator.
  - A TrieArray is the datatype `TrieArray(root, end, size)`. `Valid` is its shape
    invariant: packed leaf blocks of 32, inner nodes of 1..32 children, and a tail of
    `size - RootSize(size)` elements. `Elements` maps it to the sequence it stands for.
    Every operation is proved against that sequence.
- **HashTrieMap**: a hash array mapped trie.
  - A `Node` holds a 32-bit presence bitmap (`seq<bool>`) and its compacted children.
    A child slot is an entry, a collision array or a node (`Slot`).
  - `get`, the iterative path-copying `put` with `connect`, the recursive
    `removeKey`/`remove`, and the bounded-stack `DepthFirstIterator`.
  - `Valid`/`WF` is the trie invariant. `MapGet` and `KeySet` give the map a slot
    stands for.
  - The hash code is a function parameter `hash: K -> HashCode`. Key equality is
    Dafny's `==`.
- **The two cons lists**:
  - the persistent `LinkedList`: `Empty`/`Cons`, `after` and `of`;
  - the shared `LinkedList`: a null head marks the empty list; `prepend`, `singleton`,
    `of` and the copy constructor.
  - Both have `head`/`tail`/`size` and a forward-only list cursor, modelled as a class.
- **`insert`/`remove`** of `PersistentArrays`, and of the identical `SharedArrays`.
  They are built from `take`, `append`, `appendAll` and `subList`.

Where the source changes state step by step, the model does too:
- `findNode`, `get`, `update`, `append`, `take`, `appendAll`, `concatTrie`, `put` and
  `findCollision` are methods with loops. The arrays they fill are Dafny arrays.
- The two iterators and the list cursors are classes.

The functions and lemmas then give each result its meaning.

Some paths of HashTrieMap are defective as written. Each one is modelled twice:
- once as written (`RemoveKeyAsWritten`, `DepthFirstIterator.AsWritten`,
  `NextAsWritten`, ...), with a concrete map that exhibits the failure;
- once corrected (`RemoveKey`, `Next`, ...), with the intended property proved.

See "Findings".

Modules:

| module | models |
|---|---|
| `Wrappers` | `Option` (Java null), `Result` (a value or a thrown exception), the Java exceptions |
| `Arith`, `Seqs` | powers of 32, digits, sequence slicing |
| `TrieArrayNodes`, `TrieArrayShape` | trie nodes, `rootSize`, `height`, `shrinkEnd`, the shape invariant |
| `TrieArrayOps` | `findNode`, `get`, `update`, `append` |
| `TrieArrayTake` | `take`, `remend` |
| `TrieArrayConcat` | `appendAll`, its end iterator, `concatTrie`, `of` |
| `TrieArrayIterator` | `CachedIterator`, `listIterator` |
| `HashTrieNodes` | `Node`/`Entry`/collision slots, hash chunks, `bitCount` routing, lookups |
| `HashTrieMapOps` | the map, `get`, `findCollision`, `connect`, `put` |
| `HashTrieInsert` | what `put` means |
| `HashTrieRemove` | `copyWithout`, `removeKey`/`remove` corrected and as written, what removal means |
| `HashTrieRemoveDefects` | maps on which `remove` as written fails |
| `HashTrieRemoveShape` | `remove` as written keeps the shape the iterator walks |
| `HashTrieRoundTrip` | `put` then `remove` |
| `HashTrieListing`, `HashTrieIterator`, `HashTrieIteratorDefects` | the order of iteration, `DepthFirstIterator` corrected and as written, maps on which it fails |
| `PersistentLinkedList`, `SharedLinkedList` | the two cons lists and their cursors |
| `PersistentArrays` | `insert`, `remove` |

## Model

| member | source | states |
|---|---|---|
| TrieArrayShape.RootSize | src/main/java/com/dorr/persistent/TrieArray.java:156-158 | 0 for sizes up to 1; otherwise a multiple of 32 below the size that leaves 1..32 elements for the tail |
| TrieArrayShape.RootSizeUnique | src/main/java/com/dorr/persistent/TrieArray.java:156-158 | any multiple of 32 that leaves 1..32 elements for the tail is the root size |
| TrieArrayShape.Height | src/main/java/com/dorr/persistent/TrieArray.java:159-164 | 0 exactly when the root is empty; otherwise the least h with rootSize <= 32^h; at most 6 for sizes up to 2^30 |
| TrieArrayShape.HeightUnique | src/main/java/com/dorr/persistent/TrieArray.java:159-164 | any h with 32^(h-1) < rootSize <= 32^h is the height |
| TrieArrayShape.HeightOfRootSize | src/main/java/com/dorr/persistent/TrieArray.java:159-164 | the height depends on the size only through the root size |
| TrieArrayShape.Singleton | src/main/java/com/dorr/persistent/TrieArray.java:45-47 | `singleton(v)` is a valid array whose only element is v |
| TrieArrayShape.ElementsSize | src/main/java/com/dorr/persistent/TrieArray.java:55-57 | `size()` is the number of elements, and the trie holds the first rootSize of them |
| TrieArrayShape.ShrinkEnd | src/main/java/com/dorr/persistent/TrieArray.java:184-192 | keeps exactly the first n elements of a block, as a valid tail; a cut keeping a whole block of two or more reuses it |
| TrieArrayNodes.Digit | src/main/java/com/dorr/persistent/TrieArray.java:178 | a 5-bit digit of the index is below 32 |
| TrieArrayNodes.DigitValue | src/main/java/com/dorr/persistent/TrieArray.java:178 | the digit at a level is the index divided by 32^level, modulo 32 |
| TrieArrayNodes.ChildAt | src/main/java/com/dorr/persistent/TrieArray.java:175-182 | the digit of an index selects the child that holds the element at that index, at the child's own offset |
| TrieArrayOps.FindNode | src/main/java/com/dorr/persistent/TrieArray.java:175-182 | at target level 0 it returns the element at the index; otherwise the node whose slice contains the index |
| TrieArrayOps.Get | src/main/java/com/dorr/persistent/TrieArray.java:195-210 | element `index` for 0 <= index < size, from the trie below the root size and from the tail above it; IndexOutOfBoundsException otherwise |
| TrieArrayOps.SetAtElements | src/main/java/com/dorr/persistent/TrieArray.java:213-255 | copying the path of an index changes exactly that element and keeps the node packed |
| TrieArrayOps.Update | src/main/java/com/dorr/persistent/TrieArray.java:213-255 | for an index in range: a valid array of the same size with that element replaced and no other one changed; IndexOutOfBoundsException otherwise |
| TrieArrayOps.Append | src/main/java/com/dorr/persistent/TrieArray.java:258-315 | in all five cases: a valid array one larger, whose elements are the old ones followed by the value |
| TrieArrayOps.AppendBlock | src/main/java/com/dorr/persistent/TrieArray.java:280-314 | the case where the full tail block moves into the trie, with the height growing when the trie is full: the value is appended |
| TrieArrayTake.TakeTrieElements | src/main/java/com/dorr/persistent/TrieArray.java:485-508 | cutting the trie after a leaf block keeps it packed and keeps exactly the elements up to the cut |
| TrieArrayTake.TakePath | src/main/java/com/dorr/persistent/TrieArray.java:485-508 | the copying loop of `take` yields a packed trie of the new height holding exactly the kept prefix |
| TrieArrayTake.Take | src/main/java/com/dorr/persistent/TrieArray.java:462-515 | for 0 <= n <= size: a valid array of the first n elements; the array itself for n == size; the empty array for n == 0; IndexOutOfBoundsException otherwise |
| TrieArrayTake.TakeBlock | src/main/java/com/dorr/persistent/TrieArray.java:478-514 | a prefix that ends inside the trie: a valid array of exactly that prefix |
| TrieArrayTake.Remend | src/main/java/com/dorr/persistent/TrieArray.java:457-459 | all but the last element; IndexOutOfBoundsException on the empty array |
| TrieArrayConcat.EndIterator.constructor | src/main/java/com/dorr/persistent/TrieArray.java:413-416 | draws the old tail's elements, then the new values, starting at the first |
| TrieArrayConcat.EndIterator.HasNext | src/main/java/com/dorr/persistent/TrieArray.java:417-420 | true exactly while elements are left to draw |
| TrieArrayConcat.EndIterator.Next | src/main/java/com/dorr/persistent/TrieArray.java:421-433 | returns the next element of old tail ++ values and advances by one |
| TrieArrayConcat.ConcatTrie | src/main/java/com/dorr/persistent/TrieArray.java:332-378 | a packed node (1..32 children at every level) over the range, holding the old node's elements followed by exactly as many drawn elements as fill it |
| TrieArrayConcat.FilledPacked | src/main/java/com/dorr/persistent/TrieArray.java:332-378 | a completely filled node is packed and holds the old elements followed by the drawn ones |
| TrieArrayConcat.AppendAll | src/main/java/com/dorr/persistent/TrieArray.java:380-454 | a valid array of the old elements followed by the values, of the summed size; the array itself for no values |
| TrieArrayConcat.ExtendEnd | src/main/java/com/dorr/persistent/TrieArray.java:391-411 | when the root size does not change, growing the tail alone appends the values |
| TrieArrayConcat.FillBlock | src/main/java/com/dorr/persistent/TrieArray.java:404-408 | the loop filling the new tail block writes the values after the kept slots |
| TrieArrayConcat.ExtendTrie | src/main/java/com/dorr/persistent/TrieArray.java:412-453 | rebuilding the trie over the new root size and drawing a fresh tail appends the values |
| TrieArrayConcat.Of | src/main/java/com/dorr/persistent/TrieArray.java:48-50 | `of(values)` is a valid array of exactly those values |
| TrieArrayIterator.CachedIterator.constructor | src/main/java/com/dorr/persistent/TrieArray.java:85-88 | a cursor before the given index, with no block cached |
| TrieArrayIterator.CachedIterator.CachedGet | src/main/java/com/dorr/persistent/TrieArray.java:93-103 | returns element `index`; below the root size the cached block is then the block containing `index`, and it is kept when it already was |
| TrieArrayIterator.CachedIterator.Next | src/main/java/com/dorr/persistent/TrieArray.java:106-112 | the element at the cursor and the cursor one further; NoSuchElementException past the end, with the cursor kept |
| TrieArrayIterator.CachedIterator.Previous | src/main/java/com/dorr/persistent/TrieArray.java:115-121 | the cursor one back and the element it passes; NoSuchElementException at the start |
| TrieArrayIterator.CachedIterator.HasNext | src/main/java/com/dorr/persistent/TrieArray.java:124-126 | true exactly when an element lies at or after the cursor |
| TrieArrayIterator.CachedIterator.HasPrevious | src/main/java/com/dorr/persistent/TrieArray.java:128-130 | true exactly when an element lies before the cursor |
| TrieArrayIterator.CachedIterator.Indices | src/main/java/com/dorr/persistent/TrieArray.java:132-138 | `nextIndex()` is the cursor and `previousIndex()` one less, within -1..size |
| TrieArrayIterator.ListIterator | src/main/java/com/dorr/persistent/TrieArray.java:70-76 | a cursor before element i for 0 <= i <= size; IndexOutOfBoundsException otherwise |
| TrieArrayIterator.BlockRead | src/main/java/com/dorr/persistent/TrieArray.java:93-99 | slot `index & 31` of a block loaded for an index of the same block is element `index` |
| HashTrieNodes.Chunk | src/main/java/com/dorr/persistent/HashTrieMap.java:61 | a hash chunk is below 32 |
| HashTrieNodes.ChildIndexBound | src/main/java/com/dorr/persistent/HashTrieMap.java:16-21 | a set bit's child index `bitCount(hasChild & (mask - 1))` is below `bitCount(hasChild)`, the number of children |
| HashTrieNodes.ChildIndexOrder | src/main/java/com/dorr/persistent/HashTrieMap.java:61-65 | distinct set bits have distinct child indices, in bit order |
| HashTrieNodes.SetBitCount | src/main/java/com/dorr/persistent/HashTrieMap.java:191-203 | setting a clear bit adds one to the child index of every later bit |
| HashTrieNodes.ClearBitCount | src/main/java/com/dorr/persistent/HashTrieMap.java:257 | clearing a set bit takes one from the child index of every later bit |
| HashTrieNodes.FirstMatch | src/main/java/com/dorr/persistent/HashTrieMap.java:110-119 | the first index whose entry has the key, or the length when there is none |
| HashTrieNodes.LookupSound | src/main/java/com/dorr/persistent/HashTrieMap.java:48-87 | a found value is stored with that very key: a lookup never returns the value of another key |
| HashTrieNodes.LookupComplete | src/main/java/com/dorr/persistent/HashTrieMap.java:56-86 | every stored key is found, keys with identical hashes included |
| HashTrieMapOps.EmptyAndSingleton | src/main/java/com/dorr/persistent/HashTrieMap.java:36-45 | the empty map is valid with size 0 and no keys; `singleton(k, v)` is valid with size 1 and maps only k, to v |
| HashTrieMapOps.Get | src/main/java/com/dorr/persistent/HashTrieMap.java:48-87 | null for a null key; otherwise the value the map holds for the key, null when it holds none |
| HashTrieMapOps.GetMeaning | src/main/java/com/dorr/persistent/HashTrieMap.java:48-87 | a value is found exactly for the stored keys, and it is the value stored with that key |
| HashTrieMapOps.SizeIsKeyCount | src/main/java/com/dorr/persistent/HashTrieMap.java:305-307 | `size()` is the number of keys that have a value |
| HashTrieMapOps.FindCollision | src/main/java/com/dorr/persistent/HashTrieMap.java:110-119 | the index of the first entry with the key, or the length |
| HashTrieMapOps.SplitShape | src/main/java/com/dorr/persistent/HashTrieMap.java:161-164 | an entry split into a one-child node stays well formed and holds the same key |
| HashTrieMapOps.SplitLookup | src/main/java/com/dorr/persistent/HashTrieMap.java:161-164 | a lookup through the split node finds what the entry held |
| HashTrieMapOps.ConnectPush | src/main/java/com/dorr/persistent/HashTrieMap.java:92-102 | linking through one more copied node equals linking that node with the slot replaced |
| HashTrieMapOps.InsertChild | src/main/java/com/dorr/persistent/HashTrieMap.java:194-201 | the new children: those before the index, the new child, then the rest shifted up by one |
| HashTrieMapOps.PutCollision | src/main/java/com/dorr/persistent/HashTrieMap.java:176-180 | the collision array with the entry written at the found index, or appended |
| HashTrieMapOps.Put | src/main/java/com/dorr/persistent/HashTrieMap.java:130-217 | NullPointerException for a null key or value; otherwise the inserted map |
| HashTrieMapOps.PutRoot | src/main/java/com/dorr/persistent/HashTrieMap.java:142-216 | the path-copying loop yields the inserted root, and reports an added entry exactly when the key was absent |
| HashTrieMapOps.SplitStep | src/main/java/com/dorr/persistent/HashTrieMap.java:161-164 | splitting an entry of another key keeps the loop invariant |
| HashTrieMapOps.DescendStep | src/main/java/com/dorr/persistent/HashTrieMap.java:205-215 | descending into the chunk's child, with the node copied onto the path, keeps the loop invariant |
| HashTrieMapOps.PutLeaf | src/main/java/com/dorr/persistent/HashTrieMap.java:154-184 | the terminal cases at an entry or a collision array insert the entry |
| HashTrieMapOps.AddChild | src/main/java/com/dorr/persistent/HashTrieMap.java:192-203 | a node without the chunk bit gets the entry as a new child, and the key was absent |
| HashTrieInsert.InsertedMeaning | src/main/java/com/dorr/persistent/HashTrieMap.java:130-217 | after `put(k, v)`: the map is valid, k maps to v and every other key keeps its value; k joins the keys; the size grows by one exactly when k was absent |
| HashTrieInsert.InsertPreserves | src/main/java/com/dorr/persistent/HashTrieMap.java:152-216 | insertion keeps a slot well formed, adds the key, and adds one entry exactly when the key was not found |
| HashTrieInsert.InsertLookup | src/main/java/com/dorr/persistent/HashTrieMap.java:152-216 | insertion changes the lookup of the inserted key, to the new value, and of no other key |
| HashTrieInsert.CollisionPreserves | src/main/java/com/dorr/persistent/HashTrieMap.java:171-184 | the new collision array keeps distinct keys and gains the key, one longer exactly when the key was absent |
| HashTrieInsert.CollisionLookup | src/main/java/com/dorr/persistent/HashTrieMap.java:171-184 | the lookup in the new collision array gives the new value for the key and the old one for every other key |
| HashTrieInsert.NewChildPreserves | src/main/java/com/dorr/persistent/HashTrieMap.java:192-203 | the node with the new child is well formed, with one more key and one more entry |
| HashTrieInsert.NewChildLookup | src/main/java/com/dorr/persistent/HashTrieMap.java:192-203 | in that node the new key finds the new leaf, and every other key what it found before |
| HashTrieInsert.DescendPreserves | src/main/java/com/dorr/persistent/HashTrieMap.java:205-215 | replacing the chunk's child by one with the key added keeps the node well formed and adds the key |
| HashTrieRemove.CopyWithout | src/main/java/com/dorr/persistent/HashTrieMap.java:121-127 | one shorter; the last element moved into the vacated slot; the same multiset minus the removed element |
| HashTrieRemove.Remove | src/main/java/com/dorr/persistent/HashTrieMap.java:292-302 | NullPointerException for a null key; otherwise a map (corrected removal) |
| HashTrieRemove.RemoveMeaning | src/main/java/com/dorr/persistent/HashTrieMap.java:228-302 | the corrected removal: a valid map in which the key has no value and every other key keeps its own; the key leaves the keys; the size shrinks by one exactly when the key was present; the same map exactly when it was absent |
| HashTrieRemove.RemoveAsWritten | src/main/java/com/dorr/persistent/HashTrieMap.java:292-302 | NullPointerException for a null key; the same map for an empty map |
| HashTrieRemove.RemoveKeySame | src/main/java/com/dorr/persistent/HashTrieMap.java:228-289 | removal reports the slot unchanged exactly when the key is absent from it |
| HashTrieRemove.RemoveKeyPreserves | src/main/java/com/dorr/persistent/HashTrieMap.java:228-289 | the corrected removal keeps a slot well formed and removes the key |
| HashTrieRemove.RemoveKeyLookup | src/main/java/com/dorr/persistent/HashTrieMap.java:228-289 | the corrected removal changes the lookup of the removed key, to none, and of no other key |
| HashTrieRemove.PairRemove | src/main/java/com/dorr/persistent/HashTrieMap.java:280-282 | a 2-entry collision array losing one key becomes the other entry |
| HashTrieRemove.CollisionRemove | src/main/java/com/dorr/persistent/HashTrieMap.java:284-286 | a longer collision array loses exactly the key, by `copyWithout` |
| HashTrieRemove.LiftSibling | src/main/java/com/dorr/persistent/HashTrieMap.java:251-253 | a two-child node losing a single-entry child, collapsed onto its other child when that is not a node, holds exactly the other keys, one entry fewer |
| HashTrieRemove.DropChild | src/main/java/com/dorr/persistent/HashTrieMap.java:255-257 | a node dropping a single-entry child, with the others kept in bit order and its bit cleared, stays well formed and holds exactly the other keys, one entry fewer |
| HashTrieRemove.ReplaceChild | src/main/java/com/dorr/persistent/HashTrieMap.java:260-264 | a child with the key removed, put in place, keeps the node well formed without the key and with one entry fewer |
| HashTrieRoundTrip.PutThenRemove | src/main/java/com/dorr/persistent/HashTrieMap.java:130-302 | after `put(k, v).remove(k)` k has no value; when k was absent the map holds exactly what it held, with the same size |
| HashTrieRemoveDefects.CollidingInsert | src/main/java/com/dorr/persistent/HashTrieMap.java:161-168 | two keys of equal hash split through seven levels and end in a 2-entry collision array at shift 35 |
| HashTrieRemoveDefects.CollisionPairThrows | src/main/java/com/dorr/persistent/HashTrieMap.java:282 | on the map of two colliding keys, removing the first entry's key throws ArrayIndexOutOfBoundsException |
| HashTrieRemoveDefects.CollisionPairKeeps | src/main/java/com/dorr/persistent/HashTrieMap.java:282 | on that map, removing the other key leaves it in the map |
| HashTrieRemoveDefects.CollisionPairCorrected | src/main/java/com/dorr/persistent/HashTrieMap.java:280-282 | the corrected removal drops exactly the removed key, either way |
| HashTrieRemoveDefects.CopyWithoutOrderAsWritten | src/main/java/com/dorr/persistent/HashTrieMap.java:257 | on the map of keys 0, 1, 2, removing key 0 loses key 1 |
| HashTrieRemoveDefects.CopyWithoutOrderCorrected | src/main/java/com/dorr/persistent/HashTrieMap.java:255-257 | the corrected removal keeps key 1 |
| HashTrieRemoveDefects.CollapseNodeAsWritten | src/main/java/com/dorr/persistent/HashTrieMap.java:251-253 | on the map of keys 1, 33, 0, removing key 0 loses key 1 |
| HashTrieRemoveDefects.CollapseNodeCorrected | src/main/java/com/dorr/persistent/HashTrieMap.java:251-253 | the corrected removal keeps key 1 |
| HashTrieListing.WFIterable | src/main/java/com/dorr/persistent/HashTrieMap.java:316 | every well-formed trie (the invariant `put` and the corrected `remove` keep) has nodes only below shift 32, at most MAX_DEPTH on a path, no empty node and no collision array of fewer than two entries |
| HashTrieRemoveShape.IterableLower | src/main/java/com/dorr/persistent/HashTrieMap.java:251-253 | a slot of the iterator's shape keeps it when lifted to a smaller shift, as the collapse onto a sibling does |
| HashTrieRemoveShape.CopyWithoutIterable | src/main/java/com/dorr/persistent/HashTrieMap.java:121-127 | `copyWithout` on three or more children of the iterator's shape leaves two or more, each of that shape |
| HashTrieRemoveShape.RemoveKeyAsWrittenIterable | src/main/java/com/dorr/persistent/HashTrieMap.java:228-289 | every new slot `removeKey` as written returns has the iterator's shape at its shift |
| HashTrieRemoveShape.NodeRemovalIterable | src/main/java/com/dorr/persistent/HashTrieMap.java:239-265 | the node case of `removeKey` as written (replace, drop by `copyWithout`, collapse onto the sibling) keeps the iterator's shape when the child's removal does |
| HashTrieRemoveShape.RemoveAsWrittenIterable | src/main/java/com/dorr/persistent/HashTrieMap.java:292-302 | the root of every map `remove` as written returns can be walked by `DepthFirstIterator` |
| HashTrieListing.ListingCount | src/main/java/com/dorr/persistent/HashTrieMap.java:314-392 | the full depth-first walk yields as many entries as the slot stores |
| HashTrieListing.ListingFound | src/main/java/com/dorr/persistent/HashTrieMap.java:314-392 | every entry a walk yields is what `get` finds for its key |
| HashTrieListing.ListingComplete | src/main/java/com/dorr/persistent/HashTrieMap.java:314-392 | every value `get` finds is yielded by the full walk, with its key |
| HashTrieListing.ListingDistinct | src/main/java/com/dorr/persistent/HashTrieMap.java:314-392 | no key appears twice in a walk |
| HashTrieListing.ListingMeaning | src/main/java/com/dorr/persistent/HashTrieMap.java:314-392 | iterating a map yields each entry exactly once: size-many entries, no key twice, and an entry exactly when `get` maps its key to its value |
| HashTrieListing.FirstOnlyWithoutCollisions | src/main/java/com/dorr/persistent/HashTrieMap.java:335-338 | without collision arrays, the walk as written yields exactly the full walk |
| HashTrieIterator.RootLeaf | src/main/java/com/dorr/persistent/HashTrieMap.java:330-331 | a root that is not a node becomes the current leaf |
| HashTrieIterator.ClimbPop | src/main/java/com/dorr/persistent/HashTrieMap.java:342-348 | popping a finished node and advancing its parent loses none of the entries to come |
| HashTrieIterator.Descend | src/main/java/com/dorr/persistent/HashTrieMap.java:351-352 | the indexed child's entries come first, then the rest |
| HashTrieIterator.Push | src/main/java/com/dorr/persistent/HashTrieMap.java:362-367 | pushing a node child keeps the entries to come, and the stack stays below MAX_DEPTH = 7 |
| HashTrieIterator.DepthFirstIterator.constructor | src/main/java/com/dorr/persistent/HashTrieMap.java:324-332 | corrected: the entries to come are the root's full listing, for every kind of root |
| HashTrieIterator.DepthFirstIterator.AsWritten | src/main/java/com/dorr/persistent/HashTrieMap.java:324-332 | as written: a node root starts at its first leaf with the listing as written to come; any other root becomes the current leaf with an empty stack |
| HashTrieIterator.DepthFirstIterator.Walk | src/main/java/com/dorr/persistent/HashTrieMap.java:341-369 | the walk from the stack settles on the next leaf, and the entries to come are those the stack had after its top child |
| HashTrieIterator.DepthFirstIterator.Climb | src/main/java/com/dorr/persistent/HashTrieMap.java:341-348 | the upward loop: it finds the next child, or empties the stack when nothing is left |
| HashTrieIterator.DepthFirstIterator.DescendToLeaf | src/main/java/com/dorr/persistent/HashTrieMap.java:349-369 | the downward loop: it reaches the first leaf below the top, within the stack bound |
| HashTrieIterator.DepthFirstIterator.HasNext | src/main/java/com/dorr/persistent/HashTrieMap.java:374-377 | true exactly when entries remain to come |
| HashTrieIterator.DepthFirstIterator.MoveToNext | src/main/java/com/dorr/persistent/HashTrieMap.java:335-372 | corrected: the entries to come lose exactly their first |
| HashTrieIterator.DepthFirstIterator.Next | src/main/java/com/dorr/persistent/HashTrieMap.java:379-388 | corrected: the first entry to come, which is then dropped; NoSuchElementException at the end |
| HashTrieIterator.DepthFirstIterator.MoveToNextAsWritten | src/main/java/com/dorr/persistent/HashTrieMap.java:335-372 | as written: throws exactly when the stack is empty; otherwise drops the first entry of the listing as written |
| HashTrieIterator.DepthFirstIterator.NextAsWritten | src/main/java/com/dorr/persistent/HashTrieMap.java:379-388 | as written: ArrayIndexOutOfBoundsException whenever the stack is empty; otherwise the next entry of the listing as written |
| HashTrieIterator.Iterator | src/main/java/com/dorr/persistent/HashTrieMap.java:390-392 | corrected: a fresh iterator whose entries to come are the map's full listing |
| HashTrieIterator.IteratorAsWritten | src/main/java/com/dorr/persistent/HashTrieMap.java:390-392 | as written: for a node root, the listing as written; otherwise the root as the current leaf with an empty stack |
| HashTrieIteratorDefects.SingletonIterationAsWritten | src/main/java/com/dorr/persistent/HashTrieMap.java:342 | a single-entry map reports a next entry, but `next()` throws ArrayIndexOutOfBoundsException |
| HashTrieIteratorDefects.SingletonIteration | src/main/java/com/dorr/persistent/HashTrieMap.java:379-388 | corrected: the single entry, then the end |
| HashTrieIteratorDefects.EmptyIterationAsWritten | src/main/java/com/dorr/persistent/HashTrieMap.java:342 | the empty map has no next entry, and `next()` throws ArrayIndexOutOfBoundsException |
| HashTrieIteratorDefects.CollidingListingAsWritten | src/main/java/com/dorr/persistent/HashTrieMap.java:336-337 | the walk as written yields only the first entry of the colliding pair, although `get` finds both keys |
| HashTrieIteratorDefects.CollidingListing | src/main/java/com/dorr/persistent/HashTrieMap.java:335-338 | the corrected walk yields both entries of the collision array |
| HashTrieIteratorDefects.CollidingIterationAsWritten | src/main/java/com/dorr/persistent/HashTrieMap.java:336-337 | iterating the colliding pair as written: one entry, then `hasNext()` is false |
| HashTrieIteratorDefects.CollidingIteration | src/main/java/com/dorr/persistent/HashTrieMap.java:335-338 | the corrected iterator yields both entries, then the end |
| PersistentLinkedList.Size | src/main/java/com/dorr/persistent/LinkedList.java:12-46 | on a well-formed list, the number of elements |
| PersistentLinkedList.MakeCons | src/main/java/com/dorr/persistent/LinkedList.java:37-41 | a Cons caches one more than its tail's size |
| PersistentLinkedList.Head | src/main/java/com/dorr/persistent/LinkedList.java:19-51 | the first element; NoSuchElementException exactly on the empty list |
| PersistentLinkedList.Tail | src/main/java/com/dorr/persistent/LinkedList.java:23-56 | the elements after the first; NoSuchElementException exactly on the empty list |
| PersistentLinkedList.After | src/main/java/com/dorr/persistent/LinkedList.java:72-75 | head h, the very list it was called on as the tail, one more element, h followed by the old elements |
| PersistentLinkedList.EmptyList | src/main/java/com/dorr/persistent/LinkedList.java:60-61 | size 0, no elements, no head and no tail |
| PersistentLinkedList.Of | src/main/java/com/dorr/persistent/LinkedList.java:62-68 | the elements in argument order |
| PersistentLinkedList.ListCursor.constructor | src/main/java/com/dorr/persistent/LinkedList.java:88-89 | a cursor at position 0 of the list |
| PersistentLinkedList.ListCursor.HasNext | src/main/java/com/dorr/persistent/LinkedList.java:96-99 | true exactly when the position is before the end |
| PersistentLinkedList.ListCursor.NextIndex | src/main/java/com/dorr/persistent/LinkedList.java:100-103 | the position, from which the rest of the list starts |
| PersistentLinkedList.ListCursor.Next | src/main/java/com/dorr/persistent/LinkedList.java:104-110 | the element at the position, which then moves on by one; NoSuchElementException at the end, with the cursor unchanged |
| PersistentLinkedList.ListCursor.HasPrevious | src/main/java/com/dorr/persistent/LinkedList.java:113-116 | never |
| PersistentLinkedList.ListCursor.PreviousIndex | src/main/java/com/dorr/persistent/LinkedList.java:117-120 | always -1 |
| PersistentLinkedList.ListCursor.Previous | src/main/java/com/dorr/persistent/LinkedList.java:121-124 | always UnsupportedOperationException |
| PersistentLinkedList.ListIterator | src/main/java/com/dorr/persistent/LinkedList.java:83-94 | IndexOutOfBoundsException unless 0 <= i <= size; otherwise a cursor positioned after i elements |
| SharedLinkedList.Size | src/main/java/com/github/douglasorr/shared/LinkedList.java:148-151 | the cached size is the number of elements |
| SharedLinkedList.Construct | src/main/java/com/github/douglasorr/shared/LinkedList.java:23-27 | size 0 for a null head, otherwise one more than the tail's size; NullPointerException for a head without a tail |
| SharedLinkedList.EmptyList | src/main/java/com/github/douglasorr/shared/LinkedList.java:31-33 | no elements, size 0 |
| SharedLinkedList.Head | src/main/java/com/github/douglasorr/shared/LinkedList.java:68-75 | the first element; NoSuchElementException exactly on the empty list |
| SharedLinkedList.Tail | src/main/java/com/github/douglasorr/shared/LinkedList.java:77-84 | the elements after the first; NoSuchElementException exactly when the tail is null, which on a valid list is exactly when it is empty |
| SharedLinkedList.Prepend | src/main/java/com/github/douglasorr/shared/LinkedList.java:63-66 | head h, the very list it was called on as the tail, one more element, h followed by the old elements |
| SharedLinkedList.Singleton | src/main/java/com/github/douglasorr/shared/LinkedList.java:50-52 | size 1, the value as its only element, and the empty list as its tail |
| SharedLinkedList.Of | src/main/java/com/github/douglasorr/shared/LinkedList.java:53-59 | the elements in argument order |
| SharedLinkedList.Copy | src/main/java/com/github/douglasorr/shared/LinkedList.java:34-47 | from a shared LinkedList: the same head, tail and size, nothing copied; from another collection: its elements in order |
| SharedLinkedList.ListCursor.constructor | src/main/java/com/github/douglasorr/shared/LinkedList.java:94-95 | a cursor at position 0 of the list |
| SharedLinkedList.ListCursor.HasNext | src/main/java/com/github/douglasorr/shared/LinkedList.java:102-105 | true exactly when the position is before the end |
| SharedLinkedList.ListCursor.NextIndex | src/main/java/com/github/douglasorr/shared/LinkedList.java:106-109 | the position, from which the rest of the list starts |
| SharedLinkedList.ListCursor.Next | src/main/java/com/github/douglasorr/shared/LinkedList.java:110-116 | the element at the position, which then moves on by one; NoSuchElementException at the end, with the cursor unchanged |
| SharedLinkedList.ListCursor.HasPrevious | src/main/java/com/github/douglasorr/shared/LinkedList.java:119-122 | never |
| SharedLinkedList.ListCursor.PreviousIndex | src/main/java/com/github/douglasorr/shared/LinkedList.java:123-126 | always -1 |
| SharedLinkedList.ListCursor.Previous | src/main/java/com/github/douglasorr/shared/LinkedList.java:127-130 | always UnsupportedOperationException |
| SharedLinkedList.ListIterator | src/main/java/com/github/douglasorr/shared/LinkedList.java:88-100 | IndexOutOfBoundsException unless 0 <= i <= size; otherwise a cursor positioned after i elements |
| PersistentArrays.SubList | src/main/java/com/dorr/persistent/PersistentArrays.java:23 | the elements from..to; IndexOutOfBoundsException for an end outside the list; IllegalArgumentException when the ends are the wrong way round |
| PersistentArrays.Insert | src/main/java/com/dorr/persistent/PersistentArrays.java:20-24 | for 0 <= i <= n: a valid array of size n+1 with elements a[0..i) ++ [v] ++ a[i..n); IndexOutOfBoundsException otherwise, from `take` |
| PersistentArrays.Remove | src/main/java/com/dorr/persistent/PersistentArrays.java:34-37 | for 0 <= i < n: a valid array of size n-1 with elements a[0..i) ++ a[i+1..n); IndexOutOfBoundsException outside 0..n; IllegalArgumentException for i == n |
| PersistentArrays.InsertedPositions | src/main/java/com/dorr/persistent/PersistentArrays.java:12-19 | the value sits at index i; earlier elements keep their places and later ones move forward by one |
| PersistentArrays.RemovedPositions | src/main/java/com/dorr/persistent/PersistentArrays.java:26-33 | earlier elements keep their places and later ones move back by one |
| PersistentArrays.InsertRemoveInverse | src/main/java/com/github/douglasorr/shared/SharedArrays.java:20-37 | removing at the insertion index gives back the original elements, and inserting a removed element back at its index does too |

`PersistentArrays.Insert` and `PersistentArrays.Remove` also model `SharedArrays.insert`
and `SharedArrays.remove`. Those are the same code at the same lines
(src/main/java/com/github/douglasorr/shared/SharedArrays.java:20-24 and :34-37).

## Left out

- Java serialization (`writeExternal`/`readExternal` of TrieArray and of the shared
  LinkedList) is object-stream I/O.
- `equals`, `hashCode`, `toString` and `asMap` of HashTrieMap, the map adapter and the
  set classes are delegation or foreign code.
- Key hashing and equality are foreign. `hashCode()` is the parameter `hash`; `equals`
  is Dafny's `==`.
- The remaining `AbstractList`/`AbstractSequentialList` methods (`contains`, `equals`,
  `indexOf`, ...) are library code. Only the range checks of `subList`, which
  `insert`/`remove` rely on, are modelled (`PersistentArrays.SubList`).
- The iterators' mutators (`add`, `remove`, `set`) only throw
  UnsupportedOperationException.
- Reference identity ("returns `this`", "the same instance") is stated as value
  equality, e.g. `Take(a, a.size) == Ok(a)` and `Tail(After(l, h)) == Ok(l)`. Because
  every value is immutable, "the original is unmodified" holds by construction.
- TrieArrayOps.Append: requires size below 2^30. TrieArrayConcat.AppendAll,
  TrieArrayConcat.Of and PersistentArrays.Insert take the same bound on the result's
  size. Java's 32-bit arithmetic (`BLOCK_SIZE << (NBITS * level)` overflowing at
  level 6, shift counts masked to five bits) is not modelled, so the height stays at
  most 6.
- HashTrieNodes.Chunk: the shift is masked to five bits, as Java's `>>>` does. The
  two-entry collision arrays built at shift 35 are modelled as the code builds them.
- A node's `hasChild` int is a 32-element `seq<bool>`, and `Integer.bitCount` a count
  over it.
- HashTrieIterator.DepthFirstIterator.constructor and AsWritten require the root to
  have the shape the iterator relies on (`Iterable`). `WFIterable` shows that every
  well-formed root has it, so `put` and the corrected `remove` only build such roots.
  `RemoveAsWrittenIterable` shows that the source's own `remove` does too. Iterating one-entry collision arrays, which
  `put` never builds, is therefore not modelled. That is the path where, as written,
  the position runs past the end and is never advanced.
- HashTrieIterator.DepthFirstIterator.Next: past the end it throws
  NoSuchElementException, as `Iterator.next` requires. As written the source throws
  ArrayIndexOutOfBoundsException there (see Findings).
- SharedLinkedList.Prepend: the new head is never null. `prepend(null)` would yield a
  list reporting size 0 that still has a tail. `of` and the copy constructor treat
  their elements the same way.
- PersistentArrays.Insert and PersistentArrays.Remove are methods, not functions.
  `take`, `append` and `appendAll` are methods in this model because the source builds
  their results in loops.
- Benchmarks, profiling programs, tests and the JavaScript charting page are not part
  of this model.

Where the code does something other than what its own comments and the interface it
implements say, the model follows the code:
- `DepthFirstIterator` implements `java.util.Iterator`
  (src/main/java/com/dorr/persistent/HashTrieMap.java:314), whose `next` returns each
  element in turn and throws NoSuchElementException once none is left. The comment at
  src/main/java/com/dorr/persistent/HashTrieMap.java:338 says the walk stays in a
  collision array while it still has entries. As written, iteration stops after the first
  entry of every collision array, fails on a single-entry root, and throws
  ArrayIndexOutOfBoundsException past the end.
- The comment at src/main/java/com/dorr/persistent/HashTrieMap.java:252 says a node left
  with one child collapses to an Entry for that child. The code collapses onto the other
  child whatever it is, including a node built for the next level.

Both are among the findings.

## Findings

| source | as written | input that shows it | evidently intended | confidence | as-written member | corrected member |
|---|---|---|---|---|---|---|
| src/main/java/com/dorr/persistent/HashTrieMap.java:282 | a 2-entry collision array returns `currentCollision[2 - idx]` | keys 0 and -1 with equal hash codes, put into an empty map, then `remove(-1)` (throws ArrayIndexOutOfBoundsException) or `remove(0)` (key 0 stays) | return the other entry, `currentCollision[1 - idx]`, as the node case at :253 does | not executed | HashTrieRemoveDefects.CollisionPairThrows | HashTrieRemoveDefects.CollisionPairCorrected |
| src/main/java/com/dorr/persistent/HashTrieMap.java:257 | a node of three or more children drops a child with `copyWithout`, moving the last child into its slot | keys 0, 1 and 2 with `Integer.hashCode` put into an empty map, then `remove(0)`: key 1 is no longer found | remove the child keeping the children in bit order | not executed | HashTrieRemoveDefects.CopyWithoutOrderAsWritten | HashTrieRemoveDefects.CopyWithoutOrderCorrected |
| src/main/java/com/dorr/persistent/HashTrieMap.java:251-253 | a two-child node losing a child collapses to the other child even when it is a node | keys 1, 33 and 0 with `Integer.hashCode` put into an empty map, then `remove(0)`: key 1 is no longer found | collapse only onto an entry or collision array; keep a node child under a one-child node | not executed | HashTrieRemoveDefects.CollapseNodeAsWritten | HashTrieRemoveDefects.CollapseNodeCorrected |
| src/main/java/com/dorr/persistent/HashTrieMap.java:342 | `moveToNext` reads `mNodeStack[mNodeStackPointer]` with an empty stack | `singleton(k, v).iterator()`: `hasNext()` is true, `next()` throws ArrayIndexOutOfBoundsException | yield the entry, then end | not executed | HashTrieIteratorDefects.SingletonIterationAsWritten | HashTrieIteratorDefects.SingletonIteration |
| src/main/java/com/dorr/persistent/HashTrieMap.java:336-337 | the collision test is inverted: the walk stays in a collision array only once the position has run past its end | keys 0 and -1 with equal hash codes put into an empty map: iteration yields only the entry of -1 | yield every entry of the collision array, then move on | not executed | HashTrieIteratorDefects.CollidingIterationAsWritten | HashTrieIteratorDefects.CollidingIteration |
| src/main/java/com/dorr/persistent/HashTrieMap.java:379-388 | `next()` at the end calls `moveToNext`, which reads index -1 of the stack | `empty().iterator().next()` throws ArrayIndexOutOfBoundsException | NoSuchElementException, as `Iterator.next` specifies | not executed | HashTrieIteratorDefects.EmptyIterationAsWritten | HashTrieIterator.DepthFirstIterator.Next |
