/** Maps on which the source's `remove` goes wrong: `int` keys, key k mapped to 10 + k,
    under any hash function that gives the keys used the codes stated (`Integer.hashCode`
    is the identity; keys -1 and 0 of the collision case need a function under which
    they collide). Each map is built by `put`; on each, `RemoveAsWritten` misbehaves
    while the corrected `Remove` does what `RemoveMeaning` promises. */
module HashTrieRemoveDefects {
  import opened Wrappers
  import opened HashTrieNodes
  import opened HashTrieMapOps
  import opened HashTrieInsert
  import opened HashTrieRemove

  /** Keys 0 and -1 have the same hash code, 0. */
  ghost predicate Colliding(hash: int -> HashCode)
  {
    hash(0) == 0 && hash(-1) == 0
  }

  /** `Integer.hashCode` on the keys used below: the key itself. */
  ghost predicate IntegerHash(hash: int -> HashCode)
  {
    hash(0) == 0 && hash(1) == 1 && hash(2) == 2 && hash(33) == 33
  }

  /** The entry of key k. */
  function E(k: int): Entry<int, int>
  {
    Entry(k, 10 + k)
  }

  /** The bitmap with bits 0 and 1 set. */
  function B01(): seq<bool>
  {
    SingleBit(0)[1 := true]
  }

  lemma Prefix1(b: seq<bool>)
    requires |b| >= 1
    ensures BitCount(b[..1]) == if b[0] then 1 else 0
    ensures ChildIndex(b, 0) == 0
  {
    assert b[..1][..0] == [];
    assert b[..0] == [];
  }

  lemma Prefix2(b: seq<bool>)
    requires |b| >= 2
    ensures BitCount(b[..2]) == (if b[0] then 1 else 0) + (if b[1] then 1 else 0)
  {
    Prefix1(b);
    assert b[..2][..1] == b[..1];
  }

  lemma ZeroChunk(shift: nat)
    ensures Chunk(0, shift) == 0
  {
  }

  // A 2-entry collision array (HashTrieMap.java:282)

  /** d single-child nodes on bit 0 above `inner`. */
  function Chain(d: nat, inner: Slot<int, int>): Slot<int, int>
  {
    if d == 0 then inner else Node([Chain(d - 1, inner)], SingleBit(0))
  }

  /** Below shift 32, putting key -1 into the entry of key 0 splits it into a node of one
      child, in which the insertion continues. */
  lemma CollidingSplit(shift: nat, hash: int -> HashCode)
    requires shift < INT_SIZE && Colliding(hash) && Chunk(0, shift) == 0
    ensures Insert(Leaf(E(0)), -1, 9, shift, hash) == Node([Insert(Leaf(E(0)), -1, 9, shift + HASH_SHIFT, hash)], SingleBit(0))
  {
    SplitShape(E(0), shift, hash);
    Prefix1(SingleBit(0));
    InsertDescend(Split(E(0), shift, hash), -1, 9, shift, hash);
  }

  /** Putting key -1 next to key 0 (same hash) splits at all seven levels below shift 32
      and ends in a 2-entry collision array at shift 35. */
  lemma CollidingInsert(hash: int -> HashCode)
    requires Colliding(hash)
    ensures Insert(Leaf(E(0)), -1, 9, 0, hash) == Chain(7, Collision([E(-1), E(0)]))
  {
    CollidingSplit(30, hash);
    CollidingSplit(25, hash);
    CollidingSplit(20, hash);
    CollidingSplit(15, hash);
    CollidingSplit(10, hash);
    CollidingSplit(5, hash);
    CollidingSplit(0, hash);
  }

  /** A single-child node on bit 0 passes the removal of a key of chunk 0 to its child:
      an exception propagates ... */
  lemma ChainThrowsStep(t: Slot<int, int>, inner: Slot<int, int>, key: int, shift: nat, hash: int -> HashCode)
    requires t == Node([inner], SingleBit(0)) && hash(key) == 0
    requires RemoveKeyAsWritten(inner, key, shift + HASH_SHIFT, hash) == Throws(ArrayIndexOutOfBoundsException)
    ensures RemoveKeyAsWritten(t, key, shift, hash) == Throws(ArrayIndexOutOfBoundsException)
  {
    ZeroChunk(shift);
    Prefix1(SingleBit(0));
  }

  /** ... and a changed child is put in place. */
  lemma ChainChangedStep(t: Slot<int, int>, inner: Slot<int, int>, key: int, shift: nat, hash: int -> HashCode, c: Slot<int, int>)
    requires t == Node([inner], SingleBit(0)) && hash(key) == 0
    requires RemoveKeyAsWritten(inner, key, shift + HASH_SHIFT, hash) == Ok(Changed(c))
    ensures RemoveKeyAsWritten(t, key, shift, hash) == Ok(Changed(Node([c], SingleBit(0))))
  {
    ZeroChunk(shift);
    Prefix1(SingleBit(0));
    assert [inner][0 := c] == [c];
  }

  /** Looking up a key of chunk 0 in a single-child node on bit 0 looks in the child. */
  lemma ChainLookupStep(t: Slot<int, int>, inner: Slot<int, int>, key: int, shift: nat, hash: int -> HashCode)
    requires t == Node([inner], SingleBit(0)) && hash(key) == 0
    ensures Lookup(t, key, shift, hash) == Lookup(inner, key, shift + HASH_SHIFT, hash)
  {
    ZeroChunk(shift);
    Prefix1(SingleBit(0));
  }

  /** Under three single-child nodes, the removal of a key of hash 0 throws when it throws
      at the bottom ... */
  lemma LowerChainThrows(c: Slot<int, int>, key: int, hash: int -> HashCode)
    requires hash(key) == 0 && RemoveKeyAsWritten(c, key, 35, hash) == Throws(ArrayIndexOutOfBoundsException)
    ensures RemoveKeyAsWritten(Chain(3, c), key, 20, hash) == Throws(ArrayIndexOutOfBoundsException)
  {
    assert Chain(0, c) == c;
    ChainThrowsStep(Chain(1, c), c, key, 30, hash);
    ChainThrowsStep(Chain(2, c), Chain(1, c), key, 25, hash);
    ChainThrowsStep(Chain(3, c), Chain(2, c), key, 20, hash);
  }

  lemma MiddleChainThrows(c: Slot<int, int>, key: int, hash: int -> HashCode)
    requires hash(key) == 0 && RemoveKeyAsWritten(c, key, 35, hash) == Throws(ArrayIndexOutOfBoundsException)
    ensures RemoveKeyAsWritten(Chain(5, c), key, 10, hash) == Throws(ArrayIndexOutOfBoundsException)
  {
    LowerChainThrows(c, key, hash);
    ChainThrowsStep(Chain(4, c), Chain(3, c), key, 15, hash);
    ChainThrowsStep(Chain(5, c), Chain(4, c), key, 10, hash);
  }

  /** ... and so it does under seven ... */
  lemma ChainThrows(c: Slot<int, int>, key: int, hash: int -> HashCode)
    requires hash(key) == 0 && RemoveKeyAsWritten(c, key, 35, hash) == Throws(ArrayIndexOutOfBoundsException)
    ensures RemoveKeyAsWritten(Chain(7, c), key, 0, hash) == Throws(ArrayIndexOutOfBoundsException)
  {
    MiddleChainThrows(c, key, hash);
    ChainThrowsStep(Chain(6, c), Chain(5, c), key, 5, hash);
    ChainThrowsStep(Chain(7, c), Chain(6, c), key, 0, hash);
  }

  /** ... it changes the chain's bottom when it changes the bottom slot ... */
  lemma LowerChainChanged(c: Slot<int, int>, key: int, hash: int -> HashCode, r: Slot<int, int>)
    requires hash(key) == 0 && RemoveKeyAsWritten(c, key, 35, hash) == Ok(Changed(r))
    ensures RemoveKeyAsWritten(Chain(3, c), key, 20, hash) == Ok(Changed(Chain(3, r)))
  {
    assert Chain(0, c) == c && Chain(0, r) == r;
    ChainChangedStep(Chain(1, c), c, key, 30, hash, r);
    ChainChangedStep(Chain(2, c), Chain(1, c), key, 25, hash, Chain(1, r));
    ChainChangedStep(Chain(3, c), Chain(2, c), key, 20, hash, Chain(2, r));
  }

  lemma MiddleChainChanged(c: Slot<int, int>, key: int, hash: int -> HashCode, r: Slot<int, int>)
    requires hash(key) == 0 && RemoveKeyAsWritten(c, key, 35, hash) == Ok(Changed(r))
    ensures RemoveKeyAsWritten(Chain(5, c), key, 10, hash) == Ok(Changed(Chain(5, r)))
  {
    LowerChainChanged(c, key, hash, r);
    ChainChangedStep(Chain(4, c), Chain(3, c), key, 15, hash, Chain(3, r));
    ChainChangedStep(Chain(5, c), Chain(4, c), key, 10, hash, Chain(4, r));
  }

  lemma ChainChanged(c: Slot<int, int>, key: int, hash: int -> HashCode, r: Slot<int, int>)
    requires hash(key) == 0 && RemoveKeyAsWritten(c, key, 35, hash) == Ok(Changed(r))
    ensures RemoveKeyAsWritten(Chain(7, c), key, 0, hash) == Ok(Changed(Chain(7, r)))
  {
    MiddleChainChanged(c, key, hash, r);
    ChainChangedStep(Chain(6, c), Chain(5, c), key, 5, hash, Chain(5, r));
    ChainChangedStep(Chain(7, c), Chain(6, c), key, 0, hash, Chain(6, r));
  }

  /** ... and a lookup of such a key finds what the bottom slot holds. */
  lemma ChainLookup(c: Slot<int, int>, key: int, hash: int -> HashCode)
    requires hash(key) == 0
    ensures Lookup(Chain(7, c), key, 0, hash) == Lookup(c, key, 35, hash)
  {
    assert Chain(0, c) == c;
    ChainLookupStep(Chain(1, c), c, key, 30, hash);
    ChainLookupStep(Chain(2, c), Chain(1, c), key, 25, hash);
    ChainLookupStep(Chain(3, c), Chain(2, c), key, 20, hash);
    ChainLookupStep(Chain(4, c), Chain(3, c), key, 15, hash);
    ChainLookupStep(Chain(5, c), Chain(4, c), key, 10, hash);
    ChainLookupStep(Chain(6, c), Chain(5, c), key, 5, hash);
    ChainLookupStep(Chain(7, c), Chain(6, c), key, 0, hash);
  }

  /** In the 2-entry collision array, removing the key at index 0 reads index 2 and
      throws; removing the key at index 1 leaves the entry at index 1 - the removed one -
      as the only entry. */
  lemma PairRemovals(hash: int -> HashCode)
    ensures RemoveKeyAsWritten(Collision([E(-1), E(0)]), -1, 35, hash) == Throws(ArrayIndexOutOfBoundsException)
    ensures RemoveKeyAsWritten(Collision([E(-1), E(0)]), 0, 35, hash) == Ok(Changed(Leaf(E(0))))
  {
    assert [E(-1), E(0)][1..] == [E(0)];
  }

  /** The map `put` builds from key 0 and then key -1. */
  function CollidingMap(hash: int -> HashCode): HashTrieMap<int, int>
  {
    EmptyAndSingleton<int, int>(0, 10, hash);
    Inserted(Singleton(0, 10), -1, 9, hash)
  }

  lemma CollidingMapShape(hash: int -> HashCode)
    requires Colliding(hash)
    ensures CollidingMap(hash) == HashTrieMap(Some(Chain(7, Collision([E(-1), E(0)]))), 2)
    ensures Valid(CollidingMap(hash), hash)
    ensures MapGet(CollidingMap(hash), 0, hash) == Some(10) && MapGet(CollidingMap(hash), -1, hash) == Some(9)
  {
    EmptyAndSingleton<int, int>(0, 10, hash);
    InsertedMeaning(Singleton(0, 10), -1, 9, hash);
    CollidingInsert(hash);
  }

  /** On the map of two keys with equal hashes, removing the key of the collision array's
      first entry throws ArrayIndexOutOfBoundsException ... */
  lemma CollisionPairThrows(hash: int -> HashCode)
    requires Colliding(hash)
    ensures Valid(CollidingMap(hash), hash)
    ensures RemoveAsWritten(CollidingMap(hash), Some(-1), hash) == Throws(ArrayIndexOutOfBoundsException)
  {
    CollidingMapShape(hash);
    PairRemovals(hash);
    ChainThrows(Collision([E(-1), E(0)]), -1, hash);
  }

  lemma CollidingMapRemoval(hash: int -> HashCode)
    requires Colliding(hash) && Valid(HashTrieMap(Some(Chain(7, Collision([E(-1), E(0)]))), 2), hash)
    ensures RemoveAsWritten(HashTrieMap(Some(Chain(7, Collision([E(-1), E(0)]))), 2), Some(0), hash)
      == Ok(HashTrieMap(Some(Chain(7, Leaf(E(0)))), 1))
  {
    PairRemovals(hash);
    ChainChanged(Collision([E(-1), E(0)]), 0, hash, Leaf(E(0)));
  }

  /** ... and removing the other key leaves that key in the map. */
  lemma CollisionPairKeeps(hash: int -> HashCode)
    requires Colliding(hash)
    ensures Valid(CollidingMap(hash), hash)
    ensures MapGet(CollidingMap(hash), 0, hash) == Some(10)
    ensures RemoveAsWritten(CollidingMap(hash), Some(0), hash).Ok?
    ensures MapGet(RemoveAsWritten(CollidingMap(hash), Some(0), hash).value, 0, hash) == Some(10)
  {
    CollidingMapShape(hash);
    CollidingMapRemoval(hash);
    ChainLookup(Leaf(E(0)), 0, hash);
  }

  /** The corrected removal drops exactly the key removed from that map. */
  lemma CollisionPairCorrected(hash: int -> HashCode)
    requires Colliding(hash)
    ensures Valid(CollidingMap(hash), hash)
    ensures MapGet(Remove(CollidingMap(hash), Some(-1), hash).value, 0, hash) == Some(10)
    ensures MapGet(Remove(CollidingMap(hash), Some(-1), hash).value, -1, hash) == None
    ensures MapGet(Remove(CollidingMap(hash), Some(0), hash).value, 0, hash) == None
    ensures MapGet(Remove(CollidingMap(hash), Some(0), hash).value, -1, hash) == Some(9)
  {
    CollidingMapShape(hash);
    RemoveMeaning(CollidingMap(hash), -1, hash);
    RemoveMeaning(CollidingMap(hash), 0, hash);
  }

  // A node of three children (HashTrieMap.java:257)

  /** Keys 0 and 1 put into a map become the children at bits 0 and 1 of the root. */
  lemma TwoKeys(hash: int -> HashCode)
    requires IntegerHash(hash)
    ensures Insert(Leaf(E(0)), 1, 11, 0, hash) == Node([Leaf(E(0)), Leaf(E(1))], B01())
    ensures WF(Node([Leaf(E(0)), Leaf(E(1))], B01()), 0, hash)
  {
    var n1 := Split(E(0), 0, hash);
    assert Chunk(hash(0), 0) == 0 && Chunk(hash(1), 0) == 1;
    SplitShape(E(0), 0, hash);
    Prefix1(SingleBit(0));
    InsertNewChild(n1, 1, 11, 0, hash);
    assert [Leaf(E(0))][..1] + [Leaf(E(1))] + [Leaf(E(0))][1..] == [Leaf(E(0)), Leaf(E(1))];
    InsertPreserves(n1, 1, 11, 0, hash);
  }

  /** Key 2 then becomes the child at bit 2. */
  lemma ThirdKey(hash: int -> HashCode)
    requires IntegerHash(hash) && WF(Node([Leaf(E(0)), Leaf(E(1))], B01()), 0, hash)
    ensures Insert(Node([Leaf(E(0)), Leaf(E(1))], B01()), 2, 12, 0, hash) == Node([Leaf(E(0)), Leaf(E(1)), Leaf(E(2))], B01()[2 := true])
    ensures Lookup(Node([Leaf(E(0)), Leaf(E(1))], B01()), 2, 0, hash) == None
  {
    assert Chunk(hash(2), 0) == 2;
    Prefix2(B01());
    InsertNewChild(Node([Leaf(E(0)), Leaf(E(1))], B01()), 2, 12, 0, hash);
    var cs := [Leaf(E(0)), Leaf(E(1))];
    assert cs[..2] + [Leaf(E(2))] + cs[2..] == cs + [Leaf(E(2))];
  }

  /** The map `put` builds from keys 0, 1 and 2. */
  function ThreeKeyMap(hash: int -> HashCode): HashTrieMap<int, int>
  {
    EmptyAndSingleton<int, int>(0, 10, hash);
    InsertedMeaning(Singleton(0, 10), 1, 11, hash);
    Inserted(Inserted(Singleton(0, 10), 1, 11, hash), 2, 12, hash)
  }

  lemma ThreeKeyMapShape(hash: int -> HashCode)
    requires IntegerHash(hash)
    ensures ThreeKeyMap(hash) == HashTrieMap(Some(Node([Leaf(E(0)), Leaf(E(1)), Leaf(E(2))], B01()[2 := true])), 3)
    ensures Valid(ThreeKeyMap(hash), hash)
    ensures MapGet(ThreeKeyMap(hash), 1, hash) == Some(11)
  {
    EmptyAndSingleton<int, int>(0, 10, hash);
    InsertedMeaning(Singleton(0, 10), 1, 11, hash);
    InsertedMeaning(Inserted(Singleton(0, 10), 1, 11, hash), 2, 12, hash);
    TwoKeys(hash);
    ThirdKey(hash);
  }

  /** Removing key 0 from the three-child root by `copyWithout` moves the child of bit 2
      into index 0, which bit 1 now leads to. */
  lemma ThreeKeyRemoval(hash: int -> HashCode)
    requires IntegerHash(hash)
    ensures RemoveKeyAsWritten(Node([Leaf(E(0)), Leaf(E(1)), Leaf(E(2))], B01()[2 := true]), 0, 0, hash)
      == Ok(Changed(Node([Leaf(E(2)), Leaf(E(1))], B01()[2 := true][0 := false])))
  {
    var cs := [Leaf(E(0)), Leaf(E(1)), Leaf(E(2))];
    assert Chunk(hash(0), 0) == 0;
    Prefix1(B01()[2 := true]);
    assert CopyWithout(cs, 0) == [Leaf(E(2)), Leaf(E(1))];
  }

  lemma ThreeKeyLost(hash: int -> HashCode)
    requires IntegerHash(hash)
    ensures Lookup(Node([Leaf(E(2)), Leaf(E(1))], B01()[2 := true][0 := false]), 1, 0, hash) == None
  {
    assert Chunk(hash(1), 0) == 1;
    Prefix1(B01()[2 := true][0 := false]);
  }

  lemma ThreeKeyMapRemoval(hash: int -> HashCode)
    requires IntegerHash(hash) && Valid(HashTrieMap(Some(Node([Leaf(E(0)), Leaf(E(1)), Leaf(E(2))], B01()[2 := true])), 3), hash)
    ensures RemoveAsWritten(HashTrieMap(Some(Node([Leaf(E(0)), Leaf(E(1)), Leaf(E(2))], B01()[2 := true])), 3), Some(0), hash)
      == Ok(HashTrieMap(Some(Node([Leaf(E(2)), Leaf(E(1))], B01()[2 := true][0 := false])), 2))
  {
    ThreeKeyRemoval(hash);
  }

  /** On the map of keys 0, 1 and 2, removing key 0 loses key 1. */
  lemma CopyWithoutOrderAsWritten(hash: int -> HashCode)
    requires IntegerHash(hash)
    ensures Valid(ThreeKeyMap(hash), hash)
    ensures MapGet(ThreeKeyMap(hash), 1, hash) == Some(11)
    ensures RemoveAsWritten(ThreeKeyMap(hash), Some(0), hash).Ok?
    ensures MapGet(RemoveAsWritten(ThreeKeyMap(hash), Some(0), hash).value, 1, hash) == None
  {
    ThreeKeyMapShape(hash);
    ThreeKeyMapRemoval(hash);
    ThreeKeyLost(hash);
  }

  /** The corrected removal keeps key 1. */
  lemma CopyWithoutOrderCorrected(hash: int -> HashCode)
    requires IntegerHash(hash)
    ensures Valid(ThreeKeyMap(hash), hash)
    ensures MapGet(Remove(ThreeKeyMap(hash), Some(0), hash).value, 1, hash) == Some(11)
  {
    ThreeKeyMapShape(hash);
    RemoveMeaning(ThreeKeyMap(hash), 0, hash);
  }

  // A node of two children, one of them a node (HashTrieMap.java:251-253)

  /** The node of keys 1 and 33 at shift 5, where their chunks are 0 and 1. */
  function Inner(): Slot<int, int>
  {
    Node([Leaf(E(1)), Leaf(E(33))], B01())
  }

  /** At shift 5 key 33 joins key 1 in a node of two children. */
  lemma LowerSplit(hash: int -> HashCode)
    requires IntegerHash(hash)
    ensures Insert(Leaf(E(1)), 33, 43, 5, hash) == Inner()
  {
    assert Chunk(hash(1), 5) == 0 && Chunk(hash(33), 5) == 1;
    SplitShape(E(1), 5, hash);
    Prefix1(SingleBit(0));
    InsertNewChild(Split(E(1), 5, hash), 33, 43, 5, hash);
    assert [Leaf(E(1))][..1] + [Leaf(E(33))] + [Leaf(E(1))][1..] == [Leaf(E(1)), Leaf(E(33))];
  }

  /** Keys 1 and 33 share chunk 1 at shift 0: put splits twice. */
  lemma SharedChunkKeys(hash: int -> HashCode)
    requires IntegerHash(hash)
    ensures Insert(Leaf(E(1)), 33, 43, 0, hash) == Node([Inner()], SingleBit(1))
  {
    assert Chunk(hash(1), 0) == 1 && Chunk(hash(33), 0) == 1;
    SplitShape(E(1), 0, hash);
    Prefix1(SingleBit(1));
    InsertDescend(Split(E(1), 0, hash), 33, 43, 0, hash);
    LowerSplit(hash);
  }

  /** Key 0 then joins the root at bit 0, before the node of keys 1 and 33. */
  lemma JoinRoot(hash: int -> HashCode)
    requires IntegerHash(hash) && WF(Node([Inner()], SingleBit(1)), 0, hash)
    ensures Insert(Node([Inner()], SingleBit(1)), 0, 10, 0, hash) == Node([Leaf(E(0)), Inner()], SingleBit(1)[0 := true])
    ensures Lookup(Node([Inner()], SingleBit(1)), 0, 0, hash) == None
  {
    assert Chunk(hash(0), 0) == 0;
    Prefix1(SingleBit(1));
    InsertNewChild(Node([Inner()], SingleBit(1)), 0, 10, 0, hash);
    assert [Inner()][..0] + [Leaf(E(0))] + [Inner()][0..] == [Leaf(E(0)), Inner()];
  }

  /** The map `put` builds from keys 1, 33 and 0. */
  function SharedChunkMap(hash: int -> HashCode): HashTrieMap<int, int>
  {
    EmptyAndSingleton<int, int>(1, 11, hash);
    InsertedMeaning(Singleton(1, 11), 33, 43, hash);
    Inserted(Inserted(Singleton(1, 11), 33, 43, hash), 0, 10, hash)
  }

  lemma SharedChunkMapShape(hash: int -> HashCode)
    requires IntegerHash(hash)
    ensures SharedChunkMap(hash) == HashTrieMap(Some(Node([Leaf(E(0)), Inner()], SingleBit(1)[0 := true])), 3)
    ensures Valid(SharedChunkMap(hash), hash)
    ensures MapGet(SharedChunkMap(hash), 1, hash) == Some(11)
  {
    EmptyAndSingleton<int, int>(1, 11, hash);
    InsertedMeaning(Singleton(1, 11), 33, 43, hash);
    InsertedMeaning(Inserted(Singleton(1, 11), 33, 43, hash), 0, 10, hash);
    SharedChunkKeys(hash);
    InsertPreserves(Leaf(E(1)), 33, 43, 0, hash);
    JoinRoot(hash);
  }

  /** Removing key 0 from that root lifts the node of keys 1 and 33, built for shift 5,
      into the root, where its bitmap is read with the chunks of shift 0. */
  lemma CollapseRemoval(hash: int -> HashCode)
    requires IntegerHash(hash)
    ensures RemoveKeyAsWritten(Node([Leaf(E(0)), Inner()], SingleBit(1)[0 := true]), 0, 0, hash) == Ok(Changed(Inner()))
  {
    assert Chunk(hash(0), 0) == 0;
    Prefix1(SingleBit(1)[0 := true]);
  }

  lemma CollapseLost(hash: int -> HashCode)
    requires IntegerHash(hash)
    ensures Lookup(Inner(), 1, 0, hash) == None
  {
    assert Chunk(hash(1), 0) == 1;
    Prefix1(B01());
  }

  lemma SharedChunkMapRemoval(hash: int -> HashCode)
    requires IntegerHash(hash) && Valid(HashTrieMap(Some(Node([Leaf(E(0)), Inner()], SingleBit(1)[0 := true])), 3), hash)
    ensures RemoveAsWritten(HashTrieMap(Some(Node([Leaf(E(0)), Inner()], SingleBit(1)[0 := true])), 3), Some(0), hash)
      == Ok(HashTrieMap(Some(Inner()), 2))
  {
    CollapseRemoval(hash);
  }

  /** On the map of keys 1, 33 and 0, removing key 0 loses key 1. */
  lemma CollapseNodeAsWritten(hash: int -> HashCode)
    requires IntegerHash(hash)
    ensures Valid(SharedChunkMap(hash), hash)
    ensures MapGet(SharedChunkMap(hash), 1, hash) == Some(11)
    ensures RemoveAsWritten(SharedChunkMap(hash), Some(0), hash).Ok?
    ensures MapGet(RemoveAsWritten(SharedChunkMap(hash), Some(0), hash).value, 1, hash) == None
  {
    SharedChunkMapShape(hash);
    SharedChunkMapRemoval(hash);
    CollapseLost(hash);
  }

  /** The corrected removal keeps key 1. */
  lemma CollapseNodeCorrected(hash: int -> HashCode)
    requires IntegerHash(hash)
    ensures Valid(SharedChunkMap(hash), hash)
    ensures MapGet(Remove(SharedChunkMap(hash), Some(0), hash).value, 1, hash) == Some(11)
  {
    SharedChunkMapShape(hash);
    RemoveMeaning(SharedChunkMap(hash), 0, hash);
  }
}
