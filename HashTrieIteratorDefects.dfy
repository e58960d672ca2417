/** The iterator as written against the corrected one, on concrete maps: a single-entry map,
    the empty map, and the colliding pair of keys 0 and -1 (entries Entry(k, 10 + k)). */
module HashTrieIteratorDefects {
  import opened Wrappers
  import opened HashTrieNodes
  import opened HashTrieMapOps
  import opened HashTrieListing
  import opened HashTrieIterator
  import opened HashTrieRemoveDefects

  /** As written, a single-entry map reports a next entry, but `next()` reads
      `mNodeStack[-1]` and throws, so the entry is never returned. */
  method SingletonIterationAsWritten<K, V>(key: K, value: V, ghost hash: K -> HashCode)
    returns (hasNext: bool, r: Result<Entry<K, V>>)
    ensures hasNext && r == Throws(ArrayIndexOutOfBoundsException)
  {
    EmptyAndSingleton(key, value, hash);
    var it := IteratorAsWritten(Singleton(key, value), hash);
    hasNext := it.HasNext();
    r := it.NextAsWritten();
  }

  /** Corrected, the single entry is returned and the iteration ends. */
  method SingletonIteration<K, V>(key: K, value: V, ghost hash: K -> HashCode)
    returns (r: Result<Entry<K, V>>, hasMore: bool)
    ensures r == Ok(Entry(key, value)) && !hasMore
  {
    EmptyAndSingleton(key, value, hash);
    var it := Iterator(Singleton(key, value), hash);
    r := it.Next();
    hasMore := it.HasNext();
  }

  /** The empty map yields nothing; as written a `next()` anyway throws
      ArrayIndexOutOfBoundsException where `Iterator` promises NoSuchElementException. */
  method EmptyIterationAsWritten<K, V>(ghost hash: K -> HashCode) returns (hasNext: bool, r: Result<Entry<K, V>>)
    ensures !hasNext && r == Throws(ArrayIndexOutOfBoundsException)
  {
    var it := IteratorAsWritten(Empty<K, V>(), hash);
    hasNext := it.HasNext();
    r := it.NextAsWritten();
  }

  lemma {:induction false} ChainListing(d: nat, c: Slot<int, int>, firstOnly: bool)
    ensures Listing(Chain(d, c), firstOnly) == Listing(c, firstOnly)
  {
    if d > 0 {
      var x := Chain(d - 1, c);
      ChainListing(d - 1, c, firstOnly);
      assert [x][1..] == [];
      assert ListingAll([x], firstOnly) == Listing(x, firstOnly) + ListingAll([], firstOnly);
    }
  }

  /** As written, iterating the colliding pair yields only the entry of key -1, although
      `get` finds key 0 as well. */
  lemma CollidingListingAsWritten(hash: int -> HashCode)
    requires Colliding(hash)
    ensures MapListing(CollidingMap(hash), true) == [E(-1)]
    ensures MapGet(CollidingMap(hash), 0, hash) == Some(10) && CollidingMap(hash).size == 2
  {
    CollidingMapShape(hash);
    ChainListing(7, Collision([E(-1), E(0)]), true);
  }

  /** Corrected, both entries of the collision array are yielded, in array order. */
  lemma CollidingListing(hash: int -> HashCode)
    requires Colliding(hash)
    ensures MapListing(CollidingMap(hash), false) == [E(-1), E(0)]
  {
    CollidingMapShape(hash);
    ChainListing(7, Collision([E(-1), E(0)]), false);
  }

  /** The iterator as written on the colliding pair: one entry, then `hasNext()` is false. */
  method CollidingIterationAsWritten(hash: int -> HashCode) returns (first: Result<Entry<int, int>>, hasMore: bool)
    requires Colliding(hash)
    ensures first == Ok(E(-1)) && !hasMore
  {
    CollidingMapShape(hash);
    CollidingListingAsWritten(hash);
    var it := IteratorAsWritten(CollidingMap(hash), hash);
    first := it.NextAsWritten();
    hasMore := it.HasNext();
  }

  /** The corrected iterator on the colliding pair: both entries, then the end. */
  method CollidingIteration(hash: int -> HashCode) returns (first: Result<Entry<int, int>>, second: Result<Entry<int, int>>, hasMore: bool)
    requires Colliding(hash)
    ensures first == Ok(E(-1)) && second == Ok(E(0)) && !hasMore
  {
    CollidingMapShape(hash);
    CollidingListing(hash);
    var it := Iterator(CollidingMap(hash), hash);
    first := it.Next();
    second := it.Next();
    hasMore := it.HasNext();
  }
}
