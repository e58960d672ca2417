/** The order in which HashTrieMap's `DepthFirstIterator` visits entries, as reference
    definitions: children left to right (by bit), a node's subtrees before its later
    siblings, and the entries of a collision array in array order. `firstOnly` selects
    the walk as written, which leaves a collision array after its first entry. */
module HashTrieListing {
  import opened Wrappers
  import opened HashTrieNodes
  import opened HashTrieMapOps

  /** The entries a depth-first walk yields from a slot. */
  function Listing<K, V>(t: Slot<K, V>, firstOnly: bool): seq<Entry<K, V>>
    decreases t
  {
    match t
    case Leaf(e) => [e]
    case Collision(es) => if firstOnly && es != [] then [es[0]] else es
    case Node(cs, _) => ListingAll(cs, firstOnly)
  }

  function ListingAll<K, V>(cs: seq<Slot<K, V>>, firstOnly: bool): seq<Entry<K, V>>
    decreases cs
  {
    if cs == [] then [] else Listing(cs[0], firstOnly) + ListingAll(cs[1..], firstOnly)
  }

  /** The entries `iterator()` yields for a map: none for the empty map. */
  function MapListing<K, V>(m: HashTrieMap<K, V>, firstOnly: bool): seq<Entry<K, V>>
  {
    if m.root.None? then [] else Listing(m.root.value, firstOnly)
  }

  /** The shape the iterator relies on for a slot reached at `shift`: nodes only below
      shift 32 (so at most MAX_DEPTH of them on a path), each with a child, and
      collision arrays of two or more entries. */
  ghost predicate Iterable<K, V>(t: Slot<K, V>, shift: nat)
    decreases t
  {
    match t
    case Leaf(_) => true
    case Collision(es) => |es| >= 2
    case Node(cs, _) =>
      shift < INT_SIZE && |cs| >= 1 && forall j :: 0 <= j < |cs| ==> Iterable(cs[j], shift + HASH_SHIFT)
  }

  /** No collision array anywhere under the slot. */
  ghost predicate NoCollisions<K, V>(t: Slot<K, V>)
    decreases t
  {
    match t
    case Leaf(_) => true
    case Collision(_) => false
    case Node(cs, _) => forall j :: 0 <= j < |cs| ==> NoCollisions(cs[j])
  }

  /** Every slot `put` and `remove` keep has the shape the iterator relies on. */
  lemma {:induction false} WFIterable<K, V>(t: Slot<K, V>, shift: nat, hash: K -> HashCode)
    requires WF(t, shift, hash)
    ensures Iterable(t, shift)
    decreases t
  {
    match t
    case Leaf(_) =>
    case Collision(_) =>
    case Node(cs, _) =>
      forall j | 0 <= j < |cs|
        ensures Iterable(cs[j], shift + HASH_SHIFT)
      {
        WFIterable(cs[j], shift + HASH_SHIFT, hash);
      }
  }

  // Membership and length

  lemma {:induction false} ListingAllMember<K, V>(cs: seq<Slot<K, V>>, firstOnly: bool, e: Entry<K, V>)
    ensures e in ListingAll(cs, firstOnly) <==> exists j :: 0 <= j < |cs| && e in Listing(cs[j], firstOnly)
    decreases |cs|
  {
    if cs != [] {
      ListingAllMember(cs[1..], firstOnly, e);
      if e in ListingAll(cs[1..], firstOnly) {
        var j :| 0 <= j < |cs[1..]| && e in Listing(cs[1..][j], firstOnly);
        assert cs[j + 1] == cs[1..][j];
      }
      if exists j :: 0 <= j < |cs| && e in Listing(cs[j], firstOnly) {
        var j :| 0 <= j < |cs| && e in Listing(cs[j], firstOnly);
        if j > 0 {
          assert cs[1..][j - 1] == cs[j];
        }
      }
    }
  }

  lemma CountAllFront<K, V>(cs: seq<Slot<K, V>>)
    requires cs != []
    ensures CountAll(cs) == Count(cs[0]) + CountAll(cs[1..])
  {
    assert cs == [cs[0]] + cs[1..];
    KeysAllConcat([cs[0]], cs[1..]);
    KeysAllOne(cs[0]);
  }

  /** The full walk yields as many entries as the slot stores. */
  lemma {:induction false} ListingCount<K, V>(t: Slot<K, V>)
    ensures |Listing(t, false)| == Count(t)
    decreases t, 1
  {
    match t
    case Leaf(_) =>
    case Collision(_) =>
    case Node(cs, _) => ListingAllCount(cs);
  }

  lemma {:induction false} ListingAllCount<K, V>(cs: seq<Slot<K, V>>)
    ensures |ListingAll(cs, false)| == CountAll(cs)
    decreases cs, 0
  {
    if cs != [] {
      ListingCount(cs[0]);
      ListingAllCount(cs[1..]);
      CountAllFront(cs);
    }
  }

  /** Every entry either walk yields is stored under the slot's keys. */
  lemma {:induction false} ListingKeys<K, V>(t: Slot<K, V>, firstOnly: bool, e: Entry<K, V>)
    requires e in Listing(t, firstOnly)
    ensures e.key in Keys(t)
    decreases t
  {
    match t
    case Leaf(_) =>
    case Collision(es) =>
      var j :| 0 <= j < |es| && es[j] == e;
    case Node(cs, _) =>
      ListingAllMember(cs, firstOnly, e);
      var j :| 0 <= j < |cs| && e in Listing(cs[j], firstOnly);
      ListingKeys(cs[j], firstOnly, e);
      KeysAllMember(cs, e.key);
  }

  /** Every entry a walk yields is what `get` finds for its key. */
  lemma {:induction false} ListingFound<K, V>(t: Slot<K, V>, shift: nat, hash: K -> HashCode, firstOnly: bool, e: Entry<K, V>)
    requires WF(t, shift, hash) && e in Listing(t, firstOnly)
    ensures Lookup(t, e.key, shift, hash) == Some(e.value)
    decreases t
  {
    match t
    case Leaf(_) =>
    case Collision(es) =>
      var j :| 0 <= j < |es| && es[j] == e;
      var i := FirstMatch(es, e.key);
      assert i <= j;
      assert i == j;
    case Node(cs, bits) =>
      ListingAllMember(cs, firstOnly, e);
      var j :| 0 <= j < |cs| && e in Listing(cs[j], firstOnly);
      ListingKeys(cs[j], firstOnly, e);
      assert Routes(bits, Chunk(hash(e.key), shift), j);
      ListingFound(cs[j], shift + HASH_SHIFT, hash, firstOnly, e);
  }

  /** Every value `get` finds is yielded by the full walk, with its key. */
  lemma {:induction false} ListingComplete<K, V>(t: Slot<K, V>, key: K, shift: nat, hash: K -> HashCode)
    requires Lookup(t, key, shift, hash).Some?
    ensures Entry(key, Lookup(t, key, shift, hash).value) in Listing(t, false)
    decreases t
  {
    match t
    case Leaf(_) =>
    case Collision(es) =>
      var i := FirstMatch(es, key);
      assert es[i] == Entry(key, es[i].value);
    case Node(cs, bits) =>
      var j := ChildIndex(bits, Chunk(hash(key), shift));
      ListingComplete(cs[j], key, shift + HASH_SHIFT, hash);
      ListingAllMember(cs, false, Entry(key, Lookup(t, key, shift, hash).value));
  }

  // Distinct keys

  lemma DistinctConcat<K, V>(a: seq<Entry<K, V>>, b: seq<Entry<K, V>>)
    requires DistinctKeys(a) && DistinctKeys(b)
    requires forall x, y :: x in a && y in b ==> x.key != y.key
    ensures DistinctKeys(a + b)
  {
    forall i, j | 0 <= i < j < |a + b|
      ensures (a + b)[i].key != (a + b)[j].key
    {
      if j < |a| {
        assert (a + b)[i] == a[i] && (a + b)[j] == a[j];
      } else if i < |a| {
        assert (a + b)[i] in a && (a + b)[j] in b;
      } else {
        assert (a + b)[i] == b[i - |a|] && (a + b)[j] == b[j - |a|];
      }
    }
  }

  /** No key appears twice in a walk of a well-formed slot. */
  lemma {:induction false} ListingDistinct<K, V>(t: Slot<K, V>, shift: nat, hash: K -> HashCode, firstOnly: bool)
    requires WF(t, shift, hash)
    ensures DistinctKeys(Listing(t, firstOnly))
    decreases t, 1
  {
    match t
    case Leaf(_) =>
    case Collision(es) =>
    case Node(cs, bits) =>
      ListingAllDistinct(cs, bits, shift, hash, firstOnly, 0);
      assert cs[0..] == cs;
  }

  lemma {:induction false} ListingAllDistinct<K, V>(cs: seq<Slot<K, V>>, bits: seq<bool>, shift: nat, hash: K -> HashCode, firstOnly: bool, i: nat)
    requires WF(Node(cs, bits), shift, hash) && i <= |cs|
    ensures DistinctKeys(ListingAll(cs[i..], firstOnly))
    decreases Node(cs, bits), 0, |cs| - i
  {
    if i < |cs| {
      var rest := cs[i..][1..];
      assert rest == cs[i + 1..];
      ListingDistinct(cs[i], shift + HASH_SHIFT, hash, firstOnly);
      ListingAllDistinct(cs, bits, shift, hash, firstOnly, i + 1);
      forall x, y | x in Listing(cs[i], firstOnly) && y in ListingAll(rest, firstOnly)
        ensures x.key != y.key
      {
        ListingKeys(cs[i], firstOnly, x);
        assert Routes(bits, Chunk(hash(x.key), shift), i);
        ListingAllMember(rest, firstOnly, y);
        var j :| 0 <= j < |rest| && y in Listing(rest[j], firstOnly);
        assert rest[j] == cs[i + 1 + j];
        ListingKeys(cs[i + 1 + j], firstOnly, y);
        assert Routes(bits, Chunk(hash(y.key), shift), i + 1 + j);
      }
      DistinctConcat(Listing(cs[i], firstOnly), ListingAll(rest, firstOnly));
    } else {
      assert cs[i..] == [];
    }
  }

  // Map-level meaning

  /** Iterating a map yields each of its entries exactly once: as many entries as its
      size, no key twice, and an entry exactly when `get` maps its key to its value. */
  lemma ListingMeaning<K, V>(m: HashTrieMap<K, V>, hash: K -> HashCode)
    requires Valid(m, hash)
    ensures |MapListing(m, false)| == m.size
    ensures DistinctKeys(MapListing(m, false))
    ensures forall k, v :: Entry(k, v) in MapListing(m, false) <==> MapGet(m, k, hash) == Some(v)
  {
    if m.root.Some? {
      var t := m.root.value;
      ListingCount(t);
      ListingDistinct(t, 0, hash, false);
      forall k, v
        ensures Entry(k, v) in MapListing(m, false) <==> MapGet(m, k, hash) == Some(v)
      {
        if Entry(k, v) in Listing(t, false) {
          ListingFound(t, 0, hash, false, Entry(k, v));
        }
        if MapGet(m, k, hash) == Some(v) {
          ListingComplete(t, k, 0, hash);
        }
      }
    }
  }

  /** Without collision arrays, leaving a collision array early changes nothing: the walk
      as written yields exactly the full walk. */
  lemma {:induction false} FirstOnlyWithoutCollisions<K, V>(t: Slot<K, V>)
    requires NoCollisions(t)
    ensures Listing(t, true) == Listing(t, false)
    decreases t, 1
  {
    match t
    case Leaf(_) =>
    case Node(cs, _) => FirstOnlyAllWithoutCollisions(cs);
  }

  lemma {:induction false} FirstOnlyAllWithoutCollisions<K, V>(cs: seq<Slot<K, V>>)
    requires forall j :: 0 <= j < |cs| ==> NoCollisions(cs[j])
    ensures ListingAll(cs, true) == ListingAll(cs, false)
    decreases cs, 0
  {
    if cs != [] {
      FirstOnlyWithoutCollisions(cs[0]);
      assert forall j :: 0 <= j < |cs[1..]| ==> cs[1..][j] == cs[j + 1];
      FirstOnlyAllWithoutCollisions(cs[1..]);
    }
  }
}
