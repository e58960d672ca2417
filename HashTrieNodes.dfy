/** The node shape of the persistent hash array mapped trie (HashTrieMap). A slot holds
    a single entry, a collision array of entries, or a node with a 32-bit presence
    bitmap and the compacted children of its set bits, ordered by bit. */
module HashTrieNodes {
  import opened Wrappers
  import opened Arith

  /** Bits of hash consumed per node level. */
  const HASH_SHIFT: nat := 5
  /** Java's `Integer.SIZE`: nodes are split only while the shift is below it. */
  const INT_SIZE: nat := 32

  /** A Java `int` hash code, read as the unsigned 32-bit value `>>>` works on. */
  type HashCode = h: nat | h < 0x1_0000_0000

  /** `PersistentMap.Entry`: an immutable key-value pair. */
  datatype Entry<K, V> = Entry(key: K, value: V)

  /** `child :: Node | Entry | Entry[]`. A node's `hasChild` int is its 32 bits,
      bit o at index o. */
  datatype Slot<K, V> =
    | Leaf(entry: Entry<K, V>)
    | Collision(entries: seq<Entry<K, V>>)
    | Node(children: seq<Slot<K, V>>, hasChild: seq<bool>)

  /** `(hash >>> shift) & HASH_MASK`; Java masks the shift count to its low five bits. */
  function Chunk(h: HashCode, shift: nat): (r: nat)
    ensures r < 32
  {
    (h / Pow2(shift % 32)) % 32
  }

  /** `Integer.bitCount` of the bits in `bits`. */
  function BitCount(bits: seq<bool>): nat
    decreases |bits|
  {
    if bits == [] then 0 else BitCount(bits[..|bits| - 1]) + (if bits[|bits| - 1] then 1 else 0)
  }

  /** `Integer.bitCount(hasChild & (mask - 1))` for `mask = 1 << offset`: how many set bits
      lie below the offset, i.e. the child index of that offset. */
  function ChildIndex(hasChild: seq<bool>, offset: nat): nat
    requires offset <= |hasChild|
  {
    BitCount(hasChild[..offset])
  }

  /** `1 << offset` as a bitmap. */
  function SingleBit(offset: nat): (bits: seq<bool>)
    requires offset < 32
    ensures |bits| == 32 && bits[offset]
    ensures forall j :: 0 <= j < 32 && j != offset ==> !bits[j]
  {
    seq(32, j => j == offset)
  }

  /** Offset `o` of a node with bitmap `hasChild` leads to child j. */
  ghost predicate Routes(hasChild: seq<bool>, o: nat, j: nat)
  {
    o < |hasChild| && hasChild[o] && ChildIndex(hasChild, o) == j
  }

  /** The first index of a collision array whose entry has key `key`, or its length:
      `findCollision`'s promise. */
  function FirstMatch<K(==), V>(entries: seq<Entry<K, V>>, key: K): (r: nat)
    ensures r <= |entries|
    ensures r < |entries| ==> entries[r].key == key
    ensures forall j :: 0 <= j < r ==> entries[j].key != key
    decreases |entries|
  {
    if entries == [] then 0
    else if entries[0].key == key then 0
    else 1 + FirstMatch(entries[1..], key)
  }

  /** The keys stored under a slot. */
  function Keys<K(==), V>(t: Slot<K, V>): set<K>
    decreases t
  {
    match t
    case Leaf(e) => {e.key}
    case Collision(es) => set j | 0 <= j < |es| :: es[j].key
    case Node(cs, _) => KeysAll(cs)
  }

  function KeysAll<K(==), V>(cs: seq<Slot<K, V>>): set<K>
    decreases cs
  {
    if cs == [] then {} else KeysAll(cs[..|cs| - 1]) + Keys(cs[|cs| - 1])
  }

  /** The number of entries stored under a slot. */
  function Count<K, V>(t: Slot<K, V>): nat
    decreases t
  {
    match t
    case Leaf(_) => 1
    case Collision(es) => |es|
    case Node(cs, _) => CountAll(cs)
  }

  function CountAll<K, V>(cs: seq<Slot<K, V>>): nat
    decreases cs
  {
    if cs == [] then 0 else CountAll(cs[..|cs| - 1]) + Count(cs[|cs| - 1])
  }

  /** The entries of a collision array have distinct keys. */
  ghost predicate DistinctKeys<K, V>(es: seq<Entry<K, V>>)
  {
    forall i, j :: 0 <= i < j < |es| ==> es[i].key != es[j].key
  }

  /** The shape `put` and `remove` keep, for a slot reached at `shift`:
      - a collision array holds two or more entries with distinct keys;
      - a node sits at a shift below 32, has one child per set bit (the assertion in
        Node's constructor) and at least one, every child is well formed one level down,
        and every key under child j is routed to child j by its hash chunk. */
  ghost predicate WF<K, V>(t: Slot<K, V>, shift: nat, hash: K -> HashCode)
    decreases t
  {
    match t
    case Leaf(_) => true
    case Collision(es) => |es| >= 2 && DistinctKeys(es)
    case Node(cs, bits) =>
      && shift < INT_SIZE
      && |bits| == 32
      && BitCount(bits) == |cs|
      && |cs| >= 1
      && (forall j :: 0 <= j < |cs| ==> WF(cs[j], shift + HASH_SHIFT, hash))
      && (forall j, k :: 0 <= j < |cs| && k in Keys(cs[j]) ==> Routes(bits, Chunk(hash(k), shift), j))
  }

  /** Looking a key up in a slot reached at `shift`: the element `get` finds, following
      the key's hash chunks through the nodes and comparing keys at the leaves. */
  function Lookup<K(==), V>(t: Slot<K, V>, key: K, shift: nat, hash: K -> HashCode): Option<V>
    decreases t
  {
    match t
    case Leaf(e) => if e.key == key then Some(e.value) else None
    case Collision(es) =>
      var i := FirstMatch(es, key);
      if i < |es| then Some(es[i].value) else None
    case Node(cs, bits) =>
      var o := Chunk(hash(key), shift);
      if o < |bits| && bits[o] && ChildIndex(bits, o) < |cs| then
        Lookup(cs[ChildIndex(bits, o)], key, shift + HASH_SHIFT, hash)
      else None
  }

  // Bit counting

  lemma {:induction false} BitCountPrefix(bits: seq<bool>, a: nat, b: nat)
    requires a <= b <= |bits|
    ensures BitCount(bits[..a]) <= BitCount(bits[..b])
    ensures a < b && bits[a] ==> BitCount(bits[..a]) < BitCount(bits[..b])
    ensures BitCount(bits[..b]) <= b
    decreases b
  {
    if b > 0 {
      assert bits[..b][..b - 1] == bits[..b - 1];
      if a < b {
        BitCountPrefix(bits, a, b - 1);
        if a == b - 1 && bits[a] {
          assert BitCount(bits[..b]) == BitCount(bits[..b - 1]) + 1;
        }
      } else {
        BitCountPrefix(bits, b - 1, b - 1);
      }
    } else {
      assert bits[..0] == [];
    }
  }

  /** A set bit's child index is below the number of children. */
  lemma ChildIndexBound(bits: seq<bool>, o: nat)
    requires o < |bits| && bits[o]
    ensures ChildIndex(bits, o) < BitCount(bits)
  {
    BitCountPrefix(bits, o, |bits|);
    assert bits[..|bits|] == bits;
  }

  /** Distinct set bits have distinct child indices, in bit order. */
  lemma ChildIndexOrder(bits: seq<bool>, o1: nat, o2: nat)
    requires o1 < o2 < |bits| && bits[o1]
    ensures ChildIndex(bits, o1) < ChildIndex(bits, o2)
  {
    BitCountPrefix(bits, o1, o2);
  }

  /** Setting a clear bit (`hasChild | mask`) adds one to the count of every prefix that
      covers it. */
  lemma {:induction false} SetBitCount(bits: seq<bool>, o: nat, j: nat)
    requires o < |bits| && !bits[o] && j <= |bits|
    ensures BitCount(bits[o := true][..j]) == BitCount(bits[..j]) + (if o < j then 1 else 0)
    decreases j
  {
    var b' := bits[o := true];
    if j > 0 {
      assert b'[..j][..j - 1] == b'[..j - 1];
      assert bits[..j][..j - 1] == bits[..j - 1];
      SetBitCount(bits, o, j - 1);
    } else {
      assert b'[..0] == [] && bits[..0] == [];
    }
  }

  /** Clearing a set bit (`hasChild & ~mask`) takes one from the count of every prefix
      that covers it. */
  lemma {:induction false} ClearBitCount(bits: seq<bool>, o: nat, j: nat)
    requires o < |bits| && bits[o] && j <= |bits|
    ensures BitCount(bits[o := false][..j]) == BitCount(bits[..j]) - (if o < j then 1 else 0)
    decreases j
  {
    var b' := bits[o := false];
    if j > 0 {
      assert b'[..j][..j - 1] == b'[..j - 1];
      assert bits[..j][..j - 1] == bits[..j - 1];
      ClearBitCount(bits, o, j - 1);
      if o == j - 1 {
        BitCountPrefix(bits, o, j);
      }
    } else {
      assert b'[..0] == [] && bits[..0] == [];
    }
  }

  /** A single-bit map has one child, at index 0. */
  lemma SingleBitCount(o: nat)
    requires o < 32
    ensures BitCount(SingleBit(o)) == 1 && ChildIndex(SingleBit(o), o) == 0
    ensures forall p :: 0 <= p < 32 && p != o ==> !SingleBit(o)[p]
  {
    var bits := SingleBit(o);
    var none := seq(32, _ => false);
    ZeroCount(none, 32);
    ZeroCount(none, o);
    assert bits == none[o := true];
    SetBitCount(none, o, 32);
    SetBitCount(none, o, o);
    assert none[..32] == none;
    assert bits[..32] == bits;
  }

  lemma {:induction false} ZeroCount(bits: seq<bool>, j: nat)
    requires j <= |bits| && forall p :: 0 <= p < |bits| ==> !bits[p]
    ensures BitCount(bits[..j]) == 0
    decreases j
  {
    if j > 0 {
      assert bits[..j][..j - 1] == bits[..j - 1];
      ZeroCount(bits, j - 1);
    } else {
      assert bits[..0] == [];
    }
  }

  /** A key whose offset differs from the one descended into reaches the same child it
      reached before. */
  lemma OtherChild<K, V>(cs: seq<Slot<K, V>>, bits: seq<bool>, o: nat, ok: nat, c: Slot<K, V>)
    requires |bits| == 32 && BitCount(bits) == |cs| && o < 32 && ok < 32 && o != ok && bits[o]
    requires ChildIndex(bits, o) < |cs|
    ensures ok < |bits| && bits[ok] ==>
      && ChildIndex(bits, ok) < |cs|
      && ChildIndex(bits, ok) != ChildIndex(bits, o)
      && cs[ChildIndex(bits, o) := c][ChildIndex(bits, ok)] == cs[ChildIndex(bits, ok)]
  {
    if bits[ok] {
      ChildIndexBound(bits, ok);
      if ok < o {
        ChildIndexOrder(bits, ok, o);
      } else {
        ChildIndexOrder(bits, o, ok);
      }
    }
  }

  // Keys and counts over children

  lemma {:induction false} KeysAllMember<K, V>(cs: seq<Slot<K, V>>, k: K)
    ensures k in KeysAll(cs) <==> exists j :: 0 <= j < |cs| && k in Keys(cs[j])
    decreases |cs|
  {
    if cs != [] {
      var init := cs[..|cs| - 1];
      KeysAllMember(init, k);
      if k in KeysAll(init) {
        var j :| 0 <= j < |init| && k in Keys(init[j]);
        assert cs[j] == init[j];
      }
      if exists j :: 0 <= j < |cs| && k in Keys(cs[j]) {
        var j :| 0 <= j < |cs| && k in Keys(cs[j]);
        if j < |cs| - 1 {
          assert init[j] == cs[j];
        }
      }
    }
  }

  lemma {:induction false} KeysAllConcat<K, V>(a: seq<Slot<K, V>>, b: seq<Slot<K, V>>)
    ensures KeysAll(a + b) == KeysAll(a) + KeysAll(b)
    ensures CountAll(a + b) == CountAll(a) + CountAll(b)
    decreases |b|
  {
    if b == [] {
      assert a + b == a;
    } else {
      var b' := b[..|b| - 1];
      assert (a + b)[..|a + b| - 1] == a + b';
      assert (a + b)[|a + b| - 1] == b[|b| - 1];
      KeysAllConcat(a, b');
    }
  }

  lemma KeysAllOne<K, V>(t: Slot<K, V>)
    ensures KeysAll([t]) == Keys(t) && CountAll([t]) == Count(t)
  {
    assert [t][..0] == [];
  }

  /** Replacing child i changes the keys and the count by that child's. */
  lemma KeysAllUpdate<K, V>(cs: seq<Slot<K, V>>, i: nat, c: Slot<K, V>)
    requires i < |cs|
    ensures KeysAll(cs) == KeysAll(cs[..i]) + Keys(cs[i]) + KeysAll(cs[i + 1..])
    ensures KeysAll(cs[i := c]) == KeysAll(cs[..i]) + Keys(c) + KeysAll(cs[i + 1..])
    ensures CountAll(cs) == CountAll(cs[..i]) + Count(cs[i]) + CountAll(cs[i + 1..])
    ensures CountAll(cs[i := c]) == CountAll(cs[..i]) + Count(c) + CountAll(cs[i + 1..])
  {
    Split3(cs, i);
    Split3(cs[i := c], i);
    assert cs[i := c][..i] == cs[..i];
    assert cs[i := c][i + 1..] == cs[i + 1..];
  }

  lemma Split3<K, V>(cs: seq<Slot<K, V>>, i: nat)
    requires i < |cs|
    ensures KeysAll(cs) == KeysAll(cs[..i]) + Keys(cs[i]) + KeysAll(cs[i + 1..])
    ensures CountAll(cs) == CountAll(cs[..i]) + Count(cs[i]) + CountAll(cs[i + 1..])
  {
    var left, post := cs[..i + 1], cs[i + 1..];
    assert cs == left + post;
    KeysAllConcat(left, post);
    assert left[..|left| - 1] == cs[..i] && left[|left| - 1] == cs[i];
    assert KeysAll(left) == KeysAll(cs[..i]) + Keys(cs[i]);
    assert CountAll(left) == CountAll(cs[..i]) + Count(cs[i]);
  }

  // What Lookup finds

  /** `get` never returns the value of a key that is not stored: a found value belongs to
      an entry of that key. */
  lemma {:induction false} LookupSound<K, V>(t: Slot<K, V>, key: K, shift: nat, hash: K -> HashCode)
    requires Lookup(t, key, shift, hash).Some?
    ensures key in Keys(t)
    ensures Entry(key, Lookup(t, key, shift, hash).value) in Entries(t)
    decreases t
  {
    match t
    case Leaf(e) =>
    case Collision(es) =>
      var i := FirstMatch(es, key);
      assert es[i] == Entry(key, es[i].value);
    case Node(cs, bits) =>
      var j := ChildIndex(bits, Chunk(hash(key), shift));
      LookupSound(cs[j], key, shift + HASH_SHIFT, hash);
      KeysAllMember(cs, key);
      EntriesAllMember(cs, j, Entry(key, Lookup(t, key, shift, hash).value));
  }

  /** Every stored key is found: its hash chunks route it through every node to the
      leaf that holds it, keys with identical hashes included. */
  lemma {:induction false} LookupComplete<K, V>(t: Slot<K, V>, key: K, shift: nat, hash: K -> HashCode)
    requires WF(t, shift, hash) && key in Keys(t)
    ensures Lookup(t, key, shift, hash).Some?
    decreases t
  {
    match t
    case Leaf(e) =>
    case Collision(es) =>
      var j :| 0 <= j < |es| && es[j].key == key;
      assert FirstMatch(es, key) <= j;
    case Node(cs, bits) =>
      KeysAllMember(cs, key);
      var j :| 0 <= j < |cs| && key in Keys(cs[j]);
      assert Routes(bits, Chunk(hash(key), shift), j);
      LookupComplete(cs[j], key, shift + HASH_SHIFT, hash);
  }

  /** The entries stored under a slot, as a set. */
  function Entries<K(==), V(==)>(t: Slot<K, V>): set<Entry<K, V>>
    decreases t
  {
    match t
    case Leaf(e) => {e}
    case Collision(es) => set j | 0 <= j < |es| :: es[j]
    case Node(cs, _) => EntriesAll(cs)
  }

  function EntriesAll<K(==), V(==)>(cs: seq<Slot<K, V>>): set<Entry<K, V>>
    decreases cs
  {
    if cs == [] then {} else EntriesAll(cs[..|cs| - 1]) + Entries(cs[|cs| - 1])
  }

  lemma {:induction false} EntriesAllMember<K, V>(cs: seq<Slot<K, V>>, j: nat, e: Entry<K, V>)
    requires j < |cs| && e in Entries(cs[j])
    ensures e in EntriesAll(cs)
    decreases |cs|
  {
    if j < |cs| - 1 {
      assert cs[..|cs| - 1][j] == cs[j];
      EntriesAllMember(cs[..|cs| - 1], j, e);
    }
  }
}
