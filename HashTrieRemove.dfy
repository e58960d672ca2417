/** HashTrieMap's `removeKey` and `remove`. `removeKey` walks down the key's path and
    rebuilds it bottom up: a child whose key is removed is replaced, dropped, or its
    node collapsed into the remaining sibling. `RemoveKey` is the corrected definition
    the map uses; `RemoveKeyAsWritten` follows the source's three defective paths. */
module HashTrieRemove {
  import opened Wrappers
  import opened HashTrieNodes
  import opened HashTrieMapOps

  /** What `removeKey` returns for a slot: the very same object (the key was not found),
      null (the slot is emptied), or a new slot. */
  datatype Removal<K, V> = Same | Deleted | Changed(slot: Slot<K, V>)

  /** The slot left in place of `t` after a removal, None for null. */
  function Remaining<K, V>(t: Slot<K, V>, r: Removal<K, V>): Option<Slot<K, V>>
  {
    match r
    case Same => Some(t)
    case Deleted => None
    case Changed(s) => Some(s)
  }

  /** A lookup in a slot that may be null. */
  function LookupIn<K(==), V>(t: Option<Slot<K, V>>, key: K, shift: nat, hash: K -> HashCode): Option<V>
  {
    if t.None? then None else Lookup(t.value, key, shift, hash)
  }

  /** `copyWithout(original, index)`: one element shorter, with the last element moved
      into the vacated slot; the other elements and their multiplicities are kept. */
  function CopyWithout<T>(s: seq<T>, index: nat): (r: seq<T>)
    requires index < |s|
    ensures |r| == |s| - 1
    ensures multiset(r) == multiset(s) - multiset{s[index]}
    ensures forall j :: 0 <= j < |r| ==> r[j] == if j == index then s[|s| - 1] else s[j]
  {
    var init := s[..|s| - 1];
    assert s == init + [s[|s| - 1]];
    if index < |s| - 1 then
      assert multiset(s) == multiset(init) + multiset{s[|s| - 1]};
      init[index := s[|s| - 1]]
    else
      init
  }

  /** The children with child `ci` taken out and the rest kept in order. */
  function RemoveAt<K, V>(cs: seq<Slot<K, V>>, ci: nat): (r: seq<Slot<K, V>>)
    requires ci < |cs|
    ensures |r| == |cs| - 1
  {
    cs[..ci] + cs[ci + 1..]
  }

  /** `removeKey(current, key, hash, shift)`, corrected:
      - an entry of the key is deleted, any other slot without the key is the same;
      - a 2-entry collision array with the key becomes the other entry, a longer one
        loses the key's entry;
      - a node whose child is deleted is itself deleted when that was its only child,
        collapses into the remaining sibling when that sibling is an entry or a
        collision array, and otherwise keeps its other children in order, with the
        key's chunk bit cleared;
      - a node whose child changes gets the new child in its place. */
  function RemoveKey<K(==), V>(t: Slot<K, V>, key: K, shift: nat, hash: K -> HashCode): Removal<K, V>
    requires WF(t, shift, hash)
    decreases t
  {
    match t
    case Leaf(e) => if e.key == key then Deleted else Same
    case Collision(es) => RemoveFromCollision(es, FirstMatch(es, key))
    case Node(cs, bits) =>
      var o := Chunk(hash(key), shift);
      if !bits[o] then Same
      else
        ChildIndexBound(bits, o);
        RemoveFromNode(cs, bits, o, RemoveKey(cs[ChildIndex(bits, o)], key, shift + HASH_SHIFT, hash))
  }

  /** The collision array case of `RemoveKey`, for the index `findCollision` gives. */
  function RemoveFromCollision<K, V>(es: seq<Entry<K, V>>, idx: nat): Removal<K, V>
    requires |es| >= 2
  {
    if |es| <= idx then Same
    else if |es| == 2 then Changed(Leaf(es[1 - idx]))
    else Changed(Collision(CopyWithout(es, idx)))
  }

  /** The node case of `RemoveKey` for a set chunk bit o, given the removal from the child
      it selects. */
  function RemoveFromNode<K, V>(cs: seq<Slot<K, V>>, bits: seq<bool>, o: nat, r: Removal<K, V>): Removal<K, V>
    requires o < |bits| && ChildIndex(bits, o) < |cs|
  {
    var ci := ChildIndex(bits, o);
    match r
    case Same => Same
    case Deleted =>
      if |cs| == 1 then Deleted
      else if |cs| == 2 && !cs[1 - ci].Node? then Changed(cs[1 - ci])
      else Changed(Node(RemoveAt(cs, ci), bits[o := false]))
    case Changed(c) => Changed(Node(cs[ci := c], bits))
  }

  /** `removeKey` as the source writes it. It differs from `RemoveKey` on three paths:
      a 2-entry collision array reads entry `2 - idx` (out of bounds for idx 0, the
      removed entry for idx 1); a node of three or more children drops the child by
      `copyWithout`, which moves the last child out of bitmap order; and a node of two
      children collapses into the sibling even when that sibling is a node. Like Java's
      array accesses, a read out of bounds throws ArrayIndexOutOfBoundsException, so the
      function needs no precondition; on a well-formed slot only the first path reads out
      of bounds. */
  function RemoveKeyAsWritten<K(==), V>(t: Slot<K, V>, key: K, shift: nat, hash: K -> HashCode): Result<Removal<K, V>>
    decreases t
  {
    match t
    case Leaf(e) => Ok(if e.key == key then Deleted else Same)
    case Collision(es) =>
      var idx := FirstMatch(es, key);
      if |es| <= idx then Ok(Same)
      else if |es| == 2 then
        (if 2 - idx < |es| then Ok(Changed(Leaf(es[2 - idx]))) else Throws(ArrayIndexOutOfBoundsException))
      else Ok(Changed(Collision(CopyWithout(es, idx))))
    case Node(cs, bits) =>
      var o := Chunk(hash(key), shift);
      if o >= |bits| || !bits[o] then Ok(Same)
      else
        var ci := ChildIndex(bits, o);
        if ci >= |cs| then Throws(ArrayIndexOutOfBoundsException)
        else
        match RemoveKeyAsWritten(cs[ci], key, shift + HASH_SHIFT, hash)
        case Throws(x) => Throws(x)
        case Ok(Same) => Ok(Same)
        case Ok(Deleted) =>
          if |cs| == 1 then Ok(Deleted)
          else if |cs| == 2 then Ok(Changed(cs[1 - ci]))
          else Ok(Changed(Node(CopyWithout(cs, ci), bits[o := false])))
        case Ok(Changed(c)) => Ok(Changed(Node(cs[ci := c], bits)))
  }

  /** `remove(key)`: NullPointerException for a null key; the same map when it is empty
      or the key is absent; otherwise the new root, with the size one smaller. */
  function Remove<K(==), V>(m: HashTrieMap<K, V>, key: Option<K>, hash: K -> HashCode): (r: Result<HashTrieMap<K, V>>)
    requires Valid(m, hash)
    ensures key.None? ==> r == Throws(NullPointerException)
    ensures key.Some? ==> r.Ok?
  {
    if key.None? then Throws(NullPointerException)
    else if m.root.None? then Ok(m)
    else
      CountPositive(m.root.value, 0, hash);
      match RemoveKey(m.root.value, key.value, 0, hash)
      case Same => Ok(m)
      case Deleted => Ok(HashTrieMap(None, m.size - 1))
      case Changed(root) => Ok(HashTrieMap(Some(root), m.size - 1))
  }

  /** `remove(key)` over `RemoveKeyAsWritten`; an exception of `removeKey` propagates. */
  function RemoveAsWritten<K(==), V>(m: HashTrieMap<K, V>, key: Option<K>, hash: K -> HashCode): (r: Result<HashTrieMap<K, V>>)
    requires Valid(m, hash)
    ensures key.None? ==> r == Throws(NullPointerException)
    ensures key.Some? && m.root.None? ==> r == Ok(m)
  {
    if key.None? then Throws(NullPointerException)
    else if m.root.None? then Ok(m)
    else
      CountPositive(m.root.value, 0, hash);
      match RemoveKeyAsWritten(m.root.value, key.value, 0, hash)
      case Throws(x) => Throws(x)
      case Ok(Same) => Ok(m)
      case Ok(Deleted) => Ok(HashTrieMap(None, m.size - 1))
      case Ok(Changed(root)) => Ok(HashTrieMap(Some(root), m.size - 1))
  }

  // The map after a removal

  /** `remove` on a map: the result is a valid map in which the key has no value and every
      other key keeps its own; the key set loses the key, the size shrinks by one exactly
      when the key was present, and the very same map comes back exactly when it was
      absent. */
  lemma RemoveMeaning<K, V>(m: HashTrieMap<K, V>, key: K, hash: K -> HashCode)
    requires Valid(m, hash)
    ensures Remove(m, Some(key), hash).Ok?
    ensures Valid(Remove(m, Some(key), hash).value, hash)
    ensures forall k :: MapGet(Remove(m, Some(key), hash).value, k, hash) == if k == key then None else MapGet(m, k, hash)
    ensures KeySet(Remove(m, Some(key), hash).value) == KeySet(m) - {key}
    ensures Remove(m, Some(key), hash).value.size == m.size - if key in KeySet(m) then 1 else 0
    ensures Remove(m, Some(key), hash).value == m <==> key !in KeySet(m)
  {
    if m.root.Some? {
      var root := m.root.value;
      RemoveKeySame(root, key, 0, hash);
      RemoveKeyPreserves(root, key, 0, hash);
      forall k
        ensures MapGet(Remove(m, Some(key), hash).value, k, hash) == if k == key then None else MapGet(m, k, hash)
      {
        RemoveKeyLookup(root, key, 0, hash, k);
      }
    }
  }

  /** A well-formed slot holds at least one entry. */
  lemma {:induction false} CountPositive<K, V>(t: Slot<K, V>, shift: nat, hash: K -> HashCode)
    requires WF(t, shift, hash)
    ensures Count(t) >= 1
    decreases t
  {
    match t
    case Leaf(_) =>
    case Collision(_) =>
    case Node(cs, bits) =>
      CountPositive(cs[|cs| - 1], shift + HASH_SHIFT, hash);
  }

  /** `removeKey` returns the very same slot exactly when the key is not stored in it. */
  lemma {:induction false} RemoveKeySame<K, V>(t: Slot<K, V>, key: K, shift: nat, hash: K -> HashCode)
    requires WF(t, shift, hash)
    ensures RemoveKey(t, key, shift, hash) == Same <==> key !in Keys(t)
    decreases t
  {
    match t
    case Leaf(e) =>
    case Collision(es) =>
      var idx := FirstMatch(es, key);
      if key in Keys(t) {
        var j :| 0 <= j < |es| && es[j].key == key;
      }
    case Node(cs, bits) =>
      var o := Chunk(hash(key), shift);
      KeyChild(cs, bits, key, shift, hash);
      if bits[o] {
        ChildIndexBound(bits, o);
        RemoveKeySame(cs[ChildIndex(bits, o)], key, shift + HASH_SHIFT, hash);
      }
  }

  /** A removal that changes the slot keeps it well formed, takes the key out and one
      entry away; one that deletes it leaves nothing but that entry. */
  lemma {:induction false} RemoveKeyPreserves<K, V>(t: Slot<K, V>, key: K, shift: nat, hash: K -> HashCode)
    requires WF(t, shift, hash)
    ensures Removes(t, key, shift, hash, RemoveKey(t, key, shift, hash))
    decreases t
  {
    match t
    case Leaf(e) =>
    case Collision(es) =>
      var idx := FirstMatch(es, key);
      if idx < |es| {
        if |es| == 2 {
          PairRemove(es, idx);
        } else {
          CollisionRemove(es, idx);
        }
      }
    case Node(cs, bits) =>
      var o := Chunk(hash(key), shift);
      if bits[o] {
        ChildIndexBound(bits, o);
        var ci := ChildIndex(bits, o);
        RemoveKeyPreserves(cs[ci], key, shift + HASH_SHIFT, hash);
        NodeRemoves(cs, bits, o, key, shift, hash, RemoveKey(cs[ci], key, shift + HASH_SHIFT, hash));
      }
  }

  /** What a removal result promises about the slot `t` it was computed for. */
  ghost predicate Removes<K, V>(t: Slot<K, V>, key: K, shift: nat, hash: K -> HashCode, r: Removal<K, V>)
  {
    && (r.Changed? ==> WF(r.slot, shift, hash) && Keys(r.slot) == Keys(t) - {key} && Count(r.slot) == Count(t) - 1)
    && (r.Deleted? ==> Keys(t) == {key} && Count(t) == 1)
  }

  /** The node case of `RemoveKeyPreserves`. */
  lemma NodeRemoves<K, V>(cs: seq<Slot<K, V>>, bits: seq<bool>, o: nat, key: K, shift: nat, hash: K -> HashCode, r: Removal<K, V>)
    requires WF(Node(cs, bits), shift, hash) && o == Chunk(hash(key), shift) && bits[o]
    requires ChildIndex(bits, o) < |cs|
    requires Removes(cs[ChildIndex(bits, o)], key, shift + HASH_SHIFT, hash, r)
    ensures Removes(Node(cs, bits), key, shift, hash, RemoveFromNode(cs, bits, o, r))
  {
    var ci := ChildIndex(bits, o);
    match r
    case Same =>
    case Deleted =>
      if |cs| == 1 {
        assert cs == [cs[0]];
        KeysAllOne(cs[0]);
      } else if |cs| == 2 && !cs[1 - ci].Node? {
        LiftSibling(cs, bits, ci, key, shift, hash);
      } else {
        DropChild(cs, bits, ci, key, shift, hash);
      }
    case Changed(c) =>
      ReplaceChild(cs, bits, ci, c, key, shift, hash);
  }

  /** After a removal only the removed key's lookup changes, to nothing. */
  lemma {:induction false} RemoveKeyLookup<K, V>(t: Slot<K, V>, key: K, shift: nat, hash: K -> HashCode, k: K)
    requires WF(t, shift, hash)
    ensures LookupIn(Remaining(t, RemoveKey(t, key, shift, hash)), k, shift, hash) ==
      if k == key then None else Lookup(t, k, shift, hash)
    decreases t
  {
    match t
    case Leaf(e) =>
    case Collision(es) =>
      var idx := FirstMatch(es, key);
      if idx < |es| {
        if |es| == 2 {
          PairRemoveLookup(es, idx, k, shift, hash);
        } else {
          CollisionRemoveLookup(es, idx, k, shift, hash);
        }
      } else if k == key {
        assert FirstMatch(es, k) == |es|;
      }
    case Node(cs, bits) =>
      var o := Chunk(hash(key), shift);
      KeyChild(cs, bits, key, shift, hash);
      if !bits[o] {
        if k == key {
          NotStoredNone(t, k, shift, hash);
        }
      } else {
        var ci := ChildIndex(bits, o);
        RemoveKeyLookup(cs[ci], key, shift + HASH_SHIFT, hash, k);
        RemoveKeySame(cs[ci], key, shift + HASH_SHIFT, hash);
        NodeRemoveLookup(cs, bits, o, key, shift, hash, k, RemoveKey(cs[ci], key, shift + HASH_SHIFT, hash));
      }
  }

  /** The node case of `RemoveKeyLookup`. */
  lemma NodeRemoveLookup<K, V>(cs: seq<Slot<K, V>>, bits: seq<bool>, o: nat, key: K, shift: nat, hash: K -> HashCode, k: K, r: Removal<K, V>)
    requires WF(Node(cs, bits), shift, hash) && o == Chunk(hash(key), shift) && bits[o]
    requires ChildIndex(bits, o) < |cs|
    requires LookupIn(Remaining(cs[ChildIndex(bits, o)], r), k, shift + HASH_SHIFT, hash) ==
      if k == key then None else Lookup(cs[ChildIndex(bits, o)], k, shift + HASH_SHIFT, hash)
    requires r == Same <==> key !in Keys(cs[ChildIndex(bits, o)])
    ensures LookupIn(Remaining(Node(cs, bits), RemoveFromNode(cs, bits, o, r)), k, shift, hash) ==
      if k == key then None else Lookup(Node(cs, bits), k, shift, hash)
  {
    var ci := ChildIndex(bits, o);
    var ok := Chunk(hash(k), shift);
    match r
    case Same =>
      if k == key {
        KeyChild(cs, bits, key, shift, hash);
        NotStoredNone(Node(cs, bits), k, shift, hash);
      }
    case Deleted =>
      if |cs| == 1 {
        if bits[ok] {
          ChildIndexBound(bits, ok);
        }
      } else if |cs| == 2 && !cs[1 - ci].Node? {
        LiftLookup(cs, bits, ci, key, shift, hash, k);
      } else if k != key {
        DropChildLookup(cs, bits, ci, o, shift, hash, k);
      }
    case Changed(c) =>
      if ok != o {
        OtherChild(cs, bits, o, ok, c);
      }
  }

  /** A key not stored under a slot is not found in it. */
  lemma NotStoredNone<K, V>(t: Slot<K, V>, k: K, shift: nat, hash: K -> HashCode)
    requires k !in Keys(t)
    ensures Lookup(t, k, shift, hash) == None
  {
    if Lookup(t, k, shift, hash).Some? {
      LookupSound(t, k, shift, hash);
    }
  }

  /** In a well-formed node a key can only be stored under the child its chunk bit
      selects. */
  lemma KeyChild<K, V>(cs: seq<Slot<K, V>>, bits: seq<bool>, key: K, shift: nat, hash: K -> HashCode)
    requires WF(Node(cs, bits), shift, hash)
    ensures var o := Chunk(hash(key), shift);
      && (bits[o] ==> ChildIndex(bits, o) < |cs|)
      && (key in KeysAll(cs) ==> bits[o] && key in Keys(cs[ChildIndex(bits, o)]))
      && (bits[o] && key in Keys(cs[ChildIndex(bits, o)]) ==> key in KeysAll(cs))
      && (forall j :: 0 <= j < |cs| && j != ChildIndex(bits, o) ==> key !in Keys(cs[j]))
  {
    var o := Chunk(hash(key), shift);
    KeysAllMember(cs, key);
    if bits[o] {
      ChildIndexBound(bits, o);
    }
  }

  /** The other slots of a node do not hold the key routed to child ci. */
  lemma KeyOnlyIn<K, V>(cs: seq<Slot<K, V>>, bits: seq<bool>, ci: nat, key: K, shift: nat, hash: K -> HashCode)
    requires WF(Node(cs, bits), shift, hash) && Routes(bits, Chunk(hash(key), shift), ci)
    ensures forall j :: 0 <= j < |cs| && j != ci ==> key !in Keys(cs[j])
  {
  }

  /** A key in no child but ci is in neither the children before ci nor those after. */
  lemma KeyNotInSides<K, V>(cs: seq<Slot<K, V>>, ci: nat, key: K)
    requires ci < |cs| && forall j :: 0 <= j < |cs| && j != ci ==> key !in Keys(cs[j])
    ensures key !in KeysAll(cs[..ci]) && key !in KeysAll(cs[ci + 1..])
  {
    KeysAllMember(cs[..ci], key);
    KeysAllMember(cs[ci + 1..], key);
  }

  // Collision arrays

  /** A first match in an array of distinct keys is the only match. */
  lemma FirstMatchDistinct<K, V>(es: seq<Entry<K, V>>, j: nat)
    requires DistinctKeys(es) && j < |es|
    ensures FirstMatch(es, es[j].key) == j
  {
  }

  /** The 2-entry collision array becomes the entry of the other key. */
  lemma PairRemove<K, V>(es: seq<Entry<K, V>>, idx: nat)
    requires |es| == 2 && DistinctKeys(es) && idx < 2
    ensures Keys(Leaf(es[1 - idx])) == Keys(Collision(es)) - {es[idx].key}
  {
    assert Keys(Collision(es)) == {es[0].key, es[1].key};
  }

  lemma PairRemoveLookup<K, V>(es: seq<Entry<K, V>>, idx: nat, k: K, shift: nat, hash: K -> HashCode)
    requires |es| == 2 && DistinctKeys(es) && idx < 2
    ensures Lookup(Leaf(es[1 - idx]), k, shift, hash) ==
      if k == es[idx].key then None else Lookup(Collision(es), k, shift, hash)
  {
    if k != es[idx].key && es[1 - idx].key == k {
      FirstMatchDistinct(es, 1 - idx);
    }
  }

  /** Position j of the shortened array holds the entry of position `Moved` of the old
      one. */
  function Moved(n: nat, index: nat, j: nat): nat
    requires index < n
  {
    if j == index then n - 1 else j
  }

  /** A collision array of three or more entries without entry idx keeps two or more
      entries with distinct keys, and loses exactly that entry's key. */
  lemma CollisionRemove<K, V>(es: seq<Entry<K, V>>, idx: nat)
    requires |es| >= 3 && DistinctKeys(es) && idx < |es|
    ensures DistinctKeys(CopyWithout(es, idx)) && |CopyWithout(es, idx)| >= 2
    ensures Keys(Collision(CopyWithout(es, idx))) == Keys(Collision(es)) - {es[idx].key}
  {
    var r := CopyWithout(es, idx);
    var n := |es|;
    assert forall j :: 0 <= j < |r| ==> r[j] == es[Moved(n, idx, j)];
    forall x | x in Keys(Collision(es)) - {es[idx].key}
      ensures x in Keys(Collision(r))
    {
      var p :| 0 <= p < n && es[p].key == x;
      if p == n - 1 {
        assert r[idx].key == x;
      } else {
        assert r[p].key == x;
      }
    }
  }

  /** The lookup in the shortened collision array. */
  lemma CollisionRemoveLookup<K, V>(es: seq<Entry<K, V>>, idx: nat, k: K, shift: nat, hash: K -> HashCode)
    requires |es| >= 3 && DistinctKeys(es) && idx < |es|
    ensures Lookup(Collision(CopyWithout(es, idx)), k, shift, hash) ==
      if k == es[idx].key then None else Lookup(Collision(es), k, shift, hash)
  {
    var r := CopyWithout(es, idx);
    var n := |es|;
    CollisionRemove(es, idx);
    assert forall j :: 0 <= j < |r| ==> r[j] == es[Moved(n, idx, j)];
    if k != es[idx].key && FirstMatch(es, k) < n {
      var p := FirstMatch(es, k);
      var q := if p == n - 1 then idx else p;
      assert r[q] == es[p];
      FirstMatchDistinct(r, q);
    } else if k != es[idx].key {
      assert forall j :: 0 <= j < |r| ==> r[j].key != k;
    }
  }

  // Nodes

  /** Child j of the node without child ci. */
  lemma RemoveAtIndex<K, V>(cs: seq<Slot<K, V>>, ci: nat, j: nat)
    requires ci < |cs| && j < |cs| - 1
    ensures RemoveAt(cs, ci)[j] == if j < ci then cs[j] else cs[j + 1]
  {
  }

  /** The node of two children collapsed into the sibling that is an entry or a
      collision array: the sibling holds every key but the removed one. */
  lemma LiftSibling<K, V>(cs: seq<Slot<K, V>>, bits: seq<bool>, ci: nat, key: K, shift: nat, hash: K -> HashCode)
    requires WF(Node(cs, bits), shift, hash) && |cs| == 2 && ci < 2 && !cs[1 - ci].Node?
    requires Routes(bits, Chunk(hash(key), shift), ci)
    requires Keys(cs[ci]) == {key} && Count(cs[ci]) == 1
    ensures WF(cs[1 - ci], shift, hash)
    ensures Keys(cs[1 - ci]) == KeysAll(cs) - {key}
    ensures Count(cs[1 - ci]) == CountAll(cs) - 1
  {
    assert cs[..1] == [cs[0]];
    KeysAllOne(cs[0]);
    KeyOnlyIn(cs, bits, ci, key, shift, hash);
  }

  /** Looking up in the lifted sibling at the node's shift finds what the node found,
      but for the removed key. */
  lemma LiftLookup<K, V>(cs: seq<Slot<K, V>>, bits: seq<bool>, ci: nat, key: K, shift: nat, hash: K -> HashCode, k: K)
    requires WF(Node(cs, bits), shift, hash) && |cs| == 2 && ci < 2 && !cs[1 - ci].Node?
    requires Routes(bits, Chunk(hash(key), shift), ci)
    requires k != key ==> Lookup(cs[ci], k, shift + HASH_SHIFT, hash) == None
    ensures Lookup(cs[1 - ci], k, shift, hash) == if k == key then None else Lookup(Node(cs, bits), k, shift, hash)
  {
    var sib := cs[1 - ci];
    var o := Chunk(hash(key), shift);
    var ok := Chunk(hash(k), shift);
    assert Lookup(sib, k, shift, hash) == Lookup(sib, k, shift + HASH_SHIFT, hash);
    if Lookup(sib, k, shift, hash).Some? {
      LookupSound(sib, k, shift, hash);
      assert Routes(bits, ok, 1 - ci);
    } else if k != key && ok != o && bits[ok] {
      ChildIndexBound(bits, ok);
      if ok < o {
        ChildIndexOrder(bits, ok, o);
      } else {
        ChildIndexOrder(bits, o, ok);
      }
    }
  }

  /** The node without child ci and with bit o cleared is well formed and holds every key
      but the removed one. */
  lemma DropChild<K, V>(cs: seq<Slot<K, V>>, bits: seq<bool>, ci: nat, key: K, shift: nat, hash: K -> HashCode)
    requires WF(Node(cs, bits), shift, hash) && |cs| >= 2 && ci < |cs|
    requires Routes(bits, Chunk(hash(key), shift), ci)
    requires Keys(cs[ci]) == {key} && Count(cs[ci]) == 1
    ensures WF(Node(RemoveAt(cs, ci), bits[Chunk(hash(key), shift) := false]), shift, hash)
    ensures KeysAll(RemoveAt(cs, ci)) == KeysAll(cs) - {key}
    ensures CountAll(RemoveAt(cs, ci)) == CountAll(cs) - 1
  {
    var o := Chunk(hash(key), shift);
    var bits' := bits[o := false];
    ClearBitCount(bits, o, 32);
    assert bits[..32] == bits && bits'[..32] == bits';
    DropChildKeys(cs, bits, ci, key, shift, hash);
    DropChildChildren(cs, bits, ci, o, shift, hash);
  }

  lemma DropChildKeys<K, V>(cs: seq<Slot<K, V>>, bits: seq<bool>, ci: nat, key: K, shift: nat, hash: K -> HashCode)
    requires WF(Node(cs, bits), shift, hash) && ci < |cs|
    requires Routes(bits, Chunk(hash(key), shift), ci)
    requires Keys(cs[ci]) == {key} && Count(cs[ci]) == 1
    ensures KeysAll(RemoveAt(cs, ci)) == KeysAll(cs) - {key}
    ensures CountAll(RemoveAt(cs, ci)) == CountAll(cs) - 1
  {
    Split3(cs, ci);
    KeysAllConcat(cs[..ci], cs[ci + 1..]);
    KeyOnlyIn(cs, bits, ci, key, shift, hash);
    KeyNotInSides(cs, ci, key);
  }

  lemma DropChildChildren<K, V>(cs: seq<Slot<K, V>>, bits: seq<bool>, ci: nat, o: nat, shift: nat, hash: K -> HashCode)
    requires WF(Node(cs, bits), shift, hash) && ci < |cs| && o < 32 && bits[o] && ChildIndex(bits, o) == ci
    ensures forall j :: 0 <= j < |RemoveAt(cs, ci)| ==> WF(RemoveAt(cs, ci)[j], shift + HASH_SHIFT, hash)
    ensures forall j, k :: 0 <= j < |RemoveAt(cs, ci)| && k in Keys(RemoveAt(cs, ci)[j]) ==>
      Routes(bits[o := false], Chunk(hash(k), shift), j)
  {
    var cs' := RemoveAt(cs, ci);
    forall j | 0 <= j < |cs'|
      ensures WF(cs'[j], shift + HASH_SHIFT, hash)
    {
      RemoveAtIndex(cs, ci, j);
    }
    forall j, k | 0 <= j < |cs'| && k in Keys(cs'[j])
      ensures Routes(bits[o := false], Chunk(hash(k), shift), j)
    {
      DropChildRoutes(cs, bits, ci, o, shift, hash, j, k);
    }
  }

  /** Routing in the node without child ci: children before it keep their indices, the
      later ones move down by one. */
  lemma DropChildRoutes<K, V>(cs: seq<Slot<K, V>>, bits: seq<bool>, ci: nat, o: nat, shift: nat, hash: K -> HashCode, j: nat, k: K)
    requires WF(Node(cs, bits), shift, hash) && ci < |cs| && o < 32 && bits[o] && ChildIndex(bits, o) == ci
    requires j < |cs| - 1 && k in Keys(RemoveAt(cs, ci)[j])
    ensures Routes(bits[o := false], Chunk(hash(k), shift), j)
  {
    RemoveAtIndex(cs, ci, j);
    var ok := Chunk(hash(k), shift);
    if j < ci {
      assert Routes(bits, ok, j);
      if o < ok {
        ChildIndexOrder(bits, o, ok);
      }
      ClearBitCount(bits, o, ok);
    } else {
      assert Routes(bits, ok, j + 1);
      if ok < o {
        ChildIndexOrder(bits, ok, o);
      }
      ClearBitCount(bits, o, ok);
    }
  }

  /** The lookup in the node without child ci: the cleared bit finds nothing, every other
      bit the child it found before. */
  lemma DropChildLookup<K, V>(cs: seq<Slot<K, V>>, bits: seq<bool>, ci: nat, o: nat, shift: nat, hash: K -> HashCode, k: K)
    requires WF(Node(cs, bits), shift, hash) && ci < |cs| && o < 32 && bits[o] && ChildIndex(bits, o) == ci
    requires Chunk(hash(k), shift) == o ==> Lookup(Node(cs, bits), k, shift, hash) == None
    ensures Lookup(Node(RemoveAt(cs, ci), bits[o := false]), k, shift, hash) == Lookup(Node(cs, bits), k, shift, hash)
  {
    var ok := Chunk(hash(k), shift);
    if ok != o && bits[ok] {
      ChildIndexBound(bits, ok);
      ClearBitCount(bits, o, ok);
      if ok < o {
        ChildIndexOrder(bits, ok, o);
        RemoveAtIndex(cs, ci, ChildIndex(bits, ok));
      } else {
        ChildIndexOrder(bits, o, ok);
        RemoveAtIndex(cs, ci, ChildIndex(bits, ok) - 1);
      }
    }
  }

  /** Replacing child ci by one without the key keeps the node well formed and takes the
      key and one entry away. */
  lemma ReplaceChild<K, V>(cs: seq<Slot<K, V>>, bits: seq<bool>, ci: nat, c: Slot<K, V>, key: K, shift: nat, hash: K -> HashCode)
    requires WF(Node(cs, bits), shift, hash) && ci < |cs| && Routes(bits, Chunk(hash(key), shift), ci)
    requires WF(c, shift + HASH_SHIFT, hash) && Keys(c) == Keys(cs[ci]) - {key} && Count(c) == Count(cs[ci]) - 1
    ensures WF(Node(cs[ci := c], bits), shift, hash)
    ensures KeysAll(cs[ci := c]) == KeysAll(cs) - {key}
    ensures CountAll(cs[ci := c]) == CountAll(cs) - 1
  {
    KeysAllUpdate(cs, ci, c);
    KeyOnlyIn(cs, bits, ci, key, shift, hash);
    KeyNotInSides(cs, ci, key);
    var cs' := cs[ci := c];
    forall j, k | 0 <= j < |cs'| && k in Keys(cs'[j])
      ensures Routes(bits, Chunk(hash(k), shift), j)
    {
      if j != ci {
        assert cs'[j] == cs[j];
      }
    }
  }
}
