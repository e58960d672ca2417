/** The source's own `removeKey` keeps the shape the depth-first iterator relies on, even
    though on some maps it loses keys: every node it builds or lifts stays below shift 32
    and has a child, and every collision array it builds has two or more entries. So
    `DepthFirstIterator` can be started on whatever root `remove` as written returns. */
module HashTrieRemoveShape {
  import opened Wrappers
  import opened HashTrieNodes
  import opened HashTrieMapOps
  import opened HashTrieListing
  import opened HashTrieRemove

  /** A slot of the iterator's shape at a shift keeps it at any smaller shift: this is
      what the collapse onto a node sibling relies on, which lifts a node built for the
      next level one level up. */
  lemma {:induction false} IterableLower<K, V>(t: Slot<K, V>, shift: nat, lower: nat)
    requires Iterable(t, shift) && lower <= shift
    ensures Iterable(t, lower)
    decreases t
  {
    match t
    case Leaf(_) =>
    case Collision(_) =>
    case Node(cs, _) =>
      forall j | 0 <= j < |cs|
        ensures Iterable(cs[j], lower + HASH_SHIFT)
      {
        IterableLower(cs[j], shift + HASH_SHIFT, lower + HASH_SHIFT);
      }
  }

  /** `copyWithout` on a node's children keeps two or more of them, each one of the
      original children. */
  lemma CopyWithoutIterable<K, V>(cs: seq<Slot<K, V>>, ci: nat, shift: nat)
    requires ci < |cs| && |cs| >= 3
    requires forall j :: 0 <= j < |cs| ==> Iterable(cs[j], shift)
    ensures |CopyWithout(cs, ci)| >= 2
    ensures forall j :: 0 <= j < |CopyWithout(cs, ci)| ==> Iterable(CopyWithout(cs, ci)[j], shift)
  {
    var r := CopyWithout(cs, ci);
    forall j | 0 <= j < |r|
      ensures Iterable(r[j], shift)
    {
      assert r[j] == if j == ci then cs[|cs| - 1] else cs[j];
    }
  }

  /** `removeKey` as written, when it returns a new slot, returns one of the iterator's
      shape: a lone entry of a collision pair, a shorter collision array of two or more,
      a lifted sibling, or a node with a child left. */
  lemma {:induction false} RemoveKeyAsWrittenIterable<K, V>(t: Slot<K, V>, key: K, shift: nat, hash: K -> HashCode)
    requires Iterable(t, shift)
    ensures RemoveKeyAsWritten(t, key, shift, hash).Ok? && RemoveKeyAsWritten(t, key, shift, hash).value.Changed? ==>
      Iterable(RemoveKeyAsWritten(t, key, shift, hash).value.slot, shift)
    decreases t
  {
    if t.Node? {
      var o := Chunk(hash(key), shift);
      if o < |t.hasChild| && t.hasChild[o] && ChildIndex(t.hasChild, o) < |t.children| {
        var c := t.children[ChildIndex(t.hasChild, o)];
        RemoveKeyAsWrittenIterable(c, key, shift + HASH_SHIFT, hash);
        NodeRemovalIterable(t, key, shift, hash);
      }
    }
  }

  /** The node case of `RemoveKeyAsWrittenIterable`, given that the removal from the
      selected child keeps the shape. */
  lemma NodeRemovalIterable<K, V>(t: Slot<K, V>, key: K, shift: nat, hash: K -> HashCode)
    requires t.Node? && Iterable(t, shift)
    requires var o := Chunk(hash(key), shift);
      o < |t.hasChild| && t.hasChild[o] && ChildIndex(t.hasChild, o) < |t.children|
    requires var r := RemoveKeyAsWritten(t.children[ChildIndex(t.hasChild, Chunk(hash(key), shift))], key, shift + HASH_SHIFT, hash);
      r.Ok? && r.value.Changed? ==> Iterable(r.value.slot, shift + HASH_SHIFT)
    ensures RemoveKeyAsWritten(t, key, shift, hash).Ok? && RemoveKeyAsWritten(t, key, shift, hash).value.Changed? ==>
      Iterable(RemoveKeyAsWritten(t, key, shift, hash).value.slot, shift)
  {
    var cs, ci := t.children, ChildIndex(t.hasChild, Chunk(hash(key), shift));
    assert Iterable(cs[ci], shift + HASH_SHIFT);
    var r := RemoveKeyAsWritten(cs[ci], key, shift + HASH_SHIFT, hash);
    if r == Ok(Deleted) {
      if |cs| == 2 {
        assert Iterable(cs[1 - ci], shift + HASH_SHIFT);
        IterableLower(cs[1 - ci], shift + HASH_SHIFT, shift);
      } else if |cs| > 2 {
        CopyWithoutIterable(cs, ci, shift + HASH_SHIFT);
      }
    } else if r.Ok? && r.value.Changed? {
      var cs' := cs[ci := r.value.slot];
      assert forall j :: 0 <= j < |cs'| ==> Iterable(cs'[j], shift + HASH_SHIFT);
    }
  }

  /** `remove(key)` as written, when it returns a map with a root, returns one the
      iterator can walk: `DepthFirstIterator` accepts it. */
  lemma RemoveAsWrittenIterable<K, V>(m: HashTrieMap<K, V>, key: Option<K>, hash: K -> HashCode)
    requires Valid(m, hash)
    ensures RemoveAsWritten(m, key, hash).Ok? && RemoveAsWritten(m, key, hash).value.root.Some? ==>
      Iterable(RemoveAsWritten(m, key, hash).value.root.value, 0)
  {
    if key.Some? && m.root.Some? {
      WFIterable(m.root.value, 0, hash);
      RemoveKeyAsWrittenIterable(m.root.value, key.value, 0, hash);
    } else if m.root.Some? {
      WFIterable(m.root.value, 0, hash);
    }
  }
}
