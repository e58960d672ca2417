/** What `put` means: inserting into a well-formed slot keeps it well formed, adds the
    key to its keys, grows its count exactly when the key was absent, and changes the
    lookup of that key alone. */
module HashTrieInsert {
  import opened Wrappers
  import opened Arith
  import opened HashTrieNodes
  import opened HashTrieMapOps

  /** `put` on a map: the result is a valid map in which the key has the new value and
      every other key keeps its old one; the key set gains the key, and the size grows
      by one exactly when the key was absent. The map put into is a value and is left
      as it was. */
  lemma InsertedMeaning<K, V>(m: HashTrieMap<K, V>, key: K, value: V, hash: K -> HashCode)
    requires Valid(m, hash)
    ensures Valid(Inserted(m, key, value, hash), hash)
    ensures forall k :: MapGet(Inserted(m, key, value, hash), k, hash) == if k == key then Some(value) else MapGet(m, k, hash)
    ensures KeySet(Inserted(m, key, value, hash)) == KeySet(m) + {key}
    ensures Inserted(m, key, value, hash).size == m.size + if key in KeySet(m) then 0 else 1
  {
    GetMeaning(m, key, hash);
    if m.root.Some? {
      var root := m.root.value;
      InsertPreserves(root, key, value, 0, hash);
      forall k
        ensures MapGet(Inserted(m, key, value, hash), k, hash) == if k == key then Some(value) else MapGet(m, k, hash)
      {
        InsertLookup(root, key, value, 0, hash, k);
      }
    }
  }

  /** Insertion keeps a slot well formed, adds the key, and adds one entry exactly when
      the key was not found. */
  lemma {:induction false} InsertPreserves<K, V>(t: Slot<K, V>, key: K, value: V, shift: nat, hash: K -> HashCode)
    requires WF(t, shift, hash)
    ensures WF(Insert(t, key, value, shift, hash), shift, hash)
    ensures Keys(Insert(t, key, value, shift, hash)) == Keys(t) + {key}
    ensures Count(Insert(t, key, value, shift, hash)) == Count(t) + if Lookup(t, key, shift, hash).None? then 1 else 0
    decreases 40 - shift, if t.Leaf? then 1 else 0
  {
    match t
    case Leaf(e) =>
      if e.key != key {
        if shift < INT_SIZE {
          SplitShape(e, shift, hash);
          SplitLookup(e, shift, hash, key);
          InsertPreserves(Split(e, shift, hash), key, value, shift, hash);
        } else {
          PairShape(Entry(key, value), e, shift, hash);
        }
      }
    case Collision(es) =>
      CollisionPreserves(es, key, value);
    case Node(cs, bits) =>
      var o := Chunk(hash(key), shift);
      if !bits[o] {
        NewChildPreserves(cs, bits, Entry(key, value), shift, hash);
      } else {
        var ci := ChildIndex(bits, o);
        ChildIndexBound(bits, o);
        InsertPreserves(cs[ci], key, value, shift + HASH_SHIFT, hash);
        DescendPreserves(cs, bits, ci, Insert(cs[ci], key, value, shift + HASH_SHIFT, hash), key, shift, hash);
      }
  }

  /** Insertion changes the lookup of the inserted key, to the new value, and of no other
      key. */
  lemma {:induction false} InsertLookup<K, V>(t: Slot<K, V>, key: K, value: V, shift: nat, hash: K -> HashCode, k: K)
    requires WF(t, shift, hash)
    ensures Lookup(Insert(t, key, value, shift, hash), k, shift, hash) == if k == key then Some(value) else Lookup(t, k, shift, hash)
    decreases 40 - shift, if t.Leaf? then 1 else 0
  {
    match t
    case Leaf(e) =>
      if e.key != key {
        if shift < INT_SIZE {
          SplitShape(e, shift, hash);
          SplitLookup(e, shift, hash, k);
          InsertLookup(Split(e, shift, hash), key, value, shift, hash, k);
        } else {
          var es := [Entry(key, value), e];
          assert Insert(t, key, value, shift, hash) == Collision(es);
          assert es[1..] == [e] && [e][1..] == [];
          assert FirstMatch(es, key) == 0;
          assert k != key ==> FirstMatch(es, k) == if e.key == k then 1 else 2;
        }
      }
    case Collision(es) =>
      CollisionLookup(es, key, value, k);
    case Node(cs, bits) =>
      var o := Chunk(hash(key), shift);
      if !bits[o] {
        NewChildLookup(cs, bits, Entry(key, value), shift, hash, k);
        assert Insert(t, key, value, shift, hash) == Node(InsertAt(cs, ChildIndex(bits, o), Leaf(Entry(key, value))), bits[o := true]);
      } else {
        var ci := ChildIndex(bits, o);
        ChildIndexBound(bits, o);
        if Chunk(hash(k), shift) == o {
          InsertLookup(cs[ci], key, value, shift + HASH_SHIFT, hash, k);
        } else {
          OtherChild(cs, bits, o, Chunk(hash(k), shift), Insert(cs[ci], key, value, shift + HASH_SHIFT, hash));
        }
      }
  }

  // Entries and collision arrays

  /** The 2-entry collision array of two different keys. */
  lemma PairShape<K, V>(a: Entry<K, V>, b: Entry<K, V>, shift: nat, hash: K -> HashCode)
    requires a.key != b.key
    ensures WF(Collision([a, b]), shift, hash)
    ensures Keys(Collision([a, b])) == {a.key, b.key} && Count(Collision([a, b])) == 2
  {
    assert forall j :: 0 <= j < 2 ==> [a, b][j].key in {a.key, b.key};
    assert [a, b][0].key == a.key && [a, b][1].key == b.key;
  }

  /** A collision array with the entry written over the one of the same key, or
      appended, keeps distinct keys and gains the key. */
  lemma CollisionPreserves<K, V>(es: seq<Entry<K, V>>, key: K, value: V)
    requires |es| >= 2 && DistinctKeys(es)
    ensures var i := FirstMatch(es, key);
      var es' := if i < |es| then es[i := Entry(key, value)] else es + [Entry(key, value)];
      && |es'| >= 2 && DistinctKeys(es')
      && (set j | 0 <= j < |es'| :: es'[j].key) == (set j | 0 <= j < |es| :: es[j].key) + {key}
      && |es'| == |es| + if i < |es| then 0 else 1
  {
    var i := FirstMatch(es, key);
    var e := Entry(key, value);
    if i < |es| {
      var es' := es[i := e];
      assert forall j :: 0 <= j < |es| ==> es'[j].key == es[j].key;
      assert (set j | 0 <= j < |es'| :: es'[j].key) == (set j | 0 <= j < |es| :: es[j].key);
    } else {
      var es' := es + [e];
      assert forall j :: 0 <= j < |es| ==> es'[j] == es[j];
      assert es'[|es|] == e;
      var before := set j | 0 <= j < |es| :: es[j].key;
      var after := set j | 0 <= j < |es'| :: es'[j].key;
      assert after == before + {key} by {
        forall x | x in after
          ensures x in before + {key}
        {
          var j :| 0 <= j < |es'| && es'[j].key == x;
        }
        forall x | x in before + {key}
          ensures x in after
        {
          if x == key {
            assert es'[|es|].key == x;
          } else {
            var j :| 0 <= j < |es| && es[j].key == x;
            assert es'[j].key == x;
          }
        }
      }
    }
  }

  /** The lookup in the new collision array. */
  lemma CollisionLookup<K, V>(es: seq<Entry<K, V>>, key: K, value: V, k: K)
    ensures var i := FirstMatch(es, key);
      var es' := if i < |es| then es[i := Entry(key, value)] else es + [Entry(key, value)];
      var j := FirstMatch(es', k);
      (if j < |es'| then Some(es'[j].value) else None) ==
      (if k == key then Some(value) else if FirstMatch(es, k) < |es| then Some(es[FirstMatch(es, k)].value) else None)
  {
    var i := FirstMatch(es, key);
    var e := Entry(key, value);
    if i < |es| {
      FirstMatchSameKeys(es, es[i := e], k);
    } else {
      FirstMatchAppend(es, e, k);
    }
  }

  /** Two arrays with the same keys in the same order have the same first matches. */
  lemma {:induction false} FirstMatchSameKeys<K, V>(a: seq<Entry<K, V>>, b: seq<Entry<K, V>>, k: K)
    requires |a| == |b| && forall j :: 0 <= j < |a| ==> a[j].key == b[j].key
    ensures FirstMatch(a, k) == FirstMatch(b, k)
    decreases |a|
  {
    if a != [] && a[0].key != k {
      FirstMatchSameKeys(a[1..], b[1..], k);
    }
  }

  /** The first match in an array with one entry appended. */
  lemma {:induction false} FirstMatchAppend<K, V>(es: seq<Entry<K, V>>, e: Entry<K, V>, k: K)
    ensures FirstMatch(es + [e], k) ==
      if FirstMatch(es, k) < |es| then FirstMatch(es, k) else if e.key == k then |es| else |es| + 1
    decreases |es|
  {
    if es == [] {
      assert es + [e] == [e];
      assert [e][1..] == [];
    } else {
      assert (es + [e])[1..] == es[1..] + [e];
      if es[0].key != k {
        FirstMatchAppend(es[1..], e, k);
      }
    }
  }

  // Nodes

  /** The node with a new leaf child at the missing chunk bit of its key is well formed,
      holds one more key and one more entry. */
  lemma NewChildPreserves<K, V>(cs: seq<Slot<K, V>>, bits: seq<bool>, e: Entry<K, V>, shift: nat, hash: K -> HashCode)
    requires WF(Node(cs, bits), shift, hash) && !bits[Chunk(hash(e.key), shift)]
    ensures var o := Chunk(hash(e.key), shift); var ci := ChildIndex(bits, o);
      ci <= |cs| &&
      var t' := Node(cs[..ci] + [Leaf(e)] + cs[ci..], bits[o := true]);
      && WF(t', shift, hash)
      && Keys(t') == KeysAll(cs) + {e.key}
      && Count(t') == CountAll(cs) + 1
  {
    var o := Chunk(hash(e.key), shift);
    var ci := ChildIndex(bits, o);
    ChildIndexAtMost(bits, o);
    var bits' := bits[o := true];
    SetBitCount(bits, o, 32);
    assert bits[..32] == bits && bits'[..32] == bits';
    InsertAtKeys(cs, ci, Leaf(e));
    KeysAllOne<K, V>(Leaf(e));
    NewChildChildren(cs, bits, e, shift, hash);
  }

  /** Inserting a child at index ci adds its keys and its count. */
  lemma InsertAtKeys<K, V>(cs: seq<Slot<K, V>>, ci: nat, x: Slot<K, V>)
    requires ci <= |cs|
    ensures KeysAll(cs[..ci] + [x] + cs[ci..]) == KeysAll(cs) + KeysAll([x])
    ensures CountAll(cs[..ci] + [x] + cs[ci..]) == CountAll(cs) + CountAll([x])
  {
    assert cs == cs[..ci] + cs[ci..];
    KeysAllConcat(cs[..ci] + [x], cs[ci..]);
    KeysAllConcat(cs[..ci], [x]);
    KeysAllConcat(cs[..ci], cs[ci..]);
  }

  /** The children of the node with the new leaf are well formed and routed. */
  lemma NewChildChildren<K, V>(cs: seq<Slot<K, V>>, bits: seq<bool>, e: Entry<K, V>, shift: nat, hash: K -> HashCode)
    requires WF(Node(cs, bits), shift, hash) && !bits[Chunk(hash(e.key), shift)]
    requires ChildIndex(bits, Chunk(hash(e.key), shift)) <= |cs|
    ensures var o := Chunk(hash(e.key), shift); var ci := ChildIndex(bits, o);
      var cs' := cs[..ci] + [Leaf(e)] + cs[ci..];
      && (forall j :: 0 <= j < |cs'| ==> WF(cs'[j], shift + HASH_SHIFT, hash))
      && (forall j, k :: 0 <= j < |cs'| && k in Keys(cs'[j]) ==> Routes(bits[o := true], Chunk(hash(k), shift), j))
  {
    var o := Chunk(hash(e.key), shift);
    var ci := ChildIndex(bits, o);
    var cs' := cs[..ci] + [Leaf(e)] + cs[ci..];
    forall j | 0 <= j < |cs'|
      ensures WF(cs'[j], shift + HASH_SHIFT, hash)
    {
      if j < ci {
        assert cs'[j] == cs[j];
      } else if ci < j {
        assert cs'[j] == cs[j - 1];
      }
    }
    forall j, k | 0 <= j < |cs'| && k in Keys(cs'[j])
      ensures Routes(bits[o := true], Chunk(hash(k), shift), j)
    {
      NewChildRoutes(cs, bits, e, shift, hash, j, k);
    }
  }

  /** Routing in the node with the new child: children before the new one keep their
      offsets and indices, the later ones move up by one index. */
  lemma NewChildRoutes<K, V>(cs: seq<Slot<K, V>>, bits: seq<bool>, e: Entry<K, V>, shift: nat, hash: K -> HashCode, j: nat, k: K)
    requires WF(Node(cs, bits), shift, hash) && !bits[Chunk(hash(e.key), shift)]
    requires ChildIndex(bits, Chunk(hash(e.key), shift)) <= |cs|
    requires var ci := ChildIndex(bits, Chunk(hash(e.key), shift));
      j < |cs| + 1 && k in Keys((cs[..ci] + [Leaf(e)] + cs[ci..])[j])
    ensures Routes(bits[Chunk(hash(e.key), shift) := true], Chunk(hash(k), shift), j)
  {
    var o := Chunk(hash(e.key), shift);
    var ci := ChildIndex(bits, o);
    var cs' := cs[..ci] + [Leaf(e)] + cs[ci..];
    var ok := Chunk(hash(k), shift);
    if j < ci {
      assert cs'[j] == cs[j];
      assert Routes(bits, ok, j);
      if o < ok {
        BitCountPrefix(bits, o, ok);
      }
      SetBitCount(bits, o, ok);
    } else if j == ci {
      assert k == e.key;
      SetBitCount(bits, o, o);
    } else {
      assert cs'[j] == cs[j - 1];
      assert Routes(bits, ok, j - 1);
      if ok < o {
        ChildIndexOrder(bits, ok, o);
      }
      SetBitCount(bits, o, ok);
    }
  }

  /** The lookup in the node with the new child: the new key's offset now leads to the new
      leaf, and every other offset to the child it led to before. */
  lemma NewChildLookup<K, V>(cs: seq<Slot<K, V>>, bits: seq<bool>, e: Entry<K, V>, shift: nat, hash: K -> HashCode, k: K)
    requires WF(Node(cs, bits), shift, hash) && !bits[Chunk(hash(e.key), shift)]
    ensures ChildIndex(bits, Chunk(hash(e.key), shift)) <= |cs|
    ensures Lookup(Node(InsertAt(cs, ChildIndex(bits, Chunk(hash(e.key), shift)), Leaf(e)), bits[Chunk(hash(e.key), shift) := true]), k, shift, hash) ==
      if k == e.key then Some(e.value) else Lookup(Node(cs, bits), k, shift, hash)
  {
    var o := Chunk(hash(e.key), shift);
    var ci := ChildIndex(bits, o);
    ChildIndexAtMost(bits, o);
    var ok := Chunk(hash(k), shift);
    SetBitCount(bits, o, ok);
    if ok == o {
      InsertAtIndex(cs, ci, Leaf(e), ci);
    } else if bits[ok] {
      ChildIndexBound(bits, ok);
      if ok < o {
        ChildIndexOrder(bits, ok, o);
        InsertAtIndex(cs, ci, Leaf(e), ChildIndex(bits, ok));
      } else {
        BitCountPrefix(bits, o, ok);
        InsertAtIndex(cs, ci, Leaf(e), ChildIndex(bits, ok) + 1);
      }
    }
  }

  /** The children with x inserted at index ci. */
  function InsertAt<K, V>(cs: seq<Slot<K, V>>, ci: nat, x: Slot<K, V>): (r: seq<Slot<K, V>>)
    requires ci <= |cs|
    ensures |r| == |cs| + 1
  {
    cs[..ci] + [x] + cs[ci..]
  }

  /** Child j after inserting x at index ci. */
  lemma InsertAtIndex<K, V>(cs: seq<Slot<K, V>>, ci: nat, x: Slot<K, V>, j: nat)
    requires ci <= |cs| && j <= |cs|
    ensures InsertAt(cs, ci, x)[j] == if j < ci then cs[j] else if j == ci then x else cs[j - 1]
  {
  }

  /** Replacing the child of the key's offset by one with the key added keeps the node
      well formed and adds the key; the count changes by the child's. */
  lemma DescendPreserves<K, V>(cs: seq<Slot<K, V>>, bits: seq<bool>, ci: nat, c: Slot<K, V>, key: K, shift: nat, hash: K -> HashCode)
    requires WF(Node(cs, bits), shift, hash) && Routes(bits, Chunk(hash(key), shift), ci) && ci < |cs|
    requires WF(c, shift + HASH_SHIFT, hash) && Keys(c) == Keys(cs[ci]) + {key}
    ensures WF(Node(cs[ci := c], bits), shift, hash)
    ensures Keys(Node(cs[ci := c], bits)) == KeysAll(cs) + {key}
    ensures Count(Node(cs[ci := c], bits)) == CountAll(cs) - Count(cs[ci]) + Count(c)
  {
    KeysAllUpdate(cs, ci, c);
    var cs' := cs[ci := c];
    forall j, k | 0 <= j < |cs'| && k in Keys(cs'[j])
      ensures Routes(bits, Chunk(hash(k), shift), j)
    {
      if j != ci {
        assert cs'[j] == cs[j];
      }
    }
  }
}
