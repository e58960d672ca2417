/** HashTrieMap's constructors, `get`, `put` and `size`. `get` and `put` are the loops
    of the source, proved against the recursive reference definitions `Lookup` and
    `Insert`; lemmas on those give the map meaning. */
module HashTrieMapOps {
  import opened Wrappers
  import opened Arith
  import opened HashTrieNodes

  /** A map: the root slot (null for the empty map) and the cached size. */
  datatype HashTrieMap<K, V> = HashTrieMap(root: Option<Slot<K, V>>, size: nat)

  /** The empty map has no root; otherwise the root is well formed at shift 0 and the
      size counts its entries. */
  ghost predicate Valid<K, V>(m: HashTrieMap<K, V>, hash: K -> HashCode)
  {
    if m.root.None? then m.size == 0 else WF(m.root.value, 0, hash) && m.size == Count(m.root.value)
  }

  /** The value `get(key)` returns for a non-null key, as a reference definition. */
  function MapGet<K(==), V>(m: HashTrieMap<K, V>, key: K, hash: K -> HashCode): Option<V>
  {
    if m.root.None? then None else Lookup(m.root.value, key, 0, hash)
  }

  /** The keys that have a value. */
  function KeySet<K(==), V>(m: HashTrieMap<K, V>): set<K>
  {
    if m.root.None? then {} else Keys(m.root.value)
  }

  /** `EMPTY` and `new HashTrieMap()`. */
  function Empty<K, V>(): HashTrieMap<K, V>
  {
    HashTrieMap(None, 0)
  }

  /** `singleton(key, value)`: a single entry as the root. */
  function Singleton<K, V>(key: K, value: V): HashTrieMap<K, V>
  {
    HashTrieMap(Some(Leaf(Entry(key, value))), 1)
  }

  /** The empty map holds nothing; a singleton holds exactly its entry. */
  lemma EmptyAndSingleton<K, V>(key: K, value: V, hash: K -> HashCode)
    ensures Valid(Empty<K, V>(), hash) && Empty<K, V>().size == 0
    ensures forall k :: MapGet(Empty<K, V>(), k, hash) == None
    ensures Valid(Singleton(key, value), hash) && Singleton(key, value).size == 1
    ensures forall k :: MapGet(Singleton(key, value), k, hash) == if k == key then Some(value) else None
  {
  }

  /** `get(key)`: null for a null key or an empty map; otherwise the walk down the nodes
      by 5-bit hash chunks, ending at an entry (compared by key) or a collision array
      (searched linearly). */
  method Get<K(==), V>(m: HashTrieMap<K, V>, key: Option<K>, hash: K -> HashCode) returns (r: Option<V>)
    requires Valid(m, hash)
    ensures key.None? ==> r == None
    ensures key.Some? ==> r == MapGet(m, key.value, hash)
  {
    if key.None? || m.root.None? {
      return None;
    }
    var k := key.value;
    var h := hash(k);
    var shift: nat := 0;
    var current := m.root.value;
    while true
      invariant WF(current, shift, hash)
      invariant Lookup(current, k, shift, hash) == MapGet(m, k, hash)
      decreases 40 - shift
    {
      if current.Node? {
        var offset := Chunk(h, shift);
        if current.hasChild[offset] {
          ChildIndexBound(current.hasChild, offset);
          current := current.children[ChildIndex(current.hasChild, offset)];
          shift := shift + HASH_SHIFT;
        } else {
          return None;
        }
      } else if current.Leaf? {
        return if k == current.entry.key then Some(current.entry.value) else None;
      } else {
        var es := current.entries;
        var i := 0;
        while i < |es|
          invariant i <= |es|
          invariant forall j :: 0 <= j < i ==> es[j].key != k
        {
          if k == es[i].key {
            return Some(es[i].value);
          }
          i := i + 1;
        }
        return None;
      }
    }
  }

  /** `get` finds exactly the stored keys, each with its own value. */
  lemma GetMeaning<K, V>(m: HashTrieMap<K, V>, key: K, hash: K -> HashCode)
    requires Valid(m, hash)
    ensures MapGet(m, key, hash).Some? <==> key in KeySet(m)
    ensures MapGet(m, key, hash).Some? ==> m.root.Some? && Entry(key, MapGet(m, key, hash).value) in Entries(m.root.value)
  {
    if m.root.Some? {
      if MapGet(m, key, hash).Some? {
        LookupSound(m.root.value, key, 0, hash);
      }
      if key in KeySet(m) {
        LookupComplete(m.root.value, key, 0, hash);
      }
    }
  }

  /** `size()`: the cached size is the number of keys that have a value. */
  lemma SizeIsKeyCount<K, V>(m: HashTrieMap<K, V>, hash: K -> HashCode)
    requires Valid(m, hash)
    ensures m.size == |KeySet(m)|
  {
    if m.root.Some? {
      KeysCount(m.root.value, 0, hash);
    }
  }

  /** Under a well-formed slot every entry has its own key. */
  lemma {:induction false} KeysCount<K, V>(t: Slot<K, V>, shift: nat, hash: K -> HashCode)
    requires WF(t, shift, hash)
    ensures |Keys(t)| == Count(t)
    decreases t, 1
  {
    match t
    case Leaf(_) =>
    case Collision(es) => CollisionKeysCount(es, |es|);
    case Node(cs, bits) =>
      KeysAllCount(cs, bits, shift, hash, |cs|);
      assert cs[..|cs|] == cs;
  }

  lemma {:induction false} KeysAllCount<K, V>(cs: seq<Slot<K, V>>, bits: seq<bool>, shift: nat, hash: K -> HashCode, n: nat)
    requires WF(Node(cs, bits), shift, hash) && n <= |cs|
    ensures |KeysAll(cs[..n])| == CountAll(cs[..n])
    decreases Node(cs, bits), 0, n
  {
    if n > 0 {
      var init := cs[..n][..n - 1];
      assert init == cs[..n - 1];
      KeysAllCount(cs, bits, shift, hash, n - 1);
      KeysCount(cs[n - 1], shift + HASH_SHIFT, hash);
      forall k | k in KeysAll(init)
        ensures k !in Keys(cs[n - 1])
      {
        KeysAllMember(init, k);
        var j :| 0 <= j < |init| && k in Keys(init[j]);
        assert init[j] == cs[j];
        assert Routes(bits, Chunk(hash(k), shift), j);
      }
      assert KeysAll(init) * Keys(cs[n - 1]) == {};
    } else {
      assert cs[..0] == [];
    }
  }

  lemma {:induction false} CollisionKeysCount<K, V>(es: seq<Entry<K, V>>, n: nat)
    requires DistinctKeys(es) && n <= |es|
    ensures |set j | 0 <= j < n :: es[j].key| == n
    decreases n
  {
    if n > 0 {
      CollisionKeysCount(es, n - 1);
      var before := set j | 0 <= j < n - 1 :: es[j].key;
      assert (set j | 0 <= j < n :: es[j].key) == before + {es[n - 1].key};
      assert es[n - 1].key !in before;
    }
  }

  // put

  /** `findCollision(entries, key)`: the index of the first entry with the key, or the
      length when there is none. */
  method FindCollision<K(==), V>(entries: seq<Entry<K, V>>, key: K) returns (index: nat)
    ensures index == FirstMatch(entries, key)
  {
    index := 0;
    while index < |entries|
      invariant index <= |entries|
      invariant forall j :: 0 <= j < index ==> entries[j].key != key
    {
      if key == entries[index].key {
        break;
      }
      index := index + 1;
    }
  }

  /** The node `put` builds when it splits an entry at a shift below 32: one child, the
      entry, under the bit of the entry's own hash chunk. */
  function Split<K, V>(e: Entry<K, V>, shift: nat, hash: K -> HashCode): Slot<K, V>
  {
    Node([Leaf(e)], SingleBit(Chunk(hash(e.key), shift)))
  }

  /** The slot `put(key, value)` leaves in place of `t`, reached at `shift`:
      - an entry of the same key is replaced;
      - an entry of another key is split into a node while the shift is below 32, and
        otherwise joined with the new entry in a 2-entry collision array;
      - a collision array gets the entry in place of the matching one, or appended;
      - a node without the key's chunk bit gets the entry as a new child at that bit's
        index, and otherwise the insertion continues in the child one level down. */
  function Insert<K(==), V>(t: Slot<K, V>, key: K, value: V, shift: nat, hash: K -> HashCode): Slot<K, V>
    requires WF(t, shift, hash)
    decreases 40 - shift, if t.Leaf? then 1 else 0
  {
    match t
    case Leaf(e) =>
      if e.key == key then Leaf(Entry(key, value))
      else if shift < INT_SIZE then
        SplitShape(e, shift, hash);
        Insert(Split(e, shift, hash), key, value, shift, hash)
      else Collision([Entry(key, value), e])
    case Collision(es) =>
      var i := FirstMatch(es, key);
      if i < |es| then Collision(es[i := Entry(key, value)]) else Collision(es + [Entry(key, value)])
    case Node(cs, bits) =>
      var o := Chunk(hash(key), shift);
      var ci := ChildIndex(bits, o);
      ChildIndexAtMost(bits, o);
      if !bits[o] then Node(cs[..ci] + [Leaf(Entry(key, value))] + cs[ci..], bits[o := true])
      else Node(cs[ci := Insert(cs[ci], key, value, shift + HASH_SHIFT, hash)], bits)
  }

  lemma ChildIndexAtMost(bits: seq<bool>, o: nat)
    requires o < |bits|
    ensures ChildIndex(bits, o) <= BitCount(bits)
    ensures bits[o] ==> ChildIndex(bits, o) < BitCount(bits)
  {
    BitCountPrefix(bits, o, |bits|);
    assert bits[..|bits|] == bits;
  }

  /** The split node is well formed and holds what the entry held. */
  lemma SplitShape<K, V>(e: Entry<K, V>, shift: nat, hash: K -> HashCode)
    requires shift < INT_SIZE
    ensures WF(Split(e, shift, hash), shift, hash)
    ensures Keys(Split(e, shift, hash)) == {e.key} && Count(Split(e, shift, hash)) == 1
  {
    var o := Chunk(hash(e.key), shift);
    SingleBitCount(o);
    KeysAllOne<K, V>(Leaf(e));
  }

  /** Looking up through the split node gives what the entry gave. */
  lemma SplitLookup<K, V>(e: Entry<K, V>, shift: nat, hash: K -> HashCode, k: K)
    requires shift < INT_SIZE
    ensures Lookup(Split(e, shift, hash), k, shift, hash) == Lookup(Leaf(e), k, shift, hash)
  {
    SingleBitCount(Chunk(hash(e.key), shift));
  }

  /** A step of the copied path: the children of a node before and after the slot being
      descended into, with its bitmap. Java's copy of the children array with a null in
      that slot, patched later by `connect`. */
  datatype Frame<K, V> = Frame(left: seq<Slot<K, V>>, right: seq<Slot<K, V>>, hasChild: seq<bool>)

  /** `connect(newRoot, parent, parentIndex, next)`: `next` linked into the innermost
      copied node, and so on up to the new root; with no copies yet, `next` is the root. */
  function Connect<K, V>(path: seq<Frame<K, V>>, next: Slot<K, V>): Slot<K, V>
    decreases |path|
  {
    if path == [] then next
    else
      var f := path[|path| - 1];
      Connect(path[..|path| - 1], Node(f.left + [next] + f.right, f.hasChild))
  }

  /** Descending one level extends the path by the current node's copy. */
  lemma ConnectPush<K, V>(path: seq<Frame<K, V>>, cs: seq<Slot<K, V>>, bits: seq<bool>, ci: nat, next: Slot<K, V>)
    requires ci < |cs|
    ensures Connect(path + [Frame(cs[..ci], cs[ci + 1..], bits)], next) == Connect(path, Node(cs[ci := next], bits))
  {
    var path' := path + [Frame(cs[..ci], cs[ci + 1..], bits)];
    assert path'[..|path'| - 1] == path;
    assert cs[..ci] + [next] + cs[ci + 1..] == cs[ci := next];
  }

  /** The children array of the new node when a chunk bit is missing: the children
      before the new child's index, the new child, then the rest shifted up by one. */
  method InsertChild<K, V>(cs: seq<Slot<K, V>>, ci: nat, x: Slot<K, V>) returns (r: seq<Slot<K, V>>)
    requires ci <= |cs|
    ensures r == cs[..ci] + [x] + cs[ci..]
  {
    var children := new Slot<K, V>[|cs| + 1](_ => x);
    var i := 0;
    while i < ci
      invariant i <= ci
      invariant forall j :: 0 <= j < i ==> children[j] == cs[j]
    {
      children[i] := cs[i];
      i := i + 1;
    }
    children[ci] := x;
    i := ci + 1;
    while i < children.Length
      invariant ci + 1 <= i <= children.Length
      invariant forall j :: 0 <= j < ci ==> children[j] == cs[j]
      invariant children[ci] == x
      invariant forall j :: ci < j < i ==> children[j] == cs[j - 1]
    {
      children[i] := cs[i - 1];
      i := i + 1;
    }
    r := children[..];
    assert forall j :: 0 <= j < |r| ==> r[j] == (cs[..ci] + [x] + cs[ci..])[j];
  }

  /** The new collision array: a copy, one longer when the key was not found, with the
      entry written at the found index or at the end. */
  method PutCollision<K, V>(es: seq<Entry<K, V>>, idx: nat, entry: Entry<K, V>) returns (r: seq<Entry<K, V>>)
    requires idx <= |es|
    ensures idx < |es| ==> r == es[idx := entry]
    ensures idx == |es| ==> r == es + [entry]
  {
    var found := idx < |es|;
    var newCollision := new Entry<K, V>[|es| + (if found then 0 else 1)](j => if 0 <= j < |es| then es[j] else entry);
    newCollision[idx] := entry;
    r := newCollision[..];
  }

  /** The map `put(key, value)` returns, as a reference definition: the singleton for an
      empty map; otherwise the inserted root, one larger exactly when the key was absent. */
  function Inserted<K(==), V>(m: HashTrieMap<K, V>, key: K, value: V, hash: K -> HashCode): HashTrieMap<K, V>
    requires Valid(m, hash)
  {
    if m.root.None? then Singleton(key, value)
    else
      var root := m.root.value;
      HashTrieMap(Some(Insert(root, key, value, 0, hash)), m.size + (if Lookup(root, key, 0, hash).None? then 1 else 0))
  }

  /** `put(key, value)`: NullPointerException for a null key or value; the singleton
      for an empty map; otherwise the new root of `PutRoot`, with the size one larger
      exactly when a new entry was added. */
  method Put<K(==), V>(m: HashTrieMap<K, V>, key: Option<K>, value: Option<V>, hash: K -> HashCode)
    returns (r: Result<HashTrieMap<K, V>>)
    requires Valid(m, hash)
    ensures key.None? || value.None? ==> r == Throws(NullPointerException)
    ensures key.Some? && value.Some? ==> r == Ok(Inserted(m, key.value, value.value, hash))
  {
    if key.None? {
      return Throws(NullPointerException);
    }
    if value.None? {
      return Throws(NullPointerException);
    }
    if m.root.None? {
      return Ok(Singleton(key.value, value.value));
    }
    var newRoot, added := PutRoot(m.root.value, key.value, value.value, hash);
    r := Ok(HashTrieMap(Some(newRoot), m.size + (if added then 1 else 0)));
  }

  /** The loop of `put` on a non-empty map: the walk down the key's path copying every
      node on it, ending in one of the terminal cases of `Insert`; `added` tells whether
      the size grows. */
  method PutRoot<K(==), V>(root: Slot<K, V>, k: K, v: V, hash: K -> HashCode) returns (newRoot: Slot<K, V>, added: bool)
    requires WF(root, 0, hash)
    ensures newRoot == Insert(root, k, v, 0, hash)
    ensures added <==> Lookup(root, k, 0, hash).None?
  {
    var path: seq<Frame<K, V>> := [];
    var current := root;
    var shift: nat := 0;
    var done := false;
    newRoot, added := root, false;
    while !done
      invariant !done ==> PutState(path, current, shift, root, k, v, hash)
      invariant done ==> newRoot == Insert(root, k, v, 0, hash) && (added <==> Lookup(root, k, 0, hash).None?)
      decreases !done, 40 - shift, if current.Leaf? then 1 else 0
    {
      done, path, current, shift, newRoot, added := PutStep(path, current, shift, root, k, v, hash);
    }
  }

  /** One pass of `put`'s loop: an entry of another key is split into a node, a node
      with the key's chunk bit set is copied onto the path and descended into, and every
      other case finishes the insertion and links it into the root. */
  method PutStep<K(==), V>(path: seq<Frame<K, V>>, current: Slot<K, V>, shift: nat, root: Slot<K, V>, k: K, v: V, hash: K -> HashCode)
    returns (done: bool, path': seq<Frame<K, V>>, current': Slot<K, V>, shift': nat, newRoot: Slot<K, V>, added: bool)
    requires PutState(path, current, shift, root, k, v, hash)
    ensures done ==> newRoot == Insert(root, k, v, 0, hash) && (added <==> Lookup(root, k, 0, hash).None?)
    ensures !done ==> PutState(path', current', shift', root, k, v, hash)
    ensures !done ==> shift' < 40 && (shift' > shift || (shift' == shift && current.Leaf? && !current'.Leaf?))
  {
    var entry := Entry(k, v);
    done, path', current', shift', newRoot, added := false, path, current, shift, current, false;
    if current.Leaf? && k != current.entry.key && shift < INT_SIZE {
      SplitStep(path, current, shift, root, k, v, hash);
      current' := Split(current.entry, shift, hash);
    } else if !current.Node? {
      var leaf, grows := PutLeaf(current, entry, shift, hash);
      done, newRoot, added := true, Connect(path, leaf), grows;
    } else if !current.hasChild[Chunk(hash(k), shift)] {
      var node := AddChild(current, entry, shift, hash);
      done, newRoot, added := true, Connect(path, node), true;
    } else {
      var childIndex := ChildIndex(current.hasChild, Chunk(hash(k), shift));
      DescendStep(path, current, shift, root, k, v, hash);
      path' := path + [Frame(current.children[..childIndex], current.children[childIndex + 1..], current.hasChild)];
      current' := current.children[childIndex];
      shift' := shift + HASH_SHIFT;
    }
  }

  /** The loop invariant of `put`: the slot reached is well formed, inserting into it and
      linking the result through the copied path gives the insertion into the root, and
      the key is found below it exactly when it is found in the root. */
  ghost predicate PutState<K, V>(path: seq<Frame<K, V>>, current: Slot<K, V>, shift: nat, root: Slot<K, V>, k: K, v: V, hash: K -> HashCode)
  {
    && WF(root, 0, hash)
    && WF(current, shift, hash)
    && Connect(path, Insert(current, k, v, shift, hash)) == Insert(root, k, v, 0, hash)
    && Lookup(current, k, shift, hash) == Lookup(root, k, 0, hash)
  }

  /** Splitting an entry whose key differs keeps the loop invariant. */
  lemma SplitStep<K, V>(path: seq<Frame<K, V>>, current: Slot<K, V>, shift: nat, root: Slot<K, V>, k: K, v: V, hash: K -> HashCode)
    requires PutState(path, current, shift, root, k, v, hash)
    requires current.Leaf? && k != current.entry.key && shift < INT_SIZE
    ensures PutState(path, Split(current.entry, shift, hash), shift, root, k, v, hash)
  {
    SplitShape(current.entry, shift, hash);
    SplitLookup(current.entry, shift, hash, k);
  }

  /** Descending into the child the key's chunk bit selects keeps the loop invariant, with
      the current node's copy pushed on the path. */
  lemma DescendStep<K, V>(path: seq<Frame<K, V>>, current: Slot<K, V>, shift: nat, root: Slot<K, V>, k: K, v: V, hash: K -> HashCode)
    requires PutState(path, current, shift, root, k, v, hash)
    requires current.Node? && current.hasChild[Chunk(hash(k), shift)]
    ensures ChildIndex(current.hasChild, Chunk(hash(k), shift)) < |current.children|
    ensures PutState(path + [Frame(current.children[..ChildIndex(current.hasChild, Chunk(hash(k), shift))],
                                   current.children[ChildIndex(current.hasChild, Chunk(hash(k), shift)) + 1..],
                                   current.hasChild)],
                     current.children[ChildIndex(current.hasChild, Chunk(hash(k), shift))], shift + HASH_SHIFT, root, k, v, hash)
  {
    var cs, bits := current.children, current.hasChild;
    var ci := ChildIndex(bits, Chunk(hash(k), shift));
    InsertDescend(current, k, v, shift, hash);
    ConnectPush(path, cs, bits, ci, Insert(cs[ci], k, v, shift + HASH_SHIFT, hash));
  }

  /** The terminal cases of `put` at an entry or a collision array: the entry of the same
      key replaced, a 2-entry collision array at a shift of 32 or more, or the collision
      array with the entry written in. */
  method PutLeaf<K(==), V>(current: Slot<K, V>, entry: Entry<K, V>, shift: nat, hash: K -> HashCode)
    returns (r: Slot<K, V>, grows: bool)
    requires WF(current, shift, hash) && !current.Node?
    requires current.Leaf? && entry.key != current.entry.key ==> shift >= INT_SIZE
    ensures r == Insert(current, entry.key, entry.value, shift, hash)
    ensures grows <==> Lookup(current, entry.key, shift, hash).None?
  {
    if current.Leaf? {
      var currentEntry := current.entry;
      if entry.key == currentEntry.key {
        r, grows := Leaf(entry), false;
      } else {
        r, grows := Collision([entry, currentEntry]), true;
      }
    } else {
      var idx := FindCollision(current.entries, entry.key);
      var found := idx < |current.entries|;
      var newCollision := PutCollision(current.entries, idx, entry);
      r, grows := Collision(newCollision), !found;
    }
  }

  /** The terminal case of `put` at a node without the key's chunk bit: a new node with
      the bit set and the entry inserted among the children at that bit's index. */
  method AddChild<K(==), V>(current: Slot<K, V>, entry: Entry<K, V>, shift: nat, hash: K -> HashCode) returns (r: Slot<K, V>)
    requires WF(current, shift, hash) && current.Node? && !current.hasChild[Chunk(hash(entry.key), shift)]
    ensures r == Insert(current, entry.key, entry.value, shift, hash)
    ensures Lookup(current, entry.key, shift, hash).None?
  {
    var offset := Chunk(hash(entry.key), shift);
    InsertNewChild(current, entry.key, entry.value, shift, hash);
    var children := InsertChild(current.children, ChildIndex(current.hasChild, offset), Leaf(entry));
    r := Node(children, current.hasChild[offset := true]);
  }

  /** A node without the key's chunk bit gets the new entry as a child at that bit's
      index. */
  lemma InsertNewChild<K, V>(t: Slot<K, V>, k: K, v: V, shift: nat, hash: K -> HashCode)
    requires WF(t, shift, hash) && t.Node? && !t.hasChild[Chunk(hash(k), shift)]
    ensures var o := Chunk(hash(k), shift); var ci := ChildIndex(t.hasChild, o);
      && ci <= |t.children|
      && Insert(t, k, v, shift, hash) == Node(t.children[..ci] + [Leaf(Entry(k, v))] + t.children[ci..], t.hasChild[o := true])
      && Lookup(t, k, shift, hash).None?
  {
    ChildIndexAtMost(t.hasChild, Chunk(hash(k), shift));
  }

  /** A node with the key's chunk bit passes the insertion and the lookup to that child. */
  lemma InsertDescend<K, V>(t: Slot<K, V>, k: K, v: V, shift: nat, hash: K -> HashCode)
    requires WF(t, shift, hash) && t.Node? && t.hasChild[Chunk(hash(k), shift)]
    ensures var ci := ChildIndex(t.hasChild, Chunk(hash(k), shift));
      && ci < |t.children|
      && WF(t.children[ci], shift + HASH_SHIFT, hash)
      && Insert(t, k, v, shift, hash) == Node(t.children[ci := Insert(t.children[ci], k, v, shift + HASH_SHIFT, hash)], t.hasChild)
      && Lookup(t, k, shift, hash) == Lookup(t.children[ci], k, shift + HASH_SHIFT, hash)
  {
    ChildIndexBound(t.hasChild, Chunk(hash(k), shift));
  }

}
