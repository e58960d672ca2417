/** The read and path-copying operations of TrieArray: findNode, get, update, append,
    take and remend. Every operation leaves its input untouched (all values here are
    immutable), and each is proved against the element sequence `Elements`. */
module TrieArrayOps {
  import opened Wrappers
  import opened Arith
  import opened Seqs
  import opened TrieArrayNodes
  import opened TrieArrayShape

  /** `t` is the node at `level` on the path to index i of `root`: it holds the elements
      of `root` from the start of i's level-(level + 1) block onwards, i among them. The
      offset of i in that block is Low(i, level), that is i % 32^(level + 1). */
  ghost predicate InSlice<T>(root: Node<T>, t: Node<T>, level: nat, i: nat)
  {
    var s := Low(i, level);
    && s <= i
    && Packed(t, level)
    && i - s + |Flatten(t)| <= |Flatten(root)|
    && s < |Flatten(t)|
    && Flatten(t) == Flatten(root)[i - s .. i - s + |Flatten(t)|]
  }

  lemma InSliceRoot<T>(root: Node<T>, level: nat, i: nat)
    requires Packed(root, level) && i < |Flatten(root)|
    ensures InSlice(root, root, level, i)
  {
    PackedSize(root, level);
    DivModUnique(i, Pow32(level + 1), 0, i);
    LowIsMod(i, level);
  }

  /** One routing step: digit `level` of i selects the child on the path to i. */
  lemma InSliceStep<T>(root: Node<T>, t: Node<T>, level: nat, i: nat)
    requires InSlice(root, t, level, i)
    ensures Digit(i, level) < |t.kids|
    ensures level == 0 ==> t.kids[Digit(i, level)] == Elem(Flatten(root)[i])
    ensures level > 0 ==> InSlice(root, t.kids[Digit(i, level)], level - 1, i)
  {
    if level == 0 {
      InSliceLeaf(root, t, i);
    } else {
      InSliceChild(root, t, level, i);
    }
  }

  lemma InSliceLeaf<T>(root: Node<T>, t: Node<T>, i: nat)
    requires InSlice(root, t, 0, i)
    ensures Digit(i, 0) < |t.kids| && t.kids[Digit(i, 0)] == Elem(Flatten(root)[i])
  {
    LeafSlot(Flatten(root), t, i);
  }

  /** The slot of a leaf block on the path to index i of `r` holds r[i]. */
  lemma LeafSlot<T>(r: seq<T>, t: Node<T>, i: nat)
    requires Packed(t, 0)
    requires var s := Low(i, 0);
      && s <= i && i - s + |Flatten(t)| <= |r| && s < |Flatten(t)| && Flatten(t) == r[i - s .. i - s + |Flatten(t)|]
    ensures i < |r| && Digit(i, 0) < |t.kids| && t.kids[Digit(i, 0)] == Elem(r[i])
  {
    LowIsMod(i, 0);
    ChildAtLeaf(t, i);
    SliceAt(r, Flatten(t), i, i % Pow32(1));
  }

  lemma InSliceChild<T>(root: Node<T>, t: Node<T>, level: nat, i: nat)
    requires InSlice(root, t, level, i) && level > 0
    ensures Digit(i, level) < |t.kids| && InSlice(root, t.kids[Digit(i, level)], level - 1, i)
  {
    ChildAtLow(t, level, i);
    var child := t.kids[Digit(i, level)];
    NarrowSlice(Flatten(root), Flatten(t), Flatten(child), level, i);
    InSliceIntro(root, child, level - 1, i, Low(i, level - 1));
  }

  /** The facts InSlice is made of, with the offset named. */
  lemma InSliceIntro<T>(root: Node<T>, t: Node<T>, level: nat, i: nat, s: nat)
    requires s == Low(i, level) && s <= i && Packed(t, level)
    requires i - s + |Flatten(t)| <= |Flatten(root)| && s < |Flatten(t)|
    requires Flatten(t) == Flatten(root)[i - s .. i - s + |Flatten(t)|]
    ensures InSlice(root, t, level, i)
  {
  }

  /** The offsets of a routing step over plain sequences: `t` is the slice of `r` from the
      start of i's level-(level + 1) block, `c` the slice of `t` from the start of i's
      level-level block within it, so `c` is the slice of `r` from the latter. */
  lemma NarrowSlice<T>(r: seq<T>, t: seq<T>, c: seq<T>, level: nat, i: nat)
    requires level > 0
    requires var x := Low(i, level);
      && x <= i && i - x + |t| <= |r| && t == r[i - x .. i - x + |t|]
    requires var x, s := Low(i, level), Low(i, level - 1);
      && s <= x && x - s + |c| <= |t| && c == t[x - s .. x - s + |c|]
    ensures var s := Low(i, level - 1);
      && s <= i && i - s + |c| <= |r| && c == r[i - s .. i - s + |c|]
  {
    SliceCompose(r, t, c, i, Low(i, level), Low(i, level - 1));
  }

  /** `findNode(root, rootLevel, targetIndex, targetLevel)`: follow digits rootLevel down
      to targetLevel of the index. For targetLevel 0 this is the element itself, otherwise
      the level-(targetLevel - 1) node whose slice contains the index. */
  method FindNode<T>(root: Node<T>, rootLevel: int, targetIndex: nat, targetLevel: nat) returns (r: Node<T>)
    requires 0 <= rootLevel && targetLevel <= rootLevel + 1
    requires Packed(root, rootLevel) && targetIndex < |Flatten(root)|
    ensures targetLevel == 0 ==> r == Elem(Flatten(root)[targetIndex])
    ensures targetLevel > 0 ==> InSlice(root, r, targetLevel - 1, targetIndex)
  {
    InSliceRoot(root, rootLevel, targetIndex);
    var current := root;
    var level := rootLevel;
    while targetLevel <= level
      invariant targetLevel - 1 <= level <= rootLevel
      invariant level >= 0 ==> InSlice(root, current, level, targetIndex)
      invariant level < 0 ==> current == Elem(Flatten(root)[targetIndex])
      decreases level
    {
      InSliceStep(root, current, level, targetIndex);
      var childIndex := Digit(targetIndex, level);
      current := current.kids[childIndex];
      level := level - 1;
    }
    r := current;
  }

  /** `get(index)`: element `index`, from the trie below the root size and from the tail
      above it; IndexOutOfBoundsException outside 0..size - 1. */
  method Get<T>(a: TrieArray<T>, index: int) returns (r: Result<T>)
    requires Valid(a)
    ensures 0 <= index < a.size ==> |Elements(a)| == a.size && r == Ok(Elements(a)[index])
    ensures !(0 <= index < a.size) ==> r == Throws(IndexOutOfBoundsException)
  {
    ElementsSize(a);
    if index < 0 || a.size <= index {
      return Throws(IndexOutOfBoundsException);
    }
    var rootSize := RootSize(a.size);
    if index < rootSize {
      var t := FindNode(a.root.value, Height(a.size) - 1, index, 0);
      r := Ok(t.value);
    } else if a.size - rootSize == 1 {
      r := Ok(a.end.value.value);
    } else {
      TailSize(a.end, a.size - rootSize);
      r := Ok(a.end.value.kids[index - rootSize].value);
    }
  }

  /** The trie with offset `i % 32^(level + 1)` of node t replaced by v, along the path
      of index i: the reference result of update's copying loop. */
  ghost function SetAt<T>(t: Node<T>, level: nat, i: nat, v: T): Node<T>
    decreases level
  {
    var d := Digit(i, level);
    if !t.Branch? || d >= |t.kids| then t
    else if level == 0 then Branch(t.kids[d := Elem(v)])
    else Branch(t.kids[d := SetAt(t.kids[d], level - 1, i, v)])
  }

  /** Replacing along the path of i changes exactly the element at i's offset and keeps
      the node packed. */
  lemma {:induction false} SetAtElements<T>(t: Node<T>, level: nat, i: nat, v: T)
    requires Packed(t, level) && i % Pow32(level + 1) < |Flatten(t)|
    ensures Packed(SetAt(t, level, i, v), level)
    ensures Flatten(SetAt(t, level, i, v)) == Flatten(t)[i % Pow32(level + 1) := v]
    decreases level
  {
    ChildAt(t, level, i);
    if level == 0 {
      SetAtLeaf(t, i, v);
    } else {
      var d := Digit(i, level);
      SetAtElements(t.kids[d], level - 1, i, v);
      SetAtChild(t, level, i, SetAt(t.kids[d], level - 1, i, v), v);
    }
  }

  lemma SetAtLeaf<T>(t: Node<T>, i: nat, v: T)
    requires Packed(t, 0) && i % Pow32(1) < |Flatten(t)|
    ensures Packed(SetAt(t, 0, i, v), 0)
    ensures Flatten(SetAt(t, 0, i, v)) == Flatten(t)[i % Pow32(1) := v]
  {
    ChildAtLeaf(t, i);
    var kids' := t.kids[Digit(i, 0) := Elem(v)];
    assert ElemsOnly(kids');
    FlattenAllElems(t.kids);
    FlattenAllElems(kids');
  }

  /** The step of SetAtElements above the leaves: one child replaced by `c'`, its
      updated version. */
  lemma SetAtChild<T>(t: Node<T>, level: nat, i: nat, c': Node<T>, v: T)
    requires Packed(t, level) && level > 0 && i % Pow32(level + 1) < |Flatten(t)|
    requires Digit(i, level) < |t.kids|
    requires Packed(c', level - 1)
    requires i % Pow32(level) < |Flatten(t.kids[Digit(i, level)])|
    requires Flatten(c') == Flatten(t.kids[Digit(i, level)])[i % Pow32(level) := v]
    requires c' == SetAt(t.kids[Digit(i, level)], level - 1, i, v)
    ensures Packed(SetAt(t, level, i, v), level)
    ensures Flatten(SetAt(t, level, i, v)) == Flatten(t)[i % Pow32(level + 1) := v]
  {
    ChildAt(t, level, i);
    var kids, d := t.kids, Digit(i, level);
    var x, s := i % Pow32(level + 1), i % Pow32(level);
    var kids' := kids[d := c'];
    assert SetAt(t, level, i, v) == Branch(kids');
    FlattenAllSplit(kids, d);
    FlattenAllSplit(kids', d);
    assert kids'[..d] == kids[..d] && kids'[d + 1..] == kids[d + 1..];
    forall k | 0 <= k < |kids'| - 1
      ensures Full(kids'[k], level - 1)
    {
      if k != d { assert kids'[k] == kids[k]; }
    }
    var pre, post := FlattenAll(kids[..d]), FlattenAll(kids[d + 1..]);
    UpdateMiddle(pre, Flatten(kids[d]), post, s, v);
  }

  /** The copying loop of `update` below the root size: copy each node on the path of
      `index`, link it into the copy above, and write the value into the leaf copy. */
  method UpdatePath<T>(root: Node<T>, top: nat, index: nat, value: T) returns (newRoot: Node<T>)
    requires Packed(root, top) && index < |Flatten(root)|
    ensures Packed(newRoot, top)
    ensures Flatten(newRoot) == Flatten(root)[index := value]
  {
    InSliceRoot(root, top, index);
    var ctx: seq<Frame<T>> := [];
    var current := root;
    var level: int := top;
    newRoot := root;
    while 0 <= level
      invariant -1 <= level <= top
      invariant level >= 0 ==> InSlice(root, current, level, index)
      invariant level >= 0 ==> Plug(ctx, SetAt(current, level, index, value)) == SetAt(root, top, index, value)
      invariant level < 0 ==> newRoot == SetAt(root, top, index, value)
      decreases level
    {
      InSliceStep(root, current, level, index);
      var kids := current.kids;
      var childIndex := Digit(index, level);
      if level == 0 {
        newRoot := Plug(ctx, Branch(kids[childIndex := Elem(value)]));
      } else {
        var frame := Frame(kids[..childIndex], kids[childIndex + 1..]);
        SetAtUnfold(current, level, index, value);
        PlugPush(ctx, frame, SetAt(kids[childIndex], level - 1, index, value));
        ctx := ctx + [frame];
        current := kids[childIndex];
      }
      level := level - 1;
    }
    SetAtRoot(root, top, index, value);
  }

  /** Replacing along the path of an index of the whole trie replaces that element. */
  lemma SetAtRoot<T>(root: Node<T>, top: nat, index: nat, value: T)
    requires Packed(root, top) && index < |Flatten(root)|
    ensures Packed(SetAt(root, top, index, value), top)
    ensures Flatten(SetAt(root, top, index, value)) == Flatten(root)[index := value]
  {
    PackedBound(root, top);
    DivModUnique(index, Pow32(top + 1), 0, index);
    SetAtElements(root, top, index, value);
  }

  lemma SetAtUnfold<T>(t: Node<T>, level: nat, i: nat, v: T)
    requires level > 0 && t.Branch? && Digit(i, level) < |t.kids|
    ensures var d := Digit(i, level);
      SetAt(t, level, i, v) == Branch(t.kids[..d] + [SetAt(t.kids[d], level - 1, i, v)] + t.kids[d + 1..])
  {
    var d := Digit(i, level);
    assert t.kids[d := SetAt(t.kids[d], level - 1, i, v)]
        == t.kids[..d] + [SetAt(t.kids[d], level - 1, i, v)] + t.kids[d + 1..];
  }

  /** `update(index, value)`: a copy with element `index` replaced, sharing everything off
      the copied path; IndexOutOfBoundsException outside 0..size - 1. */
  method Update<T>(a: TrieArray<T>, index: int, value: T) returns (r: Result<TrieArray<T>>)
    requires Valid(a)
    ensures 0 <= index < a.size ==>
      && |Elements(a)| == a.size
      && r.Ok? && Valid(r.value) && r.value.size == a.size
      && Elements(r.value) == Elements(a)[index := value]
    ensures !(0 <= index < a.size) ==> r == Throws(IndexOutOfBoundsException)
  {
    ElementsSize(a);
    if index < 0 || a.size <= index {
      return Throws(IndexOutOfBoundsException);
    }
    var rootSize := RootSize(a.size);
    if index < rootSize {
      var newRoot := UpdatePath(a.root.value, Height(a.size) - 1, index, value);
      r := Ok(TrieArray(Some(newRoot), a.end, a.size));
      UpdateInRoot(a, index, value, newRoot);
    } else if a.size - rootSize == 1 {
      r := Ok(TrieArray(a.root, Some(Elem(value)), a.size));
      UpdateLastElement(a, value);
    } else {
      var endKids := a.end.value.kids;
      var newEnd := endKids[index - rootSize := Elem(value)];
      r := Ok(TrieArray(a.root, Some(Branch(newEnd)), a.size));
      UpdateInTail(a, index, value);
    }
  }

  lemma UpdateInRoot<T>(a: TrieArray<T>, index: nat, value: T, newRoot: Node<T>)
    requires Valid(a) && index < RootSize(a.size)
    requires Packed(newRoot, Height(a.size) - 1)
    requires Flatten(newRoot) == Flatten(a.root.value)[index := value]
    ensures var r := TrieArray(Some(newRoot), a.end, a.size);
      Valid(r) && Elements(r) == Elements(a)[index := value]
  {
    UpdateLeft(Flatten(a.root.value), FlattenOpt(a.end), index, value);
  }

  lemma UpdateLastElement<T>(a: TrieArray<T>, value: T)
    requires Valid(a) && a.size - RootSize(a.size) == 1
    ensures var r := TrieArray(a.root, Some(Elem(value)), a.size);
      Valid(r) && Elements(r) == Elements(a)[a.size - 1 := value]
  {
    var pre := FlattenOpt(a.root);
    ElementsSize(a);
    assert Elements(a) == pre + [a.end.value.value];
    UpdateRight(pre, [a.end.value.value], 0, value);
  }

  lemma UpdateInTail<T>(a: TrieArray<T>, index: nat, value: T)
    requires Valid(a) && RootSize(a.size) <= index < a.size && a.size - RootSize(a.size) >= 2
    ensures var e := Branch(a.end.value.kids[index - RootSize(a.size) := Elem(value)]);
      var r := TrieArray(a.root, Some(e), a.size);
      |Elements(a)| == a.size && Valid(r) && Elements(r) == Elements(a)[index := value]
  {
    var rs := RootSize(a.size);
    var j := index - rs;
    var kids := a.end.value.kids;
    var kids' := kids[j := Elem(value)];
    assert ElemsOnly(kids');
    FlattenAllElems(kids);
    FlattenAllElems(kids');
    assert FlattenAll(kids') == FlattenAll(kids)[j := value] by {
      forall k | 0 <= k < |kids|
        ensures FlattenAll(kids')[k] == FlattenAll(kids)[j := value][k]
      {
      }
    }
    ElementsSize(a);
    UpdateRight(FlattenOpt(a.root), FlattenAll(kids), j, value);
  }

  /** The trie with a full leaf block hung at element offset rs along the right edge of
      `cur` (a missing node when cur is None): the reference result of append's copying
      loop. At level 0 it is the leaf itself. */
  ghost function PushLeaf<T>(cur: Option<Node<T>>, level: nat, rs: nat, leaf: Node<T>): Node<T>
    decreases level
  {
    if level == 0 then leaf
    else
      var kids := if cur.Some? && cur.value.Branch? then cur.value.kids else [];
      var d := Digit(rs, level);
      var next := if d < |kids| then Some(kids[d]) else None;
      Branch((if d <= |kids| then kids[..d] else kids) + [PushLeaf(next, level - 1, rs, leaf)])
  }

  /** `cur` is where append's loop stands at `level`: a node whose elements are exactly
      the first rs % 32^(level + 1) of its slice, or no node when that slice is empty. */
  ghost predicate PushReady<T>(cur: Option<Node<T>>, level: nat, rs: nat)
  {
    && rs % BLOCK_SIZE == 0
    && (cur.None? ==> rs % Pow32(level + 1) == 0)
    && (cur.Some? ==> level >= 1 && Packed(cur.value, level) && |Flatten(cur.value)| == rs % Pow32(level + 1))
  }

  /** One step of append's loop: the digit selects a slot at most one past the last
      child, the copy is truncated there, and the loop descends into that child only when
      it exists. */
  lemma PushStep<T>(cur: Option<Node<T>>, level: nat, rs: nat)
    requires PushReady(cur, level, rs) && level >= 1
    ensures var kids := if cur.Some? then cur.value.kids else [];
      var d := Digit(rs, level);
      && (cur.Some? ==> cur.value.Branch?)
      && |kids| - 1 <= d <= |kids| && (cur.None? ==> d == 0)
      && d < BLOCK_SIZE
      && (d < |kids| ==> level >= 2)
      && (level >= 2 ==> PushReady(if d < |kids| then Some(kids[d]) else None, level - 1, rs))
      && (cur.Some? ==> forall k :: 0 <= k < d ==> Full(kids[k], level - 1))
  {
    var p := Pow32(level);
    assert Pow32(level + 1) == 32 * p;
    DigitValue(rs, level);
    DigitOfRemainder(rs, p);
    if cur.None? {
      DivModUnique(0, p, 0, 0);
    } else {
      PushStepNode(cur.value, level, rs);
    }
  }

  lemma PushStepNode<T>(t: Node<T>, level: nat, rs: nat)
    requires PushReady(Some(t), level, rs)
    ensures var d := Digit(rs, level);
      && |t.kids| - 1 <= d <= |t.kids| && d < BLOCK_SIZE
      && (d < |t.kids| ==> level >= 2)
      && (level >= 2 ==> PushReady(if d < |t.kids| then Some(t.kids[d]) else None, level - 1, rs))
      && (forall k :: 0 <= k < d ==> Full(t.kids[k], level - 1))
  {
    var p := Pow32(level);
    assert Pow32(level + 1) == 32 * p;
    var n := |t.kids|;
    var x := rs % (32 * p);
    PackedSize(t, level);
    DigitValue(rs, level);
    AppendDigit(rs, p, n, x);
    if x < n * p {
      PushStepPartial(t, level, rs);
    } else {
      assert Full(t.kids[n - 1], level - 1) by {
        assert t.kids[..n] == t.kids;
        assert (n - 1) * p + p == n * p;
      }
    }
  }

  lemma PushStepPartial<T>(t: Node<T>, level: nat, rs: nat)
    requires PushReady(Some(t), level, rs)
    requires var p := Pow32(level); |Flatten(t)| == rs % (32 * p) < |t.kids| * p
    requires |FlattenAll(t.kids[..|t.kids| - 1])| == (|t.kids| - 1) * Pow32(level)
    requires rs % Pow32(level) == rs % (32 * Pow32(level)) - (|t.kids| - 1) * Pow32(level)
    ensures level >= 2 && PushReady(Some(t.kids[|t.kids| - 1]), level - 1, rs)
  {
    var n := |t.kids|;
    var child := t.kids[n - 1];
    assert Flatten(t) == FlattenAll(t.kids[..n - 1]) + Flatten(child) by {
      assert t.kids[..n] == t.kids;
    }
    if level == 1 {
      PackedSize(child, 0);
      assert false;
    }
  }

  /** Hanging a full leaf block at the right edge appends its 32 elements and keeps the
      node packed. */
  lemma {:induction false} PushLeafElements<T>(cur: Option<Node<T>>, level: nat, rs: nat, leaf: Node<T>)
    requires PushReady(cur, level, rs) && Packed(leaf, 0)
    ensures Packed(PushLeaf(cur, level, rs, leaf), level)
    ensures Flatten(PushLeaf(cur, level, rs, leaf)) == FlattenOpt(cur) + Flatten(leaf)
    decreases level
  {
    if level >= 1 {
      PushStep(cur, level, rs);
      var kids := if cur.Some? then cur.value.kids else [];
      var d := Digit(rs, level);
      var next := if d < |kids| then Some(kids[d]) else None;
      if level >= 2 {
        PushLeafElements(next, level - 1, rs, leaf);
      }
      PushLeafNode(cur, level, rs, leaf);
    }
  }

  lemma PushLeafNode<T>(cur: Option<Node<T>>, level: nat, rs: nat, leaf: Node<T>)
    requires PushReady(cur, level, rs) && Packed(leaf, 0) && level >= 1
    requires var kids := if cur.Some? then cur.value.kids else [];
      var d := Digit(rs, level);
      var next := if d < |kids| then Some(kids[d]) else None;
      && Packed(PushLeaf(next, level - 1, rs, leaf), level - 1)
      && Flatten(PushLeaf(next, level - 1, rs, leaf)) == FlattenOpt(next) + Flatten(leaf)
    ensures Packed(PushLeaf(cur, level, rs, leaf), level)
    ensures Flatten(PushLeaf(cur, level, rs, leaf)) == FlattenOpt(cur) + Flatten(leaf)
  {
    PushStep(cur, level, rs);
    var kids := if cur.Some? then cur.value.kids else [];
    var d := Digit(rs, level);
    var next := if d < |kids| then Some(kids[d]) else None;
    var c := PushLeaf(next, level - 1, rs, leaf);
    assert PushLeaf(cur, level, rs, leaf) == Branch(kids[..d] + [c]);
    PushJoin(cur, kids, d, next, c, leaf, level);
  }

  /** The truncated copy with the new child at the digit is packed and holds the copied
      node's elements followed by the leaf's. */
  lemma PushJoin<T>(cur: Option<Node<T>>, kids: seq<Node<T>>, d: nat, next: Option<Node<T>>, c: Node<T>, leaf: Node<T>, level: nat)
    requires level >= 1 && d < BLOCK_SIZE
    requires cur.None? ==> kids == [] && d == 0
    requires cur.Some? ==> cur.value.Branch? && kids == cur.value.kids && |kids| - 1 <= d <= |kids|
    requires next == (if d < |kids| then Some(kids[d]) else None)
    requires cur.Some? ==> forall k :: 0 <= k < d ==> Full(kids[k], level - 1)
    requires Packed(c, level - 1) && Flatten(c) == FlattenOpt(next) + Flatten(leaf)
    ensures d <= |kids|
    ensures Packed(Branch(kids[..d] + [c]), level)
    ensures Flatten(Branch(kids[..d] + [c])) == FlattenOpt(cur) + Flatten(leaf)
  {
    PrefixThenNext(cur, d);
    PackedSnoc(kids[..d], c, level);
    ConcatAssoc(FlattenAll(kids[..d]), FlattenOpt(next), Flatten(leaf));
  }

  /** The copied children before the digit, then the child at the digit (if any), hold
      exactly the elements of the node being copied. */
  lemma PrefixThenNext<T>(cur: Option<Node<T>>, d: nat)
    requires cur.None? ==> d == 0
    requires cur.Some? ==> cur.value.Branch? && |cur.value.kids| - 1 <= d <= |cur.value.kids|
    ensures var kids := if cur.Some? then cur.value.kids else [];
      var next := if d < |kids| then Some(kids[d]) else None;
      d <= |kids| && FlattenAll(kids[..d]) + FlattenOpt(next) == FlattenOpt(cur)
  {
    if cur.Some? {
      assert FlattenOpt(cur) == FlattenAll(cur.value.kids);
      PrefixThenLast(cur.value.kids, d);
    } else {
      var none: seq<Node<T>> := [];
      assert none[..d] == none && FlattenAll(none) == [];
    }
  }

  /** The children before a slot that is the last one or one past it, then the child in
      that slot if there is one, are all the children. */
  lemma PrefixThenLast<T>(kids: seq<Node<T>>, d: nat)
    requires |kids| - 1 <= d <= |kids|
    ensures FlattenAll(kids[..d]) + FlattenOpt(if d < |kids| then Some(kids[d]) else None) == FlattenAll(kids)
  {
    if d < |kids| {
      assert kids[..d + 1] == kids;
    } else {
      assert kids[..d] == kids;
    }
  }

  /** The copying loop of `append` when the tail is full: copy the right edge of the
      trie (under a fresh two-child root when the trie is full), truncating each copy at
      the slot of the new block, and hang the old tail there. */
  method AppendPath<T>(root: Node<T>, size: nat, leaf: Node<T>) returns (newRoot: Node<T>)
    requires RootSize(size) > 0 && size - RootSize(size) == BLOCK_SIZE
    requires Packed(root, Height(size) - 1) && |Flatten(root)| == RootSize(size)
    requires Packed(leaf, 0)
    ensures Packed(newRoot, Height(size + 1) - 1)
    ensures Flatten(newRoot) == Flatten(root) + Flatten(leaf)
  {
    var rootSize := RootSize(size);
    var oldHeight := Height(size);
    var grows := oldHeight < Height(size + 1);
    AppendHeights(size);
    var ctx: seq<Frame<T>> := [];
    var current: Option<Node<T>> := Some(root);
    if grows {
      ctx := [Frame([root], [])];
      current := None;
    }
    AppendStart(root, oldHeight, rootSize, leaf, grows);
    ctx := PushPath(ctx, current, oldHeight - 1, rootSize, leaf);
    newRoot := Plug(ctx, leaf);
    AppendGoalElements(root, oldHeight, rootSize, leaf, grows);
    assert Height(size + 1) - 1 == if grows then oldHeight else oldHeight - 1;
  }

  /** Append's loop from `top` down to level 1: at each level the copy of the current
      node truncated at the digit becomes a frame, and the loop moves to the child at the
      digit, if any. Plugging the leaf into the frames gives the path-copied trie. */
  method PushPath<T>(ctx0: seq<Frame<T>>, cur0: Option<Node<T>>, top: nat, rs: nat, leaf: Node<T>)
    returns (ctx: seq<Frame<T>>)
    requires top >= 1 ==> PushReady(cur0, top, rs)
    ensures Plug(ctx, leaf) == Plug(ctx0, PushLeaf(cur0, top, rs, leaf))
  {
    ctx := ctx0;
    var current := cur0;
    ghost var goal := Plug(ctx0, PushLeaf(cur0, top, rs, leaf));
    var level: int := top;
    while 1 <= level
      invariant 0 <= level <= top
      invariant level >= 1 ==> PushReady(current, level, rs)
      invariant Plug(ctx, PushLeaf(current, level, rs, leaf)) == goal
      decreases level
    {
      PushStep(current, level, rs);
      var kids := if current.Some? then current.value.kids else [];
      var childIndex := Digit(rs, level);
      var next := if childIndex < |kids| then Some(kids[childIndex]) else None;
      var frame := Frame(kids[..childIndex], []);
      PlugPush(ctx, frame, PushLeaf(next, level - 1, rs, leaf));
      assert frame.before + [PushLeaf(next, level - 1, rs, leaf)] + frame.after
          == kids[..childIndex] + [PushLeaf(next, level - 1, rs, leaf)];
      ctx := ctx + [frame];
      if level != 1 {
        current := next;
      }
      level := level - 1;
    }
  }

  /** What append's loop builds: the right edge extended by one block, under a fresh
      root whose first child is the old trie when that trie is full. */
  ghost function AppendGoal<T>(root: Node<T>, h: nat, rs: nat, leaf: Node<T>, grows: bool): Node<T>
    requires h >= 1
  {
    if grows then Branch([root, PushLeaf(None, h - 1, rs, leaf)])
    else PushLeaf(Some(root), h - 1, rs, leaf)
  }

  lemma AppendStart<T>(root: Node<T>, h: nat, rs: nat, leaf: Node<T>, grows: bool)
    requires h >= 1 && rs % BLOCK_SIZE == 0 && Pow32(h - 1) < rs <= Pow32(h)
    requires Packed(root, h - 1) && |Flatten(root)| == rs
    requires grows <==> rs == Pow32(h)
    requires !grows ==> h >= 2
    ensures var ctx := if grows then [Frame([root], [])] else [];
      var cur := if grows then None else Some(root);
      && (h - 1 >= 1 ==> PushReady(cur, h - 1, rs))
      && Plug(ctx, PushLeaf(cur, h - 1, rs, leaf)) == AppendGoal(root, h, rs, leaf, grows)
  {
    if grows {
      PlugPush([], Frame([root], []), PushLeaf(None, h - 1, rs, leaf));
      DivModUnique(rs, Pow32(h), 1, 0);
    } else {
      DivModUnique(rs, Pow32(h), 0, rs);
    }
  }

  lemma AppendGoalElements<T>(root: Node<T>, h: nat, rs: nat, leaf: Node<T>, grows: bool)
    requires h >= 1 && rs % BLOCK_SIZE == 0 && Pow32(h - 1) < rs <= Pow32(h)
    requires Packed(root, h - 1) && |Flatten(root)| == rs && Packed(leaf, 0)
    requires grows <==> rs == Pow32(h)
    requires !grows ==> h >= 2
    ensures Packed(AppendGoal(root, h, rs, leaf, grows), if grows then h else h - 1)
    ensures Flatten(AppendGoal(root, h, rs, leaf, grows)) == Flatten(root) + Flatten(leaf)
  {
    AppendStart(root, h, rs, leaf, grows);
    if grows {
      PushLeafElements(None, h - 1, rs, leaf);
      var c := PushLeaf(None, h - 1, rs, leaf);
      assert Flatten(c) == Flatten(leaf) by {
        assert FlattenOpt<T>(None) + Flatten(leaf) == Flatten(leaf);
      }
      GrowRoot(root, c, h);
      assert AppendGoal(root, h, rs, leaf, true) == Branch([root, c]);
    } else {
      PushLeafElements(Some(root), h - 1, rs, leaf);
      assert FlattenOpt(Some(root)) == Flatten(root);
    }
  }

  /** `append(value)`: size + 1 with the value last, in all five cases: the first element,
      the 32 -> 33 step that turns the tail into the first leaf block, a one-element tail
      becoming a block, a block growing, and a full block moving into the trie. */
  method Append<T>(a: TrieArray<T>, value: T) returns (r: TrieArray<T>)
    requires Valid(a) && a.size < MAX_SIZE
    ensures Valid(r) && r.size == a.size + 1
    ensures Elements(r) == Elements(a) + [value]
  {
    var rootSize := RootSize(a.size);
    if a.size == 0 {
      r := Singleton(value);
      AppendToEmpty(a, value);
    } else if a.size == BLOCK_SIZE {
      r := TrieArray(a.end, Some(Elem(value)), a.size + 1);
      AppendFirstBlock(a, value);
    } else if a.size - rootSize < BLOCK_SIZE {
      var newEnd: Node<T>;
      if a.size - rootSize == 1 {
        newEnd := Branch([a.end.value, Elem(value)]);
      } else {
        newEnd := Branch(a.end.value.kids + [Elem(value)]);
      }
      r := TrieArray(a.root, Some(newEnd), a.size + 1);
      AppendToTail(a, value, newEnd);
    } else {
      r := AppendBlock(a, value);
    }
  }

  /** The last case of append: the full tail block moves into the trie and the value
      starts a new one-element tail. */
  method AppendBlock<T>(a: TrieArray<T>, value: T) returns (r: TrieArray<T>)
    requires Valid(a) && a.size < MAX_SIZE && a.size != 0 && a.size != BLOCK_SIZE
    requires a.size - RootSize(a.size) >= BLOCK_SIZE
    ensures Valid(r) && r.size == a.size + 1
    ensures Elements(r) == Elements(a) + [value]
  {
    FullTail(a);
    var leaf := a.end.value;
    var newRoot := AppendPath(a.root.value, a.size, leaf);
    r := TrieArray(Some(newRoot), Some(Elem(value)), a.size + 1);
    AppendMovesTail(a, value, newRoot);
  }

  lemma FullTail<T>(a: TrieArray<T>)
    requires Valid(a) && a.size != 0 && a.size != BLOCK_SIZE
    requires a.size - RootSize(a.size) >= BLOCK_SIZE
    ensures RootSize(a.size) > 0 && a.size - RootSize(a.size) == BLOCK_SIZE
    ensures a.root.Some? && Packed(a.root.value, Height(a.size) - 1)
    ensures |Flatten(a.root.value)| == RootSize(a.size)
    ensures a.end.Some? && Packed(a.end.value, 0)
  {
  }

  lemma AppendToEmpty<T>(a: TrieArray<T>, value: T)
    requires Valid(a) && a.size == 0
    ensures Elements(Singleton(value)) == Elements(a) + [value]
  {
    assert Elements(a) == [];
  }

  lemma AppendMovesTail<T>(a: TrieArray<T>, value: T, newRoot: Node<T>)
    requires Valid(a) && a.size < MAX_SIZE
    requires RootSize(a.size) > 0 && a.size - RootSize(a.size) == BLOCK_SIZE
    requires Packed(newRoot, Height(a.size + 1) - 1)
    requires Flatten(newRoot) == Flatten(a.root.value) + Flatten(a.end.value)
    ensures var r := TrieArray(Some(newRoot), Some(Elem(value)), a.size + 1);
      Valid(r) && Elements(r) == Elements(a) + [value]
  {
    RootSizeNext(a.size);
    TailSize(a.end, BLOCK_SIZE);
    assert |Flatten(newRoot)| == RootSize(a.size + 1);
    assert Elements(a) == Flatten(a.root.value) + Flatten(a.end.value);
    assert Flatten(Elem(value)) == [value];
  }

  lemma AppendFirstBlock<T>(a: TrieArray<T>, value: T)
    requires Valid(a) && a.size == BLOCK_SIZE
    ensures var r := TrieArray(a.end, Some(Elem(value)), a.size + 1);
      Valid(r) && Elements(r) == Elements(a) + [value]
  {
    FlattenAllElems(a.end.value.kids);
    assert RootSize(33) == 32;
    HeightUnique(33, 1);
  }

  lemma AppendToTail<T>(a: TrieArray<T>, value: T, newEnd: Node<T>)
    requires Valid(a) && a.size < MAX_SIZE && a.size != BLOCK_SIZE
    requires 1 <= a.size - RootSize(a.size) < BLOCK_SIZE
    requires a.size - RootSize(a.size) == 1 ==> newEnd == Branch([a.end.value, Elem(value)])
    requires a.size - RootSize(a.size) > 1 ==> newEnd == Branch(a.end.value.kids + [Elem(value)])
    ensures var r := TrieArray(a.root, Some(newEnd), a.size + 1);
      Valid(r) && Elements(r) == Elements(a) + [value]
  {
    var rs := RootSize(a.size);
    RootSizeUnique(a.size + 1, rs);
    TailGrows(a.end, a.size - rs, value, newEnd);
    SameRootValid(a, newEnd, a.size + 1);
    ConcatAssoc(FlattenOpt(a.root), FlattenOpt(a.end), [value]);
  }

  /** The trie of a valid array with a new tail and size is valid when the size keeps the
      trie's share and the tail holds the rest. */
  lemma SameRootValid<T>(a: TrieArray<T>, newEnd: Node<T>, n: nat)
    requires Valid(a) && n <= MAX_SIZE && RootSize(n) == RootSize(a.size)
    requires TailShaped(Some(newEnd), n - RootSize(n))
    ensures Valid(TrieArray(a.root, Some(newEnd), n))
  {
    HeightOfRootSize(a.size, n);
  }

  /** The tail after append's two tail cases: a one-element tail becomes a two-slot
      block, and a block is copied one slot longer. */
  lemma TailGrows<T>(end: Option<Node<T>>, k: nat, value: T, newEnd: Node<T>)
    requires 1 <= k < BLOCK_SIZE && TailShaped(end, k)
    requires k == 1 ==> newEnd == Branch([end.value, Elem(value)])
    requires k > 1 ==> newEnd == Branch(end.value.kids + [Elem(value)])
    ensures TailShaped(Some(newEnd), k + 1)
    ensures Flatten(newEnd) == FlattenOpt(end) + [value]
  {
    assert ElemsOnly(newEnd.kids);
    FlattenAllElems(newEnd.kids);
    TailSize(end, k);
    assert |Flatten(newEnd)| == k + 1;
    forall j | 0 <= j < k + 1
      ensures Flatten(newEnd)[j] == (FlattenOpt(end) + [value])[j]
    {
      if j < k && k == 1 {
        assert FlattenOpt(end) == [end.value.value];
      }
    }
  }

}
