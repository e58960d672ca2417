/** `take(n)` and `remend()` of TrieArray: keep a prefix, sharing the trie when only the
    tail shrinks, and otherwise copying the right edge of the kept prefix and taking the
    new tail from the old trie. */
module TrieArrayTake {
  import opened Wrappers
  import opened Arith
  import opened Seqs
  import opened TrieArrayNodes
  import opened TrieArrayShape
  import opened TrieArrayOps

  /** The node t cut after offset `j % 32^(level + 1)` along the path of index j: every
      copy keeps the children up to the digit of j, and the leaf copy keeps its block up to
      j. The reference result of take's copying loop. */
  ghost function TakeTrie<T>(t: Node<T>, level: nat, j: nat): Node<T>
    decreases level
  {
    var kids := if t.Branch? then t.kids else [];
    var d := Digit(j, level);
    if d >= |kids| then t
    else if level == 0 then Branch(kids[..d + 1])
    else Branch(kids[..d] + [TakeTrie(kids[d], level - 1, j)])
  }

  /** Cutting at the last slot of a leaf block keeps the node packed and keeps exactly
      the elements up to the cut. */
  lemma {:induction false} TakeTrieElements<T>(t: Node<T>, level: nat, j: nat)
    requires Packed(t, level) && j % Pow32(level + 1) < |Flatten(t)|
    requires j % BLOCK_SIZE == BLOCK_SIZE - 1
    ensures Packed(TakeTrie(t, level, j), level)
    ensures Flatten(TakeTrie(t, level, j)) == Flatten(t)[..j % Pow32(level + 1) + 1]
    decreases level
  {
    ChildAt(t, level, j);
    if level == 0 {
      TakeLeaf(t, j);
    } else {
      var d := Digit(j, level);
      TakeTrieElements(t.kids[d], level - 1, j);
      TakeTrieNode(t, level, j);
    }
  }

  lemma TakeLeaf<T>(t: Node<T>, j: nat)
    requires Packed(t, 0) && j % BLOCK_SIZE == BLOCK_SIZE - 1 && j % Pow32(1) < |Flatten(t)|
    ensures Packed(TakeTrie(t, 0, j), 0)
    ensures Flatten(TakeTrie(t, 0, j)) == Flatten(t)[..j % Pow32(1) + 1]
  {
    assert Digit(j, 0) == |t.kids| - 1;
    TakeAll(t.kids);
    PackedSize(t, 0);
    TakeAll(Flatten(t));
  }

  lemma TakeTrieNode<T>(t: Node<T>, level: nat, j: nat)
    requires Packed(t, level) && level > 0 && j % Pow32(level + 1) < |Flatten(t)|
    requires var d := Digit(j, level);
      && d < |t.kids| && j % Pow32(level) < |Flatten(t.kids[d])|
      && Packed(TakeTrie(t.kids[d], level - 1, j), level - 1)
      && Flatten(TakeTrie(t.kids[d], level - 1, j)) == Flatten(t.kids[d])[..j % Pow32(level) + 1]
    ensures Packed(TakeTrie(t, level, j), level)
    ensures Flatten(TakeTrie(t, level, j)) == Flatten(t)[..j % Pow32(level + 1) + 1]
  {
    ChildAt(t, level, j);
    var kids, d := t.kids, Digit(j, level);
    var x, s := j % Pow32(level + 1), j % Pow32(level);
    var c := TakeTrie(kids[d], level - 1, j);
    assert TakeTrie(t, level, j) == Branch(kids[..d] + [c]);
    PackedCut(t, level, d, c);
    FlattenAllSplit(kids, d);
    JoinPrefix(Flatten(t), FlattenAll(kids[..d]), Flatten(kids[d]), FlattenAll(kids[d + 1..]), s);
  }

  /** The cut of the node on the path of j at the height of the kept prefix is the
      prefix of the whole trie up to j. */
  lemma TakeTop<T>(root: Node<T>, top: Node<T>, level: nat, j: nat)
    requires InSlice(root, top, level, j) && j < Pow32(level + 1)
    requires j % BLOCK_SIZE == BLOCK_SIZE - 1
    ensures Packed(TakeTrie(top, level, j), level)
    ensures j < |Flatten(root)| && Flatten(TakeTrie(top, level, j)) == Flatten(root)[..j + 1]
  {
    DivModUnique(j, Pow32(level + 1), 0, j);
    LowIsMod(j, level);
    TakeTrieElements(top, level, j);
    SliceTake(Flatten(root), 0, |Flatten(top)|, j + 1);
  }

  /** The copying loop of `take` when the kept prefix reaches into the trie: descend
      without copying above the new height, then copy the path of the last kept index j,
      each copy cut after the child on the path, the leaf block copied whole. */
  method TakePath<T>(root: Node<T>, oldLevel: nat, newLevel: nat, j: nat) returns (newRoot: Node<T>)
    requires Packed(root, oldLevel) && newLevel <= oldLevel
    requires j < |Flatten(root)| && j < Pow32(newLevel + 1)
    requires j % BLOCK_SIZE == BLOCK_SIZE - 1
    ensures Packed(newRoot, newLevel)
    ensures Flatten(newRoot) == Flatten(root)[..j + 1]
  {
    InSliceRoot(root, oldLevel, j);
    var ctx: seq<Frame<T>> := [];
    var current := root;
    ghost var top := root;
    var level: int := oldLevel;
    newRoot := root;
    while 0 <= level
      invariant -1 <= level <= oldLevel
      invariant level >= 0 ==> InSlice(root, current, level, j)
      invariant level >= newLevel ==> ctx == []
      invariant level < newLevel ==> InSlice(root, top, newLevel, j)
      invariant 0 <= level < newLevel ==>
        Plug(ctx, TakeTrie(current, level, j)) == TakeTrie(top, newLevel, j)
      invariant level < 0 ==> newRoot == TakeTrie(top, newLevel, j)
      decreases level
    {
      if level == newLevel {
        top := current;
      }
      InSliceStep(root, current, level, j);
      var kids := current.kids;
      var childIndex := Digit(j, level);
      if level <= newLevel {
        if level == 0 {
          newRoot := Plug(ctx, Branch(kids[..childIndex + 1]));
        } else {
          var frame := Frame(kids[..childIndex], []);
          PlugPush(ctx, frame, TakeTrie(kids[childIndex], level - 1, j));
          assert frame.before + [TakeTrie(kids[childIndex], level - 1, j)] + frame.after
              == kids[..childIndex] + [TakeTrie(kids[childIndex], level - 1, j)];
          ctx := ctx + [frame];
        }
      }
      if 0 < level {
        current := kids[childIndex];
      }
      level := level - 1;
    }
    TakeTop(root, top, newLevel, j);
  }

  /** `take(n)`: the first n elements; the same array for n == size, the empty array for
      n == 0, and IndexOutOfBoundsException outside 0..size. */
  method Take<T>(a: TrieArray<T>, n: int) returns (r: Result<TrieArray<T>>)
    requires Valid(a)
    ensures 0 <= n <= a.size ==>
      && |Elements(a)| == a.size
      && r.Ok? && Valid(r.value) && r.value.size == n
      && Elements(r.value) == Elements(a)[..n]
    ensures n == a.size ==> r == Ok(a)
    ensures n == 0 < a.size ==> r == Ok(Empty())
    ensures !(0 <= n <= a.size) ==> r == Throws(IndexOutOfBoundsException)
  {
    ElementsSize(a);
    var rootSize := RootSize(a.size);
    if !(0 <= n <= a.size) {
      r := Throws(IndexOutOfBoundsException);
    } else if n == a.size {
      r := Ok(a);
      TakeAll(Elements(a));
    } else if n == 0 {
      r := Ok(Empty());
    } else if 1 <= n - rootSize {
      TailBlock(a, n);
      var newEnd := ShrinkEnd(a.end.value, n - rootSize);
      r := Ok(TrieArray(a.root, Some(newEnd), n));
      TakeFromTail(a, n, newEnd);
    } else {
      var t := TakeBlock(a, n);
      r := Ok(t);
    }
  }

  /** When take keeps part of the tail, the tail is a block longer than what is kept. */
  lemma TailBlock<T>(a: TrieArray<T>, n: nat)
    requires Valid(a) && n < a.size && 1 <= n - RootSize(a.size)
    ensures a.end.Some? && a.end.value.Branch? && ElemsOnly(a.end.value.kids)
    ensures n - RootSize(a.size) < |a.end.value.kids| == a.size - RootSize(a.size)
  {
  }

  lemma TakeFromTail<T>(a: TrieArray<T>, n: nat, newEnd: Node<T>)
    requires Valid(a) && n < a.size && 1 <= n - RootSize(a.size)
    requires TailShaped(Some(newEnd), n - RootSize(a.size))
    requires n - RootSize(a.size) <= |FlattenOpt(a.end)|
    requires Flatten(newEnd) == FlattenOpt(a.end)[..n - RootSize(a.size)]
    ensures var r := TrieArray(a.root, Some(newEnd), n);
      n <= |Elements(a)| && Valid(r) && Elements(r) == Elements(a)[..n]
  {
    var rs := RootSize(a.size);
    SameRoot(n, a.size);
    ElementsSize(a);
    TakeRight(FlattenOpt(a.root), FlattenOpt(a.end), n - rs);
  }

  /** Keeping part of the tail keeps the root size and so the height. */
  lemma SameRoot(n: nat, size: nat)
    requires n <= size && 1 <= n - RootSize(size)
    ensures RootSize(n) == RootSize(size) && Height(n) == Height(size)
  {
    RootSizeUnique(n, RootSize(size));
  }

  /** The last case of take: the kept prefix ends inside the trie, so the trie is cut
      after the last whole block of the prefix and the block after it becomes the tail. */
  method TakeBlock<T>(a: TrieArray<T>, n: nat) returns (r: TrieArray<T>)
    requires Valid(a) && 1 <= n <= RootSize(a.size)
    ensures Valid(r) && r.size == n
    ensures n <= |Elements(a)| && Elements(r) == Elements(a)[..n]
  {
    TakeRootSizes(a, n);
    var newRoot := TakeRoot(a.root, Height(a.size) - 1, RootSize(n), Height(n) - 1);
    var newEnd := TakeEnd(a, n);
    r := TrieArray(newRoot, Some(newEnd), n);
    TakeBlockResult(a, n, newRoot, newEnd);
  }

  /** The trie of take's last case: the copied right edge of the first `newRootSize`
      elements of the old trie, cut to `newLevel`, or no trie when they are fewer than a
      block. */
  method TakeRoot<T>(root: Option<Node<T>>, oldLevel: int, newRootSize: nat, newLevel: int) returns (newRoot: Option<Node<T>>)
    requires newRootSize > 0 ==>
      && root.Some? && 0 <= newLevel <= oldLevel && Packed(root.value, oldLevel)
      && newRootSize - 1 < |Flatten(root.value)| && newRootSize - 1 < Pow32(newLevel + 1)
      && (newRootSize - 1) % BLOCK_SIZE == BLOCK_SIZE - 1
    ensures newRootSize == 0 ==> newRoot.None?
    ensures newRootSize > 0 ==>
      && newRoot.Some? && Packed(newRoot.value, newLevel)
      && newRootSize <= |Flatten(root.value)|
      && Flatten(newRoot.value) == Flatten(root.value)[..newRootSize]
  {
    if newRootSize != 0 {
      var t := TakePath(root.value, oldLevel, newLevel, newRootSize - 1);
      newRoot := Some(t);
    } else {
      newRoot := None;
    }
  }

  /** The tail of take's last case: the first n - RootSize(n) slots of the leaf block
      that starts at RootSize(n). */
  method TakeEnd<T>(a: TrieArray<T>, n: nat) returns (newEnd: Node<T>)
    requires Valid(a) && 1 <= n <= RootSize(a.size)
    ensures TailShaped(Some(newEnd), n - RootSize(n))
    ensures a.root.Some? && RootSize(n) < n <= |Flatten(a.root.value)|
    ensures Flatten(newEnd) == Flatten(a.root.value)[RootSize(n)..n]
  {
    TakeHeights(a, n);
    var newRootSize := RootSize(n);
    var block := FindNode(a.root.value, Height(a.size) - 1, newRootSize, 1);
    InSliceBlock(a.root.value, block, newRootSize);
    newEnd := ShrinkEnd(block, n - newRootSize);
    SliceTake(Flatten(a.root.value), newRootSize, newRootSize + BLOCK_SIZE, n - newRootSize);
  }

  /** The arguments of take's copying loop meet its requirements. */
  lemma TakeRootSizes<T>(a: TrieArray<T>, n: nat)
    requires Valid(a) && 1 <= n <= RootSize(a.size)
    ensures RootSize(n) > 0 ==>
      && a.root.Some? && Height(a.size) >= 1 && Height(n) >= 1
      && Packed(a.root.value, Height(a.size) - 1)
      && Height(n) - 1 <= Height(a.size) - 1
      && RootSize(n) - 1 < |Flatten(a.root.value)|
      && RootSize(n) - 1 < Pow32(Height(n) - 1 + 1)
      && (RootSize(n) - 1) % BLOCK_SIZE == BLOCK_SIZE - 1
  {
    TakeHeights(a, n);
  }

  /** The sizes take works with when the prefix ends inside the trie. */
  lemma TakeHeights<T>(a: TrieArray<T>, n: nat)
    requires Valid(a) && 1 <= n <= RootSize(a.size)
    ensures a.root.Some? && Height(a.size) >= 1 && Packed(a.root.value, Height(a.size) - 1)
    ensures RootSize(n) < n <= |Flatten(a.root.value)|
    ensures Height(n) <= Height(a.size)
    ensures RootSize(n) > 0 ==>
      && Height(n) >= 1 && RootSize(n) - 1 < Pow32(Height(n))
      && (RootSize(n) - 1) % BLOCK_SIZE == BLOCK_SIZE - 1
  {
    HeightMonotone(n, a.size);
    if RootSize(n) > 0 {
      LastOfBlock(RootSize(n));
    }
  }

  lemma LastOfBlock(r: nat)
    requires r > 0 && r % 32 == 0
    ensures (r - 1) % 32 == 31
  {
    DivModUnique(r - 1, 32, r / 32 - 1, 31);
  }

  /** The node findNode returns for the first index of a block is that whole block. */
  lemma InSliceBlock<T>(root: Node<T>, block: Node<T>, i: nat)
    requires InSlice(root, block, 0, i) && i % BLOCK_SIZE == 0
    ensures block.Branch? && ElemsOnly(block.kids) && |block.kids| == BLOCK_SIZE
    ensures i + BLOCK_SIZE <= |Flatten(root)| && Flatten(block) == Flatten(root)[i..i + BLOCK_SIZE]
  {
    PackedSize(block, 0);
  }

  lemma TakeBlockResult<T>(a: TrieArray<T>, n: nat, newRoot: Option<Node<T>>, newEnd: Node<T>)
    requires Valid(a) && 1 <= n <= RootSize(a.size) && a.root.Some?
    requires RootSize(n) < n <= |Flatten(a.root.value)|
    requires RootSize(n) == 0 ==> newRoot.None?
    requires RootSize(n) > 0 ==>
      && newRoot.Some? && Packed(newRoot.value, Height(n) - 1)
      && Flatten(newRoot.value) == Flatten(a.root.value)[..RootSize(n)]
    requires TailShaped(Some(newEnd), n - RootSize(n))
    requires Flatten(newEnd) == Flatten(a.root.value)[RootSize(n)..n]
    ensures var r := TrieArray(newRoot, Some(newEnd), n);
      n <= |Elements(a)| && Valid(r) && Elements(r) == Elements(a)[..n]
  {
    var f := Flatten(a.root.value);
    var p := RootSize(n);
    assert FlattenOpt(newRoot) == f[..p] by {
      if p == 0 { assert f[..0] == []; }
    }
    assert Valid(TrieArray(newRoot, Some(newEnd), n));
    TakeBlockElements(a, n, p, newRoot, newEnd);
  }

  /** The copied trie's elements and the shrunk tail's are the first n of the old trie's,
      so the first n of the array's. */
  lemma TakeBlockElements<T>(a: TrieArray<T>, n: nat, p: nat, newRoot: Option<Node<T>>, newEnd: Node<T>)
    requires a.root.Some? && p <= n <= |Flatten(a.root.value)|
    requires FlattenOpt(newRoot) == Flatten(a.root.value)[..p]
    requires Flatten(newEnd) == Flatten(a.root.value)[p..n]
    ensures n <= |Elements(a)| && Elements(TrieArray(newRoot, Some(newEnd), n)) == Elements(a)[..n]
  {
    var f := Flatten(a.root.value);
    TakeSplit(f, p, n);
    TakeLeft(f, FlattenOpt(a.end), n);
  }

  /** `remend()`: all but the last element, as take(size - 1);
      IndexOutOfBoundsException on the empty array. */
  method Remend<T>(a: TrieArray<T>) returns (r: Result<TrieArray<T>>)
    requires Valid(a)
    ensures a.size > 0 ==>
      && |Elements(a)| == a.size
      && r.Ok? && Valid(r.value) && r.value.size == a.size - 1
      && Elements(r.value) == Elements(a)[..a.size - 1]
    ensures a.size == 0 ==> r == Throws(IndexOutOfBoundsException)
  {
    r := Take(a, a.size - 1);
  }
}
