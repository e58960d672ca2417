/** HashTrieMap's `DepthFirstIterator`: a cursor over the entries of a map that keeps the
    path from the root to the current leaf in two fixed-size stacks (the nodes and the
    child index reached in each), plus the current leaf and a position in it when the
    leaf is a collision array.

    Both the walk as written and a corrected walk are modelled. The state is read back
    through `Remaining`, the entries still to come, which the corrected methods keep equal
    to the rest of `Listing(root, false)` and the methods as written to the rest of
    `Listing(root, true)` (collision arrays cut to their first entry). */
module HashTrieIterator {
  import opened Wrappers
  import opened HashTrieNodes
  import opened HashTrieMapOps
  import opened HashTrieListing
  import opened Seqs

  /** `MAX_DEPTH`: nodes sit at shifts 0, 5, ..., 30, so a path holds at most seven. */
  const MAX_DEPTH: nat := 7

  /** `mCurrent`: null, an entry, or a collision array. */
  datatype Current<K, V> = NoCurrent | CurrentEntry(entry: Entry<K, V>) | CurrentCollision(entries: seq<Entry<K, V>>)

  /** The current leaf for a root that is not a node (`mCurrent = root`). */
  function RootLeaf<K, V>(root: Option<Slot<K, V>>): (c: Current<K, V>)
    ensures root.None? ==> c.NoCurrent?
    ensures root.Some? && root.value.Leaf? ==> c == CurrentEntry(root.value.entry)
    ensures root.Some? && root.value.Collision? ==> c == CurrentCollision(root.value.entries)
  {
    if root.None? then NoCurrent
    else match root.value
      case Leaf(e) => CurrentEntry(e)
      case Collision(es) => CurrentCollision(es)
      case Node(_, _) => NoCurrent
  }

  /** The entries the current leaf still holds, from the collision position on. As written
      the iterator yields one entry of a collision array and leaves it. */
  function CurrentPart<K, V>(current: Current<K, V>, collisionIndex: int, firstOnly: bool): (r: seq<Entry<K, V>>)
    ensures current.CurrentEntry? ==> r == [current.entry]
    ensures current.CurrentCollision? && 0 <= collisionIndex < |current.entries| ==>
      r == if firstOnly then [current.entries[collisionIndex]] else current.entries[collisionIndex..]
    ensures current.NoCurrent? ==> r == []
  {
    match current
    case NoCurrent => []
    case CurrentEntry(e) => [e]
    case CurrentCollision(es) =>
      if collisionIndex < 0 || collisionIndex >= |es| then []
      else if firstOnly then [es[collisionIndex]]
      else es[collisionIndex..]
  }

  // The stacks, as sequences

  /** Stack cell k holds a node reached at shift 5k that the iterator can walk. */
  ghost predicate StackedNode<K, V>(cell: Option<Slot<K, V>>, k: nat)
  {
    cell.Some? && cell.value.Node? && Iterable(cell.value, k * HASH_SHIFT)
  }

  /** Cells 0..k hold walkable nodes, each with the index of a child or -1 (before its first). */
  ghost predicate Levels<K, V>(stack: seq<Option<Slot<K, V>>>, index: seq<int>, k: int)
  {
    && |stack| == MAX_DEPTH && |index| == MAX_DEPTH && -1 <= k < MAX_DEPTH
    && forall j :: 0 <= j <= k ==> StackedNode(stack[j], j) && -1 <= index[j] < |stack[j].value.children|
  }

  /** The entries under the children after the indexed one, from level k down to the root. */
  ghost function Later<K, V>(stack: seq<Option<Slot<K, V>>>, index: seq<int>, k: int, firstOnly: bool): seq<Entry<K, V>>
    requires Levels(stack, index, k)
    decreases k + 1
  {
    if k < 0 then []
    else ListingAll(stack[k].value.children[index[k] + 1..], firstOnly) + Later(stack, index, k - 1, firstOnly)
  }

  /** Mid-walk: the levels below `top` as in `Levels`, and the top index anywhere from the
      first child to one past the last. */
  ghost predicate Climbing<K, V>(stack: seq<Option<Slot<K, V>>>, index: seq<int>, top: int)
  {
    && Levels(stack, index, top - 1) && 0 <= top < MAX_DEPTH
    && StackedNode(stack[top], top) && 0 <= index[top] <= |stack[top].value.children|
  }

  /** The entries still to come mid-walk: from the top's indexed child on, then the rest. */
  ghost function Pending<K, V>(stack: seq<Option<Slot<K, V>>>, index: seq<int>, top: int, firstOnly: bool): seq<Entry<K, V>>
    requires Climbing(stack, index, top)
  {
    ListingAll(stack[top].value.children[index[top]..], firstOnly) + Later(stack, index, top - 1, firstOnly)
  }

  /** `Levels` at level k reads only the cells 0..k. */
  lemma LevelsFrame<K, V>(stack: seq<Option<Slot<K, V>>>, index: seq<int>, stack': seq<Option<Slot<K, V>>>, index': seq<int>, k: int)
    requires Levels(stack, index, k) && |stack'| == MAX_DEPTH && |index'| == MAX_DEPTH
    requires forall j :: 0 <= j <= k ==> stack'[j] == stack[j] && index'[j] == index[j]
    ensures Levels(stack', index', k)
  {
    forall j | 0 <= j <= k
      ensures StackedNode(stack'[j], j) && -1 <= index'[j] < |stack'[j].value.children|
    {
      assert stack'[j] == stack[j] && index'[j] == index[j];
    }
  }

  /** The levels below a level are levels too. */
  lemma LevelsDown<K, V>(stack: seq<Option<Slot<K, V>>>, index: seq<int>, k: int)
    requires Levels(stack, index, k) && k >= 0
    ensures Levels(stack, index, k - 1)
  {
  }

  /** `Later` at level k reads only the cells 0..k. */
  lemma LaterFrame<K, V>(stack: seq<Option<Slot<K, V>>>, index: seq<int>, stack': seq<Option<Slot<K, V>>>, index': seq<int>, k: int, firstOnly: bool)
    requires Levels(stack, index, k) && |stack'| == MAX_DEPTH && |index'| == MAX_DEPTH
    requires forall j :: 0 <= j <= k ==> stack'[j] == stack[j] && index'[j] == index[j]
    ensures Levels(stack', index', k)
    ensures Later(stack', index', k, firstOnly) == Later(stack, index, k, firstOnly)
  {
    LevelsFrame(stack, index, stack', index', k);
    LaterSame(stack, index, stack', index', k, firstOnly);
  }

  lemma {:induction false} LaterSame<K, V>(stack: seq<Option<Slot<K, V>>>, index: seq<int>, stack': seq<Option<Slot<K, V>>>, index': seq<int>, k: int, firstOnly: bool)
    requires Levels(stack, index, k) && Levels(stack', index', k)
    requires forall j :: 0 <= j <= k ==> stack'[j] == stack[j] && index'[j] == index[j]
    ensures Later(stack', index', k, firstOnly) == Later(stack, index, k, firstOnly)
    decreases k + 1
  {
    if k >= 0 {
      LevelsDown(stack, index, k);
      LevelsDown(stack', index', k);
      LaterSame(stack, index, stack', index', k - 1, firstOnly);
      assert stack'[k] == stack[k] && index'[k] == index[k];
    }
  }

  lemma ListingAllFront<K, V>(cs: seq<Slot<K, V>>, i: nat, firstOnly: bool)
    requires i < |cs|
    ensures ListingAll(cs[i..], firstOnly) == Listing(cs[i], firstOnly) + ListingAll(cs[i + 1..], firstOnly)
  {
    assert cs[i..][1..] == cs[i + 1..];
  }

  /** `++mNodeIndexStack[top]` on entering the walk: the top moves past its current child,
      and the entries to come are those that followed that child. */
  lemma ClimbStart<K, V>(stack: seq<Option<Slot<K, V>>>, index: seq<int>, top: int, firstOnly: bool)
    requires Levels(stack, index, top) && top >= 0
    ensures Climbing(stack, index[top := index[top] + 1], top)
    ensures Pending(stack, index[top := index[top] + 1], top, firstOnly) == Later(stack, index, top, firstOnly)
  {
    var index' := index[top := index[top] + 1];
    LaterFrame(stack, index, stack, index', top - 1, firstOnly);
  }

  /** A finished top node is popped and its parent moved past it; nothing to come is lost. */
  lemma ClimbPop<K, V>(stack: seq<Option<Slot<K, V>>>, index: seq<int>, top: int, firstOnly: bool)
    requires Climbing(stack, index, top) && top > 0 && |stack[top].value.children| <= index[top]
    ensures Climbing(stack, index[top - 1 := index[top - 1] + 1], top - 1)
    ensures Pending(stack, index[top - 1 := index[top - 1] + 1], top - 1, firstOnly) == Pending(stack, index, top, firstOnly)
  {
    Exhausted(stack, index, top, firstOnly);
    ClimbStart(stack, index, top - 1, firstOnly);
  }

  /** Once the top index is past the last child, only the levels below have entries to come. */
  lemma Exhausted<K, V>(stack: seq<Option<Slot<K, V>>>, index: seq<int>, top: int, firstOnly: bool)
    requires Climbing(stack, index, top) && |stack[top].value.children| <= index[top]
    ensures Pending(stack, index, top, firstOnly) == Later(stack, index, top - 1, firstOnly)
  {
    var rest := stack[top].value.children[index[top]..];
    assert rest == [];
    assert ListingAll(rest, firstOnly) == [];
  }

  /** Popping the root as well: nothing is left to come. */
  lemma ClimbOut<K, V>(stack: seq<Option<Slot<K, V>>>, index: seq<int>, firstOnly: bool)
    requires Climbing(stack, index, 0) && |stack[0].value.children| <= index[0]
    ensures Pending(stack, index, 0, firstOnly) == []
  {
    assert stack[0].value.children[index[0]..] == [];
  }

  /** Looking at the indexed child of the top: its entries come first, then the rest. */
  lemma Descend<K, V>(stack: seq<Option<Slot<K, V>>>, index: seq<int>, top: int, firstOnly: bool)
    requires Climbing(stack, index, top) && index[top] < |stack[top].value.children|
    ensures Levels(stack, index, top)
    ensures Iterable(stack[top].value.children[index[top]], (top + 1) * HASH_SHIFT)
    ensures Pending(stack, index, top, firstOnly)
         == Listing(stack[top].value.children[index[top]], firstOnly) + Later(stack, index, top, firstOnly)
  {
    var cs, i := stack[top].value.children, index[top];
    LevelsTop(stack, index, top);
    assert (top + 1) * HASH_SHIFT == top * HASH_SHIFT + HASH_SHIFT;
    assert Iterable(cs[i], top * HASH_SHIFT + HASH_SHIFT);
    var below := Later(stack, index, top - 1, firstOnly);
    assert Later(stack, index, top, firstOnly) == ListingAll(cs[i + 1..], firstOnly) + below;
    ListingAllFront(cs, i, firstOnly);
    ConcatAssoc(Listing(cs[i], firstOnly), ListingAll(cs[i + 1..], firstOnly), below);
  }

  /** A top index at a child makes the top a level like those below it. */
  lemma LevelsTop<K, V>(stack: seq<Option<Slot<K, V>>>, index: seq<int>, top: int)
    requires Climbing(stack, index, top) && index[top] < |stack[top].value.children|
    ensures Levels(stack, index, top)
  {
    forall j | 0 <= j <= top
      ensures StackedNode(stack[j], j) && -1 <= index[j] < |stack[j].value.children|
    {
      if j < top {
        assert StackedNode(stack[j], j) && -1 <= index[j] < |stack[j].value.children|;
      }
    }
  }

  /** Pushing a node child at its first child keeps the entries to come, and stays within
      the stack: a node's child that is a node sits at a shift below 32. */
  lemma Push<K, V>(stack: seq<Option<Slot<K, V>>>, index: seq<int>, top: int, firstOnly: bool)
    requires Climbing(stack, index, top) && index[top] < |stack[top].value.children|
    requires stack[top].value.children[index[top]].Node?
    ensures top + 1 < MAX_DEPTH
    ensures Climbing(stack[top + 1 := Some(stack[top].value.children[index[top]])], index[top + 1 := 0], top + 1)
    ensures index[top + 1 := 0][top + 1] < |stack[top].value.children[index[top]].children|
    ensures Pending(stack[top + 1 := Some(stack[top].value.children[index[top]])], index[top + 1 := 0], top + 1, firstOnly)
         == Pending(stack, index, top, firstOnly)
  {
    var child := stack[top].value.children[index[top]];
    assert Iterable(child, top * HASH_SHIFT + HASH_SHIFT);
    assert (top + 1) * HASH_SHIFT == top * HASH_SHIFT + HASH_SHIFT;
    var stack', index' := stack[top + 1 := Some(child)], index[top + 1 := 0];
    Descend(stack, index, top, firstOnly);
    LaterFrame(stack, index, stack', index', top, firstOnly);
    assert child.children[0..] == child.children;
  }

  lemma CollisionPart<K, V>(es: seq<Entry<K, V>>, firstOnly: bool)
    requires |es| >= 2
    ensures CurrentPart(CurrentCollision(es), 0, firstOnly) == Listing(Collision(es), firstOnly)
  {
    assert es[0..] == es;
  }

  class DepthFirstIterator<K, V> {
    /** `mNodeStack`: the nodes from the root down to the current leaf's parent (null above). */
    const nodeStack: array<Option<Slot<K, V>>>
    /** `mNodeIndexStack`: the child index reached in each of those nodes. */
    const nodeIndexStack: array<int>
    /** `mNodeStackPointer`: the top of both stacks, -1 when they are empty. */
    var stackPointer: int
    /** `mCurrent` and `mCurrentCollisionIndex`. */
    var current: Current<K, V>
    var collisionIndex: int

    /** The stacks hold walkable nodes up to the pointer, which stays below MAX_DEPTH; the
        stack is empty when there is no current leaf. */
    ghost predicate Settled()
      reads this, nodeStack, nodeIndexStack
    {
      && nodeStack.Length == MAX_DEPTH && nodeIndexStack.Length == MAX_DEPTH
      && Levels(nodeStack[..], nodeIndexStack[..], stackPointer)
      && (current.NoCurrent? ==> stackPointer == -1)
    }

    /** The corrected iterator's invariant: a current collision array has a valid position. */
    ghost predicate Valid()
      reads this, nodeStack, nodeIndexStack
    {
      Settled() && (current.CurrentCollision? ==> |current.entries| >= 2 && 0 <= collisionIndex < |current.entries|)
    }

    /** The invariant as written: a current collision array is at its first entry below a
        node, or is the root itself at position -1. */
    ghost predicate ValidAsWritten()
      reads this, nodeStack, nodeIndexStack
    {
      && Settled()
      && (current.CurrentCollision? ==>
            |current.entries| >= 2 && ((collisionIndex == 0 && stackPointer >= 0) || (collisionIndex == -1 && stackPointer == -1)))
    }

    /** The stack is non-empty while there is a current leaf, as for a node root. */
    ghost predicate Rooted()
      reads this
    {
      stackPointer >= 0 || current.NoCurrent?
    }

    /** The entries still to come. */
    ghost function Remaining(firstOnly: bool): seq<Entry<K, V>>
      reads this, nodeStack, nodeIndexStack
      requires Settled()
    {
      CurrentPart(current, collisionIndex, firstOnly) + Later(nodeStack[..], nodeIndexStack[..], stackPointer, firstOnly)
    }

    /** `new DepthFirstIterator(root)` with the walk corrected: a root that is not a node is
        the current leaf, and a collision array starts at its first entry. */
    constructor (root: Option<Slot<K, V>>)
      requires root.Some? ==> Iterable(root.value, 0)
      ensures fresh(nodeStack) && fresh(nodeIndexStack)
      ensures Valid()
      ensures Remaining(false) == if root.None? then [] else Listing(root.value, false)
    {
      nodeStack := new Option<Slot<K, V>>[MAX_DEPTH](_ => None);
      nodeIndexStack := new int[MAX_DEPTH](_ => 0);
      stackPointer := -1;
      current := RootLeaf(root);
      collisionIndex := if root.Some? && root.value.Collision? then 0 else -1;
      new;
      if root.Some? && root.value.Node? {
        nodeStack[0] := root;
        nodeIndexStack[0] := -1;
        stackPointer := 0;
        StartAtRoot(false);
      }
    }

    /** `new DepthFirstIterator(root)` as written: a root that is not a node is taken as the
        current leaf with an empty stack, and a collision array at position -1. */
    constructor AsWritten(root: Option<Slot<K, V>>)
      requires root.Some? ==> Iterable(root.value, 0)
      ensures fresh(nodeStack) && fresh(nodeIndexStack)
      ensures ValidAsWritten()
      ensures root.Some? && root.value.Node? ==> Rooted() && Remaining(true) == Listing(root.value, true)
      ensures !(root.Some? && root.value.Node?) ==> stackPointer == -1 && current == RootLeaf(root) && collisionIndex == -1
    {
      nodeStack := new Option<Slot<K, V>>[MAX_DEPTH](_ => None);
      nodeIndexStack := new int[MAX_DEPTH](_ => 0);
      stackPointer := -1;
      current := RootLeaf(root);
      collisionIndex := -1;
      new;
      if root.Some? && root.value.Node? {
        nodeStack[0] := root;
        nodeIndexStack[0] := -1;
        stackPointer := 0;
        StartAtRoot(true);
      }
    }

    /** The constructor's `moveToNext()` on a node root: with no current leaf it walks from
        index -1 of the root, reaching the root's first leaf. */
    method StartAtRoot(ghost firstOnly: bool)
      requires nodeStack.Length == MAX_DEPTH && nodeIndexStack.Length == MAX_DEPTH
      requires stackPointer == 0 && nodeIndexStack[0] == -1 && current.NoCurrent?
      requires nodeStack[0].Some? && nodeStack[0].value.Node? && Iterable(nodeStack[0].value, 0)
      modifies this, nodeStack, nodeIndexStack
      ensures Settled() && Rooted()
      ensures current.CurrentCollision? ==> |current.entries| >= 2 && collisionIndex == 0 && stackPointer >= 0
      ensures Remaining(firstOnly) == Listing(old(nodeStack[0].value), firstOnly)
    {
      ghost var root := nodeStack[0].value;
      assert Levels(nodeStack[..], nodeIndexStack[..], 0);
      assert root.children[0..] == root.children;
      Walk(firstOnly);
    }

    /** The walk of `moveToNext` from a non-empty stack: up the stack, then down to a leaf,
        or no current leaf when the stack empties on the way up. */
    method Walk(ghost firstOnly: bool)
      requires Levels(nodeStack[..], nodeIndexStack[..], stackPointer) && stackPointer >= 0
      modifies this, nodeStack, nodeIndexStack
      ensures Settled() && Rooted()
      ensures current.CurrentCollision? ==> |current.entries| >= 2 && collisionIndex == 0 && stackPointer >= 0
      ensures Remaining(firstOnly) == old(Later(nodeStack[..], nodeIndexStack[..], stackPointer, firstOnly))
    {
      var found := Climb(firstOnly);
      if !found {
        current := NoCurrent;
        return;
      }
      DescendToLeaf(firstOnly);
    }

    /** The first loop of the walk: move the top node past its current child, and pop it
        while it has no next child. `found` is false when the stack empties. */
    method Climb(ghost firstOnly: bool) returns (found: bool)
      requires Levels(nodeStack[..], nodeIndexStack[..], stackPointer) && stackPointer >= 0
      modifies this, nodeIndexStack
      ensures current == old(current) && collisionIndex == old(collisionIndex)
      ensures !found ==> stackPointer == -1 && Levels(nodeStack[..], nodeIndexStack[..], -1)
      ensures !found ==> old(Later(nodeStack[..], nodeIndexStack[..], stackPointer, firstOnly)) == []
      ensures found ==> Climbing(nodeStack[..], nodeIndexStack[..], stackPointer)
      ensures found ==> nodeIndexStack[stackPointer] < |nodeStack[stackPointer].value.children|
      ensures found ==> (Pending(nodeStack[..], nodeIndexStack[..], stackPointer, firstOnly)
                         == old(Later(nodeStack[..], nodeIndexStack[..], stackPointer, firstOnly)))
    {
      ghost var target := Later(nodeStack[..], nodeIndexStack[..], stackPointer, firstOnly);
      ClimbStart(nodeStack[..], nodeIndexStack[..], stackPointer, firstOnly);
      ghost var before := nodeIndexStack[..];
      nodeIndexStack[stackPointer] := nodeIndexStack[stackPointer] + 1;
      assert nodeIndexStack[..] == before[stackPointer := before[stackPointer] + 1];
      while |nodeStack[stackPointer].value.children| <= nodeIndexStack[stackPointer]
        invariant Climbing(nodeStack[..], nodeIndexStack[..], stackPointer)
        invariant Pending(nodeStack[..], nodeIndexStack[..], stackPointer, firstOnly) == target
        invariant current == old(current) && collisionIndex == old(collisionIndex)
        decreases stackPointer
      {
        if stackPointer == 0 {
          ClimbOut(nodeStack[..], nodeIndexStack[..], firstOnly);
          stackPointer := -1;
          return false;
        }
        Pop(firstOnly);
      }
      return true;
    }

    /** One step of that loop: pop the finished top node and advance its parent's index. */
    method Pop(ghost firstOnly: bool)
      requires Climbing(nodeStack[..], nodeIndexStack[..], stackPointer) && stackPointer > 0
      requires |nodeStack[stackPointer].value.children| <= nodeIndexStack[stackPointer]
      modifies this, nodeIndexStack
      ensures Climbing(nodeStack[..], nodeIndexStack[..], stackPointer)
      ensures stackPointer == old(stackPointer) - 1
      ensures Pending(nodeStack[..], nodeIndexStack[..], stackPointer, firstOnly)
           == old(Pending(nodeStack[..], nodeIndexStack[..], stackPointer, firstOnly))
      ensures current == old(current) && collisionIndex == old(collisionIndex)
    {
      var top := stackPointer;
      ghost var stack, index := nodeStack[..], nodeIndexStack[..];
      ClimbPop(stack, index, top, firstOnly);
      stackPointer := top - 1;
      nodeIndexStack[top - 1] := nodeIndexStack[top - 1] + 1;
      assert nodeIndexStack[..] == index[top - 1 := index[top - 1] + 1];
      assert nodeStack[..] == stack;
    }

    /** The second loop of the walk: push node children until the indexed child is an entry
        or a collision array, which becomes the current leaf. */
    method DescendToLeaf(ghost firstOnly: bool)
      requires Climbing(nodeStack[..], nodeIndexStack[..], stackPointer)
      requires nodeIndexStack[stackPointer] < |nodeStack[stackPointer].value.children|
      modifies this, nodeStack, nodeIndexStack
      ensures Levels(nodeStack[..], nodeIndexStack[..], stackPointer) && stackPointer >= 0 && !current.NoCurrent?
      ensures current.CurrentCollision? ==> |current.entries| >= 2 && collisionIndex == 0
      ensures CurrentPart(current, collisionIndex, firstOnly) + Later(nodeStack[..], nodeIndexStack[..], stackPointer, firstOnly)
           == old(Pending(nodeStack[..], nodeIndexStack[..], stackPointer, firstOnly))
    {
      ghost var target := Pending(nodeStack[..], nodeIndexStack[..], stackPointer, firstOnly);
      while true
        invariant Climbing(nodeStack[..], nodeIndexStack[..], stackPointer)
        invariant nodeIndexStack[stackPointer] < |nodeStack[stackPointer].value.children|
        invariant Pending(nodeStack[..], nodeIndexStack[..], stackPointer, firstOnly) == target
        decreases MAX_DEPTH - stackPointer
      {
        var child := nodeStack[stackPointer].value.children[nodeIndexStack[stackPointer]];
        Descend(nodeStack[..], nodeIndexStack[..], stackPointer, firstOnly);
        if child.Leaf? {
          current := CurrentEntry(child.entry);
          return;
        } else if child.Collision? {
          current := CurrentCollision(child.entries);
          collisionIndex := 0;
          CollisionPart(child.entries, firstOnly);
          return;
        }
        ghost var stack, index := nodeStack[..], nodeIndexStack[..];
        Push(stack, index, stackPointer, firstOnly);
        stackPointer := stackPointer + 1;
        nodeStack[stackPointer] := Some(child);
        nodeIndexStack[stackPointer] := 0;
        assert nodeStack[..] == stack[stackPointer := Some(child)];
        assert nodeIndexStack[..] == index[stackPointer := 0];
      }
    }

    /** `hasNext()`: there is a current leaf, which for the corrected iterator means entries
        remain to come. */
    function HasNext(): (b: bool)
      reads this, nodeStack, nodeIndexStack
      ensures Valid() ==> (b <==> Remaining(false) != [])
      ensures ValidAsWritten() && Rooted() ==> (b <==> Remaining(true) != [])
    {
      !current.NoCurrent?
    }

    /** `moveToNext()` corrected: the next entry of the current collision array while there
        is one, otherwise the walk (or the end, when the stack is empty). */
    method MoveToNext()
      requires Valid() && !current.NoCurrent?
      modifies this, nodeStack, nodeIndexStack
      ensures Valid()
      ensures Remaining(false) == old(Remaining(false))[1..]
    {
      if current.CurrentCollision? && collisionIndex + 1 < |current.entries| {
        collisionIndex := collisionIndex + 1;
      } else if stackPointer < 0 {
        current := NoCurrent;
      } else {
        Walk(false);
      }
    }

    /** `next()` corrected: the first remaining entry, moving past it; at the end it throws
        NoSuchElementException, as `Iterator` requires. */
    method Next() returns (r: Result<Entry<K, V>>)
      requires Valid()
      modifies this, nodeStack, nodeIndexStack
      ensures Valid()
      ensures old(Remaining(false)) == [] ==> r == Throws(NoSuchElementException) && Remaining(false) == []
      ensures old(Remaining(false)) != [] ==>
        r == Ok(old(Remaining(false))[0]) && Remaining(false) == old(Remaining(false))[1..]
    {
      if current.NoCurrent? {
        return Throws(NoSuchElementException);
      }
      var next := if current.CurrentCollision? then current.entries[collisionIndex] else current.entry;
      MoveToNext();
      return Ok(next);
    }

    /** `moveToNext()` as written. The collision test is inverted: it stays in the array only
        once the position has run past its end, and otherwise leaves it. Leaving with an
        empty stack reads `mNodeStack[-1]`, reported as `thrown`. */
    method MoveToNextAsWritten() returns (thrown: bool)
      requires ValidAsWritten()
      requires current.CurrentCollision? ==> collisionIndex == 0
      modifies this, nodeStack, nodeIndexStack
      ensures ValidAsWritten()
      ensures thrown <==> old(stackPointer) < 0
      ensures !thrown ==> Rooted() && Remaining(true) == old(Remaining(true))[1..]
    {
      var stays := false;
      if current.CurrentCollision? {
        collisionIndex := collisionIndex + 1;
        stays := |current.entries| <= collisionIndex;
      }
      if stays {
        thrown := false;
      } else if stackPointer < 0 {
        thrown := true;
      } else {
        thrown := false;
        Walk(true);
      }
    }

    /** `next()` as written. It throws ArrayIndexOutOfBoundsException whenever the stack is
        empty: past the end, for an empty map, for a single-entry root (whose entry is
        never returned), and for a collision-array root (read at position -1). */
    method NextAsWritten() returns (r: Result<Entry<K, V>>)
      requires ValidAsWritten()
      modifies this, nodeStack, nodeIndexStack
      ensures ValidAsWritten()
      ensures old(stackPointer) < 0 ==> r == Throws(ArrayIndexOutOfBoundsException)
      ensures old(stackPointer) >= 0 ==>
        && Rooted() && old(Remaining(true)) != []
        && r == Ok(old(Remaining(true))[0]) && Remaining(true) == old(Remaining(true))[1..]
    {
      if current.CurrentCollision? && !(0 <= collisionIndex < |current.entries|) {
        return Throws(ArrayIndexOutOfBoundsException);
      }
      var next: Option<Entry<K, V>> :=
        match current
        case NoCurrent => None
        case CurrentEntry(e) => Some(e)
        case CurrentCollision(es) => Some(es[collisionIndex]);
      var thrown := MoveToNextAsWritten();
      if thrown {
        return Throws(ArrayIndexOutOfBoundsException);
      }
      return Ok(next.value);
    }
  }

  /** `iterator()` with the walk corrected: it yields the map's listing. */
  method Iterator<K, V>(m: HashTrieMap<K, V>, ghost hash: K -> HashCode) returns (it: DepthFirstIterator<K, V>)
    requires Valid(m, hash)
    ensures fresh(it) && fresh(it.nodeStack) && fresh(it.nodeIndexStack)
    ensures it.Valid() && it.Remaining(false) == MapListing(m, false)
  {
    if m.root.Some? {
      WFIterable(m.root.value, 0, hash);
    }
    it := new DepthFirstIterator(m.root);
  }

  /** `iterator()` as written, on a map whose root is a node. */
  method IteratorAsWritten<K, V>(m: HashTrieMap<K, V>, ghost hash: K -> HashCode) returns (it: DepthFirstIterator<K, V>)
    requires Valid(m, hash)
    ensures fresh(it) && fresh(it.nodeStack) && fresh(it.nodeIndexStack)
    ensures it.ValidAsWritten()
    ensures m.root.Some? && m.root.value.Node? ==> it.Rooted() && it.Remaining(true) == MapListing(m, true)
    ensures !(m.root.Some? && m.root.value.Node?) ==> it.stackPointer == -1 && it.current == RootLeaf(m.root)
  {
    if m.root.Some? {
      WFIterable(m.root.value, 0, hash);
    }
    it := new DepthFirstIterator.AsWritten(m.root);
  }
}
