/** TrieArray's `CachedIterator`: a list cursor over a TrieArray that keeps the most
    recently used leaf block of the trie, so that walking the array reloads a block only
    once every 32 elements. */
module TrieArrayIterator {
  import opened Wrappers
  import opened Arith
  import opened TrieArrayNodes
  import opened TrieArrayShape
  import opened TrieArrayOps

  /** `block` is the leaf block of `root` holding index i: the 32 elements from the
      multiple of 32 at or below i. */
  ghost predicate BlockOf<T>(block: Node<T>, root: Node<T>, i: nat)
  {
    && Packed(block, 0)
    && (i / BLOCK_SIZE) * BLOCK_SIZE + BLOCK_SIZE <= |Flatten(root)|
    && Flatten(block) == Flatten(root)[(i / BLOCK_SIZE) * BLOCK_SIZE .. (i / BLOCK_SIZE) * BLOCK_SIZE + BLOCK_SIZE]
  }

  /** Java's reload test `((blockIndex ^ index) & ~MASK) != 0`: for the initial
      blockIndex -1 it always holds; for two non-negative ints it holds exactly when they
      lie in different 32-element blocks. */
  predicate NeedsReload(blockIndex: int, index: nat)
  {
    blockIndex < 0 || blockIndex / BLOCK_SIZE != index / BLOCK_SIZE
  }

  class CachedIterator<T> {
    /** The array iterated over (`TrieArray.this`). */
    const source: TrieArray<T>
    const rootSize: nat
    var nextIndex: nat
    var currentBlock: Option<Node<T>>
    var currentBlockIndex: int

    /** The cursor lies in 0..size, and a cached block, once loaded, is the leaf block of
        the index it was loaded for. */
    ghost predicate Valid()
      reads this
    {
      && TrieArrayShape.Valid(source)
      && rootSize == RootSize(source.size)
      && nextIndex <= source.size
      && -1 <= currentBlockIndex < rootSize
      && (currentBlockIndex >= 0 ==>
            && source.root.Some? && currentBlock.Some?
            && BlockOf(currentBlock.value, source.root.value, currentBlockIndex))
    }

    /** `new CachedIterator(index)`: no block cached yet. */
    constructor(source: TrieArray<T>, index: nat)
      requires TrieArrayShape.Valid(source) && index <= source.size
      ensures Valid() && this.source == source && nextIndex == index
      ensures currentBlock == None && currentBlockIndex == -1
    {
      this.source := source;
      this.rootSize := RootSize(source.size);
      this.nextIndex := index;
      this.currentBlock := None;
      this.currentBlockIndex := -1;
    }

    /** `cachedGet(index)`: element `index`; below the root size it is read from the
        cached block, which is first replaced by the block holding `index` when it is a
        different one. Above the root size it is `get(index)`. The cursor is untouched. */
    method CachedGet(index: nat) returns (x: T)
      requires Valid() && index < source.size
      modifies this
      ensures Valid() && nextIndex == old(nextIndex)
      ensures |Elements(source)| == source.size && x == Elements(source)[index]
      ensures index < rootSize ==> currentBlockIndex >= 0 && currentBlockIndex / BLOCK_SIZE == index / BLOCK_SIZE
      ensures index < rootSize && !NeedsReload(old(currentBlockIndex), index) ==>
                currentBlock == old(currentBlock) && currentBlockIndex == old(currentBlockIndex)
      ensures index >= rootSize ==> currentBlock == old(currentBlock) && currentBlockIndex == old(currentBlockIndex)
    {
      ElementsSize(source);
      if index < rootSize {
        var root := source.root.value;
        if NeedsReload(currentBlockIndex, index) {
          var block := FindNode(root, Height(source.size) - 1, index, 1);
          BlockOfSlice(root, block, index);
          currentBlock := Some(block);
          currentBlockIndex := index;
        }
        BlockRead(currentBlock.value, root, currentBlockIndex, index);
        x := currentBlock.value.kids[index % BLOCK_SIZE].value;
      } else {
        var r := Get(source, index);
        x := r.value;
      }
    }

    /** `next()`: the element at the cursor, which then moves forward; past the end
        NoSuchElementException and the cursor stays. */
    method Next() returns (r: Result<T>)
      requires Valid()
      modifies this
      ensures Valid() && |Elements(source)| == source.size
      ensures old(nextIndex) < source.size ==>
                r == Ok(Elements(source)[old(nextIndex)]) && nextIndex == old(nextIndex) + 1
      ensures old(nextIndex) >= source.size ==>
                r == Throws(NoSuchElementException) && nextIndex == old(nextIndex)
    {
      ElementsSize(source);
      if nextIndex < source.size {
        var index := nextIndex;
        nextIndex := nextIndex + 1;
        var x := CachedGet(index);
        r := Ok(x);
      } else {
        r := Throws(NoSuchElementException);
      }
    }

    /** `previous()`: the cursor moves back and the element it passes is returned; at the
        start NoSuchElementException and the cursor stays. */
    method Previous() returns (r: Result<T>)
      requires Valid()
      modifies this
      ensures Valid() && |Elements(source)| == source.size
      ensures old(nextIndex) > 0 ==>
                nextIndex == old(nextIndex) - 1 && r == Ok(Elements(source)[nextIndex])
      ensures old(nextIndex) == 0 ==> r == Throws(NoSuchElementException) && nextIndex == 0
    {
      ElementsSize(source);
      if 0 < nextIndex {
        nextIndex := nextIndex - 1;
        var x := CachedGet(nextIndex);
        r := Ok(x);
      } else {
        r := Throws(NoSuchElementException);
      }
    }

    /** `hasNext()`: some element of the list lies at or after the cursor. */
    method HasNext() returns (b: bool)
      requires Valid()
      ensures b <==> nextIndex < |Elements(source)|
    {
      ElementsSize(source);
      b := nextIndex < source.size;
    }

    /** `hasPrevious()`: some element of the list lies before the cursor. */
    method HasPrevious() returns (b: bool)
      requires Valid()
      ensures b <==> 0 < nextIndex <= |Elements(source)|
    {
      ElementsSize(source);
      b := 0 < nextIndex;
    }

    /** `nextIndex()` and `previousIndex()`: the positions next() and previous() would
        return, each within -1..size. */
    method Indices() returns (next: int, previous: int)
      requires Valid()
      ensures next == nextIndex && previous == next - 1
      ensures 0 <= next <= |Elements(source)| && -1 <= previous < |Elements(source)|
    {
      ElementsSize(source);
      next := nextIndex;
      previous := nextIndex - 1;
    }
  }

  /** `listIterator(i)`: a cursor before element i, for i in 0..size; otherwise
      IndexOutOfBoundsException. `iterator()` and `listIterator()` are the case i = 0. */
  method ListIterator<T>(a: TrieArray<T>, i: int) returns (r: Result<CachedIterator<T>>)
    requires Valid(a)
    ensures 0 <= i <= a.size ==> r.Ok? && fresh(r.value) && r.value.Valid() && r.value.source == a && r.value.nextIndex == i
    ensures !(0 <= i <= a.size) ==> r == Throws(IndexOutOfBoundsException)
  {
    if 0 <= i <= a.size {
      var it := new CachedIterator(a, i);
      r := Ok(it);
    } else {
      r := Throws(IndexOutOfBoundsException);
    }
  }

  /** The block `findNode(root, height - 1, index, 1)` returns is the leaf block of index. */
  lemma BlockOfSlice<T>(root: Node<T>, block: Node<T>, i: nat)
    requires InSlice(root, block, 0, i)
    ensures BlockOf(block, root, i)
  {
    FlattenAllElems(block.kids);
    assert (i / BLOCK_SIZE) * BLOCK_SIZE == i - Low(i, 0);
  }

  /** Reading slot `index % 32` of the cached block gives element `index` when the block
      was loaded for an index in the same 32-element block. */
  lemma BlockRead<T>(block: Node<T>, root: Node<T>, loaded: nat, index: nat)
    requires BlockOf(block, root, loaded) && loaded / BLOCK_SIZE == index / BLOCK_SIZE
    ensures index < |Flatten(root)|
    ensures block.kids[index % BLOCK_SIZE].Elem?
    ensures block.kids[index % BLOCK_SIZE].value == Flatten(root)[index]
  {
    FlattenAllElems(block.kids);
    var start := (index / BLOCK_SIZE) * BLOCK_SIZE;
    assert index == start + index % BLOCK_SIZE;
    assert Flatten(block)[index % BLOCK_SIZE] == Flatten(root)[index];
  }
}
