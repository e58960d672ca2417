/** `appendAll` of the persistent index trie (TrieArray): the old tail and the new values
    are drawn, one by one, from a stateful iterator, and `concatTrie` rebuilds the trie
    from the old root, filling fresh leaf blocks from that iterator. */
module TrieArrayConcat {
  import opened Wrappers
  import opened Arith
  import opened Seqs
  import opened TrieArrayNodes
  import opened TrieArrayShape

  /** The anonymous `Iterator<Object>` of `appendAll`: first the `oldEndSize` elements of
      the old tail `mEnd` (the element itself when there is one), then the new values.
      `index` is `mIndex`; `valuesPos` is how far the values' own iterator has advanced. */
  class EndIterator<T> {
    const end: Option<Node<T>>
    const oldEndSize: nat
    const values: seq<T>
    var index: nat
    var valuesPos: nat
    /** Everything the iterator yields, in order. */
    ghost const all: seq<T>

    ghost predicate Valid()
      reads this
    {
      && TailShaped(end, oldEndSize)
      && all == FlattenOpt(end) + values
      && index <= oldEndSize
      && valuesPos <= |values|
      && (valuesPos > 0 ==> index == oldEndSize)
    }

    /** How many elements have been drawn so far. */
    ghost function Count(): nat
      reads this
    {
      index + valuesPos
    }

    constructor (end: Option<Node<T>>, oldEndSize: nat, values: seq<T>)
      requires TailShaped(end, oldEndSize)
      ensures Valid() && Count() == 0
      ensures this.end == end && this.oldEndSize == oldEndSize && this.values == values
      ensures all == FlattenOpt(end) + values
    {
      this.end := end;
      this.oldEndSize := oldEndSize;
      this.values := values;
      index := 0;
      valuesPos := 0;
      all := FlattenOpt(end) + values;
    }

    /** `hasNext()`: something is left to draw. */
    method HasNext() returns (b: bool)
      requires Valid()
      ensures b <==> Count() < |all|
    {
      TailSize(end, oldEndSize);
      b := index < oldEndSize || valuesPos < |values|;
    }

    /** `next()`: the next element of the old tail, then of the values. */
    method Next() returns (x: T)
      requires Valid() && Count() < |all|
      modifies this
      ensures Valid() && Count() == old(Count()) + 1
      ensures x == all[old(Count())]
    {
      TailSize(end, oldEndSize);
      if oldEndSize == 1 && index == 0 {
        index := index + 1;
        x := end.value.value;
      } else if index < oldEndSize {
        x := end.value.kids[index].value;
        index := index + 1;
      } else {
        x := values[valuesPos];
        valuesPos := valuesPos + 1;
      }
    }
  }

  /** What `concatTrie` expects of its arguments: a range [begin, end] of whole leaf
      blocks that fits under a node at `level`, and an old node no larger than the range,
      packed at `level` or, above the old root, at the old root's level. */
  ghost predicate ConcatReady<T>(oldNode: Option<Node<T>>, oldRootLevel: int, level: nat, begin: nat, end: nat)
  {
    RangeReady(level, begin, end) && OldFits(oldNode, oldRootLevel, level, end - begin + 1)
  }

  ghost predicate RangeReady(level: nat, begin: nat, end: nat)
  {
    && begin <= end
    && (end - begin + 1) % BLOCK_SIZE == 0
    && end - begin + 1 <= Pow32(level + 1)
  }

  ghost predicate OldFits<T>(oldNode: Option<Node<T>>, oldRootLevel: int, level: nat, width: nat)
  {
    oldNode.Some? ==>
      && 0 <= oldRootLevel
      && Packed(oldNode.value, Min(level, oldRootLevel))
      && |Flatten(oldNode.value)| <= width
  }

  /** The first children of a node under construction at `level` for a range of `width`
      elements: shaped like the children of a packed node (all full but the last), as
      many elements as the range has room for in that many children, and together the
      old node's elements (once the first child exists) followed by the elements drawn. */
  ghost predicate Filled<T>(kids: seq<Node<T>>, oldNode: Option<Node<T>>, level: nat, width: nat, drawn: seq<T>)
  {
    && FlattenAll(kids) == (if kids == [] then [] else FlattenOpt(oldNode)) + drawn
    && if level == 0 then
         ElemsOnly(kids) && |FlattenAll(kids)| == |kids|
       else
         && (forall k :: 0 <= k < |kids| - 1 ==> Full(kids[k], level - 1))
         && (kids != [] ==> Packed(kids[|kids| - 1], level - 1))
         && |FlattenAll(kids)| == Min(width, |kids| * Pow32(level))
  }

  /** `concatTrie(oldNode, oldRootLevel, level, beginIndex, endIndex, elements)`: a node
      at `level` holding the old node's elements followed by as many drawn elements as
      fill the range. */
  method ConcatTrie<T>(oldNode: Option<Node<T>>, oldRootLevel: int, level: nat, begin: nat, end: nat, it: EndIterator<T>)
    returns (r: Node<T>)
    requires it.Valid() && ConcatReady(oldNode, oldRootLevel, level, begin, end)
    requires it.Count() + (end - begin + 1) - |FlattenOpt(oldNode)| <= |it.all|
    modifies it
    ensures it.Valid()
    ensures it.Count() == old(it.Count()) + (end - begin + 1) - |FlattenOpt(oldNode)|
    ensures Packed(r, level) && |Flatten(r)| == end - begin + 1
    ensures Flatten(r) == FlattenOpt(oldNode) + it.all[old(it.Count())..it.Count()]
    decreases level, 4
  {
    ghost var c0 := it.Count();
    var next, fill := ConcatStart(oldNode, oldRootLevel, level, begin, end, it);
    if level == 0 {
      FillLeaves(next, fill, oldNode, c0, it);
    } else {
      FillChildren(next, fill, oldNode, oldRootLevel, level, begin, end, c0, it);
    }
    r := Branch(next[..]);
    FilledPacked(next[..], oldNode, level, end - begin + 1, it.all[c0..it.Count()]);
  }

  /** The children array of `concatTrie`, of as many slots as the range needs: a copy of the
      old node with its last child extended when the old trie reaches this level, otherwise
      empty. */
  method ConcatStart<T>(oldNode: Option<Node<T>>, oldRootLevel: int, level: nat, begin: nat, end: nat, it: EndIterator<T>)
    returns (next: array<Node<T>>, fill: nat)
    requires it.Valid() && ConcatReady(oldNode, oldRootLevel, level, begin, end)
    requires it.Count() + (end - begin + 1) - |FlattenOpt(oldNode)| <= |it.all|
    modifies it
    ensures fresh(next) && next.Length == (end - begin) / Pow32(level) + 1 && fill <= next.Length
    ensures level == 0 ==> next.Length == BLOCK_SIZE && end - begin + 1 == BLOCK_SIZE
    ensures it.Valid() && old(it.Count()) <= it.Count() <= |it.all|
    ensures fill == 0 ==> it.Count() == old(it.Count()) && (oldNode.None? || oldRootLevel < level)
    ensures Filled(next[..fill], oldNode, level, end - begin + 1, it.all[old(it.Count())..it.Count()])
    decreases level, 2
  {
    var step := Pow32(level);
    ConcatWidth(level, begin, end);
    var nextSize := Min(end - begin + step, BLOCK_SIZE * step) / step;
    if oldNode.Some? && level <= oldRootLevel {
      next, fill := ConcatCopy(oldNode.value, oldRootLevel, level, begin, end, nextSize, it);
    } else {
      next := new Node<T>[nextSize];
      fill := 0;
      assert next[..0] == [];
    }
  }

  /** The number of children `concatTrie` allocates for a range: the ceiling of its width over
      the capacity of a child, 32 at the leaf level. */
  lemma ConcatWidth(level: nat, begin: nat, end: nat)
    requires RangeReady(level, begin, end)
    ensures Min(end - begin + Pow32(level), BLOCK_SIZE * Pow32(level)) / Pow32(level) == (end - begin) / Pow32(level) + 1 <= BLOCK_SIZE
    ensures level == 0 ==> (end - begin) / Pow32(level) + 1 == BLOCK_SIZE
  {
    Pow32Step(level + 1);
    NextSizeValue(end - begin + 1, Pow32(level));
  }

  /** The copying branch of `concatTrie` (`level <= oldRootLevel`): `Arrays.copyOf` of the
      old node, with its last child extended recursively above the leaf level. */
  method ConcatCopy<T>(oldNode: Node<T>, oldRootLevel: int, level: nat, begin: nat, end: nat, nextSize: nat, it: EndIterator<T>)
    returns (next: array<Node<T>>, fill: nat)
    requires it.Valid() && ConcatReady(Some(oldNode), oldRootLevel, level, begin, end) && level <= oldRootLevel
    requires nextSize == (end - begin) / Pow32(level) + 1
    requires it.Count() + (end - begin + 1) - |Flatten(oldNode)| <= |it.all|
    modifies it
    ensures fresh(next) && next.Length == nextSize && 1 <= fill <= nextSize
    ensures it.Valid() && old(it.Count()) <= it.Count() <= |it.all|
    ensures Filled(next[..fill], Some(oldNode), level, end - begin + 1, it.all[old(it.Count())..it.Count()])
    decreases level, 1
  {
    ghost var c0 := it.Count();
    var kids := oldNode.kids;
    var last := |kids| - 1;
    CopyShape(oldNode, oldRootLevel, level, begin, end);
    var lastKid := kids[last];
    if 0 < level {
      lastKid := ExtendLast(oldNode, oldRootLevel, level, begin, end, it);
    }
    next := new Node<T>[nextSize](k => if 0 <= k < last then kids[k] else if k == last then lastKid else Branch([]));
    assert next[..|kids|] == kids[..last] + [lastKid];
    fill := |kids|;
    if 0 < level {
      CopiedFilled(oldNode, lastKid, level, end - begin + 1, it.all, c0, it.Count());
    } else {
      assert kids[..last] + [lastKid] == kids;
      CopiedLeaves(oldNode, it.all, c0);
    }
  }

  /** Above the leaf level, the copy's last child: `concatTrie` of the old last child over
      its share of the range, holding that child's elements and then the elements drawn. */
  method ExtendLast<T>(oldNode: Node<T>, oldRootLevel: int, level: nat, begin: nat, end: nat, it: EndIterator<T>)
    returns (c: Node<T>)
    requires it.Valid() && ConcatReady(Some(oldNode), oldRootLevel, level, begin, end) && 1 <= level <= oldRootLevel
    requires it.Count() + (end - begin + 1) - |Flatten(oldNode)| <= |it.all|
    modifies it
    ensures it.Valid() && old(it.Count()) <= it.Count() <= |it.all|
    ensures var last := |oldNode.kids| - 1;
      && Packed(c, level - 1)
      && |Flatten(c)| == Min(end - begin + 1 - last * Pow32(level), Pow32(level))
      && Flatten(c) == Flatten(oldNode.kids[last]) + it.all[old(it.Count())..it.Count()]
    decreases level, 0
  {
    var last := |oldNode.kids| - 1;
    var step := Pow32(level);
    var lastBegin := begin + last * step;
    var lastEnd := Min(end, lastBegin + step - 1);
    CopyReady(oldNode, oldRootLevel, level, begin, end, lastBegin, lastEnd);
    c := ConcatTrie(Some(oldNode.kids[last]), oldRootLevel, level - 1, lastBegin, lastEnd, it);
  }

  /** In the copying branch the old node is packed at `level` itself, and its children fit
      in the slots allocated for the range. */
  lemma CopyShape<T>(oldNode: Node<T>, oldRootLevel: int, level: nat, begin: nat, end: nat)
    requires ConcatReady(Some(oldNode), oldRootLevel, level, begin, end) && level <= oldRootLevel
    ensures Packed(oldNode, level) && |Flatten(oldNode)| <= end - begin + 1
    ensures 1 <= |oldNode.kids| <= (end - begin) / Pow32(level) + 1
  {
    assert Min(level, oldRootLevel) == level;
    PackedLower(oldNode, level, end - begin + 1);
  }

  lemma PackedLower<T>(t: Node<T>, level: nat, width: nat)
    requires Packed(t, level) && |Flatten(t)| <= width
    ensures |t.kids| - 1 <= (width - 1) / Pow32(level)
  {
    PackedSize(t, level);
    FewerSteps(|t.kids| - 1, Pow32(level), width);
  }

  /** The old node's last child and its share of the range satisfy `concatTrie`'s
      expectations, and drawing its share leaves enough for the rest of the range. */
  lemma CopyReady<T>(oldNode: Node<T>, oldRootLevel: int, level: nat, begin: nat, end: nat,
                     nextBegin: nat, nextEnd: int)
    requires ConcatReady(Some(oldNode), oldRootLevel, level, begin, end) && 1 <= level <= oldRootLevel
    requires nextBegin == begin + (|oldNode.kids| - 1) * Pow32(level)
    requires nextEnd == Min(end, nextBegin + Pow32(level) - 1)
    ensures nextBegin <= nextEnd
    ensures var last := |oldNode.kids| - 1;
      && nextEnd - nextBegin + 1 == Min(end - begin + 1 - last * Pow32(level), Pow32(level))
      && ConcatReady(Some(oldNode.kids[last]), oldRootLevel, level - 1, nextBegin, nextEnd)
      && (nextEnd - nextBegin + 1) - |Flatten(oldNode.kids[last])| <= (end - begin + 1) - |Flatten(oldNode)|
  {
    var last := |oldNode.kids| - 1;
    assert Min(level, oldRootLevel) == level && Min(level - 1, oldRootLevel) == level - 1;
    LastShare(oldNode, level, begin, end, nextBegin, nextEnd);
  }

  /** `CopyReady` for a node packed at `level` itself. */
  lemma LastShare<T>(oldNode: Node<T>, level: nat, begin: nat, end: nat, nextBegin: nat, nextEnd: int)
    requires RangeReady(level, begin, end) && Packed(oldNode, level) && |Flatten(oldNode)| <= end - begin + 1 && 1 <= level
    requires nextBegin == begin + (|oldNode.kids| - 1) * Pow32(level)
    requires nextEnd == Min(end, nextBegin + Pow32(level) - 1)
    ensures nextBegin <= nextEnd
    ensures var last := |oldNode.kids| - 1;
      && nextEnd - nextBegin + 1 == Min(end - begin + 1 - last * Pow32(level), Pow32(level))
      && RangeReady(level - 1, nextBegin, nextEnd)
      && Packed(oldNode.kids[last], level - 1) && |Flatten(oldNode.kids[last])| <= nextEnd - nextBegin + 1
      && (nextEnd - nextBegin + 1) - |Flatten(oldNode.kids[last])| <= (end - begin + 1) - |Flatten(oldNode)|
  {
    var last := |oldNode.kids| - 1;
    Pow32Step(level);
    LastChildSize(oldNode, level);
    PackedBound(oldNode.kids[last], level - 1);
    LastChildRange(begin, end, Pow32(level), last, |Flatten(oldNode)|, |Flatten(oldNode.kids[last])|, nextBegin, nextEnd);
  }

  /** The arithmetic of `CopyReady`: the share of the range under the old last child, at
      offset last * step, holds that child's elements and no more than the rest of the
      range can supply. */
  lemma LastChildRange(begin: int, end: int, step: int, last: int, total: int, lastSize: int, nextBegin: int, nextEnd: int)
    requires begin <= end && (end - begin + 1) % 32 == 0 && step >= 1 && step % 32 == 0
    requires 0 <= last && total == last * step + lastSize && last * step < total <= end - begin + 1
    requires lastSize <= step
    requires nextBegin == begin + last * step && nextEnd == Min(end, nextBegin + step - 1)
    ensures nextBegin <= nextEnd
    ensures nextEnd - nextBegin + 1 == Min(end - begin + 1 - last * step, step)
    ensures (nextEnd - nextBegin + 1) % 32 == 0 && nextEnd - nextBegin + 1 <= step
    ensures lastSize <= nextEnd - nextBegin + 1
    ensures (nextEnd - nextBegin + 1) - lastSize <= (end - begin + 1) - total
  {
    FewerSteps(last, step, end - begin + 1);
    assert step * last == last * step;
    ChildRange(begin, end, step, last, nextBegin, nextEnd);
  }

  /** At the leaf level the copy is the whole old block, and nothing is drawn. */
  lemma CopiedLeaves<T>(oldNode: Node<T>, all: seq<T>, c0: nat)
    requires Packed(oldNode, 0) && c0 <= |all|
    ensures Filled(oldNode.kids, Some(oldNode), 0, BLOCK_SIZE, all[c0..c0])
  {
    FlattenAllElems(oldNode.kids);
    assert all[c0..c0] == [];
  }

  /** After the copy: the old node's children with the last one replaced by its extension. */
  lemma CopiedFilled<T>(oldNode: Node<T>, c: Node<T>, level: nat, width: nat, all: seq<T>, c0: nat, c1: nat)
    requires Packed(oldNode, level) && level > 0 && 1 <= width
    requires |oldNode.kids| <= (width - 1) / Pow32(level) + 1
    requires c0 <= c1 <= |all|
    requires var last := |oldNode.kids| - 1;
      && Packed(c, level - 1)
      && |Flatten(c)| == Min(width - last * Pow32(level), Pow32(level))
      && Flatten(c) == Flatten(oldNode.kids[last]) + all[c0..c1]
    ensures Filled(oldNode.kids[..|oldNode.kids| - 1] + [c], Some(oldNode), level, width, all[c0..c1])
  {
    var kids := oldNode.kids;
    var last := |kids| - 1;
    var step := Pow32(level);
    var copied := kids[..last] + [c];
    PackedSize(oldNode, level);
    ChildStep(width, step, last, (width - 1) / step + 1);
    PackedCut(oldNode, level, last, c);
    CopiedElements(oldNode, c, all[c0..c1]);
    FilledBranch(copied, Some(oldNode), level, width, all[c0..c1], last + 1);
  }

  /** The old node's children up to the last, then the extension of the last one. */
  lemma CopiedElements<T>(oldNode: Node<T>, c: Node<T>, drawn: seq<T>)
    requires oldNode.Branch? && oldNode.kids != []
    requires Flatten(c) == Flatten(oldNode.kids[|oldNode.kids| - 1]) + drawn
    ensures FlattenAll(oldNode.kids[..|oldNode.kids| - 1]) + Flatten(c) == Flatten(oldNode) + drawn
  {
    var kids := oldNode.kids;
    var last := |kids| - 1;
    assert Flatten(oldNode) == FlattenAll(kids[..last]) + Flatten(kids[last]);
    ConcatAssoc(FlattenAll(kids[..last]), Flatten(kids[last]), drawn);
  }

  /** A packed branch of n children holding the old node's elements and the drawn ones,
      as many as the width allows, is a filled copy. */
  lemma FilledBranch<T>(kids: seq<Node<T>>, oldNode: Option<Node<T>>, level: nat, width: nat, drawn: seq<T>, n: nat)
    requires level > 0 && n == |kids|
    requires Packed(Branch(kids), level)
    requires FlattenAll(kids) == FlattenOpt(oldNode) + drawn
    requires |FlattenAll(kids)| == Min(width, n * Pow32(level))
    ensures Filled(kids, oldNode, level, width, drawn)
  {
  }

  /** The leaf-level loop of `concatTrie`: the remaining slots are elements drawn from
      the iterator. */
  method FillLeaves<T>(next: array<Node<T>>, fill: nat, oldNode: Option<Node<T>>, ghost c0: nat, it: EndIterator<T>)
    requires it.Valid() && next.Length == BLOCK_SIZE && fill <= BLOCK_SIZE
    requires c0 <= it.Count() <= |it.all|
    requires fill == 0 ==> it.Count() == c0 && oldNode.None?
    requires Filled(next[..fill], oldNode, 0, BLOCK_SIZE, it.all[c0..it.Count()])
    requires c0 + BLOCK_SIZE - |FlattenOpt(oldNode)| <= |it.all|
    modifies next, it
    ensures it.Valid() && c0 <= it.Count() <= |it.all|
    ensures Filled(next[..], oldNode, 0, BLOCK_SIZE, it.all[c0..it.Count()])
  {
    var i := fill;
    while i < next.Length
      invariant fill <= i <= next.Length
      invariant it.Valid() && c0 <= it.Count()
      invariant it.Count() + BLOCK_SIZE - i <= |it.all|
      invariant i == 0 ==> it.Count() == c0
      invariant Filled(next[..i], oldNode, 0, BLOCK_SIZE, it.all[c0..it.Count()])
    {
      ghost var before := next[..i];
      var x := NextLeaf(i, before, oldNode, c0, it);
      next[i] := Elem(x);
      assert next[..i + 1] == before + [Elem(x)];
      i := i + 1;
    }
    assert next[..] == next[..next.Length];
  }

  /** The element drawn for slot i of a leaf block after the slots `kids`, so that the
      slots with it are filled further. */
  method NextLeaf<T>(i: nat, ghost kids: seq<Node<T>>, oldNode: Option<Node<T>>, ghost c0: nat, it: EndIterator<T>)
    returns (x: T)
    requires it.Valid() && i == |kids| < BLOCK_SIZE
    requires c0 <= it.Count() && it.Count() + BLOCK_SIZE - i <= |it.all|
    requires i == 0 ==> it.Count() == c0 && oldNode.None?
    requires Filled(kids, oldNode, 0, BLOCK_SIZE, it.all[c0..it.Count()])
    modifies it
    ensures it.Valid() && it.Count() == old(it.Count()) + 1
    ensures Filled(kids + [Elem(x)], oldNode, 0, BLOCK_SIZE, it.all[c0..it.Count()])
  {
    ghost var c1 := it.Count();
    x := it.Next();
    LeafFilled(kids, x, oldNode, it.all, c0, c1);
  }

  lemma LeafFilled<T>(kids: seq<Node<T>>, x: T, oldNode: Option<Node<T>>, all: seq<T>, c0: nat, c1: nat)
    requires c0 <= c1 < |all| && x == all[c1]
    requires kids == [] ==> c1 == c0 && oldNode.None?
    requires Filled(kids, oldNode, 0, BLOCK_SIZE, all[c0..c1])
    ensures Filled(kids + [Elem(x)], oldNode, 0, BLOCK_SIZE, all[c0..c1 + 1])
  {
    SnocElem(kids, x);
    assert (if kids == [] then [] else FlattenOpt(oldNode)) == FlattenOpt(oldNode);
    assert all[c0..c1 + 1] == all[c0..c1] + [x];
    ConcatAssoc(FlattenOpt(oldNode), all[c0..c1], [x]);
  }

  /** The loop of `concatTrie` above the leaf level: each remaining child is built
      recursively over its share of the range; the first child, when the loop starts at
      slot 0, carries the old node down. */
  method FillChildren<T>(next: array<Node<T>>, fill: nat, oldNode: Option<Node<T>>, oldRootLevel: int,
                         level: nat, begin: nat, end: nat, ghost c0: nat, it: EndIterator<T>)
    requires it.Valid() && ConcatReady(oldNode, oldRootLevel, level, begin, end) && level >= 1
    requires next.Length == (end - begin) / Pow32(level) + 1 && fill <= next.Length
    requires c0 <= it.Count() <= |it.all|
    requires fill == 0 ==> it.Count() == c0 && (oldNode.None? || oldRootLevel < level)
    requires Filled(next[..fill], oldNode, level, end - begin + 1, it.all[c0..it.Count()])
    requires c0 + (end - begin + 1) - |FlattenOpt(oldNode)| <= |it.all|
    modifies next, it
    ensures it.Valid() && c0 <= it.Count() <= |it.all|
    ensures Filled(next[..], oldNode, level, end - begin + 1, it.all[c0..it.Count()])
    decreases level, 3
  {
    var step := Pow32(level);
    var nextBegin := begin + step * fill;
    var i := fill;
    while i < next.Length
      invariant fill <= i <= next.Length
      invariant nextBegin == begin + step * i
      invariant it.Valid() && c0 <= it.Count() <= |it.all|
      invariant i == 0 ==> it.Count() == c0
      invariant Filled(next[..i], oldNode, level, end - begin + 1, it.all[c0..it.Count()])
    {
      FillChild(next, i, nextBegin, oldNode, oldRootLevel, level, begin, end, c0, it);
      assert step * (i + 1) == step * i + step;
      nextBegin := nextBegin + step;
      i := i + 1;
    }
    assert next[..] == next[..next.Length];
  }

  /** One turn of that loop: `next[i] = concatTrie(i == 0 ? oldNode : null, ...)` over
      the i-th share of the range. */
  method FillChild<T>(next: array<Node<T>>, i: nat, nextBegin: nat, oldNode: Option<Node<T>>, oldRootLevel: int,
                      level: nat, begin: nat, end: nat, ghost c0: nat, it: EndIterator<T>)
    requires it.Valid() && RangeReady(level, begin, end) && OldFits(oldNode, oldRootLevel, level, end - begin + 1)
    requires level >= 1 && i < next.Length == (end - begin) / Pow32(level) + 1
    requires nextBegin == begin + Pow32(level) * i
    requires c0 <= it.Count() <= |it.all|
    requires i == 0 ==> it.Count() == c0 && (oldNode.None? || oldRootLevel < level)
    requires Filled(next[..i], oldNode, level, end - begin + 1, it.all[c0..it.Count()])
    requires c0 + (end - begin + 1) - |FlattenOpt(oldNode)| <= |it.all|
    modifies next, it
    ensures it.Valid() && c0 <= it.Count() <= |it.all|
    ensures Filled(next[..i + 1], oldNode, level, end - begin + 1, it.all[c0..it.Count()])
    decreases level, 2
  {
    ghost var before := next[..i];
    var c := NextChild(i, before, nextBegin, oldNode, oldRootLevel, level, begin, end, c0, it);
    next[i] := c;
    assert next[..i + 1] == before + [c];
  }

  /** The child that turn builds after the children `kids`, i of them, so that the
      children with it are filled further. */
  method NextChild<T>(i: nat, ghost kids: seq<Node<T>>, nextBegin: nat, oldNode: Option<Node<T>>, oldRootLevel: int,
                      level: nat, begin: nat, end: nat, ghost c0: nat, it: EndIterator<T>)
    returns (c: Node<T>)
    requires it.Valid() && RangeReady(level, begin, end) && OldFits(oldNode, oldRootLevel, level, end - begin + 1)
    requires level >= 1 && i == |kids| < (end - begin) / Pow32(level) + 1
    requires nextBegin == begin + Pow32(level) * i
    requires c0 <= it.Count() <= |it.all|
    requires i == 0 ==> it.Count() == c0 && (oldNode.None? || oldRootLevel < level)
    requires Filled(kids, oldNode, level, end - begin + 1, it.all[c0..it.Count()])
    requires c0 + (end - begin + 1) - |FlattenOpt(oldNode)| <= |it.all|
    modifies it
    ensures it.Valid() && c0 <= it.Count() <= |it.all|
    ensures Filled(kids + [c], oldNode, level, end - begin + 1, it.all[c0..it.Count()])
    decreases level, 1
  {
    ghost var c1 := it.Count();
    c := BuildChild(i, kids, nextBegin, oldNode, oldRootLevel, level, begin, end, c0, it);
    ChildFilled(kids, c, oldNode, level, end - begin + 1, it.all, c0, c1, it.Count());
  }

  /** `concatTrie` over the i-th share of the range, after i children: the old node
      (first child only) and then the elements drawn. */
  method BuildChild<T>(i: nat, ghost kids: seq<Node<T>>, nextBegin: nat, oldNode: Option<Node<T>>, oldRootLevel: int,
                       level: nat, begin: nat, end: nat, ghost c0: nat, it: EndIterator<T>)
    returns (c: Node<T>)
    requires it.Valid() && RangeReady(level, begin, end) && OldFits(oldNode, oldRootLevel, level, end - begin + 1)
    requires level >= 1 && i == |kids| < (end - begin) / Pow32(level) + 1
    requires nextBegin == begin + Pow32(level) * i
    requires c0 <= it.Count() <= |it.all|
    requires i == 0 ==> it.Count() == c0 && (oldNode.None? || oldRootLevel < level)
    requires Filled(kids, oldNode, level, end - begin + 1, it.all[c0..it.Count()])
    requires c0 + (end - begin + 1) - |FlattenOpt(oldNode)| <= |it.all|
    modifies it
    ensures it.Valid() && old(it.Count()) <= it.Count() <= |it.all|
    ensures Packed(c, level - 1) && |Flatten(c)| == Min(end - begin + 1 - |kids| * Pow32(level), Pow32(level))
    ensures Flatten(c) == FlattenOpt(if kids == [] then oldNode else None) + it.all[old(it.Count())..it.Count()]
    decreases level, 0
  {
    var width := end - begin + 1;
    var nextEnd := Min(end, nextBegin + Pow32(level) - 1);
    ChildReady(level, begin, end, i, nextBegin, nextEnd);
    var sub := if i == 0 then oldNode else None;
    if i == 0 {
      OldAtFirstChild(oldNode, oldRootLevel, level, width);
    } else {
      LaterChildCount(kids, oldNode, level, width, it.all[c0..it.Count()]);
    }
    c := ConcatTrie(sub, oldRootLevel, level - 1, nextBegin, nextEnd, it);
  }

  /** The i-th child's range satisfies `concatTrie`'s expectations. */
  lemma ChildReady(level: nat, begin: nat, end: nat, i: nat, nextBegin: nat, nextEnd: int)
    requires RangeReady(level, begin, end) && level >= 1
    requires i < (end - begin) / Pow32(level) + 1
    requires nextBegin == begin + Pow32(level) * i
    requires nextEnd == Min(end, nextBegin + Pow32(level) - 1)
    ensures nextBegin <= nextEnd
    ensures nextEnd - nextBegin + 1 == Min(end - begin + 1 - i * Pow32(level), Pow32(level))
    ensures RangeReady(level - 1, nextBegin, nextEnd)
  {
    Pow32Step(level);
    ChildRange(begin, end, Pow32(level), i, nextBegin, nextEnd);
    RangeBelow(level, nextBegin, nextEnd);
  }

  /** A range of whole leaf blocks no wider than 32^level fits under a node one level down. */
  lemma RangeBelow(level: nat, begin: nat, end: int)
    requires level >= 1 && begin <= end && (end - begin + 1) % BLOCK_SIZE == 0 && end - begin + 1 <= Pow32(level)
    ensures RangeReady(level - 1, begin, end)
  {
    assert Pow32(level - 1 + 1) == Pow32(level);
  }

  /** Above the old root, the old node fits in the first child's share of the range. */
  lemma OldAtFirstChild<T>(oldNode: Option<Node<T>>, oldRootLevel: int, level: nat, width: nat)
    requires level >= 1 && (oldNode.None? || oldRootLevel < level) && OldFits(oldNode, oldRootLevel, level, width)
    ensures OldFits(oldNode, oldRootLevel, level - 1, Min(width, Pow32(level)))
  {
    if oldNode.Some? {
      var o := oldNode.value;
      assert Min(level, oldRootLevel) == oldRootLevel == Min(level - 1, oldRootLevel);
      PackedSize(o, oldRootLevel);
      Pow32Monotone(oldRootLevel + 1, level);
    }
  }

  /** After the first child, drawing the next share leaves enough for the rest. */
  lemma LaterChildCount<T>(kids: seq<Node<T>>, oldNode: Option<Node<T>>, level: nat, width: nat, drawn: seq<T>)
    requires level >= 1 && 1 <= width && 1 <= |kids| < (width - 1) / Pow32(level) + 1
    requires Filled(kids, oldNode, level, width, drawn)
    ensures |drawn| + Min(width - |kids| * Pow32(level), Pow32(level)) <= width - |FlattenOpt(oldNode)|
  {
    var step := Pow32(level);
    ChildStep(width, step, |kids|, (width - 1) / step + 1);
  }

  /** The arithmetic of one child's range: [nextBegin, nextEnd] is the i-th step of the
      range, a non-empty whole number of leaf blocks. */
  lemma ChildRange(begin: int, end: int, step: int, i: int, nextBegin: int, nextEnd: int)
    requires begin <= end && (end - begin + 1) % BLOCK_SIZE == 0 && step >= 1 && step % 32 == 0
    requires 0 <= i < (end - begin) / step + 1
    requires nextBegin == begin + step * i && nextEnd == Min(end, nextBegin + step - 1)
    ensures nextBegin <= nextEnd
    ensures nextEnd - nextBegin + 1 == Min(end - begin + 1 - i * step, step) <= step
    ensures (nextEnd - nextBegin + 1) % BLOCK_SIZE == 0
  {
    var width := end - begin + 1;
    var off := i * step;
    ChildStep(width, step, i, (end - begin) / step + 1);
    assert step * i == off;
    MulMod32(step, i);
    Mod32Sub(width, off);
  }

  lemma Mod32Sub(a: int, b: int)
    requires a % 32 == 0 && b % 32 == 0
    ensures (a - b) % 32 == 0
  {
    assert a == 32 * (a / 32) && b == 32 * (b / 32);
    assert a - b == 32 * (a / 32 - b / 32);
  }

  /** One more child: the filled prefix grows by one share of the range, and the child
      before it, not being the last, is full. */
  lemma ChildFilled<T>(kids: seq<Node<T>>, c: Node<T>, oldNode: Option<Node<T>>, level: nat, width: nat,
                       all: seq<T>, c0: nat, c1: nat, c2: nat)
    requires level >= 1 && c0 <= c1 <= c2 <= |all|
    requires kids == [] ==> c1 == c0
    requires 1 <= width && |kids| < (width - 1) / Pow32(level) + 1
    requires Filled(kids, oldNode, level, width, all[c0..c1])
    requires Packed(c, level - 1) && |Flatten(c)| == Min(width - |kids| * Pow32(level), Pow32(level))
    requires Flatten(c) == FlattenOpt(if kids == [] then oldNode else None) + all[c1..c2]
    ensures Filled(kids + [c], oldNode, level, width, all[c0..c2])
  {
    var built := kids + [c];
    var step := Pow32(level);
    var i := |kids|;
    ChildStep(width, step, i, (width - 1) / step + 1);
    assert built[..i] == kids;
    assert FlattenAll(built) == FlattenAll(kids) + Flatten(c);
    if kids != [] {
      assert all[c0..c2] == all[c0..c1] + all[c1..c2];
      ConcatAssoc(FlattenOpt(oldNode), all[c0..c1], all[c1..c2]);
      LastIsFull(kids, level, i * step);
    } else {
      assert FlattenAll(kids) == [];
    }
    forall k | 0 <= k < |built| - 1
      ensures Full(built[k], level - 1)
    {
      assert built[k] == kids[k];
    }
  }

  /** Children all full but the last, holding i whole steps together: the last is full too. */
  lemma LastIsFull<T>(kids: seq<Node<T>>, level: nat, total: nat)
    requires level >= 1 && kids != [] && total == |kids| * Pow32(level)
    requires forall k :: 0 <= k < |kids| - 1 ==> Full(kids[k], level - 1)
    requires Packed(kids[|kids| - 1], level - 1) && |FlattenAll(kids)| == total
    ensures Full(kids[|kids| - 1], level - 1)
  {
    var n := |kids|;
    var step := Pow32(level);
    FlattenAllUniform(kids, n - 1, step);
    MulSplit(n, step);
    assert FlattenAll(kids) == FlattenAll(kids[..n - 1]) + Flatten(kids[n - 1]);
  }

  /** A completely filled node is packed and holds the whole range. */
  lemma FilledPacked<T>(kids: seq<Node<T>>, oldNode: Option<Node<T>>, level: nat, width: nat, drawn: seq<T>)
    requires 1 <= width <= Pow32(level + 1) && width % BLOCK_SIZE == 0
    requires |kids| == (width - 1) / Pow32(level) + 1
    requires Filled(kids, oldNode, level, width, drawn)
    ensures Packed(Branch(kids), level) && |Flatten(Branch(kids))| == width
    ensures Flatten(Branch(kids)) == FlattenOpt(oldNode) + drawn
    ensures |drawn| == width - |FlattenOpt(oldNode)|
  {
    var step := Pow32(level);
    assert Pow32(level + 1) == BLOCK_SIZE * step;
    NextSizeValue(width, step);
    ChildStep(width, step, |kids| - 1, |kids|);
  }

  /** `appendAll(values)`: the values after the array's elements. With no values the
      array itself is returned; when the root size does not change only the tail grows;
      otherwise the trie is rebuilt by `concatTrie` and a fresh tail is drawn. */
  method AppendAll<T>(a: TrieArray<T>, values: seq<T>) returns (r: TrieArray<T>)
    requires Valid(a) && a.size + |values| <= MAX_SIZE
    ensures Valid(r) && r.size == a.size + |values|
    ensures Elements(r) == Elements(a) + values
    ensures values == [] ==> r == a
  {
    if |values| == 0 {
      assert Elements(a) + values == Elements(a);
      return a;
    }
    var oldRootSize := RootSize(a.size);
    var newSize := a.size + |values|;
    var newRootSize := RootSize(newSize);
    if newRootSize == oldRootSize {
      r := ExtendEnd(a, values);
    } else {
      r := ExtendTrie(a, values);
    }
  }

  /** The shortcut of `appendAll` when the root size does not change: only the tail
      grows. */
  method ExtendEnd<T>(a: TrieArray<T>, values: seq<T>) returns (r: TrieArray<T>)
    requires Valid(a) && values != [] && a.size + |values| <= MAX_SIZE
    requires RootSize(a.size + |values|) == RootSize(a.size)
    ensures Valid(r) && r.size == a.size + |values|
    ensures Elements(r) == Elements(a) + values
  {
    var oldEndSize := a.size - RootSize(a.size);
    var newSize := a.size + |values|;
    var newEnd := FillEnd(a.end, oldEndSize, values, newSize - RootSize(newSize));
    r := TrieArray(a.root, Some(newEnd), newSize);
    EndResult(a, values, r);
  }

  /** The new tail of that shortcut: the first value when the tail holds one element;
      otherwise a fresh block with the old tail's elements (`System.arraycopy`, or the
      element itself) followed by the values. */
  method FillEnd<T>(end: Option<Node<T>>, oldEndSize: nat, values: seq<T>, newEndSize: nat) returns (newEnd: Node<T>)
    requires TailShaped(end, oldEndSize) && values != [] && newEndSize == oldEndSize + |values|
    ensures TailShaped(Some(newEnd), newEndSize)
    ensures Flatten(newEnd) == FlattenOpt(end) + values
  {
    TailSize(end, oldEndSize);
    if newEndSize == 1 {
      newEnd := Elem(values[0]);
      assert values == [values[0]];
    } else {
      var block := new Node<T>[newEndSize];
      if oldEndSize == 1 {
        block[0] := end.value;
        assert block[..1] == [end.value];
      } else if 1 < oldEndSize {
        forall k | 0 <= k < oldEndSize {
          block[k] := end.value.kids[k];
        }
        assert block[..oldEndSize] == end.value.kids;
      } else {
        assert block[..0] == [];
      }
      FillBlock(block, oldEndSize, values, FlattenOpt(end));
      newEnd := Branch(block[..]);
    }
  }

  /** The loop of that shortcut: the values, one element slot each, after the first
      `from` slots of the block. */
  method FillBlock<T>(block: array<Node<T>>, from: nat, values: seq<T>, ghost prefix: seq<T>)
    requires from + |values| == block.Length
    requires ElemsOnly(block[..from]) && FlattenAll(block[..from]) == prefix
    modifies block
    ensures ElemsOnly(block[..]) && FlattenAll(block[..]) == prefix + values
  {
    assert values[..0] == [];
    var i := from;
    while i < block.Length
      invariant from <= i <= block.Length
      invariant ElemsOnly(block[..i])
      invariant FlattenAll(block[..i]) == prefix + values[..i - from]
    {
      ghost var before := block[..i];
      var x := values[i - from];
      block[i] := Elem(x);
      assert block[..i + 1] == before + [Elem(x)];
      SnocElem(before, x);
      assert values[..i + 1 - from] == values[..i - from] + [x];
      ConcatAssoc(prefix, values[..i - from], [x]);
      i := i + 1;
    }
    assert block[..] == block[..i];
    assert values[..i - from] == values;
  }

  /** The array the shortcut returns: the same root, the grown tail. */
  lemma EndResult<T>(a: TrieArray<T>, values: seq<T>, r: TrieArray<T>)
    requires Valid(a) && r.size == a.size + |values| <= MAX_SIZE
    requires RootSize(r.size) == RootSize(a.size) && r.root == a.root
    requires TailShaped(r.end, r.size - RootSize(r.size))
    requires FlattenOpt(r.end) == FlattenOpt(a.end) + values
    ensures Valid(r) && Elements(r) == Elements(a) + values
  {
    HeightOfRootSize(a.size, r.size);
    ConcatAssoc(FlattenOpt(a.root), FlattenOpt(a.end), values);
  }

  /** Appending one element slot to a run of element slots. */
  lemma SnocElem<T>(kids: seq<Node<T>>, x: T)
    requires ElemsOnly(kids)
    ensures ElemsOnly(kids + [Elem(x)])
    ensures FlattenAll(kids + [Elem(x)]) == FlattenAll(kids) + [x]
  {
    var built := kids + [Elem(x)];
    assert built[..|kids|] == kids;
    forall k | 0 <= k < |built|
      ensures built[k].Elem?
    {
      if k < |kids| { assert built[k] == kids[k]; }
    }
  }

  /** The general case of `appendAll`: the trie is rebuilt over the new root size. */
  method ExtendTrie<T>(a: TrieArray<T>, values: seq<T>) returns (r: TrieArray<T>)
    requires Valid(a) && a.size + |values| <= MAX_SIZE
    requires RootSize(a.size + |values|) != RootSize(a.size)
    ensures Valid(r) && r.size == a.size + |values|
    ensures Elements(r) == Elements(a) + values
  {
    var oldEndSize := a.size - RootSize(a.size);
    var newSize := a.size + |values|;
    var newRootSize := RootSize(newSize);
    TrieReady(a, values, newSize);
    var newRoot, newEnd := BuildTrie(a.root, a.end, oldEndSize, values, Height(a.size) - 1, Height(newSize) - 1,
                                     newRootSize, newSize - newRootSize);
    TrieResult(a, values, newSize, newRoot, newEnd);
    r := TrieArray(Some(newRoot), Some(newEnd), newSize);
  }

  /** The iterator over the old tail and the values; `concatTrie` from the old root over
      [0, newRootSize - 1]; then the rest of the iterator as the new tail (the element
      itself when there is one). */
  method BuildTrie<T>(root: Option<Node<T>>, end: Option<Node<T>>, oldEndSize: nat, values: seq<T>,
                      oldLevel: int, newLevel: nat, newRootSize: nat, newEndSize: nat)
    returns (newRoot: Node<T>, newEnd: Node<T>)
    requires TailShaped(end, oldEndSize)
    requires newRootSize >= 1 && ConcatReady(root, oldLevel, newLevel, 0, newRootSize - 1)
    requires newEndSize >= 1 && |FlattenOpt(end) + values| == newRootSize - |FlattenOpt(root)| + newEndSize
    ensures Packed(newRoot, newLevel) && |Flatten(newRoot)| == newRootSize
    ensures 0 <= newRootSize - |FlattenOpt(root)| <= |FlattenOpt(end) + values|
    ensures Flatten(newRoot) == FlattenOpt(root) + (FlattenOpt(end) + values)[..newRootSize - |FlattenOpt(root)|]
    ensures TailShaped(Some(newEnd), newEndSize)
    ensures Flatten(newEnd) == (FlattenOpt(end) + values)[newRootSize - |FlattenOpt(root)|..]
  {
    var it := new EndIterator(end, oldEndSize, values);
    ghost var k := newRootSize - |FlattenOpt(root)|;
    newRoot := ConcatTrie(root, oldLevel, newLevel, 0, newRootSize - 1, it);
    newEnd := DrawEnd(it, newEndSize);
    assert it.all[k..] == it.all[k..k + newEndSize];
  }

  /** The new tail drawn from the iterator: its next element when the tail holds one,
      otherwise a fresh block of the next `n`. */
  method DrawEnd<T>(it: EndIterator<T>, n: nat) returns (newEnd: Node<T>)
    requires it.Valid() && n >= 1 && it.Count() + n <= |it.all|
    modifies it
    ensures it.Valid() && it.Count() == old(it.Count()) + n
    ensures TailShaped(Some(newEnd), n) && Flatten(newEnd) == it.all[old(it.Count())..it.Count()]
  {
    ghost var c0 := it.Count();
    if n == 1 {
      var x := it.Next();
      newEnd := Elem(x);
      assert it.all[c0..c0 + 1] == [x];
    } else {
      var block := new Node<T>[n];
      DrawBlock(it, block);
      newEnd := Branch(block[..]);
    }
  }

  /** The loop of `appendAll` filling the new tail block: one drawn element per slot. */
  method DrawBlock<T>(it: EndIterator<T>, block: array<Node<T>>)
    requires it.Valid() && it.Count() + block.Length <= |it.all|
    modifies it, block
    ensures it.Valid() && it.Count() == old(it.Count()) + block.Length
    ensures ElemsOnly(block[..]) && FlattenAll(block[..]) == it.all[old(it.Count())..it.Count()]
  {
    ghost var c0 := it.Count();
    assert it.all[c0..c0] == [] && block[..0] == [];
    var i := 0;
    while i < block.Length
      invariant 0 <= i <= block.Length
      invariant it.Valid() && it.Count() == c0 + i
      invariant ElemsOnly(block[..i]) && FlattenAll(block[..i]) == it.all[c0..c0 + i]
    {
      DrawSlot(it, block, i, c0);
      i := i + 1;
    }
    assert block[..] == block[..i];
  }

  /** One step of that loop: the next element drawn into slot `i`. */
  method DrawSlot<T>(it: EndIterator<T>, block: array<Node<T>>, i: nat, ghost c0: nat)
    requires i < block.Length && it.Valid() && it.Count() == c0 + i && c0 + block.Length <= |it.all|
    requires ElemsOnly(block[..i]) && FlattenAll(block[..i]) == it.all[c0..c0 + i]
    modifies it, block
    ensures it.Valid() && it.Count() == c0 + i + 1
    ensures ElemsOnly(block[..i + 1]) && FlattenAll(block[..i + 1]) == it.all[c0..c0 + i + 1]
  {
    ghost var before := block[..i];
    var x := it.Next();
    block[i] := Elem(x);
    assert block[..i + 1] == before + [Elem(x)];
    SnocElem(before, x);
    assert it.all[c0..c0 + i + 1] == it.all[c0..c0 + i] + [x];
  }

  /** `concatTrie`'s arguments in `appendAll` meet its expectations: the old root at its
      own level, the range [0, newRootSize - 1] at the new root's level, and enough
      elements in the iterator. */
  lemma TrieReady<T>(a: TrieArray<T>, values: seq<T>, newSize: nat)
    requires Valid(a) && newSize == a.size + |values| <= MAX_SIZE
    requires RootSize(newSize) != RootSize(a.size)
    ensures TailShaped(a.end, a.size - RootSize(a.size))
    ensures RootSize(newSize) >= 1 && Height(newSize) >= 1
    ensures ConcatReady(a.root, Height(a.size) - 1, Height(newSize) - 1, 0, RootSize(newSize) - 1)
    ensures newSize - RootSize(newSize) >= 1
    ensures |FlattenOpt(a.end) + values| == RootSize(newSize) - |FlattenOpt(a.root)| + (newSize - RootSize(newSize))
  {
    ElementsSize(a);
    RootSizeMonotone(a.size, newSize);
    HeightMonotone(a.size, newSize);
    if a.root.Some? {
      assert Min(Height(newSize) - 1, Height(a.size) - 1) == Height(a.size) - 1;
    }
  }

  /** The array `appendAll` returns in that case: the rebuilt root holds the old root's
      elements and the first drawn ones, the new tail the rest. */
  lemma TrieResult<T>(a: TrieArray<T>, values: seq<T>, newSize: nat, newRoot: Node<T>, newEnd: Node<T>)
    requires newSize <= MAX_SIZE && RootSize(newSize) >= 1
    requires Packed(newRoot, Height(newSize) - 1) && |Flatten(newRoot)| == RootSize(newSize)
    requires 0 <= RootSize(newSize) - |FlattenOpt(a.root)| <= |FlattenOpt(a.end) + values|
    requires Flatten(newRoot) == FlattenOpt(a.root) + (FlattenOpt(a.end) + values)[..RootSize(newSize) - |FlattenOpt(a.root)|]
    requires TailShaped(Some(newEnd), newSize - RootSize(newSize))
    requires Flatten(newEnd) == (FlattenOpt(a.end) + values)[RootSize(newSize) - |FlattenOpt(a.root)|..]
    ensures Valid(TrieArray(Some(newRoot), Some(newEnd), newSize))
    ensures Elements(TrieArray(Some(newRoot), Some(newEnd), newSize)) == Elements(a) + values
  {
    var k := RootSize(newSize) - |FlattenOpt(a.root)|;
    SplitJoin(FlattenOpt(a.root), FlattenOpt(a.end), values, k);
  }

  /** Cutting `x + v` anywhere and putting the pieces after `p` gives `p + x + v`. */
  lemma SplitJoin<X>(p: seq<X>, x: seq<X>, v: seq<X>, k: nat)
    requires k <= |x + v|
    ensures (p + (x + v)[..k]) + (x + v)[k..] == (p + x) + v
  {
    var all := x + v;
    assert all[..k] + all[k..] == all;
  }

  /** `of(values...)` and `new TrieArray(collection)`: the empty array with the values
      appended. */
  method Of<T>(values: seq<T>) returns (r: TrieArray<T>)
    requires |values| <= MAX_SIZE
    ensures Valid(r) && r.size == |values| && Elements(r) == values
  {
    r := AppendAll(Empty(), values);
  }
}
