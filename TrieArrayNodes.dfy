/** The node shape of the persistent index trie (TrieArray): a 32-way trie of
    `Object[]` blocks whose leaf level holds the elements, read left to right. */
module TrieArrayNodes {
  import opened Arith
  import opened Seqs

  /** Bits of index consumed per trie level. */
  const NBITS: nat := 5
  /** Children per node, and elements per leaf block. */
  const BLOCK_SIZE: nat := 32
  /** Largest array size modelled: beyond it `BLOCK_SIZE << (NBITS * level)` overflows a Java int. */
  const MAX_SIZE: nat := 0x4000_0000

  /** A trie slot: an element at the leaf level, or an `Object[]` of children. */
  datatype Node<T> = Elem(value: T) | Branch(kids: seq<Node<T>>)

  /** The elements under a node, left to right. */
  function Flatten<T>(t: Node<T>): seq<T>
    decreases t
  {
    match t
    case Elem(v) => [v]
    case Branch(kids) => FlattenAll(kids)
  }

  function FlattenAll<T>(ts: seq<Node<T>>): seq<T>
    decreases ts
  {
    if ts == [] then [] else FlattenAll(ts[..|ts| - 1]) + Flatten(ts[|ts| - 1])
  }

  /** Java's `(i >>> (NBITS * level)) & MASK` for a non-negative int i: shift right by
      five bits `level` times, then keep the low five bits. */
  function Digit(i: nat, level: nat): (r: nat)
    ensures r < BLOCK_SIZE
    decreases level
  {
    if level == 0 then i % BLOCK_SIZE else Digit(i / BLOCK_SIZE, level - 1)
  }

  /** The digit is the quotient by 32^level, modulo 32. */
  lemma {:induction false} DigitValue(i: nat, level: nat)
    ensures Digit(i, level) == (i / Pow32(level)) % 32
    decreases level
  {
    if level > 0 {
      DigitValue(i / 32, level - 1);
      DivDiv(i, 32, Pow32(level - 1));
    }
  }

  /** i % 32^(level + 1), the offset of i in its level-`level` node, digit by digit: the
      low five bits, then the offset of i / 32 one level down shifted on by five bits. */
  ghost function Low(i: nat, level: nat): nat
    decreases level
  {
    if level == 0 then i % BLOCK_SIZE else Low(i / BLOCK_SIZE, level - 1) * BLOCK_SIZE + i % BLOCK_SIZE
  }

  lemma {:induction false} LowIsMod(i: nat, level: nat)
    ensures Low(i, level) == i % Pow32(level + 1)
    decreases level
  {
    if level > 0 {
      LowIsMod(i / 32, level - 1);
      var p := Pow32(level);
      assert Pow32(level + 1) == 32 * p;
      var q, r := (i / 32) / p, (i / 32) % p;
      assert i / 32 == q * p + r;
      assert i == q * (32 * p) + (r * 32 + i % 32);
      DivModUnique(i, 32 * p, q, r * 32 + i % 32);
    }
  }

  /** The same at the level below, named by the level above. */
  lemma LowIsModBelow(i: nat, level: nat)
    requires level >= 1
    ensures Low(i, level - 1) == i % Pow32(level)
  {
    LowIsMod(i, level - 1);
  }

  lemma {:induction false} LowAtMost(i: nat, level: nat)
    ensures Low(i, level) <= i
    decreases level
  {
    if level > 0 {
      LowAtMost(i / 32, level - 1);
    }
  }

  /** A child slot, or an element slot at level 0, of a node whose shape is being checked. */
  ghost predicate ElemsOnly<T>(kids: seq<Node<T>>)
  {
    forall k :: 0 <= k < |kids| ==> kids[k].Elem?
  }

  /** A node at `level` (0 = the level whose children are elements) that is left-packed:
      1..32 children, every child but the last full, the last one packed; leaf blocks
      always hold exactly 32 elements. */
  ghost predicate Packed<T>(t: Node<T>, level: nat)
    decreases level, 0
  {
    && t.Branch?
    && 1 <= |t.kids| <= BLOCK_SIZE
    && if level == 0 then
         |t.kids| == BLOCK_SIZE && ElemsOnly(t.kids)
       else
         && (forall k :: 0 <= k < |t.kids| - 1 ==> Full(t.kids[k], level - 1))
         && Packed(t.kids[|t.kids| - 1], level - 1)
  }

  /** A packed node holding all 32^(level + 1) elements it has room for. */
  ghost predicate Full<T>(t: Node<T>, level: nat)
    decreases level, 1
  {
    Packed(t, level) && |Flatten(t)| == Pow32(level + 1)
  }

  lemma {:induction false} FlattenAllConcat<T>(a: seq<Node<T>>, b: seq<Node<T>>)
    ensures FlattenAll(a + b) == FlattenAll(a) + FlattenAll(b)
    decreases |b|
  {
    if b == [] {
      assert a + b == a;
    } else {
      var b' := b[..|b| - 1];
      assert (a + b)[..|a + b| - 1] == a + b';
      assert (a + b)[|a + b| - 1] == b[|b| - 1];
      FlattenAllConcat(a, b');
    }
  }

  lemma FlattenAllSplit<T>(ts: seq<Node<T>>, d: nat)
    requires d < |ts|
    ensures FlattenAll(ts) == FlattenAll(ts[..d]) + Flatten(ts[d]) + FlattenAll(ts[d + 1..])
  {
    var left, post := ts[..d + 1], ts[d + 1..];
    assert ts == left + post;
    FlattenAllConcat(left, post);
    assert left[..|left| - 1] == ts[..d] && left[|left| - 1] == ts[d];
    assert FlattenAll(left) == FlattenAll(ts[..d]) + Flatten(ts[d]);
  }

  lemma {:induction false} FlattenAllElems<T>(ts: seq<Node<T>>)
    requires ElemsOnly(ts)
    ensures |FlattenAll(ts)| == |ts|
    ensures forall k :: 0 <= k < |ts| ==> FlattenAll(ts)[k] == ts[k].value
  {
    if ts != [] {
      FlattenAllElems(ts[..|ts| - 1]);
    }
  }

  /** The children before `d` all hold `p` elements, so together they hold d * p. */
  lemma {:induction false} FlattenAllUniform<T>(ts: seq<Node<T>>, d: nat, p: nat)
    requires d <= |ts|
    requires forall k :: 0 <= k < d ==> |Flatten(ts[k])| == p
    ensures |FlattenAll(ts[..d])| == d * p
  {
    if d > 0 {
      FlattenAllUniform(ts, d - 1, p);
      assert ts[..d][..d - 1] == ts[..d - 1];
    }
  }

  /** How many elements a packed node holds, in terms of its number of children. */
  lemma {:induction false} PackedSize<T>(t: Node<T>, level: nat)
    requires Packed(t, level)
    ensures var c := |Flatten(t)|;
      && c % BLOCK_SIZE == 0
      && 32 <= c <= Pow32(level + 1)
      && (|t.kids| - 1) * Pow32(level) < c <= |t.kids| * Pow32(level)
      && |FlattenAll(t.kids[..|t.kids| - 1])| == (|t.kids| - 1) * Pow32(level)
    decreases level
  {
    var kids := t.kids;
    var n := |kids|;
    var p := Pow32(level);
    assert Pow32(level + 1) == 32 * p;
    FlattenAllUniform(kids, n - 1, p);
    assert kids[..n] == kids;
    if level == 0 {
      FlattenAllElems(kids);
    } else {
      PackedSize(kids[n - 1], level - 1);
      var q := Pow32(level - 1);
      assert p == 32 * q;
      var before := (n - 1) * p;
      var lastSize := |Flatten(kids[n - 1])|;
      assert |Flatten(t)| == before + lastSize;
      MulSplit(n, p);
      MulMonotone(n, 32, p);
      MulAssoc32(n - 1, q);
      Mod32Add(before, lastSize);
    }
  }

  /** How many elements a packed node holds, as bounds alone. */
  lemma PackedBound<T>(t: Node<T>, level: nat)
    requires Packed(t, level)
    ensures |Flatten(t)| % BLOCK_SIZE == 0 && 32 <= |Flatten(t)| <= Pow32(level + 1)
  {
    PackedSize(t, level);
  }

  /** A packed node above the leaves: its full children hold (|kids| - 1) * 32^level
      elements, and its last child, packed one level down, holds the rest. */
  lemma LastChildSize<T>(t: Node<T>, level: nat)
    requires Packed(t, level) && level >= 1
    ensures Packed(t.kids[|t.kids| - 1], level - 1)
    ensures |Flatten(t)| == (|t.kids| - 1) * Pow32(level) + |Flatten(t.kids[|t.kids| - 1])|
    ensures (|t.kids| - 1) * Pow32(level) < |Flatten(t)|
  {
    PackedSize(t, level);
    var n := |t.kids|;
    assert Flatten(t) == FlattenAll(t.kids[..n - 1]) + Flatten(t.kids[n - 1]);
  }

  lemma MulSplit(n: int, p: int)
    ensures (n - 1) * p + p == n * p
  {
  }

  lemma MulAssoc32(a: int, q: int)
    ensures (a * (32 * q)) % 32 == 0
  {
    assert a * (32 * q) == 32 * (a * q);
  }

  lemma Mod32Add(a: int, b: int)
    requires a % 32 == 0 && b % 32 == 0
    ensures (a + b) % 32 == 0
  {
    assert a == 32 * (a / 32) && b == 32 * (b / 32);
    assert a + b == 32 * (a / 32 + b / 32);
  }

  /** Routing one level down: the digit of `i` at `level` picks the child that holds the
      element at offset `i % 32^(level + 1)` of this node, at that child's own offset. */
  lemma ChildAt<T>(t: Node<T>, level: nat, i: nat)
    requires Packed(t, level)
    requires i % Pow32(level + 1) < |Flatten(t)|
    ensures var x, d, s := i % Pow32(level + 1), Digit(i, level), i % Pow32(level);
      && d < |t.kids|
      && s <= x
      && |FlattenAll(t.kids[..d])| == x - s
      && (level == 0 ==> t.kids[d] == Elem(Flatten(t)[x]))
      && (level > 0 ==>
            && Packed(t.kids[d], level - 1)
            && s < |Flatten(t.kids[d])|
            && x - s + |Flatten(t.kids[d])| <= |Flatten(t)|
            && Flatten(t.kids[d]) == Flatten(t)[x - s .. x - s + |Flatten(t.kids[d])|])
  {
    ChildIndex(t, level, i);
    if level == 0 {
      ChildAtLeaf(t, i);
    } else {
      ChildAtBranch(t, level, i);
    }
  }

  /** ChildAt above the leaves, with the offsets written as Low. */
  lemma ChildAtLow<T>(t: Node<T>, level: nat, i: nat)
    requires Packed(t, level) && level > 0
    requires Low(i, level) < |Flatten(t)|
    ensures var x, d, s := Low(i, level), Digit(i, level), Low(i, level - 1);
      && d < |t.kids|
      && s <= x
      && Packed(t.kids[d], level - 1)
      && s < |Flatten(t.kids[d])|
      && x - s + |Flatten(t.kids[d])| <= |Flatten(t)|
      && Flatten(t.kids[d]) == Flatten(t)[x - s .. x - s + |Flatten(t.kids[d])|]
  {
    LowIsMod(i, level);
    LowIsModBelow(i, level);
    ChildAt(t, level, i);
  }

  /** Routing in a leaf block: the digit is the offset, and the slot there holds the
      element at that offset. */
  lemma ChildAtLeaf<T>(t: Node<T>, i: nat)
    requires Packed(t, 0)
    requires i % Pow32(1) < |Flatten(t)|
    ensures var x, d := i % Pow32(1), Digit(i, 0);
      && d < |t.kids| && |FlattenAll(t.kids[..d])| == x && t.kids[d] == Elem(Flatten(t)[x])
  {
    ChildIndex(t, 0, i);
    FlattenAllElems(t.kids);
    FlattenAllUniform(t.kids, Digit(i, 0), 1);
  }

  /** The arithmetic half of routing: the digit is a child index, and the offset splits
      into whole children before it plus the offset inside it. */
  lemma ChildIndex<T>(t: Node<T>, level: nat, i: nat)
    requires Packed(t, level)
    requires i % Pow32(level + 1) < |Flatten(t)|
    ensures var x, d, s := i % Pow32(level + 1), Digit(i, level), i % Pow32(level);
      && d < |t.kids| && x == d * Pow32(level) + s && s < Pow32(level)
  {
    var p := Pow32(level);
    assert Pow32(level + 1) == 32 * p;
    PackedSize(t, level);
    DigitValue(i, level);
    DigitSplit(i, p, |t.kids|, |Flatten(t)|);
  }

  lemma ChildAtBranch<T>(t: Node<T>, level: nat, i: nat)
    requires Packed(t, level) && level > 0
    requires i % Pow32(level + 1) < |Flatten(t)|
    requires var x, d, s := i % Pow32(level + 1), Digit(i, level), i % Pow32(level);
      d < |t.kids| && x == d * Pow32(level) + s && s < Pow32(level)
    ensures var x, d, s := i % Pow32(level + 1), Digit(i, level), i % Pow32(level);
      && |FlattenAll(t.kids[..d])| == x - s
      && Packed(t.kids[d], level - 1)
      && s < |Flatten(t.kids[d])|
      && x - s + |Flatten(t.kids[d])| <= |Flatten(t)|
      && Flatten(t.kids[d]) == Flatten(t)[x - s .. x - s + |Flatten(t.kids[d])|]
  {
    var kids := t.kids;
    var n := |kids|;
    var p := Pow32(level);
    var d := Digit(i, level);
    FlattenAllUniform(kids, d, p);
    FlattenAllSplit(kids, d);
    if d == n - 1 {
      assert kids[..n] == kids;
      assert |Flatten(t)| == d * p + |Flatten(kids[d])|;
    } else {
      assert Full(kids[d], level - 1);
    }
  }

  /** A node built from full children followed by one packed child is packed. */
  lemma PackedSnoc<T>(full: seq<Node<T>>, c: Node<T>, level: nat)
    requires level >= 1 && |full| < BLOCK_SIZE && Packed(c, level - 1)
    requires forall k :: 0 <= k < |full| ==> Full(full[k], level - 1)
    ensures Packed(Branch(full + [c]), level)
    ensures Flatten(Branch(full + [c])) == FlattenAll(full) + Flatten(c)
  {
    var kids := full + [c];
    assert kids[..|kids| - 1] == full;
    forall k | 0 <= k < |kids| - 1
      ensures Full(kids[k], level - 1)
    {
      assert kids[k] == full[k];
    }
  }

  /** Cutting a packed node after child d, and replacing that child by a packed one,
      gives a packed node. */
  lemma PackedCut<T>(t: Node<T>, level: nat, d: nat, c: Node<T>)
    requires Packed(t, level) && level >= 1 && d < |t.kids| && Packed(c, level - 1)
    ensures Packed(Branch(t.kids[..d] + [c]), level)
    ensures Flatten(Branch(t.kids[..d] + [c])) == FlattenAll(t.kids[..d]) + Flatten(c)
  {
    var full := t.kids[..d];
    forall k | 0 <= k < |full|
      ensures Full(full[k], level - 1)
    {
      assert full[k] == t.kids[k];
    }
    PackedSnoc(full, c, level);
  }

  /** A full node and a packed sibling under a fresh parent one level up. */
  lemma GrowRoot<T>(full: Node<T>, c: Node<T>, level: nat)
    requires level >= 1 && Full(full, level - 1) && Packed(c, level - 1)
    ensures Packed(Branch([full, c]), level)
    ensures Flatten(Branch([full, c])) == Flatten(full) + Flatten(c)
  {
    PackedSnoc([full], c, level);
    assert [full] + [c] == [full, c];
    assert FlattenAll([full]) == Flatten(full) by {
      assert [full][..0] == [];
    }
  }
}
