/** The handle of a persistent index trie (TrieArray): a packed trie `mRoot` holding the
    first `rootSize(size)` elements in full 32-element leaf blocks, and a tail `mEnd`
    holding the last 1..32 elements (the element itself when there is exactly one). */
module TrieArrayShape {
  import opened Wrappers
  import opened Arith
  import opened TrieArrayNodes

  /** `TrieArray(Object[] root, Object end, int size)`; `None` is Java's null. */
  datatype TrieArray<T> = TrieArray(root: Option<Node<T>>, end: Option<Node<T>>, size: nat)

  /** The EMPTY instance. */
  function Empty<T>(): TrieArray<T>
  {
    TrieArray(None, None, 0)
  }

  /** `singleton(value)`: no root, the value itself as the tail. */
  function Singleton<T>(value: T): (r: TrieArray<T>)
    ensures Valid(r) && Elements(r) == [value]
  {
    TrieArray(None, Some(Elem(value)), 1)
  }

  /** How many leading elements live in the trie rather than in the tail. */
  function RootSize(n: nat): (r: nat)
    ensures n <= 1 ==> r == 0
    ensures n >= 1 ==> r % BLOCK_SIZE == 0 && r < n && n - r <= BLOCK_SIZE
  {
    if n <= 1 then 0 else n - (1 + (n - 1) % BLOCK_SIZE)
  }

  /** The number of trie levels needed to address `RootSize(n)` elements with 5-bit digits:
      the least h with RootSize(n) <= 32^h. */
  function Height(n: nat): (h: nat)
    ensures RootSize(n) == 0 <==> h == 0
    ensures RootSize(n) > 0 ==> Pow32(h - 1) < RootSize(n) <= Pow32(h)
    ensures n <= MAX_SIZE ==> h <= 6
  {
    var rs := RootSize(n);
    if rs <= 1 then 0
    else
      HeightBounds(rs);
      HeightAtMost6(rs);
      1 + FloorLog2(rs - 1) / NBITS
  }

  lemma HeightBounds(rs: nat)
    requires rs >= 2
    ensures var h := 1 + FloorLog2(rs - 1) / NBITS; Pow32(h - 1) < rs <= Pow32(h)
  {
    var f := FloorLog2(rs - 1);
    var h := 1 + f / 5;
    Pow32IsPow2(h);
    Pow32IsPow2(h - 1);
    Pow2Monotone(f + 1, 5 * h);
    Pow2Monotone(5 * (h - 1), f);
  }

  lemma HeightAtMost6(rs: nat)
    requires 2 <= rs
    ensures rs < MAX_SIZE ==> 1 + FloorLog2(rs - 1) / NBITS <= 6
  {
    var h := 1 + FloorLog2(rs - 1) / 5;
    HeightBounds(rs);
    assert Pow32(6) == MAX_SIZE;
    if h > 6 && rs < MAX_SIZE { Pow32Monotone(6, h - 1); }
  }

  /** The root size is determined by the tail length: any multiple of 32 leaving 1..32
      elements for the tail is `RootSize(n)`. */
  lemma RootSizeUnique(n: nat, r: nat)
    requires r % BLOCK_SIZE == 0 && 1 <= n - r <= BLOCK_SIZE
    ensures RootSize(n) == r
  {
    if n >= 2 {
      DivModUnique(n - 1, 32, r / 32, n - r - 1);
    }
  }

  /** A full tail moves into the trie: the root size grows by exactly one block. */
  lemma RootSizeNext(n: nat)
    requires n >= 1 && n - RootSize(n) == BLOCK_SIZE
    ensures RootSize(n + 1) == RootSize(n) + BLOCK_SIZE
    ensures RootSize(n + 1) > 0 && n + 1 - RootSize(n + 1) == 1
  {
    var r := RootSize(n);
    Mod32Step(r);
    RootSizeUnique(n + 1, r + 32);
  }

  lemma Mod32Step(r: int)
    requires r % 32 == 0
    ensures (r + 32) % 32 == 0
  {
  }

  lemma RootSizeMonotone(n: nat, m: nat)
    requires n <= m
    ensures RootSize(n) <= RootSize(m)
  {
  }

  /** The height is determined by the root size: the least h with rs <= 32^h. */
  lemma HeightUnique(n: nat, h: nat)
    requires RootSize(n) > 0 && h >= 1 && Pow32(h - 1) < RootSize(n) <= Pow32(h)
    ensures Height(n) == h
  {
    var g := Height(n);
    if g < h { Pow32Monotone(g, h - 1); }
    if g > h { Pow32Monotone(h, g - 1); }
  }

  lemma HeightMonotone(n: nat, m: nat)
    requires n <= m
    ensures Height(n) <= Height(m)
  {
    RootSizeMonotone(n, m);
    var g, h := Height(n), Height(m);
    if g > h && h > 0 { Pow32Monotone(h, g - 1); }
  }

  /** The tail of an array whose tail holds `k` elements: nothing, one element, or a
      block of k element slots. */
  ghost predicate TailShaped<T>(end: Option<Node<T>>, k: nat)
  {
    if k == 0 then end.None?
    else if k == 1 then end.Some? && end.value.Elem?
    else end.Some? && end.value.Branch? && |end.value.kids| == k && ElemsOnly(end.value.kids)
  }

  /** The shape every TrieArray keeps: the trie is null exactly when the root size is 0,
      and otherwise packed at level height - 1 with RootSize(size) elements. */
  ghost predicate Valid<T>(a: TrieArray<T>)
  {
    var rs := RootSize(a.size);
    && a.size <= MAX_SIZE
    && (rs == 0 <==> a.root.None?)
    && (rs > 0 ==> Packed(a.root.value, Height(a.size) - 1) && |Flatten(a.root.value)| == rs)
    && TailShaped(a.end, a.size - rs)
  }

  function FlattenOpt<T>(t: Option<Node<T>>): seq<T>
  {
    if t.None? then [] else Flatten(t.value)
  }

  /** The list the array stands for: the trie's elements, then the tail's. */
  function Elements<T>(a: TrieArray<T>): seq<T>
  {
    FlattenOpt(a.root) + FlattenOpt(a.end)
  }

  lemma TailSize<T>(end: Option<Node<T>>, k: nat)
    requires TailShaped(end, k)
    ensures |FlattenOpt(end)| == k
    ensures k >= 2 ==> forall j :: 0 <= j < k ==> FlattenOpt(end)[j] == end.value.kids[j].value
  {
    if k >= 2 { FlattenAllElems(end.value.kids); }
    else if k == 1 { assert FlattenOpt(end) == [end.value.value]; }
  }

  /** `size()` is the number of elements. */
  lemma ElementsSize<T>(a: TrieArray<T>)
    requires Valid(a)
    ensures |Elements(a)| == a.size
    ensures |FlattenOpt(a.root)| == RootSize(a.size)
  {
    TailSize(a.end, a.size - RootSize(a.size));
  }

  /** `shrinkEnd(end, n)`: keep the first n slots of a block, collapsing a single slot
      to the element itself and reusing the block when nothing is cut. */
  function ShrinkEnd<T>(end: Node<T>, n: nat): (r: Node<T>)
    requires end.Branch? && ElemsOnly(end.kids) && 1 <= n <= |end.kids|
    ensures TailShaped(Some(r), n)
    ensures n <= |Flatten(end)| && Flatten(r) == Flatten(end)[..n]
    ensures 2 <= n == |end.kids| ==> r == end
  {
    FlattenAllElems(end.kids);
    if n == 1 then
      end.kids[0]
    else if n == |end.kids| then
      end
    else
      FlattenAllElems(end.kids[..n]);
      Branch(end.kids[..n])
  }

  /** One level of a copied spine: the children of a fresh node left and right of the
      slot (`parent[parentIndex]`) that the next level down fills in. */
  datatype Frame<T> = Frame(before: seq<Node<T>>, after: seq<Node<T>>)

  /** Fill the innermost open slot with `t`, then close every enclosing frame. */
  function Plug<T>(ctx: seq<Frame<T>>, t: Node<T>): Node<T>
    decreases |ctx|
  {
    if ctx == [] then t
    else
      var f := ctx[|ctx| - 1];
      Plug(ctx[..|ctx| - 1], Branch(f.before + [t] + f.after))
  }

  lemma PlugPush<T>(ctx: seq<Frame<T>>, f: Frame<T>, t: Node<T>)
    ensures Plug(ctx + [f], t) == Plug(ctx, Branch(f.before + [t] + f.after))
  {
    assert (ctx + [f])[..|ctx|] == ctx;
  }

  /** Appending to a full tail moves it into the trie: the root size grows by one block,
      and the height grows by one exactly when the trie was full. */
  lemma AppendHeights(size: nat)
    requires RootSize(size) > 0 && size - RootSize(size) == BLOCK_SIZE
    ensures RootSize(size + 1) == RootSize(size) + BLOCK_SIZE
    ensures Height(size) <= Height(size + 1)
    ensures Height(size) < Height(size + 1) <==> RootSize(size) == Pow32(Height(size))
    ensures Height(size) < Height(size + 1) ==> Height(size + 1) == Height(size) + 1
    ensures Height(size) == Height(size + 1) ==> Height(size) >= 2 && RootSize(size) < Pow32(Height(size))
  {
    var rs, h := RootSize(size), Height(size);
    RootSizeNext(size);
    HeightMonotone(size, size + 1);
    if rs == Pow32(h) {
      HeightUnique(size + 1, h + 1);
    } else {
      AppendHeightsRoom(size);
    }
  }

  /** A trie that is not full has room for one more block at the same height. */
  lemma AppendHeightsRoom(size: nat)
    requires RootSize(size) > 0 && RootSize(size + 1) == RootSize(size) + BLOCK_SIZE
    requires RootSize(size) != Pow32(Height(size))
    ensures Height(size + 1) == Height(size) >= 2
  {
    var rs, h := RootSize(size), Height(size);
    assert Pow32(h) == 32 * Pow32(h - 1);
    DivModUnique(Pow32(h), 32, Pow32(h - 1), 0);
    NextMultiple(rs, Pow32(h));
    HeightUnique(size + 1, h);
  }

  lemma NextMultiple(a: nat, b: nat)
    requires a % 32 == 0 && b % 32 == 0 && a < b
    ensures a + 32 <= b
  {
    DivModUnique(a, 32, a / 32, 0);
    DivModUnique(b, 32, b / 32, 0);
  }

  /** The height depends on the size only through the root size. */
  lemma HeightOfRootSize(n: nat, m: nat)
    requires RootSize(n) == RootSize(m)
    ensures Height(n) == Height(m)
  {
  }
}
