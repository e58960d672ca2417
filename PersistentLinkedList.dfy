/** The persistent singly-linked list of `com.dorr.persistent`: `Empty`, and `Cons` cells
    holding a head, the list they were prepended to, and the size cached when the cell was
    built. Lists are values; `after` shares the original list as its tail. */
module PersistentLinkedList {
  import opened Wrappers

  /** `Empty` and `Cons(mHead, mTail, mSize)`. */
  datatype LinkedList<T> = Empty | Cons(head: T, tail: LinkedList<T>, size: nat)

  /** The elements, head first. */
  function Elements<T>(l: LinkedList<T>): seq<T>
  {
    if l.Empty? then [] else [l.head] + Elements(l.tail)
  }

  /** Every cell caches one more than the number of elements of its tail, as `Cons`'s
      constructor sets it. */
  ghost predicate ValidList<T>(l: LinkedList<T>)
  {
    l.Cons? ==> ValidList(l.tail) && l.size == |Elements(l.tail)| + 1
  }

  /** `size()`: 0 for Empty, the cached size of a Cons, which is the number of elements. */
  function Size<T>(l: LinkedList<T>): (n: nat)
    ensures ValidList(l) ==> n == |Elements(l)|
  {
    if l.Empty? then 0 else l.size
  }

  /** `new Cons(head, tail)`: the size is `tail.size() + 1`. */
  function MakeCons<T>(head: T, tail: LinkedList<T>): (r: LinkedList<T>)
    ensures ValidList(tail) ==> ValidList(r) && Size(r) == Size(tail) + 1
  {
    Cons(head, tail, Size(tail) + 1)
  }

  /** `head()`: the first element; NoSuchElementException on the empty list. */
  function Head<T>(l: LinkedList<T>): (r: Result<T>)
    ensures r.Ok? <==> Elements(l) != []
    ensures r.Ok? ==> r.value == Elements(l)[0]
    ensures r.Throws? ==> r.error == NoSuchElementException
  {
    if l.Empty? then Throws(NoSuchElementException) else Ok(l.head)
  }

  /** `tail()`: the list after the first element; NoSuchElementException on the empty list. */
  function Tail<T>(l: LinkedList<T>): (r: Result<LinkedList<T>>)
    ensures r.Ok? <==> Elements(l) != []
    ensures r.Ok? ==> Elements(r.value) == Elements(l)[1..] && (ValidList(l) ==> ValidList(r.value))
    ensures r.Throws? ==> r.error == NoSuchElementException
  {
    if l.Empty? then Throws(NoSuchElementException) else Ok(l.tail)
  }

  /** `after(head)`: a new cell in front of the list, with the very list it was called on
      as its tail, one more element, and the head followed by the list's elements. */
  function After<T>(l: LinkedList<T>, head: T): (r: LinkedList<T>)
    ensures Head(r) == Ok(head) && Tail(r) == Ok(l)
    ensures Elements(r) == [head] + Elements(l)
    ensures ValidList(l) ==> ValidList(r) && Size(r) == Size(l) + 1
  {
    MakeCons(head, l)
  }

  /** `empty()`: the shared empty list, of size 0, with no head or tail. */
  function EmptyList<T>(): (r: LinkedList<T>)
    ensures ValidList(r) && Size(r) == 0 && Elements(r) == []
    ensures Head(r) == Throws(NoSuchElementException) && Tail(r) == Throws(NoSuchElementException)
  {
    Empty
  }

  /** `of(elements...)`: prepends the elements from the last to the first onto the empty
      list, so the list holds them in argument order. */
  method Of<T>(elements: seq<T>) returns (l: LinkedList<T>)
    ensures ValidList(l) && Elements(l) == elements && Size(l) == |elements|
  {
    l := EmptyList();
    var i := |elements| - 1;
    while 0 <= i
      invariant -1 <= i < |elements|
      invariant ValidList(l) && Elements(l) == elements[i + 1..]
      decreases i + 1
    {
      l := After(l, elements[i]);
      assert elements[i..] == [elements[i]] + elements[i + 1..];
      i := i - 1;
    }
  }

  /** The `ListIterator` that `listIterator(startIndex)` returns: the position `index` and
      the rest of the list `it`. `origin` is the list it walks. */
  class ListCursor<T> {
    var index: int
    var it: LinkedList<T>
    ghost const origin: LinkedList<T>

    /** The rest of the list is the origin's elements from the position on. */
    ghost predicate Valid()
      reads this
    {
      && ValidList(origin) && ValidList(it)
      && 0 <= index <= |Elements(origin)| && Elements(it) == Elements(origin)[index..]
    }

    constructor (list: LinkedList<T>)
      requires ValidList(list)
      ensures Valid() && origin == list && index == 0
    {
      index := 0;
      it := list;
      origin := list;
    }

    /** `hasNext()`: the rest of the list is non-empty, i.e. the position is before the end. */
    function HasNext(): (b: bool)
      reads this
      requires Valid()
      ensures b <==> index < |Elements(origin)|
    {
      Size(it) != 0
    }

    /** `nextIndex()`: the index of the element `next()` returns. */
    function NextIndex(): (i: int)
      reads this
      requires Valid()
      ensures 0 <= i <= |Elements(origin)| && Elements(origin)[i..] == Elements(it)
    {
      index
    }

    /** `next()`: the element at the position, moving one on; NoSuchElementException at the
        end, with the cursor unchanged. */
    method Next() returns (r: Result<T>)
      requires Valid()
      modifies this
      ensures Valid()
      ensures old(index) < |Elements(origin)| ==> r == Ok(Elements(origin)[old(index)]) && index == old(index) + 1
      ensures old(index) == |Elements(origin)| ==>
        r == Throws(NoSuchElementException) && index == old(index) && it == old(it)
    {
      var element := Head(it);
      if element.Throws? {
        return Throws(element.error);
      }
      var rest := Tail(it);
      it := rest.value;
      index := index + 1;
      assert Elements(origin)[index..] == Elements(origin)[index - 1..][1..];
      return element;
    }

    /** `hasPrevious()`: backward iteration is not supported, so never. */
    function HasPrevious(): (b: bool)
      ensures !b
    {
      false
    }

    /** `previousIndex()`: as if at the beginning of the list. */
    function PreviousIndex(): (i: int)
      ensures i == -1
    {
      -1
    }

    /** `previous()`: always UnsupportedOperationException. */
    method Previous() returns (r: Result<T>)
      ensures r == Throws(UnsupportedOperationException)
    {
      return Throws(UnsupportedOperationException);
    }
  }

  /** `listIterator(startIndex)`: IndexOutOfBoundsException unless 0 <= startIndex <= size;
      otherwise a cursor that has stepped past the first startIndex elements. */
  method ListIterator<T>(l: LinkedList<T>, startIndex: int) returns (r: Result<ListCursor<T>>)
    requires ValidList(l)
    ensures r.Ok? <==> 0 <= startIndex <= Size(l)
    ensures r.Throws? ==> r.error == IndexOutOfBoundsException
    ensures r.Ok? ==> fresh(r.value) && r.value.Valid() && r.value.origin == l && r.value.index == startIndex
  {
    if !(0 <= startIndex <= Size(l)) {
      return Throws(IndexOutOfBoundsException);
    }
    var cursor := new ListCursor(l);
    var i := 0;
    while i < startIndex
      invariant 0 <= i <= startIndex
      invariant cursor.Valid() && cursor.origin == l && cursor.index == i
    {
      var _ := cursor.Next();
      i := i + 1;
    }
    return Ok(cursor);
  }
}
