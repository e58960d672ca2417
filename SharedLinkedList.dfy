/** The shared singly-linked list of `com.github.douglasorr.shared`: one class whose cells
    hold a head, a tail and a cached size, with a null head (here `None`) marking the empty
    list. Lists are values; `prepend` shares the original list as its tail. */
module SharedLinkedList {
  import opened Wrappers

  /** The fields `mHead`, `mTail` and `mSize`, with `None` for Java's null. */
  datatype LinkedList<T> = List(head: Option<T>, tail: Option<LinkedList<T>>, size: int)

  /** The elements, head first: none once the head is null. */
  function Elements<T>(l: LinkedList<T>): seq<T>
    decreases l
  {
    if l.head.None? then []
    else if l.tail.None? then [l.head.value]
    else [l.head.value] + Elements(l.tail.value)
  }

  /** The lists the operations build: the empty list has neither head nor tail, every other
      cell has a tail and caches one more than the number of elements of that tail. */
  ghost predicate ValidList<T>(l: LinkedList<T>)
    decreases l
  {
    if l.head.None? then l.tail.None? && l.size == 0
    else l.tail.Some? && ValidList(l.tail.value) && l.size == 1 + |Elements(l.tail.value)|
  }

  /** `size()`: the cached size, which is the number of elements. */
  function Size<T>(l: LinkedList<T>): (n: int)
    ensures ValidList(l) ==> n == |Elements(l)|
  {
    l.size
  }

  /** The private constructor: size 0 for a null head, otherwise one more than the tail's
      size, which throws NullPointerException when the tail is null. */
  function Construct<T>(head: Option<T>, tail: Option<LinkedList<T>>): (r: Result<LinkedList<T>>)
    ensures r.Throws? <==> head.Some? && tail.None?
    ensures r.Throws? ==> r.error == NullPointerException
    ensures r.Ok? ==> r.value.head == head && r.value.tail == tail
    ensures r.Ok? && head.None? ==> r.value.size == 0
    ensures r.Ok? && head.Some? ==> r.value.size == 1 + tail.value.size
  {
    if head.None? then Ok(List(head, tail, 0))
    else if tail.None? then Throws(NullPointerException)
    else Ok(List(head, tail, 1 + Size(tail.value)))
  }

  /** `new LinkedList()`, which is also `EMPTY` and `empty()`: no elements, size 0. */
  function EmptyList<T>(): (r: LinkedList<T>)
    ensures ValidList(r) && Size(r) == 0 && Elements(r) == []
  {
    Construct(None, None).value
  }

  /** `head()`: the first element; NoSuchElementException when the head is null. */
  function Head<T>(l: LinkedList<T>): (r: Result<T>)
    ensures r.Ok? <==> Elements(l) != []
    ensures r.Ok? ==> r.value == Elements(l)[0]
    ensures r.Throws? ==> r.error == NoSuchElementException
  {
    if l.head.None? then Throws(NoSuchElementException) else Ok(l.head.value)
  }

  /** `tail()`: the rest of the list; NoSuchElementException when the tail is null, which on
      a valid list is exactly when it is empty. */
  function Tail<T>(l: LinkedList<T>): (r: Result<LinkedList<T>>)
    ensures r.Throws? <==> l.tail.None?
    ensures r.Throws? ==> r.error == NoSuchElementException
    ensures ValidList(l) ==> (r.Ok? <==> Elements(l) != [])
    ensures ValidList(l) && r.Ok? ==> ValidList(r.value) && Elements(r.value) == Elements(l)[1..]
  {
    if l.tail.None? then Throws(NoSuchElementException) else Ok(l.tail.value)
  }

  /** `prepend(head)`: a new list with the given head in front of the very list it was
      called on, which is its tail. */
  function Prepend<T>(l: LinkedList<T>, head: T): (r: LinkedList<T>)
    ensures Head(r) == Ok(head) && Tail(r) == Ok(l)
    ensures ValidList(l) ==> ValidList(r) && Size(r) == Size(l) + 1 && Elements(r) == [head] + Elements(l)
  {
    Construct(Some(head), Some(l)).value
  }

  /** `singleton(value)`: one element, and the empty list as its tail. */
  function Singleton<T>(value: T): (r: LinkedList<T>)
    ensures ValidList(r) && Size(r) == 1 && Elements(r) == [value]
    ensures Head(r) == Ok(value) && Tail(r) == Ok(EmptyList())
  {
    Construct(Some(value), Some(EmptyList())).value
  }

  /** `of(elements...)`: prepends the elements from the last to the first onto the empty
      list, so the list holds them in argument order. */
  method Of<T>(elements: seq<T>) returns (l: LinkedList<T>)
    ensures ValidList(l) && Elements(l) == elements && Size(l) == |elements|
  {
    l := EmptyList();
    var i := |elements| - 1;
    while 0 <= i
      invariant -1 <= i < |elements|
      invariant ValidList(l) && Elements(l) == elements[i + 1..]
      decreases i + 1
    {
      l := Prepend(l, elements[i]);
      assert elements[i..] == [elements[i]] + elements[i + 1..];
      i := i - 1;
    }
  }

  /** The argument of the copy constructor: another shared `LinkedList`, or any other
      collection, given by the elements its `toArray()` returns. */
  datatype Collection<T> = LinkedListCollection(list: LinkedList<T>) | OtherCollection(elements: seq<T>)

  /** `new LinkedList(c)`: from a linked list, the same head, tail and size (nothing is
      copied); from any other collection, a list of its elements in order. */
  method Copy<T>(c: Collection<T>) returns (l: LinkedList<T>)
    requires c.LinkedListCollection? ==> ValidList(c.list)
    ensures ValidList(l)
    ensures c.LinkedListCollection? ==> l.head == c.list.head && l.tail == c.list.tail && l.size == c.list.size
    ensures c.OtherCollection? ==> Elements(l) == c.elements && Size(l) == |c.elements|
  {
    var source: LinkedList<T>;
    if c.LinkedListCollection? {
      source := c.list;
    } else {
      source := Of(c.elements);
    }
    l := List(source.head, source.tail, source.size);
  }

  /** The `ListIterator` that `listIterator(startIndex)` returns: the position `index` and
      the rest of the list `it`. `origin` is the list it walks. It repeats
      `PersistentLinkedList.ListCursor` member for member on purpose, as the two Java
      classes repeat each other. */
  class ListCursor<T> {
    var index: int
    var it: LinkedList<T>
    ghost const origin: LinkedList<T>

    /** The rest of the list is the origin's elements from the position on. */
    ghost predicate Valid()
      reads this
    {
      && ValidList(origin) && ValidList(it)
      && 0 <= index <= |Elements(origin)| && Elements(it) == Elements(origin)[index..]
    }

    constructor (list: LinkedList<T>)
      requires ValidList(list)
      ensures Valid() && origin == list && index == 0
    {
      index := 0;
      it := list;
      origin := list;
    }

    /** `hasNext()`: the rest of the list is non-empty, i.e. the position is before the end. */
    function HasNext(): (b: bool)
      reads this
      requires Valid()
      ensures b <==> index < |Elements(origin)|
    {
      Size(it) != 0
    }

    /** `nextIndex()`: the index of the element `next()` returns. */
    function NextIndex(): (i: int)
      reads this
      requires Valid()
      ensures 0 <= i <= |Elements(origin)| && Elements(origin)[i..] == Elements(it)
    {
      index
    }

    /** `next()`: the element at the position, moving one on; NoSuchElementException at the
        end, with the cursor unchanged. */
    method Next() returns (r: Result<T>)
      requires Valid()
      modifies this
      ensures Valid()
      ensures old(index) < |Elements(origin)| ==> r == Ok(Elements(origin)[old(index)]) && index == old(index) + 1
      ensures old(index) == |Elements(origin)| ==>
        r == Throws(NoSuchElementException) && index == old(index) && it == old(it)
    {
      var element := Head(it);
      if element.Throws? {
        return Throws(element.error);
      }
      var rest := Tail(it);
      it := rest.value;
      index := index + 1;
      assert Elements(origin)[index..] == Elements(origin)[index - 1..][1..];
      return element;
    }

    /** `hasPrevious()`: backward iteration is not supported, so never. */
    function HasPrevious(): (b: bool)
      ensures !b
    {
      false
    }

    /** `previousIndex()`: as if at the beginning of the list. */
    function PreviousIndex(): (i: int)
      ensures i == -1
    {
      -1
    }

    /** `previous()`: always UnsupportedOperationException. */
    method Previous() returns (r: Result<T>)
      ensures r == Throws(UnsupportedOperationException)
    {
      return Throws(UnsupportedOperationException);
    }
  }

  /** `listIterator(startIndex)`: IndexOutOfBoundsException unless 0 <= startIndex <= size;
      otherwise a cursor that has stepped past the first startIndex elements. */
  method ListIterator<T>(l: LinkedList<T>, startIndex: int) returns (r: Result<ListCursor<T>>)
    requires ValidList(l)
    ensures r.Ok? <==> 0 <= startIndex <= Size(l)
    ensures r.Throws? ==> r.error == IndexOutOfBoundsException
    ensures r.Ok? ==> fresh(r.value) && r.value.Valid() && r.value.origin == l && r.value.index == startIndex
  {
    if !(0 <= startIndex <= Size(l)) {
      return Throws(IndexOutOfBoundsException);
    }
    var cursor := new ListCursor(l);
    var i := 0;
    while i < startIndex
      invariant 0 <= i <= startIndex
      invariant cursor.Valid() && cursor.origin == l && cursor.index == i
    {
      var _ := cursor.Next();
      i := i + 1;
    }
    return Ok(cursor);
  }
}
