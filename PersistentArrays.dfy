/** `insert` and `remove` of `PersistentArrays` (and the identical `SharedArrays`), built
    from `take`, `append`, `appendAll` and `subList` on a TrieArray. The array is a value,
    so the original is left as it was. */
module PersistentArrays {
  import opened Wrappers
  import opened TrieArrayNodes
  import opened TrieArrayShape
  import opened TrieArrayOps
  import opened TrieArrayTake
  import opened TrieArrayConcat

  /** The elements with `value` placed at `index`, later elements shifted on by one. */
  ghost function Inserted<T>(s: seq<T>, index: nat, value: T): seq<T>
    requires index <= |s|
  {
    s[..index] + [value] + s[index..]
  }

  /** The elements without the one at `index`, later elements shifted back by one. */
  ghost function Removed<T>(s: seq<T>, index: nat): seq<T>
    requires index < |s|
  {
    s[..index] + s[index + 1..]
  }

  /** `subList(from, to)` as `AbstractList` checks it, given the elements it views:
      IndexOutOfBoundsException for an end outside the list, IllegalArgumentException when
      the ends are the wrong way round. */
  function SubList<T>(s: seq<T>, from: int, to: int): (r: Result<seq<T>>)
    ensures r.Ok? <==> 0 <= from <= to <= |s|
    ensures r.Ok? ==> r.value == s[from..to]
    ensures (from < 0 || to > |s|) ==> r == Throws(IndexOutOfBoundsException)
    ensures 0 <= from && to <= |s| && from > to ==> r == Throws(IllegalArgumentException)
  {
    if from < 0 || to > |s| then Throws(IndexOutOfBoundsException)
    else if from > to then Throws(IllegalArgumentException)
    else Ok(s[from..to])
  }

  /** `insert(array, index, value)`: `value` at `index` and the later elements shifted on;
      IndexOutOfBoundsException (from `take`) unless 0 <= index <= size. */
  method Insert<T>(a: TrieArray<T>, index: int, value: T) returns (r: Result<TrieArray<T>>)
    requires Valid(a) && a.size < MAX_SIZE
    ensures r.Ok? <==> 0 <= index <= a.size
    ensures r.Throws? ==> r.error == IndexOutOfBoundsException
    ensures r.Ok? ==> Valid(r.value) && r.value.size == a.size + 1
    ensures r.Ok? ==> index <= |Elements(a)| && Elements(r.value) == Inserted(Elements(a), index, value)
  {
    var taken := Take(a, index);
    if taken.Throws? {
      return Throws(taken.error);
    }
    ElementsSize(a);
    var appended := Append(taken.value, value);
    var rest := SubList(Elements(a), index, a.size);
    var result := AppendAll(appended, rest.value);
    JoinInserted(Elements(a), index, value, Elements(appended), rest.value, Elements(result));
    return Ok(result);
  }

  /** The elements before the index and the value, then the elements from the index on. */
  lemma JoinInserted<T>(s: seq<T>, index: nat, value: T, front: seq<T>, rest: seq<T>, joined: seq<T>)
    requires index <= |s| && front == s[..index] + [value] && rest == s[index..|s|] && joined == front + rest
    ensures joined == Inserted(s, index, value)
  {
    assert s[index..|s|] == s[index..];
  }

  /** `remove(array, index)`: the element at `index` dropped and the later ones shifted back;
      IndexOutOfBoundsException (from `take`) outside 0 <= index <= size, and at
      index == size IllegalArgumentException, from `subList(size + 1, size)`. */
  method Remove<T>(a: TrieArray<T>, index: int) returns (r: Result<TrieArray<T>>)
    requires Valid(a)
    ensures r.Ok? <==> 0 <= index < a.size
    ensures !(0 <= index <= a.size) ==> r == Throws(IndexOutOfBoundsException)
    ensures index == a.size ==> r == Throws(IllegalArgumentException)
    ensures r.Ok? ==> Valid(r.value) && r.value.size == a.size - 1
    ensures r.Ok? ==> index < |Elements(a)| && Elements(r.value) == Removed(Elements(a), index)
  {
    var taken := Take(a, index);
    if taken.Throws? {
      return Throws(taken.error);
    }
    ElementsSize(a);
    var rest := SubList(Elements(a), index + 1, a.size);
    if rest.Throws? {
      return Throws(rest.error);
    }
    var result := AppendAll(taken.value, rest.value);
    return Ok(result);
  }

  /** An inserted value sits at its index, with the elements before it in place and the
      ones after it one further on. */
  lemma InsertedPositions<T>(s: seq<T>, index: nat, value: T)
    requires index <= |s|
    ensures |Inserted(s, index, value)| == |s| + 1 && Inserted(s, index, value)[index] == value
    ensures forall j :: 0 <= j < index ==> Inserted(s, index, value)[j] == s[j]
    ensures forall j :: index <= j < |s| ==> Inserted(s, index, value)[j + 1] == s[j]
  {
  }

  /** Removing leaves the elements before the index in place and moves the later ones back. */
  lemma RemovedPositions<T>(s: seq<T>, index: nat)
    requires index < |s|
    ensures |Removed(s, index)| == |s| - 1
    ensures forall j :: 0 <= j < index ==> Removed(s, index)[j] == s[j]
    ensures forall j :: index <= j < |s| - 1 ==> Removed(s, index)[j] == s[j + 1]
  {
  }

  /** Removing at the index of an insertion gives back the original elements, and at any
      index inserting back the removed element does too. */
  lemma InsertRemoveInverse<T>(s: seq<T>, index: nat, value: T)
    requires index <= |s|
    ensures Removed(Inserted(s, index, value), index) == s
    ensures index < |s| ==> Inserted(Removed(s, index), index, s[index]) == s
  {
    assert Inserted(s, index, value)[..index] == s[..index];
    assert Inserted(s, index, value)[index + 1..] == s[index..];
    if index < |s| {
      assert Removed(s, index)[..index] == s[..index];
      assert Removed(s, index)[index..] == s[index + 1..];
      assert s == s[..index] + [s[index]] + s[index + 1..];
    }
  }
}
