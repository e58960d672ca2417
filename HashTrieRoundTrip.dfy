/** `put` followed by `remove` of the same key, with the corrected removal. */
module HashTrieRoundTrip {
  import opened Wrappers
  import opened HashTrieNodes
  import opened HashTrieMapOps
  import opened HashTrieInsert
  import opened HashTrieRemove

  /** After `put(key, value).remove(key)` the key has no value, and when the key was absent
      beforehand the map holds what it held before, with the same size. */
  lemma PutThenRemove<K, V>(m: HashTrieMap<K, V>, key: K, value: V, hash: K -> HashCode)
    requires Valid(m, hash)
    ensures Valid(Inserted(m, key, value, hash), hash)
    ensures Remove(Inserted(m, key, value, hash), Some(key), hash).Ok?
    ensures MapGet(Remove(Inserted(m, key, value, hash), Some(key), hash).value, key, hash) == None
    ensures key !in KeySet(m) ==>
      && Remove(Inserted(m, key, value, hash), Some(key), hash).value.size == m.size
      && forall k :: MapGet(Remove(Inserted(m, key, value, hash), Some(key), hash).value, k, hash) == MapGet(m, k, hash)
  {
    InsertedMeaning(m, key, value, hash);
    RemoveMeaning(Inserted(m, key, value, hash), key, hash);
    if key !in KeySet(m) {
      GetMeaning(m, key, hash);
    }
  }
}
