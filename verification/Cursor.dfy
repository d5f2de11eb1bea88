/**
 The iterator contract of include/leveldb/iterator.h over a sorted run of entries, as
 memtables and blocks provide it.
 */
module Cursors {
  import opened Keys

  class Cursor {
    const entries: seq<Entry>
    /** `|entries|` when not valid. */
    var pos: nat

    ghost predicate Repr()
      reads this
    {
      Sorted(entries) && pos <= |entries|
    }

    predicate Valid()
      reads this
    {
      pos < |entries|
    }

    function Current(): Entry
      requires Valid()
      reads this
    {
      entries[pos]
    }

    constructor (entries: seq<Entry>)
      requires Sorted(entries)
      ensures Repr() && this.entries == entries && !Valid()
    {
      this.entries := entries;
      pos := |entries|;
    }

    method SeekToFirst()
      requires Repr()
      modifies this`pos
      ensures Repr() && pos == 0
    {
      pos := 0;
    }

    method SeekToLast()
      requires Repr()
      modifies this`pos
      ensures Repr() && pos == if entries == [] then 0 else |entries| - 1
    {
      pos := if entries == [] then 0 else |entries| - 1;
    }

    /** The first entry at or after `key`. */
    method Seek(key: InternalKey)
      requires Repr()
      modifies this`pos
      ensures Repr()
      ensures forall i :: 0 <= i < pos ==> Before(entries[i].key, key)
      ensures forall i :: pos <= i < |entries| ==> NotAfter(key, entries[i].key)
    {
      pos := 0;
      while pos < |entries| && CompareInternal(entries[pos].key, key) < 0
        invariant pos <= |entries|
        invariant forall i :: 0 <= i < pos ==> Before(entries[i].key, key)
      {
        pos := pos + 1;
      }
      forall i | pos <= i < |entries|
        ensures NotAfter(key, entries[i].key)
      {
        assert pos < i ==> Before(entries[pos].key, entries[i].key);
      }
    }

    method Next()
      requires Repr() && Valid()
      modifies this`pos
      ensures Repr() && pos == old(pos) + 1
    {
      pos := pos + 1;
    }

    method Prev()
      requires Repr() && Valid()
      modifies this`pos
      ensures Repr() && pos == if old(pos) == 0 then |entries| else old(pos) - 1
    {
      pos := if pos == 0 then |entries| else pos - 1;
    }
  }
}
