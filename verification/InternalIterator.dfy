/**
 The internal iterator under DBIter (NewInternalIterator, db/db_impl.cc): a merging iterator
 over the memtables and the tables, read as one sorted run of entries.
 */
module InternalIterators {
  import opened Keys
  import opened Cursors
  import opened Merger

  class InternalIterator {
    const merging: MergingIterator
    /** What the children hold together. */
    ghost const entries: seq<Entry>
    /** `|entries|` when not valid. */
    ghost var pos: nat

    ghost predicate Repr()
      reads this, merging, merging.children
      ensures Repr() ==> Sorted(entries) && pos <= |entries|
    {
      merging.merged == entries && Sorted(entries) && pos <= |entries| && merging.Shows(pos)
    }

    predicate Valid()
      requires Repr()
      reads this, merging, merging.children
      ensures Valid() <==> pos < |entries|
    {
      merging.Valid()
    }

    function Current(): (e: Entry)
      requires Repr() && Valid()
      reads this, merging, merging.children
      ensures e == entries[pos]
    {
      merging.Current()
    }

    constructor (merging: MergingIterator)
      requires merging.Shows(-1)
      ensures Repr() && !Valid() && this.merging == merging && entries == merging.merged
    {
      this.merging := merging;
      entries := merging.merged;
      pos := |merging.merged|;
      new;
      MergeIsSorted(merging.runs, merging.merged);
    }

    method SeekToFirst()
      requires Repr()
      modifies this, merging, merging.children
      ensures Repr() && pos == 0
    {
      merging.SeekToFirst();
      pos := 0;
    }

    method SeekToLast()
      requires Repr()
      modifies this, merging, merging.children
      ensures Repr() && pos == if entries == [] then 0 else |entries| - 1
    {
      merging.SeekToLast();
      pos := if entries == [] then 0 else |entries| - 1;
    }

    /** The first entry at or after `key`. */
    method Seek(key: InternalKey)
      requires Repr()
      modifies this, merging, merging.children
      ensures Repr()
      ensures forall i :: 0 <= i < pos ==> Before(entries[i].key, key)
      ensures forall i :: pos <= i < |entries| ==> NotAfter(key, entries[i].key)
    {
      ghost var m := merging.Seek(key);
      pos := m;
    }

    method Next()
      requires Repr() && Valid()
      modifies this, merging, merging.children
      ensures Repr() && pos == old(pos) + 1
    {
      merging.Next();
      pos := pos + 1;
    }

    method Prev()
      requires Repr() && Valid()
      modifies this, merging, merging.children
      ensures Repr() && pos == if old(pos) == 0 then |entries| else old(pos) - 1
    {
      merging.Prev();
      pos := if pos == 0 then |entries| else pos - 1;
    }
  }
}
