/**
 The two-level iterator (table/two_level_iterator.cc): an index iterator names blocks, a data
 iterator walks the current one, and empty blocks are skipped in both directions.
 */
module TwoLevel {
  import opened Keys
  import opened Cursors

  type Parts = seq<seq<Entry>>

  /** Where block `k` starts in the concatenation. */
  ghost function Start(parts: Parts, k: nat): nat
    requires k <= |parts|
  {
    if k == 0 then 0 else Start(parts, k - 1) + |parts[k - 1]|
  }

  ghost function Flat(parts: Parts, k: nat): (r: seq<Entry>)
    requires k <= |parts|
    ensures |r| == Start(parts, k)
  {
    if k == 0 then [] else Flat(parts, k - 1) + parts[k - 1]
  }

  lemma {:induction false} StartGrows(parts: Parts, j: nat, k: nat)
    requires j <= k <= |parts|
    ensures Start(parts, j) <= Start(parts, k)
    ensures j < k ==> Start(parts, j) + |parts[j]| <= Start(parts, k)
  {
    if j < k { StartGrows(parts, j, k - 1); }
  }

  lemma {:induction false} FlatAt(parts: Parts, n: nat, k: nat, j: nat)
    requires k < n <= |parts| && j < |parts[k]|
    ensures Start(parts, k) + j < Start(parts, n) && Flat(parts, n)[Start(parts, k) + j] == parts[k][j]
  {
    StartGrows(parts, k, n);
    if k < n - 1 { FlatAt(parts, n - 1, k, j); }
  }

  /** Every entry of the concatenation is in one of the blocks. */
  lemma {:induction false} Located(parts: Parts, n: nat, i: nat) returns (k: nat, j: nat)
    requires n <= |parts| && i < Start(parts, n)
    ensures k < n && j < |parts[k]| && i == Start(parts, k) + j && Flat(parts, n)[i] == parts[k][j]
  {
    if i >= Start(parts, n - 1) {
      k, j := n - 1, i - Start(parts, n - 1);
    } else {
      k, j := Located(parts, n - 1, i);
    }
  }

  class TwoLevelIterator {
    const index: Cursor
    /** What the block function makes of a handle. */
    const blocks: map<Value, seq<Entry>>
    var data: Cursor?
    var dataHandle: Value
    ghost const parts: Parts

    /** One block per index entry, each under its own handle; index keys separate the blocks. */
    ghost predicate Wired() {
      && |parts| == |index.entries|
      && (forall k :: 0 <= k < |parts| ==> index.entries[k].value in blocks && blocks[index.entries[k].value] == parts[k])
      && (forall j, k :: 0 <= j < k < |parts| ==> index.entries[j].value != index.entries[k].value)
      && (forall k :: 0 <= k < |parts| ==> Sorted(parts[k]))
    }

    /** Last key of a block <= its index key < first key of the next. */
    ghost predicate Separated()
      requires Wired()
    {
      && (forall k, j :: 0 <= k < |parts| && 0 <= j < |parts[k]| ==> NotAfter(parts[k][j].key, index.entries[k].key))
      && (forall h, k, j :: 0 <= h < k < |parts| && 0 <= j < |parts[k]| ==> Before(index.entries[h].key, parts[k][j].key))
    }

    ghost function All(): seq<Entry> {
      Flat(parts, |parts|)
    }

    /** The data iterator, if there is one, is over the block it was made for. */
    ghost predicate Repr()
      reads this, index, data
    {
      && Wired() && index.Repr() && |parts| == |index.entries|
      && (data != null ==> data != index && data.Repr() && dataHandle in blocks && data.entries == blocks[dataHandle])
    }

    /** There is a data iterator exactly when the index is valid, and it is over the index's block. */
    ghost predicate Paired()
      reads this, index, data
    {
      && Repr() && (data != null <==> index.pos < |parts|)
      && (data != null ==> dataHandle == index.entries[index.pos].value)
    }

    predicate Valid()
      reads this, data
    {
      data != null && data.Valid()
    }

    function Current(): Entry
      requires Valid()
      reads this, data
    {
      data.Current()
    }

    /** The iterator is at entry `m` of the concatenation; an `m` outside of it means not valid. */
    ghost predicate Shows(m: int)
      reads this, index, data
    {
      && Paired() && (Valid() <==> 0 <= m < |All()|)
      && (Valid() ==> m == Start(parts, index.pos) + data.pos && Current() == All()[m])
    }

    constructor (index: Cursor, blocks: map<Value, seq<Entry>>, ghost parts: Parts)
      requires index.Repr() && index.pos == |index.entries| == |parts|
      requires forall k :: 0 <= k < |parts| ==> index.entries[k].value in blocks && blocks[index.entries[k].value] == parts[k]
      requires forall j, k :: 0 <= j < k < |parts| ==> index.entries[j].value != index.entries[k].value
      requires forall k :: 0 <= k < |parts| ==> Sorted(parts[k])
      ensures Shows(-1) && this.index == index && this.parts == parts
    {
      this.index, this.blocks, this.parts, data, dataHandle := index, blocks, parts, null, [];
    }

    /** InitDataBlock: keeps the data iterator when the handle is still the same. */
    method InitDataBlock()
      requires Repr()
      modifies this
      ensures Paired() && (data == null || data == old(data) || fresh(data))
      ensures old(data) != null ==> unchanged(old(data))
      ensures index.pos < |index.entries| && old(data) != null && index.entries[index.pos].value == old(dataHandle) ==> data == old(data)
    {
      if !(index.pos < |index.entries|) {
        data := null;
      } else {
        var handle := index.Current().value;
        if data != null && handle == dataHandle {
        } else {
          dataHandle := handle;
          data := new Cursor(blocks[handle]);
        }
      }
    }

    /** Going forward, entry `m` is next: what the data iterator points at, or what follows its block. */
    ghost predicate Forward(m: nat)
      reads this, index, data
    {
      && Paired() && m == if data == null then |All()| else Start(parts, index.pos) + data.pos
    }

    ghost predicate Backward(m: int)
      reads this, index, data
    {
      && Paired()
      && m == if data == null then -1 else if data.Valid() then Start(parts, index.pos) + data.pos else Start(parts, index.pos) - 1
    }

    lemma ForwardShows(m: nat)
      requires Forward(m) && (Valid() || data == null)
      ensures Shows(m)
    {
      if Valid() { FlatAt(parts, |parts|, index.pos, data.pos); }
    }

    lemma BackwardShows(m: int)
      requires Backward(m) && (Valid() || data == null)
      ensures Shows(m)
    {
      if Valid() { FlatAt(parts, |parts|, index.pos, data.pos); }
    }

    lemma StartEnds()
      ensures Start(parts, 0) == 0 && Start(parts, |parts|) == |All()|
    {
    }

    /** The data iterator is over the index's block, and the next block starts where this one ends. */
    lemma OverBlock()
      requires Paired() && data != null
      ensures data.entries == parts[index.pos] && Start(parts, index.pos + 1) == Start(parts, index.pos) + |parts[index.pos]|
    {
    }

    method SkipEmptyDataBlocksForward(ghost m: nat)
      requires Forward(m)
      modifies this, index`pos, data
      ensures Shows(m)
    {
      hide TwoLevelIterator.Wired, Start, Flat;
      ghost var first := data;
      while data == null || !data.Valid()
        invariant Forward(m) && (data == first || data == null || fresh(data))
        decreases |parts| - index.pos, data != null
      {
        if !(index.pos < |index.entries|) {
          data := null;
          ForwardShows(m);
          return;
        }
        OverBlock();
        index.Next();
        InitDataBlock();
        StartEnds();
        if data != null { data.SeekToFirst(); }
      }
      ForwardShows(m);
    }

    method SkipEmptyDataBlocksBackward(ghost m: int)
      requires Backward(m)
      modifies this, index`pos, data
      ensures Shows(m)
    {
      hide TwoLevelIterator.Wired, Start, Flat;
      ghost var first := data;
      while data == null || !data.Valid()
        invariant Backward(m) && (data == first || data == null || fresh(data))
        decreases if data == null then 0 else index.pos + 1
      {
        if !(index.pos < |index.entries|) {
          data := null;
          BackwardShows(m);
          return;
        }
        index.Prev();
        InitDataBlock();
        StartEnds();
        if data != null {
          OverBlock();
          data.SeekToLast();
        }
      }
      BackwardShows(m);
    }

    method SeekToFirst()
      requires Repr()
      modifies this, index`pos, data
      ensures Shows(0)
    {
      index.SeekToFirst();
      InitDataBlock();
      if data != null { data.SeekToFirst(); }
      SkipEmptyDataBlocksForward(0);
    }

    method SeekToLast()
      requires Repr()
      modifies this, index`pos, data
      ensures Shows(|All()| - 1)
    {
      index.SeekToLast();
      InitDataBlock();
      if data != null { data.SeekToLast(); }
      SkipEmptyDataBlocksBackward(|All()| - 1);
    }

    method Next(ghost m: nat)
      requires Shows(m) && Valid()
      modifies this, index`pos, data
      ensures Shows(m + 1)
    {
      data.Next();
      SkipEmptyDataBlocksForward(m + 1);
    }

    method Prev(ghost m: nat)
      requires Shows(m) && Valid()
      modifies this, index`pos, data
      ensures Shows(m - 1)
    {
      data.Prev();
      SkipEmptyDataBlocksBackward(m - 1);
    }

    /** The first entry of all blocks at or after the target. */
    method Seek(target: InternalKey) returns (ghost m: nat)
      requires Repr() && Separated()
      modifies this, index`pos, data
      ensures Shows(m) && m <= |All()|
      ensures forall i :: 0 <= i < m ==> Before(All()[i].key, target)
      ensures forall i :: m <= i < |All()| ==> NotAfter(target, All()[i].key)
    {
      index.Seek(target);
      InitDataBlock();
      if data != null { data.Seek(target); }
      m := if data == null then |All()| else Start(parts, index.pos) + data.pos;
      SeekSplits(target, m);
      SkipEmptyDataBlocksForward(m);
    }

    lemma SeekSplits(target: InternalKey, m: nat)
      requires Paired() && Separated() && Forward(m)
      requires forall k :: 0 <= k < index.pos ==> Before(index.entries[k].key, target)
      requires forall k :: index.pos <= k < |parts| ==> NotAfter(target, index.entries[k].key)
      requires data != null ==> forall j :: 0 <= j < data.pos ==> Before(data.entries[j].key, target)
      requires data != null ==> forall j :: data.pos <= j < |data.entries| ==> NotAfter(target, data.entries[j].key)
      ensures m <= |All()|
      ensures forall i :: 0 <= i < m && i < |All()| ==> Before(All()[i].key, target)
      ensures forall i :: m <= i < |All()| ==> NotAfter(target, All()[i].key)
    {
      if data != null { StartGrows(parts, index.pos, |parts|); }
      forall i | 0 <= i < |All()|
        ensures if i < m then Before(All()[i].key, target) else NotAfter(target, All()[i].key)
      {
        var k, j := Located(parts, |parts|, i);
        if k < index.pos {
          StartGrows(parts, k, index.pos);
          assert NotAfter(parts[k][j].key, index.entries[k].key);
        } else if k > index.pos {
          StartGrows(parts, index.pos, k);
          assert Before(index.entries[index.pos].key, parts[k][j].key);
        }
      }
    }
  }
}
