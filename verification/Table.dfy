/**
 Sorted tables (table/table_builder.cc, table/table.cc): entries are cut into blocks, an index
 holds one short separator per block, and a lookup reads at most one block.
 */
module SortedTable {
  import opened Keys
  import opened Store
  import opened Version
  import opened PointLookup
  import opened Separators
  import FB = FilterBlock
  import Coding
  import Bloom

  const BLOCK_TRAILER_SIZE: nat := 5

  datatype BlockHandle = BlockHandle(offset: nat, size: nat)

  /** A data block as written to the file. */
  datatype DataBlock = DataBlock(handle: BlockHandle, entries: seq<Entry>)

  datatype IndexEntry = IndexEntry(key: InternalKey, handle: BlockHandle)

  datatype Table = Table(blocks: seq<DataBlock>, index: seq<IndexEntry>, filter: Option<seq<byte>>)

  function Last(es: seq<Entry>): Entry
    requires es != []
  {
    es[|es| - 1]
  }

  /** The entries of all blocks in order. */
  ghost function Flat(blocks: seq<DataBlock>): seq<Entry> {
    if blocks == [] then [] else Flat(blocks[..|blocks| - 1]) + blocks[|blocks| - 1].entries
  }

  /** Blocks are nonempty, sorted, in file order, and follow one another. */
  ghost predicate Chained(blocks: seq<DataBlock>) {
    && (forall i :: 0 <= i < |blocks| ==> blocks[i].entries != [] && Sorted(blocks[i].entries))
    && (forall i, j :: 0 <= i < j < |blocks| ==> Before(Last(blocks[i].entries).key, blocks[j].entries[0].key))
    && (forall i, j :: 0 <= i < j < |blocks| ==> blocks[i].handle.offset < blocks[j].handle.offset)
  }

  /**
   `key` is at or after everything in `block` and before `next`; unless it is the block's last
   key, its user key is even smaller than that of `next`.
   */
  ghost predicate Separates(key: InternalKey, block: seq<Entry>, next: Option<InternalKey>)
    requires block != []
  {
    && NotAfter(Last(block).key, key)
    && (next.Some? ==> Before(key, next.value))
    && (next.Some? ==> key == Last(block).key || Rank(key.user) < Rank(next.value.user))
  }

  /** The first key after block `i`: of the next block, or of what is still being built. */
  function NextKey(blocks: seq<DataBlock>, building: seq<Entry>, i: nat): Option<InternalKey>
    requires i < |blocks|
  {
    if i + 1 < |blocks| then (if blocks[i + 1].entries != [] then Some(blocks[i + 1].entries[0].key) else None)
    else if building != [] then Some(building[0].key) else None
  }

  ghost predicate Indexed(blocks: seq<DataBlock>, building: seq<Entry>, index: seq<IndexEntry>) {
    && |index| <= |blocks| && Chained(blocks)
    && forall i :: 0 <= i < |index| ==>
         index[i].handle == blocks[i].handle && Separates(index[i].key, blocks[i].entries, NextKey(blocks, building, i))
  }

  /** The filter indexes under which the reader will ask for the keys of a block. */
  ghost predicate Filtered(blocks: seq<DataBlock>, added: set<(nat, UserKey)>) {
    forall i, e :: 0 <= i < |blocks| && e in blocks[i].entries ==> (blocks[i].handle.offset / FB.BASE, e.key.user) in added
  }

  ghost predicate ValidTable(t: Table, policy: Bloom.BloomFilterPolicy) {
    && |t.index| == |t.blocks| && Indexed(t.blocks, [], t.index)
    && (t.filter.Some? ==> policy.Valid() && FilterServes(t.blocks, t.filter.value, policy))
  }

  /** The filter knows the entries of the block being built. */
  ghost predicate Recorded(building: seq<Entry>, index: nat, added: set<(nat, UserKey)>) {
    forall e :: e in building ==> (index, e.key.user) in added
  }

  lemma RecordedOneMore(building: seq<Entry>, index: nat, added: set<(nat, UserKey)>, entry: Entry)
    requires Recorded(building, index, added) && (index, entry.key.user) in added
    ensures Recorded(building + [entry], index, added)
  {
  }

  ghost predicate FilterServes(blocks: seq<DataBlock>, filter: seq<byte>, policy: Bloom.BloomFilterPolicy) {
    exists added: set<(nat, UserKey)> :: FB.Covers(policy, filter, added) && Filtered(blocks, added)
  }

  lemma {:induction false} InFlat(blocks: seq<DataBlock>, e: Entry)
    ensures e in Flat(blocks) <==> exists i :: 0 <= i < |blocks| && e in blocks[i].entries
  {
    if blocks != [] {
      InFlat(blocks[..|blocks| - 1], e);
      assert forall i :: 0 <= i < |blocks| - 1 ==> blocks[..|blocks| - 1][i] == blocks[i];
    }
  }

  lemma WithinBlock(es: seq<Entry>, e: Entry)
    requires Sorted(es) && e in es
    ensures NotAfter(es[0].key, e.key) && NotAfter(e.key, Last(es).key)
  {
    var i :| 0 <= i < |es| && es[i] == e;
    assert i > 0 ==> Before(es[0].key, es[i].key);
    assert i < |es| - 1 ==> Before(es[i].key, Last(es).key);
  }

  // ---- Reading ----

  /** The first index entry at or after the lookup key. */
  ghost predicate IndexSeek(index: seq<IndexEntry>, key: InternalKey, b: nat) {
    && b <= |index|
    && (forall i :: 0 <= i < b ==> Before(index[i].key, key))
    && (b < |index| ==> NotAfter(key, index[b].key))
  }

  /** Nothing of `u` at or after the lookup key lies outside the block the index names. */
  lemma OnlyThatBlock(t: Table, u: UserKey, s: SeqNo, b: nat, k: nat, e: Entry)
    requires |t.index| == |t.blocks| && Indexed(t.blocks, [], t.index) && IndexSeek(t.index, LookupKey(u, s), b)
    requires k < |t.blocks| && e in t.blocks[k].entries && e.key.user == u && NotAfter(LookupKey(u, s), e.key)
    ensures b < |t.blocks| && (k == b || (k > b && t.index[b].key == Last(t.blocks[b].entries).key && t.index[b].key.user == u))
  {
    hide Indexed;
    BlockFacts(t, k);
    WithinBlock(t.blocks[k].entries, e);
    assert b <= k;
    if b < k {
      BlockFacts(t, b);
      BlockFacts(t, b + 1);
      var next := t.blocks[b + 1].entries;
      if b + 1 < k {
        LaterBlock(t, b + 1, k, next[0], e);
      } else {
        WithinBlock(next, e);
      }
      SameRank(t.index[b].key.user, u);
    }
  }

  /** A block is a sorted run, and its index key separates it from the next one. */
  lemma BlockFacts(t: Table, b: nat)
    requires |t.index| == |t.blocks| && Indexed(t.blocks, [], t.index) && b < |t.blocks|
    ensures t.blocks[b].entries != [] && Sorted(t.blocks[b].entries)
    ensures Separates(t.index[b].key, t.blocks[b].entries, NextKey(t.blocks, [], b))
    ensures NextKey(t.blocks, [], b) == if b + 1 < |t.blocks| then Some(t.blocks[b + 1].entries[0].key) else None
  {
  }

  /** The newest visible version in the named block is the newest of the table. */
  lemma BlockDecides(t: Table, u: UserKey, s: SeqNo, b: nat, e: Entry)
    requires |t.index| == |t.blocks| && Indexed(t.blocks, [], t.index) && IndexSeek(t.index, LookupKey(u, s), b)
    requires b < |t.blocks| && Newest(Elements(t.blocks[b].entries), u, s, e)
    ensures Newest(Elements(Flat(t.blocks)), u, s, e)
  {
    hide Indexed, IndexSeek, Flat, Separates;
    InFlat(t.blocks, e);
    forall f | Visible(Elements(Flat(t.blocks)), u, s, f)
      ensures f.key.seqno <= e.key.seqno
    {
      InFlat(t.blocks, f);
      var k :| 0 <= k < |t.blocks| && f in t.blocks[k].entries;
      OnlyThatBlock(t, u, s, b, k, f);
      if k == b {
        assert Visible(Elements(t.blocks[b].entries), u, s, f);
      } else {
        LaterBlock(t, b, k, e, f);
      }
    }
  }

  /** Blocks ascend. */
  lemma LaterBlock(t: Table, b: nat, k: nat, e: Entry, f: Entry)
    requires |t.index| == |t.blocks| && Indexed(t.blocks, [], t.index) && b < k < |t.blocks|
    requires e in t.blocks[b].entries && f in t.blocks[k].entries
    ensures Before(e.key, f.key)
  {
    WithinBlock(t.blocks[b].entries, e);
    WithinBlock(t.blocks[k].entries, f);
    assert Before(Last(t.blocks[b].entries).key, t.blocks[k].entries[0].key);
  }

  /** Without a version of `u` to hit in the named block there is none in the table. */
  lemma BlockExcludes(t: Table, u: UserKey, s: SeqNo, b: nat)
    requires |t.index| == |t.blocks| && Indexed(t.blocks, [], t.index) && IndexSeek(t.index, LookupKey(u, s), b)
    requires b < |t.blocks| ==> Past(Elements(t.blocks[b].entries), u, s)
    ensures Past(Elements(Flat(t.blocks)), u, s)
  {
    assert b < |t.blocks| ==> Last(t.blocks[b].entries) in t.blocks[b].entries;
    forall e | e in Elements(Flat(t.blocks)) && e.key.user == u && NotAfter(LookupKey(u, s), e.key)
      ensures false
    {
      InFlat(t.blocks, e);
      var k :| 0 <= k < |t.blocks| && e in t.blocks[k].entries;
      OnlyThatBlock(t, u, s, b, k, e);
    }
  }

  /** Table::InternalGet, with the number of data blocks it reads. */
  method InternalGet(t: Table, policy: Bloom.BloomFilterPolicy, u: UserKey, s: SeqNo) returns (hit: Option<Entry>, blocksRead: nat)
    requires ValidTable(t, policy)
    ensures TableHit(Flat(t.blocks), u, s, hit)
    ensures HandsOver(t, policy, u, s, hit)
    ensures blocksRead <= 1
    ensures forall b: nat :: IndexSeek(t.index, LookupKey(u, s), b) ==> (blocksRead == 0 <==> b == |t.index| || FilteredOut(t, policy, b, u))
  {
    hide Sought, Denied, FB.Covers, FB.Encodes, FB.Verdict, Filtered, IsHit, Before;
    hit, blocksRead := None, 0;
    var b := 0;
    while b < |t.index| && CompareInternal(t.index[b].key, LookupKey(u, s)) < 0
      invariant b <= |t.index|
      invariant forall i :: 0 <= i < b ==> Before(t.index[i].key, LookupKey(u, s))
    {
      b := b + 1;
    }
    if b < |t.index| {
      var may := true;
      if t.filter.Some? {
        ghost var added :| FB.Covers(policy, t.filter.value, added) && Filtered(t.blocks, added);
        may := FB.KeyMayMatch(policy, t.filter.value, t.index[b].handle.offset, u, added);
        DeniedIs(t, policy, b, u, may, added);
        FilteredOutIs(t, policy, b, u, may, added);
        if !may { AddedAdmits(t, b, u, s, added); }
      } else {
        NoFilter(t, policy, b, u);
      }
      assert IndexSeek(t.index, LookupKey(u, s), b);
      SeekOnce(t, u, s, b);
      if may {
        var block := ReadBlock(t, t.index[b].handle, b);
        blocksRead := 1;
        hit := SeekEntry(block, u, s);
        FromBlock(t, u, s, b, hit);
        return;
      }
    }
    assert IndexSeek(t.index, LookupKey(u, s), b);
    SeekOnce(t, u, s, b);
    BlockExcludes(t, u, s, b);
    Nothing(Flat(t.blocks), u, s);
  }

  lemma Nothing(es: seq<Entry>, u: UserKey, s: SeqNo)
    requires Past(Elements(es), u, s)
    ensures TableHit(es, u, s, None)
  {
  }

  /** The filter denies the key under the offset of block `b`. */
  ghost predicate Denied(t: Table, policy: Bloom.BloomFilterPolicy, b: nat, u: UserKey)
    requires b < |t.index|
  {
    t.filter.Some? && forall result, offsets :: FB.Encodes(t.filter.value, result, offsets) ==>
      !FB.Verdict(policy, result, offsets, t.index[b].handle.offset, u)
  }

  lemma NoFilter(t: Table, policy: Bloom.BloomFilterPolicy, b: nat, u: UserKey)
    requires b < |t.index| && t.filter.None?
    ensures !Denied(t, policy, b, u)
  {
  }

  lemma DeniedIs(t: Table, policy: Bloom.BloomFilterPolicy, b: nat, u: UserKey, may: bool, added: set<(nat, UserKey)>)
    requires b < |t.index| && t.filter.Some? && FB.Covers(policy, t.filter.value, added)
    requires forall result, offsets :: FB.Encodes(t.filter.value, result, offsets) ==>
               (may <==> FB.Verdict(policy, result, offsets, t.index[b].handle.offset, u))
    ensures Denied(t, policy, b, u) <==> !may
  {
    hide FB.Verdict, FB.Serves;
    var result, offsets :| FB.Encodes(t.filter.value, result, offsets) && FB.Serves(policy, result, offsets, added, []);
  }

  /** The table has a filter, and the one for the block's offset does not match the key. */
  ghost predicate FilteredOut(t: Table, policy: Bloom.BloomFilterPolicy, b: nat, u: UserKey)
    requires b < |t.index|
  {
    t.filter.Some? && exists result, offsets ::
      && FB.Encodes(t.filter.value, result, offsets)
      && var i := t.index[b].handle.offset / 2048;
         i < |offsets| && !policy.MayMatch(FB.Filter(result, offsets, i), u)
  }

  lemma FilteredOutIs(t: Table, policy: Bloom.BloomFilterPolicy, b: nat, u: UserKey, may: bool, added: set<(nat, UserKey)>)
    requires b < |t.index| && t.filter.Some? && FB.Covers(policy, t.filter.value, added)
    requires forall result, offsets :: FB.Encodes(t.filter.value, result, offsets) ==>
               (may <==> FB.Verdict(policy, result, offsets, t.index[b].handle.offset, u))
    ensures FilteredOut(t, policy, b, u) <==> !may
  {
    hide FB.Serves;
    var result, offsets :| FB.Encodes(t.filter.value, result, offsets) && FB.Serves(policy, result, offsets, added, []);
    assert may <==> FB.Verdict(policy, result, offsets, t.index[b].handle.offset, u);
  }

  /** The index is sought to one place only. */
  lemma SeekOnce(t: Table, u: UserKey, s: SeqNo, b: nat)
    requires IndexSeek(t.index, LookupKey(u, s), b)
    ensures forall c: nat :: IndexSeek(t.index, LookupKey(u, s), c) ==> c == b
  {
    forall c: nat | IndexSeek(t.index, LookupKey(u, s), c)
      ensures c == b
    {
    }
  }

  /** A denied block has no version of the key. */
  lemma AddedAdmits(t: Table, b: nat, u: UserKey, s: SeqNo, added: set<(nat, UserKey)>)
    requires |t.index| == |t.blocks| && Indexed(t.blocks, [], t.index) && b < |t.index| && Filtered(t.blocks, added)
    requires (t.index[b].handle.offset / FB.BASE, u) !in added
    ensures Past(Elements(t.blocks[b].entries), u, s)
  {
  }

  /**
   What exactly is handed over: the index names a block, and unless there is none, or the filter
   denies the key, it is what a seek finds in that one block.
   */
  ghost predicate HandsOver(t: Table, policy: Bloom.BloomFilterPolicy, u: UserKey, s: SeqNo, hit: Option<Entry>) {
    exists b: nat :: IndexSeek(t.index, LookupKey(u, s), b)
      && if b == |t.index| || b >= |t.blocks| || Denied(t, policy, b, u) then hit.None? else Sought(t.blocks[b].entries, u, s, hit)
  }

  /** A table of one block without a filter hands over its first entry at or after the lookup key, parsable or not. */
  lemma OneBlockHandsOver(t: Table, policy: Bloom.BloomFilterPolicy, u: UserKey, s: SeqNo, hit: Option<Entry>, e: Entry)
    requires ValidTable(t, policy) && |t.blocks| == 1 && t.filter.None?
    requires HandsOver(t, policy, u, s, hit) && FirstFrom(t.blocks[0].entries, u, s, e)
    ensures hit == Some(e)
  {
    var b: nat :| IndexSeek(t.index, LookupKey(u, s), b)
      && if b == |t.index| || b >= |t.blocks| || Denied(t, policy, b, u) then hit.None? else Sought(t.blocks[b].entries, u, s, hit);
    assert Separates(t.index[0].key, t.blocks[0].entries, NextKey(t.blocks, [], 0));
    WithinBlock(t.blocks[0].entries, e);
    assert b == 0;
    FirstIsOne(t.blocks[0].entries, u, s, e, hit.value);
  }

  lemma FirstIsOne(es: seq<Entry>, u: UserKey, s: SeqNo, a: Entry, b: Entry)
    requires Sorted(es) && FirstFrom(es, u, s, a) && FirstFrom(es, u, s, b)
    ensures a == b
  {
    var i :| 0 <= i < |es| && es[i] == a;
    var j :| 0 <= j < |es| && es[j] == b;
  }

  lemma FromBlock(t: Table, u: UserKey, s: SeqNo, b: nat, hit: Option<Entry>)
    requires |t.index| == |t.blocks| && Indexed(t.blocks, [], t.index) && IndexSeek(t.index, LookupKey(u, s), b)
    requires b < |t.blocks| && IsHit(t.blocks[b].entries, u, s, hit) && Sought(t.blocks[b].entries, u, s, hit)
    ensures TableHit(Flat(t.blocks), u, s, hit)
  {
    if hit.Some? {
      InFlat(t.blocks, hit.value);
      if hit.value.Parses() && hit.value.key.user == u {
        BlockDecides(t, u, s, b, hit.value);
      }
    }
    if hit.None? || (hit.value.Parses() && hit.value.key.user != u) {
      BlockExcludes(t, u, s, b);
    }
  }

  /** BlockReader: the block that was written at the handle's offset. */
  method ReadBlock(t: Table, handle: BlockHandle, ghost b: nat) returns (entries: seq<Entry>)
    requires b < |t.blocks| && t.blocks[b].handle == handle && Chained(t.blocks)
    ensures entries == t.blocks[b].entries
  {
    assert forall j :: 0 <= j < b ==> t.blocks[j].handle.offset < t.blocks[b].handle.offset;
    var i := 0;
    while i < |t.blocks| && t.blocks[i].handle.offset != handle.offset
      invariant i <= b
    {
      i := i + 1;
    }
    entries := t.blocks[i].entries;
  }

  // ---- Building ----

  class TableBuilder {
    const policy: Bloom.BloomFilterPolicy
    const filterBlock: FB.FilterBlockBuilder?
    /** Whether the n-th operation on the file succeeds, and after how many entries a block counts as full. */
    const fileOk: nat -> bool
    const isFull: nat -> bool
    var fileOps: nat
    /** status is OK so far. */
    var ok: bool
    var closed: bool
    /** File offset of the data block being built. */
    var offset: nat
    var dataBlock: seq<Entry>
    var indexBlock: seq<IndexEntry>
    var lastKey: InternalKey
    var numEntries: nat
    /** The last written block still lacks its index entry; it waits for the next key. */
    var pendingIndexEntry: bool
    var pendingHandle: BlockHandle
    /** The data blocks written to the file. */
    var blocks: seq<DataBlock>
    ghost var added: seq<Entry>

    ghost predicate Wired()
      reads this, filterBlock
    {
      filterBlock != null ==> filterBlock.Valid() && filterBlock.policy == policy && |filterBlock.filterOffsets| == offset / FB.BASE
    }

    /** The status only ever turns bad over a failed operation on the file. */
    ghost predicate Honest()
      reads this
    {
      (forall n: nat :: fileOk(n)) ==> ok
    }

    ghost function State(): BuilderState
      reads this
    {
      BuilderState(blocks, dataBlock, indexBlock, offset, lastKey, if pendingIndexEntry then Some(pendingHandle) else None)
    }

    ghost predicate Shape()
      reads this
    {
      WellShaped(State(), added) && numEntries == |added|
    }

    ghost predicate FilterKnows()
      reads this, filterBlock
    {
      filterBlock != null ==> Filtered(blocks, filterBlock.added) && Recorded(dataBlock, offset / FB.BASE, filterBlock.added)
    }

    ghost predicate Valid()
      reads this, filterBlock
    {
      Wired() && Honest() && (ok ==> Shape() && FilterKnows())
    }

    constructor (policy: Bloom.BloomFilterPolicy, filterBlock: FB.FilterBlockBuilder?, fileOk: nat -> bool, isFull: nat -> bool)
      requires policy.Valid()
      requires filterBlock != null ==>
        filterBlock.Valid() && filterBlock.policy == policy && filterBlock.filterOffsets == [] && filterBlock.added == {}
      modifies filterBlock
      ensures Valid() && ok && !closed && added == [] && this.policy == policy && this.filterBlock == filterBlock
      ensures this.fileOk == fileOk && this.isFull == isFull
    {
      this.fileOk, this.isFull, fileOps := fileOk, isFull, 0;
      this.policy := policy;
      this.filterBlock := filterBlock;
      ok, closed, offset := true, false, 0;
      dataBlock, indexBlock, blocks, added := [], [], [], [];
      lastKey, numEntries := InternalKey([], 0, 0), 0;
      pendingIndexEntry, pendingHandle := false, BlockHandle(0, 0);
      new;
      if filterBlock != null {
        filterBlock.StartBlock(0);
      }
    }

    /** Add, for keys in increasing order. */
    method Add(entry: Entry)
      requires Valid() && !closed
      requires ok && added != [] ==> Before(Last(added).key, entry.key)
      modifies this, filterBlock
      ensures Valid() && !closed
      ensures ok ==> old(ok) && added == old(added) + [entry]
      ensures ok ==>
                if isFull(|old(dataBlock)| + 1) then
                  && dataBlock == [] && |blocks| == |old(blocks)| + 1
                  && blocks[..|old(blocks)|] == old(blocks) && blocks[|old(blocks)|].entries == old(dataBlock) + [entry]
                else
                  blocks == old(blocks) && dataBlock == old(dataBlock) + [entry]
      ensures !old(ok) ==> unchanged(this)
    {
      hide WellShaped, Indexed, Flat, Filtered, FB.FilterBlockBuilder.Valid, Rank;
      if !ok {
        return;
      }
      Accept(entry);
      if isFull(|dataBlock|) {
        Flush();
      }
    }

    /** Takes the entry into the block being built, settling a pending index entry first. */
    method Accept(entry: Entry)
      requires Valid() && !closed && ok
      requires added != [] ==> Before(Last(added).key, entry.key)
      modifies this, filterBlock
      ensures Valid() && !closed && ok && added == old(added) + [entry]
      ensures blocks == old(blocks) && dataBlock == old(dataBlock) + [entry]
    {
      hide Wired, FilterKnows, WellShaped, Indexed, Flat, Filtered, Rank, Before, NotAfter, Last;
      LastOfAddedIfOk();
      ghost var before := State();
      var separator := SettleIndexEntry(entry.key);
      assert State() == before.(index := indexBlock, pending := None);
      StateAdds(before, added, separator, entry);
      ghost var after := BuilderState(before.blocks, before.building + [entry], indexBlock, before.offset, entry.key, None);
      assert WellShaped(after, added + [entry]);
      RecordInFilter(entry.key.user);
      Place(entry);
      assert State() == after;
    }

    method Place(entry: Entry)
      requires Wired() && FilterKnows()
      requires filterBlock != null ==> (offset / FB.BASE, entry.key.user) in filterBlock.added
      modifies `lastKey, `numEntries, `dataBlock, `added
      ensures Wired() && FilterKnows()
      ensures State() == old(State()).(building := old(dataBlock) + [entry], lastKey := entry.key)
      ensures numEntries == old(numEntries) + 1 && added == old(added) + [entry]
    {
      hide Filtered, FB.FilterBlockBuilder.Valid;
      if filterBlock != null { RecordedOneMore(dataBlock, offset / FB.BASE, filterBlock.added, entry); }
      lastKey := entry.key;
      numEntries := numEntries + 1;
      dataBlock := dataBlock + [entry];
      added := added + [entry];
    }

    /** The pending index entry is written once the next block's first key is known. */
    method SettleIndexEntry(next: InternalKey) returns (separator: InternalKey)
      requires Wired() && FilterKnows()
      modifies `indexBlock, `pendingIndexEntry
      ensures Wired() && FilterKnows()
      ensures indexBlock == (if old(pendingIndexEntry) then old(indexBlock) + [IndexEntry(separator, pendingHandle)] else old(indexBlock))
      ensures !pendingIndexEntry
      ensures Before(lastKey, next) ==> NotAfter(lastKey, separator) && Before(separator, next)
      ensures separator == lastKey || Rank(separator.user) < Rank(next.user)
    {
      separator := lastKey;
      if pendingIndexEntry {
        separator := InternalSeparator(lastKey, next);
        indexBlock := indexBlock + [IndexEntry(separator, pendingHandle)];
        pendingIndexEntry := false;
      }
    }

    /** The filter learns the user key under the current block's offset. */
    method RecordInFilter(u: UserKey)
      requires Wired() && FilterKnows()
      modifies filterBlock
      ensures Wired() && FilterKnows()
      ensures filterBlock != null ==> (offset / FB.BASE, u) in filterBlock.added
    {
      hide Filtered, FB.FilterBlockBuilder.Valid;
      if filterBlock != null {
        ghost var known := filterBlock.added;
        filterBlock.AddKey(u);
        FilteredMore(blocks, known, filterBlock.added);
      }
    }

    lemma LastOfAddedIfOk()
      requires Valid() && ok
      ensures added != [] ==> Last(added).key == lastKey
      ensures pendingIndexEntry ==> added != []
    {
      LastOfAdded(State(), added);
    }

    /** Writes the data block being built, if any, and leaves its index entry pending. */
    method Flush()
      requires Valid() && !closed
      modifies this, filterBlock
      ensures Valid() && !closed && added == old(added)
      ensures ok ==> old(ok) && dataBlock == [] && (blocks != [] ==> pendingIndexEntry)
      ensures ok && old(dataBlock) == [] ==> blocks == old(blocks)
      ensures ok && old(dataBlock) != [] ==> |blocks| == |old(blocks)| + 1 && blocks[..|old(blocks)|] == old(blocks) && blocks[|old(blocks)|].entries == old(dataBlock)
    {
      hide WellShaped, Indexed, Flat, Filtered, FB.FilterBlockBuilder.Valid;
      if !ok {
        return;
      }
      if dataBlock == [] {
        EmptyFlat(State(), added);
        return;
      }
      ghost var written := blocks;
      WriteBlock();
      if ok && filterBlock != null { FilteredGrows(written, blocks[|written|], filterBlock.added); }
      if ok {
        ok, fileOps := fileOk(fileOps), fileOps + 1;
      }
      if filterBlock != null {
        filterBlock.StartBlock(offset);
      }
    }

    /** WriteBlock and WriteRawBlock: the block lands at the current offset, or writing fails. */
    method WriteBlock()
      requires ok && Shape() && dataBlock != []
      modifies this
      ensures ok <==> fileOk(old(fileOps))
      ensures offset >= old(offset) && added == old(added) && closed == old(closed)
      ensures ok ==> Shape() && pendingIndexEntry && dataBlock == [] && offset > old(offset)
      ensures ok ==> blocks == old(blocks) + [DataBlock(pendingHandle, old(dataBlock))] && pendingHandle.offset == old(offset)
      ensures ok ==> offset == old(offset) + pendingHandle.size + 5
    {
      hide WellShaped, Flat;
      var size: nat := *;
      var handle := BlockHandle(offset, size);
      var written := fileOk(fileOps);
      fileOps := fileOps + 1;
      if written {
        StateWrites(State(), added, size);
        pendingHandle := handle;
        pendingIndexEntry := true;
        blocks := blocks + [DataBlock(handle, dataBlock)];
        offset := offset + size + BLOCK_TRAILER_SIZE;
      } else {
        ok := false;
      }
      dataBlock := [];
    }

    /** Finish: the remaining entries, the filter block and the index. */
    method Finish() returns (table: Table)
      requires Valid() && !closed
      modifies this, filterBlock
      ensures closed && added == old(added)
      ensures (forall n: nat :: fileOk(n)) ==> ok
      ensures ok ==> Flat(table.blocks) == added
      ensures ok && (filterBlock != null ==> |filterBlock.result| <= Coding.MAX32) ==> ValidTable(table, policy)
      ensures table.filter.Some? <==> filterBlock != null
    {
      hide WellShaped, Indexed, Flat, Filtered, FB.FilterBlockBuilder.Valid, FB.Covers;
      Flush();
      closed := true;
      var filter: Option<seq<byte>> := None;
      if filterBlock != null {
        var contents := filterBlock.Finish();
        filter := Some(contents);
        PolicyIsValid(filterBlock);
      }
      if ok && pendingIndexEntry {
        var successor := InternalSuccessor(lastKey);
        StateFinishes(State(), added, successor);
        indexBlock := indexBlock + [IndexEntry(successor, pendingHandle)];
        pendingIndexEntry := false;
      } else if ok {
        StateFinishes(State(), added, lastKey);
      }
      if ok {
        ok, fileOps := fileOk(fileOps), fileOps + 1;
      }
      table := Table(blocks, indexBlock, filter);
    }
  }

  lemma PolicyIsValid(filterBlock: FB.FilterBlockBuilder)
    requires filterBlock.Valid()
    ensures filterBlock.policy.Valid()
  {
  }

  /** A settled last index entry completes the index. */
  lemma StateFinishes(s: BuilderState, added: seq<Entry>, successor: InternalKey)
    requires WellShaped(s, added) && s.building == [] && NotAfter(s.lastKey, successor)
    ensures var index := if s.pending.Some? then s.index + [IndexEntry(successor, s.pending.value)] else s.index;
      |index| == |s.blocks| && Indexed(s.blocks, [], index)
    ensures Flat(s.blocks) == added
  {
    var index := if s.pending.Some? then s.index + [IndexEntry(successor, s.pending.value)] else s.index;
    assert forall i :: 0 <= i < |s.index| ==> index[i] == s.index[i];
  }

  /** The builder's state: `pending` is the handle that waits for its index entry. */
  datatype BuilderState = BuilderState(blocks: seq<DataBlock>, building: seq<Entry>, index: seq<IndexEntry>, offset: nat,
                                       lastKey: InternalKey, pending: Option<BlockHandle>)

  /** The index covers every written block, but for a pending last one. */
  ghost predicate WellShaped(s: BuilderState, added: seq<Entry>) {
    var n := |s.blocks|;
    && Sorted(s.building) && Indexed(s.blocks, s.building, s.index)
    && (forall i :: 0 <= i < n ==> s.blocks[i].handle.offset < s.offset)
    && n == |s.index| + (if s.pending.Some? then 1 else 0)
    && (n > 0 && s.building != [] ==> Before(Last(s.blocks[n - 1].entries).key, s.building[0].key))
    && (s.pending.Some? ==> s.building == [] && s.lastKey == Last(s.blocks[n - 1].entries).key)
    && (s.pending.Some? ==> s.pending.value == s.blocks[n - 1].handle)
    && (s.pending.None? && n > 0 ==> s.building != [])
    && (s.building != [] ==> s.lastKey == Last(s.building).key)
    && added == Flat(s.blocks) + s.building
  }

  /** Adding an entry settles a pending index entry with a separator before it. */
  lemma StateAdds(s: BuilderState, added: seq<Entry>, separator: InternalKey, entry: Entry)
    requires WellShaped(s, added) && (added != [] ==> Before(Last(added).key, entry.key))
    requires s.pending.Some? && Before(s.lastKey, entry.key) ==> NotAfter(s.lastKey, separator) && Before(separator, entry.key)
    requires s.pending.Some? ==> separator == s.lastKey || Rank(separator.user) < Rank(entry.key.user)
    ensures var index := if s.pending.Some? then s.index + [IndexEntry(separator, s.pending.value)] else s.index;
      WellShaped(BuilderState(s.blocks, s.building + [entry], index, s.offset, entry.key, None), added + [entry])
  {
    LastOfAdded(s, added);
    assert added + [entry] == Flat(s.blocks) + (s.building + [entry]);
    var index := if s.pending.Some? then s.index + [IndexEntry(separator, s.pending.value)] else s.index;
    IndexAdds(s.blocks, s.building, s.index, index, entry);
    SortedAdds(s.building, entry);
  }

  /** With nothing being built, a written last block has its index entry pending. */
  lemma EmptyFlat(s: BuilderState, added: seq<Entry>)
    requires WellShaped(s, added) && s.building == []
    ensures s.blocks != [] ==> s.pending.Some?
  {
  }

  lemma FilteredMore(blocks: seq<DataBlock>, added: set<(nat, UserKey)>, more: set<(nat, UserKey)>)
    requires Filtered(blocks, added) && added <= more
    ensures Filtered(blocks, more)
  {
  }

  lemma FilteredGrows(blocks: seq<DataBlock>, block: DataBlock, added: set<(nat, UserKey)>)
    requires Filtered(blocks, added)
    requires forall e :: e in block.entries ==> (block.handle.offset / FB.BASE, e.key.user) in added
    ensures Filtered(blocks + [block], added)
  {
  }

  lemma LastOfAdded(s: BuilderState, added: seq<Entry>)
    requires WellShaped(s, added)
    ensures added == [] <==> s.blocks == [] && s.building == []
    ensures added != [] ==> Last(added).key == s.lastKey
  {
    if s.building == [] && s.blocks != [] {
      assert s.blocks[|s.blocks| - 1].entries != [];
    }
  }

  lemma SortedAdds(es: seq<Entry>, entry: Entry)
    requires Sorted(es) && (es != [] ==> Before(Last(es).key, entry.key))
    ensures Sorted(es + [entry])
  {
    forall i | 0 <= i < |es|
      ensures Before(es[i].key, entry.key)
    {
      assert i < |es| - 1 ==> Before(es[i].key, Last(es).key);
    }
  }

  lemma IndexAdds(blocks: seq<DataBlock>, building: seq<Entry>, index: seq<IndexEntry>, index': seq<IndexEntry>, entry: Entry)
    requires Indexed(blocks, building, index) && |index'| == |blocks|
    requires index' == index || (|blocks| == |index| + 1 && building == [] && index'[..|index|] == index)
    requires index' != index ==>
      var i := |index|; index'[i].handle == blocks[i].handle && Separates(index'[i].key, blocks[i].entries, Some(entry.key))
    requires index' == index && blocks != [] ==> building != []
    ensures Indexed(blocks, building + [entry], index')
  {
    forall i | 0 <= i < |index|
      ensures index'[i] == index[i] && NextKey(blocks, building + [entry], i) == NextKey(blocks, building, i)
    {
      assert index'[..|index|][i] == index'[i];
    }
  }

  /** Writing the block being built leaves its index entry pending. */
  lemma StateWrites(s: BuilderState, added: seq<Entry>, size: nat)
    requires WellShaped(s, added) && s.building != []
    ensures var handle := BlockHandle(s.offset, size);
      WellShaped(BuilderState(s.blocks + [DataBlock(handle, s.building)], [], s.index, s.offset + size + BLOCK_TRAILER_SIZE,
                              s.lastKey, Some(handle)), added)
  {
    var now := s.blocks + [DataBlock(BlockHandle(s.offset, size), s.building)];
    assert now[..|now| - 1] == s.blocks;
    assert added == Flat(now) + [];
    ChainGrows(s.blocks, DataBlock(BlockHandle(s.offset, size), s.building));
    forall i | 0 <= i < |s.index|
      ensures NextKey(now, [], i) == NextKey(s.blocks, s.building, i)
    {
      assert i + 1 < |s.blocks| ==> now[i + 1] == s.blocks[i + 1];
    }
  }

  lemma ChainGrows(blocks: seq<DataBlock>, block: DataBlock)
    requires Chained(blocks) && block.entries != [] && Sorted(block.entries)
    requires blocks != [] ==> Before(Last(blocks[|blocks| - 1].entries).key, block.entries[0].key)
    requires forall i :: 0 <= i < |blocks| ==> blocks[i].handle.offset < block.handle.offset
    ensures Chained(blocks + [block])
  {
    forall i | 0 <= i < |blocks|
      ensures Before(Last(blocks[i].entries).key, block.entries[0].key)
    {
      var last := blocks[|blocks| - 1].entries;
      WithinBlock(last, last[0]);
      assert i < |blocks| - 1 ==> Before(Last(blocks[i].entries).key, last[0].key);
    }
  }
}
