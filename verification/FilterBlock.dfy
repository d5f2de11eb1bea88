/**
 The filter block of a table (table/filter_block.cc): one bloom filter per 2048 bytes of data
 offset. Looking up a key under the offset its block started at never denies it.
 */
module FilterBlock {
  import opened Keys
  import opened Coding
  import opened Bloom

  const BASE_LG: nat := 11
  const BASE: nat := 2048

  /** Filter offsets ascend up to the end of the filter bytes. */
  predicate Ascending(offsets: seq<nat>, end: nat) {
    && (forall i :: 0 <= i < |offsets| ==> offsets[i] <= end)
    && (forall i :: 0 < i < |offsets| ==> offsets[i - 1] <= offsets[i])
  }

  function FilterEnd(offsets: seq<nat>, end: nat, i: nat): nat
    requires i < |offsets|
  {
    if i + 1 < |offsets| then offsets[i + 1] else end
  }

  /** The bytes of finished filter `i`. */
  function Filter(result: Bytes, offsets: seq<nat>, i: nat): Bytes
    requires i < |offsets| && Ascending(offsets, |result|)
  {
    result[offsets[i]..FilterEnd(offsets, |result|, i)]
  }

  /** Every key added under index `i` is admitted by filter `i`, or waits for it. */
  ghost predicate Serves(policy: BloomFilterPolicy, result: Bytes, offsets: seq<nat>, added: set<(nat, UserKey)>, pending: seq<UserKey>)
    requires Ascending(offsets, |result|)
  {
    forall a :: a in added ==>
      if a.0 < |offsets| then policy.Admits(Filter(result, offsets, a.0), a.1) else a.0 == |offsets| && a.1 in pending
  }

  /** The filter of a group of keys; without keys it is empty. */
  ghost predicate FilterOf(policy: BloomFilterPolicy, keys: seq<UserKey>, filter: Bytes) {
    if keys == [] then filter == [] else policy.IsFilterOf(keys, filter)
  }

  /** Filter `i` is the filter of exactly the keys of group `i`. */
  ghost predicate Holds(policy: BloomFilterPolicy, result: Bytes, offsets: seq<nat>, groups: seq<seq<UserKey>>)
    requires Ascending(offsets, |result|)
  {
    |groups| == |offsets| && forall i :: 0 <= i < |groups| ==> FilterOf(policy, groups[i], Filter(result, offsets, i))
  }

  lemma FilterAppended(policy: BloomFilterPolicy, result: Bytes, offsets: seq<nat>, added: set<(nat, UserKey)>,
                       groups: seq<seq<UserKey>>, pending: seq<UserKey>, filter: Bytes)
    requires policy.Valid() && Ascending(offsets, |result|)
    requires Serves(policy, result, offsets, added, pending) && Holds(policy, result, offsets, groups)
    requires FilterOf(policy, pending, filter)
    ensures Ascending(offsets + [|result|], |result + filter|)
    ensures Serves(policy, result + filter, offsets + [|result|], added, [])
    ensures Holds(policy, result + filter, offsets + [|result|], groups + [pending])
  {
    hide FilterOf, BloomFilterPolicy.Admits, BloomFilterPolicy.Valid;
    var offsets', result' := offsets + [|result|], result + filter;
    forall i | 0 <= i < |offsets|
      ensures Filter(result', offsets', i) == Filter(result, offsets, i)
    {
    }
    assert Filter(result', offsets', |offsets|) == filter;
    forall key | key in pending
      ensures policy.Admits(filter, key)
    {
      AdmitsMember(policy, pending, filter, key);
    }
  }

  lemma AdmitsMember(policy: BloomFilterPolicy, keys: seq<UserKey>, filter: Bytes, key: UserKey)
    requires policy.Valid() && FilterOf(policy, keys, filter) && key in keys
    ensures policy.Admits(filter, key)
  {
    policy.AdmitsItsKeys(keys, filter, key);
  }

  class FilterBlockBuilder {
    const policy: BloomFilterPolicy
    /** Flattened key contents, and where each key starts. */
    var keys: seq<byte>
    var start: seq<nat>
    var result: Bytes
    var filterOffsets: seq<nat>
    /** The keys of every filter, those added since the last one, and every key with the index it was added under. */
    ghost var groups: seq<seq<UserKey>>
    ghost var pending: seq<UserKey>
    ghost var added: set<(nat, UserKey)>

    ghost predicate Flat()
      reads this
    {
      && |start| == |pending|
      && (forall i :: 0 <= i < |start| ==> start[i] <= start[i] + |pending[i]| == KeyEnd(i) <= |keys|)
      && (forall i :: 0 <= i < |start| ==> keys[start[i]..KeyEnd(i)] == pending[i])
    }

    /** Where key `i` ends: at the start of the next one, or of the end. */
    ghost function KeyEnd(i: nat): nat
      requires i < |start|
      reads this
    {
      if i + 1 < |start| then start[i + 1] else |keys|
    }

    ghost predicate Valid()
      reads this
    {
      && policy.Valid() && Flat() && Ascending(filterOffsets, |result|)
      && Serves(policy, result, filterOffsets, added, pending) && Holds(policy, result, filterOffsets, groups)
    }

    constructor (policy: BloomFilterPolicy)
      requires policy.Valid()
      ensures Valid() && added == {} && filterOffsets == [] && pending == [] && this.policy == policy
    {
      this.policy := policy;
      keys, start, result, filterOffsets := [], [], [], [];
      groups, pending, added := [], [], {};
    }

    /** Records a key for the filter of the current data block. */
    method AddKey(key: UserKey)
      requires Valid()
      modifies this
      ensures Valid() && filterOffsets == old(filterOffsets) && groups == old(groups) && pending == old(pending) + [key]
      ensures added == old(added) + {(|filterOffsets|, key)}
    {
      hide Holds, Ascending, BloomFilterPolicy.Admits, BloomFilterPolicy.Valid;
      start := start + [|keys|];
      keys := keys + key;
      pending := pending + [key];
      added := added + {(|filterOffsets|, key)};
    }

    /** Cuts the flattened contents back into keys. */
    method CutKeys() returns (tmpKeys: seq<UserKey>)
      requires Valid()
      ensures tmpKeys == pending
    {
      var ends := start + [|keys|];
      tmpKeys := [];
      for i := 0 to |start|
        invariant tmpKeys == pending[..i]
      {
        assert start[i] <= start[i] + |pending[i]| == KeyEnd(i) <= |keys|;
        tmpKeys := tmpKeys + [keys[start[i]..ends[i + 1]]];
      }
    }

    /** Closes the filter of the pending keys; without keys it is empty. */
    method GenerateFilter()
      requires Valid()
      modifies this
      ensures Valid() && added == old(added)
      ensures |filterOffsets| == old(|filterOffsets|) + 1 && groups == old(groups) + [old(pending)] && pending == []
    {
      hide Serves, Holds, Ascending, BloomFilterPolicy.Valid, BloomFilterPolicy.IsFilterOf;
      if |start| == 0 {
        FilterAppended(policy, result, filterOffsets, added, groups, pending, []);
        assert result + [] == result;
        filterOffsets, groups := filterOffsets + [|result|], groups + [pending];
        return;
      }
      var tmpKeys := CutKeys();
      var filter := policy.CreateFilter(tmpKeys);
      FilterAppended(policy, result, filterOffsets, added, groups, pending, filter);
      filterOffsets, groups := filterOffsets + [|result|], groups + [pending];
      result := result + filter;
      keys, start, pending := [], [], [];
    }

    /** A data block starts at `blockOffset`; offsets never decrease. */
    method StartBlock(blockOffset: nat)
      requires Valid() && blockOffset / 2048 >= |filterOffsets|
      modifies this
      ensures Valid() && added == old(added) && |filterOffsets| == blockOffset / 2048
      ensures blockOffset / 2048 == old(|filterOffsets|) ==> groups == old(groups) && pending == old(pending)
      ensures blockOffset / 2048 > old(|filterOffsets|) ==>
                && pending == [] && |groups| > old(|groups|) && groups[..old(|groups|) + 1] == old(groups) + [old(pending)]
                && forall i :: old(|groups|) < i < |groups| ==> groups[i] == []
    {
      var filterIndex := blockOffset / BASE;
      while filterIndex > |filterOffsets|
        invariant Valid() && added == old(added) && |filterOffsets| <= filterIndex && old(|groups|) <= |groups|
        invariant |filterOffsets| == old(|filterOffsets|) ==> groups == old(groups) && pending == old(pending)
        invariant |filterOffsets| > old(|filterOffsets|) ==>
                    && pending == [] && |groups| > old(|groups|) && groups[..old(|groups|) + 1] == old(groups) + [old(pending)]
                    && forall i :: old(|groups|) < i < |groups| ==> groups[i] == []
        invariant |filterOffsets| >= old(|filterOffsets|)
      {
        GenerateFilter();
      }
    }

    /** Closes the block: filters, their offsets, the end of the filters, the base. */
    method Finish() returns (contents: Bytes)
      requires Valid()
      modifies this
      ensures Valid() && added == old(added)
      ensures groups == if old(pending) == [] then old(groups) else old(groups) + [old(pending)]
      ensures |result| <= MAX32 ==> Encodes(contents, result, filterOffsets) && Covers(policy, contents, added)
    {
      hide Serves, Holds, Ascending, BloomFilterPolicy.Valid;
      if |start| > 0 {
        GenerateFilter();
      }
      contents := result;
      for i := 0 to |filterOffsets|
        invariant contents == result + Fixed32s(filterOffsets[..i])
        invariant Valid() && added == old(added) && pending == []
        invariant groups == if old(pending) == [] then old(groups) else old(groups) + [old(pending)]
      {
        assert filterOffsets[..i + 1][..i] == filterOffsets[..i];
        contents := contents + Fixed32(filterOffsets[i]);
      }
      assert filterOffsets[..|filterOffsets|] == filterOffsets;
      contents := contents + Fixed32(|result|) + [BASE_LG as byte];
    }
  }

  /** The encoded block, and where its number table sits. */
  lemma {:induction false} ReadOffsets(result: Bytes, offsets: seq<nat>, contents: Bytes, i: nat)
    requires contents == result + Fixed32s(offsets) + Fixed32(|result|) + [BASE_LG as byte]
    requires Ascending(offsets, |result|) && |result| <= MAX32 && i <= |offsets|
    ensures |contents| == |result| + 4 * |offsets| + 5
    ensures FromFixed(contents[|result| + 4 * i..|result| + 4 * i + 4]) == if i < |offsets| then offsets[i] else |result|
  {
    var at := |result| + 4 * i;
    if i < |offsets| {
      Fixed32At(offsets, i);
      assert contents[at..at + 4] == Fixed32s(offsets)[4 * i..4 * i + 4];
      Fixed32RoundTrip(offsets[i]);
    } else {
      assert contents[at..at + 4] == Fixed32(|result|);
      Fixed32RoundTrip(|result|);
    }
  }

  /** `contents` is the encoded block of these filters. */
  predicate Encodes(contents: Bytes, result: Bytes, offsets: seq<nat>) {
    && contents == result + Fixed32s(offsets) + Fixed32(|result|) + [BASE_LG as byte]
    && Ascending(offsets, |result|) && |result| <= MAX32
  }

  /** `contents` encodes filters that serve every key added. */
  ghost predicate Covers(policy: BloomFilterPolicy, contents: Bytes, added: set<(nat, UserKey)>) {
    exists result: Bytes, offsets: seq<nat> :: Encodes(contents, result, offsets) && Serves(policy, result, offsets, added, [])
  }

  /** What the reader finds for filter index `i` of an encoded block. */
  lemma ReadsFilter(result: Bytes, offsets: seq<nat>, contents: Bytes, i: nat)
    requires Encodes(contents, result, offsets) && i < |offsets|
    ensures |contents| == |result| + 4 * |offsets| + 5 && contents[|contents| - 1] as nat == 11
    ensures FromFixed(contents[|contents| - 5..|contents| - 1]) == |result|
    ensures var at := |result| + i * 4;
      && FromFixed(contents[at..at + 4]) == offsets[i]
      && FromFixed(contents[at + 4..at + 8]) == FilterEnd(offsets, |result|, i)
      && contents[offsets[i]..FilterEnd(offsets, |result|, i)] == Filter(result, offsets, i)
  {
    hide Fixed32s, FromFixed, Fixed32;
    ReadOffsets(result, offsets, contents, i);
    ReadOffsets(result, offsets, contents, i + 1);
    ReadOffsets(result, offsets, contents, |offsets|);
    var end := FilterEnd(offsets, |result|, i);
    assert offsets[i] <= end <= |result|;
    FrontSlice(result, Fixed32s(offsets) + Fixed32(|result|) + [BASE_LG as byte], contents, offsets[i], end);
  }

  lemma FrontSlice(a: Bytes, b: Bytes, c: Bytes, lo: nat, hi: nat)
    requires c == a + b && lo <= hi <= |a|
    ensures c[lo..hi] == a[lo..hi]
  {
  }

  /** Where the reader finds the number table and the end of the filters. */
  lemma ReadsTable(result: Bytes, offsets: seq<nat>, contents: Bytes)
    requires Encodes(contents, result, offsets)
    ensures |contents| == |result| + 4 * |offsets| + 5 && contents[|contents| - 1] as nat == BASE_LG
    ensures FromFixed(contents[|contents| - 5..|contents| - 1]) == |result|
  {
    hide Fixed32s, FromFixed, Fixed32;
    ReadOffsets(result, offsets, contents, |offsets|);
  }

  /** What the reader makes of filter index `i` of an encoded block. */
  ghost predicate ReadsAs(contents: Bytes, result: Bytes, offsets: seq<nat>, i: nat) {
    && Ascending(offsets, |result|) && |contents| == |result| + 4 * |offsets| + 5
    && contents[|contents| - 1] as nat == BASE_LG && FromFixed(contents[|contents| - 5..|contents| - 1]) == |result|
    && (i < |offsets| ==>
          var at := |result| + i * 4;
          && FromFixed(contents[at..at + 4]) == offsets[i] <= FilterEnd(offsets, |result|, i) <= |result|
          && FromFixed(contents[at + 4..at + 8]) == FilterEnd(offsets, |result|, i)
          && contents[offsets[i]..FilterEnd(offsets, |result|, i)] == Filter(result, offsets, i))
  }

  lemma Reads(contents: Bytes, result: Bytes, offsets: seq<nat>, i: nat)
    requires Encodes(contents, result, offsets)
    ensures ReadsAs(contents, result, offsets, i)
  {
    hide Fixed32s, FromFixed, Fixed32, Filter;
    ReadsTable(result, offsets, contents);
    if i < |offsets| { ReadsFilter(result, offsets, contents, i); }
  }

  /** A key that was added is not denied. */
  lemma Promised(policy: BloomFilterPolicy, contents: Bytes, added: set<(nat, UserKey)>, blockOffset: nat, key: UserKey)
    returns (result: Bytes, offsets: seq<nat>)
    requires policy.Valid() && Covers(policy, contents, added) && (blockOffset / 2048, key) in added
    ensures Encodes(contents, result, offsets) && Verdict(policy, result, offsets, blockOffset, key)
  {
    hide Fixed32s, FromFixed, Fixed32, Filter;
    result, offsets :| Encodes(contents, result, offsets) && Serves(policy, result, offsets, added, []);
  }

  /** What a filter block has to say on a key under a block offset: past its last filter it has no say. */
  ghost predicate Verdict(policy: BloomFilterPolicy, result: Bytes, offsets: seq<nat>, blockOffset: nat, key: UserKey)
    requires Ascending(offsets, |result|)
  {
    blockOffset / BASE < |offsets| ==> policy.MayMatch(Filter(result, offsets, blockOffset / BASE), key)
  }

  /**
   FilterBlockReader::KeyMayMatch, over any bytes: on an encoded block it asks exactly the filter
   of the block offset, so a block that covers the key under this offset never denies it.
   Errors count as potential matches.
   */
  method KeyMayMatch(policy: BloomFilterPolicy, contents: Bytes, blockOffset: nat, key: UserKey, ghost added: set<(nat, UserKey)>)
    returns (may: bool)
    requires policy.Valid()
    ensures forall result, offsets :: Encodes(contents, result, offsets) ==>
              (may <==> Verdict(policy, result, offsets, blockOffset, key))
              && (may <==> blockOffset / 2048 >= |offsets| || policy.MayMatch(Filter(result, offsets, blockOffset / 2048), key))
    ensures Covers(policy, contents, added) && (blockOffset / 2048, key) in added ==> may
    ensures |contents| < 5 || FromFixed(contents[|contents| - 5..|contents| - 1]) > |contents| - 5 ==> may
  {
    hide Covers, Encodes, FromFixed, ShiftRight, BloomFilterPolicy.MayMatch, BloomFilterPolicy.Valid;
    ghost var i, result: Bytes, offsets: seq<nat> := blockOffset / BASE, [], [];
    if Covers(policy, contents, added) && (i, key) in added {
      result, offsets := Promised(policy, contents, added, blockOffset, key);
    }
    ShiftBy11(blockOffset);
    forall result, offsets | Encodes(contents, result, offsets)
      ensures ReadsAs(contents, result, offsets, i)
    {
      Reads(contents, result, offsets, i);
    }
    var n := |contents|;
    if n < 5 {
      return true;
    }
    var baseLg := contents[n - 1] as nat;
    var lastWord := FromFixed(contents[n - 5..n - 1]);
    if lastWord > n - 5 {
      return true;
    }
    var num := (n - 5 - lastWord) / 4;
    var index := ShiftRight(blockOffset, baseLg);
    if index < num {
      var at := lastWord + index * 4;
      var start := FromFixed(contents[at..at + 4]);
      var limit := FromFixed(contents[at + 4..at + 8]);
      if start <= limit && limit <= lastWord {
        may := policy.KeyMayMatch(key, contents[start..limit]);
        return;
      } else if start == limit {
        return false;
      }
    }
    return true;
  }

  function ShiftRight(v: nat, bits: nat): nat {
    if bits == 0 then v else ShiftRight(v / 2, bits - 1)
  }

  lemma ShiftBy11(v: nat)
    ensures ShiftRight(v, 11) == v / BASE
  {
    var a := v / 2 / 2 / 2 / 2;
    var b := a / 2 / 2 / 2 / 2;
    assert a == v / 16 && b == v / 256 && b / 2 / 2 / 2 == v / BASE;
    assert ShiftRight(v, 11) == ShiftRight(v / 2 / 2, 9) == ShiftRight(a, 7);
    assert ShiftRight(a, 7) == ShiftRight(a / 2 / 2, 5) == ShiftRight(b, 3);
    assert ShiftRight(b, 3) == ShiftRight(b / 2 / 2, 1) == b / 2 / 2 / 2;
  }
}
