/**
 Prefix-compressed blocks (table/block_builder.cc, table/block.cc): the builder's format, and
 the iterator that walks it both ways and searches it by its restart points.
 */
module Block {
  import opened Keys
  import opened Store
  import opened Coding

  type Pair = (Bytes, Bytes)

  /** How many bytes two keys have in common at the front. */
  function Common(a: Bytes, b: Bytes): (n: nat)
    ensures n <= |a| && n <= |b| && a[..n] == b[..n]
    ensures n < |a| && n < |b| ==> a[n] != b[n]
  {
    if a == [] || b == [] || a[0] != b[0] then 0
    else
      var n := Common(a[1..], b[1..]);
      assert a[..n + 1] == [a[0]] + a[1..][..n] && b[..n + 1] == [b[0]] + b[1..][..n];
      n + 1
  }

  /** The builder's counter after `n` entries: entries since the last restart point. */
  function Counter(n: nat, interval: nat): (c: nat)
    requires interval > 0
    ensures c <= interval && (c == 0 <==> n == 0)
  {
    if n == 0 then 0 else if Counter(n - 1, interval) < interval then Counter(n - 1, interval) + 1 else 1
  }

  /** Entry `i` is a restart point. */
  predicate IsHead(i: nat, interval: nat)
    requires interval > 0
  {
    i == 0 || Counter(i, interval) == interval
  }

  /** Restart points are `interval` entries apart. */
  lemma {:induction false} HeadsApart(i: nat, k: nat, interval: nat)
    requires interval > 0 && IsHead(i, interval) && 1 <= k <= interval
    ensures Counter(i + k, interval) == k
    ensures IsHead(i + k, interval) <==> k == interval
  {
    if k > 1 { HeadsApart(i, k - 1, interval); }
  }

  /** The restart points among the first `n` entries; an empty block has one at its end. */
  function Heads(n: nat, interval: nat): (hs: seq<nat>)
    requires interval > 0
    ensures |hs| >= 1
  {
    if n <= 1 then [0] else Heads(n - 1, interval) + if IsHead(n - 1, interval) then [n - 1] else []
  }

  lemma {:induction false} HeadsAscend(n: nat, interval: nat)
    requires interval > 0
    ensures Heads(n, interval)[0] == 0
    ensures forall r :: 0 <= r < |Heads(n, interval)| ==>
              IsHead(Heads(n, interval)[r], interval) && (Heads(n, interval)[r] == 0 || Heads(n, interval)[r] < n)
    ensures forall q, r :: 0 <= q < r < |Heads(n, interval)| ==> Heads(n, interval)[q] < Heads(n, interval)[r]
  {
    if n > 1 { HeadsAscend(n - 1, interval); }
  }

  /** The bytes entry `i` shares with its predecessor: none at a restart point. */
  function Shared(pairs: seq<Pair>, i: nat, interval: nat): (n: nat)
    requires i < |pairs| && interval > 0
    ensures n <= |pairs[i].0| && (IsHead(i, interval) ==> n == 0)
    ensures !IsHead(i, interval) ==> n <= |pairs[i - 1].0| && pairs[i - 1].0[..n] == pairs[i].0[..n]
  {
    if IsHead(i, interval) then 0 else Common(pairs[i - 1].0, pairs[i].0)
  }

  function Layout(shared: nat, delta: Bytes, value: Bytes): (s: Bytes)
    ensures |s| >= 3 + |delta| + |value|
  {
    Varint(shared) + Varint(|delta|) + Varint(|value|) + delta + value
  }

  function EntryBytes(pairs: seq<Pair>, i: nat, interval: nat): (s: Bytes)
    requires i < |pairs| && interval > 0
    ensures |s| >= 3
  {
    var shared := Shared(pairs, i, interval);
    Layout(shared, pairs[i].0[shared..], pairs[i].1)
  }

  /** The first `n` entries, one after another. */
  function Data(pairs: seq<Pair>, n: nat, interval: nat): Bytes
    requires n <= |pairs| && interval > 0
  {
    if n == 0 then [] else Data(pairs, n - 1, interval) + EntryBytes(pairs, n - 1, interval)
  }

  function Offset(pairs: seq<Pair>, i: nat, interval: nat): nat
    requires i <= |pairs| && interval > 0
  {
    |Data(pairs, i, interval)|
  }

  function RestartList(pairs: seq<Pair>, interval: nat): (s: seq<nat>)
    requires interval > 0
    ensures |s| == |Heads(|pairs|, interval)|
  {
    HeadsAscend(|pairs|, interval);
    var heads := Heads(|pairs|, interval);
    seq(|heads|, r requires 0 <= r < |heads| => Offset(pairs, heads[r], interval))
  }

  /** The whole block: entries, restart points, their number. */
  function Contents(pairs: seq<Pair>, interval: nat): Bytes
    requires interval > 0
  {
    Data(pairs, |pairs|, interval) + Fixed32s(RestartList(pairs, interval)) + Fixed32(|Heads(|pairs|, interval)|)
  }

  // ---- Appending an entry ----

  lemma {:induction false} DataKept(pairs: seq<Pair>, p: Pair, n: nat, interval: nat)
    requires n <= |pairs| && interval > 0
    ensures Data(pairs + [p], n, interval) == Data(pairs, n, interval)
  {
    hide Layout, Counter, Common;
    if n > 0 {
      DataKept(pairs, p, n - 1, interval);
      assert (pairs + [p])[n - 1] == pairs[n - 1] && (n > 1 ==> (pairs + [p])[n - 2] == pairs[n - 2]);
    }
  }

  class BlockBuilder {
    const interval: nat
    var buffer: Bytes
    var restarts: seq<nat>
    var counter: nat
    var lastKey: Bytes
    var finished: bool
    ghost var pairs: seq<Pair>

    ghost predicate Valid()
      reads this
    {
      && interval > 0
      && buffer == Data(pairs, |pairs|, interval)
      && restarts == RestartList(pairs, interval)
      && lastKey == (if pairs == [] then [] else pairs[|pairs| - 1].0)
      && counter == Counter(|pairs|, interval)
    }

    constructor (interval: nat)
      requires interval > 0
      ensures Valid() && pairs == [] && !finished && this.interval == interval
    {
      this.interval := interval;
      buffer, restarts, counter, lastKey, finished, pairs := [], [0], 0, [], false, [];
    }

    /** How many bytes the new key takes over from the one before. */
    static method SharedPrefix(last: Bytes, key: Bytes) returns (shared: nat)
      ensures shared == Common(last, key)
    {
      shared := 0;
      var least := if |last| < |key| then |last| else |key|;
      while shared < least && last[shared] == key[shared]
        invariant shared <= least && Common(last, key) == shared + Common(last[shared..], key[shared..])
      {
        assert last[shared..][1..] == last[shared + 1..] && key[shared..][1..] == key[shared + 1..];
        shared := shared + 1;
      }
    }

    method Add(key: Bytes, value: Bytes)
      requires Valid() && !finished
      modifies this
      ensures Valid() && !finished && pairs == old(pairs) + [(key, value)]
    {
      hide RestartList, Data, Layout, Varint, Heads, Counter, Common;
      CounterSteps(|pairs|, interval);
      var shared: nat := 0;
      if counter < interval {
        shared := SharedPrefix(lastKey, key);
      } else {
        restarts := restarts + [|buffer|];
        counter := 0;
      }
      buffer := buffer + Varint(shared);
      buffer := buffer + Varint(|key| - shared);
      buffer := buffer + Varint(|value|);
      buffer := buffer + key[shared..];
      buffer := buffer + value;
      lastKey := lastKey[..shared] + key[shared..];
      counter := counter + 1;
      pairs := pairs + [(key, value)];
      Added(old(pairs), (key, value), interval, shared);
      Spelled(old(buffer), shared, key[shared..], value);
      assert lastKey == key;
    }

    method Finish() returns (block: Bytes)
      requires Valid() && !finished
      modifies this
      ensures block == Contents(pairs, interval) && finished && pairs == old(pairs)
    {
      hide RestartList, Data, Fixed32, Heads, Counter;
      ghost var all := restarts;
      var i: nat := 0;
      while i < |restarts|
        invariant restarts == all && i <= |all| && buffer == old(buffer) + Fixed32s(all[..i]) && pairs == old(pairs)
      {
        assert all[..i + 1][..i] == all[..i];
        assert old(buffer) + (Fixed32s(all[..i]) + Fixed32(all[i])) == old(buffer) + Fixed32s(all[..i]) + Fixed32(all[i]);
        buffer := buffer + Fixed32(restarts[i]);
        i := i + 1;
      }
      assert all[..|all|] == all;
      buffer := buffer + Fixed32(|restarts|);
      finished := true;
      block := buffer;
    }
  }

  lemma CounterSteps(n: nat, interval: nat)
    requires interval > 0
    ensures Counter(n + 1, interval) == if Counter(n, interval) < interval then Counter(n, interval) + 1 else 1
    ensures n > 0 ==> Counter(n, interval) > 0
    ensures Counter(0, interval) == 0
  {
  }

  lemma Spelled(buffer: Bytes, shared: nat, delta: Bytes, value: Bytes)
    ensures buffer + Varint(shared) + Varint(|delta|) + Varint(|value|) + delta + value == buffer + Layout(shared, delta, value)
  {
    hide Varint;
    Glue(buffer, Varint(shared), Varint(|delta|), Varint(|value|), delta, value);
  }

  lemma Glue(a: Bytes, b: Bytes, c: Bytes, d: Bytes, e: Bytes, f: Bytes)
    ensures a + b + c + d + e + f == a + (b + c + d + e + f)
  {
    assert a + b + c == a + (b + c);
    assert a + (b + c) + d == a + (b + c + d);
    assert a + (b + c + d) + e == a + (b + c + d + e);
  }

  lemma Added(pairs: seq<Pair>, p: Pair, interval: nat, shared: nat)
    requires interval > 0
    requires shared == if IsHead(|pairs|, interval) then 0 else Common(pairs[|pairs| - 1].0, p.0)
    ensures Data(pairs + [p], |pairs| + 1, interval) == Data(pairs, |pairs|, interval) + Layout(shared, p.0[shared..], p.1)
    ensures RestartList(pairs + [p], interval)
      == RestartList(pairs, interval) + if pairs != [] && IsHead(|pairs|, interval) then [|Data(pairs, |pairs|, interval)|] else []
  {
    hide Layout, Counter, EntryBytes;
    var n, more := |pairs|, pairs + [p];
    DataKept(pairs, p, n, interval);
    HeadsAscend(n, interval);
    HeadsAscend(n + 1, interval);
    var heads := Heads(n, interval);
    forall r | 0 <= r < |heads|
      ensures Offset(more, heads[r], interval) == Offset(pairs, heads[r], interval)
    {
      DataKept(pairs, p, heads[r], interval);
    }
    LastEntry(pairs, p, interval, shared);
    assert RestartList(more, interval)[..|heads|] == RestartList(pairs, interval);
    assert n > 0 && IsHead(n, interval) ==> Heads(n + 1, interval) == heads + [n];
    assert !(n > 0 && IsHead(n, interval)) ==> Heads(n + 1, interval) == heads;
  }

  lemma LastEntry(pairs: seq<Pair>, p: Pair, interval: nat, shared: nat)
    requires interval > 0
    requires shared == if IsHead(|pairs|, interval) then 0 else Common(pairs[|pairs| - 1].0, p.0)
    ensures EntryBytes(pairs + [p], |pairs|, interval) == Layout(shared, p.0[shared..], p.1)
  {
    hide Layout, Counter, Common;
  }

  // ---- Reading a block ----

  /** DecodeEntry: the three lengths in front of an entry and how many bytes they take. */
  function DecodeEntry(s: Bytes): (r: Option<(nat, nat, nat, nat)>)
    ensures r.Some? ==> r.value.3 + r.value.1 + r.value.2 <= |s|
  {
    if |s| < 3 then None
    else if s[0] < 128 && s[1] < 128 && s[2] < 128 then
      if |s| - 3 < s[1] as nat + s[2] as nat then None
      else Some((s[0] as nat, s[1] as nat, s[2] as nat, 3))
    else
      match Decode(s, 5)
      case None => None
      case Some((shared, a)) =>
        (match Decode(s[a..], 5)
         case None => None
         case Some((nonShared, b)) =>
           (match Decode(s[a + b..], 5)
            case None => None
            case Some((valueLength, c)) =>
              if |s| - (a + b + c) < nonShared + valueLength then None
              else Some((shared, nonShared, valueLength, a + b + c))))
  }

  lemma VarintAhead(v: nat, rest: Bytes)
    requires v <= MAX32
    ensures Decode(Varint(v) + rest, 5) == Some((v, |Varint(v)|)) && (Varint(v) + rest)[|Varint(v)|..] == rest
  {
    Power128At5();
    VarintFits(v, 5);
    DecodeVarint(v, 5, rest);
  }

  lemma VarintFirst(v: nat)
    ensures v < 128 ==> Varint(v) == [v as byte]
    ensures v >= 128 ==> Varint(v)[0] >= 128
  {
  }

  /** The slow path, from what the three varints decode to. */
  lemma SlowPath(s: Bytes, shared: nat, a: nat, nonShared: nat, b: nat, valueLength: nat, c: nat)
    requires |s| >= 3 && (s[0] >= 128 || s[1] >= 128 || s[2] >= 128)
    requires a + b + c + nonShared + valueLength <= |s|
    requires Decode(s, 5) == Some((shared, a)) && Decode(s[a..], 5) == Some((nonShared, b))
    requires Decode(s[a + b..], 5) == Some((valueLength, c))
    ensures DecodeEntry(s) == Some((shared, nonShared, valueLength, a + b + c))
  {
    hide Decode;
  }

  /** The fast path and the slow one agree on what the builder writes. */
  lemma DecodeLayout(shared: nat, delta: Bytes, value: Bytes, rest: Bytes)
    requires shared <= MAX32 && |delta| <= MAX32 && |value| <= MAX32
    ensures DecodeEntry(Layout(shared, delta, value) + rest)
      == Some((shared, |delta|, |value|, |Layout(shared, delta, value)| - |delta| - |value|))
  {
    hide Varint, Decode;
    var x, y, z := Varint(shared), Varint(|delta|), Varint(|value|);
    var tail := delta + value + rest;
    var s := Layout(shared, delta, value) + rest;
    assert s == x + (y + (z + tail)) by { Glue(x, y, z, delta, value, rest); }
    VarintFirst(shared);
    VarintFirst(|delta|);
    VarintFirst(|value|);
    if shared < 128 && |delta| < 128 && |value| < 128 {
      assert s[0] == x[0] && s[1] == y[0] && s[2] == z[0];
    } else {
      hide DecodeEntry;
      VarintAhead(shared, y + (z + tail));
      VarintAhead(|delta|, z + tail);
      VarintAhead(|value|, tail);
      assert s[|x|..] == y + (z + tail);
      assert s[|x| + |y|..] == z + tail;
      SlowPath(s, shared, |x|, |delta|, |y|, |value|, |z|);
    }
  }

  lemma {:induction false} DataPrefix(pairs: seq<Pair>, i: nat, n: nat, interval: nat)
    requires i <= n <= |pairs| && interval > 0
    ensures Data(pairs, i, interval) <= Data(pairs, n, interval)
    ensures i < n ==> Offset(pairs, i, interval) + 3 <= Offset(pairs, n, interval)
    decreases n - i
  {
    hide EntryBytes;
    if i < n {
      DataPrefix(pairs, i, n - 1, interval);
    }
  }

  /** Offsets order entries. */
  lemma OffsetOrder(pairs: seq<Pair>, i: nat, j: nat, interval: nat)
    requires i <= |pairs| && j <= |pairs| && interval > 0
    ensures Offset(pairs, i, interval) < Offset(pairs, j, interval) <==> i < j
  {
    hide Data;
    if i < j { DataPrefix(pairs, i, j, interval); } else { DataPrefix(pairs, j, i, interval); }
  }

  /** What stands at the offset of entry `i`. */
  lemma EntryAt(pairs: seq<Pair>, i: nat, interval: nat) returns (rest: Bytes)
    requires i < |pairs| && interval > 0
    ensures Offset(pairs, i, interval) <= Offset(pairs, |pairs|, interval)
    ensures Data(pairs, |pairs|, interval)[Offset(pairs, i, interval)..] == EntryBytes(pairs, i, interval) + rest
    ensures Offset(pairs, i + 1, interval) == Offset(pairs, i, interval) + |EntryBytes(pairs, i, interval)| <= Offset(pairs, |pairs|, interval)
  {
    hide EntryBytes;
    var all, front := Data(pairs, |pairs|, interval), Data(pairs, i, interval);
    DataPrefix(pairs, i + 1, |pairs|, interval);
    var next := front + EntryBytes(pairs, i, interval);
    assert Data(pairs, i + 1, interval) == next && next <= all;
    rest := all[|next|..];
    assert all == next + rest;
    assert all[|front|..] == EntryBytes(pairs, i, interval) + rest;
  }

  /** The order of the keys; `Iter` needs no more of a comparator than this. */
  ghost predicate Transitive(before: (Bytes, Bytes) -> bool) {
    forall a, b, c :: before(a, b) && before(b, c) ==> before(a, c)
  }

  ghost predicate Ordered(pairs: seq<Pair>, before: (Bytes, Bytes) -> bool) {
    forall i, j :: 0 <= i < j < |pairs| ==> before(pairs[i].0, pairs[j].0)
  }

  /** The places of things in a block that the builder wrote. */
  lemma Places(pairs: seq<Pair>, interval: nat, r: nat)
    requires interval > 0 && |Contents(pairs, interval)| <= MAX32
    ensures var block, at, n := Contents(pairs, interval), Offset(pairs, |pairs|, interval), |Heads(|pairs|, interval)|;
            && |block| == at + 4 * n + 4 && block[..at] == Data(pairs, |pairs|, interval)
            && FromFixed(block[|block| - 4..]) == n
            && (r < n ==> r < |RestartList(pairs, interval)| && FromFixed(block[at + 4 * r..at + 4 * r + 4]) == RestartList(pairs, interval)[r])
  {
    hide Fixed32, FromFixed, Data, Heads;
    var block, at, n := Contents(pairs, interval), Offset(pairs, |pairs|, interval), |Heads(|pairs|, interval)|;
    var list := RestartList(pairs, interval);
    var data, table := Data(pairs, |pairs|, interval), Fixed32s(list);
    assert block == data + table + Fixed32(n);
    assert block[..at] == data;
    assert block[|block| - 4..] == Fixed32(n);
    Fixed32RoundTrip(n);
    if r < n {
      Fixed32At(list, r);
      assert block[at + 4 * r..at + 4 * r + 4] == table[4 * r..4 * r + 4];
      RestartBound(pairs, interval, r);
      Fixed32RoundTrip(list[r]);
    }
  }

  lemma RestartBound(pairs: seq<Pair>, interval: nat, r: nat)
    requires interval > 0 && r < |Heads(|pairs|, interval)|
    ensures RestartList(pairs, interval)[r] <= Offset(pairs, |pairs|, interval)
    ensures Heads(|pairs|, interval)[r] <= |pairs| && RestartList(pairs, interval)[r] == Offset(pairs, Heads(|pairs|, interval)[r], interval)
  {
    hide Data;
    HeadsAscend(|pairs|, interval);
    DataPrefix(pairs, Heads(|pairs|, interval)[r], |pairs|, interval);
  }

  class Iter {
    const before: (Bytes, Bytes) -> bool
    const data: Bytes
    const restarts: nat
    const numRestarts: nat
    var current: nat
    var restartIndex: nat
    var key: Bytes
    /** value_: where it starts and how long it is. */
    var valueAt: nat
    var valueSize: nat
    ghost const pairs: seq<Pair>
    ghost const interval: nat

    ghost predicate Wired() {
      && interval > 0 && data == Contents(pairs, interval) && |data| <= MAX32
      && restarts == Offset(pairs, |pairs|, interval) && numRestarts == |Heads(|pairs|, interval)|
    }

    predicate Valid()
      reads this
    {
      current < restarts
    }

    function NextEntryOffset(): nat
      reads this
    {
      valueAt + valueSize
    }

    ghost function Head(r: nat): (h: nat)
      requires Wired() && r < numRestarts
    {
      Heads(|pairs|, interval)[r]
    }

    /** ParseNextKey comes to entry `i` next. */
    ghost predicate Ready(i: nat)
      reads this
    {
      && Wired() && i <= |pairs| && NextEntryOffset() == Offset(pairs, i, interval) && valueAt <= |data|
      && (i < |pairs| && !IsHead(i, interval) ==> key == pairs[i - 1].0)
      && restartIndex < numRestarts && Head(restartIndex) <= i
      && (restartIndex + 1 < numRestarts ==> i <= Head(restartIndex + 1) + 1)
    }

    /** The iterator is at entry `i`. */
    ghost predicate Shows(i: nat)
      reads this
    {
      && Wired() && i < |pairs| && current == Offset(pairs, i, interval) < restarts
      && key == pairs[i].0 && valueAt + valueSize <= |data| && data[valueAt..valueAt + valueSize] == pairs[i].1
      && NextEntryOffset() == Offset(pairs, i + 1, interval)
      && restartIndex < numRestarts && Head(restartIndex) <= i && (restartIndex + 1 < numRestarts ==> i <= Head(restartIndex + 1))
    }

    ghost predicate Ended()
      reads this
    {
      Wired() && current == restarts && restartIndex == numRestarts
    }

    /** Block::NewIterator on what a builder finished; a block too small for its restart count is refused. */
    constructor (before: (Bytes, Bytes) -> bool, contents: Bytes, ghost pairs: seq<Pair>, ghost interval: nat)
      requires interval > 0 && contents == Contents(pairs, interval) && |contents| <= MAX32
      ensures Ended() && this.pairs == pairs && this.interval == interval && this.before == before
    {
      Places(pairs, interval, 0);
      var n := FromFixed(contents[|contents| - 4..]);
      var at := |contents| - (1 + n) * 4;
      this.before, data, restarts, numRestarts := before, contents, at, n;
      this.pairs, this.interval := pairs, interval;
      current, restartIndex, key, valueAt, valueSize := at, n, [], 0, 0;
    }

    method GetRestartPoint(r: nat) returns (offset: nat)
      requires Wired() && r < numRestarts
      ensures Head(r) <= |pairs| && offset == Offset(pairs, Head(r), interval) <= restarts
    {
      hide Contents, Heads, RestartList, Data, FromFixed;
      Places(pairs, interval, r);
      RestartBound(pairs, interval, r);
      offset := FromFixed(data[restarts + r * 4..restarts + r * 4 + 4]);
    }

    method SeekToRestartPoint(r: nat)
      requires Wired() && r < numRestarts
      modifies `key, `restartIndex, `valueAt, `valueSize
      ensures Head(r) <= |pairs| && Ready(Head(r)) && restartIndex == r
    {
      hide Contents, Heads, Counter, Data;
      HeadsAscend(|pairs|, interval);
      Places(pairs, interval, 0);
      key := [];
      restartIndex := r;
      valueAt := GetRestartPoint(r);
      valueSize := 0;
    }

    /** ParseNextKey. On a block that the builder wrote its corruption error cannot come up. */
    method ParseNextKey(ghost i: nat) returns (ok: bool)
      requires Ready(i)
      modifies this
      ensures ok <==> i < |pairs|
      ensures if ok then Shows(i) else Ended()
    {
      hide Contents, Heads, Counter, Data, DecodeEntry;
      Places(pairs, interval, 0);
      current := NextEntryOffset();
      OffsetOrder(pairs, i, |pairs|, interval);
      if current >= restarts {
        current, restartIndex := restarts, numRestarts;
        return false;
      }
      EntryFacts(data, pairs, interval, i, key);
      var entry := DecodeEntry(data[current..restarts]);
      var shared, nonShared, length, used := entry.value.0, entry.value.1, entry.value.2, entry.value.3;
      key := key[..shared] + data[current + used..current + used + nonShared];
      valueAt, valueSize := current + used + nonShared, length;
      AdvanceRestarts(i);
      ok := true;
    }

    /** restart_index_ follows the entry. */
    method AdvanceRestarts(ghost i: nat)
      requires Wired() && i < |pairs| && current == Offset(pairs, i, interval)
      requires restartIndex < numRestarts && Head(restartIndex) <= i
      modifies `restartIndex
      ensures restartIndex < numRestarts && Head(restartIndex) <= i && (restartIndex + 1 < numRestarts ==> i <= Head(restartIndex + 1))
    {
      hide Contents, Heads, Data;
      while restartIndex + 1 < numRestarts
        invariant restartIndex < numRestarts && Head(restartIndex) <= i
        decreases numRestarts - restartIndex
      {
        var point := GetRestartPoint(restartIndex + 1);
        OffsetOrder(pairs, Head(restartIndex + 1), i, interval);
        if point >= current {
          break;
        }
        restartIndex := restartIndex + 1;
      }
    }

    /** `i` entries are behind; the iterator is at the next one, or past the last. */
    ghost predicate At(i: nat)
      reads this
    {
      if i < |pairs| then Shows(i) else i == |pairs| && Ended()
    }

    lemma ReadyForNext(i: nat)
      requires Shows(i)
      ensures Ready(i + 1)
    {
      hide Contents, Heads, Counter, Data;
    }

    method Next(ghost i: nat)
      requires Shows(i)
      modifies this
      ensures At(i + 1)
    {
      hide Ready, Shows, Ended;
      ReadyForNext(i);
      Fine(i);
      var _ := ParseNextKey(i + 1);
    }

    lemma Fine(i: nat)
      requires Shows(i)
      ensures Wired() && Valid() && i < |pairs| && restartIndex < numRestarts && Head(restartIndex) <= i
      ensures current == Offset(pairs, i, interval) && NextEntryOffset() == Offset(pairs, i + 1, interval) && key == pairs[i].0
    {
      hide Contents, Heads, Counter, Data;
    }

    /** Scans back to a restart point before the entry, then forward up to it. */
    method Prev(ghost i: nat)
      requires Shows(i)
      modifies this
      ensures if i > 0 then Shows(i - 1) else Ended()
    {
      hide Contents, Heads, Data, Ready, Shows;
      Fine(i);
      HeadsAscend(|pairs|, interval);
      var original := current;
      while true
        invariant restartIndex < numRestarts && Head(restartIndex) <= i
        decreases restartIndex
      {
        var point := GetRestartPoint(restartIndex);
        OffsetOrder(pairs, Head(restartIndex), i, interval);
        if point < original {
          break;
        }
        if restartIndex == 0 {
          current := restarts;
          restartIndex := numRestarts;
          return;
        }
        restartIndex := restartIndex - 1;
      }
      ghost var j: nat := Head(restartIndex);
      SeekToRestartPoint(restartIndex);
      while true
        invariant j < i && Ready(j)
        decreases i - j
      {
        var ok := ParseNextKey(j);
        Fine(j);
        OffsetOrder(pairs, j + 1, i, interval);
        if !ok || NextEntryOffset() >= original {
          return;
        }
        ReadyForNext(j);
        j := j + 1;
      }
    }

    /** The first entry at or after the target. */
    method Seek(target: Bytes) returns (ghost m: nat)
      requires Wired() && Transitive(before) && Ordered(pairs, before)
      modifies this
      ensures At(m) && (forall i :: 0 <= i < m ==> before(pairs[i].0, target)) && (m < |pairs| ==> !before(pairs[m].0, target))
    {
      hide Contents, Heads, Data, Ready, Shows, Counter, DecodeEntry, Transitive, Ordered, Ended;
      Places(pairs, interval, 0);
      HeadsAscend(|pairs|, interval);
      var left: nat, right: nat := 0, numRestarts - 1;
      while left < right
        invariant left <= right < numRestarts
        invariant left == 0 || (Head(left) < |pairs| && before(pairs[Head(left)].0, target))
      {
        var mid := (left + right + 1) / 2;
        var offset := GetRestartPoint(mid);
        ghost var h := Head(mid);
        var p := data[offset..restarts];
        assert p == data[..restarts][offset..];
        Decoded(pairs, interval, h);
        var entry := DecodeEntry(p);
        assert entry.Some? && entry.value.0 == 0;
        var used, nonShared := entry.value.3, entry.value.1;
        var midKey := p[used..used + nonShared];
        if before(midKey, target) {
          left := mid;
        } else {
          right := mid - 1;
        }
      }
      SeekToRestartPoint(left);
      m := Head(left);
      BeforeHead(pairs, before, target, m, left == 0);
      while true
        invariant m <= |pairs| && Ready(m)
        invariant forall i :: 0 <= i < m ==> before(pairs[i].0, target)
        decreases |pairs| - m
      {
        var ok := ParseNextKey(m);
        if !ok {
          return;
        }
        Fine(m);
        if !before(key, target) {
          return;
        }
        ReadyForNext(m);
        m := m + 1;
      }
    }

    method SeekToFirst()
      requires Wired()
      modifies this
      ensures At(0)
    {
      hide Contents, Heads, Data, Ready, Shows, Counter, Ended;
      HeadsAscend(|pairs|, interval);
      SeekToRestartPoint(0);
      var _ := ParseNextKey(0);
    }

    method SeekToLast()
      requires Wired()
      modifies this
      ensures if pairs == [] then Ended() else Shows(|pairs| - 1)
    {
      hide Contents, Heads, Data, Ready, Shows, Counter, Ended;
      HeadsAscend(|pairs|, interval);
      SeekToRestartPoint(numRestarts - 1);
      ghost var j: nat := Head(numRestarts - 1);
      while true
        invariant Wired() && j <= |pairs| && (j < |pairs| || pairs == []) && Ready(j)
        decreases |pairs| - j
      {
        var ok := ParseNextKey(j);
        if !ok {
          return;
        }
        Fine(j);
        OffsetOrder(pairs, j + 1, |pairs|, interval);
        if NextEntryOffset() >= restarts {
          return;
        }
        ReadyForNext(j);
        j := j + 1;
      }
    }
  }

  /** Everything before a key that comes before the target comes before the target. */
  lemma BeforeHead(pairs: seq<Pair>, before: (Bytes, Bytes) -> bool, target: Bytes, h: nat, first: bool)
    requires Transitive(before) && Ordered(pairs, before) && h <= |pairs| && (first ==> h == 0)
    requires !first ==> h < |pairs| && before(pairs[h].0, target)
    ensures forall i :: 0 <= i < h ==> before(pairs[i].0, target)
  {
    forall i | 0 <= i < h
      ensures before(pairs[i].0, target)
    {
      assert before(pairs[i].0, pairs[h].0);
    }
  }

  lemma Inside(data: Bytes, from: nat, to: nat, a: nat, b: nat)
    requires from <= to <= |data| && a <= b <= to - from
    ensures data[from..to][a..b] == data[from + a..from + b]
  {
    forall k | 0 <= k < b - a
      ensures data[from..to][a..b][k] == data[from + a..from + b][k]
    {
    }
  }

  /** What ParseNextKey takes from entry `i`, when it knows the key before; DecodeEntry does not fail. */
  lemma EntryFacts(data: Bytes, pairs: seq<Pair>, interval: nat, i: nat, key: Bytes)
    requires interval > 0 && data == Contents(pairs, interval) && |data| <= MAX32 && i < |pairs|
    requires !IsHead(i, interval) ==> key == pairs[i - 1].0
    ensures Offset(pairs, i, interval) <= Offset(pairs, |pairs|, interval) <= |data|
    ensures var current := Offset(pairs, i, interval);
            var r := DecodeEntry(data[current..Offset(pairs, |pairs|, interval)]);
            && r.Some? && r.value.0 <= |key|
            && var keyAt := current + r.value.3;
               var valueAt := keyAt + r.value.1;
               && valueAt + r.value.2 == Offset(pairs, i + 1, interval) <= |data|
               && key[..r.value.0] + data[keyAt..valueAt] == pairs[i].0
               && data[valueAt..valueAt + r.value.2] == pairs[i].1
  {
    hide Contents, Heads, Counter, Data, DecodeEntry, EntryBytes, Shared;
    Places(pairs, interval, 0);
    Decoded(pairs, interval, i);
    var current, restarts := Offset(pairs, i, interval), Offset(pairs, |pairs|, interval);
    assert data[current..restarts] == data[..restarts][current..];
    var r := DecodeEntry(data[current..restarts]).value;
    Inside(data, current, restarts, r.3, r.3 + r.1);
    Inside(data, current, restarts, r.3 + r.1, r.3 + r.1 + r.2);
  }

  /** Everything DecodeEntry says about entry `i`. */
  lemma Decoded(pairs: seq<Pair>, interval: nat, i: nat)
    requires interval > 0 && |Contents(pairs, interval)| <= MAX32 && i < |pairs|
    ensures Offset(pairs, i, interval) <= Offset(pairs, |pairs|, interval)
    ensures var s := Data(pairs, |pairs|, interval)[Offset(pairs, i, interval)..];
            var r := DecodeEntry(s);
            && r.Some? && r.value.0 == Shared(pairs, i, interval) <= |pairs[i].0| && r.value.1 == |pairs[i].0| - r.value.0
            && r.value.2 == |pairs[i].1| && r.value.3 + r.value.1 + r.value.2 <= |s|
            && s[r.value.3..r.value.3 + r.value.1] == pairs[i].0[r.value.0..]
            && s[r.value.3 + r.value.1..r.value.3 + r.value.1 + r.value.2] == pairs[i].1
            && Offset(pairs, i, interval) + r.value.3 + r.value.1 + r.value.2 == Offset(pairs, i + 1, interval)
  {
    hide DecodeEntry, Data, Shared, Varint;
    var rest := EntryAt(pairs, i, interval);
    var shared := Shared(pairs, i, interval);
    var delta, value := pairs[i].0[shared..], pairs[i].1;
    assert |EntryBytes(pairs, i, interval)| <= |Contents(pairs, interval)|;
    SharedSmall(pairs, i, interval);
    DecodeLayout(shared, delta, value, rest);
    var lengths := Varint(shared) + Varint(|delta|) + Varint(|value|);
    assert Layout(shared, delta, value) + rest == lengths + delta + value + rest;
  }

  /** A key is no longer than the entries up to it. */
  lemma {:induction false} KeyFits(pairs: seq<Pair>, interval: nat, i: nat)
    requires interval > 0 && i < |pairs|
    ensures |pairs[i].0| <= Offset(pairs, i + 1, interval)
  {
    hide Common, Counter;
    if !IsHead(i, interval) { KeyFits(pairs, interval, i - 1); }
  }

  lemma SharedSmall(pairs: seq<Pair>, i: nat, interval: nat)
    requires interval > 0 && i < |pairs| && |Contents(pairs, interval)| <= MAX32
    ensures Shared(pairs, i, interval) <= MAX32
  {
    hide Shared, Data;
    KeyFits(pairs, interval, i);
    var _ := EntryAt(pairs, i, interval);
  }

  // ---- The bytes themselves ----

  /** Two keys that share a byte: with the default interval the second is cut down to its last byte. */
  lemma SharedOnDisk()
    ensures Contents([([1, 2], [7]), ([1, 3], [8])], 16) == [0, 2, 1, 1, 2, 7] + [1, 1, 1, 3, 8] + [0, 0, 0, 0] + [1, 0, 0, 0]
  {
    hide Fixed32s, Fixed32;
    var pairs: seq<Pair> := [([1, 2], [7]), ([1, 3], [8])];
    assert Counter(1, 16) == 1 && Heads(1, 16) == [0] && Heads(2, 16) == [0];
    FirstEntry(pairs, 16);
    assert [1 as byte, 2][1..] == [2] && [1 as byte, 3][1..] == [3];
    assert Common([2], [3]) == 0;
    assert Common([1, 2], [1, 3]) == 1;
    assert Shared(pairs, 1, 16) == 1;
    assert EntryBytes(pairs, 1, 16) == Layout(1, [3], [8]) == [1, 1, 1, 3, 8];
    assert Data(pairs, 2, 16) == [0, 2, 1, 1, 2, 7] + [1, 1, 1, 3, 8];
    assert Offset(pairs, 0, 16) == 0;
    assert RestartList(pairs, 16) == [0];
    SmallNumbers();
  }

  lemma FirstEntry(pairs: seq<Pair>, interval: nat)
    requires interval > 0 && pairs != [] && pairs[0] == ([1, 2], [7])
    ensures Data(pairs, 1, interval) == [0, 2, 1, 1, 2, 7] && Data(pairs, 0, interval) == []
  {
    assert IsHead(0, interval) && Shared(pairs, 0, interval) == 0;
    assert [1 as byte, 2][0..] == [1, 2];
    assert EntryBytes(pairs, 0, interval) == [0, 2, 1, 1, 2, 7];
  }

  lemma SmallNumbers()
    ensures Fixed32(0) == [0, 0, 0, 0] && Fixed32(1) == [1, 0, 0, 0] && Fixed32(2) == [2, 0, 0, 0] && Fixed32(6) == [6, 0, 0, 0]
    ensures Fixed32s([0]) == [0, 0, 0, 0] && Fixed32s([0, 6]) == [0, 0, 0, 0] + [6, 0, 0, 0]
  {
    assert Fixed(0, 3) == [0, 0, 0];
    assert [0][..0] == [] && [0, 6][..1] == [0];
  }

  /** With a restart point at every entry both are written in full. */
  lemma RestartsOnDisk()
    ensures Contents([([1, 2], [7]), ([1, 3], [8])], 1) == [0, 2, 1, 1, 2, 7] + [0, 2, 1, 1, 3, 8] + ([0, 0, 0, 0] + [6, 0, 0, 0]) + [2, 0, 0, 0]
  {
    hide Fixed32s, Fixed32;
    var pairs: seq<Pair> := [([1, 2], [7]), ([1, 3], [8])];
    assert Counter(1, 1) == 1 && Heads(1, 1) == [0] && Heads(2, 1) == [0, 1];
    FirstEntry(pairs, 1);
    assert [1 as byte, 3][0..] == [1, 3];
    assert EntryBytes(pairs, 1, 1) == Layout(0, [1, 3], [8]) == [0, 2, 1, 1, 3, 8];
    assert Data(pairs, 2, 1) == [0, 2, 1, 1, 2, 7] + [0, 2, 1, 1, 3, 8];
    assert Offset(pairs, 0, 1) == 0 && Offset(pairs, 1, 1) == 6;
    assert RestartList(pairs, 1) == [0, 6];
    SmallNumbers();
  }
}
