/**
 MergingIterator (table/merger.cc): several sorted children read as one sorted run, under any
 mix of movements, including changes of direction.
 */
module Merger {
  import opened Keys
  import opened Cursors

  datatype Direction = Forward | Reverse

  /** `merged` is the sorted union of the runs, and no two runs share an entry. */
  ghost predicate IsMerge(runs: seq<seq<Entry>>, merged: seq<Entry>) {
    && Sorted(merged)
    && (forall j :: 0 <= j < |runs| ==> Part(runs[j], merged))
    && (forall e :: e in merged ==> exists j :: 0 <= j < |runs| && e in runs[j])
    && (forall j, k :: 0 <= j < k < |runs| ==> Apart(runs[j], runs[k]))
  }

  ghost predicate Part(es: seq<Entry>, merged: seq<Entry>) {
    Sorted(es) && forall e :: e in es ==> e in merged
  }

  ghost predicate Apart(es: seq<Entry>, fs: seq<Entry>) {
    forall e :: e in es ==> e !in fs
  }

  /** Sorted runs without a key in common. */
  ghost predicate Mergeable(runs: seq<seq<Entry>>) {
    && (forall j :: 0 <= j < |runs| ==> Sorted(runs[j]))
    && (forall j, k :: 0 <= j < k < |runs| ==> KeysApart(runs[j], runs[k]))
  }

  ghost predicate KeysApart(es: seq<Entry>, fs: seq<Entry>) {
    forall e, f :: e in es && f in fs ==> Before(e.key, f.key) || Before(f.key, e.key)
  }

  ghost function MergeTwo(es: seq<Entry>, fs: seq<Entry>): seq<Entry>
    decreases |es| + |fs|
  {
    if es == [] then fs
    else if fs == [] then es
    else if Before(fs[0].key, es[0].key) then [fs[0]] + MergeTwo(es, fs[1..])
    else [es[0]] + MergeTwo(es[1..], fs)
  }

  ghost function MergeAll(runs: seq<seq<Entry>>): seq<Entry> {
    if runs == [] then [] else MergeTwo(MergeAll(runs[..|runs| - 1]), runs[|runs| - 1])
  }

  lemma {:induction false} MergeTwoIs(es: seq<Entry>, fs: seq<Entry>)
    requires Sorted(es) && Sorted(fs) && KeysApart(es, fs)
    ensures Sorted(MergeTwo(es, fs)) && forall e :: e in MergeTwo(es, fs) <==> e in es || e in fs
    decreases |es| + |fs|
  {
    hide Sorted;
    if es != [] && fs != [] {
      HeadAndRest(es);
      HeadAndRest(fs);
      if Before(fs[0].key, es[0].key) {
        MergeTwoIs(es, fs[1..]);
        AllBehindHead(fs[0], es);
        InFront(fs[0], MergeTwo(es, fs[1..]));
      } else {
        assert Before(es[0].key, fs[0].key);
        MergeTwoIs(es[1..], fs);
        AllBehindHead(es[0], fs);
        InFront(es[0], MergeTwo(es[1..], fs));
      }
    }
  }

  lemma HeadAndRest(es: seq<Entry>)
    requires Sorted(es) && es != []
    ensures Sorted(es[1..]) && es == [es[0]] + es[1..] && forall e :: e in es[1..] ==> Before(es[0].key, e.key)
  {
    assert forall i :: 0 <= i < |es| - 1 ==> es[1..][i] == es[i + 1];
  }

  lemma AllBehindHead(e: Entry, es: seq<Entry>)
    requires Sorted(es) && es != [] && Before(e.key, es[0].key)
    ensures forall f :: f in es ==> Before(e.key, f.key)
  {
    HeadAndRest(es);
  }

  lemma InFront(e: Entry, es: seq<Entry>)
    requires Sorted(es) && forall f :: f in es ==> Before(e.key, f.key)
    ensures Sorted([e] + es)
  {
    var all := [e] + es;
    forall i, j | 0 <= i < j < |all|
      ensures Before(all[i].key, all[j].key)
    {
      assert all[j] == es[j - 1] && es[j - 1] in es;
    }
  }

  /** Mergeable runs have a merge. */
  lemma {:induction false} MergeAllIs(runs: seq<seq<Entry>>)
    requires Mergeable(runs)
    ensures IsMerge(runs, MergeAll(runs))
  {
    hide Sorted;
    MergeAllHolds(runs);
    var merged := MergeAll(runs);
    forall j, k | 0 <= j < k < |runs|
      ensures Apart(runs[j], runs[k])
    {
      assert KeysApart(runs[j], runs[k]);
    }
  }

  ghost predicate InSome(runs: seq<seq<Entry>>, e: Entry) {
    exists j :: 0 <= j < |runs| && e in runs[j]
  }

  lemma InOneMore(runs: seq<seq<Entry>>, e: Entry)
    requires runs != []
    ensures InSome(runs, e) <==> InSome(runs[..|runs| - 1], e) || e in runs[|runs| - 1]
  {
    var front := runs[..|runs| - 1];
    if j :| 0 <= j < |front| && e in front[j] { assert e in runs[j]; }
    if j :| 0 <= j < |runs| && e in runs[j] {
      if j < |front| { assert e in front[j]; }
    }
  }

  lemma {:induction false} MergeAllHolds(runs: seq<seq<Entry>>)
    requires Mergeable(runs)
    ensures Sorted(MergeAll(runs)) && forall e :: e in MergeAll(runs) <==> InSome(runs, e)
  {
    hide Sorted, KeysApart, InSome, MergeTwo;
    if runs == [] {
      NothingSorted();
      NoneInNone();
    } else {
      var n := |runs| - 1;
      MergeAllHolds(runs[..n]);
      AllApart(MergeAll(runs[..n]), runs, n);
      MergeTwoIs(MergeAll(runs[..n]), runs[n]);
      forall e
        ensures InSome(runs, e) <==> InSome(runs[..n], e) || e in runs[n]
      {
        InOneMore(runs, e);
      }
    }
  }

  lemma NoneInNone()
    ensures forall e :: !InSome([], e)
  {
  }

  lemma NothingSorted()
    ensures Sorted([])
  {
  }

  lemma AllApart(merged: seq<Entry>, runs: seq<seq<Entry>>, n: nat)
    requires n < |runs| && forall j :: 0 <= j < n ==> KeysApart(runs[j], runs[n])
    requires forall e :: e in merged ==> InSome(runs[..n], e)
    ensures KeysApart(merged, runs[n])
  {
    forall e, f | e in merged && f in runs[n]
      ensures Before(e.key, f.key) || Before(f.key, e.key)
    {
      var j :| 0 <= j < n && e in runs[..n][j];
      assert KeysApart(runs[j], runs[n]) && e in runs[j];
    }
  }

  /** What is merged is determined by the runs. */
  lemma {:induction false} SortedIsOne(a: seq<Entry>, b: seq<Entry>)
    requires Sorted(a) && Sorted(b) && forall e :: e in a <==> e in b
    ensures a == b
  {
    hide Sorted;
    assert a != [] ==> a[0] in b;
    assert b != [] ==> b[0] in a;
    if a != [] && b != [] {
      HeadAndRest(a);
      HeadAndRest(b);
      assert a[0] == b[0];
      forall e
        ensures e in a[1..] <==> e in b[1..]
      {
        assert e in a[1..] ==> e in b && e != b[0];
        assert e in b[1..] ==> e in a && e != a[0];
      }
      SortedIsOne(a[1..], b[1..]);
    }
  }

  lemma MergeIsOne(runs: seq<seq<Entry>>, a: seq<Entry>, b: seq<Entry>)
    requires IsMerge(runs, a) && IsMerge(runs, b)
    ensures a == b
  {
    hide Sorted;
    forall e
      ensures e in a <==> e in b
    {
      if e in a {
        var j :| 0 <= j < |runs| && e in runs[j];
        assert Part(runs[j], b);
      }
      if e in b {
        var j :| 0 <= j < |runs| && e in runs[j];
        assert Part(runs[j], a);
      }
    }
    SortedIsOne(a, b);
  }

  /** There is a merge exactly when no two entries of different runs have the same key. */
  lemma MergeableIff(runs: seq<seq<Entry>>)
    ensures Mergeable(runs) <==> exists merged :: IsMerge(runs, merged)
  {
    if Mergeable(runs) { MergeAllIs(runs); }
    if merged :| IsMerge(runs, merged) {
      forall j, k, e, f | 0 <= j < k < |runs| && e in runs[j] && f in runs[k]
        ensures Before(e.key, f.key) || Before(f.key, e.key)
      {
        assert Part(runs[j], merged) && Part(runs[k], merged) && Apart(runs[j], runs[k]);
        assert e in merged && f in merged && e != f;
      }
    }
  }

  /** Position `pos` of run `es` is its first entry that is not before entry `m` of the merge. */
  ghost predicate Ahead(es: seq<Entry>, pos: nat, merged: seq<Entry>, m: nat)
    requires m <= |merged|
  {
    && pos <= |es|
    && (forall i :: 0 <= i < pos ==> m == |merged| || Before(es[i].key, merged[m].key))
    && (forall i :: pos <= i < |es| ==> m < |merged| && NotAfter(merged[m].key, es[i].key))
  }

  /** Position `pos` of run `es` is its last entry that is not after entry `m` of the merge. */
  ghost predicate Behind(es: seq<Entry>, pos: nat, merged: seq<Entry>, m: int)
    requires -1 <= m < |merged|
  {
    && pos <= |es|
    && (forall i :: 0 <= i < Passed(es, pos) ==> m >= 0 && NotAfter(es[i].key, merged[m].key))
    && (forall i :: Passed(es, pos) <= i < |es| ==> m < 0 || Before(merged[m].key, es[i].key))
  }

  /** How many entries a run standing at `pos` has at or before it. */
  function Passed(es: seq<Entry>, pos: nat): nat {
    if pos < |es| then pos + 1 else 0
  }

  lemma PlaceOf(es: seq<Entry>, merged: seq<Entry>, i: nat) returns (m: nat)
    requires Part(es, merged) && i < |es|
    ensures m < |merged| && merged[m] == es[i]
  {
    assert es[i] in es;
    m :| 0 <= m < |merged| && merged[m] == es[i];
  }

  /** A seek to a lower bound of the merge puts every run ahead. */
  lemma SeekIsAhead(es: seq<Entry>, pos: nat, merged: seq<Entry>, m: nat, target: InternalKey)
    requires Part(es, merged) && Sorted(merged) && pos <= |es| && m <= |merged|
    requires forall i :: 0 <= i < m ==> Before(merged[i].key, target)
    requires forall i :: m <= i < |merged| ==> NotAfter(target, merged[i].key)
    requires forall i :: 0 <= i < pos ==> Before(es[i].key, target)
    requires forall i :: pos <= i < |es| ==> NotAfter(target, es[i].key)
    ensures Ahead(es, pos, merged, m)
  {
    forall i | pos <= i < |es|
      ensures m < |merged| && NotAfter(merged[m].key, es[i].key)
    {
      var p := PlaceOf(es, merged, i);
      assert m < p ==> Before(merged[m].key, merged[p].key);
    }
  }

  lemma FirstIsAhead(es: seq<Entry>, merged: seq<Entry>)
    requires Part(es, merged) && Sorted(merged)
    ensures Ahead(es, 0, merged, 0)
  {
    if es != [] {
      var _ := PlaceOf(es, merged, 0);
      forall i | 0 <= i < |es|
        ensures NotAfter(merged[0].key, es[i].key)
      {
        var p := PlaceOf(es, merged, i);
        assert p > 0 ==> Before(merged[0].key, merged[p].key);
      }
    }
  }

  lemma LastIsBehind(es: seq<Entry>, merged: seq<Entry>)
    requires Part(es, merged) && Sorted(merged)
    ensures Behind(es, if |es| == 0 then 0 else |es| - 1, merged, |merged| - 1)
  {
    if |es| > 0 {
      var p := PlaceOf(es, merged, 0);
      var m := |merged| - 1;
      forall i | 0 <= i < |es|
        ensures NotAfter(es[i].key, merged[m].key)
      {
        var q := PlaceOf(es, merged, i);
        assert q < m ==> Before(merged[q].key, merged[m].key);
      }
      assert Behind(es, |es| - 1, merged, m);
    } else {
      assert Passed(es, 0) == 0;
    }
  }

  /** Moving past entry `m` of the merge: only the run that holds it moves. */
  lemma StepAhead(es: seq<Entry>, pos: nat, merged: seq<Entry>, m: nat)
    requires Part(es, merged) && Sorted(merged) && m < |merged| && Ahead(es, pos, merged, m)
    requires (pos < |es| && es[pos] == merged[m]) || merged[m] !in es
    ensures Ahead(es, if pos < |es| && es[pos] == merged[m] then pos + 1 else pos, merged, m + 1)
  {
    var q := if pos < |es| && es[pos] == merged[m] then pos + 1 else pos;
    forall i | q <= i < |es|
      ensures exists p :: m < p < |merged| && merged[p] == es[i]
    {
      var p := PlaceOf(es, merged, i);
      assert pos < |es| && pos < i ==> Before(es[pos].key, es[i].key);
      assert es[i] in es;
    }
    if q < |es| {
      var first := es[q];
      assert m + 1 < |merged|;
      forall i | q <= i < |es|
        ensures NotAfter(merged[m + 1].key, es[i].key)
      {
        var p :| m < p < |merged| && merged[p] == es[i];
        assert p > m + 1 ==> Before(merged[m + 1].key, merged[p].key);
      }
    }
    forall i | 0 <= i < q
      ensures m + 1 == |merged| || Before(es[i].key, merged[m + 1].key)
    {
      assert m + 1 < |merged| ==> Before(merged[m].key, merged[m + 1].key);
    }
  }

  lemma StepBehind(es: seq<Entry>, pos: nat, merged: seq<Entry>, m: nat)
    requires Part(es, merged) && Sorted(merged) && m < |merged| && Behind(es, pos, merged, m)
    requires (pos < |es| && es[pos] == merged[m]) || merged[m] !in es
    ensures Behind(es, if pos < |es| && es[pos] == merged[m] then (if pos == 0 then |es| else pos - 1) else pos, merged, m - 1)
  {
    var q := if pos < |es| && es[pos] == merged[m] then (if pos == 0 then |es| else pos - 1) else pos;
    forall i | 0 <= i < Passed(es, q)
      ensures exists p :: 0 <= p < m && merged[p] == es[i]
    {
      var p := PlaceOf(es, merged, i);
      assert i < pos < |es| ==> Before(es[i].key, es[pos].key);
      assert es[i] in es;
    }
    if Passed(es, q) > 0 {
      var first := es[0];
      assert m > 0;
      forall i | 0 <= i < Passed(es, q)
        ensures NotAfter(es[i].key, merged[m - 1].key)
      {
        var p :| 0 <= p < m && merged[p] == es[i];
        assert p < m - 1 ==> Before(merged[p].key, merged[m - 1].key);
      }
    }
    forall i | Passed(es, q) <= i < |es|
      ensures m == 0 || Before(merged[m - 1].key, es[i].key)
    {
      assert m > 0 ==> Before(merged[m - 1].key, merged[m].key);
    }
  }

  /** The run that holds entry `m` stands on it; every other valid run is strictly beyond. */
  lemma HolderAhead(es: seq<Entry>, pos: nat, merged: seq<Entry>, m: nat)
    requires Part(es, merged) && m < |merged| && Ahead(es, pos, merged, m)
    ensures merged[m] in es ==> pos < |es| && es[pos] == merged[m]
  {
    if i :| 0 <= i < |es| && es[i] == merged[m] {
      assert i > pos ==> Before(es[pos].key, es[i].key);
    }
  }

  lemma HolderBehind(es: seq<Entry>, pos: nat, merged: seq<Entry>, m: nat)
    requires Part(es, merged) && m < |merged| && Behind(es, pos, merged, m)
    ensures merged[m] in es ==> pos < |es| && es[pos] == merged[m]
  {
    if i :| 0 <= i < |es| && es[i] == merged[m] {
      assert i < pos < |es| ==> Before(es[i].key, es[pos].key);
    }
  }

  lemma RunIsPart(runs: seq<seq<Entry>>, merged: seq<Entry>, j: nat)
    requires IsMerge(runs, merged) && j < |runs|
    ensures Part(runs[j], merged) && Sorted(merged)
  {
  }

  lemma MergeIsSorted(runs: seq<seq<Entry>>, merged: seq<Entry>)
    requires IsMerge(runs, merged)
    ensures Sorted(merged)
  {
  }

  lemma OnlyHolder(runs: seq<seq<Entry>>, merged: seq<Entry>, c: nat, j: nat, e: Entry)
    requires IsMerge(runs, merged) && c < |runs| && j < |runs| && j != c && e in runs[c]
    ensures e !in runs[j]
  {
    assert if c < j then Apart(runs[c], runs[j]) else Apart(runs[j], runs[c]);
  }

  lemma NoEqualKey(es: seq<Entry>, merged: seq<Entry>, m: nat, i: nat)
    requires Part(es, merged) && Sorted(merged) && m < |merged| && merged[m] !in es && i < |es|
    ensures CompareInternal(merged[m].key, es[i].key) != 0
  {
    assert es[i] in es;
  }

  /** Equal keys in the merge are the same entry. */
  lemma OneEntryPerKey(merged: seq<Entry>, e: Entry, f: Entry)
    requires Sorted(merged) && e in merged && f in merged && NotAfter(e.key, f.key) && NotAfter(f.key, e.key)
    ensures e == f
  {
  }

  class MergingIterator {
    const children: seq<Cursor>
    /** The child that holds the current entry, or -1. */
    var current: int
    var direction: Direction
    ghost const runs: seq<seq<Entry>>
    ghost const merged: seq<Entry>
    /** Where the current entry is in `merged`, when valid. */
    ghost var at: nat

    ghost predicate Wired()
      reads children
    {
      && (forall j, k :: 0 <= j < k < |children| ==> children[j] != children[k])
      && |runs| == |children|
      && (forall j :: 0 <= j < |children| ==> children[j].Repr() && children[j].entries == runs[j])
      && IsMerge(runs, merged)
    }

    ghost predicate AllAhead(m: nat, n: nat)
      requires Wired() && m <= |merged| && n <= |children|
      reads children
    {
      forall j :: 0 <= j < n ==> Ahead(runs[j], children[j].pos, merged, m)
    }

    ghost predicate AllBehind(m: int, n: nat)
      requires Wired() && -1 <= m < |merged| && n <= |children|
      reads children
    {
      forall j :: 0 <= j < n ==> Behind(runs[j], children[j].pos, merged, m)
    }

    /** Child `c` holds entry `m` of the merge. */
    ghost predicate Holds(c: int, m: nat)
      requires Wired() && m < |merged|
      reads children
    {
      0 <= c < |children| && children[c].Valid() && children[c].Current() == merged[m]
    }

    ghost predicate Repr()
      reads this, children
    {
      && Wired()
      && -1 <= current < |children|
      && (current >= 0 ==>
            && at < |merged| && Holds(current, at)
            && (direction == Forward ==> AllAhead(at, |children|))
            && (direction == Reverse ==> AllBehind(at, |children|)))
    }

    predicate Valid()
      reads this
    {
      current >= 0
    }

    function Current(): (e: Entry)
      requires Repr() && Valid()
      reads this, children
      ensures e == merged[at]
    {
      children[current].Current()
    }

    /** The iterator stands at entry `m` of the merge, or is not valid outside it. */
    ghost predicate Shows(m: int)
      reads this, children
    {
      Repr() && if 0 <= m < |merged| then Valid() && at == m else !Valid()
    }

    constructor (children: seq<Cursor>, ghost runs: seq<seq<Entry>>)
      requires forall j, k :: 0 <= j < k < |children| ==> children[j] != children[k]
      requires |runs| == |children| && Mergeable(runs)
      requires forall j :: 0 <= j < |children| ==> children[j].Repr() && children[j].entries == runs[j]
      ensures Shows(-1) && this.children == children && this.runs == runs && IsMerge(runs, merged)
    {
      MergeAllIs(runs);
      this.children := children;
      this.runs := runs;
      this.merged := MergeAll(runs);
      current := -1;
      direction := Forward;
      at := 0;
    }

    method FindSmallest(ghost m: nat)
      requires Wired() && m <= |merged| && AllAhead(m, |children|)
      modifies this`current, this`at
      ensures if m < |merged| then at == m && Holds(current, m) else current == -1
    {
      var smallest := -1;
      for i := 0 to |children|
        invariant -1 <= smallest < i
        invariant smallest >= 0 ==> children[smallest].Valid()
        invariant forall j :: 0 <= j < i && children[j].Valid() ==>
          smallest >= 0 && NotAfter(children[smallest].Current().key, children[j].Current().key)
      {
        if children[i].Valid() {
          if smallest == -1 {
            smallest := i;
          } else if CompareInternal(children[i].Current().key, children[smallest].Current().key) < 0 {
            smallest := i;
          }
        }
      }
      current := smallest;
      if m < |merged| {
        at := m;
        assert merged[m] in merged;
        ghost var j :| 0 <= j < |runs| && merged[m] in runs[j];
        HolderAhead(runs[j], children[j].pos, merged, m);
        OneEntryPerKey(merged, children[current].Current(), merged[m]);
      }
    }

    method FindLargest(ghost m: int)
      requires Wired() && -1 <= m < |merged| && AllBehind(m, |children|)
      modifies this`current, this`at
      ensures if m >= 0 then at == m && Holds(current, m) else current == -1
    {
      var largest := -1;
      for i := |children| downto 0
        invariant -1 <= largest < |children|
        invariant largest >= 0 ==> children[largest].Valid()
        invariant forall j :: i <= j < |children| && children[j].Valid() ==>
          largest >= 0 && NotAfter(children[j].Current().key, children[largest].Current().key)
      {
        if children[i].Valid() {
          if largest == -1 {
            largest := i;
          } else if CompareInternal(children[i].Current().key, children[largest].Current().key) > 0 {
            largest := i;
          }
        }
      }
      current := largest;
      if m >= 0 {
        at := m;
        assert merged[m] in merged;
        ghost var j :| 0 <= j < |runs| && merged[m] in runs[j];
        HolderBehind(runs[j], children[j].pos, merged, m);
        OneEntryPerKey(merged, children[current].Current(), merged[m]);
      }
    }

    method SeekToFirst()
      requires Repr()
      modifies this, children
      ensures Shows(0)
    {
      hide IsMerge, Ahead, Behind, Part, Sorted;
      for i := 0 to |children|
        invariant Wired() && AllAhead(0, i)
      {
        children[i].SeekToFirst();
        RunIsPart(runs, merged, i);
        FirstIsAhead(runs[i], merged);
      }
      FindSmallest(0);
      direction := Forward;
    }

    method SeekToLast()
      requires Repr()
      modifies this, children
      ensures Shows(|merged| - 1)
    {
      hide IsMerge, Ahead, Behind, Part, Sorted;
      for i := 0 to |children|
        invariant Wired() && AllBehind(|merged| - 1, i)
      {
        children[i].SeekToLast();
        RunIsPart(runs, merged, i);
        LastIsBehind(runs[i], merged);
      }
      FindLargest(|merged| - 1);
      direction := Reverse;
    }

    /** The first entry of the merge at or after `target`. */
    method Seek(target: InternalKey) returns (ghost m: nat)
      requires Repr()
      modifies this, children
      ensures Shows(m) && m <= |merged|
      ensures forall i :: 0 <= i < m ==> Before(merged[i].key, target)
      ensures forall i :: m <= i < |merged| ==> NotAfter(target, merged[i].key)
    {
      hide IsMerge, Ahead, Behind, Part, Sorted;
      MergeIsSorted(runs, merged);
      m := LowerBound(merged, target);
      for i := 0 to |children|
        invariant Wired() && AllAhead(m, i)
      {
        children[i].Seek(target);
        RunIsPart(runs, merged, i);
        SeekIsAhead(runs[i], children[i].pos, merged, m, target);
      }
      FindSmallest(m);
      direction := Forward;
    }

    /** From backward to forward: every other child moves past the current key. */
    method TurnForward()
      requires Repr() && Valid() && direction == Reverse
      modifies this`direction, children
      ensures Repr() && direction == Forward && at == old(at)
    {
      hide IsMerge, Ahead, Behind, Part, Sorted;
      var key := Current().key;
      for i := 0 to |children|
        invariant Wired() && Holds(current, at) && AllAhead(at, i)
        invariant children[current].pos == old(children[current].pos)
      {
        RunIsPart(runs, merged, i);
        if i != current {
          OnlyHolder(runs, merged, current, i, merged[at]);
          PositionAfter(children[i], key, merged, at);
        } else {
          HolderIsAhead(runs[i], children[i].pos, merged, at);
        }
      }
      direction := Forward;
    }

    method StepCurrentForward()
      requires Wired() && at < |merged| && Holds(current, at) && AllAhead(at, |children|)
      modifies children
      ensures Wired() && AllAhead(at + 1, |children|)
    {
      hide IsMerge, Ahead, Behind, Part, Sorted;
      children[current].Next();
      forall j | 0 <= j < |children|
        ensures Ahead(runs[j], children[j].pos, merged, at + 1)
      {
        RunIsPart(runs, merged, j);
        if j != current { OnlyHolder(runs, merged, current, j, merged[at]); }
        StepAhead(runs[j], old(children[j].pos), merged, at);
      }
    }

    method Next()
      requires Repr() && Valid()
      modifies this, children
      ensures Shows(old(at) + 1)
    {
      hide IsMerge, Ahead, Behind, Part, Sorted;
      if direction != Forward {
        TurnForward();
      }
      StepCurrentForward();
      FindSmallest(at + 1);
    }

    /** From forward to backward: every other child moves before the current key. */
    method TurnBackward()
      requires Repr() && Valid() && direction == Forward
      modifies this`direction, children
      ensures Repr() && direction == Reverse && at == old(at)
    {
      hide IsMerge, Ahead, Behind, Part, Sorted;
      var key := Current().key;
      for i := 0 to |children|
        invariant Wired() && Holds(current, at) && AllBehind(at, i)
        invariant children[current].pos == old(children[current].pos)
      {
        RunIsPart(runs, merged, i);
        if i != current {
          OnlyHolder(runs, merged, current, i, merged[at]);
          PositionBefore(children[i], key, merged, at);
        } else {
          HolderIsBehind(runs[i], children[i].pos, merged, at);
        }
      }
      direction := Reverse;
    }

    method StepCurrentBackward()
      requires Wired() && at < |merged| && Holds(current, at) && AllBehind(at, |children|)
      modifies children
      ensures Wired() && AllBehind(at - 1, |children|)
    {
      hide IsMerge, Ahead, Behind, Part, Sorted;
      children[current].Prev();
      forall j | 0 <= j < |children|
        ensures Behind(runs[j], children[j].pos, merged, at - 1)
      {
        RunIsPart(runs, merged, j);
        if j != current {
          OnlyHolder(runs, merged, current, j, merged[at]);
          assert children[j].pos == old(children[j].pos);
          if children[j].pos < |runs[j]| { assert runs[j][children[j].pos] in runs[j]; }
        }
        StepBehind(runs[j], old(children[j].pos), merged, at);
      }
    }

    method Prev()
      requires Repr() && Valid()
      modifies this, children
      ensures Shows(old(at) - 1)
    {
      hide IsMerge, Ahead, Behind, Part, Sorted;
      if direction != Reverse {
        TurnBackward();
      }
      StepCurrentBackward();
      FindLargest(at - 1);
    }
  }

  /** Moves a child that does not hold `key` to its last entry before it. */
  method PositionBefore(child: Cursor, key: InternalKey, ghost merged: seq<Entry>, ghost m: nat)
    requires child.Repr() && Part(child.entries, merged) && Sorted(merged)
    requires m < |merged| && key == merged[m].key && merged[m] !in child.entries
    modifies child`pos
    ensures child.Repr() && Behind(child.entries, child.pos, merged, m)
  {
    child.Seek(key);
    SoughtBehind(child.entries, child.pos, merged, m);
    if child.Valid() {
      child.Prev();
    } else {
      child.SeekToLast();
    }
  }

  /** Moves a child that does not hold `key` to its first entry after it. */
  method PositionAfter(child: Cursor, key: InternalKey, ghost merged: seq<Entry>, ghost m: nat)
    requires child.Repr() && Part(child.entries, merged) && Sorted(merged)
    requires m < |merged| && key == merged[m].key && merged[m] !in child.entries
    modifies child`pos
    ensures child.Repr() && Ahead(child.entries, child.pos, merged, m)
  {
    child.Seek(key);
    if child.Valid() {
      NoEqualKey(child.entries, merged, m, child.pos);
      if CompareInternal(key, child.Current().key) == 0 {
        assert false; // The original steps over an equal key; the runs share none.
      }
    }
  }

  lemma HolderIsAhead(es: seq<Entry>, pos: nat, merged: seq<Entry>, m: nat)
    requires Sorted(es) && m < |merged| && pos < |es| && es[pos] == merged[m]
    ensures Ahead(es, pos, merged, m)
  {
    assert forall i :: 0 <= i < pos ==> Before(es[i].key, es[pos].key);
    assert forall i :: pos < i < |es| ==> Before(es[pos].key, es[i].key);
  }

  lemma HolderIsBehind(es: seq<Entry>, pos: nat, merged: seq<Entry>, m: nat)
    requires Sorted(es) && m < |merged| && pos < |es| && es[pos] == merged[m]
    ensures Behind(es, pos, merged, m)
  {
    assert forall i :: 0 <= i < pos ==> Before(es[i].key, es[pos].key);
    assert forall i :: pos < i < |es| ==> Before(es[pos].key, es[i].key);
  }

  /** A run without entry `m`, sought to it and stepped back, is behind. */
  lemma SoughtBehind(es: seq<Entry>, p: nat, merged: seq<Entry>, m: nat)
    requires Part(es, merged) && Sorted(merged) && m < |merged| && p <= |es| && merged[m] !in es
    requires forall i :: 0 <= i < p ==> Before(es[i].key, merged[m].key)
    requires forall i :: p <= i < |es| ==> NotAfter(merged[m].key, es[i].key)
    ensures Behind(es, if p == 0 then |es| else p - 1, merged, m)
  {
    forall i | p <= i < |es|
      ensures Before(merged[m].key, es[i].key)
    {
      assert es[i] in es;
      assert es[i] in merged && merged[m] in merged;
    }
  }

  /** The first position of a sorted run that is not before `target`. */
  ghost function LowerBound(es: seq<Entry>, target: InternalKey): (m: nat)
    requires Sorted(es)
    ensures m <= |es|
    ensures forall i :: 0 <= i < m ==> Before(es[i].key, target)
    ensures forall i :: m <= i < |es| ==> NotAfter(target, es[i].key)
  {
    if es == [] then 0
    else if Before(es[|es| - 1].key, target) then |es|
    else LowerBound(es[..|es| - 1], target)
  }
}
