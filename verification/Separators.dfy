/**
 Short index keys (util/comparator.cc, db/dbformat.cc): byte strings, then internal keys,
 that separate one block from the next, or follow the last one.
 */
module Separators {
  import opened Keys

  /** A common prefix does not change the order. */
  lemma {:induction false} RankPrefix(p: UserKey, a: UserKey, b: UserKey)
    ensures Rank(p + a) < Rank(p + b) <==> Rank(a) < Rank(b)
    decreases |p|
  {
    if p == [] {
      assert p + a == a && p + b == b;
    } else {
      RankPrefix(p[1..], a, b);
      assert (p + a)[1..] == p[1..] + a && (p + b)[1..] == p[1..] + b;
    }
  }

  /** The first differing byte decides. */
  lemma FirstByteDecides(a: UserKey, b: UserKey)
    requires a != [] && b != [] && a[0] < b[0]
    ensures Rank(a) < Rank(b)
  {
    var _ := Compare(a, b);
  }

  lemma DifferAt(a: UserKey, b: UserKey, i: nat)
    requires i < |a| && i < |b| && a[..i] == b[..i] && a[i] < b[i]
    ensures Rank(a) < Rank(b)
  {
    assert a == a[..i] + a[i..] && b == a[..i] + b[i..];
    FirstByteDecides(a[i..], b[i..]);
    RankPrefix(a[..i], a[i..], b[i..]);
  }

  /** The keys part at byte `i`, with room for a byte in between. */
  predicate Parts(start: UserKey, limit: UserKey, i: nat) {
    i < |start| && i < |limit| && start[..i] == limit[..i] && start[i] as int + 1 < limit[i] as int
  }

  /** The first byte below 0xff. */
  predicate CanGrow(key: UserKey, i: nat) {
    i < |key| && key[i] != 0xff && forall j :: 0 <= j < i ==> key[j] == 0xff
  }

  /** `key` up to byte `i`, which is one larger. */
  function Bumped(key: UserKey, i: nat): UserKey
    requires i < |key| && key[i] != 0xff
  {
    key[..i] + [key[i] + 1]
  }

  /** BytewiseComparatorImpl::FindShortestSeparator: keeps `start`, or a key strictly in between. */
  method FindShortestSeparator(start: UserKey, limit: UserKey) returns (sep: UserKey)
    ensures sep == start || (Rank(start) < Rank(sep) < Rank(limit) && |sep| <= |start|)
    ensures forall i: nat :: i < |start| && i < |limit| && start[..i] == limit[..i] && start[i] as int + 1 < limit[i] as int ==>
              sep == start[..i] + [start[i] + 1]
    ensures sep != start ==> exists i: nat :: Parts(start, limit, i) && sep == Bumped(start, i)
  {
    var minLength := if |start| < |limit| then |start| else |limit|;
    var diffIndex := 0;
    while diffIndex < minLength && start[diffIndex] == limit[diffIndex]
      invariant diffIndex <= minLength && start[..diffIndex] == limit[..diffIndex]
    {
      diffIndex := diffIndex + 1;
    }
    sep := start;
    PartsOnce(start, limit, diffIndex);
    assert forall i: nat :: i < |start| && i < |limit| && start[..i] == limit[..i] && start[i] as int + 1 < limit[i] as int ==>
        Parts(start, limit, i);
    if diffIndex >= minLength {
      // One key begins with the other: there is no byte to raise.
    } else {
      var diffByte := start[diffIndex];
      if diffByte < 0xff && (diffByte as int) + 1 < limit[diffIndex] as int {
        sep := sep[diffIndex := diffByte + 1];
        sep := sep[..diffIndex + 1];
        assert sep == Bumped(start, diffIndex) && Parts(start, limit, diffIndex);
        DifferAt(start, sep, diffIndex);
        DifferAt(sep, limit, diffIndex);
      }
    }
  }

  /** Keys part where they first differ. */
  lemma PartsOnce(start: UserKey, limit: UserKey, at: nat)
    requires at <= |start| && at <= |limit| && start[..at] == limit[..at]
    requires at < |start| && at < |limit| ==> start[at] != limit[at]
    ensures forall i: nat :: Parts(start, limit, i) ==> i == at
  {
    forall i: nat | Parts(start, limit, i)
      ensures i == at
    {
      assert forall j :: 0 <= j < at ==> start[j] == start[..at][j] && limit[j] == limit[..at][j];
      assert forall j :: 0 <= j < i ==> start[j] == start[..i][j] && limit[j] == limit[..i][j];
    }
  }

  /** BytewiseComparatorImpl::FindShortSuccessor: keeps `key`, or a larger key. */
  method FindShortSuccessor(key: UserKey) returns (succ: UserKey)
    ensures succ == key || (Rank(key) < Rank(succ) && |succ| <= |key|)
    ensures forall i: nat :: i < |key| && key[i] != 0xff && (forall j :: 0 <= j < i ==> key[j] == 0xff) ==> succ == key[..i] + [key[i] + 1]
    ensures succ == key <==> forall i :: 0 <= i < |key| ==> key[i] == 0xff
  {
    succ := key;
    for i := 0 to |key|
      invariant succ == key && forall j :: 0 <= j < i ==> key[j] == 0xff
    {
      var b := key[i];
      if b != 0xff {
        succ := succ[i := b + 1];
        succ := succ[..i + 1];
        assert succ == Bumped(key, i);
        DifferAt(key, succ, i);
        return;
      }
    }
  }

  /** The earliest internal key of a user key. */
  function Earliest(u: UserKey): InternalKey {
    InternalKey(u, MAX_SEQUENCE, TYPE_FOR_SEEK)
  }

  /** InternalKeyComparator::FindShortestSeparator. */
  method InternalSeparator(start: InternalKey, limit: InternalKey) returns (sep: InternalKey)
    ensures sep == start ||
      (sep == Earliest(sep.user) && |sep.user| < |start.user| && Rank(start.user) < Rank(sep.user) < Rank(limit.user))
    ensures forall i: nat :: i < |start.user| && i < |limit.user| && start.user[..i] == limit.user[..i] && start.user[i] as int + 1 < limit.user[i] as int ==>
              sep == if i + 1 < |start.user| then InternalKey(start.user[..i] + [start.user[i] + 1], 0xff_ffff_ffff_ffff, 1) else start
    ensures sep != start ==> exists i: nat :: Parts(start.user, limit.user, i)
    ensures Before(start, limit) ==> NotAfter(start, sep) && Before(sep, limit)
  {
    var tmp := FindShortestSeparator(start.user, limit.user);
    sep := start;
    if |tmp| < |start.user| && Compare(start.user, tmp) < 0 {
      sep := Earliest(tmp);
    }
  }

  /** InternalKeyComparator::FindShortSuccessor. */
  method InternalSuccessor(key: InternalKey) returns (succ: InternalKey)
    ensures succ == key || (succ == Earliest(succ.user) && |succ.user| < |key.user| && Rank(key.user) < Rank(succ.user))
    ensures forall i: nat :: i < |key.user| && key.user[i] != 0xff && (forall j :: 0 <= j < i ==> key.user[j] == 0xff) ==>
              succ == if i + 1 < |key.user| then InternalKey(key.user[..i] + [key.user[i] + 1], 0xff_ffff_ffff_ffff, 1) else key
    ensures NotAfter(key, succ)
  {
    var tmp := FindShortSuccessor(key.user);
    succ := key;
    if |tmp| < |key.user| && Compare(key.user, tmp) < 0 {
      succ := Earliest(tmp);
    }
  }
}
