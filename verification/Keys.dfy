/**
 Internal keys of the store (db/dbformat.{h,cc}, util/comparator.cc).

 A user key is a byte string under the bytewise order. An internal key adds a sequence
 number and a type byte and sorts by user key ascending, then newest first.

 `Rank` embeds the bytewise order into the reals. It only serves proofs: every comparison
 below is also stated through it, so that order reasoning becomes linear arithmetic.
 */
module Keys {

  newtype byte = x: int | 0 <= x < 256

  type UserKey = seq<byte>
  type Value = seq<byte>

  const TYPE_DELETION: nat := 0
  const TYPE_VALUE: nat := 1
  const TYPE_FOR_SEEK: nat := TYPE_VALUE
  const MAX_SEQUENCE: nat := 0xff_ffff_ffff_ffff

  type SeqNo = n: nat | n <= MAX_SEQUENCE

  type KindByte = n: nat | n < 256

  /** `kind` is the low byte of the tag as stored; only 0 and 1 parse. */
  datatype InternalKey = InternalKey(user: UserKey, seqno: SeqNo, kind: KindByte)
  {
    /** ParseInternalKey succeeds. */
    predicate Parses() { kind <= TYPE_VALUE }

    /** The 64-bit trailer of the encoded key. */
    function Tag(): nat { seqno * 256 + kind }
  }

  datatype Entry = Entry(key: InternalKey, value: Value)
  {
    predicate Parses() { key.Parses() }
  }

  ghost function Rank(k: UserKey): (r: real)
    ensures 0.0 <= r < 1.0
    ensures r == 0.0 <==> k == []
  {
    if k == [] then 0.0 else (k[0] as int as real + 1.0 + Rank(k[1..])) / 257.0
  }

  /** Slice::compare: the first differing byte decides, then the length. */
  function Compare(a: UserKey, b: UserKey): (r: int)
    ensures r < 0 <==> Rank(a) < Rank(b)
    ensures r == 0 <==> a == b
    ensures r > 0 <==> Rank(a) > Rank(b)
    ensures r == 0 <==> Rank(a) == Rank(b)
  {
    if a == [] && b == [] then 0
    else if a == [] then -1
    else if b == [] then 1
    else if a[0] != b[0] then (if a[0] < b[0] then -1 else 1)
    else
      assert a == [a[0]] + a[1..] && b == [b[0]] + b[1..];
      Compare(a[1..], b[1..])
  }

  /** InternalKeyComparator::Compare. */
  function CompareInternal(a: InternalKey, b: InternalKey): (r: int)
    ensures r < 0 <==> Before(a, b)
    ensures r > 0 <==> Before(b, a)
    ensures r == 0 <==> a.user == b.user && a.Tag() == b.Tag()
    ensures a.user == b.user ==> (r < 0 <==> a.seqno > b.seqno || (a.seqno == b.seqno && a.kind > b.kind))
  {
    var r := Compare(a.user, b.user);
    if r != 0 then r
    else if a.Tag() > b.Tag() then -1
    else if a.Tag() < b.Tag() then 1
    else 0
  }

  /** The internal key order, as arithmetic. */
  ghost predicate Before(a: InternalKey, b: InternalKey) {
    Rank(a.user) < Rank(b.user) || (Rank(a.user) == Rank(b.user) && a.Tag() > b.Tag())
  }

  /** The order of byte strings: a proper prefix comes first, else the first different byte decides. */
  lemma {:induction false} Lexicographic(a: UserKey, b: UserKey)
    ensures Compare(a, b) < 0 <==> a < b || exists k :: 0 <= k < |a| && k < |b| && a[..k] == b[..k] && a[k] < b[k]
  {
    hide Rank;
    if a != [] && b != [] && a[0] == b[0] {
      var x, y := a[1..], b[1..];
      Lexicographic(x, y);
      assert a == [a[0]] + x && b == [b[0]] + y;
      assert a < b <==> x < y;
      if k: nat :| k < |x| && k < |y| && x[..k] == y[..k] && x[k] < y[k] {
        assert a[..k + 1] == [a[0]] + x[..k] && b[..k + 1] == [b[0]] + y[..k];
        assert a[k + 1] < b[k + 1];
      }
      if k: nat :| k < |a| && k < |b| && a[..k] == b[..k] && a[k] < b[k] {
        assert k > 0 && x[..k - 1] == a[..k][1..] && y[..k - 1] == b[..k][1..];
        assert x[k - 1] < y[k - 1];
      }
    } else if a != [] && b != [] {
      assert a[..0] == b[..0];
      assert forall k :: 0 < k < |a| && k < |b| ==> a[..k][0] == a[0] && b[..k][0] == b[0];
    }
  }

  /** Every 64-bit number is the tag of exactly one sequence number and type byte. */
  lemma TagPacks(u: UserKey, n: nat) returns (k: InternalKey)
    requires n <= 0xffff_ffff_ffff_ffff
    ensures k.user == u && k.Tag() == n && forall j: InternalKey :: j.user == u && j.Tag() == n ==> j == k
    ensures forall j: InternalKey :: j.Tag() <= 0xffff_ffff_ffff_ffff
  {
    k := InternalKey(u, n / 256, n % 256);
  }

  ghost predicate NotAfter(a: InternalKey, b: InternalKey) {
    !Before(b, a)
  }

  /** Strictly increasing internal keys. */
  ghost predicate Sorted(es: seq<Entry>) {
    forall i, j :: 0 <= i < j < |es| ==> Before(es[i].key, es[j].key)
  }

  lemma SameRank(a: UserKey, b: UserKey)
    ensures Rank(a) == Rank(b) <==> a == b
  {
    var _ := Compare(a, b);
  }
}
