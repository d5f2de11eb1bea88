/**
 The bloom filter policy (util/bloom.cc): a filter built from a list of keys never denies one
 of them. The hash function is left open.
 */
module Bloom {
  import opened BitOps
  import opened Keys

  type Bits = seq<byte>

  function SetInByte(b: byte, i: nat): (c: byte)
    requires i < 8
  {
    assert Power2(8) == 256 by { assert Power2(3) == 8 && Power2(6) == 64; }
    WithBitFits(b as nat, i, 8);
    WithBit(b as nat, i) as byte
  }

  predicate IsSet(array_: Bits, pos: nat)
    requires pos < 8 * |array_|
  {
    HasBit(array_[pos / 8] as nat, pos % 8)
  }

  type Hash32 = h: nat | h < 0x1_0000_0000

  /** The double hashing step: rotate right 17 bits. */
  function Delta(h: Hash32): Hash32 {
    h / 0x2_0000 + h % 0x2_0000 * 0x8000
  }

  /** `(h >> 17) | (h << 15)` */
  lemma RotatesRight(h: Hash32, i: nat)
    requires i < 32
    ensures HasBit(Delta(h), i) <==> HasBit(h, (i + 17) % 32)
  {
    hide HasBit;
    assert Power2(15) == 0x8000 && Power2(17) == 0x2_0000 by { assert Power2(4) == 16 && Power2(8) == 256 && Power2(12) == 4096; }
    HasBitJoin(h / 0x2_0000, h % 0x2_0000, 17, (i + 17) % 32);
    HasBitJoin(h % 0x2_0000, h / 0x2_0000, 15, i);
  }

  /** The j-th probe value; additions wrap in 32 bits. */
  function Probe(h: Hash32, j: nat): Hash32 {
    if j == 0 then h else Add32(Probe(h, j - 1), Delta(h))
  }

  function Add32(a: Hash32, b: Hash32): Hash32 {
    (a + b) % 0x1_0000_0000
  }

  lemma {:induction false} ProbeIs(h: Hash32, j: nat)
    ensures Probe(h, j) == (h + j * Delta(h)) % 0x1_0000_0000
  {
    hide Delta;
    if j > 0 {
      ProbeIs(h, j - 1);
      Distributes(j - 1, Delta(h));
      AddWraps(h + (j - 1) * Delta(h), Delta(h));
    }
  }

  lemma Distributes(j: nat, d: nat)
    ensures (j + 1) * d == j * d + d
  {
  }

  lemma AddWraps(a: nat, d: nat)
    ensures (a % 0x1_0000_0000 + d) % 0x1_0000_0000 == (a + d) % 0x1_0000_0000
  {
  }

  /** The bit that the j-th probe lands on. */
  function BitPos(h: Hash32, bits: nat): (pos: nat)
    requires bits > 0
    ensures pos < bits
  {
    h % bits
  }

  ghost predicate Marked(array_: Bits, h: Hash32, k: nat) {
    |array_| > 0 && forall j :: 0 <= j < k ==> IsSet(array_, BitPos(Probe(h, j), 8 * |array_|))
  }

  /** The bit at the j-th probe value, modulo the number of bits, is set. */
  ghost predicate ProbeHits(array_: Bits, h: Hash32, j: nat)
    requires array_ != []
  {
    var p := Probe(h, j) % (8 * |array_|);
    HasBit(array_[p / 8] as nat, p % 8)
  }

  ghost predicate AllHit(array_: Bits, h: Hash32, k: nat)
    requires array_ != []
  {
    forall j: nat :: j < k ==> ProbeHits(array_, h, j)
  }

  lemma MarkedIs(array_: Bits, h: Hash32, k: nat)
    requires array_ != []
    ensures Marked(array_, h, k) <==> AllHit(array_, h, k)
  {
    hide Probe, HasBit;
    if Marked(array_, h, k) {
      forall j: nat | j < k
        ensures ProbeHits(array_, h, j)
      {
        assert IsSet(array_, BitPos(Probe(h, j), 8 * |array_|));
      }
    } else {
      var j: nat :| j < k && !IsSet(array_, BitPos(Probe(h, j), 8 * |array_|));
      assert !ProbeHits(array_, h, j);
    }
  }

  method SetAt(array_: Bits, pos: nat) returns (after: Bits)
    requires pos < 8 * |array_|
    ensures |after| == |array_|
    ensures forall p :: 0 <= p < 8 * |array_| ==> (IsSet(after, p) <==> IsSet(array_, p) || p == pos)
  {
    var b := array_[pos / 8];
    after := array_[pos / 8 := SetInByte(b, pos % 8)];
    forall p | 0 <= p < 8 * |array_|
      ensures IsSet(after, p) <==> IsSet(array_, p) || p == pos
    {
      if p / 8 == pos / 8 { WithBitIs(b as nat, pos % 8, p % 8); }
    }
  }

  /** One of the first `k` probes of `h` lands on bit `pos`. */
  predicate Probed(h: Hash32, k: nat, bits: nat, pos: nat)
    requires bits > 0
  {
    k > 0 && (pos == BitPos(Probe(h, k - 1), bits) || Probed(h, k - 1, bits, pos))
  }

  lemma {:induction false} ProbedAt(h: Hash32, k: nat, bits: nat, j: nat)
    requires bits > 0 && j < k
    ensures Probed(h, k, bits, BitPos(Probe(h, j), bits))
  {
    if j < k - 1 { ProbedAt(h, k - 1, bits, j); }
  }

  /** A probe of one of the first `n` hashes lands on bit `pos`. */
  predicate Touched(hashes: seq<Hash32>, n: nat, k: nat, bits: nat, pos: nat)
    requires n <= |hashes| && bits > 0
  {
    n > 0 && (Probed(hashes[n - 1], k, bits, pos) || Touched(hashes, n - 1, k, bits, pos))
  }

  lemma {:induction false} TouchedAt(hashes: seq<Hash32>, n: nat, k: nat, bits: nat, i: nat, pos: nat)
    requires i < n <= |hashes| && bits > 0 && Probed(hashes[i], k, bits, pos)
    ensures Touched(hashes, n, k, bits, pos)
  {
    if i < n - 1 { TouchedAt(hashes, n - 1, k, bits, i, pos); }
  }

  lemma {:induction false} ProbedBy(h: Hash32, k: nat, bits: nat, pos: nat) returns (j: nat)
    requires bits > 0 && Probed(h, k, bits, pos)
    ensures j < k && BitPos(Probe(h, j), bits) == pos
  {
    if pos == BitPos(Probe(h, k - 1), bits) { j := k - 1; } else { j := ProbedBy(h, k - 1, bits, pos); }
  }

  lemma {:induction false} TouchedBy(hashes: seq<Hash32>, n: nat, k: nat, bits: nat, pos: nat) returns (i: nat)
    requires n <= |hashes| && bits > 0 && Touched(hashes, n, k, bits, pos)
    ensures i < n && Probed(hashes[i], k, bits, pos)
  {
    if Probed(hashes[n - 1], k, bits, pos) { i := n - 1; } else { i := TouchedBy(hashes, n - 1, k, bits, pos); }
  }

  ghost predicate Exactly(array_: Bits, hashes: seq<Hash32>, k: nat) {
    array_ != [] && forall pos :: 0 <= pos < 8 * |array_| ==> (IsSet(array_, pos) <==> Touched(hashes, |hashes|, k, 8 * |array_|, pos))
  }

  class BloomFilterPolicy {
    const bitsPerKey: nat
    const k: nat
    const hash: UserKey -> Hash32

    ghost predicate Valid() {
      1 <= k <= 30
    }

    constructor (bitsPerKey: nat, hash: UserKey -> Hash32)
      ensures Valid() && this.hash == hash && this.bitsPerKey == bitsPerKey
      ensures k == if bitsPerKey * 69 < 200 then 1 else if bitsPerKey * 69 >= 3000 then 30 else bitsPerKey * 69 / 100
    {
      this.bitsPerKey := bitsPerKey;
      this.hash := hash;
      // 0.69 is about ln(2).
      var k := bitsPerKey * 69 / 100;
      this.k := if k < 1 then 1 else if k > 30 then 30 else k;
    }

    ghost function Hashes(keys: seq<UserKey>): (hs: seq<Hash32>)
      ensures |hs| == |keys|
    {
      seq(|keys|, i requires 0 <= i < |keys| => hash(keys[i]))
    }

    /** The filter of exactly these keys: a bit is set when a probe of some key lands on it, and only then. */
    ghost predicate IsFilterOf(keys: seq<UserKey>, filter: Bits) {
      var needed := if |keys| * bitsPerKey < 64 then 64 else |keys| * bitsPerKey;
      && needed <= 8 * (|filter| - 1) < needed + 8 && filter[|filter| - 1] as nat == k
      && Exactly(filter[..|filter| - 1], Hashes(keys), k)
    }

    /** A filter with the policy's number of probes that does not deny `key`. */
    ghost predicate Admits(filter: Bits, key: UserKey) {
      && |filter| >= 2 && filter[|filter| - 1] as nat == k
      && Marked(filter[..|filter| - 1], hash(key), k)
    }

    /** Filters may come from a policy with other parameters; more than 30 probes are reserved for other encodings. */
    ghost predicate MayMatch(filter: Bits, key: UserKey) {
      && |filter| >= 2
      && (filter[|filter| - 1] > 30 || Marked(filter[..|filter| - 1], hash(key), filter[|filter| - 1] as nat))
    }

    /** Which bits of a filter are set: those at a probe value of some key, modulo the number of bits. */
    lemma FilterBits(keys: seq<UserKey>, filter: Bits, pos: nat)
      requires Valid() && IsFilterOf(keys, filter) && pos < 8 * (|filter| - 1)
      ensures IsSet(filter[..|filter| - 1], pos)
              <==> exists i, j: nat :: 0 <= i < |keys| && j < k && Probe(hash(keys[i]), j) % (8 * (|filter| - 1)) == pos
    {
      hide Delta, Probe, IsSet, Probed, Touched;
      var bits := 8 * (|filter| - 1);
      if Touched(Hashes(keys), |keys|, k, bits, pos) {
        var i := TouchedBy(Hashes(keys), |keys|, k, bits, pos);
        var j := ProbedBy(Hashes(keys)[i], k, bits, pos);
        assert Probe(hash(keys[i]), j) % bits == pos;
      }
      if i, j: nat :| 0 <= i < |keys| && j < k && Probe(hash(keys[i]), j) % bits == pos {
        ProbedAt(hash(keys[i]), k, bits, j);
        TouchedAt(Hashes(keys), |keys|, k, bits, i, pos);
      }
    }

    /** No false negatives. */
    lemma AdmitsItsKeys(keys: seq<UserKey>, filter: Bits, key: UserKey)
      requires Valid() && IsFilterOf(keys, filter) && key in keys
      ensures Admits(filter, key) && MayMatch(filter, key)
    {
      hide Delta, Probe, BitPos, Probed, Touched, IsSet;
      var bits := 8 * (|filter| - 1);
      var i :| 0 <= i < |keys| && keys[i] == key;
      forall j | 0 <= j < k
        ensures IsSet(filter[..|filter| - 1], BitPos(Probe(hash(key), j), bits))
      {
        ProbedAt(hash(key), k, bits, j);
        TouchedAt(Hashes(keys), |keys|, k, bits, i, BitPos(Probe(hash(key), j), bits));
      }
    }

    /** CreateFilter: the bytes appended to the filter block for `keys`. */
    method CreateFilter(keys: seq<UserKey>) returns (filter: Bits)
      requires Valid()
      ensures IsFilterOf(keys, filter)
    {
      hide Delta, Add32, BitPos, IsSet;
      var bits := |keys| * bitsPerKey;
      // For small n a minimum length avoids a very high false positive rate.
      if bits < 64 { bits := 64; }
      var bytes := (bits + 7) / 8;
      bits := bytes * 8;
      var array_: Bits := seq(bytes, i => 0);
      ghost var hashes := Hashes(keys);
      AllClear(array_);
      for i := 0 to |keys|
        invariant |array_| == bytes
        invariant forall pos :: 0 <= pos < bits ==> (IsSet(array_, pos) <==> Touched(hashes, i, k, bits, pos))
      {
        var h := hash(keys[i]);
        var delta := Delta(h);
        for j := 0 to k
          invariant |array_| == bytes && h == Probe(hash(keys[i]), j)
          invariant forall pos :: 0 <= pos < bits ==>
                      (IsSet(array_, pos) <==> Touched(hashes, i, k, bits, pos) || Probed(hash(keys[i]), j, bits, pos))
        {
          array_ := SetAt(array_, BitPos(h, bits));
          h := Add32(h, delta);
        }
      }
      filter := array_ + [k as byte];
      assert filter[..|filter| - 1] == array_;
    }

    /** KeyMayMatch. */
    method KeyMayMatch(key: UserKey, filter: Bits) returns (may: bool)
      requires Valid()
      ensures may <==> MayMatch(filter, key)
      ensures may <==>
              && |filter| >= 2
              && (filter[|filter| - 1] > 30 || AllHit(filter[..|filter| - 1], hash(key), filter[|filter| - 1] as nat))
    {
      hide Delta, Add32, BitPos, IsSet;
      if |filter| < 2 {
        return false;
      }
      MarkedIs(filter[..|filter| - 1], hash(key), filter[|filter| - 1] as nat);
      var array_ := filter[..|filter| - 1];
      var bits := 8 * |array_|;
      var probes := filter[|filter| - 1] as nat;
      if probes > 30 {
        // Reserved for new encodings of short filters: consider it a match.
        return true;
      }
      var h := hash(key);
      var delta := Delta(h);
      for j := 0 to probes
        invariant h == Probe(hash(key), j) && Marked(array_, hash(key), j)
      {
        if !IsSet(array_, BitPos(h, bits)) {
          return false;
        }
        h := Add32(h, delta);
      }
      return true;
    }
  }

  lemma AllClear(array_: Bits)
    requires forall i :: 0 <= i < |array_| ==> array_[i] == 0
    ensures forall pos :: 0 <= pos < 8 * |array_| ==> !IsSet(array_, pos)
  {
    forall pos | 0 <= pos < 8 * |array_|
      ensures !IsSet(array_, pos)
    {
      ZeroHasNone(pos % 8);
    }
  }
}
