/**
 Fixed-width and variable-length integers (util/coding.cc), with the loops that decode them.
 */
module Coding {
  import opened Keys
  import opened Store

  type Bytes = seq<byte>

  const MAX32: nat := 0xffff_ffff
  const MAX64: nat := 0xffff_ffff_ffff_ffff

  /** The low `width` bytes of `v`, least significant first. */
  function Fixed(v: nat, width: nat): (s: Bytes)
    ensures |s| == width
  {
    if width == 0 then [] else [(v % 256) as byte] + Fixed(v / 256, width - 1)
  }

  function FromFixed(s: Bytes): nat {
    if s == [] then 0 else s[0] as nat + 256 * FromFixed(s[1..])
  }

  function Power256(n: nat): (p: nat)
    ensures p >= 1
  {
    if n == 0 then 1 else 256 * Power256(n - 1)
  }

  /** Reading back gives the value, reduced to the width. */
  lemma {:induction false} FixedRoundTrip(v: nat, width: nat)
    ensures FromFixed(Fixed(v, width)) == v % Power256(width)
  {
    if width > 0 {
      FixedRoundTrip(v / 256, width - 1);
      Digits(v, Power256(width - 1));
    }
  }

  lemma Digits(v: nat, p: nat)
    requires p > 0
    ensures v % (256 * p) == v % 256 + 256 * (v / 256 % p)
  {
    var high, low := v / 256 / p, v % 256 + 256 * (v / 256 % p);
    assert v == 256 * (p * high + v / 256 % p) + v % 256;
    assert 256 * (p * high) == (256 * p) * high;
    assert v == (256 * p) * high + low && 0 <= low < 256 * p;
    Remainder(256 * p, high, low);
  }

  lemma Remainder(m: nat, q: nat, r: nat)
    requires r < m
    ensures (m * q + r) % m == r
  {
    var x := m * q + r;
    OneRemainder(m, q, r, x / m, x % m);
  }

  lemma OneRemainder(m: nat, q: nat, r: nat, q': nat, r': nat)
    requires r < m && r' < m && m * q + r == m * q' + r'
    ensures r == r'
  {
    if q < q' {
      OneMultipleApart(m, q, q');
    } else if q' < q {
      OneMultipleApart(m, q', q);
    }
  }

  lemma OneMultipleApart(m: nat, q: nat, q': nat)
    requires q < q'
    ensures m * q + m <= m * q'
  {
    var d: nat := q' - q - 1;
    assert m * q' == m * q + m + m * d by { assert q' == q + 1 + d; }
  }

  function Fixed32(v: nat): (s: Bytes)
    ensures |s| == 4
  {
    Fixed(v, 4)
  }

  lemma Fixed32RoundTrip(v: nat)
    requires v <= MAX32
    ensures FromFixed(Fixed32(v)) == v
  {
    assert Power256(4) == MAX32 + 1 by {
      assert Power256(1) == 256 && Power256(2) == 0x1_0000 && Power256(3) == 0x100_0000;
    }
    FixedRoundTrip(v, 4);
  }

  /** A run of fixed32 numbers. */
  function Fixed32s(vs: seq<nat>): (s: Bytes)
    ensures |s| == 4 * |vs|
  {
    if vs == [] then [] else Fixed32s(vs[..|vs| - 1]) + Fixed32(vs[|vs| - 1])
  }

  lemma {:induction false} Fixed32At(vs: seq<nat>, i: nat)
    requires i < |vs|
    ensures Fixed32s(vs)[4 * i..4 * i + 4] == Fixed32(vs[i])
  {
    hide Fixed32;
    var n := |vs| - 1;
    if i < n {
      Fixed32At(vs[..n], i);
      assert Fixed32s(vs)[4 * i..4 * i + 4] == Fixed32s(vs[..n])[4 * i..4 * i + 4];
    }
  }

  /** EncodeVarint32 and EncodeVarint64 write seven bits a byte, low bits first. */
  function Varint(v: nat): (s: Bytes)
    ensures 1 <= |s|
  {
    if v < 128 then [v as byte] else [(v % 128 + 128) as byte] + Varint(v / 128)
  }

  /** EncodeVarint64: bytes with the top bit set while more than seven bits are left. */
  method EncodeVarint(v: nat) returns (s: Bytes)
    ensures s == Varint(v)
  {
    var rest := v;
    s := [];
    while rest >= 128
      invariant s + Varint(rest) == Varint(v)
    {
      assert s + Varint(rest) == s + [(rest % 128 + 128) as byte] + Varint(rest / 128);
      s, rest := s + [(rest % 128 + 128) as byte], rest / 128;
    }
    s := s + [rest as byte];
  }

  /** VarintLength. */
  method VarintLength(v: nat) returns (len: nat)
    ensures len == |Varint(v)|
  {
    len := 1;
    var rest := v;
    while rest >= 128
      invariant |Varint(v)| == len - 1 + |Varint(rest)|
    {
      rest := rest / 128;
      len := len + 1;
    }
  }

  function Power128(n: nat): (p: nat)
    ensures p >= 1
  {
    if n == 0 then 1 else 128 * Power128(n - 1)
  }

  lemma {:induction false} VarintFits(v: nat, n: nat)
    requires n >= 1 && v < Power128(n)
    ensures |Varint(v)| <= n
  {
    if v >= 128 {
      VarintFits(v / 128, n - 1);
    }
  }

  /** The value of a varint at the front of `s` of at most `max` bytes, and its length. */
  function Decode(s: Bytes, max: nat): (r: Option<(nat, nat)>)
    ensures r.Some? ==> 1 <= r.value.1 <= |s| && r.value.1 <= max
    decreases max
  {
    if max == 0 || s == [] then None
    else if s[0] < 128 then Some((s[0] as nat, 1))
    else match Decode(s[1..], max - 1)
      case None => None
      case Some((v, n)) => Some((s[0] as nat - 128 + 128 * v, n + 1))
  }

  lemma {:induction false} DecodeVarint(v: nat, max: nat, rest: Bytes)
    requires |Varint(v)| <= max
    ensures Decode(Varint(v) + rest, max) == Some((v, |Varint(v)|))
  {
    if v >= 128 {
      DecodeVarint(v / 128, max - 1, rest);
      assert (Varint(v) + rest)[1..] == Varint(v / 128) + rest;
    }
  }

  /**
   GetVarint32Ptr and GetVarint64Ptr: five or ten bytes at most. The original accumulates in
   a 32- or 64-bit register, so what exceeds it is lost; `width` is that register's range.
   */
  method GetVarint(s: Bytes, max: nat, width: nat) returns (r: Option<(nat, nat)>)
    requires width > 0
    ensures r == Truncated(Decode(s, max), width)
  {
    hide Decode, Continued;
    var i: nat, result: nat, scale: nat := 0, 0, 1;
    Starts(Decode(s, max));
    assert s[0..] == s;
    while i < max && i < |s|
      invariant i <= max && i <= |s| && scale >= 1
      invariant Decode(s, max) == Continued(Decode(s[i..], max - i), result, scale, i)
    {
      var b := s[i] as nat;
      if b < 128 {
        LastByte(s, i, max, result, scale);
        return Some(((result + scale * b) % width, i + 1));
      }
      Accumulate(s, i, max, result, scale);
      result, scale, i := result + scale * (b - 128), scale * 128, i + 1;
    }
    NothingLeft(s, i, max, result, scale);
    r := None;
  }

  /** No end within `max` bytes. */
  lemma {:induction false} Unterminated(s: Bytes, max: nat)
    requires |s| >= max && forall i :: 0 <= i < max ==> s[i] >= 128
    ensures Decode(s, max) == None
  {
    if max > 0 { Unterminated(s[1..], max - 1); }
  }

  function Truncated(r: Option<(nat, nat)>, width: nat): Option<(nat, nat)>
    requires width > 0
  {
    if r.Some? then Some((r.value.0 % width, r.value.1)) else None
  }

  /** A decoded rest, after `i` bytes that contributed `result`. */
  function Continued(r: Option<(nat, nat)>, result: nat, scale: nat, i: nat): Option<(nat, nat)> {
    if r.Some? then Some((result + scale * r.value.0, i + r.value.1)) else None
  }

  lemma Starts(r: Option<(nat, nat)>)
    ensures Continued(r, 0, 1, 0) == r
  {
  }

  lemma LastByte(s: Bytes, i: nat, max: nat, result: nat, scale: nat)
    requires i < max && i < |s| && s[i] < 128
    ensures Continued(Decode(s[i..], max - i), result, scale, i) == Some((result + scale * (s[i] as nat), i + 1))
  {
  }

  lemma NothingLeft(s: Bytes, i: nat, max: nat, result: nat, scale: nat)
    requires i <= max && i <= |s| && (i == max || i == |s|)
    ensures Continued(Decode(s[i..], max - i), result, scale, i).None?
  {
  }

  lemma Accumulate(s: Bytes, i: nat, max: nat, result: nat, scale: nat)
    requires i < max && i < |s| && s[i] >= 128
    ensures Continued(Decode(s[i..], max - i), result, scale, i)
      == Continued(Decode(s[i + 1..], max - i - 1), result + scale * (s[i] as nat - 128), scale * 128, i + 1)
  {
    assert s[i..][1..] == s[i + 1..];
    var rest := Decode(s[i + 1..], max - i - 1);
    if rest.Some? {
      var low, v := s[i] as nat - 128, rest.value.0;
      assert scale * (low + 128 * v) == scale * low + scale * 128 * v;
    }
  }

  function Zeros(n: nat): (s: Bytes)
    ensures |s| == n
  {
    seq(n, i => 0)
  }

  lemma Regroup(a: Bytes, b: Bytes, c: Bytes)
    ensures (a + b) + c == a + (b + c)
  {
  }

  /** A length-prefixed slice (PutLengthPrefixedSlice). */
  function Prefixed(value: Bytes): Bytes {
    Varint(|value|) + value
  }

  /** GetLengthPrefixedSlice: the slice and what follows it. The length is a 32-bit register. */
  function TakePrefixed(s: Bytes): (r: Option<(Bytes, Bytes)>)
    ensures r.Some? ==> |r.value.1| < |s|
  {
    match Decode(s, 5)
    case None => None
    case Some((v, n)) =>
      var len := v % (MAX32 + 1);
      if |s| - n >= len then Some((s[n..n + len], s[n + len..])) else None
  }

  lemma PrefixedRoundTrip(value: Bytes, rest: Bytes)
    requires |value| <= MAX32
    ensures TakePrefixed(Prefixed(value) + rest) == Some((value, rest))
  {
    Power128At5();
    VarintFits(|value|, 5);
    DecodeVarint(|value|, 5, value + rest);
    assert Prefixed(value) + rest == Varint(|value|) + (value + rest);
  }

  lemma Power128At5()
    ensures MAX32 < Power128(5)
  {
    assert Power128(1) == 128 && Power128(2) == 0x4000 && Power128(3) == 0x20_0000 && Power128(4) == 0x1000_0000;
  }

  lemma Power128At10()
    ensures MAX64 < Power128(10)
  {
    assert Power128(1) == 128 && Power128(2) == 0x4000 && Power128(3) == 0x20_0000 && Power128(4) == 0x1000_0000;
    assert Power128(5) == 0x8_0000_0000 && Power128(6) == 0x400_0000_0000 && Power128(7) == 0x2_0000_0000_0000;
    assert Power128(8) == 0x100_0000_0000_0000 && Power128(9) == 0x8000_0000_0000_0000;
  }
}
