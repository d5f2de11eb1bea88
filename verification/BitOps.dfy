/** Single bits of a number. */
module BitOps {
  /** Bit `i` of a number. */
  predicate HasBit(b: nat, i: nat) {
    if i == 0 then b % 2 == 1 else HasBit(b / 2, i - 1)
  }

  /** `b | (1 << i)` */
  function WithBit(b: nat, i: nat): (c: nat)
    ensures HasBit(c, i)
  {
    if i == 0 then b / 2 * 2 + 1 else b % 2 + 2 * WithBit(b / 2, i - 1)
  }

  /** Setting a bit sets that bit and no other. */
  lemma {:induction false} WithBitIs(b: nat, i: nat, j: nat)
    ensures HasBit(WithBit(b, i), j) <==> HasBit(b, j) || i == j
  {
    Halves(b, WithBit(b / 2, if i > 0 then i - 1 else 0));
    if i > 0 && j > 0 {
      WithBitIs(b / 2, i - 1, j - 1);
    }
  }

  lemma {:induction false} ZeroHasNone(i: nat)
    ensures !HasBit(0, i)
  {
    if i > 0 { ZeroHasNone(i - 1); }
  }

  /** The lowest bit and the rest of a number put together. */
  lemma Halves(b: nat, c: nat)
    ensures (b % 2 + 2 * c) / 2 == c && (b % 2 + 2 * c) % 2 == b % 2
    ensures (b / 2 * 2 + 1) / 2 == b / 2 && (b / 2 * 2 + 1) % 2 == 1
  {
  }

  function Power2(n: nat): nat {
    if n == 0 then 1 else 2 * Power2(n - 1)
  }

  /** `1 << i` */
  lemma {:induction false} OnlyBit(i: nat)
    ensures WithBit(0, i) == Power2(i)
  {
    if i > 0 { OnlyBit(i - 1); }
  }

  /** The bits of `x << n | y`. */
  lemma {:induction false} HasBitJoin(x: nat, y: nat, n: nat, i: nat)
    requires y < Power2(n)
    ensures HasBit(x * Power2(n) + y, i) <==> if i < n then HasBit(y, i) else HasBit(x, i - n)
  {
    if n > 0 {
      var v := x * Power2(n) + y;
      assert v == 2 * (x * Power2(n - 1)) + y;
      assert v / 2 == x * Power2(n - 1) + y / 2 && v % 2 == y % 2;
      if i > 0 { HasBitJoin(x, y / 2, n - 1, i - 1); }
    }
  }

  lemma {:induction false} WithBitFits(b: nat, i: nat, n: nat)
    requires i < n && b < Power2(n)
    ensures WithBit(b, i) < Power2(n)
  {
    assert Power2(n) == 2 * Power2(n - 1);
    if i == 0 {
      assert b / 2 < Power2(n - 1);
    } else {
      WithBitFits(b / 2, i - 1, n - 1);
      assert WithBit(b, i) == b % 2 + 2 * WithBit(b / 2, i - 1);
    }
  }

  /** Of the first `n` bits the lowest `r` are set and no others. */
  ghost predicate OnlyLow(w: nat, n: nat, r: nat) {
    forall k: nat :: k < n ==> (HasBit(w, k) <==> k < r)
  }

  lemma OnlyLowHalf(w: nat, n: nat, r: nat)
    requires n > 0
    ensures OnlyLow(w, n, r) <==> (w % 2 == 1 <==> r > 0) && OnlyLow(w / 2, n - 1, if r > 0 then r - 1 else 0)
  {
    var r' := if r > 0 then r - 1 else 0;
    forall k: nat
      ensures HasBit(w, k + 1) <==> HasBit(w / 2, k)
    {
    }
    assert HasBit(w, 0) <==> w % 2 == 1;
    if (w % 2 == 1 <==> r > 0) && OnlyLow(w / 2, n - 1, r') {
      forall k: nat | k < n
        ensures HasBit(w, k) <==> k < r
      {
        if k > 0 { assert HasBit(w / 2, k - 1) <==> k - 1 < r'; }
      }
    }
    if OnlyLow(w, n, r) {
      forall k: nat | k < n - 1
        ensures HasBit(w / 2, k) <==> k < r'
      {
        assert HasBit(w, k + 1) <==> k + 1 < r;
      }
    }
  }

  /** That is 2 to the `r`, less one. */
  lemma {:induction false} LowBits(w: nat, n: nat, r: nat)
    requires w < Power2(n) && r <= n
    ensures w == Power2(r) - 1 <==> OnlyLow(w, n, r)
  {
    if n > 0 {
      var r' := if r > 0 then r - 1 else 0;
      LowBits(w / 2, n - 1, r');
      OnlyLowHalf(w, n, r);
      assert w == Power2(r) - 1 <==> (w % 2 == if r > 0 then 1 else 0) && w / 2 == Power2(r') - 1;
    }
  }
}
