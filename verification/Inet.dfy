/**
 Addresses as text (libuv's src/inet.c): the printers and parsers of IPv4 and IPv6 addresses.
 Strings are their characters before the terminator.
 */
module Inet {
  import Coding
  import opened Keys
  import opened Store

  type Octets = seq<byte>

  // ---- Digits ----

  function HexDigit(d: nat): (c: char)
    requires d < 16
  {
    if d < 10 then '0' + d as char else 'a' + (d - 10) as char
  }

  /** strchr in the two tables of hexadecimal digits. */
  function HexValue(c: char): (v: Option<nat>)
    ensures v.Some? ==> v.value < 16
  {
    if '0' <= c <= '9' then Some((c - '0') as nat)
    else if 'a' <= c <= 'f' then Some(10 + (c - 'a') as nat)
    else if 'A' <= c <= 'F' then Some(10 + (c - 'A') as nat)
    else None
  }

  /** The digits of either case, and nothing else. */
  lemma HexValueIff(c: char, d: nat)
    requires d < 16
    ensures HexValue(c) == Some(d) <==> c == "0123456789abcdef"[d] || c == "0123456789ABCDEF"[d]
    ensures DecimalValue(c) == Some(d) <==> d < 10 && c == "0123456789"[if d < 10 then d else 0]
  {
  }

  function DecimalValue(c: char): (v: Option<nat>)
    ensures v.Some? ==> v.value < 10
  {
    if '0' <= c <= '9' then Some((c - '0') as nat) else None
  }

  lemma DigitValues(d: nat)
    requires d < 16
    ensures HexValue(HexDigit(d)) == Some(d) && HexDigit(d) != ':' && HexDigit(d) != '.'
    ensures d < 10 ==> DecimalValue(HexDigit(d)) == Some(d)
  {
  }

  /** "%x" of a 16-bit word. */
  function Hex(w: nat): (s: string)
    requires w < 0x1_0000
    ensures 1 <= |s| <= 4
  {
    if w < 0x10 then [HexDigit(w)]
    else if w < 0x100 then [HexDigit(w / 16), HexDigit(w % 16)]
    else if w < 0x1000 then [HexDigit(w / 256), HexDigit(w / 16 % 16), HexDigit(w % 16)]
    else [HexDigit(w / 4096), HexDigit(w / 256 % 16), HexDigit(w / 16 % 16), HexDigit(w % 16)]
  }

  /** "%u" of an octet. */
  function Decimal(b: byte): (s: string)
    ensures 1 <= |s| <= 3
  {
    var n := b as nat;
    if n < 10 then [HexDigit(n)]
    else if n < 100 then [HexDigit(n / 10), HexDigit(n % 10)]
    else [HexDigit(n / 100), HexDigit(n / 10 % 10), HexDigit(n % 10)]
  }

  function DigitOf(c: char): nat {
    if '0' <= c <= '9' then (c - '0') as nat else if 'a' <= c <= 'f' then 10 + (c - 'a') as nat else 0
  }

  function Base(hex: bool): nat { if hex then 16 else 10 }

  function Shift(v: nat, hex: bool): nat { if hex then 16 * v else 10 * v }

  function ValueOf(s: string, hex: bool): nat {
    if s == [] then 0 else Shift(ValueOf(s[..|s| - 1], hex), hex) + DigitOf(s[|s| - 1])
  }

  /** The shortest lower-case numeral: no leading zero but in zero itself. */
  predicate Numeral(s: string, hex: bool) {
    && s != [] && (|s| > 1 ==> s[0] != '0')
    && forall i :: 0 <= i < |s| ==> ('0' <= s[i] <= '9' || 'a' <= s[i] <= 'f') && DigitOf(s[i]) < Base(hex)
  }

  /** The last digit of a numeral, and those before it. */
  lemma {:induction false} NumeralSplits(s: string, hex: bool)
    requires Numeral(s, hex)
    ensures var n := |s| - 1;
            && ValueOf(s, hex) == Shift(ValueOf(s[..n], hex), hex) + DigitOf(s[n]) && DigitOf(s[n]) < Base(hex)
            && ('0' <= s[n] <= '9' || 'a' <= s[n] <= 'f')
            && (n > 0 ==> Numeral(s[..n], hex) && ValueOf(s[..n], hex) > 0)
            && (n == 0 ==> s[..n] == [] && ValueOf(s[..n], hex) == 0)
    ensures s[0] != '0' ==> ValueOf(s, hex) > 0
  {
    var n := |s| - 1;
    var p := s[..n];
    if n > 0 {
      assert p[0] == s[0];
      NumeralSplits(p, hex);
    }
  }

  lemma SameQuotient(q: nat, d: nat, q': nat, d': nat, hex: bool)
    requires Shift(q, hex) + d == Shift(q', hex) + d' && d < Base(hex) && d' < Base(hex)
    ensures q == q' && d == d'
  {
  }

  lemma SameDigit(c: char, d: char)
    requires ('0' <= c <= '9' || 'a' <= c <= 'f') && ('0' <= d <= '9' || 'a' <= d <= 'f') && DigitOf(c) == DigitOf(d)
    ensures c == d
  {
  }

  lemma {:induction false} SameNumeral(s: string, t: string, hex: bool)
    requires Numeral(s, hex) && Numeral(t, hex) && ValueOf(s, hex) == ValueOf(t, hex)
    ensures s == t
  {
    hide Numeral, ValueOf, DigitOf, Shift, Base;
    NotEmpty(s, hex);
    NotEmpty(t, hex);
    var n, m := |s| - 1, |t| - 1;
    NumeralSplits(s, hex);
    NumeralSplits(t, hex);
    SameQuotient(ValueOf(s[..n], hex), DigitOf(s[n]), ValueOf(t[..m], hex), DigitOf(t[m]), hex);
    SameDigit(s[n], t[m]);
    if n > 0 && m > 0 { SameNumeral(s[..n], t[..m], hex); }
    assert s == s[..n] + [s[n]] && t == t[..m] + [t[m]];
  }

  lemma NotEmpty(s: string, hex: bool)
    requires Numeral(s, hex)
    ensures s != []
  {
  }

  lemma NoValue(hex: bool)
    ensures ValueOf("", hex) == 0
  {
  }

  lemma OneMore(p: string, hex: bool, d: nat)
    requires p == [] || (Numeral(p, hex) && ValueOf(p, hex) > 0)
    requires d < Base(hex)
    ensures Numeral(p + [HexDigit(d)], hex) && ValueOf(p + [HexDigit(d)], hex) == Shift(ValueOf(p, hex), hex) + d
  {
    hide Shift;
    Digit(d);
    var s := p + [HexDigit(d)];
    assert s[..|s| - 1] == p && s[|s| - 1] == HexDigit(d);
    if p != [] { LeadingDigit(p, hex); }
    assert Numeral(s, hex) by { hide ValueOf, DigitOf, HexDigit; }
  }

  lemma Digit(d: nat)
    requires d < 16
    ensures DigitOf(HexDigit(d)) == d && ('0' <= HexDigit(d) <= '9' || 'a' <= HexDigit(d) <= 'f')
  {
  }

  lemma LeadingDigit(p: string, hex: bool)
    requires Numeral(p, hex) && ValueOf(p, hex) > 0
    ensures p[0] != '0'
  {
    if |p| == 1 { assert p[..0] == []; }
  }

  /** "%x" writes the shortest lower-case hexadecimal numeral, and there is only one. */
  lemma HexIff(w: nat, s: string)
    requires w < 0x1_0000
    ensures s == Hex(w) <==> Numeral(s, true) && ValueOf(s, true) == w
  {
    hide Numeral;
    HexIs(w);
    if Numeral(s, true) && ValueOf(s, true) == w { SameNumeral(s, Hex(w), true); }
  }

  lemma {:induction false} HexIs(w: nat)
    requires w < 0x1_0000
    ensures Numeral(Hex(w), true) && ValueOf(Hex(w), true) == w
  {
    hide Numeral, ValueOf, Hex, HexDigit;
    if w >= 16 { HexIs(w / 16); }
    OneMore(if w < 16 then [] else Hex(w / 16), true, w % 16);
    HexGrows(w);
    assert ValueOf("", true) == 0 by { NoValue(true); }
  }

  lemma HexGrows(w: nat)
    requires w < 0x1_0000
    ensures Hex(w) == (if w < 16 then [] else Hex(w / 16)) + [HexDigit(w % 16)]
  {
    hide HexDigit;
  }

  /** "%u" writes the shortest decimal numeral, and there is only one. */
  lemma DecimalIff(b: byte, s: string)
    ensures s == Decimal(b) <==> Numeral(s, false) && ValueOf(s, false) == b as nat
  {
    hide Numeral, ValueOf;
    var n := b as nat;
    NoValue(false);
    OneMore([], false, if n < 10 then n else if n < 100 then n / 10 else n / 100);
    var first := [HexDigit(if n < 10 then n else if n < 100 then n / 10 else n / 100)];
    assert [] + first == first;
    if n >= 100 {
      OneMore(first, false, n / 10 % 10);
      OneMore(first + [HexDigit(n / 10 % 10)], false, n % 10);
      assert Decimal(b) == first + [HexDigit(n / 10 % 10)] + [HexDigit(n % 10)];
    } else if n >= 10 {
      OneMore(first, false, n % 10);
      assert Decimal(b) == first + [HexDigit(n % 10)];
    }
    if Numeral(s, false) && ValueOf(s, false) == n { SameNumeral(s, Decimal(b), false); }
  }

  // ---- IPv4 ----

  function Text4(a: Octets): (s: string)
    requires |a| == 4
    ensures 7 <= |s| <= 15
  {
    Decimal(a[0]) + "." + Decimal(a[1]) + "." + Decimal(a[2]) + "." + Decimal(a[3])
  }

  /** inet_ntop4 into a buffer of `size` characters, terminator included. */
  method InetNtop4(src: Octets, size: nat) returns (r: Option<string>)
    requires |src| == 4
    ensures r == if |Text4(src)| < size then Some(Text4(src)) else None
    ensures size >= 16 ==> r.Some?
  {
    var tmp := Text4(src);
    r := if |tmp| >= size then None else Some(tmp);
  }

  /** inet_pton4's loop: octets so far (the last one still growing), whether it has a digit, how many have one. */
  function Parse4From(s: string, tmp: Octets, sawDigit: bool, octets: nat): Option<Octets>
    requires tmp != []
  {
    if s == [] then (if octets < 4 then None else Some(tmp))
    else
      var last := tmp[|tmp| - 1] as nat;
      match DecimalValue(s[0])
      case Some(d) =>
        if sawDigit && last == 0 then None
        else if last * 10 + d > 255 then None
        else if !sawDigit && octets + 1 > 4 then None
        else Parse4From(s[1..], tmp[..|tmp| - 1] + [(last * 10 + d) as byte], true, if sawDigit then octets else octets + 1)
      case None =>
        if s[0] == '.' && sawDigit then
          if octets == 4 then None else Parse4From(s[1..], tmp + [0], false, octets)
        else None
  }

  function Parse4(s: string): Option<Octets> {
    Parse4From(s, [0], false, 0)
  }

  /** One octet's digits. */
  lemma OctetParses(b: byte, rest: string, done: Octets, octets: nat)
    requires octets < 4
    ensures Parse4From(Decimal(b) + rest, done + [0], false, octets) == Parse4From(rest, done + [b], true, octets + 1)
  {
    hide Parse4From;
    var n := b as nat;
    var s := Decimal(b) + rest;
    if n < 10 {
      DigitValues(n);
      DigitStep(s, done, 0, false, octets, n, rest);
    } else if n < 100 {
      DigitValues(n / 10);
      DigitValues(n % 10);
      assert s == [HexDigit(n / 10)] + ([HexDigit(n % 10)] + rest);
      DigitStep(s, done, 0, false, octets, n / 10, [HexDigit(n % 10)] + rest);
      DigitStep([HexDigit(n % 10)] + rest, done, (n / 10) as byte, true, octets + 1, n % 10, rest);
    } else {
      DigitValues(n / 100);
      DigitValues(n / 10 % 10);
      DigitValues(n % 10);
      assert s == [HexDigit(n / 100)] + ([HexDigit(n / 10 % 10), HexDigit(n % 10)] + rest);
      assert [HexDigit(n / 10 % 10), HexDigit(n % 10)] + rest == [HexDigit(n / 10 % 10)] + ([HexDigit(n % 10)] + rest);
      DigitStep(s, done, 0, false, octets, n / 100, [HexDigit(n / 10 % 10), HexDigit(n % 10)] + rest);
      DigitStep([HexDigit(n / 10 % 10), HexDigit(n % 10)] + rest, done, (n / 100) as byte, true, octets + 1, n / 10 % 10, [HexDigit(n % 10)] + rest);
      DigitStep([HexDigit(n % 10)] + rest, done, (n / 10) as byte, true, octets + 1, n % 10, rest);
    }
  }

  lemma DigitStep(s: string, done: Octets, last: byte, saw: bool, octets: nat, d: nat, rest: string)
    requires d < 10 && s == [HexDigit(d)] + rest && DecimalValue(HexDigit(d)) == Some(d) && last as nat * 10 + d <= 255
    requires if saw then last != 0 else octets < 4
    ensures Parse4From(s, done + [last], saw, octets)
      == Parse4From(rest, done + [(last as nat * 10 + d) as byte], true, if saw then octets else octets + 1)
  {
    assert s[1..] == rest && s[0] == HexDigit(d);
    assert (done + [last])[..|done|] == done;
  }

  lemma DotStep(done: Octets, octets: nat, rest: string)
    requires done != [] && octets < 4
    ensures Parse4From("." + rest, done, true, octets) == Parse4From(rest, done + [0], false, octets)
  {
    var s := "." + rest;
    assert s[0] == '.' && s[1..] == rest;
  }

  /** Parsing the printed text gives the address back. */
  lemma RoundTrip4(a: Octets)
    requires |a| == 4
    ensures Parse4(Text4(a)) == Some(a)
  {
    hide Decimal, Parse4From;
    var s3 := Decimal(a[3]);
    var s2 := Decimal(a[2]) + ("." + s3);
    var s1 := Decimal(a[1]) + ("." + s2);
    var s0 := Decimal(a[0]) + ("." + s1);
    assert Text4(a) == s0;
    OctetParses(a[0], "." + s1, [], 0);
    assert [] + [0 as byte] == [0] && [] + [a[0]] == [a[0]];
    DotStep([a[0]], 1, s1);
    OctetParses(a[1], "." + s2, [a[0]], 1);
    DotStep([a[0]] + [a[1]], 2, s2);
    OctetParses(a[2], "." + s3, [a[0]] + [a[1]], 2);
    DotStep([a[0]] + [a[1]] + [a[2]], 3, s3);
    OctetParses(a[3], "", [a[0]] + [a[1]] + [a[2]], 3);
    assert s3 + "" == s3;
    assert [a[0]] + [a[1]] + [a[2]] + [a[3]] == a;
    Parsed4(a);
  }

  lemma Parsed4(a: Octets)
    requires |a| == 4
    ensures Parse4From("", a, true, 4) == Some(a)
  {
  }

  /** The octets that are complete, each with its dot. */
  function Dotted(done: Octets): string {
    if done == [] then "" else Dotted(done[..|done| - 1]) + Decimal(done[|done| - 1]) + "."
  }

  /** What the loop has read, followed by what it has still to read, spells what it returns. */
  lemma {:induction false} Parse4Spells(s: string, done: Octets, last: byte, saw: bool, octets: nat)
    requires octets == |done| + (if saw then 1 else 0) <= 4 && (octets == 4 ==> saw) && (!saw ==> last == 0)
    ensures var r := Parse4From(s, done + [last], saw, octets);
            r.Some? ==> |r.value| == 4 && Dotted(done) + (if saw then Decimal(last) else "") + s == Text4(r.value)
  {
    hide Text4, Dotted, Decimal;
    var tmp := done + [last];
    assert tmp[..|tmp| - 1] == done;
    if s == [] {
      if octets == 4 {
        FourDotted(tmp);
        assert Dotted(done) + Decimal(last) + s == Dotted(done) + Decimal(last);
      }
    } else {
      assert s == [s[0]] + s[1..];
      match DecimalValue(s[0]) {
        case Some(d) =>
          if !(saw && last == 0) && last as nat * 10 + d <= 255 && (saw || octets < 4) {
            var more := (last as nat * 10 + d) as byte;
            Parse4Spells(s[1..], done, more, true, if saw then octets else octets + 1);
            OneDigitMore(last, saw, d, s[0]);
            Grouped(Dotted(done), if saw then Decimal(last) else "", [s[0]], s[1..]);
          }
        case None =>
          if s[0] == '.' && saw && octets != 4 {
            Parse4Spells(s[1..], tmp, 0, false, octets);
            OneDotted(done, last);
            Grouped(Dotted(done), Decimal(last), ".", s[1..]);
            assert Dotted(tmp) + "" + s[1..] == Dotted(tmp) + s[1..];
          }
      }
    }
  }

  lemma Grouped(a: string, b: string, c: string, d: string)
    ensures a + b + (c + d) == (a + (b + c)) + d && a + (b + c) == a + b + c
  {
  }

  lemma OneDotted(done: Octets, last: byte)
    ensures Dotted(done + [last]) == Dotted(done) + Decimal(last) + "."
  {
    assert (done + [last])[..|done|] == done;
  }

  lemma FourDotted(a: Octets)
    requires |a| == 4
    ensures Text4(a) == Dotted(a[..3]) + Decimal(a[3])
  {
    hide Decimal;
    assert a[..3][..2] == a[..2] && a[..2][..1] == a[..1] && a[..1][..0] == [];
    assert Dotted(a[..1]) == Dotted([]) + Decimal(a[0]) + ".";
    assert Dotted(a[..2]) == Dotted(a[..1]) + Decimal(a[1]) + ".";
    assert Dotted(a[..3]) == Dotted(a[..2]) + Decimal(a[2]) + ".";
    assert Dotted([]) + Decimal(a[0]) == Decimal(a[0]);
  }

  /** No digit follows a leading zero, so the digits read are those that are printed. */
  lemma OneDigitMore(last: byte, saw: bool, d: nat, c: char)
    requires DecimalValue(c) == Some(d) && last as nat * 10 + d <= 255 && (if saw then last != 0 else last == 0)
    ensures Decimal((last as nat * 10 + d) as byte) == (if saw then Decimal(last) else "") + [c]
  {
    var n := last as nat * 10 + d;
    assert c == HexDigit(d);
    assert n / 10 == last as nat && n % 10 == d;
    if last >= 10 { assert n / 100 == last as nat / 10 && n / 10 % 10 == last as nat % 10; }
  }

  /** What inet_pton4 accepts: the text of four octets, without leading zeros, and nothing else. */
  lemma Parse4Iff(s: string)
    ensures forall a: Octets :: Parse4(s) == Some(a) <==> |a| == 4 && s == Text4(a)
  {
    hide Text4, Parse4From;
    Parse4Spells(s, [], 0, false, 0);
    assert [] + [0 as byte] == [0];
    assert Dotted([]) + "" + s == s;
    forall a: Octets | |a| == 4 && s == Text4(a)
      ensures Parse4(s) == Some(a)
    {
      RoundTrip4(a);
    }
  }

  /** inet_pton4: the printed form of four octets is accepted and nothing else. */
  method InetPton4(src: string) returns (r: Option<Octets>)
    ensures r == Parse4(src)
    ensures forall a: Octets :: r == Some(a) <==> |a| == 4 && src == Text4(a)
  {
    hide Text4;
    Parse4Iff(src);
    var tmp: Octets, sawDigit, octets: nat := [0], false, 0;
    var i := 0;
    assert src[0..] == src;
    while i < |src|
      invariant 0 <= i <= |src| && tmp != [] && Parse4(src) == Parse4From(src[i..], tmp, sawDigit, octets)
    {
      var ch := src[i];
      assert src[i..][0] == ch && src[i..][1..] == src[i + 1..];
      i := i + 1;
      var d := DecimalValue(ch);
      if d.Some? {
        var nw := tmp[|tmp| - 1] as nat * 10 + d.value;
        if sawDigit && tmp[|tmp| - 1] == 0 {
          return None;
        }
        if nw > 255 {
          return None;
        }
        tmp := tmp[..|tmp| - 1] + [nw as byte];
        if !sawDigit {
          octets := octets + 1;
          if octets > 4 {
            return None;
          }
          sawDigit := true;
        }
      } else if ch == '.' && sawDigit {
        if octets == 4 {
          return None;
        }
        tmp := tmp + [0];
        sawDigit := false;
      } else {
        return None;
      }
    }
    if octets < 4 {
      return None;
    }
    r := Some(tmp);
  }

  // ---- IPv6: printing ----

  type Words = ws: seq<nat> | |ws| == 8 && forall i :: 0 <= i < 8 ==> ws[i] < 0x1_0000 witness [0, 0, 0, 0, 0, 0, 0, 0]

  function Bytes(ws: seq<nat>): (r: Octets)
    requires forall i :: 0 <= i < |ws| ==> ws[i] < 0x1_0000
    ensures |r| == 2 * |ws|
  {
    if ws == [] then [] else Bytes(ws[..|ws| - 1]) + Pair(ws[|ws| - 1])
  }

  function Pair(w: nat): (r: Octets)
    requires w < 0x1_0000
    ensures |r| == 2
  {
    [(w / 256) as byte, (w % 256) as byte]
  }

  /** Words lo..hi are printed as "::"; lo == hi == 9 when nothing is. */
  ghost predicate IsRun(ws: Words, lo: nat, hi: nat) {
    || (lo == 9 && hi == 9)
    || (lo + 2 <= hi <= 8 && ZeroRun(ws, lo, hi))
  }

  /** Section 4.2.3 of RFC 5952: the first of the longest runs of two or more zero words. */
  ghost predicate IsBest(ws: Words, lo: nat, hi: nat) {
    && IsRun(ws, lo, hi)
    && forall a, b :: 0 <= a < b <= 8 && ZeroRun(ws, a, b) && b - a >= 2 ==>
         lo <= 8 && b - a <= hi - lo && (b - a == hi - lo ==> lo <= a)
  }

  /** Whether word 6 and 7 are printed as an IPv4 address. */
  predicate Embedded(ws: Words, lo: nat, hi: nat) {
    lo == 0 && (hi == 6 || (hi == 7 && ws[7] != 1) || (hi == 5 && ws[5] == 0xffff))
  }

  /** The text from word `i` on. */
  function From(ws: Words, lo: nat, hi: nat, i: nat): string
    requires i <= 8
    decreases 8 - i
  {
    if i == 8 then (if hi == 8 then ":" else "")
    else if lo <= i < hi then (if i == lo then ":" else "") + From(ws, lo, hi, i + 1)
    else if i == 6 && Embedded(ws, lo, hi) then ":" + Text4(Bytes(ws[6..]))
    else (if i == 0 then "" else ":") + Hex(ws[i]) + From(ws, lo, hi, i + 1)
  }

  /** The first longest run of zero words. */
  method BestRun(ws: Words) returns (lo: nat, hi: nat)
    ensures IsBest(ws, lo, hi)
  {
    var bestBase: int, bestLen: nat := -1, 0;
    var curBase: int, curLen: nat := -1, 0;
    var i := 0;
    while i < 8
      invariant 0 <= i <= 8
      invariant if curBase == -1 then i == 0 || ws[i - 1] != 0
                else 0 <= curBase && curBase + curLen == i && curLen >= 1 && ZeroRun(ws, curBase, i) && (curBase == 0 || ws[curBase - 1] != 0)
      invariant if bestBase == -1 then bestLen == 0
                else 0 <= bestBase && bestLen >= 1 && bestBase + bestLen <= i && ZeroRun(ws, bestBase, bestBase + bestLen)
      invariant curBase != -1 && bestBase != -1 ==> bestBase + bestLen <= curBase
      invariant forall a, b :: 0 <= a < b <= (if curBase == -1 then i else curBase) && ZeroRun(ws, a, b) ==>
                  bestBase != -1 && b - a <= bestLen && (b - a == bestLen ==> bestBase <= a)
    {
      if ws[i] == 0 {
        if curBase == -1 {
          curBase, curLen := i, 1;
        } else {
          curLen := curLen + 1;
        }
      } else if curBase != -1 {
        Closes(ws, bestBase, bestLen, curBase, curLen, i);
        if bestBase == -1 || curLen > bestLen {
          bestBase, bestLen := curBase, curLen;
        }
        curBase := -1;
      } else {
        NoneEndsAt(ws, i);
      }
      i := i + 1;
    }
    if curBase != -1 {
      Closes(ws, bestBase, bestLen, curBase, curLen, 8);
      if bestBase == -1 || curLen > bestLen {
        bestBase, bestLen := curBase, curLen;
      }
    }
    if bestBase != -1 && bestLen >= 2 {
      lo, hi := bestBase, bestBase + bestLen;
    } else {
      lo, hi := 9, 9;
    }
  }

  ghost predicate ZeroRun(ws: Words, a: int, b: int)
    requires 0 <= a <= b <= 8
  {
    forall k :: a <= k < b ==> ws[k] == 0
  }

  /** A run that ended at `i`: every run up to there lies in it, or before it. */
  lemma Closes(ws: Words, bestBase: int, bestLen: nat, curBase: int, curLen: nat, i: int)
    requires 0 <= curBase && curBase + curLen == i <= 8 && ZeroRun(ws, curBase, i) && (curBase == 0 || ws[curBase - 1] != 0)
    requires i == 8 || ws[i] != 0
    requires forall a, b :: 0 <= a < b <= curBase && ZeroRun(ws, a, b) ==>
               bestBase != -1 && b - a <= bestLen && (b - a == bestLen ==> bestBase <= a)
    ensures forall a, b :: 0 <= a < b <= (if i == 8 then 8 else i + 1) && ZeroRun(ws, a, b) ==>
              (a >= curBase && b <= i) || (bestBase != -1 && b - a <= bestLen && (b - a == bestLen ==> bestBase <= a))
  {
    forall a, b | 0 <= a < b <= (if i == 8 then 8 else i + 1) && ZeroRun(ws, a, b)
      ensures (a >= curBase && b <= i) || b <= curBase
    {
    }
  }

  lemma NoneEndsAt(ws: Words, i: int)
    requires 0 <= i < 8 && ws[i] != 0
    ensures forall a, b :: 0 <= a < b <= i + 1 && ZeroRun(ws, a, b) ==> b <= i
  {
    forall a, b | 0 <= a < b <= i + 1 && ZeroRun(ws, a, b)
      ensures b <= i
    {
    }
  }

  /** Words in hexadecimal with colons between them. */
  function Groups(ws: seq<nat>): string
    requires forall i :: 0 <= i < |ws| ==> ws[i] < 0x1_0000
  {
    if ws == [] then "" else if |ws| == 1 then Hex(ws[0]) else Hex(ws[0]) + ":" + Groups(ws[1..])
  }

  lemma {:induction false} NoDot(ws: seq<nat>)
    requires forall i :: 0 <= i < |ws| ==> ws[i] < 0x1_0000
    ensures '.' !in Groups(ws)
  {
    hide Hex;
    if ws != [] {
      HexIff(ws[0], Hex(ws[0]));
      NoDot(ws[1..]);
    }
  }

  lemma EmptyEnds(head: seq<nat>, tail: seq<nat>)
    requires forall i :: 0 <= i < |head| ==> head[i] < 0x1_0000
    requires forall i :: 0 <= i < |tail| ==> tail[i] < 0x1_0000
    ensures head == [] ==> Groups(head) == ""
    ensures tail == [] ==> Groups(tail) == ""
  {
  }

  lemma GroupsStep(ws: seq<nat>)
    requires ws != [] && forall i :: 0 <= i < |ws| ==> ws[i] < 0x1_0000
    ensures Groups(ws) == if |ws| == 1 then Hex(ws[0]) else Hex(ws[0]) + ":" + Groups(ws[1..])
  {
  }

  lemma Reorder(a: string, b: string, c: string, d: string)
    ensures a + (b + (":" + c + d)) == a + (b + ":" + c) + d
  {
  }

  /** The text behind the run that is left out. */
  lemma {:induction false} FromTail(ws: Words, lo: nat, hi: nat, i: nat)
    requires (hi <= i || lo == 9) && i <= 8 && !(i <= 6 && Embedded(ws, lo, hi))
    ensures From(ws, lo, hi, i) == if i == 8 then (if hi == 8 then ":" else "") else Colon(i) + Groups(ws[i..]) + if hi == 8 then ":" else ""
    decreases 8 - i
  {
    hide Hex, Text4, Bytes, From, Groups;
    if i < 8 {
      FromTail(ws, lo, hi, i + 1);
      FromStep(ws, lo, hi, i);
      GroupsStep(ws[i..]);
      assert ws[i..][1..] == ws[i + 1..];
      if i < 7 { Reorder(Colon(i), Hex(ws[i]), Groups(ws[i + 1..]), if hi == 8 then ":" else ""); }
    } else {
      FromEnd(ws, lo, hi);
    }
  }

  /** The text before it. */
  lemma {:induction false} FromHead(ws: Words, lo: nat, hi: nat, i: nat)
    requires i <= lo <= 8 && !Embedded(ws, lo, hi)
    ensures From(ws, lo, hi, i) == (if i < lo then Colon(i) + Groups(ws[i..lo]) else "") + From(ws, lo, hi, lo)
    decreases lo - i
  {
    hide Hex, Text4, Bytes, From, Groups;
    if i < lo {
      FromHead(ws, lo, hi, i + 1);
      FromStep(ws, lo, hi, i);
      GroupsStep(ws[i..lo]);
      assert ws[i..lo][1..] == ws[i + 1..lo];
      if i + 1 < lo { Reorder(Colon(i), Hex(ws[i]), Groups(ws[i + 1..lo]), From(ws, lo, hi, lo)); }
    } else {
      assert "" + From(ws, lo, hi, lo) == From(ws, lo, hi, lo);
    }
  }

  lemma {:induction false} FromRun(ws: Words, lo: nat, hi: nat, i: nat)
    requires lo <= i < hi <= 8
    ensures From(ws, lo, hi, i) == (if i == lo then ":" else "") + From(ws, lo, hi, hi)
    decreases hi - i
  {
    hide Hex, Text4, Bytes, Embedded, From;
    FromStep(ws, lo, hi, i);
    if i + 1 < hi { FromRun(ws, lo, hi, i + 1); }
    assert "" + From(ws, lo, hi, hi) == From(ws, lo, hi, hi);
  }

  lemma EmbeddedText(ws: Words, hi: nat)
    requires Embedded(ws, 0, hi) && hi < 7
    ensures var last := Text4([(ws[6] / 256) as byte, (ws[6] % 256) as byte, (ws[7] / 256) as byte, (ws[7] % 256) as byte]);
            From(ws, 0, hi, hi) == (if hi == 5 then ":ffff:" else ":") + last && '.' in last
  {
    hide Text4, Hex, From;
    LowBytes(ws);
    FromStep(ws, 0, hi, 6);
    if hi == 5 {
      FromStep(ws, 0, hi, 5);
      assert Hex(0xffff) == "ffff" by { AllOnes(); }
    }
    HasDot([(ws[6] / 256) as byte, (ws[6] % 256) as byte, (ws[7] / 256) as byte, (ws[7] % 256) as byte]);
  }

  lemma LowBytes(ws: Words)
    ensures Bytes(ws[6..]) == [(ws[6] / 256) as byte, (ws[6] % 256) as byte, (ws[7] / 256) as byte, (ws[7] % 256) as byte]
  {
    var low := ws[6..];
    assert low[..1] == [ws[6]] && low[..1][..0] == [];
    assert Bytes(low) == Bytes(low[..1]) + Pair(ws[7]) && Bytes(low[..1]) == Bytes([]) + Pair(ws[6]);
  }

  lemma AllOnes()
    ensures Hex(0xffff) == "ffff"
  {
  }

  lemma HasDot(a: Octets)
    requires |a| == 4
    ensures '.' in Text4(a)
  {
    hide Decimal;
  }

  /** Without a run, and with one that is left out, all groups are hexadecimal. */
  lemma FromHexadecimal(ws: Words, lo: nat, hi: nat)
    requires IsRun(ws, lo, hi) && !(Embedded(ws, lo, hi) && hi < 7)
    ensures From(ws, lo, hi, 0) == if lo <= 8 then Groups(ws[..lo]) + "::" + Groups(ws[hi..]) else Groups(ws)
  {
    hide Hex, Text4, From, Groups, Bytes;
    if lo == 9 {
      FromTail(ws, lo, hi, 0);
      assert ws[0..] == ws && "" + Groups(ws) + "" == Groups(ws);
    } else {
      FromRun(ws, lo, hi, lo);
      FromTail(ws, lo, hi, hi);
      EmptyEnds(ws[..lo], ws[hi..]);
      if lo > 0 {
        FromHead(ws, lo, hi, 0);
        assert ws[0..lo] == ws[..lo];
      }
      Closing(Groups(ws[..lo]), Groups(ws[hi..]));
    }
  }

  lemma Closing(a: string, b: string)
    ensures "" + a == a && a + (":" + (":" + b + "")) == a + "::" + b && a + (":" + ":") == a + "::" + ""
  {
  }

  lemma NoDotAround(a: seq<nat>, b: seq<nat>)
    requires forall i :: 0 <= i < |a| ==> a[i] < 0x1_0000
    requires forall i :: 0 <= i < |b| ==> b[i] < 0x1_0000
    ensures '.' !in Groups(a) && '.' !in Groups(a) + "::" + Groups(b)
  {
    hide Groups;
    NoDot(a);
    NoDot(b);
  }

  lemma DotInside(front: string, back: string)
    requires '.' in back
    ensures '.' in front + back
  {
    var i :| 0 <= i < |back| && back[i] == '.';
    assert (front + back)[|front| + i] == '.';
  }

  /**
   What is printed, for the run lo..hi that is left out: after six zero words, and after five and
   0xffff, the last two words as an IPv4 address, and hexadecimal groups otherwise.
   */
  lemma FromIs(ws: Words, lo: nat, hi: nat)
    requires IsRun(ws, lo, hi)
    ensures var last := Text4([(ws[6] / 256) as byte, (ws[6] % 256) as byte, (ws[7] / 256) as byte, (ws[7] % 256) as byte]);
            From(ws, lo, hi, 0) == if lo == 0 && hi == 6 then "::" + last
                                   else if lo == 0 && hi == 5 && ws[5] == 0xffff then "::ffff:" + last
                                   else if lo <= 8 then Groups(ws[..lo]) + "::" + Groups(ws[hi..])
                                   else Groups(ws)
    ensures '.' in From(ws, lo, hi, 0) <==> lo == 0 && (hi == 6 || (hi == 5 && ws[5] == 0xffff))
  {
    hide Hex, Text4, From, Groups, Bytes;
    if lo <= 8 && Embedded(ws, lo, hi) && hi < 7 {
      FromRun(ws, lo, hi, lo);
      EmbeddedText(ws, hi);
      var last := Text4([(ws[6] / 256) as byte, (ws[6] % 256) as byte, (ws[7] / 256) as byte, (ws[7] % 256) as byte]);
      DotInside(if hi == 5 then "::ffff:" else "::", last);
      assert ":" + (":" + last) == "::" + last && ":" + (":ffff:" + last) == "::ffff:" + last;
    } else {
      FromHexadecimal(ws, lo, hi);
      if lo <= 8 { NoDotAround(ws[..lo], ws[hi..]); } else { NoDotAround(ws, []); }
    }
  }

  /** The loop that writes the text, for the run lo..hi that is left out. */
  method Print(ws: Words, l: nat, h: nat) returns (tmp: string)
    requires l <= h && (h <= 8 || l == 9)
    ensures tmp == From(ws, l, h, 0)
  {
    hide Text4, Hex, From, Bytes, Embedded;
    tmp := "";
    var i: nat := 0;
    var done := false;
    while i < 8 && !done
      invariant i <= 8 && (done ==> h < 8)
      invariant From(ws, l, h, 0) == if done then tmp else tmp + From(ws, l, h, i)
      decreases 8 - i, !done
    {
      FromStep(ws, l, h, i);
      EmbeddedBefore(ws, l, h);
      ghost var was, rest := tmp, if i < 8 then From(ws, l, h, i + 1) else "";
      if l <= i < h {
        if i == l {
          Regroup(was, ":", "", rest);
          tmp := tmp + ":";
        }
        i := i + 1;
      } else {
        if i != 0 {
          tmp := tmp + ":";
        }
        if i == 6 && Embedded(ws, l, h) {
          Regroup(was, ":", Text4(Bytes(ws[6..])), "");
          tmp := tmp + Text4(Bytes(ws[6..]));
          done := true;
        } else {
          Regroup(was, Colon(i), Hex(ws[i]), rest);
          tmp := tmp + Hex(ws[i]);
          i := i + 1;
        }
      }
    }
    if !done { FromEnd(ws, l, h); }
    if h == 8 {
      tmp := tmp + ":";
    }
  }

  lemma EmbeddedBefore(ws: Words, l: nat, h: nat)
    ensures Embedded(ws, l, h) ==> h < 8
  {
  }

  lemma Regroup(a: string, b: string, c: string, d: string)
    ensures a + (b + (c + d)) == (a + b + c) + d && a + (b + c) == a + b + c
    ensures a + (b + d) == a + b + d && a + "" == a
  {
  }

  /** inet_ntop6 into a buffer of `size` characters, terminator included. */
  method InetNtop6(ws: Words, size: nat) returns (r: Option<string>, ghost lo: nat, ghost hi: nat)
    ensures IsBest(ws, lo, hi)
    ensures r == if |From(ws, lo, hi, 0)| < size then Some(From(ws, lo, hi, 0)) else None
    ensures var last := Text4([(ws[6] / 256) as byte, (ws[6] % 256) as byte, (ws[7] / 256) as byte, (ws[7] % 256) as byte]);
            var text := if lo == 0 && hi == 6 then "::" + last
                        else if lo == 0 && hi == 5 && ws[5] == 0xffff then "::ffff:" + last
                        else if lo <= 8 then Groups(ws[..lo]) + "::" + Groups(ws[hi..])
                        else Groups(ws);
            r == if |text| < size then Some(text) else None
    ensures r.Some? ==> ('.' in r.value <==> lo == 0 && (hi == 6 || (hi == 5 && ws[5] == 0xffff)))
  {
    hide IsBest, IsRun, Text4, Hex, From, Bytes, Groups;
    var l, h := BestRun(ws);
    lo, hi := l, h;
    BestBounds(ws, l, h);
    var tmp := Print(ws, l, h);
    r := if |tmp| < size then Some(tmp) else None;
    FromIs(ws, l, h);
  }

  function Colon(i: nat): string { if i == 0 then "" else ":" }

  lemma BestBounds(ws: Words, lo: nat, hi: nat)
    requires IsBest(ws, lo, hi)
    ensures lo <= hi && (hi <= 8 || lo == 9) && IsRun(ws, lo, hi)
  {
  }

  lemma FromStep(ws: Words, lo: nat, hi: nat, i: nat)
    requires i < 8
    ensures lo <= i < hi ==> From(ws, lo, hi, i) == if i == lo then ":" + From(ws, lo, hi, i + 1) else From(ws, lo, hi, i + 1)
    ensures !(lo <= i < hi) ==>
              From(ws, lo, hi, i) == if i == 6 && Embedded(ws, lo, hi) then ":" + Text4(Bytes(ws[6..]))
                                     else Colon(i) + (Hex(ws[i]) + From(ws, lo, hi, i + 1))
    ensures i == 0 ==> "" + From(ws, lo, hi, 0) == From(ws, lo, hi, 0)
  {
    hide Text4, Hex, Bytes;
    assert "" + From(ws, lo, hi, i + 1) == From(ws, lo, hi, i + 1);
    if !(lo <= i < hi) && !(i == 6 && Embedded(ws, lo, hi)) {
      assert Colon(i) + Hex(ws[i]) + From(ws, lo, hi, i + 1) == Colon(i) + (Hex(ws[i]) + From(ws, lo, hi, i + 1));
    }
  }

  lemma FromEnd(ws: Words, lo: nat, hi: nat)
    ensures From(ws, lo, hi, 8) == if hi == 8 then ":" else ""
  {
  }

  // ---- IPv6: parsing ----

  /** What inet_pton6's loop leaves: the bytes so far, where "::" was, and a pending word with its number of digits. */
  datatype Parsed = Parsed(out: Octets, colon: Option<nat>, val: nat, seen: nat)

  /** The loop. `tok` is the text since the last colon. */
  function Parse6From(s: string, p: Parsed, tok: string): (r: Option<Parsed>)
  {
    if s == [] then Some(p)
    else
      match HexValue(s[0])
      case Some(d) =>
        if p.seen + 1 > 4 then None
        else Parse6From(s[1..], p.(val := (p.val * 16 + d) % 0x1_0000_0000, seen := p.seen + 1), tok)
      case None =>
        if s[0] == ':' then
          if p.seen == 0 then
            (if p.colon.Some? then None else Parse6From(s[1..], p.(colon := Some(|p.out|)), s[1..]))
          else if |s| == 1 then None
          else if |p.out| + 2 > 16 then None
          else Parse6From(s[1..], Parsed(p.out + Pair(p.val % 0x1_0000), p.colon, 0, 0), s[1..])
        else if s[0] == '.' && |p.out| + 4 <= 16 then
          (match Parse4(tok) case None => None case Some(a) => Some(p.(out := p.out + a, seen := 0)))
        else None
  }

  /** What happens after the loop: the pending word, then the gap of "::". */
  function Finish(p: Parsed): Option<Octets> {
    var pending := p.seen > 0;
    if pending && |p.out| + 2 > 16 then None
    else
      var out := if pending then p.out + Pair(p.val % 0x1_0000) else p.out;
      var full := if p.colon.Some? && p.colon.value <= |out| < 16 then out[..p.colon.value] + Coding.Zeros(16 - |out|) + out[p.colon.value..] else out;
      if |full| != 16 || (p.colon.Some? && |out| == 16) then None else Some(full)
  }

  function Result(p: Option<Parsed>): Option<Octets> {
    if p.None? then None else Finish(p.value)
  }

  const START: Parsed := Parsed([], None, 0, 0)

  /** inet_pton6. */
  function Parse6(src: string): Option<Octets> {
    if src != [] && src[0] == ':' then
      if |src| < 2 || src[1] != ':' then None else Result(Parse6From(src[1..], START, src[1..]))
    else Result(Parse6From(src, START, src))
  }

  /** inet_pton6: exactly the texts of the grammar below are accepted, for the bytes they mean. */
  method InetPton6(src: string) returns (r: Option<Octets>)
    ensures r == Parse6(src)
    ensures forall a :: r == Some(a) <==> exists t :: Spells(t, src, a)
  {
    hide Parse4, Finish, Spells;
    forall a
      ensures Parse6(src) == Some(a) <==> exists t :: Spells(t, src, a)
    {
      Parse6Iff(src, a);
    }
    var s := src;
    if s != [] && s[0] == ':' {
      s := s[1..];
      if s == [] || s[0] != ':' {
        return None;
      }
    }
    var p, curtok := START, s;
    var goal := Parse6(src);
    var stop := false;
    while s != [] && !stop
      invariant goal == if stop then Result(Some(p)) else Result(Parse6From(s, p, curtok))
      decreases !stop, |s|
    {
      var ch := s[0];
      s := s[1..];
      var d := HexValue(ch);
      if d.Some? {
        if p.seen + 1 > 4 {
          return None;
        }
        p := p.(val := (p.val * 16 + d.value) % 0x1_0000_0000, seen := p.seen + 1);
      } else if ch == ':' {
        curtok := s;
        if p.seen == 0 {
          if p.colon.Some? {
            return None;
          }
          p := p.(colon := Some(|p.out|));
        } else {
          if s == [] || |p.out| + 2 > 16 {
            return None;
          }
          p := Parsed(p.out + Pair(p.val % 0x1_0000), p.colon, 0, 0);
        }
      } else if ch == '.' && |p.out| + 4 <= 16 {
        var a := InetPton4(curtok);
        if a.None? {
          return None;
        }
        p := p.(out := p.out + a.value, seen := 0);
        stop := true;
      } else {
        return None;
      }
    }
    r := Finish(p);
  }

  // ---- IPv6: the round trip ----

  lemma HexStep(s: string, p: Parsed, tok: string, d: nat, rest: string)
    requires d < 16 && s == [HexDigit(d)] + rest && p.seen < 4 && p.val < 0x1000
    ensures Parse6From(s, p, tok) == Parse6From(rest, p.(val := p.val * 16 + d, seen := p.seen + 1), tok)
  {
    DigitValues(d);
    assert s[0] == HexDigit(d) && s[1..] == rest;
  }

  /** The digits of a printed word. */
  lemma WordParses(w: nat, rest: string, out: Octets, colon: Option<nat>, tok: string)
    requires w < 0x1_0000
    ensures Parse6From(Hex(w) + rest, Parsed(out, colon, 0, 0), tok) == Parse6From(rest, Parsed(out, colon, w, |Hex(w)|), tok)
  {
    hide Parse6From, HexDigit;
    var a, b, c, d := w / 4096, w / 256 % 16, w / 16 % 16, w % 16;
    Nibbles(w, a, b, c, d);
    var p := Parsed(out, colon, 0, 0);
    var s1 := [HexDigit(d)] + rest;
    var s2 := [HexDigit(c)] + s1;
    var s3 := [HexDigit(b)] + s2;
    assert Hex(w) + rest == if w < 0x10 then s1 else if w < 0x100 then s2 else if w < 0x1000 then s3 else [HexDigit(a)] + s3;
    if w >= 0x1000 { HexStep([HexDigit(a)] + s3, p, tok, a, s3); }
    if w >= 0x100 { HexStep(s3, p.(val := a, seen := if w >= 0x1000 then 1 else 0), tok, b, s2); }
    if w >= 0x10 { HexStep(s2, p.(val := a * 16 + b, seen := if w >= 0x1000 then 2 else if w >= 0x100 then 1 else 0), tok, c, s1); }
    HexStep(s1, p.(val := w / 16, seen := |Hex(w)| - 1), tok, d, rest);
  }

  lemma Nibbles(w: nat, a: nat, b: nat, c: nat, d: nat)
    requires w < 0x1_0000 && a == w / 4096 && b == w / 256 % 16 && c == w / 16 % 16 && d == w % 16
    ensures w / 256 == a * 16 + b && w / 16 == (a * 16 + b) * 16 + c && w == w / 16 * 16 + d
    ensures (w < 0x1000 ==> a == 0 && b == w / 256) && (w < 0x100 ==> b == 0 && c == w / 16) && (w < 0x10 ==> c == 0 && d == w)
  {
  }

  lemma ColonPushes(rest: string, out: Octets, colon: Option<nat>, w: nat, seen: nat, tok: string)
    requires w < 0x1_0000 && seen > 0 && rest != [] && |out| + 2 <= 16
    ensures Parse6From(":" + rest, Parsed(out, colon, w, seen), tok) == Parse6From(rest, Parsed(out + Pair(w), colon, 0, 0), rest)
  {
    var s := ":" + rest;
    assert s[0] == ':' && s[1..] == rest && HexValue(':') == None;
  }

  lemma ColonMarks(rest: string, out: Octets, tok: string)
    ensures Parse6From(":" + rest, Parsed(out, None, 0, 0), tok) == Parse6From(rest, Parsed(out, Some(|out|), 0, 0), rest)
  {
    var s := ":" + rest;
    assert s[0] == ':' && s[1..] == rest && HexValue(':') == None;
  }

  /** An embedded IPv4 address: its first digits pass for hexadecimal, until the first dot. */
  lemma EmbeddedParses(a: Octets, out: Octets, colon: Option<nat>)
    requires |a| == 4 && |out| + 4 <= 16
    ensures var r := Parse6From(Text4(a), Parsed(out, colon, 0, 0), Text4(a));
            r.Some? && r.value.out == out + a && r.value.colon == colon && r.value.seen == 0
  {
    hide Parse6From, Parse4, Decimal, Text4;
    RoundTrip4(a);
    TextSplits(a);
    var rest := "." + Decimal(a[1]) + "." + Decimal(a[2]) + "." + Decimal(a[3]);
    var p := DecimalAsHex(a[0], rest, out, colon, Text4(a));
    DotEnds(rest, p, Text4(a), a);
  }

  lemma DecimalAsHex(b: byte, rest: string, out: Octets, colon: Option<nat>, tok: string) returns (q: Parsed)
    ensures q.out == out && q.colon == colon
    ensures Parse6From(Decimal(b) + rest, Parsed(out, colon, 0, 0), tok) == Parse6From(rest, q, tok)
  {
    hide Parse6From, HexDigit;
    var n := b as nat;
    var h, t, u := n / 100, n / 10 % 10, n % 10;
    assert n / 10 == 10 * h + t && (n < 100 ==> h == 0) && (n < 10 ==> t == 0);
    var p := Parsed(out, colon, 0, 0);
    var s1 := [HexDigit(u)] + rest;
    var s2 := [HexDigit(t)] + s1;
    assert Decimal(b) + rest == if n < 10 then s1 else if n < 100 then s2 else [HexDigit(h)] + s2;
    if n >= 100 { HexStep([HexDigit(h)] + s2, p, tok, h, s2); }
    if n >= 10 { HexStep(s2, p.(val := h, seen := if n >= 100 then 1 else 0), tok, t, s1); }
    HexStep(s1, p.(val := h * 16 + t, seen := if n >= 100 then 2 else if n >= 10 then 1 else 0), tok, u, rest);
    q := p.(val := (h * 16 + t) * 16 + u, seen := if n >= 100 then 3 else if n >= 10 then 2 else 1);
  }

  lemma TextSplits(a: Octets)
    requires |a| == 4
    ensures Text4(a) == Decimal(a[0]) + ("." + Decimal(a[1]) + "." + Decimal(a[2]) + "." + Decimal(a[3]))
  {
    hide Decimal;
  }

  lemma DotEnds(s: string, p: Parsed, tok: string, a: Octets)
    requires s != [] && s[0] == '.' && |p.out| + 4 <= 16 && Parse4(tok) == Some(a)
    ensures Parse6From(s, p, tok) == Some(p.(out := p.out + a, seen := 0))
  {
    assert HexValue('.') == None;
  }

  /** The bytes of the words before `k` that are printed. */
  function Kept(ws: Words, lo: nat, hi: nat, k: nat): (r: Octets)
    requires k <= 8 && lo <= hi && (k <= lo || hi <= k)
    ensures |r| == 2 * if k <= lo then k else lo + k - hi
  {
    if k <= lo then Bytes(ws[..k]) else Bytes(ws[..lo]) + Bytes(ws[hi..k])
  }

  lemma KeptStep(ws: Words, lo: nat, hi: nat, k: nat)
    requires k < 8 && lo <= hi && (k < lo || hi <= k)
    ensures Kept(ws, lo, hi, k + 1) == Kept(ws, lo, hi, k) + Pair(ws[k])
  {
    hide Pair;
    if k < lo {
      assert ws[..k + 1][..k] == ws[..k];
    } else {
      var tail := ws[hi..k + 1];
      assert tail[..k - hi] == ws[hi..k] && tail[k - hi] == ws[k];
      assert Bytes(tail) == Bytes(ws[hi..k]) + Pair(ws[k]);
      if k == lo {
        assert ws[hi..k] == [] && Bytes(ws[..lo]) + [] == Bytes(ws[..lo]);
      }
      assert Bytes(ws[..lo]) + (Bytes(ws[hi..k]) + Pair(ws[k])) == Bytes(ws[..lo]) + Bytes(ws[hi..k]) + Pair(ws[k]);
    }
  }

  lemma {:induction false} BytesJoin(a: seq<nat>, b: seq<nat>)
    requires (forall i :: 0 <= i < |a| ==> a[i] < 0x1_0000) && forall i :: 0 <= i < |b| ==> b[i] < 0x1_0000
    ensures forall i :: 0 <= i < |a + b| ==> (a + b)[i] < 0x1_0000
    ensures Bytes(a + b) == Bytes(a) + Bytes(b)
  {
    if b == [] {
      assert a + b == a;
    } else {
      BytesJoin(a, b[..|b| - 1]);
      assert (a + b)[..|a + b| - 1] == a + b[..|b| - 1];
    }
  }

  lemma {:induction false} ZeroBytes(ws: seq<nat>)
    requires forall i :: 0 <= i < |ws| ==> ws[i] == 0
    ensures Bytes(ws) == Coding.Zeros(2 * |ws|)
  {
    if ws != [] { ZeroBytes(ws[..|ws| - 1]); }
  }

  /** Where "::" was, once past it. */
  function Gap(lo: nat, hi: nat, k: nat): Option<nat> {
    if lo < 9 && k >= hi then Some(2 * lo) else None
  }

  /** All words printed: filling the gap gives the address. */
  lemma GapFills(ws: Words, lo: nat, hi: nat)
    requires IsRun(ws, lo, hi)
    ensures var k := Kept(ws, lo, hi, 8);
            Bytes(ws) == if lo == 9 then k else k[..2 * lo] + Coding.Zeros(16 - |k|) + k[2 * lo..]
  {
    hide Bytes, Coding.Zeros;
    if lo == 9 {
      assert ws[..8] == ws;
    } else {
      var a, z, b := ws[..lo], ws[lo..hi], ws[hi..];
      assert ws == a + z + b && ws[hi..8] == b;
      BytesJoin(a, z);
      BytesJoin(a + z, b);
      ZeroBytes(z);
      Halves(Bytes(a), Bytes(b));
    }
  }

  lemma Halves(a: Octets, b: Octets)
    ensures (a + b)[..|a|] == a && (a + b)[|a|..] == b
  {
  }

  /** The parser's state in front of what is printed from word `i` on, with word i - 1 pending. */
  function Pending(ws: Words, lo: nat, hi: nat, i: nat): Parsed
    requires 1 <= i <= 8 && lo <= hi && (i - 1 < lo || hi <= i - 1)
  {
    Parsed(Kept(ws, lo, hi, i - 1), Gap(lo, hi, i - 1), ws[i - 1], |Hex(ws[i - 1])|)
  }

  lemma {:induction false} RunSkips(ws: Words, lo: nat, hi: nat, i: nat)
    requires lo <= i <= hi <= 8 && lo < hi
    ensures From(ws, lo, hi, i) == if i == lo then ":" + From(ws, lo, hi, hi) else From(ws, lo, hi, hi)
    decreases hi - i
  {
    if i < hi {
      RunSkips(ws, lo, hi, i + 1);
      FromStep(ws, lo, hi, i);
    }
  }

  /** The last word is pending and nothing else is to come. */
  lemma LastWord(ws: Words, lo: nat, hi: nat)
    requires IsRun(ws, lo, hi) && hi != 8
    ensures Finish(Pending(ws, lo, hi, 8)) == Some(Bytes(ws))
  {
    hide IsRun, Bytes, Kept, Hex, Coding.Zeros, Pair;
    RunBounds(ws, lo, hi);
    KeptStep(ws, lo, hi, 7);
    GapFills(ws, lo, hi);
    var p, out := Pending(ws, lo, hi, 8), Kept(ws, lo, hi, 8);
    assert p.out + Pair(p.val % 0x1_0000) == out && |p.out| + 2 == |out| && p.seen > 0;
    if lo == 9 {
      assert p.colon == None && |out| == 16;
    } else {
      assert p.colon == Some(2 * lo) && 2 * lo <= |out| < 16;
    }
  }

  lemma RunBounds(ws: Words, lo: nat, hi: nat)
    requires IsRun(ws, lo, hi)
    ensures lo <= 9 && lo <= hi && (lo == 9 <==> hi == 9) && (lo < 9 ==> lo + 2 <= hi <= 8)
  {
  }

  /** From any word on, with the previous one pending. */
  lemma {:induction false} RestParses(ws: Words, lo: nat, hi: nat, i: nat, tok: string)
    requires IsRun(ws, lo, hi) && 1 <= i <= 8 && lo <= hi && (i - 1 < lo || hi <= i - 1)
    ensures Result(Parse6From(From(ws, lo, hi, i), Pending(ws, lo, hi, i), tok)) == Some(Bytes(ws))
    decreases 8 - i, 1
  {
    hide Parse6From, Hex, IsRun, Bytes, From, Finish, Embedded, Text4, Kept;
    RunBounds(ws, lo, hi);
    if i == 8 && hi != 8 {
      FromEnd(ws, lo, hi);
      LastWord(ws, lo, hi);
      NothingLeft(Pending(ws, lo, hi, 8), tok);
    } else if i == lo {
      RunSkips(ws, lo, hi, i);
      var rest := From(ws, lo, hi, hi);
      StartsWithColon(ws, lo, hi, hi);
      ColonPushes(rest, Kept(ws, lo, hi, i - 1), None, ws[i - 1], |Hex(ws[i - 1])|, tok);
      KeptStep(ws, lo, hi, i - 1);
      GapParses(ws, lo, hi, rest);
    } else {
      StartsWithColon(ws, lo, hi, i);
      var body := From(ws, lo, hi, i)[1..];
      KeptStep(ws, lo, hi, i - 1);
      BodyNotEmpty(ws, lo, hi, i);
      ColonPushes(body, Kept(ws, lo, hi, i - 1), Gap(lo, hi, i - 1), ws[i - 1], |Hex(ws[i - 1])|, tok);
      BodyParses(ws, lo, hi, i, body);
    }
  }

  lemma NothingLeft(p: Parsed, tok: string)
    ensures Result(Parse6From("", p, tok)) == Finish(p)
  {
  }

  lemma StartsWithColon(ws: Words, lo: nat, hi: nat, i: nat)
    requires 1 <= i <= 8 && lo <= hi && !(lo < i < hi) && (i == 8 ==> hi == 8)
    ensures From(ws, lo, hi, i) != [] && From(ws, lo, hi, i) == ":" + From(ws, lo, hi, i)[1..]
  {
    hide Hex, Text4, Bytes, Embedded, From;
    if i == 8 { FromEnd(ws, lo, hi); } else { FromStep(ws, lo, hi, i); }
  }

  lemma BodyNotEmpty(ws: Words, lo: nat, hi: nat, i: nat)
    requires 1 <= i < 8 && lo <= hi && !(lo <= i < hi)
    ensures From(ws, lo, hi, i) != []
    ensures var body := From(ws, lo, hi, i)[1..];
            body != [] && body == if i == 6 && Embedded(ws, lo, hi) then Text4(Bytes(ws[6..])) else Hex(ws[i]) + From(ws, lo, hi, i + 1)
  {
    hide From, Embedded;
    FromStep(ws, lo, hi, i);
  }

  /** A word (or the embedded address) after its colon. */
  lemma {:induction false} BodyParses(ws: Words, lo: nat, hi: nat, i: nat, body: string)
    requires IsRun(ws, lo, hi) && 1 <= i < 8 && lo <= hi && !(lo <= i < hi) && From(ws, lo, hi, i) != [] && body == From(ws, lo, hi, i)[1..]
    ensures Result(Parse6From(body, Parsed(Kept(ws, lo, hi, i), Gap(lo, hi, i), 0, 0), body)) == Some(Bytes(ws))
    decreases 8 - i, 0
  {
    hide Parse6From, Hex, IsRun, Bytes, From, Finish, Text4, Kept;
    RunBounds(ws, lo, hi);
    BodyNotEmpty(ws, lo, hi, i);
    if i == 6 && Embedded(ws, lo, hi) {
      var a := Bytes(ws[6..]);
      EmbeddedParses(a, Kept(ws, lo, hi, 6), Gap(lo, hi, 6));
      KeptStep(ws, lo, hi, 6);
      KeptStep(ws, lo, hi, 7);
      TwoWords(ws);
      GapFills(ws, lo, hi);
      EmbeddedFinishes(ws, lo, hi, a);
    } else {
      WordParses(ws[i], From(ws, lo, hi, i + 1), Kept(ws, lo, hi, i), Gap(lo, hi, i), body);
      RestParses(ws, lo, hi, i + 1, body);
    }
  }

  lemma TwoWords(ws: Words)
    ensures Bytes(ws[6..]) == Pair(ws[6]) + Pair(ws[7])
  {
    assert ws[6..][..1] == [ws[6]] && [ws[6]][..0] == [];
    assert Bytes([]) + Pair(ws[6]) == Pair(ws[6]);
  }

  lemma EmbeddedFinishes(ws: Words, lo: nat, hi: nat, a: Octets)
    requires lo == 0 && 5 <= hi <= 7 && !(lo <= 6 < hi) && IsRun(ws, lo, hi)
    requires Kept(ws, lo, hi, 6) + a == Kept(ws, lo, hi, 8)
    requires var k := Kept(ws, lo, hi, 8); Bytes(ws) == k[..2 * lo] + Coding.Zeros(16 - |k|) + k[2 * lo..]
    ensures forall v :: Finish(Parsed(Kept(ws, lo, hi, 6) + a, Gap(lo, hi, 6), v, 0)) == Some(Bytes(ws))
  {
    hide Bytes, Kept, Coding.Zeros, IsRun;
    var out := Kept(ws, lo, hi, 8);
    assert |out| == 16 - 2 * hi && Gap(lo, hi, 6) == Some(0);
  }

  /** After the first colon of "::". */
  lemma {:induction false} GapParses(ws: Words, lo: nat, hi: nat, tok: string)
    requires IsRun(ws, lo, hi) && lo < 9 && lo <= hi
    ensures Result(Parse6From(From(ws, lo, hi, hi), Parsed(Kept(ws, lo, hi, lo), None, 0, 0), tok)) == Some(Bytes(ws))
    decreases 8 - hi, 2
  {
    hide Parse6From, Hex, IsRun, Bytes, From, Finish, Text4, Kept, Embedded;
    RunBounds(ws, lo, hi);
    StartsWithColon(ws, lo, hi, hi);
    var body := From(ws, lo, hi, hi)[1..];
    ColonMarks(body, Kept(ws, lo, hi, lo), tok);
    KeptAtGap(ws, lo, hi);
    if hi == 8 {
      FromEnd(ws, lo, hi);
      NothingLeft(Parsed(Kept(ws, lo, hi, lo), Some(2 * lo), 0, 0), body);
      GapFills(ws, lo, hi);
      GapFinishes(ws, lo, hi);
    } else {
      BodyParses(ws, lo, hi, hi, body);
    }
  }

  lemma KeptAtGap(ws: Words, lo: nat, hi: nat)
    requires lo <= hi <= 8
    ensures Kept(ws, lo, hi, lo) == Kept(ws, lo, hi, hi)
  {
    assert ws[hi..hi] == [];
  }

  lemma GapFinishes(ws: Words, lo: nat, hi: nat)
    requires lo < hi == 8
    requires var k := Kept(ws, lo, hi, 8); Bytes(ws) == k[..2 * lo] + Coding.Zeros(16 - |k|) + k[2 * lo..]
    ensures Finish(Parsed(Kept(ws, lo, hi, lo), Some(2 * lo), 0, 0)) == Some(Bytes(ws))
  {
    hide Kept, Bytes, Coding.Zeros;
    KeptAtGap(ws, lo, hi);
    var out := Kept(ws, lo, hi, lo);
    assert out == Kept(ws, lo, hi, 8) && |out| == 2 * lo < 16;
  }

  /** Parsing the printed text gives the address back, whichever run of zeros "::" stands for. */
  lemma RoundTrip6(ws: Words, lo: nat, hi: nat)
    requires IsRun(ws, lo, hi)
    ensures Parse6(From(ws, lo, hi, 0)) == Some(Bytes(ws))
  {
    hide Parse6From, Hex, IsRun, Bytes, From, Finish, Text4, Embedded;
    RunBounds(ws, lo, hi);
    if lo == 0 {
      RunSkips(ws, lo, hi, 0);
      StartsWithColon(ws, lo, hi, hi);
      var s := From(ws, lo, hi, 0);
      assert s[1..] == From(ws, lo, hi, hi);
      assert ws[..0] == [];
      GapParses(ws, lo, hi, s[1..]);
      NoWords();
    } else {
      FromStep(ws, lo, hi, 0);
      var s := From(ws, lo, hi, 0);
      assert s == Hex(ws[0]) + From(ws, lo, hi, 1);
      FirstDigit(ws[0]);
      WordParses(ws[0], From(ws, lo, hi, 1), [], None, s);
      RestParses(ws, lo, hi, 1, s);
      assert ws[..0] == [];
      NoWords();
    }
  }

  lemma NoWords()
    ensures Bytes([]) == []
  {
  }

  lemma FirstDigit(w: nat)
    requires w < 0x1_0000
    ensures Hex(w)[0] != ':'
  {
  }

  /** The text never needs more than 45 characters. */
  lemma {:induction false} TextFits(ws: Words, lo: nat, hi: nat, i: nat)
    requires i <= 8 && lo <= hi
    ensures |From(ws, lo, hi, i)| <= 5 * (8 - i) + 6
    ensures |From(ws, lo, hi, 0)| <= 45 || i != 0
    decreases 8 - i
  {
    if i < 8 { TextFits(ws, lo, hi, i + 1); }
  }

  /** The address as words: inet_ntop6 joins neighbouring bytes. */
  function WordsOf(src: Octets): Words
    requires |src| == 16
  {
    seq(8, i requires 0 <= i < 8 => src[2 * i] as nat * 256 + src[2 * i + 1] as nat)
  }

  lemma {:induction false} WordsSpell(src: Octets, k: nat)
    requires |src| == 16 && k <= 8
    ensures Bytes(WordsOf(src)[..k]) == src[..2 * k]
  {
    if k > 0 {
      WordsSpell(src, k - 1);
      assert WordsOf(src)[..k][..k - 1] == WordsOf(src)[..k - 1];
      assert Pair(WordsOf(src)[k - 1]) == [src[2 * k - 2], src[2 * k - 1]];
      assert src[..2 * k] == src[..2 * k - 2] + [src[2 * k - 2], src[2 * k - 1]];
    }
  }

  /** For every 16 bytes: the text is at most 45 characters, and parsing it returns them. */
  lemma AddressRoundTrip(src: Octets, lo: nat, hi: nat)
    requires |src| == 16 && IsBest(WordsOf(src), lo, hi)
    ensures Parse6(From(WordsOf(src), lo, hi, 0)) == Some(src) && |From(WordsOf(src), lo, hi, 0)| <= 45
  {
    hide Parse6, From, Bytes, Embedded;
    var ws := WordsOf(src);
    RoundTrip6(ws, lo, hi);
    WordsSpell(src, 8);
    assert ws[..8] == ws && src[..16] == src;
    BestBounds(ws, lo, hi);
    TextFits(ws, lo, hi, 0);
  }

  /** With seven leading zero words the test for an embedded IPv4 address comes too late: word 6 is already skipped. */
  lemma SevenZerosStayHex(ws: Words)
    ensures From(ws, 0, 7, 0) == "::" + Hex(ws[7])
  {
    hide Hex;
    RunSkips(ws, 0, 7, 0);
    FromStep(ws, 0, 7, 7);
    FromEnd(ws, 0, 7);
    assert Hex(ws[7]) + "" == Hex(ws[7]);
  }

  // ---- IPv6: which texts are addresses ----

  /** At most four hexadecimal digits. */
  predicate IsGroup(g: string) {
    |g| <= 4 && forall i :: 0 <= i < |g| ==> HexValue(g[i]).Some?
  }

  predicate AreGroups(gs: seq<string>) {
    forall i :: 0 <= i < |gs| ==> gs[i] != [] && IsGroup(gs[i])
  }

  function GroupValue(g: string): (v: nat)
    requires IsGroup(g)
    ensures v < if |g| == 0 then 1 else if |g| == 1 then 0x10 else if |g| == 2 then 0x100 else if |g| == 3 then 0x1000 else 0x1_0000
  {
    if g == [] then 0 else GroupValue(g[..|g| - 1]) * 16 + HexValue(g[|g| - 1]).value
  }

  /** Groups, each with a colon behind it. */
  function Colons(gs: seq<string>): string {
    if gs == [] then "" else Colons(gs[..|gs| - 1]) + gs[|gs| - 1] + ":"
  }

  function GroupBytes(gs: seq<string>): (r: Octets)
    requires AreGroups(gs)
    ensures |r| == 2 * |gs|
  {
    if gs == [] then [] else GroupBytes(gs[..|gs| - 1]) + Pair(GroupValue(gs[|gs| - 1]))
  }

  /** What stands at the end: nothing behind "::", a group, or an IPv4 address. */
  datatype Last = Nothing | Group(g: string) | Dots(a: Octets)

  /** The parts of an address's text: groups, perhaps "::" and more groups, and the end. */
  datatype Text = Text(left: seq<string>, gap: bool, right: seq<string>, last: Last)

  predicate IsLast(l: Last) {
    match l
    case Nothing => true
    case Group(g) => g != [] && IsGroup(g)
    case Dots(a) => |a| == 4
  }

  predicate WellFormed(t: Text) {
    && AreGroups(t.left) && AreGroups(t.right) && IsLast(t.last)
    && if t.gap then t.last.Nothing? ==> t.right == [] else t.right == [] && !t.last.Nothing?
  }

  function SpellLast(l: Last): string
    requires IsLast(l)
  {
    match l case Nothing => "" case Group(g) => g case Dots(a) => Text4(a)
  }

  /** The text; a leading "::" has a colon more than what follows a group. */
  function Spell(t: Text): string
    requires WellFormed(t)
  {
    (if t.gap && t.left == [] then ":" else "") + SpellRest(t)
  }

  function SpellRest(t: Text): string
    requires WellFormed(t)
  {
    Before(t.left, t.gap, t.right) + SpellLast(t.last)
  }

  function Before(left: seq<string>, gap: bool, right: seq<string>): string {
    Colons(left) + if gap then ":" + Colons(right) else ""
  }

  function LastBytes(l: Last): (r: Octets)
    requires IsLast(l)
  {
    match l case Nothing => [] case Group(g) => Pair(GroupValue(g)) case Dots(a) => a
  }

  /** The sixteen bytes; "::" stands for at least one zero word. */
  function Meaning(t: Text): Option<Octets>
    requires WellFormed(t)
  {
    Filled(GroupBytes(t.left), t.gap, GroupBytes(t.right) + LastBytes(t.last))
  }

  function Filled(front: Octets, gap: bool, back: Octets): Option<Octets> {
    if gap then (if |front| + |back| < 16 then Some(front + Coding.Zeros(16 - |front| - |back|) + back) else None)
    else if |front + back| == 16 then Some(front + back)
    else None
  }

  /** Which well-formed texts mean an address: eight words, or at most seven around "::". */
  lemma MeaningIff(t: Text)
    requires WellFormed(t)
    ensures var words := |t.left| + |t.right| + match t.last case Nothing => 0 case Group(_) => 1 case Dots(_) => 2;
            Meaning(t).Some? <==> if t.gap then words <= 7 else words == 8
    ensures Meaning(t).Some? ==>
              && |Meaning(t).value| == 16 && GroupBytes(t.left) <= Meaning(t).value
              && Meaning(t).value[16 - 2 * |t.right| - |LastBytes(t.last)|..] == GroupBytes(t.right) + LastBytes(t.last)
              && forall i :: 2 * |t.left| <= i < 16 - 2 * |t.right| - |LastBytes(t.last)| ==> Meaning(t).value[i] == 0
  {
    hide GroupBytes, AreGroups;
    assert !t.gap ==> t.right == [];
    if t.right == [] { assert GroupBytes(t.right) == [] by { NoBytes(); } }
  }

  lemma NoBytes()
    ensures GroupBytes([]) == []
  {
  }

  /** The parser has read these groups, and the digits `g` since the last colon. */
  ghost predicate Stands(p: Parsed, left: seq<string>, gap: bool, right: seq<string>, g: string) {
    && AreGroups(left) && AreGroups(right) && IsGroup(g) && (!gap ==> right == [])
    && p == Parsed(GroupBytes(left) + GroupBytes(right), if gap then Some(2 * |left|) else None, GroupValue(g), |g|)
  }

  lemma GroupGrows(g: string, c: char)
    requires IsGroup(g) && |g| < 4 && HexValue(c).Some?
    ensures IsGroup(g + [c]) && GroupValue(g + [c]) == GroupValue(g) * 16 + HexValue(c).value
  {
    assert (g + [c])[..|g|] == g;
  }

  lemma OneGroupMore(gs: seq<string>, g: string)
    requires AreGroups(gs) && g != [] && IsGroup(g)
    ensures AreGroups(gs + [g]) && GroupBytes(gs + [g]) == GroupBytes(gs) + Pair(GroupValue(g))
    ensures Colons(gs + [g]) == Colons(gs) + (g + ":")
  {
    assert (gs + [g])[..|gs|] == gs;
  }

  lemma FinishFills(p: Parsed, front: Octets, gap: bool, back: Octets)
    requires p.colon == (if gap then Some(|front|) else None) && front + back == if p.seen > 0 then p.out + Pair(p.val % 0x1_0000) else p.out
    ensures Finish(p) == Filled(front, gap, back)
  {
    hide Pair, Coding.Zeros;
    var out := front + back;
    assert out[..|front|] == front && out[|front|..] == back;
  }

  /** The end of the text: what is returned is what the parts mean. */
  lemma FinishMeans(p: Parsed, left: seq<string>, gap: bool, right: seq<string>, g: string)
    requires Stands(p, left, gap, right, g) && (g == [] ==> gap && right == [])
    ensures var t := Text(left, gap, right, if g == [] then Nothing else Group(g));
            WellFormed(t) && Finish(p) == Meaning(t)
  {
    hide Pair, Filled, GroupBytes, GroupValue, Finish;
    var t := Text(left, gap, right, if g == [] then Nothing else Group(g));
    var front, back := GroupBytes(left), GroupBytes(right) + LastBytes(t.last);
    assert front + GroupBytes(right) + LastBytes(t.last) == front + back;
    assert g == [] ==> front + GroupBytes(right) + [] == front + GroupBytes(right);
    FinishFills(p, front, gap, back);
  }

  lemma NoGroups()
    ensures GroupBytes([]) == [] && Colons([]) == ""
  {
  }

  /** The same when the end is an IPv4 address. */
  lemma DotsMean(p: Parsed, left: seq<string>, gap: bool, right: seq<string>, g: string, a: Octets)
    requires Stands(p, left, gap, right, g) && |a| == 4
    ensures var t := Text(left, gap, right, Dots(a));
            WellFormed(t) && Finish(p.(out := p.out + a, seen := 0)) == Meaning(t)
  {
    hide Pair, Filled, GroupBytes, GroupValue, Finish;
    var front, back := GroupBytes(left), GroupBytes(right) + a;
    assert front + GroupBytes(right) + a == front + back;
    FinishFills(p.(out := p.out + a, seen := 0), front, gap, back);
  }

  /** A digit has been read. */
  lemma ReadDigit(s: string, p: Parsed, left: seq<string>, gap: bool, right: seq<string>, g: string)
    requires Stands(p, left, gap, right, g) && s != [] && HexValue(s[0]).Some? && Parse6From(s, p, g + s).Some?
    ensures |g| < 4
    ensures var q := p.(val := p.val * 16 + HexValue(s[0]).value, seen := p.seen + 1);
            Stands(q, left, gap, right, g + [s[0]]) && Parse6From(s, p, g + s) == Parse6From(s[1..], q, g + [s[0]] + s[1..])
    ensures Before(left, gap, right) + (g + [s[0]]) + s[1..] == Before(left, gap, right) + g + s
  {
    hide GroupBytes, GroupValue, Colons;
    GroupGrows(g, s[0]);
    assert g + [s[0]] + s[1..] == g + s;
  }

  /** The second colon of "::" has been read. */
  lemma ReadGap(s: string, p: Parsed, left: seq<string>, gap: bool, right: seq<string>)
    requires Stands(p, left, gap, right, "") && s != [] && s[0] == ':' && Parse6From(s, p, s).Some?
    ensures !gap && right == []
    ensures var q := p.(colon := Some(|p.out|));
            Stands(q, left, true, [], "") && Parse6From(s, p, s) == Parse6From(s[1..], q, s[1..])
    ensures Before(left, true, []) + s[1..] == Before(left, gap, right) + s
  {
    hide GroupBytes, Colons;
    NoGroups();
    assert GroupBytes(left) + [] == GroupBytes(left);
    assert s == ":" + s[1..];
    assert Colons(left) + (":" + "") + s[1..] == Colons(left) + "" + s;
  }

  lemma ColonGoesOn(s: string, p: Parsed, tok: string)
    requires s != [] && s[0] == ':' && p.seen > 0 && p.val < 0x1_0000 && Parse6From(s, p, tok).Some?
    ensures |s| > 1 && |p.out| + 2 <= 16
    ensures Parse6From(s, p, tok) == Parse6From(s[1..], Parsed(p.out + Pair(p.val), p.colon, 0, 0), s[1..])
  {
  }

  /** A group more, on whichever side of the gap. */
  lemma OneMoreRead(left: seq<string>, gap: bool, right: seq<string>, g: string, rest: string)
    requires AreGroups(left) && AreGroups(right) && g != [] && IsGroup(g) && (!gap ==> right == [])
    ensures var left', right' := if gap then left else left + [g], if gap then right + [g] else right;
            && AreGroups(left') && AreGroups(right')
            && GroupBytes(left') + GroupBytes(right') == GroupBytes(left) + GroupBytes(right) + Pair(GroupValue(g))
            && Before(left', gap, right') + rest == Before(left, gap, right) + g + (":" + rest)
  {
    hide GroupBytes, GroupValue, Colons, Pair;
    NoGroups();
    var pair := Pair(GroupValue(g));
    if gap {
      OneGroupMore(right, g);
      assert GroupBytes(left) + GroupBytes(right) + pair == GroupBytes(left) + (GroupBytes(right) + pair);
      assert Colons(left) + (":" + (Colons(right) + (g + ":"))) + rest == Colons(left) + (":" + Colons(right)) + g + (":" + rest);
    } else {
      OneGroupMore(left, g);
      assert GroupBytes(left) + [] + pair == GroupBytes(left) + pair + [];
      assert Colons(left) + (g + ":") + "" + rest == Colons(left) + "" + g + (":" + rest);
    }
  }

  /** The colon behind a group has been read. */
  lemma ReadColon(s: string, p: Parsed, left: seq<string>, gap: bool, right: seq<string>, g: string)
    requires Stands(p, left, gap, right, g) && g != [] && s != [] && s[0] == ':' && Parse6From(s, p, g + s).Some?
    ensures |s| > 1 && |p.out| + 2 <= 16
    ensures p.val < 0x1_0000
    ensures var q := Parsed(p.out + Pair(p.val), p.colon, 0, 0);
            var left', right' := if gap then left else left + [g], if gap then right + [g] else right;
            && Stands(q, left', gap, right', "") && Parse6From(s, p, g + s) == Parse6From(s[1..], q, s[1..])
            && Before(left', gap, right') + s[1..] == Before(left, gap, right) + g + s
  {
    hide GroupBytes, Colons, Pair, Parse6From, Before;
    assert s == ":" + s[1..];
    ColonGoesOn(s, p, g + s);
    OneMoreRead(left, gap, right, g, s[1..]);
  }

  /** What is left is an IPv4 address. */
  lemma ReadDots(s: string, p: Parsed, left: seq<string>, gap: bool, right: seq<string>, g: string) returns (t: Text)
    requires Stands(p, left, gap, right, g) && s != [] && HexValue(s[0]).None? && s[0] != ':' && Parse6From(s, p, g + s).Some?
    ensures WellFormed(t) && SpellRest(t) == Before(left, gap, right) + g + s && Meaning(t) == Result(Parse6From(s, p, g + s))
  {
    hide GroupBytes, GroupValue, Colons, Pair, Parse4, Text4, Finish, Meaning;
    Parse4Iff(g + s);
    var b := Parse4(g + s).value;
    DotsMean(p, left, gap, right, g, b);
    t := Text(left, gap, right, Dots(b));
    assert Before(left, gap, right) + g + s == Before(left, gap, right) + (g + s);
  }

  /** Whatever the loop accepts is the rest of a text, and its value is what the text means. */
  lemma {:induction false} AcceptedSpells(s: string, p: Parsed, left: seq<string>, gap: bool, right: seq<string>, g: string) returns (t: Text)
    requires Stands(p, left, gap, right, g) && (g == [] && s == [] ==> right == [] && (gap || left == []))
    requires Result(Parse6From(s, p, g + s)).Some?
    ensures WellFormed(t) && SpellRest(t) == Before(left, gap, right) + g + s && Meaning(t) == Result(Parse6From(s, p, g + s))
    decreases |s|
  {
    hide Parse4, Text4, GroupBytes, GroupValue, Finish, Pair, Before, Meaning, Parse6From;
    if s == [] {
      Ended(p, g + s);
      if g == [] && !gap {
        NoGroups();
        StartIsNothing(p);
      }
      FinishMeans(p, left, gap, right, g);
      t := Text(left, gap, right, if g == [] then Nothing else Group(g));
      assert Before(left, gap, right) + g + s == Before(left, gap, right) + g;
    } else if HexValue(s[0]).Some? {
      ReadDigit(s, p, left, gap, right, g);
      t := AcceptedSpells(s[1..], p.(val := p.val * 16 + HexValue(s[0]).value, seen := p.seen + 1), left, gap, right, g + [s[0]]);
    } else if s[0] == ':' {
      assert "" + s[1..] == s[1..] && "" + s == s;
      if g == [] {
        assert g + s == s && Before(left, gap, right) + g == Before(left, gap, right);
        ReadGap(s, p, left, gap, right);
        t := AcceptedSpells(s[1..], p.(colon := Some(|p.out|)), left, true, [], "");
        assert Before(left, true, []) + "" == Before(left, true, []);
      } else {
        ReadColon(s, p, left, gap, right, g);
        var left', right' := if gap then left else left + [g], if gap then right + [g] else right;
        t := AcceptedSpells(s[1..], Parsed(p.out + Pair(p.val), p.colon, 0, 0), left', gap, right', "");
        assert Before(left', gap, right') + "" == Before(left', gap, right');
      }
    } else {
      t := ReadDots(s, p, left, gap, right, g);
    }
  }

  lemma Ended(p: Parsed, tok: string)
    ensures Parse6From([], p, tok) == Some(p)
  {
  }

  lemma StartIsNothing(p: Parsed)
    requires p.out == [] && p.colon == None && p.seen == 0
    ensures Finish(p) == None
  {
  }

  lemma DigitReads(s: string, p: Parsed, tok: string)
    requires s != [] && HexValue(s[0]).Some? && p.seen < 4 && p.val < 0x1000
    ensures Parse6From(s, p, tok) == Parse6From(s[1..], p.(val := p.val * 16 + HexValue(s[0]).value, seen := p.seen + 1), tok)
  {
  }

  /** The digits of a group. */
  lemma {:induction false} GroupReads(g: string, k: nat, rest: string, out: Octets, colon: Option<nat>, tok: string)
    requires IsGroup(g) && k <= |g|
    ensures IsGroup(g[..k])
    ensures Parse6From(g[k..] + rest, Parsed(out, colon, GroupValue(g[..k]), k), tok) == Parse6From(rest, Parsed(out, colon, GroupValue(g), |g|), tok)
    decreases |g| - k
  {
    hide Parse6From, HexValue, GroupValue;
    if k < |g| {
      var s := g[k..] + rest;
      assert s[0] == g[k] && s[1..] == g[k + 1..] + rest;
      assert g[..k + 1] == g[..k] + [g[k]];
      GroupGrows(g[..k], g[k]);
      DigitReads(s, Parsed(out, colon, GroupValue(g[..k]), k), tok);
      GroupReads(g, k + 1, rest, out, colon, tok);
    } else {
      assert g[..k] == g && g[k..] + rest == rest;
    }
  }

  /** The part of a text between its first `k` groups and its end, from which the loop goes on. */
  lemma {:induction false} GroupsRead(gs: seq<string>, k: nat, rest: string, out: Octets, colon: Option<nat>, tok: string) returns (tok': string)
    requires AreGroups(gs) && k <= |gs| && rest != [] && |out| + 2 * k <= 16
    ensures Parse6From(Colons(gs[..k]) + rest, Parsed(out, colon, 0, 0), tok)
      == Parse6From(rest, Parsed(out + GroupBytes(gs[..k]), colon, 0, 0), if k == 0 then tok else rest)
    ensures tok' == if k == 0 then tok else rest
    decreases k
  {
    hide Parse6From, Pair, GroupValue;
    tok' := if k == 0 then tok else rest;
    if k == 0 {
      NoGroups();
      assert gs[..0] == [] && "" + rest == rest && out + [] == out;
    } else {
      var g := gs[k - 1];
      assert gs[..k] == gs[..k - 1] + [g];
      OneGroupMore(gs[..k - 1], g);
      var here := g + (":" + rest);
      assert Colons(gs[..k]) + rest == Colons(gs[..k - 1]) + here;
      var before := GroupsRead(gs, k - 1, here, out, colon, tok);
      var now := out + GroupBytes(gs[..k - 1]);
      assert g[..0] == "" && g[0..] == g && GroupValue("") == 0;
      GroupReads(g, 0, ":" + rest, now, colon, before);
      ColonPushes(rest, now, colon, GroupValue(g), |g|, before);
      assert now + Pair(GroupValue(g)) == out + GroupBytes(gs[..k]);
    }
  }

  /** The end of a text, behind what has become `out`. */
  lemma LastReads(l: Last, front: Octets, gap: bool, right: Octets)
    requires IsLast(l) && (l.Dots? ==> |front + right| + 4 <= 16)
    ensures var s := SpellLast(l);
            Result(Parse6From(s, Parsed(front + right, if gap then Some(|front|) else None, 0, 0), s)) == Filled(front, gap, right + LastBytes(l))
  {
    hide Parse6From, Text4, GroupValue, Pair, Finish, Filled;
    var s := SpellLast(l);
    var colon := if gap then Some(|front|) else None;
    var p := Parsed(front + right, colon, 0, 0);
    assert front + right + LastBytes(l) == front + (right + LastBytes(l));
    match l {
      case Nothing =>
        NothingLeft(p, s);
        FinishFills(p, front, gap, right + []);
      case Group(g) =>
        assert g[..0] == "" && g[0..] + "" == g;
        NoDigits();
        GroupReads(g, 0, "", front + right, colon, s);
        var q := Parsed(front + right, colon, GroupValue(g), |g|);
        NothingLeft(q, s);
        FinishFills(q, front, gap, right + Pair(GroupValue(g)));
      case Dots(a) =>
        EmbeddedParses(a, front + right, colon);
        FinishFills(Parse6From(s, p, s).value, front, gap, right + a);
    }
  }

  lemma NoDigits()
    ensures GroupValue("") == 0
  {
  }

  /** The loop reads every text that has a meaning. */
  lemma TextReads(t: Text)
    requires WellFormed(t) && Meaning(t).Some?
    ensures Result(Parse6From(SpellRest(t), START, SpellRest(t))) == Meaning(t)
  {
    hide Parse6From, SpellLast, LastBytes, GroupBytes, Colons;
    var front, right, last := GroupBytes(t.left), GroupBytes(t.right), SpellLast(t.last);
    var whole := SpellRest(t);
    LastIsThere(t.last);
    NoGroups();
    if t.gap {
      var back := Colons(t.right) + last;
      assert whole == Colons(t.left) + (":" + back);
      var tok := ReadsTo(t.left, ":" + back, [], None, whole);
      assert [] + front == front;
      ColonMarks(back, front, tok);
      if t.right == [] {
        assert back == last && front + [] == front;
      } else {
        var _ := ReadsTo(t.right, last, front, Some(|front|), back);
      }
      LastReads(t.last, front, true, right);
    } else {
      assert whole == Colons(t.left) + last;
      var _ := ReadsTo(t.left, last, [], None, whole);
      assert [] + front == front && front + [] == front;
      LastReads(t.last, front, false, []);
    }
  }

  /** All the groups of one side, to what follows them. */
  lemma ReadsTo(gs: seq<string>, rest: string, out: Octets, colon: Option<nat>, tok: string) returns (tok': string)
    requires AreGroups(gs) && rest != [] && |out| + 2 * |gs| <= 16 && tok == Colons(gs) + rest
    ensures Parse6From(tok, Parsed(out, colon, 0, 0), tok) == Parse6From(rest, Parsed(out + GroupBytes(gs), colon, 0, 0), rest)
    ensures tok' == rest
  {
    hide Parse6From;
    assert gs[..|gs|] == gs;
    tok' := GroupsRead(gs, |gs|, rest, out, colon, tok);
    if gs == [] { assert tok == rest; }
    tok' := rest;
  }

  lemma LastIsThere(l: Last)
    requires IsLast(l)
    ensures SpellLast(l) == [] <==> l.Nothing?
    ensures |LastBytes(l)| == if l.Nothing? then 0 else if l.Group? then 2 else 4
  {
    hide Text4, GroupValue;
  }

  /** A text starts with a colon exactly if it starts with "::". */
  lemma StartsSo(t: Text)
    requires WellFormed(t)
    ensures t.gap && t.left == [] ==> SpellRest(t) != [] && SpellRest(t)[0] == ':' && Spell(t) == ":" + SpellRest(t)
    ensures !(t.gap && t.left == []) ==> SpellRest(t) != [] && SpellRest(t)[0] != ':' && Spell(t) == SpellRest(t)
  {
    hide Text4;
    LastIsThere(t.last);
    if t.left != [] {
      FirstOfColons(t.left);
    } else if !t.gap {
      if t.last.Dots? { FirstOfText4(t.last.a); }
    }
    assert "" + SpellRest(t) == SpellRest(t);
  }

  lemma {:induction false} FirstOfColons(gs: seq<string>)
    requires AreGroups(gs) && gs != []
    ensures Colons(gs) != [] && Colons(gs)[0] != ':'
  {
    var n := |gs| - 1;
    if n > 0 {
      FirstOfColons(gs[..n]);
      assert Colons(gs)[0] == Colons(gs[..n])[0];
    } else {
      assert Colons(gs)[0] == gs[0][0];
    }
  }

  lemma FirstOfText4(a: Octets)
    requires |a| == 4
    ensures Text4(a)[0] != ':'
  {
    assert Text4(a)[0] == Decimal(a[0])[0];
  }

  /** An address's text, with its meaning. */
  ghost predicate Spells(t: Text, s: string, a: Octets) {
    WellFormed(t) && Spell(t) == s && Meaning(t) == Some(a)
  }

  /**
   What inet_pton6 accepts: groups of one to four hexadecimal digits, at most one "::" for one
   or more zero words, and an IPv4 address in place of the last two words; sixteen bytes in all.
   */
  lemma Parse6Iff(src: string, a: Octets)
    ensures Parse6(src) == Some(a) <==> exists t :: Spells(t, src, a)
  {
    hide Parse6From, Meaning, SpellRest, Spell, Result;
    if Parse6(src) == Some(a) {
      NoGroups();
      NoDigits();
      var s := if src != [] && src[0] == ':' then src[1..] else src;
      assert [] + s == s && "" + s == s;
      StartStands();
      var t := AcceptedSpells(s, START, [], false, [], "");
      NothingBefore(s);
      StartsSo(t);
      assert Spells(t, src, a);
    }
    if t :| Spells(t, src, a) {
      TextReads(t);
      StartsSo(t);
      assert t.gap && t.left == [] ==> src[1..] == SpellRest(t);
    }
  }

  lemma StartStands()
    ensures Stands(START, [], false, [], "")
  {
  }

  lemma NothingBefore(s: string)
    ensures Before([], false, []) + "" + s == s
  {
  }
}
