/**
 Decoding what was encoded gives the message back (pb_encode.c against pb_decode.c).
 */
module NanopbRoundTrip {
  import Keys
  import opened Store
  import opened Coding
  import opened Nanopb

  /** What the generator guarantees of a message description. */
  predicate Schema(fields: Fields)
    decreases fields, 2
  {
    && (forall i, j :: 0 <= i < j < |fields| ==> fields[i].tag != fields[j].tag)
    && (forall i :: 0 <= i < |fields| ==> SchemaField(fields[i]))
  }

  predicate SchemaField(f: Field)
    decreases f, 1
  {
    && 1 <= f.tag < 0x2000_0000 && (f.rule.Implicit? ==> f.default.None?)
    && SchemaType(f.ltype)
  }

  predicate SchemaType(t: LType)
    decreases t, 1
  {
    t.Submessage? ==> Schema(t.fields)
  }

  // ---- Single values ----

  lemma Varint64RoundTrip(v: nat, rest: Bytes)
    requires v < TWO64
    ensures DecodeVarint64(Varint(v) + rest) == Some((v, rest))
  {
    Power128At10();
    VarintFits(v, 10);
    DecodeVarint(v, 10, rest);
  }

  lemma Varint32RoundTrip(v: nat, rest: Bytes)
    requires v <= MAX32
    ensures DecodeVarint32(Varint(v) + rest) == Some((v, rest))
  {
    hide Decode;
    Power128At5();
    VarintFits(v, 5);
    DecodeVarint(v, |Varint(v) + rest|, rest);
  }

  lemma StringRoundTrip(data: Bytes, rest: Bytes)
    requires |data| <= MAX32
    ensures TakeString(Prefixed(data) + rest) == Some((data, rest))
  {
    Varint32RoundTrip(|data|, data + rest);
    assert Prefixed(data) + rest == Varint(|data|) + (data + rest);
  }

  lemma FixedValueRoundTrip(v: nat, width: nat, rest: Bytes)
    requires (width == 4 && v <= MAX32) || (width == 8 && v <= MAX64)
    ensures |Fixed(v, width) + rest| >= width
    ensures FromFixed((Fixed(v, width) + rest)[..width]) == v && (Fixed(v, width) + rest)[width..] == rest
  {
    assert (Fixed(v, width) + rest)[..width] == Fixed(v, width);
    assert Power256(4) == MAX32 + 1 by {
      assert Power256(1) == 256 && Power256(2) == 0x1_0000 && Power256(3) == 0x100_0000;
    }
    assert Power256(8) == MAX64 + 1 by {
      assert Power256(5) == 0x100_0000_0000 && Power256(6) == 0x1_0000_0000_0000 && Power256(7) == 0x100_0000_0000_0000;
    }
    FixedRoundTrip(v, width);
  }

  lemma {:induction false} NoNul(s: Bytes)
    requires 0 !in s
    ensures UpToNul(s) == s
  {
    if s != [] {
      assert s[0] in s;
      NoNul(s[1..]);
    }
  }

  /** Sign extension to 64 bits and back, also through a 32-bit register. */
  lemma SignedRoundTrip(n: int, size: nat)
    requires IntSize(size) && -Range(size) <= 2 * n < Range(size)
    ensures -TWO63 <= n < TWO63
    ensures (if size == 8 then Signed(Unsigned(n), TWO64) else Signed(Unsigned(n), 0x1_0000_0000)) == n
    ensures UnZigZag(ZigZag(n)) == n
  {
  }

  // ---- Fields ----

  /** A field that is left out because it is zero is what the decoder starts from. */
  lemma {:induction false} ZeroIsDefault(f: Field, s: Slot)
    requires SchemaField(f) && ValidSlot(f, s) && IsZero(f, s)
    ensures s == DefaultSlot(f)
    decreases f
  {
    if f.rule.Implicit? && f.ltype.Submessage? {
      var fields, slots := f.ltype.fields, s.value.slots;
      assert SchemaType(f.ltype) && Schema(fields);
      assert ValidValue(f.ltype, s.value) && ValidStruct(fields, slots);
      assert IsZeroValue(f.ltype, s.value);
      forall i | 0 <= i < |fields|
        ensures slots[i] == DefaultSlot(fields[i])
      {
        SchemaAt(fields, i);
        ZeroIsDefault(fields[i], slots[i]);
      }
      assert slots == Defaults(fields);
    }
  }

  /** A single value without a has_ flag is left out exactly when it is zero, but for zeros of a fixed length. */
  lemma LeftOutIff(f: Field, v: Value)
    requires SchemaField(f) && f.rule.Implicit? && !f.ltype.Submessage? && ValidValue(f.ltype, v)
    ensures EncodeSlot(f, One(v)) == [] <==>
            match f.ltype
            case ByteArray(_) => v == Octets([])
            case CString(_) => v == Octets([])
            case FixedBytes(size) => size == 0
            case _ => v == Int(0)
  {
    hide EncodeValue, Varint, SchemaField;
    assert ValidSlot(f, One(v)) && |Tag(WireType(f.ltype), f.tag)| >= 1;
    assert EncodeSlot(f, One(v)) == [] <==> IsZeroValue(f.ltype, v);
  }

  lemma {:induction false} FindsOwnTag(fields: Fields, i: nat)
    requires i < |fields| && forall j, k :: 0 <= j < k < |fields| ==> fields[j].tag != fields[k].tag
    ensures Find(fields, fields[i].tag) == Some(i)
  {
    var n := |fields| - 1;
    if i < n { FindsOwnTag(fields[..n], i); }
  }

  /** One round of the decoder's loop over a tag and what belongs to it. */
  lemma LoopStep(fields: Fields, i: nat, wire: nat, payload: Bytes, rest: Bytes, p: Progress, q: Progress)
    requires Schema(fields) && i < |fields| == |p.slots| && |q.slots| == |fields| && wire < 8
    requires DecodeField(fields, i, wire, payload + rest, p) == Some((q, rest))
    ensures DecodeLoop(fields, Tag(wire, fields[i].tag) + payload + rest, p) == DecodeLoop(fields, rest, q)
  {
    hide DecodeField, Varint, Find, DecodeVarint32, Schema, Unknown;
    var key := fields[i].tag * 8 + wire;
    SchemaAt(fields, i);
    Varint32RoundTrip(key, payload + rest);
    FindsOwnTag(fields, i);
    var s := Tag(wire, fields[i].tag) + payload + rest;
    assert s == Varint(key) + (payload + rest);
    assert key / 8 == fields[i].tag && key % 8 == wire;
  }

  lemma SchemaAt(fields: Fields, i: nat)
    requires Schema(fields) && i < |fields|
    ensures SchemaField(fields[i]) && 1 <= fields[i].tag < 0x2000_0000 && SchemaType(fields[i].ltype)
    ensures forall j, k :: 0 <= j < k < |fields| ==> fields[j].tag != fields[k].tag
  {
  }

  /** What has to be seen of the fields in `done`. */
  ghost function SeenOf(fields: Fields, done: set<nat>): (r: set<nat>)
    requires forall k :: k in done ==> k < |fields|
  {
    set k | k in done && fields[k].rule.Required? && RequiredIndex(fields, k) < MAX_REQUIRED :: RequiredIndex(fields, k)
  }

  lemma SeenStep(fields: Fields, done: set<nat>, i: nat)
    requires i < |fields| && forall k :: k in done ==> k < |fields|
    ensures SeenOf(fields, done + {i})
      == SeenOf(fields, done) + if fields[i].rule.Required? && RequiredIndex(fields, i) < MAX_REQUIRED then {RequiredIndex(fields, i)} else {}
  {
    hide RequiredIndex;
  }

  ghost function Known(fields: Fields, slots: seq<Slot>, done: set<nat>): (r: seq<Slot>)
    requires |fields| == |slots|
    ensures |r| == |fields| && forall k :: 0 <= k < |fields| ==> r[k] == if k in done then slots[k] else DefaultSlot(fields[k])
  {
    seq(|fields|, k requires 0 <= k < |fields| => if k in done then slots[k] else DefaultSlot(fields[k]))
  }

  /** `fixed` is the fixed-count array decoded last, if there was one. */
  ghost predicate FixedAmong(fields: Fields, done: set<nat>, fixed: Option<nat>) {
    && (forall k :: k in done ==> k < |fields|)
    && (fixed.Some? ==> fixed.value in done && fixed.value < |fields| && fields[fixed.value].rule.FixedCount?)
  }

  /** The decoder's state when the fields in `done` have been decoded. */
  ghost function After(fields: Fields, slots: seq<Slot>, done: set<nat>, fixed: Option<nat>): (p: Progress)
    requires |fields| == |slots| && FixedAmong(fields, done, fixed)
    ensures |p.slots| == |fields|
  {
    Progress(Known(fields, slots, done), SeenOf(fields, done), fixed, if fixed.Some? then fields[fixed.value].rule.max else 0)
  }

  /** The array decoded last, once field `i` has been decoded too. */
  ghost function FixedNow(fields: Fields, slots: seq<Slot>, i: nat, fixed: Option<nat>): Option<nat>
    requires i < |fields| == |slots|
  {
    if fields[i].rule.FixedCount? && slots[i].Many? && slots[i].values != [] then Some(i) else fixed
  }

  lemma FixedIsComplete(fields: Fields, slots: seq<Slot>, done: set<nat>, fixed: Option<nat>)
    requires |fields| == |slots| && FixedAmong(fields, done, fixed)
    ensures FixedComplete(fields, After(fields, slots, done, fixed))
  {
  }

  /** A field that writes nothing leaves the decoder where it is. */
  lemma NothingWritten(fields: Fields, slots: seq<Slot>, i: nat, done: set<nat>, fixed: Option<nat>)
    requires i < |fields| == |slots| && SchemaField(fields[i]) && ValidSlot(fields[i], slots[i])
    requires EncodeSlot(fields[i], slots[i]) == [] && FixedAmong(fields, done, fixed)
    ensures FixedNow(fields, slots, i, fixed) == fixed && FixedAmong(fields, done + {i}, fixed)
    ensures After(fields, slots, done + {i}, fixed) == After(fields, slots, done, fixed)
  {
    hide EncodeSlot, ValidValue, IsZero, DefaultSlot, SeenOf, SchemaField;
    WritesNothing(fields[i], slots[i]);
    SeenStep(fields, done, i);
    assert SeenOf(fields, done) + {} == SeenOf(fields, done);
    assert Known(fields, slots, done + {i}) == Known(fields, slots, done);
  }

  lemma WritesNothing(f: Field, s: Slot)
    requires SchemaField(f) && ValidSlot(f, s) && EncodeSlot(f, s) == []
    ensures s == DefaultSlot(f) && !f.rule.Required? && (f.rule.FixedCount? ==> f.rule.max == 0)
  {
    hide EncodeValue, IsZero, EncodeEntries, DefaultValue;
    if f.rule.Implicit? {
      assert IsZero(f, s);
      ZeroIsDefault(f, s);
    }
    if s.Many? && s.values != [] {
      assert EncodeSlot(f, s) == EncodeArray(f, s.values);
      EntriesNotEmpty(f, s.values);
    }
  }

  lemma EntriesNotEmpty(f: Field, values: seq<Value>)
    requires values != [] && forall i :: 0 <= i < |values| ==> ValidValue(f.ltype, values[i])
    ensures EncodeArray(f, values) != []
  {
    hide EncodeValue;
  }

  /** The field's decoder undoes its encoder on this value, whatever follows. */
  ghost predicate RoundTrips(f: Field, v: Value)
    requires ValidValue(f.ltype, v)
  {
    forall rest: Bytes :: DecodeValue(f.ltype, EncodeValue(f.ltype, v) + rest, DefaultValue(f)) == Some((v, rest))
  }

  /** What the decoder meets when it comes to field `i`. */
  ghost predicate Ahead(fields: Fields, slots: seq<Slot>, i: nat, done: set<nat>, fixed: Option<nat>) {
    && i < |fields| == |slots| && i !in done && FixedAmong(fields, done, fixed)
    && Schema(fields) && OnePerUnion(fields, slots) && ValidSlot(fields[i], slots[i])
  }

  /** Before its turn, a field can be prepared without touching any other. */
  lemma PreparedAfter(fields: Fields, slots: seq<Slot>, i: nat, done: set<nat>, fixed: Option<nat>)
    requires Ahead(fields, slots, i, done, fixed) && (slots[i].Maybe? ==> slots[i].opt.Some?)
    ensures var p := After(fields, slots, done, fixed);
            var q := Prepared(fields, i, p);
            && q.Some? && q.value.slots == p.slots && q.value.seen == SeenOf(fields, done + {i})
            && (if fields[i].rule.FixedCount? then q.value.fixedField == Some(i) && q.value.fixedSize == 0
                else q.value.fixedField == p.fixedField && q.value.fixedSize == p.fixedSize)
  {
    hide ValidValue, Schema, SeenOf;
    var p := After(fields, slots, done, fixed);
    FixedIsComplete(fields, slots, done, fixed);
    SeenStep(fields, done, i);
    assert p.seen + {} == p.seen;
    if fields[i].rule.OneOf? {
      assert slots[i] != Maybe(None);
      assert forall k :: 0 <= k < i && fields[k].rule == fields[i].rule ==> slots[k] == Maybe(None);
      assert forall k :: i < k < |fields| && fields[k].rule == fields[i].rule ==> slots[k] == Maybe(None);
      assert forall k :: 0 <= k < |fields| && fields[k].rule == fields[i].rule ==> DefaultSlot(fields[k]) == Maybe(None);
    }
    assert p.slots[i := Many([])] == p.slots || !fields[i].rule.FixedCount?;
  }

  lemma KnownStep(fields: Fields, slots: seq<Slot>, i: nat, done: set<nat>)
    requires i < |fields| == |slots| && i !in done
    ensures Known(fields, slots, done)[i := slots[i]] == Known(fields, slots, done + {i})
    ensures Known(fields, slots, done)[i] == DefaultSlot(fields[i])
  {
  }

  /** A field with a single value. */
  lemma SingleStep(fields: Fields, slots: seq<Slot>, i: nat, done: set<nat>, fixed: Option<nat>, v: Value, rest: Bytes)
    requires Ahead(fields, slots, i, done, fixed)
    requires slots[i] == One(v) || slots[i] == Maybe(Some(v))
    requires ValidValue(fields[i].ltype, v) && RoundTrips(fields[i], v)
    ensures DecodeLoop(fields, Tag(WireType(fields[i].ltype), fields[i].tag) + EncodeValue(fields[i].ltype, v) + rest,
                       After(fields, slots, done, fixed))
      == DecodeLoop(fields, rest, After(fields, slots, done + {i}, fixed))
  {
    hide EncodeValue, DecodeValue, DecodeLoop, Tag, Schema, ValidValue, WireType, SeenOf, Prepared, OnePerUnion;
    var f, p, q := fields[i], After(fields, slots, done, fixed), After(fields, slots, done + {i}, fixed);
    var payload := EncodeValue(f.ltype, v);
    PreparedAfter(fields, slots, i, done, fixed);
    KnownStep(fields, slots, i, done);
    SingleSlot(f, slots[i], v, rest, WireType(f.ltype));
    assert DecodeField(fields, i, WireType(f.ltype), payload + rest, p) == Some((q, rest));
    LoopStep(fields, i, WireType(f.ltype), payload, rest, p, q);
  }

  lemma SingleSlot(f: Field, s: Slot, v: Value, rest: Bytes, wire: nat)
    requires ValidSlot(f, s) && (s == One(v) || s == Maybe(Some(v))) && ValidValue(f.ltype, v) && RoundTrips(f, v)
    ensures DecodeSlot(f, wire, EncodeValue(f.ltype, v) + rest, DefaultSlot(f)) == Some((s, rest))
    ensures !f.rule.FixedCount?
  {
    hide EncodeValue, DecodeValue, ValidValue, DefaultValue;
  }

  /** A packed array comes back entry by entry. */
  lemma {:induction false} PackedRoundTrip(f: Field, values: seq<Value>, k: nat, max: nat)
    requires k <= |values| <= max && forall j :: 0 <= j < |values| ==> ValidValue(f.ltype, values[j]) && RoundTrips(f, values[j])
    ensures DecodePacked(f, EncodeEntries(f, values, k, true), values[..k], max) == Some(values)
    decreases |values| - k
  {
    hide EncodeValue, DecodeValue, ValidValue, DefaultValue, RoundTrips;
    if k == |values| {
      assert values[..k] == values;
    } else {
      var rest := EncodeEntries(f, values, k + 1, true);
      PackedRoundTrip(f, values, k + 1, max);
      Instance(f, values[k], rest);
      assert EncodeEntries(f, values, k, true) == EncodeValue(f.ltype, values[k]) + rest;
      assert values[..k] + [values[k]] == values[..k + 1];
    }
  }

  lemma Instance(f: Field, v: Value, rest: Bytes)
    requires ValidValue(f.ltype, v) && RoundTrips(f, v)
    ensures DecodeValue(f.ltype, EncodeValue(f.ltype, v) + rest, DefaultValue(f)) == Some((v, rest))
    ensures EncodeValue(f.ltype, v) + rest != []
  {
    hide EncodeValue, DecodeValue, ValidValue, DefaultValue;
  }

  lemma PackedStep(fields: Fields, slots: seq<Slot>, i: nat, done: set<nat>, fixed: Option<nat>, rest: Bytes)
    requires Ahead(fields, slots, i, done, fixed)
    requires slots[i].Many? && slots[i].values != [] && Packable(fields[i].ltype)
    requires forall j :: 0 <= j < |slots[i].values| ==>
               ValidValue(fields[i].ltype, slots[i].values[j]) && RoundTrips(fields[i], slots[i].values[j])
    requires |EncodeEntries(fields[i], slots[i].values, 0, true)| <= MAX32
    ensures FixedAmong(fields, done + {i}, FixedNow(fields, slots, i, fixed))
    ensures DecodeLoop(fields, EncodeSlot(fields[i], slots[i]) + rest, After(fields, slots, done, fixed))
      == DecodeLoop(fields, rest, After(fields, slots, done + {i}, FixedNow(fields, slots, i, fixed)))
  {
    hide EncodeValue, DecodeValue, DecodeLoop, Tag, Schema, ValidValue, RoundTrips, SeenOf, Prepared, OnePerUnion, EncodeEntries, DecodePacked, TakeString, Prefixed, DefaultValue;
    var f, values, p := fields[i], slots[i].values, After(fields, slots, done, fixed);
    var q := After(fields, slots, done + {i}, FixedNow(fields, slots, i, fixed));
    var data := EncodeEntries(f, values, 0, true);
    PreparedAfter(fields, slots, i, done, fixed);
    KnownStep(fields, slots, i, done);
    StringRoundTrip(data, rest);
    assert values[..0] == [];
    PackedRoundTrip(f, values, 0, f.rule.max);
    assert DecodeField(fields, i, WT_STRING, Prefixed(data) + rest, p) == Some((q, rest));
    LoopStep(fields, i, WT_STRING, Prefixed(data), rest, p, q);
    assert EncodeSlot(f, slots[i]) == Tag(WT_STRING, f.tag) + Prefixed(data);
  }

  // ---- Unpacked arrays ----

  /** The decoder's state when `k` entries of field `i` have been decoded. */
  ghost function Within(fields: Fields, slots: seq<Slot>, i: nat, done: set<nat>, fixed: Option<nat>, k: nat): (p: Progress)
    requires i < |fields| == |slots| && slots[i].Many? && k <= |slots[i].values| && FixedAmong(fields, done, fixed)
    ensures |p.slots| == |fields|
  {
    var p := After(fields, slots, done, fixed);
    if k == 0 then p
    else p.(slots := p.slots[i := Many(slots[i].values[..k])], seen := SeenOf(fields, done + {i}),
            fixedField := if fields[i].rule.FixedCount? then Some(i) else fixed,
            fixedSize := if fields[i].rule.FixedCount? then k else p.fixedSize)
  }

  lemma EntryStep(fields: Fields, slots: seq<Slot>, i: nat, done: set<nat>, fixed: Option<nat>, k: nat, rest: Bytes)
    requires Ahead(fields, slots, i, done, fixed)
    requires slots[i].Many? && k < |slots[i].values|
    requires ValidValue(fields[i].ltype, slots[i].values[k]) && RoundTrips(fields[i], slots[i].values[k])
    ensures DecodeLoop(fields, Tag(WireType(fields[i].ltype), fields[i].tag) + EncodeValue(fields[i].ltype, slots[i].values[k]) + rest,
                       Within(fields, slots, i, done, fixed, k))
      == DecodeLoop(fields, rest, Within(fields, slots, i, done, fixed, k + 1))
  {
    hide EncodeValue, DecodeValue, DecodeLoop, Tag, Schema, ValidValue, RoundTrips, SeenOf, OnePerUnion, DecodePacked, TakeString, DefaultValue, WireType, Packable, Prepared, DecodeSlot;
    var f, values := fields[i], slots[i].values;
    var p, q := Within(fields, slots, i, done, fixed, k), Within(fields, slots, i, done, fixed, k + 1);
    var payload := EncodeValue(f.ltype, values[k]);
    Instance(f, values[k], rest);
    KnownStep(fields, slots, i, done);
    EntryPrepared(fields, slots, i, done, fixed, k);
    EntrySlot(f, slots[i], k, rest);
    assert p.slots[i := Many(values[..k + 1])] == q.slots;
    assert DecodeField(fields, i, WireType(f.ltype), payload + rest, p) == Some((q, rest));
    LoopStep(fields, i, WireType(f.ltype), payload, rest, p, q);
  }

  lemma EntrySlot(f: Field, s: Slot, k: nat, rest: Bytes)
    requires ValidSlot(f, s) && s.Many? && k < |s.values|
    requires ValidValue(f.ltype, s.values[k]) && RoundTrips(f, s.values[k])
    ensures DecodeSlot(f, WireType(f.ltype), EncodeValue(f.ltype, s.values[k]) + rest, Many(s.values[..k]))
      == Some((Many(s.values[..k + 1]), rest))
  {
    hide EncodeValue, DecodeValue, ValidValue, DefaultValue, RoundTrips;
    Instance(f, s.values[k], rest);
    assert s.values[..k] + [s.values[k]] == s.values[..k + 1];
  }

  lemma EntryPrepared(fields: Fields, slots: seq<Slot>, i: nat, done: set<nat>, fixed: Option<nat>, k: nat)
    requires Ahead(fields, slots, i, done, fixed) && slots[i].Many? && k < |slots[i].values|
    ensures var p := Within(fields, slots, i, done, fixed, k);
            var r := Prepared(fields, i, p);
            && r.Some? && r.value.slots == p.slots && r.value.seen == SeenOf(fields, done + {i})
            && r.value.slots[i] == Many(slots[i].values[..k])
            && (if fields[i].rule.FixedCount? then r.value.fixedField == Some(i) && r.value.fixedSize == k
                else r.value.fixedField == fixed && r.value.fixedSize == After(fields, slots, done, fixed).fixedSize)
  {
    hide ValidValue, Schema, SeenOf;
    if k == 0 {
      PreparedAfter(fields, slots, i, done, fixed);
      KnownStep(fields, slots, i, done);
    }
  }

  /** All entries from entry `k` on. */
  lemma {:induction false} EntriesStep(fields: Fields, slots: seq<Slot>, i: nat, done: set<nat>, fixed: Option<nat>, k: nat, rest: Bytes)
    requires Ahead(fields, slots, i, done, fixed)
    requires slots[i].Many? && k <= |slots[i].values|
    requires forall j :: 0 <= j < |slots[i].values| ==>
               ValidValue(fields[i].ltype, slots[i].values[j]) && RoundTrips(fields[i], slots[i].values[j])
    ensures DecodeLoop(fields, EncodeEntries(fields[i], slots[i].values, k, false) + rest, Within(fields, slots, i, done, fixed, k))
      == DecodeLoop(fields, rest, Within(fields, slots, i, done, fixed, |slots[i].values|))
    decreases |slots[i].values| - k
  {
    hide EncodeValue, DecodeValue, DecodeLoop, Tag, Schema, ValidValue, RoundTrips, SeenOf, OnePerUnion, Within;
    var f, values := fields[i], slots[i].values;
    if k == |values| {
      assert EncodeEntries(f, values, k, false) + rest == rest;
    } else {
      var more := EncodeEntries(f, values, k + 1, false) + rest;
      EntryStep(fields, slots, i, done, fixed, k, more);
      EntriesStep(fields, slots, i, done, fixed, k + 1, rest);
      assert EncodeEntries(f, values, k, false) + rest == Tag(WireType(f.ltype), f.tag) + EncodeValue(f.ltype, values[k]) + more;
    }
  }

  lemma UnpackedStep(fields: Fields, slots: seq<Slot>, i: nat, done: set<nat>, fixed: Option<nat>, rest: Bytes)
    requires Ahead(fields, slots, i, done, fixed)
    requires slots[i].Many? && slots[i].values != [] && !Packable(fields[i].ltype)
    requires forall j :: 0 <= j < |slots[i].values| ==>
               ValidValue(fields[i].ltype, slots[i].values[j]) && RoundTrips(fields[i], slots[i].values[j])
    ensures FixedAmong(fields, done + {i}, FixedNow(fields, slots, i, fixed))
    ensures DecodeLoop(fields, EncodeSlot(fields[i], slots[i]) + rest, After(fields, slots, done, fixed))
      == DecodeLoop(fields, rest, After(fields, slots, done + {i}, FixedNow(fields, slots, i, fixed)))
  {
    hide EncodeValue, DecodeLoop, Schema, ValidValue, RoundTrips, OnePerUnion, EncodeEntries, SeenOf;
    var values := slots[i].values;
    EntriesStep(fields, slots, i, done, fixed, 0, rest);
    KnownStep(fields, slots, i, done);
    assert values[..|values|] == values;
    assert Within(fields, slots, i, done, fixed, |values|) == After(fields, slots, done + {i}, FixedNow(fields, slots, i, fixed));
  }

  // ---- Whole messages ----

  /** Each value of a slot is undone by its decoder. */
  ghost predicate SlotRoundTrips(f: Field, s: Slot)
    requires ValidSlot(f, s)
  {
    match s
    case One(v) => RoundTrips(f, v)
    case Maybe(opt) => opt.Some? ==> RoundTrips(f, opt.value)
    case Many(values) => forall j :: 0 <= j < |values| ==> ValidValue(f.ltype, values[j]) && RoundTrips(f, values[j])
  }

  ghost predicate Undone(f: Field, s: Slot)
    requires ValidSlot(f, s)
  {
    EncodeSlot(f, s) != [] ==> SlotRoundTrips(f, s)
  }

  lemma FieldStep(fields: Fields, slots: seq<Slot>, i: nat, done: set<nat>, fixed: Option<nat>, rest: Bytes)
    requires Ahead(fields, slots, i, done, fixed) && Undone(fields[i], slots[i]) && |EncodeSlot(fields[i], slots[i])| <= MAX32
    ensures FixedAmong(fields, done + {i}, FixedNow(fields, slots, i, fixed))
    ensures DecodeLoop(fields, EncodeSlot(fields[i], slots[i]) + rest, After(fields, slots, done, fixed))
      == DecodeLoop(fields, rest, After(fields, slots, done + {i}, FixedNow(fields, slots, i, fixed)))
  {
    hide EncodeValue, DecodeLoop, Schema, ValidValue, RoundTrips, OnePerUnion, EncodeEntries, After, Tag, IsZero;
    var f, s := fields[i], slots[i];
    SchemaAt(fields, i);
    if EncodeSlot(f, s) == [] {
      NothingWritten(fields, slots, i, done, fixed);
      assert [] + rest == rest;
    } else if s.Many? {
      if Packable(f.ltype) {
        assert |EncodeEntries(f, s.values, 0, true)| <= |EncodeSlot(f, s)|;
        PackedStep(fields, slots, i, done, fixed, rest);
      } else {
        UnpackedStep(fields, slots, i, done, fixed, rest);
      }
    } else {
      SingleStep(fields, slots, i, done, fixed, if s.One? then s.value else s.opt.value, rest);
    }
  }

  /** A packable array is also read from entries with a tag each, as writers that do not pack send it. */
  lemma UnpackedAccepted(f: Field, values: seq<Value>)
    requires SchemaField(f) && Packable(f.ltype) && f.rule.Repeated? && ValidSlot(f, Many(values))
    ensures DecodeMessage([f], EncodeEntries(f, values, 0, false), Defaults([f])) == Some([Many(values)])
  {
    hide EncodeValue, DecodeLoop, DecodeValue, RoundTrips, EncodeEntries, SeenOf, ValidValue, SchemaField;
    var fields, slots := [f], [Many(values)];
    SchemaSingle(f);
    assert OnePerUnion(fields, slots);
    forall j | 0 <= j < |values|
      ensures ValidValue(f.ltype, values[j]) && RoundTrips(f, values[j])
    {
      NumberFits(f.ltype, values[j]);
      RoundTripsAll(f, values[j]);
    }
    EntriesStep(fields, slots, 0, {}, None, 0, []);
    var data := EncodeEntries(f, values, 0, false);
    assert data + [] == data;
    NothingSent(fields, slots);
    var p := Within(fields, slots, 0, {}, None, |values|);
    assert values[..|values|] == values;
    assert DecodeLoop(fields, [], p) == Some(p) by { LoopEnds(fields, p); }
    assert p.slots == slots;
  }

  lemma SchemaSingle(f: Field)
    requires SchemaField(f)
    ensures Schema([f])
  {
    hide SchemaField;
  }

  lemma LoopEnds(fields: Fields, p: Progress)
    requires |p.slots| == |fields|
    ensures DecodeLoop(fields, [], p) == Some(p)
  {
  }

  lemma NumberFits(t: LType, v: Value)
    requires Packable(t) && ValidValue(t, v)
    ensures |EncodeValue(t, v)| <= MAX32
  {
    hide Varint, Fixed;
    Power128At10();
    match t
    case Bool => VarintFits(v.n, 10);
    case VarInt(_) => VarintFits(Unsigned(v.n), 10);
    case UVarInt(_) => VarintFits(v.n, 10);
    case SVarInt(_) => VarintFits(ZigZag(v.n), 10);
    case _ =>
  }

  // ---- Writers and readers with different schemas ----

  /** What the two sides know by the same number, they know as the same field. */
  ghost predicate Agree(writer: Fields, reader: Fields) {
    forall i, j :: 0 <= i < |writer| && 0 <= j < |reader| && writer[i].tag == reader[j].tag ==> writer[i] == reader[j]
  }

  /** What the reader gets of the writer's fields: those it knows, and defaults for those the writer does not know. */
  ghost function Received(writer: Fields, slots: seq<Slot>, reader: Fields): (r: seq<Slot>)
    requires |writer| == |slots|
    ensures |r| == |reader|
    ensures forall i, j :: 0 <= i < |writer| && 0 <= j < |reader| && writer[i].tag == reader[j].tag && Schema(writer) ==> r[j] == slots[i]
    ensures forall j :: 0 <= j < |reader| && (forall i :: 0 <= i < |writer| ==> writer[i].tag != reader[j].tag) ==> r[j] == DefaultSlot(reader[j])
  {
    seq(|reader|, j requires 0 <= j < |reader| =>
      var i := Find(writer, reader[j].tag);
      if i.Some? then slots[i.value] else DefaultSlot(reader[j]))
  }

  /** The reader's fields among the writer's first `i`. */
  ghost function Sent(writer: Fields, reader: Fields, i: nat): (done: set<nat>)
    requires i <= |writer|
    ensures forall j :: j in done <==> 0 <= j < |reader| && exists k :: 0 <= k < i && writer[k].tag == reader[j].tag
  {
    set j | 0 <= j < |reader| && exists k :: 0 <= k < i && writer[k].tag == reader[j].tag
  }

  /** pb_skip_field passes over exactly one value of its wire type. */
  lemma SkipsValue(t: LType, v: Value, rest: Bytes)
    requires ValidValue(t, v) && |EncodeValue(t, v)| <= MAX32
    ensures SkipField(WireType(t), EncodeValue(t, v) + rest) == Some(rest)
  {
    hide Varint, Fixed, DecodeVarint32, EncodeFrom, ValidStruct, TakeString, SkipVarint;
    match t
    case Bool => SkipsVarint(v.n, rest);
    case VarInt(_) => SkipsVarint(Unsigned(v.n), rest);
    case UVarInt(_) => SkipsVarint(v.n, rest);
    case SVarInt(_) => SkipsVarint(ZigZag(v.n), rest);
    case Fixed32Bit => FixedValueRoundTrip(v.n, 4, rest);
    case Fixed64Bit => FixedValueRoundTrip(v.n, 8, rest);
    case ByteArray(_) => StringRoundTrip(v.bytes, rest);
    case CString(_) => StringRoundTrip(v.bytes, rest);
    case FixedBytes(_) => StringRoundTrip(v.bytes, rest);
    case Submessage(fields) => StringRoundTrip(EncodeFrom(fields, v.slots, 0), rest);
  }

  lemma {:induction false} SkipsVarint(v: nat, rest: Bytes)
    ensures SkipVarint(Varint(v) + rest) == Some(rest)
  {
    var s := Varint(v) + rest;
    if v < 128 {
      assert s[1..] == rest;
    } else {
      SkipsVarint(v / 128, rest);
      assert s[1..] == Varint(v / 128) + rest;
    }
  }

  /** One round of the decoder's loop over a tag that names no field. */
  lemma SkipStep(fields: Fields, tag: nat, wire: nat, payload: Bytes, rest: Bytes, p: Progress)
    requires |p.slots| == |fields| && 1 <= tag < 0x2000_0000 && wire < 8
    requires (forall i :: 0 <= i < |fields| ==> fields[i].tag != tag) && SkipField(wire, payload + rest) == Some(rest)
    ensures DecodeLoop(fields, Tag(wire, tag) + payload + rest, p) == DecodeLoop(fields, rest, p)
  {
    hide DecodeLoop, Varint, DecodeVarint32, SkipField;
    var key := tag * 8 + wire;
    Varint32RoundTrip(key, payload + rest);
    var s := Tag(wire, tag) + payload + rest;
    assert s == Varint(key) + (payload + rest);
    assert key / 8 == tag && key % 8 == wire;
    LoopUnknown(fields, s, key, payload + rest, rest, p);
  }

  lemma LoopUnknown(fields: Fields, s: Bytes, key: nat, payload: Bytes, rest: Bytes, p: Progress)
    requires |p.slots| == |fields| && DecodeVarint32(s) == Some((key, payload)) && key >= 8
    requires (forall i :: 0 <= i < |fields| ==> fields[i].tag != key / 8) && SkipField(key % 8, payload) == Some(rest)
    ensures DecodeLoop(fields, s, p) == DecodeLoop(fields, rest, p)
  {
    hide DecodeField, Find, DecodeVarint32, SkipField;
    assert Find(fields, key / 8) == None;
  }

  lemma {:induction false} SkipEntries(fields: Fields, f: Field, values: seq<Value>, k: nat, rest: Bytes, p: Progress)
    requires |p.slots| == |fields| && 1 <= f.tag < 0x2000_0000 && (forall i :: 0 <= i < |fields| ==> fields[i].tag != f.tag)
    requires k <= |values| && forall i :: 0 <= i < |values| ==> ValidValue(f.ltype, values[i])
    requires |EncodeEntries(f, values, k, false)| <= MAX32
    ensures DecodeLoop(fields, EncodeEntries(f, values, k, false) + rest, p) == DecodeLoop(fields, rest, p)
    decreases |values| - k
  {
    hide EncodeValue, DecodeLoop, Tag, ValidValue, SkipField;
    if k == |values| {
      assert EncodeEntries(f, values, k, false) + rest == rest;
    } else {
      var more := EncodeEntries(f, values, k + 1, false) + rest;
      var wire, payload := WireType(f.ltype), EncodeValue(f.ltype, values[k]);
      assert EncodeEntries(f, values, k, false) + rest == Tag(wire, f.tag) + payload + more;
      SkipsValue(f.ltype, values[k], more);
      SkipStep(fields, f.tag, wire, payload, more, p);
      SkipEntries(fields, f, values, k + 1, rest, p);
    }
  }

  /** A field the reader does not know is passed over, whatever its type and rule. */
  lemma SkipsSlot(fields: Fields, f: Field, s: Slot, rest: Bytes, p: Progress)
    requires |p.slots| == |fields| && 1 <= f.tag < 0x2000_0000 && (forall i :: 0 <= i < |fields| ==> fields[i].tag != f.tag)
    requires ValidSlot(f, s) && |EncodeSlot(f, s)| <= MAX32
    ensures DecodeLoop(fields, EncodeSlot(f, s) + rest, p) == DecodeLoop(fields, rest, p)
  {
    hide EncodeValue, DecodeLoop, Tag, ValidValue, SkipField, EncodeEntries, IsZero, Prefixed;
    if EncodeSlot(f, s) == [] {
      assert [] + rest == rest;
    } else if s.Many? {
      if Packable(f.ltype) {
        var data := EncodeEntries(f, s.values, 0, true);
        PrefixedLonger(data);
        StringRoundTrip(data, rest);
        assert SkipField(WT_STRING, Prefixed(data) + rest) == Some(rest) by { SkipsString(Prefixed(data) + rest); }
        SkipStep(fields, f.tag, WT_STRING, Prefixed(data), rest, p);
      } else {
        SkipEntries(fields, f, s.values, 0, rest, p);
      }
    } else {
      var v := if s.One? then s.value else s.opt.value;
      SkipsValue(f.ltype, v, rest);
      SkipStep(fields, f.tag, WireType(f.ltype), EncodeValue(f.ltype, v), rest, p);
    }
  }

  lemma PrefixedLonger(data: Bytes)
    ensures |Prefixed(data)| >= |data|
  {
  }

  lemma SkipsString(s: Bytes)
    ensures SkipField(WT_STRING, s) == match TakeString(s) case None => None case Some((_, rest)) => Some(rest)
  {
  }

  /** The reader's loop over the writer's fields from `i` on. */
  lemma {:induction false} FieldsFrom(writer: Fields, slots: seq<Slot>, reader: Fields, i: nat, fixed: Option<nat>) returns (last: Option<nat>)
    requires Schema(writer) && Schema(reader) && Agree(writer, reader) && ValidStruct(writer, slots) && i <= |writer| == |slots|
    requires forall j :: 0 <= j < |writer| ==> ValidSlot(writer[j], slots[j]) && Undone(writer[j], slots[j])
    requires |EncodeFrom(writer, slots, i)| <= MAX32
    requires FixedAmong(reader, Sent(writer, reader, i), fixed)
    ensures FixedAmong(reader, Sent(writer, reader, |writer|), last)
    ensures var received := Received(writer, slots, reader);
            DecodeLoop(reader, EncodeFrom(writer, slots, i), After(reader, received, Sent(writer, reader, i), fixed))
            == Some(After(reader, received, Sent(writer, reader, |writer|), last))
    decreases |writer| - i
  {
    hide EncodeSlot, Schema, Undone, ValidStruct, After, DecodeField, ValidSlot, Received, OnePerUnion, Agree, FixedAmong;
    if i == |writer| {
      last := fixed;
    } else {
      var received, done := Received(writer, slots, reader), Sent(writer, reader, i);
      var rest := EncodeFrom(writer, slots, i + 1);
      UnionOf(writer, slots);
      ReceivedUnion(writer, slots, reader);
      SchemaAt(writer, i);
      if j :| 0 <= j < |reader| && writer[i].tag == reader[j].tag {
        SentOnce(writer, reader, i, j);
        ReceivedAt(writer, slots, reader, i, j);
        FieldStep(reader, received, j, done, fixed, rest);
        last := FieldsFrom(writer, slots, reader, i + 1, FixedNow(reader, received, j, fixed));
      } else {
        assert Sent(writer, reader, i + 1) == done;
        SkipsSlot(reader, writer[i], slots[i], rest, After(reader, received, done, fixed));
        last := FieldsFrom(writer, slots, reader, i + 1, fixed);
      }
    }
  }

  lemma UnionOf(fields: Fields, slots: seq<Slot>)
    requires ValidStruct(fields, slots)
    ensures |fields| == |slots| && OnePerUnion(fields, slots)
  {
    hide OnePerUnion;
  }

  lemma ReceivedAt(writer: Fields, slots: seq<Slot>, reader: Fields, i: nat, j: nat)
    requires Schema(writer) && Agree(writer, reader) && i < |writer| == |slots| && j < |reader| && writer[i].tag == reader[j].tag
    ensures Received(writer, slots, reader)[j] == slots[i] && reader[j] == writer[i]
  {
    hide Schema;
  }

  lemma ReceivedUnion(writer: Fields, slots: seq<Slot>, reader: Fields)
    requires Schema(writer) && Schema(reader) && Agree(writer, reader) && |writer| == |slots| && OnePerUnion(writer, slots)
    ensures OnePerUnion(reader, Received(writer, slots, reader))
  {
    hide Received, Schema;
    var r := Received(writer, slots, reader);
    forall i, j | 0 <= i < j < |reader| && reader[i].rule.OneOf? && reader[i].rule == reader[j].rule
      ensures r[i] == Maybe(None) || r[j] == Maybe(None)
    {
      if a, b :| 0 <= a < |writer| && 0 <= b < |writer| && writer[a].tag == reader[i].tag && writer[b].tag == reader[j].tag {
        SchemaAt(reader, i);
        assert a != b;
        assert r[i] == slots[a] && r[j] == slots[b];
      } else {
        assert DefaultSlot(reader[i]) == Maybe(None) && DefaultSlot(reader[j]) == Maybe(None);
      }
    }
  }

  lemma SentOnce(writer: Fields, reader: Fields, i: nat, j: nat)
    requires Schema(writer) && Schema(reader) && i < |writer| && j < |reader| && writer[i].tag == reader[j].tag
    ensures j !in Sent(writer, reader, i) && Sent(writer, reader, i + 1) == Sent(writer, reader, i) + {j}
  {
    SchemaAt(writer, i);
    SchemaAt(reader, j);
  }

  /** The reader misses no field that it checks for. */
  ghost predicate Complete(reader: Fields, done: set<nat>) {
    forall j :: 0 <= j < |reader| && reader[j].rule.Required? && |set k | 0 <= k < j && reader[k].rule.Required?| < 64 ==> j in done
  }

  lemma {:induction false} RequiredCount(fields: Fields, i: nat)
    requires i <= |fields|
    ensures RequiredIndex(fields, i) == |set k | 0 <= k < i && fields[k].rule.Required?|
  {
    var before := set k | 0 <= k < i && fields[k].rule.Required?;
    if i == 0 {
      assert before == {};
    } else {
      RequiredCount(fields, i - 1);
      assert before == (set k | 0 <= k < i - 1 && fields[k].rule.Required?) + if fields[i - 1].rule.Required? then {i - 1} else {};
    }
  }

  lemma {:induction false} RequiredApart(fields: Fields, i: nat, j: nat)
    requires i < j < |fields| && fields[i].rule.Required?
    ensures RequiredIndex(fields, i) < RequiredIndex(fields, j)
  {
    if i + 1 < j { RequiredApart(fields, i, j - 1); }
  }

  lemma AllSeenIff(reader: Fields, done: set<nat>)
    requires forall k :: k in done ==> k < |reader|
    ensures AllSeen(reader, SeenOf(reader, done)) <==> Complete(reader, done)
  {
    hide RequiredIndex;
    forall j | 0 <= j < |reader| && reader[j].rule.Required?
      ensures RequiredIndex(reader, j) == |set k | 0 <= k < j && reader[k].rule.Required?|
    {
      RequiredCount(reader, j);
    }
    forall j, k | 0 <= j < |reader| && k in done && reader[j].rule.Required? && reader[k].rule.Required? && RequiredIndex(reader, j) == RequiredIndex(reader, k)
      ensures j == k
    {
      if j < k { RequiredApart(reader, j, k); }
      if k < j { RequiredApart(reader, k, j); }
    }
  }

  /** The fields can be undone one by one. */
  lemma {:induction false} AllUndone(fields: Fields, slots: seq<Slot>)
    requires Schema(fields) && ValidStruct(fields, slots) && |EncodeFrom(fields, slots, 0)| <= MAX32
    ensures |fields| == |slots| && forall j :: 0 <= j < |fields| ==> ValidSlot(fields[j], slots[j]) && Undone(fields[j], slots[j])
    decreases fields, 4
  {
    forall j | 0 <= j < |fields|
      ensures ValidSlot(fields[j], slots[j]) && Undone(fields[j], slots[j])
    {
      SlotFits(fields, slots, 0, j);
      SchemaAt(fields, j);
      if EncodeSlot(fields[j], slots[j]) != [] { SlotRoundTrip(fields[j], slots[j]); }
    }
  }

  /**
   The main result: a message of the writer's schema decoded with the reader's, into a structure set
   to its defaults. The fields both know come over, the others are passed over or keep their
   defaults, and decoding fails exactly when one of the reader's first 64 required fields is unknown
   to the writer.
   */
  lemma {:induction false} SchemaEvolution(writer: Fields, slots: seq<Slot>, reader: Fields)
    requires Schema(writer) && Schema(reader) && Agree(writer, reader)
    requires ValidStruct(writer, slots) && |EncodeFrom(writer, slots, 0)| <= MAX32
    ensures DecodeMessage(reader, EncodeFrom(writer, slots, 0), Defaults(reader))
      == if Complete(reader, Sent(writer, reader, |writer|)) then Some(Received(writer, slots, reader)) else None
    decreases writer, 5
  {
    hide Schema, ValidSlot, Undone, EncodeFrom, DecodeLoop, AllSeen, Complete, SeenOf, Received, OnePerUnion;
    AllUndone(writer, slots);
    var received, done := Received(writer, slots, reader), Sent(writer, reader, |writer|);
    assert Sent(writer, reader, 0) == {};
    var last := FieldsFrom(writer, slots, reader, 0, None);
    NothingSent(reader, received);
    FixedIsComplete(reader, received, done, last);
    AllSeenIff(reader, done);
    AllReceived(writer, slots, reader);
  }

  lemma NothingSent(reader: Fields, slots: seq<Slot>)
    requires |reader| == |slots|
    ensures After(reader, slots, {}, None) == Progress(Defaults(reader), {}, None, 0)
  {
    assert Known(reader, slots, {}) == Defaults(reader);
  }

  lemma AllReceived(writer: Fields, slots: seq<Slot>, reader: Fields)
    requires |writer| == |slots|
    ensures Known(reader, Received(writer, slots, reader), Sent(writer, reader, |writer|)) == Received(writer, slots, reader)
  {
    hide Received, DefaultSlot;
  }

  lemma {:induction false} ValueRoundTrip(t: LType, v: Value, rest: Bytes, was: Value)
    requires ValidValue(t, v) && SchemaType(t) && |EncodeValue(t, v)| <= MAX32
    requires t.Submessage? ==> was == Struct(Defaults(t.fields))
    ensures DecodeValue(t, EncodeValue(t, v) + rest, was) == Some((v, rest))
    decreases t, 1
  {
    hide Varint, Fixed, FromFixed, DecodeVarint64, DecodeVarint32, TakeString, UpToNul, Signed, Unsigned, ZigZag, UnZigZag, Schema, ValidStruct, DecodeMessage, EncodeFrom;
    match t
    case Bool => Varint32RoundTrip(v.n, rest);
    case VarInt(size) =>
      SignedRoundTrip(v.n, size);
      Varint64RoundTrip(Unsigned(v.n), rest);
    case UVarInt(size) => Varint64RoundTrip(v.n, rest);
    case SVarInt(size) =>
      SignedRoundTrip(v.n, size);
      Varint64RoundTrip(ZigZag(v.n), rest);
    case Fixed32Bit => FixedValueRoundTrip(v.n, 4, rest);
    case Fixed64Bit => FixedValueRoundTrip(v.n, 8, rest);
    case ByteArray(_) => StringRoundTrip(v.bytes, rest);
    case CString(_) =>
      StringRoundTrip(v.bytes, rest);
      NoNul(v.bytes);
    case FixedBytes(size) =>
      StringRoundTrip(v.bytes, rest);
      assert v.bytes == [] ==> Zeros(size) == [];
    case Submessage(fields) =>
      StringRoundTrip(EncodeFrom(fields, v.slots, 0), rest);
      MessageRoundTrip(fields, v.slots);
  }


  /** Nothing that is written for one value is longer than what is written for the message. */
  lemma {:induction false} SlotFits(fields: Fields, slots: seq<Slot>, i: nat, j: nat)
    requires ValidStruct(fields, slots) && i <= j < |fields| && ValidSlot(fields[j], slots[j])
    ensures |EncodeSlot(fields[j], slots[j])| <= |EncodeFrom(fields, slots, i)|
    decreases j - i
  {
    hide EncodeSlot;
    if i < j { SlotFits(fields, slots, i + 1, j); }
  }

  lemma {:induction false} EntryFits(f: Field, values: seq<Value>, k: nat, j: nat, packed: bool)
    requires k <= j < |values| && forall i :: 0 <= i < |values| ==> ValidValue(f.ltype, values[i])
    ensures |EncodeValue(f.ltype, values[j])| <= |EncodeEntries(f, values, k, packed)|
    decreases j - k
  {
    hide EncodeValue;
    if k < j { EntryFits(f, values, k + 1, j, packed); }
  }

  /** Writer and reader of one schema: decoding an encoded message into a cleared structure gives it back. */
  lemma {:induction false} MessageRoundTrip(fields: Fields, slots: seq<Slot>)
    requires Schema(fields) && ValidStruct(fields, slots) && |EncodeFrom(fields, slots, 0)| <= MAX32
    ensures DecodeMessage(fields, EncodeFrom(fields, slots, 0), Defaults(fields)) == Some(slots)
    decreases fields, 6
  {
    hide ValidSlot, OnePerUnion, DecodeMessage, EncodeFrom, Received;
    forall i | 0 <= i < |fields|
      ensures fields[i] == fields[i]
      ensures forall j :: 0 <= j < |fields| && fields[i].tag == fields[j].tag ==> i == j
    {
      SchemaAt(fields, i);
    }
    SchemaEvolution(fields, slots, fields);
    assert Received(fields, slots, fields) == slots;
    assert Complete(fields, Sent(fields, fields, |fields|));
  }

  lemma {:induction false} SlotRoundTrip(f: Field, s: Slot)
    requires SchemaField(f) && ValidSlot(f, s) && EncodeSlot(f, s) != [] && |EncodeSlot(f, s)| <= MAX32
    ensures SlotRoundTrips(f, s)
    decreases f, 3
  {
    hide EncodeValue, DecodeValue, RoundTrips, Schema, EncodeEntries, Tag;
    match s {
      case One(v) => RoundTripsAll(f, v);
      case Maybe(opt) => if opt.Some? { RoundTripsAll(f, opt.value); }
      case Many(values) =>
        forall j | 0 <= j < |values|
          ensures RoundTrips(f, values[j])
        {
          EntryFits(f, values, 0, j, Packable(f.ltype));
          RoundTripsAll(f, values[j]);
        }
    }
  }

  lemma {:induction false} RoundTripsAll(f: Field, v: Value)
    requires SchemaField(f) && ValidValue(f.ltype, v) && |EncodeValue(f.ltype, v)| <= MAX32
    ensures RoundTrips(f, v)
    decreases f, 2
  {
    hide EncodeValue, DecodeValue, ValidValue, Schema;
    forall rest: Bytes
      ensures DecodeValue(f.ltype, EncodeValue(f.ltype, v) + rest, DefaultValue(f)) == Some((v, rest))
    {
      ValueRoundTrip(f.ltype, v, rest, DefaultValue(f));
    }
  }

  // ---- The bytes themselves ----

  /** On the wire: 150 as a varint in field 1, -2 in zigzag in field 3, true in field 16. */
  lemma VarintsOnTheWire()
    ensures EncodeSlot(Field(1, UVarInt(4), Required, None), One(Int(150))) == [0x08, 0x96, 0x01]
    ensures EncodeSlot(Field(3, SVarInt(4), Required, None), One(Int(-2))) == [0x18, 0x03]
    ensures EncodeSlot(Field(16, Bool, Required, None), One(Int(1))) == [0x80, 0x01, 0x01]
  {
    hide Fixed, Prefixed;
    assert Varint(150) == [0x96, 0x01] && Varint(128) == [0x80, 0x01];
  }

  /** -1 as an unsigned 64-bit number in field 7. */
  lemma NegativeOnTheWire()
    ensures EncodeSlot(Field(7, VarInt(4), Optional, None), Maybe(Some(Int(-1))))
      == [0x38] + [0xFF, 0xFF, 0xFF, 0xFF, 0xFF, 0xFF, 0xFF, 0xFF, 0xFF, 0x01]
  {
    hide Varint;
    var v := Unsigned(-1);
    Groups(v);
    assert Varint(v)[..5] == [0xFF, 0xFF, 0xFF, 0xFF, 0xFF] by { FirstGroups(v); }
    assert Varint(v) == Varint(v)[..5] + Varint(v)[5..];
    assert Tag(WT_VARINT, 7) == [0x38] by { OneGroup(56); }
  }

  lemma FirstGroups(v: nat)
    requires v == TWO64 - 1
    ensures |Varint(v)| >= 5 && Varint(v)[..5] == [0xFF, 0xFF, 0xFF, 0xFF, 0xFF]
  {
    hide Varint;
    OneGroup(v);
    OneGroup(v / 128);
    OneGroup(v / 128 / 128);
    OneGroup(v / 128 / 128 / 128);
    OneGroup(v / 128 / 128 / 128 / 128);
  }

  /** Numbers of 4 and 8 bytes, low byte first, in fields 4 and 5. */
  lemma FixedOnTheWire()
    ensures EncodeSlot(Field(4, Fixed32Bit, Required, None), One(Int(0x0403_0201))) == [0x25] + [1, 2, 3, 4]
    ensures EncodeSlot(Field(5, Fixed64Bit, Required, None), One(Int(7))) == [0x29] + [7, 0, 0, 0, 0, 0, 0, 0]
  {
    hide Prefixed, Fixed, Varint;
    OneGroup(4 * 8 + 5);
    OneGroup(5 * 8 + 1);
    LowFour(0x0403_0201);
    LowFour(0);
    SplitFixed(7);
  }

  lemma LowFour(v: nat)
    requires v < 0x1_0000_0000
    ensures Fixed(v, 4) == [(v % 256) as Keys.byte, (v / 256 % 256) as Keys.byte, (v / 0x1_0000 % 256) as Keys.byte, (v / 0x100_0000) as Keys.byte]
  {
    assert Fixed(v / 0x1_0000, 2) == [(v / 0x1_0000 % 256) as Keys.byte, (v / 0x100_0000) as Keys.byte] by { assert Fixed(v / 0x100_0000 / 256, 0) == []; }
  }

  lemma SplitFixed(v: nat)
    requires v < 256
    ensures Fixed(v, 8) == [v as Keys.byte, 0, 0, 0] + Fixed(0, 4)
  {
    assert Fixed(0, 5) == [0] + Fixed(0, 4);
    assert Fixed(0, 6) == [0] + Fixed(0, 5);
    assert Fixed(0, 7) == [0] + Fixed(0, 6);
  }

  /** The string "hi" in field 2, and 3 and 270 in a packed array in field 6, each with its length in front. */
  lemma StringsOnTheWire()
    ensures EncodeSlot(Field(2, CString(8), Required, None), One(Octets([0x68, 0x69]))) == [0x12, 0x02, 0x68, 0x69]
    ensures EncodeSlot(Field(6, UVarInt(4), Repeated(2), None), Many([Int(3), Int(270)])) == [0x32, 0x03, 0x03, 0x8E, 0x02]
  {
    hide Fixed;
    var f, values := Field(6, UVarInt(4), Repeated(2), None), [Int(3), Int(270)];
    assert Varint(270) == [0x8E, 0x02];
    assert EncodeEntries(f, values, 2, true) == [];
    assert EncodeEntries(f, values, 1, true) == [0x8E, 0x02];
    assert EncodeEntries(f, values, 0, true) == [0x03, 0x8E, 0x02];
  }

  // ---- What the decoder reads that nothing writes ----

  /** A number of more than ten bytes is refused. */
  lemma Varint64TooLong(s: Bytes)
    requires |s| >= 10 && forall i :: 0 <= i < 10 ==> s[i] >= 128
    ensures DecodeVarint64(s) == None
  {
    Unterminated(s, 10);
  }

  /** Reading at most five bytes, as the encoder of a 32-bit number needs. */
  function Short32(s: Bytes): Option<(nat, Bytes)> {
    match Decode(s, 5)
    case None => None
    case Some((v, n)) => if v <= MAX32 then Some((v, s[n..])) else None
  }

  lemma {:induction false} DecodeMore(s: Bytes, max: nat, more: nat)
    requires max <= more
    ensures Decode(s, max) == if Decode(s, more).Some? && Decode(s, more).value.1 <= max then Decode(s, more) else None
  {
    if max > 0 && s != [] && s[0] >= 128 { DecodeMore(s[1..], max - 1, more - 1); }
    if max == 0 { assert Decode(s, 0) == None; }
  }

  lemma {:induction false} DecodeAtMost(s: Bytes, more: nat)
    requires more >= |s|
    ensures Decode(s, more) == Decode(s, |s|)
  {
    if s != [] && s[0] >= 128 { DecodeAtMost(s[1..], more - 1); }
  }

  /** A varint of more than five bytes whose tail is padding. */
  predicate PaddedVarint(s: Bytes) {
    match Decode(s, |s|)
    case None => false
    case Some((v, n)) => n > 5 && Padded(s, n, v % (MAX32 + 1))
  }

  /** The 32-bit reader differs from reading five bytes exactly on longer varints with padding. */
  lemma Varint32Iff(s: Bytes)
    ensures DecodeVarint32(s) == Short32(s) <==> !PaddedVarint(s)
  {
    hide Decode, Padded;
    if |s| >= 5 {
      DecodeMore(s, 5, |s|);
    } else {
      DecodeAtMost(s, 5);
    }
  }

  /** Not all padding is sign extension: of this number, seven times 2 to the 32, nothing is left. */
  lemma BitsLost()
    ensures var s := [0x80, 0x80, 0x80, 0x80, 0xF0, 0x00];
            && Decode(s, 6) == Some((7 * 0x1_0000_0000, 6)) && DecodeVarint32(s) == Some((0, []))
  {
    var s: Bytes := [0x80, 0x80, 0x80, 0x80, 0xF0, 0x00];
    assert s[1..] == [0x80, 0x80, 0x80, 0xF0, 0x00] && s[1..][1..] == [0x80, 0x80, 0xF0, 0x00];
    assert s[1..][1..][1..] == [0x80, 0xF0, 0x00] && s[1..][1..][1..][1..] == [0xF0, 0x00] && s[1..][1..][1..][1..][1..] == [0x00];
    assert Decode([0x00], 1) == Some((0, 1));
    assert Decode([0xF0, 0x00], 2) == Some((0x70, 2));
    assert Decode([0x80, 0xF0, 0x00], 3) == Some((0x3800, 3));
    assert Decode([0x80, 0x80, 0xF0, 0x00], 4) == Some((0x1C_0000, 4));
    assert Decode([0x80, 0x80, 0x80, 0xF0, 0x00], 5) == Some((0xE00_0000, 5));
    assert s[6..] == [];
  }

  /** What padding is for: a negative number in ten bytes is read as its low 32 bits. */
  lemma NegativeIn32(k: int, rest: Bytes)
    requires -0x8000_0000 <= k < 0
    ensures DecodeVarint32(Varint(Unsigned(k)) + rest) == Some((k + 0x1_0000_0000, rest))
  {
    hide Decode, Varint;
    var v := Unsigned(k);
    var s := Varint(v) + rest;
    Groups(v);
    Power128At10();
    VarintFits(v, 10);
    DecodeVarint(v, |s|, rest);
    assert v % 0x1_0000_0000 == k + 0x1_0000_0000;
    assert v / 0x8_0000_0000 == 0x1FFF_FFFF;
    assert s[|Varint(v)|..] == rest;
    forall i | 5 <= i < |Varint(v)|
      ensures Padding(s[i], i, k + 0x1_0000_0000)
    {
      assert s[i] == Varint(v)[5..][i - 5];
    }
  }

  /** The bytes after the fifth. */
  lemma Groups(v: nat)
    requires v / 0x8_0000_0000 == 0x1FFF_FFFF
    ensures |Varint(v)| == 10 && Varint(v)[5..] == [0xFF, 0xFF, 0xFF, 0xFF, 0x01]
  {
    hide Varint;
    var a := v / 128;
    var b := a / 128;
    var c := b / 128;
    var d := c / 128;
    var e := d / 128;
    assert e == 0x1FFF_FFFF;
    OneGroup(v);
    OneGroup(a);
    OneGroup(b);
    OneGroup(c);
    OneGroup(d);
    OneGroup(e);
    OneGroup(0x3F_FFFF);
    OneGroup(0x7FFF);
    OneGroup(0xFF);
    OneGroup(1);
  }

  lemma OneGroup(v: nat)
    ensures if v < 128 then Varint(v) == [v as Keys.byte] else Varint(v) == [(v % 128 + 128) as Keys.byte] + Varint(v / 128)
  {
  }

  /** A key without a field is skipped by its wire type, exactly unless it is field number 0 of an empty message. */
  lemma UnknownIsSkippedIff(fields: Fields, key: nat)
    requires key > 0
    ensures (forall s: Bytes :: Unknown(fields, key, s) == SkipField(key % 8, s)) <==> fields != [] || key >= 8
  {
    if fields == [] && key < 8 {
      var s: Bytes := [1];
      assert s[1..] == [] && Decode(s, 1) == Some((1, 1));
      assert DecodeVarint32(s) == Some((1, []));
      if key == 2 { assert TakeString(s) == None; }
      assert key != 2 ==> SkipField(key % 8, s) == None;
      assert Unknown(fields, key, s) != SkipField(key % 8, s);
    }
  }

  /** Two bytes that are no message, and an empty message takes them. */
  lemma EmptyMessageReadsBool()
    ensures DecodeMessage([], [1, 0], []) == Some([]) && SkipField(1, [0]) == None
  {
    var s: Bytes := [1, 0];
    assert s[1..] == [0] && [0][1..] == [] && Decode(s, 2) == Some((1, 1)) && Decode([0], 1) == Some((0, 1));
    assert DecodeVarint32(s) == Some((1, [0])) && DecodeVarint32([0]) == Some((0, []));
    assert Find([], 0) == None && Unknown([], 1, [0]) == Some([]);
    var p := Progress([], {}, None, 0);
    assert DecodeLoop([], [], p) == Some(p);
    assert DecodeLoop([], s, p) == Some(p);
  }

  // ---- What the hypotheses are for ----

  /** A zero number without a has_ flag is not written, so it comes back exactly when zero is the default. */
  lemma ImplicitZeroIff(f: Field)
    requires f.rule.Implicit? && Packable(f.ltype) && ValidValue(f.ltype, Int(0)) && f.tag > 0
    ensures DecodeMessage([f], EncodeFrom([f], [One(Int(0))], 0), Defaults([f])) == Some([One(Int(0))])
            <==> f.default == None || f.default == Some(Int(0))
  {
    var fields, slots := [f], [One(Int(0))];
    assert IsZero(f, slots[0]);
    assert EncodeFrom(fields, slots, 1) == [];
    assert EncodeFrom(fields, slots, 0) == [];
    assert DecodeMessage(fields, [], Defaults(fields)) == Some(Defaults(fields));
    assert Defaults(fields) == [One(DefaultValue(f))];
    assert slots == [One(DefaultValue(f))] <==> slots[0] == One(DefaultValue(f));
  }
}
