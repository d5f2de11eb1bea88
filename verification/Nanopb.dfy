/**
 nanopb's schema-driven encoder and decoder as functions (pb_encode.c, pb_decode.c): static
 fields of every type, in nested messages. Sizes are in bytes, as `data_size` gives them.
 */
module Nanopb {
  import opened Keys
  import opened Store
  import opened Coding

  /** PB_LTYPE with its data_size; a submessage carries its field list. */
  datatype LType =
    | Bool
    | VarInt(size: nat)
    | UVarInt(size: nat)
    | SVarInt(size: nat)
    | Fixed32Bit
    | Fixed64Bit
    | ByteArray(max: nat)
    | CString(max: nat)
    | FixedBytes(size: nat)
    | Submessage(fields: seq<Field>)

  /**
   PB_HTYPE: `Optional` has a has_ flag, `Implicit` has none, `FixedCount` is a repeated field
   without a count, and the members of one union share the number of their which_ variable.
   */
  datatype Rule = Required | Optional | Implicit | Repeated(max: nat) | FixedCount(max: nat) | OneOf(union: nat)

  datatype Field = Field(tag: nat, ltype: LType, rule: Rule, default: Option<Value>)

  /** A string is its characters up to the terminator; integers are the stored values. */
  datatype Value = Int(n: int) | Octets(bytes: Bytes) | Struct(slots: seq<Slot>)

  datatype Slot = One(value: Value) | Maybe(opt: Option<Value>) | Many(values: seq<Value>)

  type Fields = seq<Field>

  const WT_VARINT: nat := 0
  const WT_64BIT: nat := 1
  const WT_STRING: nat := 2
  const WT_32BIT: nat := 5

  const TWO63: int := 0x8000_0000_0000_0000
  const TWO64: int := 0x1_0000_0000_0000_0000
  const MAX_REQUIRED: nat := 64

  predicate Packable(t: LType) {
    t.Bool? || t.VarInt? || t.UVarInt? || t.SVarInt? || t.Fixed32Bit? || t.Fixed64Bit?
  }

  /** 2 to the power of the bits of an integer of 1, 2, 4 or 8 bytes. */
  function Range(size: nat): (r: int)
    ensures 256 <= r <= TWO64
  {
    if size == 1 then 0x100 else if size == 2 then 0x1_0000 else if size == 4 then 0x1_0000_0000 else TWO64
  }

  predicate IntSize(size: nat) {
    size == 1 || size == 2 || size == 4 || size == 8
  }

  // ---- Encoding ----

  /** The wire type pb_encode_tag_for_field picks. */
  function WireType(t: LType): (w: nat)
    ensures w < 8
  {
    if t.Fixed32Bit? then WT_32BIT
    else if t.Fixed64Bit? then WT_64BIT
    else if Packable(t) then WT_VARINT
    else WT_STRING
  }

  function Tag(wire: nat, tag: nat): Bytes
    requires wire < 8
  {
    Varint(tag * 8 + wire)
  }

  /** A signed 64-bit value as an unsigned one. */
  function Unsigned(n: int): (u: nat)
    requires -TWO63 <= n < TWO63
    ensures u < TWO64
  {
    if n < 0 then n + TWO64 else n
  }

  function ZigZag(n: int): (u: nat)
    requires -TWO63 <= n < TWO63
    ensures u < TWO64
  {
    if n < 0 then -2 * n - 1 else 2 * n
  }

  /** The value's type fits the field's. */
  predicate ValidValue(t: LType, v: Value)
    decreases t, 1
  {
    match t
    case Bool => v.Int? && 0 <= v.n <= 1
    case VarInt(size) => IntSize(size) && v.Int? && -Range(size) <= 2 * v.n < Range(size)
    case UVarInt(size) => IntSize(size) && v.Int? && 0 <= v.n < Range(size)
    case SVarInt(size) => IntSize(size) && v.Int? && -Range(size) <= 2 * v.n < Range(size)
    case Fixed32Bit => v.Int? && 0 <= v.n <= MAX32
    case Fixed64Bit => v.Int? && 0 <= v.n <= MAX64
    case ByteArray(max) => v.Octets? && |v.bytes| <= max
    case CString(max) => v.Octets? && |v.bytes| + 1 <= max && 0 !in v.bytes
    case FixedBytes(size) => v.Octets? && |v.bytes| == size
    case Submessage(fields) => v.Struct? && ValidStruct(fields, v.slots)
  }

  predicate ValidStruct(fields: Fields, slots: seq<Slot>)
    decreases fields, 2
  {
    && |slots| == |fields|
    && (forall i :: 0 <= i < |fields| ==> ValidSlot(fields[i], slots[i]))
    && OnePerUnion(fields, slots)
  }

  /** At most one member of each union is there. */
  predicate OnePerUnion(fields: Fields, slots: seq<Slot>)
    requires |slots| == |fields|
  {
    forall i, j :: 0 <= i < j < |fields| && fields[i].rule.OneOf? && fields[i].rule == fields[j].rule ==>
      slots[i] == Maybe(None) || slots[j] == Maybe(None)
  }

  predicate ValidSlot(f: Field, s: Slot)
    decreases f, 1
  {
    match f.rule
    case Required => s.One? && ValidValue(f.ltype, s.value)
    case Implicit => s.One? && ValidValue(f.ltype, s.value)
    case Optional => s.Maybe? && (s.opt.Some? ==> ValidValue(f.ltype, s.opt.value))
    case OneOf(_) => s.Maybe? && (s.opt.Some? ==> ValidValue(f.ltype, s.opt.value))
    case Repeated(max) => s.Many? && |s.values| <= max && forall k :: 0 <= k < |s.values| ==> ValidValue(f.ltype, s.values[k])
    case FixedCount(max) => s.Many? && |s.values| == max && forall k :: 0 <= k < |s.values| ==> ValidValue(f.ltype, s.values[k])
  }

  /** One value, without its tag. */
  function EncodeValue(t: LType, v: Value): Bytes
    requires ValidValue(t, v)
    decreases t, 1
  {
    match t
    case Bool => Varint(v.n)
    case VarInt(size) => Varint(Unsigned(v.n))
    case UVarInt(size) => Varint(v.n)
    case SVarInt(size) => Varint(ZigZag(v.n))
    case Fixed32Bit => Fixed(v.n, 4)
    case Fixed64Bit => Fixed(v.n, 8)
    case ByteArray(_) => Prefixed(v.bytes)
    case CString(_) => Prefixed(v.bytes)
    case FixedBytes(_) => Prefixed(v.bytes)
    case Submessage(fields) => Prefixed(EncodeFrom(fields, v.slots, 0))
  }

  /** Array entries one after another, from entry `k` on; each with its tag unless packed. */
  function EncodeEntries(f: Field, values: seq<Value>, k: nat, packed: bool): Bytes
    requires k <= |values| && forall i :: 0 <= i < |values| ==> ValidValue(f.ltype, values[i])
    decreases f, 1, |values| - k
  {
    if k == |values| then []
    else (if packed then [] else Tag(WireType(f.ltype), f.tag)) + EncodeValue(f.ltype, values[k])
         + EncodeEntries(f, values, k + 1, packed)
  }

  function EncodeArray(f: Field, values: seq<Value>): Bytes
    requires forall i :: 0 <= i < |values| ==> ValidValue(f.ltype, values[i])
    decreases f, 2
  {
    if values == [] then []
    else if Packable(f.ltype) then Tag(WT_STRING, f.tag) + Prefixed(EncodeEntries(f, values, 0, true))
    else EncodeEntries(f, values, 0, false)
  }

  /** pb_check_proto3_default_value. */
  predicate IsZero(f: Field, s: Slot)
    requires ValidSlot(f, s)
    decreases f, 3
  {
    match f.rule
    case Required => false
    case FixedCount(_) => false
    case Repeated(_) => s.values == []
    case Optional => s.opt.None?
    case OneOf(_) => s.opt.None?
    case Implicit => IsZeroValue(f.ltype, s.value)
  }

  predicate IsZeroValue(t: LType, v: Value)
    requires ValidValue(t, v)
    decreases t, 2
  {
    match t
    case ByteArray(_) => v.bytes == []
    case CString(_) => v.bytes == []
    case FixedBytes(size) => size == 0
    case Submessage(fields) =>
      assert ValidStruct(fields, v.slots);
      forall i :: 0 <= i < |fields| ==> IsZero(fields[i], v.slots[i])
    case _ => v == Int(0)
  }

  /** encode_basic_field. */
  function EncodeSlot(f: Field, s: Slot): Bytes
    requires ValidSlot(f, s)
    decreases f, 4
  {
    match f.rule
    case Required => Tag(WireType(f.ltype), f.tag) + EncodeValue(f.ltype, s.value)
    case Implicit => if IsZero(f, s) then [] else Tag(WireType(f.ltype), f.tag) + EncodeValue(f.ltype, s.value)
    case Optional => if s.opt.None? then [] else Tag(WireType(f.ltype), f.tag) + EncodeValue(f.ltype, s.opt.value)
    case OneOf(_) => if s.opt.None? then [] else Tag(WireType(f.ltype), f.tag) + EncodeValue(f.ltype, s.opt.value)
    case Repeated(_) => EncodeArray(f, s.values)
    case FixedCount(_) => EncodeArray(f, s.values)
  }

  /** pb_encode, from field `i` on. */
  function EncodeFrom(fields: Fields, slots: seq<Slot>, i: nat): Bytes
    requires ValidStruct(fields, slots) && i <= |fields|
    decreases fields, 1, |fields| - i
  {
    if i == |fields| then [] else EncodeSlot(fields[i], slots[i]) + EncodeFrom(fields, slots, i + 1)
  }

  // ---- Decoding ----

  /** pb_decode_varint: at most ten bytes, in a 64-bit register. */
  function DecodeVarint64(s: Bytes): (r: Option<(nat, Bytes)>)
    ensures r.Some? ==> r.value.0 < TWO64 && |r.value.1| < |s|
  {
    match Decode(s, 10)
    case None => None
    case Some((v, n)) => Some((v % TWO64, s[n..]))
  }

  /**
   pb_decode_varint32: a varint of at most five bytes has to fit 32 bits. A longer one is reduced
   to 32 bits if all bytes after the fifth are padding.
   */
  function DecodeVarint32(s: Bytes): (r: Option<(nat, Bytes)>)
    ensures r.Some? ==> r.value.0 <= MAX32 && |r.value.1| < |s|
  {
    match Decode(s, |s|)
    case None => None
    case Some((v, n)) =>
      if (if n <= 5 then v <= MAX32 else Padded(s, n, v % (MAX32 + 1))) then Some((v % (MAX32 + 1), s[n..])) else None
  }

  /** Byte `i` of a varint carries no bits, or it is what sign extension to 64 bits puts there. */
  predicate Padding(b: byte, i: nat, low: nat) {
    b % 128 == 0 || (low >= 0x8000_0000 && b == if i < 9 then 0xFF else 0x01)
  }

  predicate Padded(s: Bytes, n: nat, low: nat)
    requires n <= |s|
  {
    forall i :: 5 <= i < n ==> Padding(s[i], i, low)
  }

  function Signed(u: int, range: int): int
    requires range > 0
  {
    if 2 * (u % range) < range then u % range else u % range - range
  }

  function UnZigZag(u: nat): int {
    if u % 2 == 1 then -(u / 2) - 1 else u / 2
  }

  /** The characters before the first terminator. */
  function UpToNul(s: Bytes): Bytes {
    if s == [] || s[0] == 0 then [] else [s[0]] + UpToNul(s[1..])
  }

  /** A length and that many bytes (pb_make_string_substream and its likes). */
  function TakeString(s: Bytes): (r: Option<(Bytes, Bytes)>)
    ensures r.Some? ==> |r.value.0| + |r.value.1| < |s|
  {
    match DecodeVarint32(s)
    case None => None
    case Some((size, rest)) => if |rest| < size then None else Some((rest[..size], rest[size..]))
  }

  /** What pb_field_set_to_default leaves in a field. */
  function DefaultValue(f: Field): Value
    decreases f, 0
  {
    match f.ltype
    case Submessage(fields) => Struct(Defaults(fields))
    case ByteArray(_) => if f.default.Some? then f.default.value else Octets([])
    case CString(_) => if f.default.Some? then f.default.value else Octets([])
    case FixedBytes(size) => if f.default.Some? then f.default.value else Octets(Zeros(size))
    case _ => if f.default.Some? then f.default.value else Int(0)
  }

  function DefaultSlot(f: Field): Slot
    decreases f, 1
  {
    match f.rule
    case Required => One(DefaultValue(f))
    case Implicit => One(DefaultValue(f))
    case Optional => Maybe(None)
    case OneOf(_) => Maybe(None)
    case Repeated(_) => Many([])
    case FixedCount(_) => Many([])
  }

  /** pb_message_set_to_defaults. */
  function Defaults(fields: Fields): (slots: seq<Slot>)
    ensures |slots| == |fields|
    decreases fields, 2
  {
    seq(|fields|, i requires 0 <= i < |fields| => DefaultSlot(fields[i]))
  }

  /** The iterator pb_field_iter_find arrives at, for distinct tags. */
  function Find(fields: Fields, tag: nat): (i: Option<nat>)
    ensures i.Some? ==> i.value < |fields| && fields[i.value].tag == tag
    ensures i.None? ==> forall k :: 0 <= k < |fields| ==> fields[k].tag != tag
  {
    if fields == [] then None
    else if fields[|fields| - 1].tag == tag then Some(|fields| - 1)
    else Find(fields[..|fields| - 1], tag)
  }

  /** required_field_index of field `i`. */
  function RequiredIndex(fields: Fields, i: nat): nat
    requires i <= |fields|
  {
    if i == 0 then 0 else RequiredIndex(fields, i - 1) + if fields[i - 1].rule.Required? then 1 else 0
  }

  /** The state of pb_decode_noinit's loop. */
  datatype Progress = Progress(slots: seq<Slot>, seen: set<nat>, fixedField: Option<nat>, fixedSize: nat)

  /** One value into a place that holds `was`; a submessage is merged into it. */
  function DecodeValue(t: LType, s: Bytes, was: Value): (r: Option<(Value, Bytes)>)
    ensures r.Some? ==> |r.value.1| < |s|
    decreases t, |s|, 0
  {
    match t
    case Bool =>
      (match DecodeVarint32(s) case None => None case Some((v, rest)) => Some((Int(if v != 0 then 1 else 0), rest)))
    case VarInt(size) =>
      (match DecodeVarint64(s)
       case None => None
       case Some((v, rest)) =>
         var n := if size == 8 then Signed(v, TWO64) else Signed(v, 0x1_0000_0000);
         if IntSize(size) && -Range(size) <= 2 * n < Range(size) then Some((Int(n), rest)) else None)
    case UVarInt(size) =>
      (match DecodeVarint64(s)
       case None => None
       case Some((v, rest)) => if IntSize(size) && v < Range(size) then Some((Int(v), rest)) else None)
    case SVarInt(size) =>
      (match DecodeVarint64(s)
       case None => None
       case Some((v, rest)) =>
         var n := UnZigZag(v);
         if IntSize(size) && -Range(size) <= 2 * n < Range(size) then Some((Int(n), rest)) else None)
    case Fixed32Bit => if |s| < 4 then None else Some((Int(FromFixed(s[..4])), s[4..]))
    case Fixed64Bit => if |s| < 8 then None else Some((Int(FromFixed(s[..8])), s[8..]))
    case ByteArray(max) =>
      (match TakeString(s)
       case None => None
       case Some((data, rest)) => if |data| > max then None else Some((Octets(data), rest)))
    case CString(max) =>
      (match TakeString(s)
       case None => None
       case Some((data, rest)) => if |data| + 1 > max then None else Some((Octets(UpToNul(data)), rest)))
    case FixedBytes(size) =>
      (match TakeString(s)
       case None => None
       case Some((data, rest)) =>
         if data == [] then Some((Octets(Zeros(size)), rest))
         else if |data| != size then None
         else Some((Octets(data), rest)))
    case Submessage(fields) =>
      (match TakeString(s)
       case None => None
       case Some((data, rest)) =>
         if !was.Struct? || |was.slots| != |fields| then None
         else match DecodeMessage(fields, data, was.slots)
              case None => None
              case Some(slots) => Some((Struct(slots), rest)))
  }

  /** The entries of a packed array, as long as there is room. */
  function DecodePacked(f: Field, s: Bytes, values: seq<Value>, max: nat): Option<seq<Value>>
    decreases f, |s|, 1
  {
    if s == [] then Some(values)
    else if |values| >= max then None
    else match DecodeValue(f.ltype, s, DefaultValue(f))
         case None => None
         case Some((v, rest)) => DecodePacked(f, rest, values + [v], max)
  }

  /** decode_static_field. */
  function DecodeSlot(f: Field, wire: nat, s: Bytes, slot: Slot): (r: Option<(Slot, Bytes)>)
    ensures r.Some? ==> |r.value.1| < |s|
    decreases f, |s|, 2
  {
    match slot
    case One(was) =>
      (match DecodeValue(f.ltype, s, was) case None => None case Some((v, rest)) => Some((One(v), rest)))
    case Maybe(was) =>
      (match DecodeValue(f.ltype, s, if was.Some? then was.value else DefaultValue(f))
       case None => None case Some((v, rest)) => Some((Maybe(Some(v)), rest)))
    case Many(values) =>
      var max := if f.rule.Repeated? || f.rule.FixedCount? then f.rule.max else 0;
      if wire == WT_STRING && Packable(f.ltype) then
        match TakeString(s)
        case None => None
        case Some((data, rest)) =>
          (match DecodePacked(f, data, values, max) case None => None case Some(all) => Some((Many(all), rest)))
      else if |values| >= max then None
      else match DecodeValue(f.ltype, s, DefaultValue(f))
           case None => None
           case Some((v, rest)) => Some((Many(values + [v]), rest))
  }

  /** What has to happen before field `i` is decoded: fixed-count arrays start over, unions switch. */
  function Prepared(fields: Fields, i: nat, p: Progress): (r: Option<Progress>)
    requires i < |fields| == |p.slots|
    ensures r.Some? ==> |r.value.slots| == |fields|
  {
    var f := fields[i];
    match f.rule
    case FixedCount(_) =>
      if p.fixedField == Some(i) then Some(p)
      else if !FixedComplete(fields, p) then None
      else Some(p.(slots := p.slots[i := Many([])], fixedField := Some(i), fixedSize := 0))
    case Required => Some(if RequiredIndex(fields, i) < MAX_REQUIRED then p.(seen := p.seen + {RequiredIndex(fields, i)}) else p)
    case OneOf(union) =>
      Some(p.(slots := seq(|fields|, k requires 0 <= k < |fields| =>
        if k != i && fields[k].rule == f.rule then Maybe(None) else p.slots[k])))
    case _ => Some(p)
  }

  /** The fixed-count array decoded last has all its entries. */
  predicate FixedComplete(fields: Fields, p: Progress) {
    p.fixedField.Some? && p.fixedField.value < |fields| && fields[p.fixedField.value].rule.FixedCount? ==>
      p.fixedSize == fields[p.fixedField.value].rule.max
  }

  function DecodeField(fields: Fields, i: nat, wire: nat, s: Bytes, p: Progress): (r: Option<(Progress, Bytes)>)
    requires i < |fields| == |p.slots|
    ensures r.Some? ==> |r.value.1| < |s| && |r.value.0.slots| == |fields|
    decreases fields, |s|, 0
  {
    match Prepared(fields, i, p)
    case None => None
    case Some(q) =>
      (match DecodeSlot(fields[i], wire, s, q.slots[i])
       case None => None
       case Some((slot, rest)) =>
         var size := if fields[i].rule.FixedCount? && slot.Many? then |slot.values| else q.fixedSize;
         Some((q.(slots := q.slots[i := slot], fixedSize := size), rest)))
  }

  /** pb_skip_field. */
  function SkipField(wire: nat, s: Bytes): (r: Option<Bytes>)
    ensures r.Some? ==> |r.value| < |s|
  {
    if wire == WT_VARINT then SkipVarint(s)
    else if wire == WT_64BIT then (if |s| < 8 then None else Some(s[8..]))
    else if wire == WT_32BIT then (if |s| < 4 then None else Some(s[4..]))
    else if wire == WT_STRING then (match TakeString(s) case None => None case Some((_, rest)) => Some(rest))
    else None
  }

  function SkipVarint(s: Bytes): (r: Option<Bytes>)
    ensures r.Some? ==> |r.value| < |s|
  {
    if s == [] then None else if s[0] < 128 then Some(s[1..]) else SkipVarint(s[1..])
  }

  /**
   What is done with a key that names no field. In an empty message field number 0 is found: it is
   that of the terminator, which looks like a required bool.
   */
  function Unknown(fields: Fields, key: nat, s: Bytes): (r: Option<Bytes>)
    ensures r.Some? ==> |r.value| < |s|
  {
    if fields == [] && key / 8 == 0 then
      match DecodeVarint32(s) case None => None case Some((_, rest)) => Some(rest)
    else SkipField(key % 8, s)
  }

  /** pb_decode_noinit's loop. */
  function DecodeLoop(fields: Fields, s: Bytes, p: Progress): (r: Option<Progress>)
    requires |p.slots| == |fields|
    ensures r.Some? ==> |r.value.slots| == |fields|
    decreases fields, |s|, 1
  {
    if s == [] then Some(p)
    else match DecodeVarint32(s)
         case None => None
         case Some((key, rest)) =>
           if key == 0 then Some(p)
           else match Find(fields, key / 8)
                case None =>
                  (match Unknown(fields, key, rest) case None => None case Some(rest) => DecodeLoop(fields, rest, p))
                case Some(i) =>
                  (match DecodeField(fields, i, key % 8, rest, p)
                   case None => None
                   case Some((q, rest)) => DecodeLoop(fields, rest, q))
  }

  /** Every required field that is tracked has been seen. */
  predicate AllSeen(fields: Fields, seen: set<nat>) {
    forall i :: 0 <= i < |fields| && fields[i].rule.Required? && RequiredIndex(fields, i) < MAX_REQUIRED ==>
      RequiredIndex(fields, i) in seen
  }

  /** pb_decode_noinit: decodes into the slots as they are. */
  function DecodeMessage(fields: Fields, s: Bytes, slots: seq<Slot>): (r: Option<seq<Slot>>)
    requires |slots| == |fields|
    decreases fields, |s|, 2
  {
    match DecodeLoop(fields, s, Progress(slots, {}, None, 0))
    case None => None
    case Some(p) => if FixedComplete(fields, p) && AllSeen(fields, p.seen) then Some(p.slots) else None
  }
}
