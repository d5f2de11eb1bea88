/**
 nanopb's streams and the loops that fill and drain them (pb_encode.c, pb_decode.c,
 pb_common.c), proved against the functions of module Nanopb.
 */
module NanopbStreams {
  import Keys
  import opened BitOps
  import opened Store
  import opened Coding
  import opened Nanopb
  import opened NanopbRoundTrip

  datatype Status = Success | StreamFull | SizeChanged

  /** pb_ostream_t: without a callback it only counts. */
  class OStream {
    const sizing: bool
    const maxSize: nat
    var bytesWritten: nat
    var buffer: Bytes

    ghost predicate Valid()
      reads this
    {
      sizing || bytesWritten <= maxSize
    }

    constructor (sizing: bool, maxSize: nat, buffer: Bytes)
      ensures Valid() && this.sizing == sizing && this.maxSize == maxSize && this.buffer == buffer && bytesWritten == 0
    {
      this.sizing, this.maxSize, this.buffer, bytesWritten := sizing, maxSize, buffer, 0;
    }

    /** `data` was written, or counted; when it does not fit, that is the error. */
    twostate predicate Wrote(data: Bytes, status: Status)
      reads this
    {
      && Valid() && status != SizeChanged
      && (status == Success <==> sizing || old(bytesWritten) + |data| <= maxSize)
      && (status == Success ==>
            bytesWritten == old(bytesWritten) + |data| && buffer == if sizing then old(buffer) else old(buffer) + data)
    }

    /** pb_write. */
    method Write(data: Bytes) returns (status: Status)
      requires Valid()
      modifies this
      ensures Wrote(data, status)
      ensures status != Success ==> bytesWritten == old(bytesWritten) && buffer == old(buffer)
    {
      if |data| > 0 && !sizing {
        if bytesWritten + |data| > maxSize {
          return StreamFull;
        }
        buffer := buffer + data;
      }
      bytesWritten := bytesWritten + |data|;
      status := Success;
    }

    /** pb_write without data, on a stream that only counts. */
    method Skip(count: nat)
      requires sizing
      modifies this
      ensures Valid() && bytesWritten == old(bytesWritten) + count && buffer == old(buffer)
    {
      bytesWritten := bytesWritten + count;
    }

    /** pb_encode_varint: every byte gets the top bit, then the last one loses it. */
    method EncodeVarint(value: nat) returns (status: Status)
      requires Valid()
      modifies this
      ensures Wrote(Varint(value), status)
    {
      hide Varint;
      OneGroup(value);
      if value <= 127 {
        status := Write([value as Keys.byte]);
        return;
      }
      var buf: Bytes := [];
      var rest: nat := value;
      assert [] + Varint(value) == Varint(value);
      while rest > 0
        invariant unchanged(this)
        invariant rest > 0 ==> Varint(value) == buf + Varint(rest)
        invariant rest == 0 ==> buf != [] && buf[|buf| - 1] >= 128 && Varint(value) == buf[..|buf| - 1] + [buf[|buf| - 1] - 128]
      {
        OneGroupMore(buf, rest);
        buf := buf + [(rest % 128 + 128) as Keys.byte];
        rest := rest / 128;
      }
      buf := buf[..|buf| - 1] + [buf[|buf| - 1] - 128];
      status := Write(buf);
    }

    method EncodeTag(wire: nat, tag: nat) returns (status: Status)
      requires Valid() && wire < 8
      modifies this
      ensures Wrote(Tag(wire, tag), status)
    {
      status := EncodeVarint(tag * 8 + wire);
    }
  }

  lemma OneGroupMore(buf: Bytes, rest: nat)
    ensures var more := buf + [(rest % 128 + 128) as Keys.byte];
            if rest >= 128 then buf + Varint(rest) == more + Varint(rest / 128)
            else buf + Varint(rest) == more[..|buf|] + [more[|buf|] - 128]
  {
    var group := [(rest % 128 + 128) as Keys.byte];
    assert (buf + group)[..|buf|] == buf;
    if rest >= 128 { Regroup(buf, group, Varint(rest / 128)); }
  }

  // ---- The field iterator ----

  /**
   pb_field_iter_t over a message description; it goes round in circles. It stands at the
   terminator, which has tag 0, only if there are no fields.
   */
  class FieldIter {
    const fields: Fields
    var pos: nat
    var requiredIndex: nat

    ghost predicate Valid()
      reads this
    {
      (fields == [] && pos == 0 && requiredIndex == 0) || (pos < |fields| && requiredIndex == RequiredIndex(fields, pos))
    }

    /** pb_field_iter_begin. */
    constructor (fields: Fields)
      ensures Valid() && this.fields == fields && pos == 0
    {
      this.fields, pos, requiredIndex := fields, 0, 0;
    }

    /** pb_field_iter_next: false when it wrapped back to the first field. */
    method Next() returns (more: bool)
      requires Valid()
      modifies this
      ensures Valid() && more == (old(pos) + 1 < |fields|) && pos == if more then old(pos) + 1 else 0
    {
      if fields == [] {
        return false;
      }
      if pos + 1 == |fields| {
        pos, requiredIndex := 0, 0;
        return false;
      }
      if fields[pos].rule.Required? {
        requiredIndex := requiredIndex + 1;
      }
      pos := pos + 1;
      more := true;
    }

    /** The tag where the iterator stands. */
    function Tag(): nat
      requires Valid()
      reads this
    {
      if pos < |fields| then fields[pos].tag else 0
    }

    /** pb_field_iter_find: once round from where it is. */
    method FindTag(tag: nat) returns (found: bool)
      requires Valid()
      modifies this
      ensures Valid() && (found <==> (fields == [] && tag == 0) || exists k :: 0 <= k < |fields| && fields[k].tag == tag)
      ensures if found then Tag() == tag else pos == old(pos)
    {
      var start := pos;
      ghost var steps: nat := 0;
      while true
        invariant Valid() && (if fields == [] then steps == 0 else steps < |fields| && pos == Round(start, steps, |fields|))
        invariant forall j :: 0 <= j < steps ==> fields[Round(start, j, |fields|)].tag != tag
        decreases |fields| - steps
      {
        if Tag() == tag {
          return true;
        }
        var _ := Next();
        if pos == start {
          if fields != [] { WholeCircle(fields, start, steps + 1, tag); }
          return false;
        }
        steps := steps + 1;
      }
    }
  }

  /** The field `steps` further on. */
  ghost function Round(start: nat, steps: nat, n: nat): (k: nat)
    requires start < n && steps <= n
    ensures k < n
  {
    if start + steps < n then start + steps else start + steps - n
  }

  /** Back at the start, every field has been passed. */
  lemma WholeCircle(fields: Fields, start: nat, steps: nat, tag: nat)
    requires start < |fields| && 0 < steps <= |fields| && start == Round(start, steps, |fields|)
    requires forall j :: 0 <= j < steps ==> fields[Round(start, j, |fields|)].tag != tag
    ensures forall k :: 0 <= k < |fields| ==> fields[k].tag != tag
  {
    var n := |fields|;
    forall k | 0 <= k < n
      ensures fields[k].tag != tag
    {
      assert Round(start, if k >= start then k - start else k + n - start, n) == k;
    }
  }

  // ---- Encoding ----

  method EncodeString(s: OStream, data: Bytes) returns (status: Status)
    requires s.Valid()
    modifies s
    ensures s.Wrote(Prefixed(data), status)
  {
    status := s.EncodeVarint(|data|);
    if status != Success {
      return;
    }
    ghost var was := s.buffer;
    status := s.Write(data);
    assert old(s.buffer) + (Varint(|data|) + data) == (old(s.buffer) + Varint(|data|)) + data;
  }

  /** One value by its type's encoder. */
  method EncodeOne(s: OStream, t: LType, v: Value) returns (status: Status)
    requires s.Valid() && ValidValue(t, v)
    modifies s
    ensures s.Wrote(EncodeValue(t, v), status)
    decreases t, 1
  {
    hide Varint, Fixed, Prefixed, Unsigned, ZigZag, OStream.Wrote;
    match t {
      case Bool => status := s.EncodeVarint(v.n);
      case VarInt(size) => status := s.EncodeVarint(Unsigned(v.n));
      case UVarInt(size) => status := s.EncodeVarint(v.n);
      case SVarInt(size) => status := s.EncodeVarint(ZigZag(v.n));
      case Fixed32Bit => status := s.Write(Fixed(v.n, 4));
      case Fixed64Bit => status := s.Write(Fixed(v.n, 8));
      case ByteArray(_) => status := EncodeString(s, v.bytes);
      case CString(_) => status := EncodeString(s, v.bytes);
      case FixedBytes(_) => status := EncodeString(s, v.bytes);
      case Submessage(fields) => status := EncodeSubmessage(s, fields, v.slots);
    }
  }

  /** pb_encode_submessage: the sizing pass counts exactly what the second pass writes. */
  method EncodeSubmessage(s: OStream, fields: Fields, slots: seq<Slot>) returns (status: Status)
    requires s.Valid() && ValidStruct(fields, slots)
    modifies s
    ensures s.Wrote(Prefixed(EncodeFrom(fields, slots, 0)), status)
    decreases fields, 2
  {
    hide Varint, EncodeFrom, ValidStruct;
    ghost var data := EncodeFrom(fields, slots, 0);
    var counter := new OStream(true, 0, []);
    status := Encode(counter, fields, slots);
    if status != Success {
      return;
    }
    var size := counter.bytesWritten;
    assert size == |data|;
    status := s.EncodeVarint(size);
    if status != Success {
      return;
    }
    ghost var was := s.buffer;
    if s.sizing {
      s.Skip(size);
      return Success;
    }
    if s.bytesWritten + size > s.maxSize {
      return StreamFull;
    }
    var sub := new OStream(false, size, s.buffer);
    status := Encode(sub, fields, slots);
    s.bytesWritten := s.bytesWritten + sub.bytesWritten;
    s.buffer := sub.buffer;
    if sub.bytesWritten != size {
      return SizeChanged;
    }
    assert old(s.buffer) + (Varint(size) + data) == (old(s.buffer) + Varint(size)) + data;
  }

  lemma EntriesStep(f: Field, values: seq<Value>, k: nat, packed: bool)
    requires k < |values| && forall i :: 0 <= i < |values| ==> ValidValue(f.ltype, values[i])
    ensures EncodeEntries(f, values, k, packed)
      == Entry(f, values[k], packed) + EncodeEntries(f, values, k + 1, packed)
  {
  }

  ghost function Entry(f: Field, v: Value, packed: bool): Bytes
    requires ValidValue(f.ltype, v)
  {
    (if packed then [] else Tag(WireType(f.ltype), f.tag)) + EncodeValue(f.ltype, v)
  }

  method EncodeEntry(s: OStream, f: Field, v: Value, packed: bool) returns (status: Status)
    requires s.Valid() && ValidValue(f.ltype, v)
    modifies s
    ensures s.Wrote(Entry(f, v, packed), status)
    decreases f, 1
  {
    hide EncodeValue, ValidValue, Tag;
    if packed {
      status := EncodeOne(s, f.ltype, v);
      assert [] + EncodeValue(f.ltype, v) == EncodeValue(f.ltype, v);
    } else {
      status := EncodeTagged(s, f, v);
    }
  }

  lemma {:induction false} FixedEntries(f: Field, values: seq<Value>, k: nat, width: nat)
    requires k <= |values| && forall i :: 0 <= i < |values| ==> ValidValue(f.ltype, values[i])
    requires (f.ltype.Fixed32Bit? && width == 4) || (f.ltype.Fixed64Bit? && width == 8)
    ensures |EncodeEntries(f, values, k, true)| == width * (|values| - k)
    decreases |values| - k
  {
    if k < |values| { FixedEntries(f, values, k + 1, width); }
  }

  /** The entries of an array, each behind its tag unless packed. */
  method EncodeAll(s: OStream, f: Field, values: seq<Value>, packed: bool) returns (status: Status)
    requires s.Valid() && forall i :: 0 <= i < |values| ==> ValidValue(f.ltype, values[i])
    modifies s
    ensures s.Wrote(EncodeEntries(f, values, 0, packed), status)
    decreases f, 2
  {
    hide EncodeValue, ValidValue, EncodeEntries, Tag, Entry;
    ghost var done: Bytes := [];
    var i: nat := 0;
    assert [] + EncodeEntries(f, values, 0, packed) == EncodeEntries(f, values, 0, packed);
    while i < |values|
      invariant i <= |values| && s.Valid() && EncodeEntries(f, values, 0, packed) == done + EncodeEntries(f, values, i, packed)
      invariant s.bytesWritten == old(s.bytesWritten) + |done| && s.buffer == if s.sizing then old(s.buffer) else old(s.buffer) + done
    {
      EntriesStep(f, values, i, packed);
      ghost var entry, more := Entry(f, values[i], packed), EncodeEntries(f, values, i + 1, packed);
      Regroup(done, entry, more);
      Regroup(old(s.buffer), done, entry);
      status := EncodeEntry(s, f, values[i], packed);
      if status != Success {
        return;
      }
      done := done + entry;
      i := i + 1;
    }
    NoEntries(f, values, packed);
    assert done + [] == done;
    status := Success;
  }

  lemma NoEntries(f: Field, values: seq<Value>, packed: bool)
    requires forall i :: 0 <= i < |values| ==> ValidValue(f.ltype, values[i])
    ensures EncodeEntries(f, values, |values|, packed) == []
  {
  }

  /** encode_array. */
  method EncodeRepeated(s: OStream, f: Field, values: seq<Value>) returns (status: Status)
    requires s.Valid() && forall i :: 0 <= i < |values| ==> ValidValue(f.ltype, values[i])
    modifies s
    ensures s.Wrote(EncodeArray(f, values), status)
    decreases f, 3
  {
    hide EncodeValue, ValidValue, EncodeEntries, Tag, Varint;
    if values == [] {
      return Success;
    }
    if !Packable(f.ltype) {
      status := EncodeAll(s, f, values, false);
      return;
    }
    ghost var data := EncodeEntries(f, values, 0, true);
    status := s.EncodeTag(WT_STRING, f.tag);
    if status != Success {
      return;
    }
    var size: nat;
    if f.ltype.Fixed32Bit? {
      FixedEntries(f, values, 0, 4);
      size := 4 * |values|;
    } else if f.ltype.Fixed64Bit? {
      FixedEntries(f, values, 0, 8);
      size := 8 * |values|;
    } else {
      var counter := new OStream(true, 0, []);
      status := EncodeAll(counter, f, values, true);
      if status != Success {
        return;
      }
      size := counter.bytesWritten;
    }
    assert size == |data|;
    status := s.EncodeVarint(size);
    if status != Success {
      return;
    }
    if s.sizing {
      s.Skip(size);
      return Success;
    }
    status := EncodeAll(s, f, values, true);
    Joined(old(s.buffer), Tag(WT_STRING, f.tag), Varint(size), data);
  }

  lemma Joined(a: Bytes, b: Bytes, c: Bytes, d: Bytes)
    ensures a + (b + (c + d)) == ((a + b) + c) + d
  {
  }

  /** encode_basic_field. */
  method EncodeField(s: OStream, f: Field, slot: Slot) returns (status: Status)
    requires s.Valid() && ValidSlot(f, slot)
    modifies s
    ensures s.Wrote(EncodeSlot(f, slot), status)
    decreases f, 4
  {
    hide EncodeValue, ValidValue, EncodeArray, Tag, IsZeroValue;
    match slot {
      case One(v) =>
        if f.rule.Implicit? && IsZero(f, slot) {
          return Success;
        }
        status := EncodeTagged(s, f, v);
      case Maybe(opt) =>
        if opt.None? {
          return Success;
        }
        status := EncodeTagged(s, f, opt.value);
      case Many(values) =>
        status := EncodeRepeated(s, f, values);
    }
  }

  method EncodeTagged(s: OStream, f: Field, v: Value) returns (status: Status)
    requires s.Valid() && ValidValue(f.ltype, v)
    modifies s
    ensures s.Wrote(Tag(WireType(f.ltype), f.tag) + EncodeValue(f.ltype, v), status)
    decreases f, 0
  {
    hide EncodeValue, ValidValue, Tag;
    status := s.EncodeTag(WireType(f.ltype), f.tag);
    if status != Success {
      return;
    }
    status := EncodeOne(s, f.ltype, v);
    ghost var tag, value := Tag(WireType(f.ltype), f.tag), EncodeValue(f.ltype, v);
    assert old(s.buffer) + (tag + value) == (old(s.buffer) + tag) + value;
  }

  lemma FromStep(fields: Fields, slots: seq<Slot>, i: nat)
    requires ValidStruct(fields, slots) && i < |fields|
    ensures |slots| == |fields| && ValidSlot(fields[i], slots[i])
    ensures EncodeFrom(fields, slots, i) == EncodeSlot(fields[i], slots[i]) + EncodeFrom(fields, slots, i + 1)
    ensures EncodeFrom(fields, slots, |fields|) == []
  {
  }

  /** pb_encode: all of the message, or an error exactly when it does not fit. */
  method Encode(s: OStream, fields: Fields, slots: seq<Slot>) returns (status: Status)
    requires s.Valid() && ValidStruct(fields, slots)
    modifies s
    ensures s.Wrote(EncodeFrom(fields, slots, 0), status)
    decreases fields, 1
  {
    hide EncodeSlot, ValidStruct, EncodeFrom, ValidSlot, RequiredIndex;
    var iter := new FieldIter(fields);
    if fields == [] {
      NoFields(slots);
      return Success;
    }
    ghost var done: Bytes, k: nat := [], 0;
    var more := true;
    assert [] + EncodeFrom(fields, slots, 0) == EncodeFrom(fields, slots, 0);
    while more
      invariant s.Valid() && fresh(iter) && iter.Valid() && iter.fields == fields
      invariant k <= |fields| && (if more then k == iter.pos else k == |fields|)
      invariant EncodeFrom(fields, slots, 0) == done + EncodeFrom(fields, slots, k)
      invariant s.bytesWritten == old(s.bytesWritten) + |done| && s.buffer == if s.sizing then old(s.buffer) else old(s.buffer) + done
      decreases more, |fields| - iter.pos
    {
      FromStep(fields, slots, iter.pos);
      ghost var field, rest := EncodeSlot(fields[iter.pos], slots[iter.pos]), EncodeFrom(fields, slots, iter.pos + 1);
      Regroup(done, field, rest);
      Regroup(old(s.buffer), done, field);
      status := EncodeField(s, fields[iter.pos], slots[iter.pos]);
      if status != Success {
        return;
      }
      done, k := done + field, k + 1;
      more := iter.Next();
    }
    FromStep(fields, slots, 0);
    assert done + [] == done;
    status := Success;
  }

  lemma NoFields(slots: seq<Slot>)
    requires ValidStruct([], slots)
    ensures EncodeFrom([], slots, 0) == []
  {
  }

  // ---- Decoding ----

  /** pb_istream_t: what is left to read. */
  class IStream {
    var left: Bytes

    constructor (left: Bytes)
      ensures this.left == left
    {
      this.left := left;
    }

    /** pb_readbyte. */
    method ReadByte() returns (ok: bool, b: Keys.byte)
      modifies this
      ensures ok <==> old(left) != []
      ensures if ok then b == old(left)[0] && left == old(left)[1..] else left == old(left)
    {
      ok, b := left != [], 0;
      if ok {
        b, left := left[0], left[1..];
      }
    }

    /** pb_read. */
    method Read(count: nat) returns (ok: bool, data: Bytes)
      modifies this
      ensures ok <==> count <= |old(left)|
      ensures if ok then data == old(left)[..count] && left == old(left)[count..] else left == old(left)
    {
      if |left| < count {
        return false, [];
      }
      data, left := left[..count], left[count..];
      ok := true;
    }

    /** pb_decode_varint32_eof. `place` is 2 to the `bitpos`. */
    method DecodeVarint32Eof() returns (ok: bool, result: nat, eof: bool)
      modifies this
      ensures eof <==> old(left) == []
      ensures ok <==> Nanopb.DecodeVarint32(old(left)).Some?
      ensures ok ==> Nanopb.DecodeVarint32(old(left)).value == (result, left)
    {
      hide Nanopb.DecodeVarint32, Going, Done, PaddedTo, Power128, Padding, Or;
      result, eof := 0, false;
      ghost var all := left;
      var got, b := ReadByte();
      if !got {
        NothingIn32();
        return false, 0, true;
      }
      FirstByte(all);
      if b < 128 {
        return true, b as nat, false;
      }
      var bitpos, place := 7, 128;
      result := b as nat % 128;
      ghost var i, full: nat := 1, result;
      var more := true;
      while more
        invariant 1 <= i <= |all| && left == all[i..] && bitpos == 7 * i && place == Power128(i) && b == all[i - 1]
        invariant result == full % 0x1_0000_0000 && PaddedTo(all, i, result)
        invariant if more then Going(all, i, full) else Done(all, i, full)
        decreases more, |left|
      {
        EndOfStream(all, i, full);
        got, b := ReadByte();
        if !got {
          return false, 0, false;
        }
        assert b == all[i] && all[i..][1..] == all[i + 1..];
        NextByte(all, i, full);
        PaddingIs(b, i, result);
        if bitpos >= 32 {
          var signExtension: Keys.byte := if bitpos < 63 then 0xFF else 0x01;
          if b % 128 != 0 && (result / 0x8000_0000 == 0 || b != signExtension) {
            NotPadded(all, i, full);
            return false, 0, false;
          }
        } else {
          result := Or(result, b as nat % 128, place, 0x1_0000_0000);
        }
        more := b >= 128;
        full := full + place * (b as nat % 128);
        PaddedNext(all, i, result);
        bitpos, place, i := bitpos + 7, place * 128, i + 1;
      }
      LastIsRead(all, i, full);
      if bitpos == 35 && b as nat / 16 % 8 != 0 {
        return false, 0, false;
      }
      ok := true;
    }

    /** pb_decode_varint32. */
    method DecodeVarint32() returns (ok: bool, value: nat)
      modifies this
      ensures ok <==> Nanopb.DecodeVarint32(old(left)).Some?
      ensures ok ==> Nanopb.DecodeVarint32(old(left)).value == (value, left)
    {
      var eof;
      ok, value, eof := DecodeVarint32Eof();
    }

    /** pb_decode_tag: a zero key ends the message, as the end of the stream does. */
    method DecodeTag() returns (ok: bool, wire: nat, tag: nat, eof: bool)
      modifies this
      ensures eof <==> old(left) == [] || (Nanopb.DecodeVarint32(old(left)).Some? && Nanopb.DecodeVarint32(old(left)).value.0 == 0)
      ensures ok <==> Nanopb.DecodeVarint32(old(left)).Some? && !eof
      ensures ok ==> wire < 8 && Nanopb.DecodeVarint32(old(left)).value == (tag * 8 + wire, left)
    {
      hide Nanopb.DecodeVarint32;
      var key;
      NothingIn32();
      ok, key, eof := DecodeVarint32Eof();
      wire, tag := 0, 0;
      if ok {
        if key == 0 {
          return false, 0, 0, true;
        }
        wire, tag := key % 8, key / 8;
      }
    }

    /** pb_decode_varint: ten bytes at most, in a register of 64 bits. */
    method DecodeVarint() returns (ok: bool, result: nat)
      modifies this
      ensures ok <==> DecodeVarint64(old(left)).Some?
      ensures ok ==> DecodeVarint64(old(left)).value == (result, left)
    {
      hide Decode, Continued;
      result := 0;
      var bitpos, place: nat := 0, 1;
      ghost var all := left;
      ghost var i, full: nat := 0, 0;
      Starts(Decode(all, 10));
      assert all[0..] == all;
      var more := true;
      while more
        invariant i <= |all| && i <= 10 && left == all[i..] && bitpos == 7 * i && result == full % TWO64
        invariant if more then Decode(all, 10) == Continued(Decode(all[i..], 10 - i), full, place, i) else Decode(all, 10) == Some((full, i))
        decreases more, |left|
      {
        NoneLeft(all, i, full, place);
        if bitpos >= 64 {
          return false, 0;
        }
        var got, b := ReadByte();
        if !got {
          return false, 0;
        }
        assert b == all[i] && all[i..][1..] == all[i + 1..];
        NextOf10(all, i, full, place, b as nat % 128);
        result := Or(result, b as nat % 128, place, TWO64);
        full := full + place * (b as nat % 128);
        more := b >= 128;
        bitpos, place, i := bitpos + 7, place * 128, i + 1;
      }
      ok := true;
    }

    /** pb_decode_svarint. */
    method DecodeSVarint() returns (ok: bool, result: int)
      modifies this
      ensures ok <==> DecodeVarint64(old(left)).Some?
      ensures ok ==> UnZigZag(DecodeVarint64(old(left)).value.0) == result && DecodeVarint64(old(left)).value.1 == left
    {
      var value;
      ok, value := DecodeVarint();
      result := value / 2;
      if value % 2 == 1 {
        result := -result - 1;
      }
    }

    /** pb_decode_fixed32. */
    method DecodeFixed32() returns (ok: bool, result: nat)
      modifies this
      ensures ok <==> |old(left)| >= 4
      ensures ok ==> result == FromFixed(old(left)[..4]) && left == old(left)[4..]
    {
      var b;
      ok, b := Read(4);
      result := 0;
      if ok {
        result := b[0] as nat + 0x100 * b[1] as nat + 0x1_0000 * b[2] as nat + 0x100_0000 * b[3] as nat;
        FourBytes(b);
      }
    }

    /** pb_decode_fixed64. */
    method DecodeFixed64() returns (ok: bool, result: nat)
      modifies this
      ensures ok <==> |old(left)| >= 8
      ensures ok ==> result == FromFixed(old(left)[..8]) && left == old(left)[8..]
    {
      var b;
      ok, b := Read(8);
      result := 0;
      if ok {
        result := b[0] as nat + 0x100 * b[1] as nat + 0x1_0000 * b[2] as nat + 0x100_0000 * b[3] as nat
          + 0x1_0000_0000 * b[4] as nat + 0x100_0000_0000 * b[5] as nat + 0x1_0000_0000_0000 * b[6] as nat + 0x100_0000_0000_0000 * b[7] as nat;
        EightBytes(b);
      }
    }

    /** pb_skip_varint. */
    method SkipVarint() returns (ok: bool)
      modifies this
      ensures ok <==> Nanopb.SkipVarint(old(left)).Some?
      ensures ok ==> Nanopb.SkipVarint(old(left)).value == left
    {
      var more := true;
      while more
        invariant Nanopb.SkipVarint(old(left)) == if more then Nanopb.SkipVarint(left) else Some(left)
        decreases more, |left|
      {
        var got, b := ReadByte();
        if !got {
          return false;
        }
        more := b >= 128;
      }
      ok := true;
    }

    /** pb_skip_field. */
    method SkipField(wire: nat) returns (ok: bool)
      modifies this
      ensures ok <==> Nanopb.SkipField(wire, old(left)).Some?
      ensures ok ==> Nanopb.SkipField(wire, old(left)).value == left
    {
      hide Nanopb.DecodeVarint32, Nanopb.SkipVarint;
      var skipped;
      if wire == WT_VARINT {
        ok := SkipVarint();
      } else if wire == WT_64BIT {
        ok, skipped := Read(8);
      } else if wire == WT_STRING {
        var length;
        ok, length := DecodeVarint32();
        if ok {
          ok, skipped := Read(length);
        }
      } else if wire == WT_32BIT {
        ok, skipped := Read(4);
      } else {
        ok := false;
      }
    }

    /** pb_make_string_substream. */
    method MakeSubstream() returns (ok: bool, sub: IStream)
      modifies this
      ensures fresh(sub) && (ok <==> TakeString(old(left)).Some?)
      ensures ok ==> TakeString(old(left)).value == (sub.left, left)
    {
      hide Nanopb.DecodeVarint32;
      sub := new IStream([]);
      var got, size := DecodeVarint32();
      if !got || |left| < size {
        return false, sub;
      }
      sub := new IStream(left[..size]);
      left := left[size..];
      ok := true;
    }
  }

  lemma NothingIn32()
    ensures Nanopb.DecodeVarint32([]) == None
  {
  }

  /** `result | bits << bitpos` in a register of that width, when the bits at that place are free. */
  function Or(result: nat, bits: nat, place: nat, width: nat): nat
    requires width > 0
  {
    (result + bits * place) % width
  }

  /** The varint goes on after `i` bytes, which make `full`. */
  ghost predicate Going(all: Bytes, i: nat, full: nat) {
    && 1 <= i <= |all| && full < Power128(i) && (i == 5 ==> full / 0x1000_0000 == all[4] as nat % 128)
    && Decode(all, |all|) == Continued(Decode(all[i..], |all| - i), full, Power128(i), i)
  }

  /** The varint ends after `i` bytes, which make `full`. */
  ghost predicate Done(all: Bytes, i: nat, full: nat) {
    && 1 <= i <= |all| && full < Power128(i) && (i == 5 ==> full / 0x1000_0000 == all[4] as nat % 128)
    && Decode(all, |all|) == Some((full, i))
  }

  ghost predicate PaddedTo(all: Bytes, i: nat, low: nat)
    requires i <= |all|
  {
    i >= 5 ==> Padded(all, i, low)
  }

  lemma FirstByte(all: Bytes)
    requires all != []
    ensures if all[0] < 128 then DecodeVarint32(all) == Some((all[0] as nat, all[1..])) else Going(all, 1, all[0] as nat % 128)
    ensures PaddedTo(all, 1, all[0] as nat % 128) && Power128(1) == 128
  {
    Starts(Decode(all, |all|));
    assert all[0..] == all;
    Powers();
    if all[0] >= 128 { Accumulate(all, 0, |all|, 0, 1); }
  }

  lemma EndOfStream(all: Bytes, i: nat, full: nat)
    requires Going(all, i, full)
    ensures i == |all| ==> DecodeVarint32(all) == None
  {
    hide Decode;
    if i == |all| { NothingLeft(all, i, |all|, full, Power128(i)); }
  }

  lemma NextByte(all: Bytes, i: nat, full: nat)
    requires Going(all, i, full) && i < |all|
    ensures var now := full + Power128(i) * (all[i] as nat % 128);
            && (if all[i] >= 128 then Going(all, i + 1, now) else Done(all, i + 1, now))
            && now % 0x1_0000_0000 == (if i >= 5 then full % 0x1_0000_0000
                                       else Or(full % 0x1_0000_0000, all[i] as nat % 128, Power128(i), 0x1_0000_0000))
    ensures Power128(i + 1) == Power128(i) * 128
  {
    hide Decode, Continued, Power128;
    var bits := all[i] as nat % 128;
    NextPlace(i, full, bits);
    NextDecoded(all, |all|, i, full, Power128(i), bits);
  }

  lemma NextDecoded(all: Bytes, max: nat, i: nat, full: nat, place: nat, bits: nat)
    requires i < |all| && i < max && bits == all[i] as nat % 128
    requires Decode(all, max) == Continued(Decode(all[i..], max - i), full, place, i)
    ensures if all[i] >= 128 then Decode(all, max) == Continued(Decode(all[i + 1..], max - (i + 1)), full + place * bits, place * 128, i + 1)
            else Decode(all, max) == Some((full + place * bits, i + 1))
  {
    hide Decode, Continued;
    if all[i] >= 128 {
      Accumulate(all, i, max, full, place);
    } else {
      LastByte(all, i, max, full, place);
    }
  }

  lemma NoneLeft(all: Bytes, i: nat, full: nat, place: nat)
    requires i <= |all| && i <= 10 && Decode(all, 10) == Continued(Decode(all[i..], 10 - i), full, place, i)
    ensures i == 10 || i == |all| ==> Decode(all, 10) == None
  {
    hide Decode, Continued;
    if i == 10 || i == |all| { NothingLeft(all, i, 10, full, place); }
  }

  lemma NextOf10(all: Bytes, i: nat, full: nat, place: nat, bits: nat)
    requires i < |all| && i < 10 && bits == all[i] as nat % 128
    requires Decode(all, 10) == Continued(Decode(all[i..], 10 - i), full, place, i)
    ensures if all[i] >= 128 then Decode(all, 10) == Continued(Decode(all[i + 1..], 10 - (i + 1)), full + place * bits, place * 128, i + 1)
            else Decode(all, 10) == Some((full + place * bits, i + 1))
    ensures Or(full % TWO64, bits, place, TWO64) == (full + place * bits) % TWO64
  {
    hide Decode, Continued;
    NextDecoded(all, 10, i, full, place, bits);
    assert bits * place == place * bits;
    Reduced(full, place * bits, TWO64);
  }

  lemma PaddedNext(all: Bytes, i: nat, low: nat)
    requires i < |all| && (i >= 5 ==> PaddedTo(all, i, low) && Padding(all[i], i, low))
    ensures PaddedTo(all, i + 1, low)
  {
  }

  lemma LastIsRead(all: Bytes, i: nat, full: nat)
    requires Done(all, i, full) && PaddedTo(all, i, full % 0x1_0000_0000)
    ensures DecodeVarint32(all) == if i == 5 && all[4] as nat / 16 % 8 != 0 then None else Some((full % 0x1_0000_0000, all[i..]))
  {
    hide Decode, Padded;
    Powers();
    if i < 5 {
      PowersGrow(i, 4);
    }
  }

  lemma {:induction false} PowersGrow(i: nat, j: nat)
    requires i <= j
    ensures Power128(i) <= Power128(j)
  {
    if i < j { PowersGrow(i, j - 1); }
  }

  lemma Powers()
    ensures Power128(1) == 128 && Power128(2) == 0x4000 && Power128(3) == 0x20_0000 && Power128(4) == 0x1000_0000
    ensures Power128(5) == 0x8_0000_0000
  {
  }

  lemma {:induction false} Beyond32(i: nat)
    requires i >= 5
    ensures Power128(i) % 0x1_0000_0000 == 0
  {
    Powers();
    if i > 5 {
      Beyond32(i - 1);
      TimesKeeps(Power128(i - 1), 128, 0x1_0000_0000);
      OnePlace(i - 1);
    }
  }

  lemma TimesKeeps(a: nat, k: nat, m: nat)
    requires m > 0 && a % m == 0
    ensures (a * k) % m == 0
  {
    var q := a / m;
    assert a * k == m * (q * k) + 0 by { assert a == m * q; }
    SameRest(0, q * k, m);
  }

  lemma Reduced(a: nat, b: nat, m: nat)
    requires m > 0
    ensures (a % m + b) % m == (a + b) % m
  {
    var q := a / m;
    assert a + b == m * q + (a % m + b);
    assert (m * q + (a % m + b)) % m == (a % m + b) % m by { SameRest(a % m + b, q, m); }
  }

  lemma SameRest(r: nat, q: nat, m: nat)
    requires m > 0
    ensures (m * q + r) % m == r % m
  {
    var q', r' := r / m, r % m;
    assert m * q + r == m * (q + q') + r';
    OneRemainder(m, q + q', r', (m * q + r) / m, (m * q + r) % m);
  }

  /** What seven more bits at place `i` make of a number of `i` groups. */
  lemma NextPlace(i: nat, full: nat, bits: nat)
    requires i >= 1 && full < Power128(i) && bits < 128
    ensures full + Power128(i) * bits < Power128(i + 1) == Power128(i) * 128
    ensures (full % 0x1_0000_0000 + bits * Power128(i)) % 0x1_0000_0000 == (full + Power128(i) * bits) % 0x1_0000_0000
    ensures i >= 5 ==> (full + Power128(i) * bits) % 0x1_0000_0000 == full % 0x1_0000_0000 && Power128(i) % 0x1_0000_0000 == 0
    ensures i == 4 ==> (full + Power128(i) * bits) / 0x1000_0000 == bits
  {
    hide Power128;
    OnePlace(i);
    NextBound(full, Power128(i), bits);
    Reduced(full, Power128(i) * bits, 0x1_0000_0000);
    if i >= 5 {
      Beyond32(i);
      NextSame(full, Power128(i), bits, 0x1_0000_0000);
    }
    Powers();
  }

  lemma NextBound(full: nat, place: nat, bits: nat)
    requires full < place && bits < 128
    ensures full + place * bits < place * 128 && place * bits == bits * place
  {
    assert place * 128 == place * bits + place * (128 - bits);
    assert place * (128 - bits) >= place * 1;
  }

  lemma NextSame(full: nat, place: nat, bits: nat, m: nat)
    requires m > 0 && place % m == 0
    ensures (full + place * bits) % m == full % m
  {
    TimesKeeps(place, bits, m);
    var q := place * bits / m;
    SameRest(full, q, m);
  }

  lemma OnePlace(i: nat)
    ensures Power128(i + 1) == 128 * Power128(i)
  {
  }

  lemma PaddingIs(b: Keys.byte, i: nat, low: nat)
    requires low < 0x1_0000_0000
    ensures Padding(b, i, low) <==> b % 128 == 0 || (low / 0x8000_0000 != 0 && b == if 7 * i < 63 then 0xFF else 0x01)
  {
  }

  /** A byte that is no padding spoils the whole varint, whatever follows. */
  lemma NotPadded(all: Bytes, i: nat, full: nat)
    requires Going(all, i, full) && 5 <= i < |all| && !Padding(all[i], i, full % 0x1_0000_0000)
    ensures DecodeVarint32(all) == None
  {
    hide Decode, Padding, Power128;
    var r := Decode(all[i..], |all| - i);
    if r.Some? {
      Beyond32(i);
      NextSame(full, Power128(i), r.value.0, 0x1_0000_0000);
    }
  }

  lemma FourBytes(b: Bytes)
    requires |b| == 4
    ensures FromFixed(b) == b[0] as nat + 0x100 * b[1] as nat + 0x1_0000 * b[2] as nat + 0x100_0000 * b[3] as nat
  {
    var c := b[1..];
    assert FromFixed(b) == b[0] as nat + 256 * FromFixed(c);
    assert FromFixed(c) == c[0] as nat + 256 * FromFixed(c[1..]);
    assert FromFixed(c[1..]) == c[1..][0] as nat + 256 * FromFixed(c[1..][1..]);
    assert FromFixed(c[1..][1..]) == c[1..][1..][0] as nat + 256 * FromFixed(c[1..][1..][1..]);
  }

  lemma EightBytes(b: Bytes)
    requires |b| == 8
    ensures FromFixed(b) == b[0] as nat + 0x100 * b[1] as nat + 0x1_0000 * b[2] as nat + 0x100_0000 * b[3] as nat
      + 0x1_0000_0000 * b[4] as nat + 0x100_0000_0000 * b[5] as nat + 0x1_0000_0000_0000 * b[6] as nat + 0x100_0000_0000_0000 * b[7] as nat
  {
    hide FromFixed;
    FirstFour(b);
    FourBytes(b[4..]);
  }

  lemma FirstFour(b: Bytes)
    requires |b| == 8
    ensures FromFixed(b) == b[0] as nat + 0x100 * b[1] as nat + 0x1_0000 * b[2] as nat + 0x100_0000 * b[3] as nat + 0x1_0000_0000 * FromFixed(b[4..])
  {
    var c := b[1..];
    var d := c[1..];
    var e := d[1..];
    assert e[1..] == b[4..];
    assert FromFixed(b) == b[0] as nat + 256 * FromFixed(c) && FromFixed(c) == c[0] as nat + 256 * FromFixed(d);
    assert FromFixed(d) == d[0] as nat + 256 * FromFixed(e) && FromFixed(e) == e[0] as nat + 256 * FromFixed(b[4..]);
  }

  // ---- The decoders of the field types ----

  /** A cast to a smaller signed type keeps exactly the numbers of that type. */
  lemma Clamps(n: int, size: nat)
    requires IntSize(size)
    ensures Signed(n, Range(size)) == n <==> -Range(size) <= 2 * n < Range(size)
  {
    if size == 1 { CastKeeps(n, 0x100); }
    if size == 2 { CastKeeps(n, 0x1_0000); }
    if size == 4 { CastKeeps(n, 0x1_0000_0000); }
    if size == 8 { CastKeeps(n, TWO64); }
  }

  lemma CastKeeps(n: int, range: int)
    requires range == 0x100 || range == 0x1_0000 || range == 0x1_0000_0000 || range == TWO64
    ensures Signed(n, range) == n <==> -range <= 2 * n < range
  {
  }

  /** pb_dec_varint. */
  method DecVarint(s: IStream, size: nat, ghost was: Value) returns (ok: bool, v: Value)
    modifies s
    ensures ok <==> DecodeValue(VarInt(size), old(s.left), was).Some?
    ensures ok ==> DecodeValue(VarInt(size), old(s.left), was).value == (v, s.left)
  {
    hide DecodeVarint64, Signed, Range;
    var got, value := s.DecodeVarint();
    if !got || !IntSize(size) {
      return false, Int(0);
    }
    var svalue := if size == 8 then Signed(value, TWO64) else Signed(value, 0x1_0000_0000);
    var clamped := Signed(svalue, Range(size));
    Clamps(svalue, size);
    ok, v := clamped == svalue, Int(clamped);
  }

  /** pb_dec_uvarint. */
  method DecUVarint(s: IStream, size: nat, ghost was: Value) returns (ok: bool, v: Value)
    modifies s
    ensures ok <==> DecodeValue(UVarInt(size), old(s.left), was).Some?
    ensures ok ==> DecodeValue(UVarInt(size), old(s.left), was).value == (v, s.left)
  {
    hide DecodeVarint64;
    var got, value := s.DecodeVarint();
    if !got || !IntSize(size) {
      return false, Int(0);
    }
    var clamped := value % Range(size);
    ok, v := clamped == value, Int(clamped);
  }

  /** pb_dec_svarint. */
  method DecSVarint(s: IStream, size: nat, ghost was: Value) returns (ok: bool, v: Value)
    modifies s
    ensures ok <==> DecodeValue(SVarInt(size), old(s.left), was).Some?
    ensures ok ==> DecodeValue(SVarInt(size), old(s.left), was).value == (v, s.left)
  {
    hide DecodeVarint64, Signed, Range, UnZigZag;
    var got, value := s.DecodeSVarint();
    if !got || !IntSize(size) {
      return false, Int(0);
    }
    var clamped := Signed(value, Range(size));
    Clamps(value, size);
    ok, v := clamped == value, Int(clamped);
  }

  /** pb_dec_bytes, for a field with room for `max` bytes. */
  method DecBytes(s: IStream, max: nat, ghost was: Value) returns (ok: bool, v: Value)
    modifies s
    ensures ok <==> DecodeValue(ByteArray(max), old(s.left), was).Some?
    ensures ok ==> DecodeValue(ByteArray(max), old(s.left), was).value == (v, s.left)
  {
    hide Nanopb.DecodeVarint32;
    var size, data;
    ok, size := s.DecodeVarint32();
    v := Octets([]);
    if !ok || size > max {
      return false, v;
    }
    ok, data := s.Read(size);
    v := Octets(data);
  }

  /** pb_dec_string: room for the terminator is needed too, and one within the string ends it. */
  method DecString(s: IStream, max: nat, ghost was: Value) returns (ok: bool, v: Value)
    modifies s
    ensures ok <==> DecodeValue(CString(max), old(s.left), was).Some?
    ensures ok ==> DecodeValue(CString(max), old(s.left), was).value == (v, s.left)
  {
    hide Nanopb.DecodeVarint32;
    var size, data;
    ok, size := s.DecodeVarint32();
    v := Octets([]);
    if !ok || size + 1 > max {
      return false, v;
    }
    ok, data := s.Read(size);
    v := Octets(UpToNul(data));
  }

  /** pb_dec_fixed_length_bytes. */
  method DecFixedLengthBytes(s: IStream, length: nat, ghost was: Value) returns (ok: bool, v: Value)
    modifies s
    ensures ok <==> DecodeValue(FixedBytes(length), old(s.left), was).Some?
    ensures ok ==> DecodeValue(FixedBytes(length), old(s.left), was).value == (v, s.left)
  {
    hide Nanopb.DecodeVarint32;
    var size, data;
    ok, size := s.DecodeVarint32();
    v := Octets([]);
    if !ok {
      return false, v;
    }
    if size == 0 {
      return true, Octets(Zeros(length));
    }
    if size != length {
      return false, v;
    }
    ok, data := s.Read(length);
    v := Octets(data);
  }

  /** The decoder of a field's type, into a place that holds `was`. */
  method DecodeOne(s: IStream, t: LType, was: Value) returns (ok: bool, v: Value)
    requires SchemaType(t)
    modifies s
    ensures ok <==> DecodeValue(t, old(s.left), was).Some?
    ensures ok ==> DecodeValue(t, old(s.left), was).value == (v, s.left)
    decreases t, 1
  {
    hide TakeString, DecodeVarint32, DecodeVarint64, Schema, FromFixed;
    v := was;
    var n;
    match t {
      case Bool =>
        ok, n := s.DecodeVarint32();
        v := Int(if n != 0 then 1 else 0);
      case VarInt(size) => ok, v := DecVarint(s, size, was);
      case UVarInt(size) => ok, v := DecUVarint(s, size, was);
      case SVarInt(size) => ok, v := DecSVarint(s, size, was);
      case Fixed32Bit =>
        ok, n := s.DecodeFixed32();
        v := Int(n);
      case Fixed64Bit =>
        ok, n := s.DecodeFixed64();
        v := Int(n);
      case ByteArray(max) => ok, v := DecBytes(s, max, was);
      case CString(max) => ok, v := DecString(s, max, was);
      case FixedBytes(length) => ok, v := DecFixedLengthBytes(s, length, was);
      case Submessage(fields) =>
        var made, sub := s.MakeSubstream();
        if !made || !was.Struct? || |was.slots| != |fields| {
          return false, was;
        }
        var slots;
        ok, slots := DecodeNoInit(sub, fields, was.slots);
        v := Struct(slots);
    }
  }

  /** decode_static_field, with the room of an array in `max`. */
  method DecodeStatic(s: IStream, f: Field, wire: nat, slot: Slot) returns (ok: bool, r: Slot)
    requires SchemaField(f)
    modifies s
    ensures ok <==> DecodeSlot(f, wire, old(s.left), slot).Some?
    ensures ok ==> DecodeSlot(f, wire, old(s.left), slot).value == (r, s.left)
    decreases f, 2
  {
    hide TakeString, DecodeValue, SchemaType, DefaultValue;
    r := slot;
    var v;
    match slot {
      case One(was) =>
        ok, v := DecodeOne(s, f.ltype, was);
        r := One(v);
      case Maybe(was) =>
        ok, v := DecodeOne(s, f.ltype, if was.Some? then was.value else DefaultValue(f));
        r := Maybe(Some(v));
      case Many(entries) =>
        var max := if f.rule.Repeated? || f.rule.FixedCount? then f.rule.max else 0;
        if wire == WT_STRING && Packable(f.ltype) {
          var made, sub := s.MakeSubstream();
          if !made {
            return false, slot;
          }
          var values := entries;
          ghost var data := sub.left;
          var status := true;
          while status && |sub.left| > 0 && |values| < max
            invariant fresh(sub) && (status ==> DecodePacked(f, data, entries, max) == DecodePacked(f, sub.left, values, max))
            invariant !status ==> DecodePacked(f, data, entries, max).None?
            invariant s.left == TakeString(old(s.left)).value.1
            decreases status, |sub.left|
          {
            ghost var front := sub.left;
            Shrinks(f, front);
            status, v := DecodeOne(sub, f.ltype, DefaultValue(f));
            if status {
              values := values + [v];
            }
          }
          ok := status && |sub.left| == 0;
          r := Many(values);
        } else if |entries| >= max {
          return false, slot;
        } else {
          ok, v := DecodeOne(s, f.ltype, DefaultValue(f));
          r := Many(entries + [v]);
        }
    }
  }

  lemma Shrinks(f: Field, s: Bytes)
    ensures var r := DecodeValue(f.ltype, s, DefaultValue(f)); r.Some? ==> |r.value.1| < |s|
  {
  }

  // ---- Required fields ----

  /** The bits of the two words are the indices of the required fields that were seen. */
  ghost predicate SeenBits(fieldsSeen: seq<nat>, seen: set<nat>)
    requires |fieldsSeen| == 2
  {
    forall k: nat :: k < MAX_REQUIRED ==> (k in seen <==> HasBit(fieldsSeen[k / 32], k % 32))
  }

  predicate Words(fieldsSeen: seq<nat>) {
    |fieldsSeen| == 2 && fieldsSeen[0] < 0x1_0000_0000 && fieldsSeen[1] < 0x1_0000_0000
  }

  lemma Power2At32()
    ensures Power2(32) == 0x1_0000_0000
  {
    assert Power2(8) == 256 by { assert Power2(3) == 8 && Power2(6) == 64; }
    assert Power2(16) == 0x1_0000 by { assert Power2(11) == 0x800 && Power2(14) == 0x4000; }
    assert Power2(24) == 0x100_0000 by { assert Power2(19) == 0x8_0000 && Power2(22) == 0x40_0000; }
    assert Power2(27) == 0x800_0000 && Power2(30) == 0x4000_0000;
  }

  lemma SeenOneMore(fieldsSeen: seq<nat>, seen: set<nat>, i: nat)
    requires Words(fieldsSeen) && i < MAX_REQUIRED
    ensures var words := fieldsSeen[i / 32 := WithBit(fieldsSeen[i / 32], i % 32)];
            Words(words) && (SeenBits(fieldsSeen, seen) ==> SeenBits(words, seen + {i}))
  {
    hide HasBit, WithBit, Power2;
    var w := fieldsSeen[i / 32];
    Power2At32();
    WithBitFits(w, i % 32, 32);
    forall k: nat | k < MAX_REQUIRED && k / 32 == i / 32
      ensures HasBit(WithBit(w, i % 32), k % 32) <==> HasBit(w, k % 32) || k == i
    {
      WithBitIs(w, i % 32, k % 32);
    }
  }

  /** A word shows of which of its lowest `r` fields were seen, if it can have no others. */
  lemma WordShows(fieldsSeen: seq<nat>, seen: set<nat>, i: nat, r: nat)
    requires Words(fieldsSeen) && SeenBits(fieldsSeen, seen) && i < 2 && r <= 32
    requires forall k :: k in seen && k < 32 * i + 32 ==> k < 32 * i + r
    ensures fieldsSeen[i] == Power2(r) - 1 <==> forall k: nat :: 32 * i <= k < 32 * i + r ==> k in seen
  {
    hide HasBit, Power2;
    var w := fieldsSeen[i];
    Power2At32();
    LowBits(w, 32, r);
    forall k: nat | k < 32
      ensures HasBit(w, k) <==> 32 * i + k in seen
    {
      assert (32 * i + k) / 32 == i && (32 * i + k) % 32 == k;
    }
    if forall k: nat :: 32 * i <= k < 32 * i + r ==> k in seen {
      assert OnlyLow(w, 32, r);
    }
    if OnlyLow(w, 32, r) {
      forall k: nat | 32 * i <= k < 32 * i + r
        ensures k in seen
      {
        assert HasBit(w, k - 32 * i) <==> 32 * i + (k - 32 * i) in seen;
      }
    }
  }

  /** All bits shifted down. */
  lemma ShiftedDown(r: nat)
    requires r <= 32
    ensures Power2(32 - r) > 0 && 0xFFFF_FFFF / Power2(32 - r) == Power2(r) - 1
  {
    hide Power2;
    Power2At32();
    Splits(r, 32 - r);
    Splits(32 - r, r);
    OneLess(Power2(r), Power2(32 - r));
  }

  lemma OneLess(p: nat, q: nat)
    requires p > 0 && q > 0
    ensures p * q >= 1 && (p * q - 1) / q == p - 1
  {
    var n := p * q - 1;
    assert n == q * (p - 1) + (q - 1);
    OneQuotient(q, p - 1, q - 1, n / q, n % q);
  }

  lemma OneQuotient(m: nat, q: nat, r: nat, q': nat, r': nat)
    requires m > 0 && r < m && r' < m && m * q + r == m * q' + r'
    ensures q == q'
  {
    if q < q' {
      OneMultipleApart(m, q, q');
    } else if q' < q {
      OneMultipleApart(m, q', q);
    }
  }

  lemma {:induction false} Splits(a: nat, b: nat)
    ensures Power2(a) * Power2(b) == Power2(a + b) && Power2(a) > 0
  {
    if a > 0 {
      Splits(a - 1, b);
      assert Power2(a) * Power2(b) == 2 * (Power2(a - 1) * Power2(b));
    }
  }

  /** How many required fields are tracked. */
  function Tracked(fields: Fields): (n: nat)
    ensures n <= MAX_REQUIRED
  {
    if RequiredIndex(fields, |fields|) > MAX_REQUIRED then MAX_REQUIRED else RequiredIndex(fields, |fields|)
  }

  lemma AllSeenIff(fields: Fields, seen: set<nat>)
    ensures AllSeen(fields, seen) <==> forall k: nat :: k < Tracked(fields) ==> k in seen
  {
    if AllSeen(fields, seen) {
      forall k: nat | k < Tracked(fields)
        ensures k in seen
      {
        var j := HasIndex(fields, |fields|, k);
      }
    }
    if forall k: nat :: k < Tracked(fields) ==> k in seen {
      forall k | 0 <= k < |fields| && fields[k].rule.Required? && RequiredIndex(fields, k) < MAX_REQUIRED
        ensures RequiredIndex(fields, k) in seen
      {
        IndexGrows(fields, k, |fields|);
      }
    }
  }

  /** The check at the end of pb_decode_noinit: the words with the bits of the tracked required fields are full. */
  method CheckRequired(iter: FieldIter, fieldsSeen: seq<nat>, ghost seen: set<nat>) returns (ok: bool)
    requires iter.Valid() && Schema(iter.fields) && Words(fieldsSeen)
    requires iter.fields != [] ==> SeenBits(fieldsSeen, seen) && forall k :: k in seen ==> k < Tracked(iter.fields)
    modifies iter
    ensures ok <==> AllSeen(iter.fields, seen)
  {
    hide SeenBits, AllSeen, Schema, Power2;
    var fields := iter.fields;
    var count, lastRequired := 0, true;
    var more := true;
    while more
      invariant iter.Valid()
      invariant !more ==> iter.pos == 0
      invariant !more && fields != [] ==> count == RequiredIndex(fields, |fields| - 1) && lastRequired == fields[|fields| - 1].rule.Required?
      invariant !more && fields == [] ==> count == 0
      decreases more, |fields| - iter.pos
    {
      count := iter.requiredIndex;
      lastRequired := iter.pos == |fields| || fields[iter.pos].rule.Required?;
      more := iter.Next();
    }
    if fields != [] { SchemaAt(fields, 0); }
    if lastRequired && iter.Tag() != 0 {
      count := count + 1;
    }
    if count > MAX_REQUIRED {
      count := MAX_REQUIRED;
    }
    assert count == Tracked(fields);
    AllSeenIff(fields, seen);
    if count > 0 {
      var i := 0;
      while i < count / 32
        invariant i <= count / 32 && forall k: nat :: k < 32 * i ==> k in seen
      {
        Power2At32();
        WordShows(fieldsSeen, seen, i, 32);
        if fieldsSeen[i] != 0xFFFF_FFFF {
          return false;
        }
        i := i + 1;
      }
      if count % 32 != 0 {
        ShiftedDown(count % 32);
        WordShows(fieldsSeen, seen, count / 32, count % 32);
        if fieldsSeen[count / 32] != 0xFFFF_FFFF / Power2(32 - count % 32) {
          return false;
        }
      }
    }
    ok := true;
  }

  lemma {:induction false} IndexGrows(fields: Fields, k: nat, n: nat)
    requires k < n <= |fields|
    ensures RequiredIndex(fields, k) + (if fields[k].rule.Required? then 1 else 0) <= RequiredIndex(fields, n)
  {
    if k < n - 1 { IndexGrows(fields, k, n - 1); }
  }

  /** Every smaller index belongs to some required field. */
  lemma {:induction false} HasIndex(fields: Fields, n: nat, i: nat) returns (k: nat)
    requires n <= |fields| && i < RequiredIndex(fields, n)
    ensures k < n && fields[k].rule.Required? && RequiredIndex(fields, k) == i
  {
    if i < RequiredIndex(fields, n - 1) {
      k := HasIndex(fields, n - 1, i);
    } else {
      k := n - 1;
    }
  }

  lemma FoundIs(fields: Fields, tag: nat, pos: nat)
    requires Schema(fields)
    ensures pos < |fields| && fields[pos].tag == tag ==> Find(fields, tag) == Some(pos)
    ensures (forall k :: 0 <= k < |fields| ==> fields[k].tag != tag) ==> Find(fields, tag) == None
  {
    if pos < |fields| && fields[pos].tag == tag {
      SchemaAt(fields, pos);
      FindsOwnTag(fields, pos);
    }
  }

  lemma TrackedIs(fields: Fields, i: nat)
    requires i < |fields| && fields[i].rule.Required? && RequiredIndex(fields, i) < MAX_REQUIRED
    ensures RequiredIndex(fields, i) < Tracked(fields)
  {
    IndexGrows(fields, i, |fields|);
  }

  /** The end of a round of pb_decode_noinit's loop, for the field that the iterator has found. */
  method DecodeKnown(s: IStream, iter: FieldIter, wire: nat, slots: seq<Slot>, words: seq<nat>, fixed: Option<nat>, size: nat, ghost tracked: set<nat>)
    returns (ok: bool, r: seq<Slot>, fieldsSeen: seq<nat>, fixedField: Option<nat>, fixedSize: nat, ghost seen: set<nat>)
    requires Schema(iter.fields) && iter.Valid() && iter.pos < |iter.fields| == |slots| && Words(words)
    requires SeenBits(words, tracked) && forall k :: k in tracked ==> k < Tracked(iter.fields)
    requires fixed.Some? ==> fixed.value < |iter.fields| && iter.fields[fixed.value].rule.FixedCount?
    modifies s
    ensures |r| == |iter.fields| && Words(fieldsSeen) && SeenBits(fieldsSeen, seen) && forall k :: k in seen ==> k < Tracked(iter.fields)
    ensures fixedField.Some? ==> fixedField.value < |iter.fields| && iter.fields[fixedField.value].rule.FixedCount?
    ensures var next := DecodeField(iter.fields, iter.pos, wire, old(s.left), Progress(slots, tracked, fixed, size));
            && (ok <==> next.Some?)
            && (ok ==> next.value == (Progress(r, seen, fixedField, fixedSize), s.left))
    decreases iter.fields, 2
  {
    hide Schema, DecodeSlot, HasBit, SeenBits, RequiredIndex, Tracked, WithBit;
    var fields, i := iter.fields, iter.pos;
    SchemaAt(fields, i);
    r, fieldsSeen, fixedField, fixedSize, seen := slots, words, fixed, size, tracked;
    if fields[i].rule.FixedCount? && fixedField != Some(i) {
      if fixedField.Some? && fixedSize != fields[fixedField.value].rule.max {
        ok := false;
        return;
      }
      fixedField, fixedSize, r := Some(i), 0, r[i := Many([])];
    }
    if fields[i].rule.Required? && iter.requiredIndex < MAX_REQUIRED {
      SeenOneMore(fieldsSeen, seen, iter.requiredIndex);
      TrackedIs(fields, i);
      var j := iter.requiredIndex;
      fieldsSeen := fieldsSeen[j / 32 := WithBit(fieldsSeen[j / 32], j % 32)];
      seen := seen + {j};
    }
    if fields[i].rule.OneOf? {
      r := Switched(fields, i, r);
    }
    assert Prepared(fields, i, Progress(slots, tracked, fixed, size)) == Some(Progress(r, seen, fixedField, fixedSize));
    var slot;
    ok, slot := DecodeStatic(s, fields[i], wire, r[i]);
    if ok {
      if fields[i].rule.FixedCount? && slot.Many? {
        fixedSize := |slot.values|;
      }
      r := r[i := slot];
    }
  }

  /** pb_decode_noinit: decodes into the slots as they are. */
  method DecodeNoInit(s: IStream, fields: Fields, slots: seq<Slot>) returns (ok: bool, r: seq<Slot>)
    requires Schema(fields) && |slots| == |fields|
    modifies s
    ensures ok <==> DecodeMessage(fields, old(s.left), slots).Some?
    ensures ok ==> r == DecodeMessage(fields, old(s.left), slots).value
    decreases fields, 3
  {
    hide Schema, DecodeVarint32, SkipField, Find, DecodeField, TakeString, AllSeen, HasBit, SeenBits, RequiredIndex, Tracked, WithBit;
    var iter := new FieldIter(fields);
    var fieldsSeen: seq<nat>, fixedField: Option<nat>, fixedSize: nat := [0, 0], None, 0;
    ghost var seen: set<nat> := {};
    r := slots;
    ghost var goal := DecodeLoop(fields, s.left, Progress(r, {}, None, 0));
    NothingSeen();
    var done := false;
    while |s.left| > 0 && !done
      invariant |r| == |fields| && fresh(iter) && iter.Valid() && iter.fields == fields && Words(fieldsSeen)
      invariant fields != [] ==> SeenBits(fieldsSeen, seen) && forall k :: k in seen ==> k < Tracked(fields)
      invariant fixedField.Some? ==> fixedField.value < |fields| && fields[fixedField.value].rule.FixedCount?
      invariant goal == if done then Some(Progress(r, seen, fixedField, fixedSize)) else DecodeLoop(fields, s.left, Progress(r, seen, fixedField, fixedSize))
      decreases !done, |s.left|
    {
      ghost var p := Progress(r, seen, fixedField, fixedSize);
      var decoded, wire, tag, eof := s.DecodeTag();
      if !decoded {
        if !eof {
          return false, slots;
        }
        done := true;
      } else {
        assert (tag * 8 + wire) / 8 == tag && (tag * 8 + wire) % 8 == wire;
        var found := iter.FindTag(tag);
        FoundIs(fields, tag, iter.pos);
        if !found {
          decoded := s.SkipField(wire);
          if !decoded {
            return false, slots;
          }
        } else if iter.pos == |fields| {
          SeenOneMore(fieldsSeen, seen, 0);
          fieldsSeen := fieldsSeen[0 := WithBit(fieldsSeen[0], 0)];
          var flag;
          decoded, flag := s.DecodeVarint32();
          if !decoded {
            return false, slots;
          }
        } else {
          decoded, r, fieldsSeen, fixedField, fixedSize, seen := DecodeKnown(s, iter, wire, r, fieldsSeen, fixedField, fixedSize, seen);
          if !decoded {
            return false, slots;
          }
        }
      }
    }
    if fixedField.Some? && fixedSize != fields[fixedField.value].rule.max {
      return false, slots;
    }
    ok := CheckRequired(iter, fieldsSeen, seen);
  }

  /** Storing the which_ variable of a union takes the other members away. */
  function Switched(fields: Fields, i: nat, slots: seq<Slot>): (r: seq<Slot>)
    requires i < |fields| == |slots|
  {
    seq(|fields|, k requires 0 <= k < |fields| => if k != i && fields[k].rule == fields[i].rule then Maybe(None) else slots[k])
  }

  lemma NothingSeen()
    ensures SeenBits([0, 0], {})
  {
    hide HasBit;
    forall k: nat | k < MAX_REQUIRED
      ensures !HasBit(0, k % 32)
    {
      ZeroHasNone(k % 32);
    }
  }

  /** pb_encode into a buffer that is large enough, then pb_decode from it with the schema of a reader. */
  method EncodeThenDecode(writer: Fields, message: seq<Slot>, maxSize: nat, reader: Fields) returns (status: Status, ok: bool, r: seq<Slot>)
    requires Schema(writer) && Schema(reader) && Agree(writer, reader)
    requires ValidStruct(writer, message) && |EncodeFrom(writer, message, 0)| <= MAX32
    ensures status == Success <==> |EncodeFrom(writer, message, 0)| <= maxSize
    ensures status == Success ==> (ok <==> Complete(reader, Sent(writer, reader, |writer|)))
    ensures ok ==> status == Success && |writer| == |message| && r == Received(writer, message, reader)
    ensures status == Success && reader == writer ==> ok && r == message
  {
    hide Schema, ValidStruct, EncodeFrom, DecodeMessage, Defaults, Agree, Complete, Received, Sent;
    var output := new OStream(false, maxSize, []);
    status := Encode(output, writer, message);
    ok, r := false, [];
    if status == Success {
      var input := new IStream(output.buffer);
      assert [] + EncodeFrom(writer, message, 0) == EncodeFrom(writer, message, 0);
      SchemaEvolution(writer, message, reader);
      UnionOf(writer, message);
      if reader == writer { MessageRoundTrip(writer, message); }
      ok, r := DecodeNoInit(input, reader, Defaults(reader));
    }
  }
}
