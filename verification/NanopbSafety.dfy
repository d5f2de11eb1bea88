/**
 What pb_decode leaves in a structure, whatever bytes it reads (pb_decode.c): every value fits its
 field, no array has more entries than room, and at most one member of a union is there.
 */
module NanopbSafety {
  import opened Store
  import opened Coding
  import opened Nanopb

  /** What the generator guarantees of a field's size and default. */
  predicate SafeType(t: LType)
    decreases t, 0
  {
    match t
    case VarInt(size) => IntSize(size)
    case UVarInt(size) => IntSize(size)
    case SVarInt(size) => IntSize(size)
    case CString(max) => max >= 1
    case Submessage(fields) => forall i :: 0 <= i < |fields| ==> SafeField(fields[i])
    case _ => true
  }

  /** Integers have 1, 2, 4 or 8 bytes, and that many bytes of values. */
  lemma RangeIs(size: nat)
    ensures IntSize(size) <==> size in {1, 2, 4, 8}
    ensures IntSize(size) ==> Range(size) == Power256(size)
  {
    assert Power256(2) == 0x1_0000 && Power256(4) == 0x1_0000_0000 && Power256(6) == 0x1_0000_0000_0000;
    assert Power256(8) == 0x1_0000_0000_0000_0000;
  }

  predicate SafeField(f: Field)
    decreases f, 1
  {
    SafeType(f.ltype) && (!f.ltype.Submessage? && f.default.Some? ==> SafeValue(f.ltype, f.default.value))
  }

  predicate SafeSchema(fields: Fields) {
    forall i :: 0 <= i < |fields| ==> SafeField(fields[i])
  }

  /** The value is within what its field can hold. */
  predicate SafeValue(t: LType, v: Value)
    decreases t, 1
  {
    match t
    case Bool => v.Int? && 0 <= v.n <= 1
    case VarInt(size) => v.Int? && -Range(size) <= 2 * v.n < Range(size)
    case UVarInt(size) => v.Int? && 0 <= v.n < Range(size)
    case SVarInt(size) => v.Int? && -Range(size) <= 2 * v.n < Range(size)
    case Fixed32Bit => v.Int? && 0 <= v.n < 0x1_0000_0000
    case Fixed64Bit => v.Int? && 0 <= v.n < 0x1_0000_0000_0000_0000
    case ByteArray(max) => v.Octets? && |v.bytes| <= max
    case CString(max) => v.Octets? && |v.bytes| + 1 <= max && 0 !in v.bytes
    case FixedBytes(size) => v.Octets? && |v.bytes| == size
    case Submessage(fields) => v.Struct? && SafeStruct(fields, v.slots)
  }

  predicate SafeStruct(fields: Fields, slots: seq<Slot>)
    decreases fields, 3
  {
    && |slots| == |fields|
    && (forall i :: 0 <= i < |fields| ==> SafeSlot(fields[i], slots[i]) && Complete(fields[i], slots[i]))
    && OnePerUnion(fields, slots)
  }

  predicate SafeSlot(f: Field, s: Slot)
    decreases f, 2
  {
    match f.rule
    case Required => s.One? && SafeValue(f.ltype, s.value)
    case Implicit => s.One? && SafeValue(f.ltype, s.value)
    case Optional => s.Maybe? && (s.opt.Some? ==> SafeValue(f.ltype, s.opt.value))
    case OneOf(_) => s.Maybe? && (s.opt.Some? ==> SafeValue(f.ltype, s.opt.value))
    case Repeated(max) => s.Many? && |s.values| <= max && forall k :: 0 <= k < |s.values| ==> SafeValue(f.ltype, s.values[k])
    case FixedCount(max) => s.Many? && |s.values| <= max && forall k :: 0 <= k < |s.values| ==> SafeValue(f.ltype, s.values[k])
  }

  /** An array of a fixed count has all its entries, or none was ever there. */
  predicate Complete(f: Field, s: Slot) {
    f.rule.FixedCount? && s.Many? && s.values != [] ==> |s.values| == f.rule.max
  }

  // ---- Defaults ----

  /** The structure that decoding starts from is safe. */
  lemma {:induction false} DefaultsAreSafe(fields: Fields)
    requires SafeSchema(fields)
    ensures SafeStruct(fields, Defaults(fields))
    decreases fields, 2
  {
    forall i | 0 <= i < |fields|
      ensures SafeSlot(fields[i], DefaultSlot(fields[i])) && Complete(fields[i], DefaultSlot(fields[i]))
    {
      DefaultIsSafe(fields[i]);
    }
  }

  lemma {:induction false} DefaultIsSafe(f: Field)
    requires SafeField(f)
    ensures SafeValue(f.ltype, DefaultValue(f))
    decreases f, 1
  {
    if f.ltype.Submessage? {
      assert SafeType(f.ltype);
      DefaultsAreSafe(f.ltype.fields);
    }
  }

  // ---- Values ----

  lemma {:induction false} UpToNulIs(s: Bytes)
    ensures 0 !in UpToNul(s) && |UpToNul(s)| <= |s|
  {
    if s != [] { UpToNulIs(s[1..]); }
  }

  lemma {:induction false} FromFixedFits(s: Bytes)
    ensures FromFixed(s) < Power256(|s|)
  {
    if s != [] { FromFixedFits(s[1..]); }
  }

  lemma FixedFits(s: Bytes)
    requires |s| == 4 || |s| == 8
    ensures if |s| == 4 then FromFixed(s) < 0x1_0000_0000 else FromFixed(s) < 0x1_0000_0000_0000_0000
  {
    FromFixedFits(s);
    assert Power256(4) == 0x1_0000_0000 by { assert Power256(2) == 0x1_0000; }
    assert Power256(8) == 0x1_0000_0000_0000_0000 by { assert Power256(6) == 0x1_0000_0000_0000; }
  }

  /** What is decoded into a place fits it. */
  lemma {:induction false} ValueIsSafe(t: LType, s: Bytes, was: Value)
    requires SafeType(t) && (t.Submessage? ==> SafeValue(t, was))
    ensures var r := DecodeValue(t, s, was); r.Some? ==> SafeValue(t, r.value.0)
    decreases t, |s|, 0
  {
    hide DecodeVarint64, DecodeVarint32, TakeString, UpToNul, FromFixed, DecodeMessage, SafeStruct, Signed, UnZigZag;
    match t
    case Fixed32Bit => if |s| >= 4 { FixedFits(s[..4]); }
    case Fixed64Bit => if |s| >= 8 { FixedFits(s[..8]); }
    case CString(_) =>
      var r := TakeString(s);
      if r.Some? { UpToNulIs(r.value.0); }
    case Submessage(fields) =>
      var r := TakeString(s);
      if r.Some? && |was.slots| == |fields| { MessageIsSafe(fields, r.value.0, was.slots); }
    case _ =>
  }

  lemma {:induction false} PackedIsSafe(f: Field, s: Bytes, values: seq<Value>, max: nat)
    requires SafeField(f) && |values| <= max && forall k :: 0 <= k < |values| ==> SafeValue(f.ltype, values[k])
    ensures var r := DecodePacked(f, s, values, max);
            r.Some? ==> |r.value| <= max && (forall k :: 0 <= k < |r.value| ==> SafeValue(f.ltype, r.value[k]))
    decreases f, |s|, 1
  {
    hide DecodeValue, SafeValue;
    if s != [] && |values| < max {
      DefaultIsSafe(f);
      ValueIsSafe(f.ltype, s, DefaultValue(f));
      var r := DecodeValue(f.ltype, s, DefaultValue(f));
      if r.Some? { PackedIsSafe(f, r.value.1, values + [r.value.0], max); }
    }
  }

  lemma {:induction false} SlotIsSafe(f: Field, wire: nat, s: Bytes, slot: Slot)
    requires SafeField(f) && SafeSlot(f, slot)
    ensures var r := DecodeSlot(f, wire, s, slot); r.Some? ==> SafeSlot(f, r.value.0)
    decreases f, |s|, 2
  {
    hide DecodeValue, SafeValue, DecodePacked, TakeString, Packable;
    DefaultIsSafe(f);
    match slot
    case One(was) => ValueIsSafe(f.ltype, s, was);
    case Maybe(was) => ValueIsSafe(f.ltype, s, if was.Some? then was.value else DefaultValue(f));
    case Many(values) =>
      ValueIsSafe(f.ltype, s, DefaultValue(f));
      var r := TakeString(s);
      if r.Some? { PackedIsSafe(f, r.value.0, values, f.rule.max); }
  }

  // ---- The loop ----

  /** What every round keeps: only the fixed-count array at hand may be incomplete, and its size is counted. */
  ghost predicate Going(fields: Fields, p: Progress) {
    && |p.slots| == |fields|
    && (forall i :: 0 <= i < |fields| ==> SafeSlot(fields[i], p.slots[i]))
    && OnePerUnion(fields, p.slots)
    && (forall i :: 0 <= i < |fields| && p.fixedField != Some(i) ==> Complete(fields[i], p.slots[i]))
    && (p.fixedField.Some? ==>
          var i := p.fixedField.value;
          i < |fields| && fields[i].rule.FixedCount? && p.slots[i].Many? && p.fixedSize == |p.slots[i].values|)
  }

  lemma PreparedGoes(fields: Fields, i: nat, p: Progress)
    requires Going(fields, p) && i < |fields| == |p.slots|
    ensures var q := Prepared(fields, i, p);
            q.Some? ==>
              && Going(fields, q.value)
              && (fields[i].rule.FixedCount? ==> q.value.fixedField == Some(i))
              && (fields[i].rule.OneOf? ==> forall k :: 0 <= k < |fields| && k != i && fields[k].rule == fields[i].rule ==> q.value.slots[k] == Maybe(None))
  {
    hide SafeValue, RequiredIndex;
  }

  lemma {:induction false} FieldGoes(fields: Fields, i: nat, wire: nat, s: Bytes, p: Progress)
    requires SafeSchema(fields) && Going(fields, p) && i < |fields| == |p.slots|
    ensures var r := DecodeField(fields, i, wire, s, p); r.Some? ==> Going(fields, r.value.0)
    decreases fields, |s|, 0
  {
    hide DecodeSlot, SafeValue, Prepared;
    PreparedGoes(fields, i, p);
    var q := Prepared(fields, i, p);
    if q.Some? {
      SlotIsSafe(fields[i], wire, s, q.value.slots[i]);
      var r := DecodeField(fields, i, wire, s, p);
      if r.Some? {
        forall j, k | 0 <= j < k < |fields| && fields[j].rule.OneOf? && fields[j].rule == fields[k].rule
          ensures r.value.0.slots[j] == Maybe(None) || r.value.0.slots[k] == Maybe(None)
        {
          assert q.value.slots[j] == Maybe(None) || q.value.slots[k] == Maybe(None);
        }
      }
    }
  }

  lemma {:induction false} LoopGoes(fields: Fields, s: Bytes, p: Progress)
    requires SafeSchema(fields) && Going(fields, p) && |p.slots| == |fields|
    ensures var r := DecodeLoop(fields, s, p); r.Some? ==> Going(fields, r.value)
    decreases fields, |s|, 1
  {
    hide DecodeField, DecodeVarint32, Find, Unknown, Going, SafeSchema;
    if s != [] {
      var key := DecodeVarint32(s);
      if key.Some? && key.value.0 != 0 {
        var i := Find(fields, key.value.0 / 8);
        if i.None? {
          var rest := Unknown(fields, key.value.0, key.value.1);
          if rest.Some? { LoopGoes(fields, rest.value, p); }
        } else {
          FieldGoes(fields, i.value, key.value.0 % 8, key.value.1, p);
          var r := DecodeField(fields, i.value, key.value.0 % 8, key.value.1, p);
          if r.Some? { LoopGoes(fields, r.value.1, r.value.0); }
        }
      }
    }
  }

  /**
   Whatever the bytes are: when decoding into a safe structure succeeds, the structure is safe, in
   its submessages too.
   */
  lemma {:induction false} MessageIsSafe(fields: Fields, s: Bytes, slots: seq<Slot>)
    requires SafeSchema(fields) && SafeStruct(fields, slots) && |slots| == |fields|
    ensures var r := DecodeMessage(fields, s, slots); r.Some? ==> SafeStruct(fields, r.value)
    decreases fields, |s|, 2
  {
    hide DecodeLoop, AllSeen, SafeSlot;
    var p := Progress(slots, {}, None, 0);
    LoopGoes(fields, s, p);
    var r := DecodeLoop(fields, s, p);
    if r.Some? && FixedComplete(fields, r.value) {
      forall i | 0 <= i < |fields|
        ensures Complete(fields[i], r.value.slots[i])
      {
      }
    }
  }

  /** pb_decode: any bytes at all, into a structure set to its defaults. */
  lemma DecodedIsSafe(fields: Fields, s: Bytes)
    requires SafeSchema(fields)
    ensures var r := DecodeMessage(fields, s, Defaults(fields)); r.Some? ==> SafeStruct(fields, r.value)
  {
    DefaultsAreSafe(fields);
    MessageIsSafe(fields, s, Defaults(fields));
  }
}
