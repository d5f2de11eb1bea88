/**
 Version edits as they stand in the MANIFEST (db/version_edit.cc). Internal keys are kept in
 their encoded form.
 */
module VersionEdits {
  import opened Keys
  import opened Store
  import opened Coding

  const LEVELS: nat := 7

  datatype File = File(number: nat, size: nat, smallest: Bytes, largest: Bytes)

  datatype Deleted = Deleted(level: nat, number: nat)

  datatype Pointer = Pointer(level: nat, key: Bytes)

  datatype NewFile = NewFile(level: nat, file: File)

  /** `deleted` is an ordered set: ascending, without duplicates. */
  datatype Edit = Edit(
    comparator: Option<Bytes>, logNumber: Option<nat>, prevLogNumber: Option<nat>, nextFileNumber: Option<nat>,
    lastSequence: Option<nat>, pointers: seq<Pointer>, deleted: seq<Deleted>, added: seq<NewFile>)

  const EMPTY: Edit := Edit(None, None, None, None, None, [], [], [])

  const COMPARATOR: nat := 1
  const LOG_NUMBER: nat := 2
  const NEXT_FILE_NUMBER: nat := 3
  const LAST_SEQUENCE: nat := 4
  const COMPACT_PTR: nat := 5
  const DELETED_FILE: nat := 6
  const NEW_FILE: nat := 7
  const PREV_LOG_NUMBER: nat := 9

  predicate Less(a: Deleted, b: Deleted) {
    a.level < b.level || (a.level == b.level && a.number < b.number)
  }

  predicate Ascending(ds: seq<Deleted>) {
    forall i, j :: 0 <= i < j < |ds| ==> Less(ds[i], ds[j])
  }

  predicate ValidFile(f: File) {
    f.number <= MAX64 && f.size <= MAX64 && |f.smallest| <= MAX32 && |f.largest| <= MAX32
  }

  predicate ValidNumber(n: Option<nat>) {
    n.Some? ==> n.value <= MAX64
  }

  predicate ValidEdit(e: Edit) {
    && (e.comparator.Some? ==> |e.comparator.value| <= MAX32)
    && ValidNumber(e.logNumber) && ValidNumber(e.prevLogNumber) && ValidNumber(e.nextFileNumber) && ValidNumber(e.lastSequence)
    && (forall i :: 0 <= i < |e.pointers| ==> e.pointers[i].level < LEVELS && |e.pointers[i].key| <= MAX32)
    && (forall i :: 0 <= i < |e.deleted| ==> e.deleted[i].level < LEVELS && e.deleted[i].number <= MAX64)
    && (forall i :: 0 <= i < |e.added| ==> e.added[i].level < LEVELS && ValidFile(e.added[i].file))
    && Ascending(e.deleted)
  }

  // ---- Encoding ----

  function NumberField(tag: nat, n: Option<nat>): Bytes {
    if n.None? then [] else Varint(tag) + Varint(n.value)
  }

  function PointerField(p: Pointer): Bytes {
    Varint(COMPACT_PTR) + Varint(p.level) + Prefixed(p.key)
  }

  function DeletedField(d: Deleted): Bytes {
    Varint(DELETED_FILE) + Varint(d.level) + Varint(d.number)
  }

  function NewFileField(n: NewFile): Bytes {
    Varint(NEW_FILE) + Varint(n.level) + Varint(n.file.number) + Varint(n.file.size) + Prefixed(n.file.smallest) + Prefixed(n.file.largest)
  }

  function PointerFields(ps: seq<Pointer>): Bytes {
    if ps == [] then [] else PointerField(ps[0]) + PointerFields(ps[1..])
  }

  function DeletedFields(ds: seq<Deleted>): Bytes {
    if ds == [] then [] else DeletedField(ds[0]) + DeletedFields(ds[1..])
  }

  function NewFileFields(ns: seq<NewFile>): Bytes {
    if ns == [] then [] else NewFileField(ns[0]) + NewFileFields(ns[1..])
  }

  /** EncodeTo. */
  function Encode(e: Edit): Bytes {
    (if e.comparator.Some? then Varint(COMPARATOR) + Prefixed(e.comparator.value) else [])
    + (NumberField(LOG_NUMBER, e.logNumber) + (NumberField(PREV_LOG_NUMBER, e.prevLogNumber)
    + (NumberField(NEXT_FILE_NUMBER, e.nextFileNumber) + (NumberField(LAST_SEQUENCE, e.lastSequence)
    + (PointerFields(e.pointers) + (DeletedFields(e.deleted) + NewFileFields(e.added)))))))
  }

  // ---- Decoding ----

  function GetVarint32(s: Bytes): (r: Option<(nat, Bytes)>)
    ensures r.Some? ==> |r.value.1| < |s|
  {
    match Decode(s, 5)
    case None => None
    case Some((v, n)) => Some((v % (MAX32 + 1), s[n..]))
  }

  function GetVarint64(s: Bytes): (r: Option<(nat, Bytes)>)
    ensures r.Some? ==> |r.value.1| < |s|
  {
    match Decode(s, 10)
    case None => None
    case Some((v, n)) => Some((v % (MAX64 + 1), s[n..]))
  }

  function GetLevel(s: Bytes): (r: Option<(nat, Bytes)>)
    ensures r.Some? ==> |r.value.1| < |s|
  {
    match GetVarint32(s)
    case None => None
    case Some((v, rest)) => if v < LEVELS then Some((v, rest)) else None
  }

  /** std::set::insert. */
  function Inserted(ds: seq<Deleted>, d: Deleted): seq<Deleted> {
    if ds == [] then [d]
    else if ds[0] == d then ds
    else if Less(d, ds[0]) then [d] + ds
    else [ds[0]] + Inserted(ds[1..], d)
  }

  function GetFile(s: Bytes): (r: Option<(File, Bytes)>)
    ensures r.Some? ==> |r.value.1| < |s|
  {
    match GetVarint64(s)
    case None => None
    case Some((number, s)) =>
      match GetVarint64(s)
      case None => None
      case Some((size, s)) =>
        match TakePrefixed(s)
        case None => None
        case Some((smallest, s)) =>
          match TakePrefixed(s)
          case None => None
          case Some((largest, s)) => Some((File(number, size, smallest, largest), s))
  }

  /** One round of DecodeFrom's loop, after the tag. */
  function DecodeField(tag: nat, s: Bytes, e: Edit): (r: Option<(Edit, Bytes)>)
    ensures r.Some? ==> |r.value.1| < |s|
  {
    if tag == COMPARATOR then
      match TakePrefixed(s) case None => None case Some((name, rest)) => Some((e.(comparator := Some(name)), rest))
    else if tag == LOG_NUMBER then
      match GetVarint64(s) case None => None case Some((n, rest)) => Some((e.(logNumber := Some(n)), rest))
    else if tag == PREV_LOG_NUMBER then
      match GetVarint64(s) case None => None case Some((n, rest)) => Some((e.(prevLogNumber := Some(n)), rest))
    else if tag == NEXT_FILE_NUMBER then
      match GetVarint64(s) case None => None case Some((n, rest)) => Some((e.(nextFileNumber := Some(n)), rest))
    else if tag == LAST_SEQUENCE then
      match GetVarint64(s) case None => None case Some((n, rest)) => Some((e.(lastSequence := Some(n)), rest))
    else if tag == COMPACT_PTR then
      match GetLevel(s)
      case None => None
      case Some((level, s)) =>
        (match TakePrefixed(s) case None => None case Some((key, rest)) => Some((e.(pointers := e.pointers + [Pointer(level, key)]), rest)))
    else if tag == DELETED_FILE then
      match GetLevel(s)
      case None => None
      case Some((level, s)) =>
        (match GetVarint64(s) case None => None case Some((n, rest)) => Some((e.(deleted := Inserted(e.deleted, Deleted(level, n))), rest)))
    else if tag == NEW_FILE then
      match GetLevel(s)
      case None => None
      case Some((level, s)) =>
        (match GetFile(s) case None => None case Some((f, rest)) => Some((e.(added := e.added + [NewFile(level, f)]), rest)))
    else None
  }

  /** The loop: nothing is left over, or the edit is corrupt. */
  function DecodeFields(s: Bytes, e: Edit): Option<Edit>
    decreases |s|
  {
    match GetVarint32(s)
    case None => if s == [] then Some(e) else None
    case Some((tag, rest)) =>
      (match DecodeField(tag, rest, e)
       case None => None
       case Some((e', rest)) => DecodeFields(rest, e'))
  }

  /** Clear resets everything but the compaction pointers. */
  function Cleared(e: Edit): Edit {
    EMPTY.(pointers := e.pointers)
  }

  class VersionEdit {
    var edit: Edit

    constructor ()
      ensures edit == EMPTY
    {
      edit := EMPTY;
    }

    /** EncodeTo: appends the fields that are there, in this order. */
    method EncodeTo(dst: Bytes) returns (r: Bytes)
      ensures r == dst + Encode(edit)
    {
      hide NumberField, PointerFields, DeletedFields, NewFileFields, Varint, Prefixed;
      r := dst;
      if edit.comparator.Some? {
        r := PutPrefixed(r, COMPARATOR, edit.comparator.value);
      }
      ghost var front := r;
      assert front == dst + if edit.comparator.Some? then Varint(COMPARATOR) + Prefixed(edit.comparator.value) else [];
      r := PutNumber(r, LOG_NUMBER, edit.logNumber);
      r := PutNumber(r, PREV_LOG_NUMBER, edit.prevLogNumber);
      r := PutNumber(r, NEXT_FILE_NUMBER, edit.nextFileNumber);
      r := PutNumber(r, LAST_SEQUENCE, edit.lastSequence);
      r := PutPointers(r, edit.pointers);
      r := PutDeleted(r, edit.deleted);
      r := PutNewFiles(r, edit.added);
      AllFields(dst, edit, front);
    }

    /** DecodeFrom. */
    method DecodeFrom(src: Bytes) returns (ok: bool)
      modifies this
      ensures ok <==> DecodeFields(src, Cleared(old(edit))).Some?
      ensures ok ==> edit == DecodeFields(src, Cleared(old(edit))).value
    {
      hide DecodeField;
      edit := Cleared(edit);
      var input := src;
      var msg := false;
      while !msg && GetVarint32(input).Some?
        invariant !msg ==> DecodeFields(src, Cleared(old(edit))) == DecodeFields(input, edit)
        invariant msg ==> DecodeFields(src, Cleared(old(edit))).None?
        decreases !msg, |input|
      {
        var tag := GetVarint32(input).value;
        var r := DecodeField(tag.0, tag.1, edit);
        if r.None? {
          msg := true;
        } else {
          edit, input := r.value.0, r.value.1;
        }
      }
      ok := !msg && input == [];
    }
  }

  /** Writing the fields one after another comes to the encoding. */
  lemma AllFields(dst: Bytes, e: Edit, front: Bytes)
    requires front == dst + if e.comparator.Some? then Varint(COMPARATOR) + Prefixed(e.comparator.value) else []
    ensures front + NumberField(LOG_NUMBER, e.logNumber) + NumberField(PREV_LOG_NUMBER, e.prevLogNumber)
      + NumberField(NEXT_FILE_NUMBER, e.nextFileNumber) + NumberField(LAST_SEQUENCE, e.lastSequence)
      + PointerFields(e.pointers) + DeletedFields(e.deleted) + NewFileFields(e.added) == dst + Encode(e)
  {
    hide NumberField, PointerFields, DeletedFields, NewFileFields, Varint, Prefixed;
    var b, c := NumberField(LOG_NUMBER, e.logNumber), NumberField(PREV_LOG_NUMBER, e.prevLogNumber);
    var d, f := NumberField(NEXT_FILE_NUMBER, e.nextFileNumber), NumberField(LAST_SEQUENCE, e.lastSequence);
    var g, h, k := PointerFields(e.pointers), DeletedFields(e.deleted), NewFileFields(e.added);
    Regroup(front + b + c + d + f + g, h, k);
    Regroup(front + b + c + d + f, g, h + k);
    Regroup(front + b + c + d, f, g + (h + k));
    Regroup(front + b + c, d, f + (g + (h + k)));
    Regroup(front + b, c, d + (f + (g + (h + k))));
    Regroup(front, b, c + (d + (f + (g + (h + k)))));
    Regroup(dst, if e.comparator.Some? then Varint(COMPARATOR) + Prefixed(e.comparator.value) else [],
            b + (c + (d + (f + (g + (h + k))))));
  }

  method PutPrefixed(dst: Bytes, tag: nat, value: Bytes) returns (r: Bytes)
    ensures r == dst + (Varint(tag) + Prefixed(value))
  {
    hide Varint, Prefixed;
    r := dst + Varint(tag);
    Regroup(dst, Varint(tag), Prefixed(value));
    r := r + Prefixed(value);
  }

  /** A numeric field, if it is there. */
  method PutNumber(dst: Bytes, tag: nat, n: Option<nat>) returns (r: Bytes)
    ensures r == dst + NumberField(tag, n)
  {
    hide Varint;
    r := dst;
    if n.Some? {
      Regroup(dst, Varint(tag), Varint(n.value));
      r := r + Varint(tag);
      r := r + Varint(n.value);
    }
  }

  method PutPointers(dst: Bytes, ps: seq<Pointer>) returns (r: Bytes)
    ensures r == dst + PointerFields(ps)
  {
    hide Varint, Prefixed;
    r := dst;
    for i := 0 to |ps|
      invariant r + PointerFields(ps[i..]) == dst + PointerFields(ps)
    {
      assert ps[i..][1..] == ps[i + 1..];
      Regroup(r, PointerField(ps[i]), PointerFields(ps[i + 1..]));
      Regroup(r, Varint(COMPACT_PTR), Varint(ps[i].level));
      Regroup(r, Varint(COMPACT_PTR) + Varint(ps[i].level), Prefixed(ps[i].key));
      r := r + Varint(COMPACT_PTR);
      r := r + Varint(ps[i].level);
      r := r + Prefixed(ps[i].key);
    }
  }

  method PutDeleted(dst: Bytes, ds: seq<Deleted>) returns (r: Bytes)
    ensures r == dst + DeletedFields(ds)
  {
    hide Varint;
    r := dst;
    for i := 0 to |ds|
      invariant r + DeletedFields(ds[i..]) == dst + DeletedFields(ds)
    {
      assert ds[i..][1..] == ds[i + 1..];
      Regroup(r, DeletedField(ds[i]), DeletedFields(ds[i + 1..]));
      Regroup(r, Varint(DELETED_FILE), Varint(ds[i].level));
      Regroup(r, Varint(DELETED_FILE) + Varint(ds[i].level), Varint(ds[i].number));
      r := r + Varint(DELETED_FILE);
      r := r + Varint(ds[i].level);
      r := r + Varint(ds[i].number);
    }
  }

  method PutNewFiles(dst: Bytes, ns: seq<NewFile>) returns (r: Bytes)
    ensures r == dst + NewFileFields(ns)
  {
    hide NewFileField;
    r := dst;
    for i := 0 to |ns|
      invariant r + NewFileFields(ns[i..]) == dst + NewFileFields(ns)
    {
      assert ns[i..][1..] == ns[i + 1..];
      Regroup(r, NewFileField(ns[i]), NewFileFields(ns[i + 1..]));
      r := PutNewFile(r, ns[i]);
    }
  }

  method PutNewFile(dst: Bytes, n: NewFile) returns (r: Bytes)
    ensures r == dst + NewFileField(n)
  {
    hide Varint, Prefixed;
    var a, b, c, d := Varint(NEW_FILE), Varint(n.level), Varint(n.file.number), Varint(n.file.size);
    r := dst + a;
    r := r + b;
    Regroup(dst, a, b);
    r := r + c;
    Regroup(dst, a + b, c);
    r := r + d;
    Regroup(dst, a + b + c, d);
    r := r + Prefixed(n.file.smallest);
    Regroup(dst, a + b + c + d, Prefixed(n.file.smallest));
    r := r + Prefixed(n.file.largest);
    Regroup(dst, a + b + c + d + Prefixed(n.file.smallest), Prefixed(n.file.largest));
  }

  // ---- The round trip ----

  lemma Varint32Ahead(v: nat, rest: Bytes)
    requires v <= MAX32
    ensures GetVarint32(Varint(v) + rest) == Some((v, rest))
  {
    Power128At5();
    VarintFits(v, 5);
    DecodeVarint(v, 5, rest);
  }

  lemma Varint64Ahead(v: nat, rest: Bytes)
    requires v <= MAX64
    ensures GetVarint64(Varint(v) + rest) == Some((v, rest))
  {
    hide Varint, Decode;
    Power128At10();
    VarintFits(v, 10);
    DecodeVarint(v, 10, rest);
  }

  /** One field in front of the rest. */
  lemma FieldAhead(tag: nat, body: Bytes, rest: Bytes, e: Edit, e': Edit)
    requires tag <= 9 && DecodeField(tag, body + rest, e) == Some((e', rest))
    ensures DecodeFields(Varint(tag) + body + rest, e) == DecodeFields(rest, e')
  {
    hide DecodeField, GetVarint32, Varint;
    Varint32Ahead(tag, body + rest);
    assert Varint(tag) + body + rest == Varint(tag) + (body + rest);
  }

  function WithNumber(tag: nat, n: nat, e: Edit): Edit {
    if tag == LOG_NUMBER then e.(logNumber := Some(n))
    else if tag == PREV_LOG_NUMBER then e.(prevLogNumber := Some(n))
    else if tag == NEXT_FILE_NUMBER then e.(nextFileNumber := Some(n))
    else e.(lastSequence := Some(n))
  }

  lemma NumberAhead(tag: nat, n: Option<nat>, rest: Bytes, e: Edit)
    requires ValidNumber(n) && (tag == LOG_NUMBER || tag == PREV_LOG_NUMBER || tag == NEXT_FILE_NUMBER || tag == LAST_SEQUENCE)
    ensures DecodeFields(NumberField(tag, n) + rest, e) == DecodeFields(rest, if n.Some? then WithNumber(tag, n.value, e) else e)
  {
    hide Varint, DecodeFields, GetVarint64;
    if n.Some? {
      Varint64Ahead(n.value, rest);
      FieldAhead(tag, Varint(n.value), rest, e, WithNumber(tag, n.value, e));
    } else {
      assert [] + rest == rest;
    }
  }

  lemma {:induction false} PointersAhead(ps: seq<Pointer>, rest: Bytes, e: Edit)
    requires forall i :: 0 <= i < |ps| ==> ps[i].level < LEVELS && |ps[i].key| <= MAX32
    ensures DecodeFields(PointerFields(ps) + rest, e) == DecodeFields(rest, e.(pointers := e.pointers + ps))
  {
    hide Varint, DecodeFields, GetVarint32, Prefixed, TakePrefixed;
    if ps == [] {
      assert [] + rest == rest && e.pointers + [] == e.pointers;
    } else {
      var p, more := ps[0], PointerFields(ps[1..]) + rest;
      var e' := e.(pointers := e.pointers + [p]);
      var body := Varint(p.level) + Prefixed(p.key);
      Varint32Ahead(p.level, Prefixed(p.key) + more);
      PrefixedRoundTrip(p.key, more);
      assert body + more == Varint(p.level) + (Prefixed(p.key) + more);
      FieldAhead(COMPACT_PTR, body, more, e, e');
      assert PointerFields(ps) + rest == Varint(COMPACT_PTR) + body + more;
      PointersAhead(ps[1..], rest, e');
      assert e.pointers + [p] + ps[1..] == e.pointers + ps;
    }
  }

  lemma {:induction false} InsertedLast(ds: seq<Deleted>, d: Deleted)
    requires forall i :: 0 <= i < |ds| ==> Less(ds[i], d)
    ensures Inserted(ds, d) == ds + [d]
  {
    if ds != [] {
      assert Less(ds[0], d);
      InsertedLast(ds[1..], d);
    }
  }

  lemma {:induction false} DeletedAhead(ds: seq<Deleted>, rest: Bytes, e: Edit)
    requires forall i :: 0 <= i < |ds| ==> ds[i].level < LEVELS && ds[i].number <= MAX64
    requires Ascending(e.deleted + ds)
    ensures DecodeFields(DeletedFields(ds) + rest, e) == DecodeFields(rest, e.(deleted := e.deleted + ds))
    decreases ds
  {
    hide Varint, DecodeFields, GetVarint32, GetVarint64, Inserted;
    if ds == [] {
      assert [] + rest == rest && e.deleted + [] == e.deleted;
    } else {
      var d, more := ds[0], DeletedFields(ds[1..]) + rest;
      var e' := e.(deleted := e.deleted + [d]);
      var body := Varint(d.level) + Varint(d.number);
      Varint32Ahead(d.level, Varint(d.number) + more);
      Varint64Ahead(d.number, more);
      assert body + more == Varint(d.level) + (Varint(d.number) + more);
      assert (e.deleted + ds)[|e.deleted|] == d;
      assert forall i :: 0 <= i < |e.deleted| ==> (e.deleted + ds)[i] == e.deleted[i];
      InsertedLast(e.deleted, d);
      FieldAhead(DELETED_FILE, body, more, e, e');
      assert DeletedFields(ds) + rest == Varint(DELETED_FILE) + body + more;
      assert e.deleted + [d] + ds[1..] == e.deleted + ds;
      DeletedAhead(ds[1..], rest, e');
    }
  }

  lemma FileAhead(f: File, rest: Bytes)
    requires ValidFile(f)
    ensures GetFile(Varint(f.number) + (Varint(f.size) + (Prefixed(f.smallest) + (Prefixed(f.largest) + rest)))) == Some((f, rest))
  {
    hide Varint, GetVarint64, Prefixed, TakePrefixed;
    Varint64Ahead(f.number, Varint(f.size) + (Prefixed(f.smallest) + (Prefixed(f.largest) + rest)));
    Varint64Ahead(f.size, Prefixed(f.smallest) + (Prefixed(f.largest) + rest));
    PrefixedRoundTrip(f.smallest, Prefixed(f.largest) + rest);
    PrefixedRoundTrip(f.largest, rest);
  }

  lemma {:induction false} NewFilesAhead(ns: seq<NewFile>, rest: Bytes, e: Edit)
    requires forall i :: 0 <= i < |ns| ==> ns[i].level < LEVELS && ValidFile(ns[i].file)
    ensures DecodeFields(NewFileFields(ns) + rest, e) == DecodeFields(rest, e.(added := e.added + ns))
  {
    hide Varint, DecodeFields, GetVarint32, Prefixed, GetFile;
    if ns == [] {
      assert [] + rest == rest && e.added + [] == e.added;
    } else {
      var n, more := ns[0], NewFileFields(ns[1..]) + rest;
      var f := n.file;
      var e' := e.(added := e.added + [n]);
      var body := Varint(n.level) + Varint(f.number) + Varint(f.size) + Prefixed(f.smallest) + Prefixed(f.largest);
      var tail := Varint(f.number) + (Varint(f.size) + (Prefixed(f.smallest) + (Prefixed(f.largest) + more)));
      assert body + more == Varint(n.level) + tail by {
        Joined(Varint(n.level), Varint(f.number), Varint(f.size), Prefixed(f.smallest), Prefixed(f.largest), more);
      }
      Varint32Ahead(n.level, tail);
      FileAhead(f, more);
      FieldAhead(NEW_FILE, body, more, e, e');
      assert NewFileFields(ns) + rest == Varint(NEW_FILE) + body + more by {
        Front(Varint(NEW_FILE), Varint(n.level), Varint(f.number), Varint(f.size), Prefixed(f.smallest), Prefixed(f.largest));
        assert NewFileField(n) == Varint(NEW_FILE) + body;
      }
      NewFilesAhead(ns[1..], rest, e');
      assert e.added + [n] + ns[1..] == e.added + ns;
    }
  }

  lemma Joined(a: Bytes, b: Bytes, c: Bytes, d: Bytes, e: Bytes, f: Bytes)
    ensures a + b + c + d + e + f == a + (b + (c + (d + (e + f))))
  {
    assert a + b + c + d + e + f == a + b + c + d + (e + f);
    assert a + b + c + d + (e + f) == a + b + c + (d + (e + f));
    assert a + b + c + (d + (e + f)) == a + b + (c + (d + (e + f)));
  }

  lemma Front(a: Bytes, b: Bytes, c: Bytes, d: Bytes, e: Bytes, f: Bytes)
    ensures a + b + c + d + e + f == a + (b + c + d + e + f)
  {
    assert a + b + c == a + (b + c);
    assert a + b + c + d == a + (b + c + d);
    assert a + b + c + d + e == a + (b + c + d + e);
  }

  /** Decoding an encoded edit fills in exactly its fields; pointers that were there stay in front. */
  lemma EditRoundTrip(e: Edit, was: Edit)
    requires ValidEdit(e)
    ensures DecodeFields(Encode(e), Cleared(was)) == Some(e.(pointers := was.pointers + e.pointers))
  {
    hide Varint, DecodeFields, NumberField, PointerFields, DeletedFields, NewFileFields, Prefixed, DecodeField, TakePrefixed;
    var f7 := NewFileFields(e.added);
    var f6 := DeletedFields(e.deleted) + f7;
    var f5 := PointerFields(e.pointers) + f6;
    var f4 := NumberField(LAST_SEQUENCE, e.lastSequence) + f5;
    var f3 := NumberField(NEXT_FILE_NUMBER, e.nextFileNumber) + f4;
    var f2 := NumberField(PREV_LOG_NUMBER, e.prevLogNumber) + f3;
    var f1 := NumberField(LOG_NUMBER, e.logNumber) + f2;
    var e0 := Cleared(was);
    ComparatorAhead(e.comparator, f1, e0);
    var e1 := e0.(comparator := e.comparator);
    NumberAhead(LOG_NUMBER, e.logNumber, f2, e1);
    var e2 := e1.(logNumber := e.logNumber);
    NumberAhead(PREV_LOG_NUMBER, e.prevLogNumber, f3, e2);
    var e3 := e2.(prevLogNumber := e.prevLogNumber);
    NumberAhead(NEXT_FILE_NUMBER, e.nextFileNumber, f4, e3);
    var e4 := e3.(nextFileNumber := e.nextFileNumber);
    NumberAhead(LAST_SEQUENCE, e.lastSequence, f5, e4);
    var e5 := e4.(lastSequence := e.lastSequence);
    PointersAhead(e.pointers, f6, e5);
    var e6 := e5.(pointers := was.pointers + e.pointers);
    assert [] + e.deleted == e.deleted && [] + e.added == e.added;
    DeletedAhead(e.deleted, f7, e6);
    var e7 := e6.(deleted := e.deleted);
    NewFilesAhead(e.added, [], e7);
    assert f7 + [] == f7;
    DecodedAll(e7.(added := e.added));
  }

  lemma DecodedAll(e: Edit)
    ensures DecodeFields([], e) == Some(e)
  {
  }

  lemma ComparatorAhead(c: Option<Bytes>, rest: Bytes, e: Edit)
    requires c.Some? ==> |c.value| <= MAX32
    requires e.comparator == None
    ensures DecodeFields((if c.Some? then Varint(COMPARATOR) + Prefixed(c.value) else []) + rest, e) == DecodeFields(rest, e.(comparator := c))
  {
    hide Varint, DecodeFields, Prefixed, TakePrefixed;
    if c.Some? {
      PrefixedRoundTrip(c.value, rest);
      FieldAhead(COMPARATOR, Prefixed(c.value), rest, e, e.(comparator := c));
    } else {
      assert [] + rest == rest;
    }
  }

  /** Clear forgets the compaction pointers, so decoding gives the edit back exactly into an edit that has none. */
  lemma EditRoundTripIff(e: Edit, was: Edit)
    requires ValidEdit(e)
    ensures DecodeFields(Encode(e), Cleared(was)) == Some(e) <==> was.pointers == []
  {
    hide DecodeFields, Encode;
    EditRoundTrip(e, was);
    if was.pointers == [] {
      assert was.pointers + e.pointers == e.pointers;
    } else {
      assert |was.pointers + e.pointers| > |e.pointers|;
    }
  }

  // ---- The bytes themselves ----

  /** Numbers of too many bytes are refused: more than five for 32 bits, more than ten for 64. */
  lemma TooLong(s: Bytes)
    ensures (|s| >= 5 && forall i :: 0 <= i < 5 ==> s[i] >= 128) ==> GetVarint32(s) == None && TakePrefixed(s) == None
    ensures (|s| >= 10 && forall i :: 0 <= i < 10 ==> s[i] >= 128) ==> GetVarint64(s) == None
  {
    hide Decode;
    if |s| >= 5 && forall i :: 0 <= i < 5 ==> s[i] >= 128 { Unterminated(s, 5); }
    if |s| >= 10 && forall i :: 0 <= i < 10 ==> s[i] >= 128 { Unterminated(s, 10); }
  }

  /** A level from 7 on is refused. */
  lemma LevelIff(level: byte)
    requires level < 128
    ensures DecodeFields([6, level, 1], EMPTY).Some? <==> level < 7
  {
    var s: Bytes := [6, level, 1];
    assert s[1..] == [level, 1] && [level, 1][1..] == [1] && [1 as byte][1..] == [];
    assert GetVarint32(s) == Some((6, [level, 1]));
    assert GetVarint32([level, 1]) == Some((level as nat, [1]));
    assert GetVarint64([1]) == Some((1, []));
    if level < 7 {
      assert DecodeField(6, [level, 1], EMPTY) == Some((EMPTY.(deleted := [Deleted(level as nat, 1)]), []));
      assert GetVarint32([]) == None;
    }
  }

  /** An edit with every field, one line each: the number of the field, then what is in it. */
  lemma EditOnDisk()
    ensures Encode(Edit(Some([0x63]), Some(10), Some(11), Some(12), Some(13), [Pointer(1, [0x6B])], [Deleted(2, 14)], [NewFile(3, File(15, 16, [0x61], [0x7A]))]))
      == [1, 1, 0x63] + ([2, 10] + ([9, 11] + ([3, 12] + ([4, 13] + ([5, 1, 1, 0x6B] + ([6, 2, 14] + [7, 3, 15, 16, 1, 0x61, 1, 0x7A]))))))
  {
    var ps, ds, ns := [Pointer(1, [0x6B])], [Deleted(2, 14)], [NewFile(3, File(15, 16, [0x61], [0x7A]))];
    assert ps[1..] == [] && ds[1..] == [] && ns[1..] == [];
    assert PointerFields(ps) == [5, 1, 1, 0x6B] by { assert PointerField(ps[0]) == [5, 1, 1, 0x6B]; }
    assert DeletedFields(ds) == [6, 2, 14] by { assert DeletedField(ds[0]) == [6, 2, 14]; }
    assert NewFileFields(ns) == [7, 3, 15, 16, 1, 0x61, 1, 0x7A] by { assert NewFileField(ns[0]) == [7, 3, 15, 16, 1, 0x61, 1, 0x7A]; }
    assert Varint(COMPARATOR) + Prefixed([0x63]) == [1, 1, 0x63];
    assert NumberField(LOG_NUMBER, Some(10)) == [2, 10] && NumberField(PREV_LOG_NUMBER, Some(11)) == [9, 11];
    assert NumberField(NEXT_FILE_NUMBER, Some(12)) == [3, 12] && NumberField(LAST_SEQUENCE, Some(13)) == [4, 13];
  }
}
