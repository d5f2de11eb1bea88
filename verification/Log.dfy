/**
 The write-ahead log (db/log_format.h, log_writer.cc, log_reader.cc): records are cut into
 fragments that never cross a 32 KB block. The checksum is any function of the type byte and
 the payload. The reader starts at offset 0. Operations on files may fail.
 */
module Log {
  import opened Keys
  import opened Store
  import opened Coding

  const BLOCK: nat := 32768
  const HEADER: nat := 7

  const ZERO: nat := 0
  const FULL: nat := 1
  const FIRST: nat := 2
  const MIDDLE: nat := 3
  const LAST: nat := 4

  type Crc = (byte, Bytes) -> nat

  function Kind(begin: bool, end: bool): (t: nat)
    ensures FULL <= t <= LAST
  {
    if begin then (if end then FULL else FIRST) else if end then LAST else MIDDLE
  }

  function Stored(crc: Crc, t: byte, payload: Bytes): (v: nat)
    ensures v <= MAX32
  {
    crc(t, payload) % (MAX32 + 1)
  }

  /** A physical record: checksum, length, type, payload. */
  function Physical(crc: Crc, t: nat, payload: Bytes): (s: Bytes)
    requires t <= LAST && |payload| <= BLOCK - HEADER
    ensures |s| == HEADER + |payload|
  {
    Fixed32(Stored(crc, t as byte, payload)) + [(|payload| % 256) as byte, (|payload| / 256) as byte, t as byte] + payload
  }

  type Offset = n: nat | n <= BLOCK

  /** Zeros that fill up a block too full for another header. */
  function Pad(off: Offset): (n: nat)
    ensures n < HEADER
  {
    if BLOCK - off < HEADER then BLOCK - off else 0
  }

  /** Where the next header goes. */
  function Start(off: Offset): (n: Offset)
    ensures n <= BLOCK - HEADER
  {
    if BLOCK - off < HEADER then 0 else off
  }

  /** How much of the data the next fragment takes. */
  function Take(n: nat, off: Offset): (k: nat)
    ensures k <= n && Start(off) + HEADER + k <= BLOCK
  {
    if n < BLOCK - Start(off) - HEADER then n else BLOCK - Start(off) - HEADER
  }

  function Fragment(crc: Crc, data: Bytes, off: Offset, begin: bool): (s: Bytes)
    ensures |s| == Pad(off) + HEADER + Take(|data|, off)
  {
    var n := Take(|data|, off);
    Zeros(Pad(off)) + Physical(crc, Kind(begin, n == |data|), data[..n])
  }

  /** All bytes of one record that starts `off` bytes into a block. */
  function Emit(crc: Crc, data: Bytes, off: Offset, begin: bool): (s: Bytes)
    ensures |s| >= HEADER
    decreases |data|, BLOCK - off
  {
    var n := Take(|data|, off);
    if n == |data| then Fragment(crc, data, off, begin)
    else Fragment(crc, data, off, begin) + Emit(crc, data[n..], Start(off) + HEADER + n, false)
  }

  /** All bytes of a sequence of records. */
  function Stream(crc: Crc, records: seq<Bytes>, off: nat): Bytes {
    if records == [] then []
    else
      var first := Emit(crc, records[0], off % BLOCK, true);
      first + Stream(crc, records[1..], off + |first|)
  }

  /** A full block and an empty one are the same place. */
  lemma WrapSame(crc: Crc, data: Bytes, begin: bool)
    ensures Emit(crc, data, BLOCK, begin) == Emit(crc, data, 0, begin)
  {
    assert Take(|data|, BLOCK) == Take(|data|, 0) && Zeros(0) == [];
  }

  lemma EmitAt(crc: Crc, data: Bytes, off: Offset, begin: bool, place: nat)
    requires place % BLOCK == off % BLOCK
    ensures Emit(crc, data, off, begin) == Emit(crc, data, place % BLOCK, begin)
  {
    hide Emit;
    if off == BLOCK { WrapSame(crc, data, begin); }
  }

  lemma {:induction false} StreamGrows(crc: Crc, records: seq<Bytes>, r: Bytes, off: nat)
    ensures Stream(crc, records + [r], off)
      == Stream(crc, records, off) + Emit(crc, r, (off + |Stream(crc, records, off)|) % BLOCK, true)
  {
    hide Emit;
    if records == [] {
      assert [r][1..] == [] && (records + [r])[0] == r && [] + [r] == [r];
      assert Stream(crc, [r], off) == Emit(crc, r, off % BLOCK, true) + [];
    } else {
      var first := Emit(crc, records[0], off % BLOCK, true);
      StreamGrows(crc, records[1..], r, off + |first|);
      assert (records + [r])[1..] == records[1..] + [r];
      assert off + |first| + |Stream(crc, records[1..], off + |first|)| == off + |Stream(crc, records, off)|;
    }
  }

  lemma EmitStep(crc: Crc, data: Bytes, off: Offset, begin: bool)
    ensures var n := Take(|data|, off);
            Emit(crc, data, off, begin) == Fragment(crc, data, off, begin)
              + if n == |data| then [] else Emit(crc, data[n..], Start(off) + HEADER + n, false)
  {
    hide Fragment;
    assert Fragment(crc, data, off, begin) + [] == Fragment(crc, data, off, begin);
  }

  /** Four bytes of checksum and two of length, low byte first, and the kind. */
  function Header(crc: Crc, payload: Bytes, t: byte): Bytes
    requires |payload| < 65536
  {
    Fixed32(crc(t, payload) % 0x1_0000_0000) + [(|payload| % 256) as byte, (|payload| / 256) as byte, t]
  }

  /** The first fragment at the start of a block, and what follows in the next one. */
  lemma FirstOnDisk(crc: Crc, data: Bytes, begin: bool)
    ensures var n := if |data| <= 32761 then |data| else 32761;
            Emit(crc, data, 0, begin)
            == Header(crc, data[..n], if begin then (if n == |data| then 1 else 2) else if n == |data| then 4 else 3) + data[..n]
               + if n == |data| then [] else Emit(crc, data[n..], 0, false)
  {
    hide Emit, Fixed32;
    EmitStep(crc, data, 0, begin);
    assert Zeros(0) == [];
    if |data| > 32761 { WrapSame(crc, data[32761..], false); }
  }

  /** On disk: blocks of 32768 bytes, and in front of each fragment its checksum, length and kind. */
  lemma OnDisk(crc: Crc, data: Bytes)
    ensures |data| <= 32761 ==> Emit(crc, data, 0, true) == Header(crc, data, 1) + data
    ensures 32761 < |data| <= 65522 ==>
              var a, b := data[..32761], data[32761..];
              Emit(crc, data, 0, true) == Header(crc, a, 2) + a + (Header(crc, b, 4) + b)
    ensures 65522 < |data| <= 98283 ==>
              var a, b, c := data[..32761], data[32761..65522], data[65522..];
              Emit(crc, data, 0, true) == Header(crc, a, 2) + a + (Header(crc, b, 3) + b + (Header(crc, c, 4) + c))
  {
    hide Emit, Header;
    FirstOnDisk(crc, data, true);
    if |data| <= 32761 {
      assert data[..|data|] == data;
      assert Header(crc, data, 1) + data + [] == Header(crc, data, 1) + data;
    } else {
      var rest := data[32761..];
      FirstOnDisk(crc, rest, false);
      if |rest| <= 32761 {
        assert rest[..|rest|] == rest;
        assert Header(crc, rest, 4) + rest + [] == Header(crc, rest, 4) + rest;
      } else {
        var last := rest[32761..];
        FirstOnDisk(crc, last, false);
        assert rest[..32761] == data[32761..65522] && last == data[65522..] && last[..|last|] == last;
        if |last| <= 32761 { assert Header(crc, last, 4) + last + [] == Header(crc, last, 4) + last; }
      }
    }
  }

  /** Up to six bytes at the end of a block are too few for a header and are zeros. */
  lemma TrailerOnDisk(crc: Crc, data: Bytes, n: nat)
    requires n <= 7
    ensures n < 7 ==> Emit(crc, data, 32768 - n, true) == Zeros(n) + Emit(crc, data, 0, true)
    ensures n == 7 ==> Emit(crc, data, 32768 - n, true) == Header(crc, [], if data == [] then 1 else 2) + if data == [] then [] else Emit(crc, data, 0, false)
  {
    hide Emit, Fixed32;
    if n < 7 {
      PadFirst(crc, data, 32768 - n, true);
    } else {
      EmitStep(crc, data, 32761, true);
      WrapSame(crc, data, false);
      assert Zeros(0) == [] && data[0..] == data && data[..0] == [];
    }
  }

  /** Offsets in the file and in the block advance together. */
  lemma Advance(off: Offset, place: nat, n: nat)
    requires off % BLOCK == place % BLOCK && Start(off) + HEADER + n <= BLOCK
    ensures (Start(off) + HEADER + n) % BLOCK == (place + Pad(off) + HEADER + n) % BLOCK
  {
    var q := place / BLOCK;
    assert place == q * BLOCK + off % BLOCK;
    assert place + Pad(off) == q * BLOCK + Start(off) || place + Pad(off) == (q + 1) * BLOCK + Start(off);
  }

  // ---- The writer ----

  /** None of these operations fails. */
  ghost predicate Clean(faults: nat -> Option<nat>, lo: nat, hi: nat) {
    forall k :: lo <= k < hi ==> faults(k).None?
  }

  lemma CleanPart(faults: nat -> Option<nat>, a: nat, b: nat, hi: nat)
    requires Clean(faults, a, hi) && a <= b < hi
    ensures Clean(faults, a, b) && faults(b).None? && Clean(faults, b, hi)
  {
  }

  lemma CleanJoin(faults: nat -> Option<nat>, a: nat, b: nat, hi: nat)
    requires a <= b <= hi
    ensures Clean(faults, a, hi) <==> Clean(faults, a, b) && Clean(faults, b, hi)
  {
  }

  lemma CleanUpTo(faults: nat -> Option<nat>, a: nat, b: nat, hi: nat)
    requires a <= b <= hi
    ensures Clean(faults, a, hi) ==> Clean(faults, a, b) && (b < hi ==> faults(b).None?)
  {
  }

  lemma CleanNone(faults: nat -> Option<nat>, a: nat)
    ensures Clean(faults, a, a)
  {
  }

  /** A file under append; the n-th operation on it may fail, an append after some bytes. */
  class WritableFile {
    const faults: nat -> Option<nat>
    var contents: Bytes
    var calls: nat

    constructor (faults: nat -> Option<nat>, contents: Bytes)
      ensures this.contents == contents && calls == 0 && this.faults == faults
    {
      this.faults := faults;
      this.contents := contents;
      calls := 0;
    }

    /** How many of `n` bytes the next append gets down. */
    function Room(n: nat): (k: nat)
      reads this
      ensures k <= n && (faults(calls).None? ==> k == n)
    {
      if faults(calls).Some? && faults(calls).value < n then faults(calls).value else n
    }

    method Append(data: Bytes) returns (ok: bool)
      modifies this
      ensures ok == faults(old(calls)).None? && calls == old(calls) + 1
      ensures contents == old(contents) + data[..old(Room(|data|))]
    {
      ok := faults(calls).None?;
      contents := contents + data[..Room(|data|)];
      calls := calls + 1;
    }

    method Flush() returns (ok: bool)
      modifies this
      ensures ok == faults(old(calls)).None? && calls == old(calls) + 1 && contents == old(contents)
    {
      ok := faults(calls).None?;
      calls := calls + 1;
    }
  }

  class Writer {
    const crc: Crc
    const dest: WritableFile
    var blockOffset: Offset

    /** The writer's place in the block is that of the file's end. */
    ghost predicate Aligned()
      reads this, dest
    {
      blockOffset % BLOCK == |dest.contents| % BLOCK
    }

    /** Appends to a file that may already have some contents; a new log is one that has none. */
    constructor (crc: Crc, dest: WritableFile)
      ensures Aligned() && this.dest == dest && this.crc == crc
    {
      this.crc := crc;
      this.dest := dest;
      blockOffset := |dest.contents| % BLOCK;
    }

    /** The block offset advances even when the file does not. */
    method EmitPhysicalRecord(t: nat, payload: Bytes) returns (ok: bool)
      requires t <= LAST && blockOffset + HEADER + |payload| <= BLOCK
      modifies this, dest
      ensures blockOffset == old(blockOffset) + HEADER + |payload|
      ensures old(dest.contents) <= dest.contents <= old(dest.contents) + Physical(crc, t, payload)
      ensures ok ==> dest.contents == old(dest.contents) + Physical(crc, t, payload)
      ensures ok <==> Clean(dest.faults, old(dest.calls), dest.calls)
      ensures old(dest.calls) < dest.calls <= old(dest.calls) + 3 && Clean(dest.faults, old(dest.calls), dest.calls - 1)
    {
      var buf := Fixed32(Stored(crc, t as byte, payload)) + [(|payload| % 256) as byte, (|payload| / 256) as byte, t as byte];
      assert old(dest.contents) + Physical(crc, t, payload) == old(dest.contents) + buf + payload;
      ok := dest.Append(buf);
      if ok {
        assert buf[..|buf|] == buf;
        ok := dest.Append(payload);
        if ok {
          assert payload[..|payload|] == payload;
          ok := dest.Flush();
        }
      }
      blockOffset := blockOffset + HEADER + |payload|;
    }

    /** How much of the trailer before the next header gets into the file. */
    function Trailer(): (k: nat)
      reads this, dest
      ensures k <= Pad(blockOffset) && (dest.faults(dest.calls).None? ==> k == Pad(blockOffset))
    {
      if Pad(blockOffset) == 0 then 0 else dest.Room(Pad(blockOffset))
    }

    /** The first operation on the file that a record does not survive: a trailer comes before it. */
    ghost function FirstOwn(): nat
      reads this, dest
    {
      dest.calls + if Pad(blockOffset) > 0 then 1 else 0
    }

    lemma OwnIs()
      ensures dest.calls <= FirstOwn() && (Pad(blockOffset) == 0 ==> Trailer() == 0)
      ensures Trailer() < Pad(blockOffset) ==> dest.faults(dest.calls).Some? && FirstOwn() == dest.calls + 1
    {
    }

    /** With the trailer, as far as it gets into the file, and the rest of the record the file holds `goal`. */
    ghost predicate ToGo(left: Bytes, begin: bool, goal: Bytes)
      reads this, dest
    {
      && |Emit(crc, left, blockOffset, begin)| >= Pad(blockOffset)
      && goal == dest.contents + Zeros(Trailer()) + Emit(crc, left, blockOffset, begin)[Pad(blockOffset)..]
    }

    lemma StillToGo(left: Bytes, goal: Bytes)
      requires Pad(blockOffset) == 0 && goal == dest.contents + Emit(crc, left, blockOffset, false)
      ensures ToGo(left, false, goal)
    {
      hide Emit;
      assert dest.contents + Zeros(Trailer()) == dest.contents;
    }

    lemma RecordToGo(slice: Bytes)
      ensures ToGo(slice, true, dest.contents + Zeros(Trailer()) + Emit(crc, slice, blockOffset, true)[Pad(blockOffset)..])
    {
      hide Emit;
      Padded(crc, slice, blockOffset);
    }

    /** The next fragment, and what is left after it. */
    lemma OneFragment(left: Bytes, begin: bool, goal: Bytes)
      requires ToGo(left, begin, goal)
      ensures Start(blockOffset) <= BLOCK - HEADER
      ensures var n := Take(|left|, blockOffset);
              && n == (if |left| < BLOCK - Start(blockOffset) - HEADER then |left| else BLOCK - Start(blockOffset) - HEADER)
              && var end := n == |left|;
              && goal == dest.contents + Zeros(Trailer()) + Physical(crc, Kind(begin, end), left[..n])
                   + (if end then [] else Emit(crc, left[n..], Start(blockOffset) + HEADER + n, false))
              && (!end ==> Pad(Start(blockOffset) + HEADER + n) == 0)
    {
      hide Emit, Physical;
      var off := blockOffset;
      EmitStep(crc, left, off, begin);
      var n := Take(|left|, off);
      var tail := if n == |left| then [] else Emit(crc, left[n..], Start(off) + HEADER + n, false);
      Glue(dest.contents + Zeros(Trailer()), Zeros(Pad(off)), Physical(crc, Kind(begin, n == |left|), left[..n]), tail);
    }

    /** Fills up a block that has no room for another header. */
    method SwitchBlock()
      modifies this, dest
      ensures blockOffset == Start(old(blockOffset)) && dest.contents == old(dest.contents) + Zeros(old(Trailer()))
      ensures dest.calls == old(FirstOwn())
    {
      var leftover := BLOCK - blockOffset;
      if leftover < HEADER {
        if leftover > 0 {
          var _ := dest.Append(Zeros(leftover));
        }
        blockOffset := 0;
      }
    }

    /**
     What AddRecord appends depends on nothing but the place in the block. It succeeds exactly when
     every operation after the trailer in front does; then all of the record is there, and the file
     is as it should be exactly if the trailer was written too. It stops at the first of those
     operations that fails, and a part of the record is there.
     */
    method AddRecord(slice: Bytes) returns (ok: bool)
      modifies this, dest
      ensures var record := Emit(crc, slice, old(blockOffset), true)[Pad(old(blockOffset))..];
              && var start := old(dest.contents) + Zeros(old(Trailer()));
              && start <= dest.contents <= start + record
              && (ok ==> dest.contents == start + record)
      ensures ok ==> (dest.contents == old(dest.contents) + Emit(crc, slice, old(blockOffset), true) <==> old(Trailer()) == Pad(old(blockOffset)))
      ensures ok && old(Aligned()) && old(Trailer()) == Pad(old(blockOffset)) ==> Aligned()
      ensures ok <==> Clean(dest.faults, old(FirstOwn()), dest.calls)
      ensures old(FirstOwn()) < dest.calls && Clean(dest.faults, old(FirstOwn()), dest.calls - 1)
    {
      hide Physical, Emit, Zeros, Pad, Start, Take, Clean, WritableFile.Room, Trailer, ToGo;
      var left := slice;
      var begin, more := true, true;
      ghost var off0, start, place: nat := blockOffset, dest.contents + Zeros(Trailer()), blockOffset;
      Padded(crc, slice, off0);
      ghost var goal := start + Emit(crc, slice, off0, true)[Pad(off0)..];
      assert ToGo(slice, true, goal) by { RecordToGo(slice); }
      ok := true;
      while more
        invariant begin ==> more && blockOffset == off0 == place && start == dest.contents + Zeros(Trailer()) && dest.contents == old(dest.contents)
        invariant !begin ==> start <= dest.contents <= goal && (ok ==> |dest.contents| - |start| == place - off0 - Pad(off0))
        invariant if more then ToGo(left, begin, goal) && ok && (!begin ==> Pad(blockOffset) == 0) else ok ==> dest.contents == goal
        invariant blockOffset % BLOCK == place % BLOCK && place >= off0
        invariant begin ==> FirstOwn() == old(FirstOwn())
        invariant !begin ==> old(FirstOwn()) < dest.calls && Clean(dest.faults, old(FirstOwn()), dest.calls - 1)
        invariant !begin ==> (ok <==> Clean(dest.faults, old(FirstOwn()), dest.calls))
        decreases more, |left|, BLOCK - blockOffset
      {
        ghost var off := blockOffset;
        OneFragment(left, begin, goal);
        Advance(off, place, Take(|left|, off));
        SwitchBlock();
        ghost var calls := dest.calls;
        var avail := BLOCK - blockOffset - HEADER;
        var n := if |left| < avail then |left| else avail;
        var end := n == |left|;
        ok := EmitPhysicalRecord(Kind(begin, end), left[..n]);
        place := place + Pad(off) + HEADER + n;
        left := left[n..];
        begin, more := false, ok && left != [];
        CleanNone(dest.faults, calls);
        CleanJoin(dest.faults, old(FirstOwn()), calls, dest.calls);
        CleanJoin(dest.faults, old(FirstOwn()), calls, dest.calls - 1);
        if more { StillToGo(left, goal); }
      }
      if old(Aligned()) { SamePlace(|old(dest.contents)|, off0, place - off0); }
    }
  }

  /** A record starts with the trailer of the block before. */
  lemma Padded(crc: Crc, data: Bytes, off: Offset)
    ensures |Emit(crc, data, off, true)| >= Pad(off)
    ensures Emit(crc, data, off, true) == Zeros(Pad(off)) + Emit(crc, data, off, true)[Pad(off)..]
  {
    hide Emit, Physical;
    EmitStep(crc, data, off, true);
  }

  lemma SamePlace(a: nat, b: nat, d: nat)
    requires a % BLOCK == b % BLOCK
    ensures (a + d) % BLOCK == (b + d) % BLOCK
  {
    var p, q := a / BLOCK, b / BLOCK;
    assert a + d == (b + d) + (p - q) * BLOCK;
  }

  lemma Glue(a: Bytes, b: Bytes, c: Bytes, d: Bytes)
    ensures ((b + c) + d)[|b|..] == c + d && a + (c + d) == a + c + d
  {
  }

  // ---- The reader ----

  const EOF: nat := 5
  const BAD: nat := 6

  /** The first `k` bytes of what the writer would have next are all that is left of the file. */
  ghost predicate Ahead(file: Bytes, at: nat, crc: Crc, data: Bytes, begin: bool, tail: Bytes) {
    at <= |file| && file[at..] <= Emit(crc, data, at % BLOCK, begin) + tail
  }

  /** Where the first fragment from `at` on ends. */
  function FragmentEnd(at: nat, n: nat): nat {
    at + Pad(at % BLOCK) + HEADER + Take(n, at % BLOCK)
  }

  /** Skipping a trailer loses nothing. */
  lemma TrailerSkips(file: Bytes, at: nat, crc: Crc, data: Bytes, begin: bool, tail: Bytes, block: nat)
    requires Ahead(file, at, crc, data, begin, tail)
    requires block % BLOCK == 0 && at <= block <= |file| && block - at < HEADER
    ensures Ahead(file, block, crc, data, begin, tail) && FragmentEnd(block, |data|) == FragmentEnd(at, |data|)
    ensures Take(|data|, block % BLOCK) == Take(|data|, at % BLOCK)
  {
    hide Emit;
    var off := at % BLOCK;
    if at < block {
      assert off == BLOCK - (block - at);
      PadFirst(crc, data, off, begin);
      assert file[block..] == file[at..][BLOCK - off..];
      assert (Zeros(BLOCK - off) + Emit(crc, data, 0, begin) + tail)[BLOCK - off..] == Emit(crc, data, 0, begin) + tail;
    }
  }

  lemma PadFirst(crc: Crc, data: Bytes, off: Offset, begin: bool)
    requires BLOCK - off < HEADER
    ensures Emit(crc, data, off, begin) == Zeros(BLOCK - off) + Emit(crc, data, 0, begin)
  {
    hide Emit, Physical;
    EmitStep(crc, data, off, begin);
    EmitStep(crc, data, 0, begin);
    assert Fragment(crc, data, off, begin) == Zeros(BLOCK - off) + Fragment(crc, data, 0, begin);
  }

  /** What is left of a file that begins with (part of) a physical record. */
  lemma HeaderAhead(s: Bytes, crc: Crc, t: nat, payload: Bytes, rest: Bytes)
    requires t <= LAST && |payload| <= BLOCK - HEADER && s <= Physical(crc, t, payload) + rest && |s| >= HEADER
    ensures s[4] as nat + 256 * s[5] as nat == |payload| && s[6] as nat == t
    ensures FromFixed(s[..4]) == Stored(crc, t as byte, payload)
  {
    hide Fixed32, FromFixed, Stored;
    var v := Stored(crc, t as byte, payload);
    Fixed32RoundTrip(v);
    var p := Physical(crc, t, payload);
    assert s[..4] == p[..4] == Fixed32(v);
    assert s[4] == p[4] && s[5] == p[5] && s[6] == p[6];
  }

  lemma PayloadAhead(s: Bytes, crc: Crc, t: nat, payload: Bytes, rest: Bytes)
    requires t <= LAST && |payload| <= BLOCK - HEADER && s <= Physical(crc, t, payload) + rest && |s| >= HEADER + |payload|
    ensures s[HEADER..HEADER + |payload|] == payload && s[HEADER + |payload|..] <= rest
  {
    hide Fixed32, Stored;
    var p := Physical(crc, t, payload);
    assert p[HEADER..] == payload;
    assert s[..HEADER + |payload|] == p;
    assert s[HEADER..HEADER + |payload|] == s[..HEADER + |payload|][HEADER..];
    assert s[HEADER + |payload|..] <= rest;
  }

  /** The bytes after the first fragment from `at` on. */
  ghost function RestAfter(crc: Crc, data: Bytes, at: nat, tail: Bytes): Bytes {
    var n := Take(|data|, at % BLOCK);
    if n == |data| then tail else Emit(crc, data[n..], (at + HEADER + n) % BLOCK, false) + tail
  }

  lemma RestIs(file: Bytes, at: nat, crc: Crc, data: Bytes, tail: Bytes)
    ensures var n := Take(|data|, at % BLOCK);
            at + HEADER + n <= |file| && file[at + HEADER + n..] <= RestAfter(crc, data, at, tail) ==>
              if n == |data| then file[at + HEADER + n..] <= tail else Ahead(file, at + HEADER + n, crc, data[n..], false, tail)
  {
    hide Emit, Take;
  }

  lemma PhysicalAhead(file: Bytes, at: nat, crc: Crc, data: Bytes, begin: bool, tail: Bytes) returns (rest: Bytes)
    requires Ahead(file, at, crc, data, begin, tail) && BLOCK - at % BLOCK >= HEADER
    ensures var n := Take(|data|, at % BLOCK);
            && file[at..] <= Physical(crc, Kind(begin, n == |data|), data[..n]) + rest
            && rest == RestAfter(crc, data, at, tail)
  {
    hide Emit, Physical, Take;
    var off := at % BLOCK;
    var n := Take(|data|, off);
    EmitStep(crc, data, off, begin);
    var p := Physical(crc, Kind(begin, n == |data|), data[..n]);
    assert Fragment(crc, data, off, begin) == p;
    if n == |data| {
      rest := tail;
      assert p + [] == p;
    } else {
      Advance(off, at, n);
      EmitAt(crc, data[n..], off + HEADER + n, false, at + HEADER + n);
      rest := Emit(crc, data[n..], (at + HEADER + n) % BLOCK, false) + tail;
      assert p + Emit(crc, data[n..], off + HEADER + n, false) + tail == p + rest;
    }
  }

  /** What a fragment at the front says, and what follows a complete one. */
  lemma FragmentAhead(file: Bytes, at: nat, crc: Crc, data: Bytes, begin: bool, tail: Bytes)
    requires Ahead(file, at, crc, data, begin, tail) && BLOCK - at % BLOCK >= HEADER && at + HEADER <= |file|
    ensures var n := Take(|data|, at % BLOCK);
            && file[at + 4] as nat + 256 * file[at + 5] as nat == n && file[at + 6] as nat == Kind(begin, n == |data|)
            && FromFixed(file[at..at + 4]) == Stored(crc, Kind(begin, n == |data|) as byte, data[..n])
            && (at + HEADER + n <= |file| ==>
                  && file[at + HEADER..at + HEADER + n] == data[..n]
                  && file[at + HEADER + n..] <= RestAfter(crc, data, at, tail))
  {
    hide Emit, RestAfter, Fixed32, FromFixed, Stored, Physical, Kind, Take, Start;
    var n := Take(|data|, at % BLOCK);
    var t := Kind(begin, n == |data|);
    var rest := PhysicalAhead(file, at, crc, data, begin, tail);
    HeaderAhead(file[at..], crc, t, data[..n], rest);
    assert file[at..][..4] == file[at..at + 4];
    if at + HEADER + n <= |file| {
      PayloadAhead(file[at..], crc, t, data[..n], rest);
      assert file[at..][HEADER..HEADER + n] == file[at + HEADER..at + HEADER + n];
      assert file[at..][HEADER + n..] == file[at + HEADER + n..];
    }
  }

  /** No block ends strictly between. */
  ghost predicate InBlock(at: nat, pos: nat) {
    pos - at <= BLOCK - at % BLOCK
  }

  lemma InBlockLater(at: nat, at': nat, pos: nat)
    requires InBlock(at, pos) && at <= at' <= pos
    ensures InBlock(at', pos)
  {
    assert at == at / BLOCK * BLOCK + at % BLOCK;
    if at' - at < BLOCK - at % BLOCK {
      assert at' == at / BLOCK * BLOCK + (at % BLOCK + (at' - at));
    }
  }

  /** A fragment with the right checksum stands in the file. */
  ghost predicate Sound(crc: Crc, file: Bytes, at: nat, t: byte, payload: Bytes) {
    && at + 7 + |payload| <= |file|
    && file[at + 4] as nat + 256 * file[at + 5] as nat == |payload| && file[at + 6] == t
    && file[at + 7..at + 7 + |payload|] == payload
    && FromFixed(file[at..at + 4]) == crc(t, payload) % 0x1_0000_0000
  }

  /** Fragments with right checksums, one after another between two places: the first of a record and middle ones. */
  ghost predicate Begun(crc: Crc, file: Bytes, from: nat, to: nat, places: seq<nat>, fragments: seq<Bytes>) {
    && |places| == |fragments| >= 1 && from <= places[0]
    && (forall i :: 0 <= i < |places| ==> Sound(crc, file, places[i], if i == 0 then 2 else 3, fragments[i]))
    && (forall i :: 0 <= i < |places| - 1 ==> places[i] + 7 + |fragments[i]| <= places[i + 1])
    && places[|places| - 1] + 7 + |fragments[|places| - 1]| <= to
  }

  function Joined(fragments: seq<Bytes>): Bytes {
    if fragments == [] then [] else Joined(fragments[..|fragments| - 1]) + fragments[|fragments| - 1]
  }

  /** The record is a full fragment or is put together from a first, middle ones and a last. */
  ghost predicate Assembled(crc: Crc, file: Bytes, from: nat, to: nat, record: Bytes) {
    || (exists at: nat :: from <= at && at + 7 + |record| == to && Sound(crc, file, at, 1, record))
    || (exists places, fragments, at: nat, last ::
          && Begun(crc, file, from, at, places, fragments) && Sound(crc, file, at, 4, last) && at + 7 + |last| == to
          && record == Joined(fragments) + last)
  }

  lemma BegunLonger(crc: Crc, file: Bytes, from: nat, to: nat, places: seq<nat>, fragments: seq<Bytes>, at: nat, fragment: Bytes)
    requires Begun(crc, file, from, to, places, fragments) && to <= at && Sound(crc, file, at, 3, fragment)
    ensures Begun(crc, file, from, at + 7 + |fragment|, places + [at], fragments + [fragment])
    ensures Joined(fragments + [fragment]) == Joined(fragments) + fragment
  {
    hide Sound;
    assert (fragments + [fragment])[..|fragments|] == fragments;
  }

  lemma BegunFirst(crc: Crc, file: Bytes, from: nat, at: nat, fragment: Bytes)
    requires from <= at && Sound(crc, file, at, 2, fragment)
    ensures Begun(crc, file, from, at + 7 + |fragment|, [at], [fragment]) && Joined([fragment]) == fragment
  {
    assert [fragment][..0] == [];
  }

  lemma BegunUntil(crc: Crc, file: Bytes, from: nat, to: nat, at: nat, places: seq<nat>, fragments: seq<Bytes>)
    requires Begun(crc, file, from, to, places, fragments) && to <= at
    ensures Begun(crc, file, from, at, places, fragments)
  {
    hide Sound;
  }

  class Reader {
    const crc: Crc
    const file: Bytes
    /** Whether the read at a position of the file fails. */
    const unreadable: nat -> bool
    var pos: nat
    var buffer: Bytes
    var eof: bool
    /** A read has failed. */
    ghost var failed: bool
    /** What was reported as dropped, in bytes. */
    var reports: seq<nat>

    /** How much of the file is behind us. */
    ghost function At(): nat
      requires |buffer| <= pos
      reads `pos, `buffer
    {
      pos - |buffer|
    }

    /** The buffer is the unread part of the block last read. */
    ghost predicate Valid()
      reads `pos, `buffer, `eof, `failed
    {
      && |buffer| <= pos <= |file| && buffer == file[At()..pos]
      && (if failed then eof && buffer == [] && exists p :: unreadable(p) else if eof then pos == |file| else pos % BLOCK == 0)
      && InBlock(At(), pos)
    }

    /** What a failed read adds to the reports. */
    ghost function Lost(before: bool): seq<nat>
      reads `failed
    {
      if failed && !before then [BLOCK] else []
    }

    constructor (crc: Crc, file: Bytes, unreadable: nat -> bool)
      ensures Valid() && At() == 0 && reports == [] && !failed && this.file == file && this.crc == crc && this.unreadable == unreadable
    {
      this.crc, this.file, this.unreadable, pos, buffer, eof, reports, failed := crc, file, unreadable, 0, [], false, [], false;
    }

    method ReportCorruption(bytes: nat)
      modifies `reports
      ensures reports == old(reports) + [bytes]
    {
      reports := reports + [bytes];
    }

    /**
     ReadRecord. In front of a record of a writer it returns that record if all of it is there;
     if the file was cut inside it, it reports the end and no corruption. A read that fails ends
     the log, with one report.
     */
    method ReadRecord(ghost faithful: bool, ghost data: Bytes, ghost tail: Bytes) returns (ok: bool, record: Bytes)
      requires Valid() && (faithful ==> Ahead(file, At(), crc, data, true, tail))
      modifies this
      ensures Valid() && old(At()) <= At() && (ok ==> old(At()) < At())
      ensures faithful ==> reports == old(reports) + Lost(old(failed))
      ensures (old(failed) ==> failed) && (failed ==> !ok)
      ensures faithful && !failed ==> (ok <==> RecordEnd(crc, old(At()), data, true) <= |file|)
      ensures faithful && ok ==> record == data && At() == RecordEnd(crc, old(At()), data, true) && file[At()..] <= tail
      ensures ok ==> Assembled(crc, file, old(At()), At(), record)
    {
      hide Valid, Ahead, Emit, RecordEnd, FragmentEnd, Take, Sound, Begun, Joined;
      var scratch: Bytes := [];
      var inFragmentedRecord := false;
      ghost var done: nat := 0;
      ghost var places: seq<nat>, fragments: seq<Bytes> := [], [];
      assert data[0..] == data;
      PosBound();
      while true
        invariant Valid() && |buffer| <= pos && old(At()) <= At() <= |file|
        invariant failed == old(failed)
        invariant inFragmentedRecord ==> Begun(crc, file, old(At()), At(), places, fragments) && scratch == Joined(fragments)
        invariant faithful ==> reports == old(reports) && done <= |data| && scratch == data[..done]
        invariant faithful && !inFragmentedRecord ==> done == 0
        invariant faithful ==> Ahead(file, At(), crc, data[done..], !inFragmentedRecord, tail)
        invariant faithful ==> RecordEnd(crc, At(), data[done..], !inFragmentedRecord) == RecordEnd(crc, old(At()), data, true)
        decreases |file| - At()
      {
        ghost var rest, n := data, 0;
        if faithful {
          rest := data[done..];
          n := Take(|rest|, At() % BLOCK);
          RecordEnds(crc, At(), rest, !inFragmentedRecord);
          Continues(data, rest, done, n);
        }
        ghost var at := At();
        var kind, fragment := ReadPhysicalRecord(faithful, rest, !inFragmentedRecord, tail);
        PosBound();
        ghost var place := At() - 7 - |fragment|;
        if kind == FULL {
          if inFragmentedRecord && scratch != [] {
            ReportCorruption(|scratch|);
          }
          return true, fragment;
        } else if kind == FIRST {
          if inFragmentedRecord && scratch != [] {
            ReportCorruption(|scratch|);
          }
          scratch := fragment;
          inFragmentedRecord := true;
          places, fragments := [place], [fragment];
          BegunFirst(crc, file, old(At()), place, fragment);
        } else if kind == MIDDLE {
          if !inFragmentedRecord {
            ReportCorruption(|fragment|);
          } else {
            scratch := scratch + fragment;
            BegunLonger(crc, file, old(At()), at, places, fragments, place, fragment);
            places, fragments := places + [place], fragments + [fragment];
          }
        } else if kind == LAST {
          if !inFragmentedRecord {
            ReportCorruption(|fragment|);
          } else {
            BegunUntil(crc, file, old(At()), at, place, places, fragments);
            return true, scratch + fragment;
          }
        } else if kind == EOF {
          return false, [];
        } else if kind == BAD {
          if inFragmentedRecord {
            ReportCorruption(|scratch|);
            inFragmentedRecord, scratch := false, [];
          }
        } else {
          ReportCorruption(|fragment| + if inFragmentedRecord then |scratch| else 0);
          inFragmentedRecord, scratch := false, [];
        }
        done := done + n;
      }
    }

    lemma PosBound()
      requires Valid()
      ensures |buffer| <= pos <= |file|
    {
    }

    /** The top of ReadPhysicalRecord's loop: skip a trailer and read blocks until a header is at hand. */
    method FillBuffer(ghost faithful: bool, ghost data: Bytes, ghost begin: bool, ghost tail: Bytes) returns (found: bool)
      requires Valid() && (faithful ==> Ahead(file, At(), crc, data, begin, tail))
      modifies `buffer, `pos, `eof, `failed, `reports
      ensures Valid() && old(At()) <= At() && (found ==> |buffer| >= HEADER)
      ensures reports == old(reports) + Lost(old(failed)) && (old(failed) ==> failed) && (failed ==> !found)
      ensures faithful && found ==>
                && Ahead(file, At(), crc, data, begin, tail) && FragmentEnd(At(), |data|) == FragmentEnd(old(At()), |data|)
                && Take(|data|, At() % BLOCK) == Take(|data|, old(At()) % BLOCK)
      ensures faithful && !found && !failed ==> FragmentEnd(old(At()), |data|) > |file|
    {
      hide Emit, FragmentEnd, Ahead, Take, Valid, InBlock;
      PosBound();
      while |buffer| < HEADER
        invariant Valid() && |buffer| <= pos <= |file| && old(At()) <= At()
        invariant failed == old(failed) && reports == old(reports)
        invariant faithful ==> Ahead(file, At(), crc, data, begin, tail) && FragmentEnd(At(), |data|) == FragmentEnd(old(At()), |data|)
        invariant faithful ==> Take(|data|, At() % BLOCK) == Take(|data|, old(At()) % BLOCK)
        decreases !eof, |file| - pos
      {
        BlockAtHand();
        if eof {
          FragmentTooFar(At(), |data|);
          buffer := [];
          ValidAtEnd();
          return false;
        }
        if faithful { TrailerSkips(file, At(), crc, data, begin, tail, pos); }
        PosBound();
        if unreadable(pos) {
          buffer := [];
          ReportCorruption(BLOCK);
          eof, failed := true, true;
          ValidAtEnd();
          return false;
        }
        ReadBlock();
      }
      NotFailed();
      return true;
    }

    lemma NotFailed()
      requires Valid() && buffer != []
      ensures !failed
    {
    }

    lemma ValidAtEnd()
      requires buffer == [] && eof && pos <= |file| && if failed then exists p :: unreadable(p) else pos == |file|
      ensures Valid()
    {
    }

    lemma BlockAtHand()
      requires Valid()
      ensures if failed then eof && exists p :: unreadable(p) else if eof then pos == |file| else pos % BLOCK == 0
    {
    }

    /** Skips what is in the buffer and reads the next block, or what there is of it. */
    method ReadBlock()
      requires Valid() && !eof
      modifies `buffer, `pos, `eof
      ensures Valid() && |buffer| <= pos && At() == old(pos)
      ensures old(pos) <= pos && (pos == old(pos) ==> eof)
    {
      var n := if |file| - pos < BLOCK then |file| - pos else BLOCK;
      buffer := file[pos..pos + n];
      pos := pos + n;
      if n < BLOCK {
        eof := true;
      }
    }

    /**
     ReadPhysicalRecord. In front of a (possibly cut) record of a writer it yields the next
     fragment if all of it is there, and the end of the file without a report if not.
     */
    method ReadPhysicalRecord(ghost faithful: bool, ghost data: Bytes, ghost begin: bool, ghost tail: Bytes)
      returns (kind: nat, fragment: Bytes)
      requires Valid() && (faithful ==> Ahead(file, At(), crc, data, begin, tail))
      modifies this
      ensures Valid() && old(At()) <= At() && (kind != EOF ==> old(At()) < At())
      ensures faithful ==> reports == old(reports) + Lost(old(failed))
      ensures (old(failed) ==> failed) && (failed ==> kind == EOF)
      ensures faithful && !failed ==> (kind == EOF <==> FragmentEnd(old(At()), |data|) > |file|)
      ensures faithful && kind != EOF ==>
                var n := Take(|data|, old(At()) % BLOCK);
                && kind == Kind(begin, n == |data|) && fragment == data[..n] && At() == FragmentEnd(old(At()), |data|)
                && if n == |data| then file[At()..] <= tail else Ahead(file, At(), crc, data[n..], false, tail)
      ensures kind != EOF && kind != BAD ==>
                && kind < 256 && old(At()) <= At() - 7 - |fragment|
                && Sound(crc, file, At() - 7 - |fragment|, kind as byte, fragment)
    {
      hide Valid, FragmentEnd, Ahead, Take, Kind, Sound;
      var found := FillBuffer(faithful, data, begin, tail);
      if !found {
        return EOF, [];
      }
      kind, fragment := ParseRecord(faithful, data, begin, tail);
    }

    /** The rest of the loop's body: check the header in the buffer and hand out the payload. */
    method ParseRecord(ghost faithful: bool, ghost data: Bytes, ghost begin: bool, ghost tail: Bytes)
      returns (kind: nat, fragment: Bytes)
      requires Valid() && |buffer| >= HEADER && (faithful ==> Ahead(file, At(), crc, data, begin, tail))
      modifies this
      ensures Valid() && old(At()) < At() && !old(failed) && !failed
      ensures faithful ==> reports == old(reports)
      ensures faithful ==> (kind == EOF <==> FragmentEnd(old(At()), |data|) > |file|)
      ensures faithful && kind != EOF ==>
                var n := Take(|data|, old(At()) % BLOCK);
                && kind == Kind(begin, n == |data|) && fragment == data[..n] && At() == FragmentEnd(old(At()), |data|)
                && if n == |data| then file[At()..] <= tail else Ahead(file, At(), crc, data[n..], false, tail)
      ensures kind != EOF && kind != BAD ==>
                && kind < 256 && old(At()) == At() - 7 - |fragment|
                && Sound(crc, file, old(At()), kind as byte, fragment)
    {
      hide Emit, FromFixed, Fixed32, FragmentEnd, Ahead, Take, InBlock, Kind, RestAfter, Sound;
      ghost var at := At();
      RoomForHeader(at, pos);
      KindIsKnown(begin, Take(|data|, at % BLOCK) == |data|);
      if faithful {
        FragmentAhead(file, at, crc, data, begin, tail);
        RestIs(file, at, crc, data, tail);
        EndOf(at, |data|);
      }
      HeaderIn(file, at, pos);
      ghost var n := Take(|data|, at % BLOCK);
      BlockEnds(at, pos, HEADER + n);
      PayloadIn(file, at, pos, if at + HEADER + n <= pos then n else 0);
      kind, fragment := CheckRecord();
    }

    /** The checks themselves, on any bytes. */
    method CheckRecord() returns (kind: nat, fragment: Bytes)
      requires Valid() && |buffer| >= HEADER
      modifies `buffer, `reports
      ensures Valid() && old(At()) < At() && !failed
      ensures var b := old(buffer);
              var length := b[4] as nat + 256 * b[5] as nat;
              if 7 + length > |b| then
                && buffer == [] && fragment == [] && kind == (if eof then EOF else BAD)
                && reports == if eof then old(reports) else old(reports) + [|b|]
              else if b[6] == 0 && length == 0 then
                buffer == [] && fragment == [] && kind == BAD && reports == old(reports)
              else if FromFixed(b[..4]) != crc(b[6], b[7..7 + length]) % 0x1_0000_0000 then
                buffer == [] && fragment == [] && kind == BAD && reports == old(reports) + [|b|]
              else
                && buffer == b[7 + length..] && fragment == b[7..7 + length] && kind == b[6] as nat && reports == old(reports)
                && Sound(crc, file, old(At()), b[6], fragment)
    {
      hide FromFixed, InBlock, Sound;
      ghost var at := At();
      InBlockLater(at, pos, pos);
      var length := buffer[4] as nat + 256 * buffer[5] as nat;
      kind := buffer[6] as nat;
      fragment := [];
      if HEADER + length > |buffer| {
        var dropped := |buffer|;
        buffer := [];
        if !eof {
          ReportCorruption(dropped);
          return BAD, [];
        }
        return EOF, [];
      }
      if kind == ZERO && length == 0 {
        buffer := [];
        return BAD, [];
      }
      fragment := buffer[HEADER..HEADER + length];
      if FromFixed(buffer[..4]) != Stored(crc, buffer[6], fragment) {
        var dropped := |buffer|;
        buffer := [];
        ReportCorruption(dropped);
        return BAD, [];
      }
      InBlockLater(at, at + HEADER + length, pos);
      SoundIn(crc, file, at, pos, buffer, fragment);
      PayloadIn(file, at, pos, length);
      buffer := buffer[HEADER + length..];
    }
  }

  /** Where the whole record from `at` on ends. */
  ghost function RecordEnd(crc: Crc, at: nat, data: Bytes, begin: bool): nat {
    at + |Emit(crc, data, at % BLOCK, begin)|
  }

  lemma RecordEnds(crc: Crc, at: nat, data: Bytes, begin: bool)
    ensures var n := Take(|data|, at % BLOCK);
            RecordEnd(crc, at, data, begin)
              == if n == |data| then FragmentEnd(at, |data|) else RecordEnd(crc, FragmentEnd(at, |data|), data[n..], false)
    ensures RecordEnd(crc, at, data, begin) >= FragmentEnd(at, |data|) > at
  {
    hide Emit, Fragment;
    var off := at % BLOCK;
    var n := Take(|data|, off);
    EmitStep(crc, data, off, begin);
    Advance(off, at, n);
    if n != |data| { EmitAt(crc, data[n..], Start(off) + HEADER + n, false, FragmentEnd(at, |data|)); }
  }

  lemma RoomForHeader(at: nat, pos: nat)
    requires InBlock(at, pos) && pos - at >= HEADER
    ensures BLOCK - at % BLOCK >= HEADER
  {
  }

  lemma KindIsKnown(begin: bool, end: bool)
    ensures Kind(begin, end) != ZERO && Kind(begin, end) != EOF
  {
  }

  /** A buffer that a fragment outgrows is not a whole block's rest. */
  lemma BlockEnds(at: nat, pos: nat, n: nat)
    requires at <= pos && InBlock(at, pos)
    ensures pos % BLOCK == 0 && at < pos && at % BLOCK + n <= BLOCK ==> at + n <= pos
  {
    assert at == at / BLOCK * BLOCK + at % BLOCK;
  }

  lemma HeaderIn(file: Bytes, at: nat, pos: nat)
    requires at + HEADER <= pos <= |file|
    ensures var b := file[at..pos]; b[..4] == file[at..at + 4] && b[4] == file[at + 4] && b[5] == file[at + 5] && b[6] == file[at + 6]
  {
  }

  lemma PayloadIn(file: Bytes, at: nat, pos: nat, n: nat)
    requires at + HEADER + n <= pos <= |file|
    ensures file[at..pos][HEADER..HEADER + n] == file[at + HEADER..at + HEADER + n]
    ensures file[at..pos][HEADER + n..] == file[at + HEADER + n..pos]
  {
    SliceOfSlice(file, at, pos, HEADER, HEADER + n);
    SliceOfSlice(file, at, pos, HEADER + n, pos - at);
  }

  lemma SliceOfSlice(s: Bytes, a: nat, b: nat, c: nat, d: nat)
    requires a <= b <= |s| && c <= d <= b - a
    ensures s[a..b][c..d] == s[a + c..a + d]
  {
    var t := s[a..b];
    assert forall i :: 0 <= i < d - c ==> t[c..d][i] == t[c + i] == s[a + c + i] == s[a + c..a + d][i];
    assert |t[c..d]| == |s[a + c..a + d]|;
  }

  lemma SoundIn(crc: Crc, file: Bytes, at: nat, pos: nat, b: Bytes, payload: Bytes)
    requires at <= pos <= |file| && b == file[at..pos] && 7 + |payload| <= |b|
    requires b[4] as nat + 256 * b[5] as nat == |payload| && payload == b[7..7 + |payload|]
    requires FromFixed(b[..4]) == crc(b[6], payload) % 0x1_0000_0000
    ensures Sound(crc, file, at, b[6], payload)
  {
    hide FromFixed;
    SliceOfSlice(file, at, pos, 0, 4);
    SliceOfSlice(file, at, pos, 7, 7 + |payload|);
    assert b[0..4] == b[..4];
  }

  lemma EndOf(at: nat, n: nat)
    requires BLOCK - at % BLOCK >= HEADER
    ensures FragmentEnd(at, n) == at + HEADER + Take(n, at % BLOCK) && at % BLOCK + HEADER + Take(n, at % BLOCK) <= BLOCK
  {
  }

  lemma FragmentTooFar(at: nat, n: nat)
    ensures FragmentEnd(at, n) >= at + HEADER
  {
  }

  /** The scratch and the rest of the record in front of the reader. */
  lemma Continues(data: Bytes, rest: Bytes, done: nat, n: nat)
    requires done <= |data| && rest == data[done..] && n <= |rest|
    ensures data[..done] + rest[..n] == data[..done + n] && rest[n..] == data[done + n..]
  {
  }

  /**
   Writing a log up to the first record that fails. Before any record the writer may be closed and
   opened again on the file. `whole` says that no trailer was lost. Then what the file holds is what
   ReadAll asks for: the whole stream, or after a failure a part of it. When every record has been
   reported as written, the file is the stream exactly if no trailer was lost; and only an operation
   other than the one that a failed record stops at can lose one.
   */
  method WriteAll(crc: Crc, faults: nat -> Option<nat>, records: seq<Bytes>, reopen: nat -> bool)
    returns (file: WritableFile, ok: bool, whole: bool)
    ensures whole ==> file.contents <= Stream(crc, records, 0)
    ensures ok ==> (whole <==> file.contents == Stream(crc, records, 0))
    ensures Clean(faults, 0, file.calls) ==> ok
    ensures ok || file.calls > 0
    ensures Clean(faults, 0, if ok then file.calls else file.calls - 1) ==> whole
  {
    hide Emit, Stream, Zeros, Pad, Clean, WritableFile.Room, Writer.Trailer, Writer.FirstOwn, Diverged;
    file := new WritableFile(faults, []);
    var writer := new Writer(crc, file);
    ok, whole := true, true;
    StreamStart(crc, records);
    for i := 0 to |records|
      invariant fresh(file) && fresh(writer) && writer.crc == crc && writer.dest == file && file.faults == faults
      invariant ok && (whole ==> writer.Aligned() && file.contents == Stream(crc, records[..i], 0))
      invariant Clean(faults, 0, file.calls) ==> whole
      invariant !whole ==> Diverged(file.contents, Stream(crc, records, 0))
    {
      if reopen(i) {
        writer := new Writer(crc, file);
      }
      ghost var calls, was, own := file.calls, file.contents, writer.FirstOwn();
      var off := writer.blockOffset;
      var room := writer.Trailer();
      ghost var before := whole;
      whole := whole && room == Pad(off);
      writer.OwnIs();
      ok := writer.AddRecord(records[i]);
      CleanJoin(faults, 0, own, file.calls);
      CleanJoin(faults, 0, own, file.calls - 1);
      CleanUpTo(faults, 0, calls, file.calls - 1);
      CleanUpTo(faults, 0, file.calls - 1, file.calls);
      if before {
        if whole {
          AfterRecord(crc, records, i, off, was, file.contents);
        } else if ok {
          Diverges(crc, records, i, off, was, room, file.contents);
        }
      } else {
        StaysDiverged(was, room, file.contents, Stream(crc, records, 0));
      }
      if !ok {
        return;
      }
    }
    assert records[..|records|] == records;
    if !whole { NotTheSame(file.contents, Stream(crc, records, 0)); }
  }

  /**
   It does happen: on a log of one record that ends three bytes before the end of a block, the
   append of the trailer is the only operation that fails. The next record is reported as written,
   and the file is not the stream of the two.
   */
  method LostTrailer(crc: Crc) returns (file: WritableFile, ok: bool)
    ensures file.faults == TrailerFault() && ok
    ensures Diverged(file.contents, Stream(crc, [Zeros(BLOCK - 10), []], 0))
  {
    hide Emit, Stream, Zeros, Clean, Diverged;
    var records := [Zeros(BLOCK - 10), []];
    BeforeTrailer(crc, records);
    file := new WritableFile(TrailerFault(), Stream(crc, records[..1], 0));
    var writer := new Writer(crc, file);
    assert Pad(BLOCK - 3) == 3 && writer.Trailer() == 0;
    ghost var was := file.contents;
    ok := writer.AddRecord(records[1]);
    OnlyTheTrailer(1, file.calls);
    Padded(crc, records[1], BLOCK - 3);
    Diverges(crc, records, 1, BLOCK - 3, was, 0, file.contents);
  }

  function TrailerFault(): nat -> Option<nat> {
    n => if n == 0 then Some(0) else None
  }

  lemma OnlyTheTrailer(lo: nat, hi: nat)
    requires lo > 0
    ensures Clean(TrailerFault(), lo, hi)
  {
  }

  lemma BeforeTrailer(crc: Crc, records: seq<Bytes>)
    requires |records| == 2 && |records[0]| == BLOCK - 10
    ensures |Stream(crc, records[..1], 0)| == BLOCK - 3
  {
    hide Emit, Fragment;
    var first := records[0];
    assert records[..1][1..] == [] && records[..1][0] == first;
    EmitStep(crc, first, 0, true);
    assert Take(|first|, 0) == |first|;
    assert Stream(crc, records[..1], 0) == Emit(crc, first, 0, true) + Stream(crc, [], |Emit(crc, first, 0, true)|);
  }

  /** The two differ at some place in both. */
  ghost predicate Diverged(a: Bytes, b: Bytes) {
    exists k :: 0 <= k < |a| && k < |b| && a[k] != b[k]
  }

  lemma NotTheSame(a: Bytes, b: Bytes)
    requires Diverged(a, b)
    ensures a != b
  {
  }

  lemma StaysDiverged(was: Bytes, room: nat, now: Bytes, b: Bytes)
    requires Diverged(was, b) && was + Zeros(room) <= now
    ensures Diverged(now, b)
  {
    var k :| 0 <= k < |was| && k < |b| && was[k] != b[k];
    assert now[k] == (was + Zeros(room))[k] == was[k];
  }

  /** Bytes with something other than a zero among the first seven differ from the same bytes some places later. */
  lemma Shifted(r: Bytes, t: nat, d: nat)
    requires |r| >= HEADER && r[6] != 0 && 1 <= d <= 6
    ensures Diverged(Zeros(t) + r, Zeros(t + d) + r)
  {
    var m := 0;
    while r[m] == 0
      invariant m <= 6 && forall j :: 0 <= j < m ==> r[j] == 0
      decreases 6 - m
    {
      m := m + 1;
    }
    assert (Zeros(t) + r)[t + m] == r[m];
    assert (Zeros(t + d) + r)[t + m] == if m < d then 0 else r[m - d];
  }

  /** A lost trailer puts the record in the wrong place for good. */
  lemma Diverges(crc: Crc, records: seq<Bytes>, i: nat, off: Offset, was: Bytes, room: nat, now: Bytes)
    requires i < |records| && was == Stream(crc, records[..i], 0) && off % BLOCK == |was| % BLOCK && room < Pad(off)
    requires |Emit(crc, records[i], off, true)| >= Pad(off) && now == was + Zeros(room) + Emit(crc, records[i], off, true)[Pad(off)..]
    ensures Diverged(now, Stream(crc, records, 0))
  {
    hide Emit, Stream, Pad;
    var r := Emit(crc, records[i], off, true)[Pad(off)..];
    TypeAhead(crc, records[i], off);
    Padded(crc, records[i], off);
    assert was + Emit(crc, records[i], off, true) == was + Zeros(Pad(off)) + r;
    AfterRecord(crc, records, i, off, was, was + Emit(crc, records[i], off, true));
    Shifted(r, room, Pad(off) - room);
    var k :| 0 <= k < |Zeros(room) + r| && k < |Zeros(Pad(off)) + r| && (Zeros(room) + r)[k] != (Zeros(Pad(off)) + r)[k];
    var right := was + (Zeros(Pad(off)) + r);
    assert now == was + (Zeros(room) + r) && right <= Stream(crc, records, 0);
    assert now[|was| + k] == (Zeros(room) + r)[k] && right[|was| + k] == (Zeros(Pad(off)) + r)[k];
  }

  /** Behind the trailer there is a header, with a type in it that is not zero. */
  lemma TypeAhead(crc: Crc, data: Bytes, off: Offset)
    ensures var r := Emit(crc, data, off, true); |r| >= Pad(off) + HEADER && r[Pad(off)..][6] != 0
  {
    hide Emit, Fixed32, Stored;
    EmitStep(crc, data, off, true);
  }

  /** What the next record, or a part of it, makes of the stream. */
  lemma AfterRecord(crc: Crc, records: seq<Bytes>, i: nat, off: Offset, was: Bytes, now: Bytes)
    requires i < |records| && was == Stream(crc, records[..i], 0) && off % BLOCK == |was| % BLOCK
    requires |Emit(crc, records[i], off, true)| >= Pad(off) && now <= was + Zeros(Pad(off)) + Emit(crc, records[i], off, true)[Pad(off)..]
    ensures now <= Stream(crc, records, 0)
    ensures now == was + Emit(crc, records[i], off, true) ==> now == Stream(crc, records[..i + 1], 0)
  {
    hide Emit, Stream, Pad, Zeros;
    EmitAt(crc, records[i], off, true, |was|);
    StreamGrows(crc, records[..i], records[i], 0);
    assert records[..i + 1] == records[..i] + [records[i]];
    StreamMonotone(crc, records, i + 1);
    Padded(crc, records[i], off);
    assert was + Zeros(Pad(off)) + Emit(crc, records[i], off, true)[Pad(off)..] == was + Emit(crc, records[i], off, true);
  }

  /**
   Reading a log to its end, or to the first read that fails: whatever comes back is right, and it
   is all that is there unless a failed read was reported.
   */
  method ReadAll(crc: Crc, file: Bytes, unreadable: nat -> bool, ghost records: seq<Bytes>) returns (read: seq<Bytes>, reports: seq<nat>)
    requires file <= Stream(crc, records, 0)
    ensures reports == [] || reports == [BLOCK]
    ensures (forall p: nat :: !unreadable(p)) ==> reports == []
    ensures |read| <= |records| && read == records[..|read|]
    ensures |Stream(crc, records[..|read|], 0)| <= |file|
    ensures reports == [] && |read| < |records| ==> |file| < |Stream(crc, records[..|read| + 1], 0)|
    ensures reports == [] && file == Stream(crc, records, 0) ==> read == records
  {
    hide Emit, Stream, Ahead;
    var reader := new Reader(crc, file, unreadable);
    read := [];
    StreamStart(crc, records);
    while true
      invariant fresh(reader) && reader.Valid() && reader.reports == [] && !reader.failed
      invariant reader.file == file && reader.crc == crc && reader.unreadable == unreadable
      invariant |read| <= |records| && read == records[..|read|]
      invariant reader.At() == |Stream(crc, read, 0)| <= |file| && file[reader.At()..] <= Stream(crc, records[|read|..], reader.At())
      decreases |file| - reader.At()
    {
      ghost var at, k := reader.At(), |read|;
      ghost var next, tail := NextAhead(crc, file, records, k, at);
      var ok, record := reader.ReadRecord(true, next, tail);
      if !ok {
        if file == Stream(crc, records, 0) { NothingCut(crc, records, k); }
        return read, reader.reports;
      }
      read := read + [record];
    }
  }

  lemma StreamStart(crc: Crc, records: seq<Bytes>)
    ensures Stream(crc, [], 0) == [] && records[0..] == records
  {
  }

  /** What the reader has in front of it after `k` records. */
  lemma NextAhead(crc: Crc, file: Bytes, records: seq<Bytes>, k: nat, at: nat) returns (next: Bytes, tail: Bytes)
    requires k <= |records| && at == |Stream(crc, records[..k], 0)| <= |file| && file[at..] <= Stream(crc, records[k..], at)
    ensures Ahead(file, at, crc, next, true, tail)
    ensures k == |records| ==> at == |file| && RecordEnd(crc, at, next, true) > |file|
    ensures k < |records| ==>
              && next == records[k] && tail == Stream(crc, records[k + 1..], RecordEnd(crc, at, next, true))
              && records[..k + 1] == records[..k] + [next]
              && |Stream(crc, records[..k] + [next], 0)| == RecordEnd(crc, at, next, true)
  {
    hide Emit;
    if k == |records| {
      next, tail := [], [];
    } else {
      next := records[k];
      tail := Stream(crc, records[k + 1..], at + |Emit(crc, next, at % BLOCK, true)|);
      assert records[k..][0] == next && records[k..][1..] == records[k + 1..];
      StreamGrows(crc, records[..k], next, 0);
    }
  }

  lemma {:induction false} StreamMonotone(crc: Crc, records: seq<Bytes>, k: nat)
    requires k <= |records|
    ensures Stream(crc, records[..k], 0) <= Stream(crc, records, 0)
    decreases |records| - k
  {
    hide Emit;
    if k < |records| {
      StreamMonotone(crc, records, k + 1);
      StreamGrows(crc, records[..k], records[k], 0);
      assert records[..k + 1] == records[..k] + [records[k]];
    } else {
      assert records[..k] == records;
    }
  }

  lemma NothingCut(crc: Crc, records: seq<Bytes>, k: nat)
    requires k <= |records|
    ensures k < |records| ==> |Stream(crc, records[..k + 1], 0)| <= |Stream(crc, records, 0)|
    ensures k == |records| ==> records[..k] == records
  {
    if k < |records| { StreamMonotone(crc, records, k + 1); }
  }
}
