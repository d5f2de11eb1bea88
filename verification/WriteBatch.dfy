/**
 Write batches (db/write_batch.cc): a header with a sequence number and a count, then records.
 */
module WriteBatches {
  import opened Keys
  import opened Store
  import opened Coding

  datatype Op = Put(key: UserKey, value: Value) | Delete(key: UserKey)

  const HEADER: nat := 12
  const MAX_COUNT: nat := 0x7fff_ffff

  /** One record as Put and Delete write it. */
  function Record(op: Op): (s: Bytes)
    ensures |s| >= 2
  {
    match op
    case Put(key, value) => [TYPE_VALUE as byte] + Prefixed(key) + Prefixed(value)
    case Delete(key) => [TYPE_DELETION as byte] + Prefixed(key)
  }

  function Records(ops: seq<Op>): (s: Bytes)
    ensures |s| >= |ops|
  {
    if ops == [] then [] else Record(ops[0]) + Records(ops[1..])
  }

  /** One round of Iterate: the first record and the rest, nothing when it is malformed. */
  function NextRecord(s: Bytes): (r: Option<(Op, Bytes)>)
    requires s != []
    ensures r.Some? ==> |r.value.1| < |s|
  {
    if s[0] as nat == TYPE_VALUE then
      match TakePrefixed(s[1..])
      case None => None
      case Some((key, rest)) =>
        (match TakePrefixed(rest)
         case None => None
         case Some((value, rest)) => Some((Put(key, value), rest)))
    else if s[0] as nat == TYPE_DELETION then
      match TakePrefixed(s[1..])
      case None => None
      case Some((key, rest)) => Some((Delete(key), rest))
    else None
  }

  /** All records up to the first malformed one, and whether there was none such. */
  function Parse(s: Bytes): (r: (seq<Op>, bool))
    decreases |s|
  {
    if s == [] then ([], true)
    else match NextRecord(s)
      case None => ([], false)
      case Some((op, rest)) => var r := Parse(rest); ([op] + r.0, r.1)
  }

  predicate Fits(op: Op) {
    |op.key| <= MAX32 && (op.Put? ==> |op.value| <= MAX32)
  }

  lemma NextOfRecord(op: Op, rest: Bytes)
    requires Fits(op)
    ensures NextRecord(Record(op) + rest) == Some((op, rest))
  {
    hide Prefixed, TakePrefixed;
    var s := Record(op) + rest;
    match op {
      case Put(key, value) =>
        assert s[1..] == Prefixed(key) + (Prefixed(value) + rest);
        PrefixedRoundTrip(key, Prefixed(value) + rest);
        PrefixedRoundTrip(value, rest);
      case Delete(key) =>
        assert s[1..] == Prefixed(key) + rest;
        PrefixedRoundTrip(key, rest);
    }
  }

  /** Reading records back gives the operations written, whatever follows them. */
  lemma {:induction false} ParseOfRecords(ops: seq<Op>, rest: Bytes)
    requires forall i :: 0 <= i < |ops| ==> Fits(ops[i])
    ensures Parse(Records(ops) + rest) == (ops + Parse(rest).0, Parse(rest).1)
  {
    hide Record, NextRecord, Fits;
    if ops == [] {
      assert Records(ops) + rest == rest;
      assert ops + Parse(rest).0 == Parse(rest).0;
    } else {
      ParseOfRecords(ops[1..], rest);
      NextOfRecord(ops[0], Records(ops[1..]) + rest);
      assert Records(ops) + rest == Record(ops[0]) + (Records(ops[1..]) + rest);
      assert [ops[0]] + (ops[1..] + Parse(rest).0) == ops + Parse(rest).0;
    }
  }

  lemma {:induction false} RecordsJoin(a: seq<Op>, b: seq<Op>)
    ensures Records(a + b) == Records(a) + Records(b)
  {
    hide Record;
    if a == [] {
      assert a + b == b;
    } else {
      RecordsJoin(a[1..], b);
      assert (a + b)[0] == a[0] && (a + b)[1..] == a[1..] + b;
      Regroup(Record(a[0]), Records(a[1..]), Records(b));
    }
  }

  lemma Associates(rep: Bytes, op: Op)
    ensures match op
      case Put(key, value) => rep + [TYPE_VALUE as byte] + Prefixed(key) + Prefixed(value) == rep + Record(op)
      case Delete(key) => rep + [TYPE_DELETION as byte] + Prefixed(key) == rep + Record(op)
  {
    hide Prefixed;
  }

  lemma OneRecord(op: Op)
    ensures Records([op]) == Record(op)
  {
    assert Records([op]) == Record(op) + Records([]);
  }

  function Sequence(rep: Bytes): nat
    requires |rep| >= HEADER
  {
    FromFixed(rep[..8])
  }

  function CountOf(rep: Bytes): nat
    requires |rep| >= HEADER
  {
    FromFixed(rep[8..HEADER])
  }

  /** `rep` is a batch of exactly these operations. */
  ghost predicate Represents(rep: Bytes, ops: seq<Op>) {
    && |rep| >= HEADER && rep[HEADER..] == Records(ops) && CountOf(rep) == |ops| <= MAX_COUNT
    && forall i :: 0 <= i < |ops| ==> Fits(ops[i])
  }

  /** A batch determines its operations. */
  lemma RepresentsOne(rep: Bytes, a: seq<Op>, b: seq<Op>)
    requires Represents(rep, a) && Represents(rep, b)
    ensures a == b
  {
    hide Record, Records, NextRecord, Parse, Fits, CountOf;
    BuiltIsIntact(rep, a);
    BuiltIsIntact(rep, b);
  }

  class WriteBatch {
    var rep: Bytes

    constructor ()
      ensures Represents(rep, [])
    {
      rep := seq(HEADER, i => 0);
      new;
      assert rep[8..HEADER] == [0, 0, 0, 0];
      assert FromFixed([0]) == 0 && FromFixed([0, 0]) == 0 && FromFixed([0, 0, 0]) == 0;
    }

    /** WriteBatchInternal::SetCount. */
    method SetCount(n: nat)
      requires |rep| >= HEADER && n <= MAX_COUNT
      modifies this
      ensures |rep| == old(|rep|) && CountOf(rep) == n
      ensures rep[..8] == old(rep)[..8] && rep[HEADER..] == old(rep)[HEADER..]
    {
      rep := rep[..8] + Fixed32(n) + rep[HEADER..];
      assert rep[8..HEADER] == Fixed32(n);
      Fixed32RoundTrip(n);
    }

    /** WriteBatchInternal::SetSequence. */
    method SetSequence(n: nat, ghost ops: seq<Op>)
      requires Represents(rep, ops) && n <= MAX64
      modifies this
      ensures Represents(rep, ops) && Sequence(rep) == n && |rep| == old(|rep|)
    {
      hide Fixed, FromFixed, Records, Fits, Power256;
      rep := Fixed(n, 8) + rep[8..];
      assert rep[..8] == Fixed(n, 8) && rep[8..HEADER] == old(rep)[8..HEADER] && rep[HEADER..] == old(rep)[HEADER..];
      Power256At8();
      FixedRoundTrip(n, 8);
    }

    /** Put and Delete. */
    method Apply(op: Op, ghost ops: seq<Op>)
      requires Represents(rep, ops) && Fits(op) && |ops| < MAX_COUNT
      modifies this
      ensures Represents(rep, ops + [op])
    {
      hide FromFixed, Records, Record, Prefixed, Fits;
      SetCount(CountOf(rep) + 1);
      label L:
      match op {
        case Put(key, value) =>
          rep := rep + [TYPE_VALUE as byte];
          rep := rep + Prefixed(key);
          rep := rep + Prefixed(value);
        case Delete(key) =>
          rep := rep + [TYPE_DELETION as byte];
          rep := rep + Prefixed(key);
      }
      assert rep == old@L(rep) + Record(op) by { Associates(old@L(rep), op); }
      assert rep[HEADER..] == old(rep)[HEADER..] + Record(op) && rep[8..HEADER] == old@L(rep)[8..HEADER];
      OneRecord(op);
      RecordsJoin(ops, [op]);
    }

    /** WriteBatchInternal::Append. */
    method Append(src: Bytes, ghost ops: seq<Op>, ghost more: seq<Op>)
      requires Represents(rep, ops) && Represents(src, more) && |ops| + |more| <= MAX_COUNT
      modifies this
      ensures Represents(rep, ops + more) && |rep| == old(|rep|) + |src| - HEADER
    {
      hide FromFixed, Records, Fits;
      SetCount(CountOf(rep) + CountOf(src));
      label L:
      rep := rep + src[HEADER..];
      assert rep[HEADER..] == old(rep)[HEADER..] + src[HEADER..] && rep[8..HEADER] == old@L(rep)[8..HEADER];
      RecordsJoin(ops, more);
    }
  }

  lemma Power256At8()
    ensures Power256(8) == MAX64 + 1
  {
    assert Power256(1) == 256 && Power256(2) == 0x1_0000 && Power256(3) == 0x100_0000 && Power256(4) == 0x1_0000_0000;
    assert Power256(5) == 0x100_0000_0000 && Power256(6) == 0x1_0000_0000_0000 && Power256(7) == 0x100_0000_0000_0000;
  }

  datatype Verdict = Intact | TooSmall | BadRecord | WrongCount

  /** Iterate: hands the operations to the handler in order (`handled`), and says how it went. */
  method Iterate(rep: Bytes) returns (handled: seq<Op>, verdict: Verdict)
    ensures |rep| < HEADER ==> handled == [] && verdict == TooSmall
    ensures |rep| >= HEADER ==> handled == Parse(rep[HEADER..]).0
    ensures |rep| >= HEADER ==> verdict == if !Parse(rep[HEADER..]).1 then BadRecord
                                           else if |handled| != CountOf(rep) then WrongCount else Intact
  {
    hide NextRecord, CountOf;
    handled := [];
    if |rep| < HEADER {
      return [], TooSmall;
    }
    var input := rep[HEADER..];
    assert handled + Parse(input).0 == Parse(input).0;
    while input != []
      invariant Parse(rep[HEADER..]) == (handled + Parse(input).0, Parse(input).1)
      decreases |input|
    {
      var next := NextRecord(input);
      if next.None? {
        assert handled + [] == handled;
        return handled, BadRecord;
      }
      assert handled + ([next.value.0] + Parse(next.value.1).0) == (handled + [next.value.0]) + Parse(next.value.1).0;
      handled, input := handled + [next.value.0], next.value.1;
    }
    verdict := if |handled| != CountOf(rep) then WrongCount else Intact;
  }

  /** A batch built through Put, Delete and Append is never found malformed, and is applied whole. */
  lemma BuiltIsIntact(rep: Bytes, ops: seq<Op>)
    requires Represents(rep, ops)
    ensures Parse(rep[HEADER..]) == (ops, true) && |ops| == CountOf(rep)
  {
    hide Record, Records, NextRecord, Fits, CountOf;
    ParseOfRecords(ops, []);
    assert Records(ops) + [] == Records(ops) && ops + [] == ops;
  }

  /** A batch as bytes: sequence number, count, and the records with their type in front. */
  lemma BatchOnDisk()
    ensures var rep: Bytes := [5, 1, 0, 0, 0, 0, 0, 0] + [2, 0, 0, 0] + ([1, 1, 0x61, 2, 0x62, 0x63] + [0, 1, 0x61]);
            Represents(rep, [Put([0x61], [0x62, 0x63]), Delete([0x61])]) && Sequence(rep) == 261
  {
    var ops := [Put([0x61], [0x62, 0x63]), Delete([0x61])];
    var records: Bytes := [1, 1, 0x61, 2, 0x62, 0x63] + [0, 1, 0x61];
    var rep: Bytes := [5, 1, 0, 0, 0, 0, 0, 0] + [2, 0, 0, 0] + records;
    assert ops[1..] == [ops[1]] && ops[1..][1..] == [];
    assert Record(ops[0]) == [1, 1, 0x61, 2, 0x62, 0x63] && Record(ops[1]) == [0, 1, 0x61];
    assert Records([ops[1]]) == Record(ops[1]) + Records([]);
    assert Records(ops) == records;
    assert rep[HEADER..] == records && rep[8..HEADER] == [2, 0, 0, 0] && rep[..8] == [5, 1, 0, 0, 0, 0, 0, 0];
    assert FromFixed([0, 0, 0]) == 0 && FromFixed([2, 0, 0, 0]) == 2;
    assert FromFixed([0, 0, 0, 0, 0, 0]) == 0 by { assert FromFixed([0, 0, 0, 0]) == 0; }
    assert FromFixed([5, 1, 0, 0, 0, 0, 0, 0]) == 261;
  }
}
