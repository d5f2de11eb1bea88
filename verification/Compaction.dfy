/**
 Compaction (DBImpl::DoCompactionWork in db/db_impl.cc, Compaction::IsBaseLevelForKey in
 db/version_set.cc): the merged inputs are rewritten without the versions no reader needs.
 The main theorem says no reader at or above the smallest snapshot can tell.
 */
module CompactionWork {
  import opened Keys
  import opened Store
  import opened Version

  /** No file two or more levels below `level` has `u` in its range. */
  ghost predicate IsBase(v: Levels, level: nat, u: UserKey) {
    forall l, i :: level + 2 <= l < NUM_LEVELS && 0 <= i < |v[l]| ==> !v[l][i].Covers(u)
  }

  /** The loop variable last_sequence_for_key when record `i` is reached. */
  function LastSequence(input: seq<Entry>, i: nat): SeqNo
    requires i < |input|
  {
    if i > 0 && input[i - 1].Parses() && input[i - 1].key.user == input[i].key.user
    then input[i - 1].key.seqno
    else MAX_SEQUENCE
  }

  /** Rule (A): a newer version of the same user key already serves every reader. */
  predicate Hidden(input: seq<Entry>, i: nat, smallest: SeqNo)
    requires i < |input|
  {
    input[i].Parses() && LastSequence(input, i) <= smallest
  }

  /** An obsolete deletion marker with nothing underneath. */
  ghost predicate Elided(input: seq<Entry>, i: nat, smallest: SeqNo, v: Levels, level: nat)
    requires i < |input|
  {
    && input[i].Parses() && input[i].key.kind == TYPE_DELETION && input[i].key.seqno <= smallest
    && IsBase(v, level, input[i].key.user)
  }

  ghost predicate Dropped(input: seq<Entry>, i: nat, smallest: SeqNo, v: Levels, level: nat)
    requires i < |input|
  {
    Hidden(input, i, smallest) || Elided(input, i, smallest, v, level)
  }

  /** The records among the first `n` that are rewritten. */
  ghost function Kept(input: seq<Entry>, n: nat, smallest: SeqNo, v: Levels, level: nat): seq<Entry>
    requires n <= |input|
  {
    if n == 0 then []
    else Kept(input, n - 1, smallest, v, level) +
         (if Dropped(input, n - 1, smallest, v, level) then [] else [input[n - 1]])
  }

  lemma {:induction false} KeptMembers(input: seq<Entry>, n: nat, smallest: SeqNo, v: Levels, level: nat, e: Entry)
    requires n <= |input|
    ensures e in Kept(input, n, smallest, v, level)
            <==> exists i :: 0 <= i < n && input[i] == e && !Dropped(input, i, smallest, v, level)
  {
    if n > 0 {
      KeptMembers(input, n - 1, smallest, v, level, e);
    }
  }

  /** One output table: its recorded bounds and contents. */
  datatype Output = Output(smallest: InternalKey, largest: InternalKey, entries: seq<Entry>)
  {
    ghost predicate Valid() {
      entries != [] && smallest == entries[0].key && largest == entries[|entries| - 1].key
    }
  }

  ghost function Flatten(outputs: seq<Output>): seq<Entry> {
    if outputs == [] then [] else Flatten(outputs[..|outputs| - 1]) + outputs[|outputs| - 1].entries
  }

  /**
   What the rewriting loop does not decide itself: whether a table is cut before or after a record
   (sizes and grandparent overlap), whether the database is shutting down when it comes to a
   record, the status of the input iterator when the n-th output table is finished and after the
   loop, and whether that table could be created, built, synced, closed and opened.
   */
  datatype Environment = Environment(stopBefore: nat -> bool, bigEnough: nat -> bool, shuttingDown: nat -> bool,
                                     inputOk: nat -> bool, inputIntact: bool,
                                     created: nat -> bool, built: nat -> bool, synced: nat -> bool, closed: nat -> bool, usable: nat -> bool)
  {
    predicate Finishes(n: nat) {
      inputOk(n) && built(n) && synced(n) && closed(n) && usable(n)
    }

    ghost predicate Cooperates() {
      inputIntact && forall n: nat :: created(n) && Finishes(n) && !shuttingDown(n)
    }
  }

  // ---- Where the output is cut into tables ----

  /** A table that was full at record `m`, or was closed before it, comes before another that starts with `key`. */
  ghost predicate CutAt(input: seq<Entry>, m: nat, table: Output, key: InternalKey, env: Environment) {
    m < |input|
    && ((env.bigEnough(m) && table.largest == input[m].key)
        || (env.stopBefore(m) && Before(table.largest, input[m].key) && NotAfter(input[m].key, key)))
  }

  /** There is a reason to start another table with `key`. */
  ghost predicate Cut(input: seq<Entry>, table: Output, key: InternalKey, env: Environment) {
    exists m :: CutAt(input, m, table, key, env)
  }

  /** Every record that is kept and makes its table big enough ends it. */
  ghost predicate BigEnd(input: seq<Entry>, i: nat, outputs: seq<Output>, smallest: SeqNo, v: Levels, level: nat, env: Environment)
    requires i <= |input|
  {
    forall m :: 0 <= m < i && env.bigEnough(m) && !Dropped(input, m, smallest, v, level) ==> EndsWith(outputs, input[m].key)
  }

  ghost predicate EndsWith(outputs: seq<Output>, key: InternalKey) {
    exists k :: 0 <= k < |outputs| && outputs[k].largest == key
  }

  /** No table goes on past a place to stop. */
  ghost predicate Stop(input: seq<Entry>, i: nat, table: Output, env: Environment)
    requires i <= |input|
  {
    forall m :: 0 <= m < i && env.stopBefore(m) ==> Before(table.largest, input[m].key) || NotAfter(input[m].key, table.smallest)
  }

  /** The tables are cut where they must be and nowhere else. */
  ghost predicate WellCut(input: seq<Entry>, outputs: seq<Output>, smallest: SeqNo, v: Levels, level: nat, env: Environment) {
    && BigEnd(input, |input|, outputs, smallest, v, level, env)
    && (forall k :: 0 <= k < |outputs| ==> Stop(input, |input|, outputs[k], env))
    && (forall k :: 0 < k < |outputs| ==> Cut(input, outputs[k - 1], outputs[k].smallest, env))
  }

  /** A table written from the first `i` records. */
  ghost predicate Closed(input: seq<Entry>, i: nat, table: Output, env: Environment)
    requires i <= |input|
  {
    Stop(input, i, table, env) && exists m :: 0 <= m < i && table.largest == input[m].key
  }

  /** The table being written. */
  ghost predicate Open(input: seq<Entry>, i: nat, table: Output, env: Environment)
    requires i <= |input|
  {
    && (forall m :: 0 <= m < i && env.stopBefore(m) ==> NotAfter(input[m].key, table.smallest))
    && exists m :: 0 <= m < i && table.largest == input[m].key
  }

  /** What holds after the first `i` records, with a table still open. */
  ghost predicate Cuts(input: seq<Entry>, i: nat, outputs: seq<Output>, open: Option<Output>, smallest: SeqNo, v: Levels, level: nat,
                       env: Environment)
  {
    && i <= |input| && BigEnd(input, i, outputs, smallest, v, level, env)
    && (forall k :: 0 <= k < |outputs| ==> Closed(input, i, outputs[k], env))
    && (forall k :: 0 < k < |outputs| ==> Cut(input, outputs[k - 1], outputs[k].smallest, env))
    && (open.Some? ==> Open(input, i, open.value, env))
    && (outputs != [] ==>
          if open.Some? then Cut(input, outputs[|outputs| - 1], open.value.smallest, env)
          else i < |input| ==> Cut(input, outputs[|outputs| - 1], input[i].key, env))
  }

  lemma CutsNone(input: seq<Entry>, smallest: SeqNo, v: Levels, level: nat, env: Environment)
    ensures Cuts(input, 0, [], None, smallest, v, level, env)
  {
  }

  lemma BigAppended(input: seq<Entry>, i: nat, outputs: seq<Output>, table: Output, smallest: SeqNo, v: Levels, level: nat, env: Environment)
    requires i <= |input| && BigEnd(input, i, outputs, smallest, v, level, env)
    ensures BigEnd(input, i, outputs + [table], smallest, v, level, env) && EndsWith(outputs + [table], table.largest)
  {
    hide Dropped;
    forall key | EndsWith(outputs, key)
      ensures EndsWith(outputs + [table], key)
    {
      var k :| 0 <= k < |outputs| && outputs[k].largest == key;
      assert (outputs + [table])[k].largest == key;
    }
    assert (outputs + [table])[|outputs|].largest == table.largest;
  }

  lemma OpenCloses(input: seq<Entry>, i: nat, table: Output, env: Environment)
    requires i <= |input| && Open(input, i, table, env)
    ensures Closed(input, i, table, env)
  {
  }

  lemma ClosedLater(input: seq<Entry>, i: nat, table: Output, env: Environment)
    requires Sorted(input) && i < |input| && Closed(input, i, table, env)
    ensures Closed(input, i + 1, table, env)
  {
  }

  lemma OpenLater(input: seq<Entry>, i: nat, table: Output, env: Environment)
    requires i < |input| && Open(input, i, table, env) && !env.stopBefore(i)
    ensures Open(input, i + 1, table, env)
    ensures forall entries :: Open(input, i + 1, Output(table.smallest, input[i].key, entries), env)
  {
  }

  lemma OpenNew(input: seq<Entry>, i: nat, env: Environment)
    requires Sorted(input) && i < |input|
    ensures forall entries :: Open(input, i + 1, Output(input[i].key, input[i].key, entries), env)
  {
  }

  lemma CutLater(input: seq<Entry>, table: Output, i: nat, env: Environment)
    requires Sorted(input) && i + 1 < |input| && Cut(input, table, input[i].key, env)
    ensures Cut(input, table, input[i + 1].key, env)
  {
    var m :| CutAt(input, m, table, input[i].key, env);
    assert CutAt(input, m, table, input[i + 1].key, env);
  }

  lemma CutsStop(input: seq<Entry>, i: nat, outputs: seq<Output>, open: Output, smallest: SeqNo, v: Levels, level: nat, env: Environment)
    requires Sorted(input) && i < |input| && env.stopBefore(i) && Cuts(input, i, outputs, Some(open), smallest, v, level, env)
    ensures Cuts(input, i, outputs + [open], None, smallest, v, level, env)
  {
    hide Dropped, BigEnd, Closed, Stop, Cut;
    assert CutAt(input, i, open, input[i].key, env);
    assert Cut(input, open, input[i].key, env) by { CutBy(input, i, open, input[i].key, env); }
    OpenCloses(input, i, open, env);
    BigAppended(input, i, outputs, open, smallest, v, level, env);
  }

  lemma CutBy(input: seq<Entry>, m: nat, table: Output, key: InternalKey, env: Environment)
    requires CutAt(input, m, table, key, env)
    ensures Cut(input, table, key, env)
  {
    hide CutAt;
  }

  lemma CutsDrop(input: seq<Entry>, i: nat, outputs: seq<Output>, open: Option<Output>, smallest: SeqNo, v: Levels, level: nat, env: Environment)
    requires Sorted(input) && i < |input| && (open.Some? ==> !env.stopBefore(i)) && Dropped(input, i, smallest, v, level)
    requires Cuts(input, i, outputs, open, smallest, v, level, env)
    ensures Cuts(input, i + 1, outputs, open, smallest, v, level, env)
  {
    hide Dropped, Closed, Open, Cut, Sorted;
    forall k | 0 <= k < |outputs|
      ensures Closed(input, i + 1, outputs[k], env)
    {
      ClosedLater(input, i, outputs[k], env);
    }
    if open.Some? { OpenLater(input, i, open.value, env); }
    if open.None? && outputs != [] && i + 1 < |input| { CutLater(input, outputs[|outputs| - 1], i, env); }
  }

  lemma CutsAdd(input: seq<Entry>, i: nat, outputs: seq<Output>, open: Option<Output>, outputs': seq<Output>, open': Option<Output>,
                smallest: SeqNo, v: Levels, level: nat, env: Environment)
    requires Sorted(input) && i < |input| && (open.Some? ==> !env.stopBefore(i))
    requires Cuts(input, i, outputs, open, smallest, v, level, env)
    requires var key := input[i].key;
             var grown := if open.None? then Output(key, key, [input[i]]) else Output(open.value.smallest, key, open.value.entries + [input[i]]);
             if env.bigEnough(i) then outputs' == outputs + [grown] && open' == None else outputs' == outputs && open' == Some(grown)
    ensures Cuts(input, i + 1, outputs', open', smallest, v, level, env)
  {
    hide Dropped, Closed, Open, Cut, Sorted, EndsWith;
    var key := input[i].key;
    var grown := if open.None? then Output(key, key, [input[i]]) else Output(open.value.smallest, key, open.value.entries + [input[i]]);
    forall k | 0 <= k < |outputs|
      ensures Closed(input, i + 1, outputs[k], env)
    {
      ClosedLater(input, i, outputs[k], env);
    }
    if open.Some? { OpenLater(input, i, open.value, env); } else { OpenNew(input, i, env); }
    if env.bigEnough(i) {
      OpenCloses(input, i + 1, grown, env);
      BigAppended(input, i, outputs, grown, smallest, v, level, env);
      if i + 1 < |input| { FullCuts(input, i, grown, env); }
    }
  }

  /** A table that is full is cut before the next record. */
  lemma FullCuts(input: seq<Entry>, i: nat, table: Output, env: Environment)
    requires i < |input| && env.bigEnough(i) && table.largest == input[i].key
    ensures forall key :: Cut(input, table, key, env)
  {
    forall key
      ensures Cut(input, table, key, env)
    {
      assert CutAt(input, i, table, key, env);
    }
  }

  lemma CutsEnd(input: seq<Entry>, outputs: seq<Output>, open: Option<Output>, smallest: SeqNo, v: Levels, level: nat, env: Environment)
    requires Cuts(input, |input|, outputs, open, smallest, v, level, env)
    ensures WellCut(input, if open.Some? then outputs + [open.value] else outputs, smallest, v, level, env)
  {
    hide Dropped, Stop, Cut, BigEnd;
    if open.Some? {
      OpenCloses(input, |input|, open.value, env);
      BigAppended(input, |input|, outputs, open.value, smallest, v, level, env);
    }
  }

  class Compaction {
    const level: nat
    const inputVersion: Levels
    /** Per level, the files before this index end before every key asked so far. */
    var levelPtrs: array<nat>

    ghost predicate Valid()
      reads this
    {
      levelPtrs.Length == NUM_LEVELS && ValidLevels(inputVersion)
    }

    ghost predicate CursorsBefore(u: UserKey)
      requires Valid()
      reads this, levelPtrs
    {
      forall l :: level + 2 <= l < NUM_LEVELS ==>
        && levelPtrs[l] <= |inputVersion[l]|
        && forall i :: 0 <= i < levelPtrs[l] ==> Rank(inputVersion[l][i].largest.user) < Rank(u)
    }

    constructor (level: nat, version: Levels)
      requires ValidLevels(version)
      ensures Valid() && this.level == level && inputVersion == version && fresh(levelPtrs)
      ensures forall u :: CursorsBefore(u)
    {
      this.level := level;
      this.inputVersion := version;
      levelPtrs := new nat[NUM_LEVELS](_ => 0);
    }

    /** Keys must be asked in non-decreasing order; the cursors then never skip a covering file. */
    method IsBaseLevelForKey(u: UserKey) returns (base: bool)
      requires Valid() && CursorsBefore(u)
      modifies levelPtrs
      ensures Valid() && CursorsBefore(u)
      ensures base <==> IsBase(inputVersion, level, u)
    {
      var lvl := level + 2;
      while lvl < NUM_LEVELS
        invariant level + 2 <= lvl
        invariant CursorsBefore(u)
        invariant forall l, i :: level + 2 <= l < lvl && l < NUM_LEVELS && 0 <= i < |inputVersion[l]| ==>
          !inputVersion[l][i].Covers(u)
      {
        var files := inputVersion[lvl];
        while levelPtrs[lvl] < |files|
          invariant CursorsBefore(u)
          decreases |files| - levelPtrs[lvl]
        {
          var f := files[levelPtrs[lvl]];
          if Compare(u, f.largest.user) <= 0 {
            if Compare(u, f.smallest.user) >= 0 {
              assert f.Covers(u);
              return false;
            }
            LaterFilesStartAfter(files, levelPtrs[lvl], u);
            break;
          }
          levelPtrs[lvl] := levelPtrs[lvl] + 1;
        }
        lvl := lvl + 1;
      }
      base := true;
    }

    /** The drop decision for record `i`, and the two loop variables it updates. */
    method DropRule(ghost input: seq<Entry>, ghost i: nat, record: Entry, smallestSnapshot: SeqNo,
                    currentUserKey: Option<UserKey>, lastSequenceForKey: SeqNo)
      returns (drop: bool, current: Option<UserKey>, last: SeqNo)
      requires Valid() && i < |input| && input[i] == record && CursorsBefore(record.key.user)
      requires currentUserKey == CurrentUserKey(input, i) && lastSequenceForKey == CurrentSequence(input, i)
      modifies levelPtrs
      ensures Valid() && CursorsBefore(record.key.user)
      ensures drop <==> Dropped(input, i, smallestSnapshot, inputVersion, level)
      ensures drop <==>
                && record.key.kind <= 1
                && (|| (smallestSnapshot == MAX_SEQUENCE)
                    || (i > 0 && input[i - 1].key.kind <= 1 && input[i - 1].key.user == record.key.user && input[i - 1].key.seqno <= smallestSnapshot)
                    || (record.key.kind == 0 && record.key.seqno <= smallestSnapshot && IsBase(inputVersion, level, record.key.user)))
      ensures current == CurrentUserKey(input, i + 1) && last == CurrentSequence(input, i + 1)
    {
      drop := false;
      if !record.Parses() {
        return false, None, MAX_SEQUENCE;
      }
      current, last := currentUserKey, lastSequenceForKey;
      if current.None? || Compare(record.key.user, current.value) != 0 {
        current := Some(record.key.user);
        last := MAX_SEQUENCE;
      }
      if last <= smallestSnapshot {
        drop := true;
      } else if record.key.kind == TYPE_DELETION && record.key.seqno <= smallestSnapshot {
        drop := IsBaseLevelForKey(record.key.user);
      }
      last := record.key.seqno;
    }

    lemma CursorsFollow(input: seq<Entry>, i: nat)
      requires Valid() && Sorted(input) && i < |input| && CursorsBefore(input[i].key.user)
      ensures i + 1 < |input| ==> CursorsBefore(input[i + 1].key.user)
    {
      assert i + 1 < |input| ==> Before(input[i].key, input[i + 1].key);
    }

    /**
     The rewriting loop, over the records that the input iterator hands over until it is not valid
     any more. The work succeeds only if the iterator's status is then good, so that these are all
     records of the inputs; and then the outputs hold exactly the kept records.
     */
    method DoCompactionWork(input: seq<Entry>, smallestSnapshot: SeqNo, env: Environment) returns (ok: bool, outputs: seq<Output>)
      requires Valid() && Sorted(input)
      requires forall u :: CursorsBefore(u)
      modifies levelPtrs
      ensures ok ==> env.inputIntact && Flatten(outputs) == Kept(input, |input|, smallestSnapshot, inputVersion, level)
      ensures ValidOutputs(outputs)
      ensures env.Cooperates() ==> ok
      ensures ok ==> WellCut(input, outputs, smallestSnapshot, inputVersion, level, env)
    {
      hide Dropped, ValidLevels, Sorted, Written, Flatten, Output.Valid, CursorsBefore, CurrentUserKey, CurrentSequence, Cuts, WellCut, IsBase;
      outputs := [];
      ok := true;
      var builder: Option<Output> := None;
      var currentUserKey: Option<UserKey> := None;
      var lastSequenceForKey: SeqNo := MAX_SEQUENCE;
      var i := 0;
      AllClosed([]);
      AtFirstRecord(input);
      CutsNone(input, smallestSnapshot, inputVersion, level, env);
      while i < |input| && !env.shuttingDown(i)
        invariant 0 <= i <= |input|
        invariant Valid()
        invariant i < |input| ==> CursorsBefore(input[i].key.user)
        invariant currentUserKey == CurrentUserKey(input, i)
        invariant lastSequenceForKey == CurrentSequence(input, i)
        invariant ok && ValidOutputs(outputs) && (builder.Some? ==> builder.value.Valid())
        invariant Written(outputs, builder) == Kept(input, i, smallestSnapshot, inputVersion, level)
        invariant Cuts(input, i, outputs, builder, smallestSnapshot, inputVersion, level, env)
      {
        if env.stopBefore(i) && builder.Some? {
          CutsStop(input, i, outputs, builder.value, smallestSnapshot, inputVersion, level, env);
          ok, outputs, builder := FinishOutput(outputs, builder.value, env);
          if !ok { break; }
        }
        var drop;
        drop, currentUserKey, lastSequenceForKey :=
          DropRule(input, i, input[i], smallestSnapshot, currentUserKey, lastSequenceForKey);
        ghost var was, open := outputs, builder;
        if !drop {
          ok, outputs, builder := AddToOutput(outputs, builder, input[i], env, env.bigEnough(i));
          if !ok { break; }
          CutsAdd(input, i, was, open, outputs, builder, smallestSnapshot, inputVersion, level, env);
        } else {
          CutsDrop(input, i, was, open, smallestSnapshot, inputVersion, level, env);
        }
        CursorsFollow(input, i);
        i := i + 1;
      }
      if ok && env.shuttingDown(i) {
        ok := false;
      }
      ghost var was, open := outputs, builder;
      if ok && builder.Some? {
        ok, outputs, builder := FinishOutput(outputs, builder.value, env);
      }
      if ok {
        CutsEnd(input, was, open, smallestSnapshot, inputVersion, level, env);
        ok := env.inputIntact;
      }
      AllClosed(outputs);
    }
  }

  lemma AtFirstRecord(input: seq<Entry>)
    ensures CurrentUserKey(input, 0) == None && CurrentSequence(input, 0) == MAX_SEQUENCE
  {
  }

  lemma AllClosed(outputs: seq<Output>)
    ensures Written(outputs, None) == Flatten(outputs) && (outputs == [] ==> Flatten(outputs) == [])
  {
  }

  /** The loop variables of the rewriting loop before record `i`. */
  function CurrentUserKey(input: seq<Entry>, i: nat): Option<UserKey>
    requires i <= |input|
  {
    if i > 0 && input[i - 1].Parses() then Some(input[i - 1].key.user) else None
  }

  function CurrentSequence(input: seq<Entry>, i: nat): SeqNo
    requires i <= |input|
  {
    if i > 0 && input[i - 1].Parses() then input[i - 1].key.seqno else MAX_SEQUENCE
  }

  ghost predicate ValidOutputs(outputs: seq<Output>) {
    forall i :: 0 <= i < |outputs| ==> outputs[i].Valid()
  }

  /** Closed outputs followed by the open one. */
  ghost function Written(outputs: seq<Output>, builder: Option<Output>): seq<Entry> {
    Flatten(outputs) + (if builder.Some? then builder.value.entries else [])
  }

  /** Past a file that starts after `u`, every file does. */
  /** The base-level test on the bounds of the files. */
  lemma BaseIs(v: Levels, level: nat, u: UserKey)
    ensures IsBase(v, level, u) <==> forall l, i :: level + 2 <= l < 7 && 0 <= i < |v[l]| ==>
              Compare(u, v[l][i].smallest.user) < 0 || Compare(v[l][i].largest.user, u) < 0
  {
    hide Rank;
    forall l, i | level + 2 <= l < 7 && 0 <= i < |v[l]|
      ensures !v[l][i].Covers(u) <==> Compare(u, v[l][i].smallest.user) < 0 || Compare(v[l][i].largest.user, u) < 0
    {
    }
  }

  lemma LaterFilesStartAfter(files: seq<FileMeta>, p: nat, u: UserKey)
    requires ValidFiles(files) && SortedLevel(files) && p < |files|
    requires Rank(u) < Rank(files[p].smallest.user)
    requires forall i :: 0 <= i < p ==> Rank(files[i].largest.user) < Rank(u)
    ensures forall i :: 0 <= i < |files| ==> !files[i].Covers(u)
  {
    forall i | p <= i < |files|
      ensures !files[i].Covers(u)
    {
      EntryCovered(files[p], files[p].entries[0]);
      assert i > p ==> Before(files[p].largest, files[i].smallest);
    }
  }

  /** FinishCompactionOutputFile: closes the open table, or fails. */
  method FinishOutput(outputs: seq<Output>, builder: Output, env: Environment)
    returns (ok: bool, outs: seq<Output>, none: Option<Output>)
    requires ValidOutputs(outputs) && builder.Valid()
    ensures none == None && ValidOutputs(outs)
    ensures ok <==> env.Finishes(|outputs|)
    ensures outs == if ok then outputs + [builder] else outputs
    ensures ok ==> Written(outs, none) == Written(outputs, Some(builder))
  {
    var n := |outputs|;
    ok := env.inputOk(n);
    if ok {
      ok := env.built(n);
    }
    if ok {
      ok := env.synced(n);
    }
    if ok {
      ok := env.closed(n);
    }
    if ok && builder.entries != [] {
      ok := env.usable(n);
    }
    none := None;
    outs := if ok then outputs + [builder] else outputs;
    assert (outputs + [builder])[..|outputs|] == outputs;
  }

  /** Adds one record to the open table, opening one first and closing it after as needed. */
  method AddToOutput(outputs: seq<Output>, builder: Option<Output>, record: Entry, env: Environment, bigEnough: bool)
    returns (ok: bool, outs: seq<Output>, open: Option<Output>)
    requires ValidOutputs(outputs) && (builder.Some? ==> builder.value.Valid())
    ensures ValidOutputs(outs) && (open.Some? ==> open.value.Valid())
    ensures ok <==> (builder.None? ==> env.created(|outputs|)) && (bigEnough ==> env.Finishes(|outputs|))
    ensures ok ==> (open.None? <==> bigEnough)
    ensures ok ==> Written(outs, open) == Written(outputs, builder) + [record]
    ensures ok ==>
              var grown := if builder.None? then Output(record.key, record.key, [record])
                           else Output(builder.value.smallest, record.key, builder.value.entries + [record]);
              if bigEnough then outs == outputs + [grown] else outs == outputs && open == Some(grown)
  {
    ok, outs := true, outputs;
    if builder.None? {
      if !env.created(|outputs|) { return false, outputs, builder; }
      open := Some(Output(record.key, record.key, [record]));
    } else {
      open := Some(Output(builder.value.smallest, record.key, builder.value.entries + [record]));
      assert Flatten(outputs) + (builder.value.entries + [record]) == Flatten(outputs) + builder.value.entries + [record];
    }
    assert Written(outs, open) == Written(outputs, builder) + [record];
    if bigEnough {
      ok, outs, open := FinishOutput(outs, open.value, env);
    }
  }

  // ---- What readers see ----

  /**
   `outside` is everything the compaction does not touch. An untouched version older than an
   input version of the same user key must lie in a deeper file of the input version.
   */
  ghost predicate OlderOnlyDeeper(input: seq<Entry>, outside: set<Entry>, v: Levels, level: nat) {
    forall o, e :: o in outside && e in input && o.key.user == e.key.user && o.key.seqno < e.key.seqno ==>
      !IsBase(v, level, o.key.user)
  }

  ghost predicate Admissible(input: seq<Entry>, outside: set<Entry>, v: Levels, level: nat) {
    && outside !! Elements(input)
    && DistinctVersions(Elements(input) + outside)
    && OlderOnlyDeeper(input, outside, v, level)
  }

  ghost predicate Unchanged(input: seq<Entry>, outside: set<Entry>, smallest: SeqNo, v: Levels, level: nat, u: UserKey, s: SeqNo) {
    Read(Elements(Kept(input, |input|, smallest, v, level)) + outside, u, s) == Read(Elements(input) + outside, u, s)
  }

  /** Record `i` is the version of its user key that a reader at `smallest` sees in the inputs. */
  ghost predicate Top(input: seq<Entry>, i: nat, smallest: SeqNo)
    requires i < |input|
  {
    Newest(Elements(input), input[i].key.user, smallest, input[i])
  }

  /** The newest rewritten version of `u` below record `i` is record `k`. */
  ghost predicate NextKept(input: seq<Entry>, i: nat, k: nat, smallest: SeqNo, v: Levels, level: nat)
    requires i < k < |input|
  {
    && input[k].Parses() && input[k].key.user == input[i].key.user && !Dropped(input, k, smallest, v, level)
    && forall j :: i < j < k && input[j].Parses() && input[j].key.user == input[i].key.user ==>
         Dropped(input, j, smallest, v, level)
  }

  /**
   The inputs on which a deleted value can come back: nothing deeper may hold `u`, its version
   at the smallest snapshot is a deletion marker, and further down an unparsable key stands
   right before a value of `u`.
   */
  ghost predicate ValueUnderReset(input: seq<Entry>, smallest: SeqNo, v: Levels, level: nat, u: UserKey) {
    && IsBase(v, level, u)
    && exists i, k :: 0 <= i < k < |input| && input[i].key.user == u && Top(input, i, smallest) && input[i].key.kind == TYPE_DELETION
         && input[k].key.user == u && input[k].key.kind == TYPE_VALUE && !input[k - 1].Parses()
  }

  /** What the loop makes of such inputs: a marker is elided, yet a value underneath it is rewritten. */
  ghost predicate Resurrects(input: seq<Entry>, smallest: SeqNo, v: Levels, level: nat, u: UserKey) {
    exists i, k :: 0 <= i < k < |input| && input[i].key.user == u
      && Top(input, i, smallest) && Elided(input, i, smallest, v, level)
      && NextKept(input, i, k, smallest, v, level) && input[k].key.kind == TYPE_VALUE
  }

  /** The newest version is never hidden by rule (A). */
  lemma NewestNotHidden(input: seq<Entry>, es: set<Entry>, i: nat, smallest: SeqNo, s: SeqNo)
    requires Sorted(input) && i < |input| && smallest < MAX_SEQUENCE && smallest <= s
    requires Elements(input) <= es && DistinctVersions(es)
    requires Newest(es, input[i].key.user, s, input[i])
    ensures !Hidden(input, i, smallest)
  {
    if Hidden(input, i, smallest) {
      var p := input[i - 1];
      assert Before(p.key, input[i].key);
      assert p in Elements(input) && Visible(es, input[i].key.user, s, p);
    }
  }

  /**
   What rule (A) amounts to for a user key whose entries parse: an entry goes exactly when the
   input has a newer version that every reader at or above the smallest snapshot sees.
   */
  lemma HiddenIff(input: seq<Entry>, i: nat, smallest: SeqNo)
    requires Sorted(input) && i < |input| && smallest < MAX_SEQUENCE
    requires forall e :: e in input && e.key.user == input[i].key.user ==> e.Parses()
    ensures Hidden(input, i, smallest) <==> exists j :: 0 <= j < i && input[j].key.user == input[i].key.user && input[j].key.seqno <= smallest
  {
    if j :| 0 <= j < i && input[j].key.user == input[i].key.user && input[j].key.seqno <= smallest {
      SameUserBetween(input, j, i - 1, i);
      assert j < i - 1 ==> Before(input[j].key, input[i - 1].key);
    }
  }

  lemma KeptSubset(input: seq<Entry>, smallest: SeqNo, v: Levels, level: nat)
    ensures Elements(Kept(input, |input|, smallest, v, level)) <= Elements(input)
  {
    forall e | e in Kept(input, |input|, smallest, v, level)
      ensures e in input
    {
      KeptMembers(input, |input|, smallest, v, level, e);
    }
  }

  /** No untouched version lies under an elided newest one. */
  lemma NothingOlderOutside(input: seq<Entry>, outside: set<Entry>, i: nat, smallest: SeqNo, v: Levels, level: nat, s: SeqNo, e: Entry)
    requires i < |input| && Admissible(input, outside, v, level)
    requires Newest(Elements(input) + outside, input[i].key.user, s, input[i])
    requires Elided(input, i, smallest, v, level)
    requires Visible(Elements(input) + outside, input[i].key.user, s, e)
    ensures e !in outside
  {
    hide IsBase;
    assert input[i] in input && input[i] in Elements(input) + outside;
  }

  /** What is visible after the newest version was elided comes from records below it. */
  lemma SurvivorBelow(input: seq<Entry>, outside: set<Entry>, i: nat, smallest: SeqNo, v: Levels, level: nat, s: SeqNo, e: Entry)
    returns (k: nat)
    requires Sorted(input) && i < |input|
    requires Admissible(input, outside, v, level)
    requires Newest(Elements(input) + outside, input[i].key.user, s, input[i])
    requires Elided(input, i, smallest, v, level)
    requires Visible(Elements(Kept(input, |input|, smallest, v, level)) + outside, input[i].key.user, s, e)
    ensures i < k < |input| && input[k] == e && !Dropped(input, k, smallest, v, level)
  {
    hide IsBase, Kept;
    KeptSubset(input, smallest, v, level);
    NothingOlderOutside(input, outside, i, smallest, v, level, s, e);
    KeptMembers(input, |input|, smallest, v, level, e);
    k :| 0 <= k < |input| && input[k] == e && !Dropped(input, k, smallest, v, level);
    IndexAfter(input, i, k, Elements(input) + outside, s);
  }

  /** A version no newer than another one of its user key comes later in the merged order. */
  lemma IndexAfter(input: seq<Entry>, i: nat, k: nat, es: set<Entry>, s: SeqNo)
    requires Sorted(input) && i < |input| && k < |input| && i != k
    requires Newest(es, input[i].key.user, s, input[i]) && Visible(es, input[i].key.user, s, input[k])
    requires DistinctVersions(es)
    ensures i < k
  {
    assert forall p :: 0 <= p < i ==> Before(input[p].key, input[i].key);
    assert forall p :: i < p < |input| ==> Before(input[i].key, input[p].key);
  }

  /** Under an elided newest version only another deletion marker can be left. */
  lemma NothingUnderElided(input: seq<Entry>, outside: set<Entry>, i: nat, smallest: SeqNo, v: Levels, level: nat, s: SeqNo)
    requires Sorted(input) && i < |input| && smallest <= s
    requires Admissible(input, outside, v, level)
    requires Newest(Elements(input) + outside, input[i].key.user, s, input[i])
    requires Elided(input, i, smallest, v, level)
    requires !Resurrects(input, smallest, v, level, input[i].key.user)
    ensures Read(Elements(Kept(input, |input|, smallest, v, level)) + outside, input[i].key.user, s) == None
  {
    hide IsBase, Kept;
    var u := input[i].key.user;
    var after := Elements(Kept(input, |input|, smallest, v, level)) + outside;
    if top :| Newest(after, u, s, top) {
      var k := SurvivorBelow(input, outside, i, smallest, v, level, s, top);
      forall j | i < j < k && input[j].Parses() && input[j].key.user == u
        ensures Dropped(input, j, smallest, v, level)
      {
        assert Before(input[j].key, input[k].key) && Before(input[i].key, input[j].key);
        assert {input[j], input[k]} <= Elements(input) + outside;
        assert !Visible(after, u, s, input[j]);
        KeptMembers(input, |input|, smallest, v, level, input[j]);
      }
      assert NextKept(input, i, k, smallest, v, level);
      TopOfInputs(input, outside, i, smallest, s);
      KeptSubset(input, smallest, v, level);
      ReadIs(after, u, s, top);
    }
  }

  lemma TopOfInputs(input: seq<Entry>, outside: set<Entry>, i: nat, smallest: SeqNo, s: SeqNo)
    requires i < |input| && smallest <= s && input[i].key.seqno <= smallest
    requires Newest(Elements(input) + outside, input[i].key.user, s, input[i])
    ensures Top(input, i, smallest)
  {
    forall f | Visible(Elements(input), input[i].key.user, smallest, f)
      ensures f.key.seqno <= input[i].key.seqno
    {
      assert Visible(Elements(input) + outside, input[i].key.user, s, f);
    }
  }

  lemma InvisibleUnlessResurrected(input: seq<Entry>, outside: set<Entry>, smallest: SeqNo, v: Levels, level: nat, u: UserKey, s: SeqNo)
    requires Sorted(input) && smallest < MAX_SEQUENCE && smallest <= s
    requires Admissible(input, outside, v, level)
    requires !Resurrects(input, smallest, v, level, u)
    ensures Unchanged(input, outside, smallest, v, level, u, s)
  {
    hide IsBase, Kept;
    var before := Elements(input) + outside;
    var after := Elements(Kept(input, |input|, smallest, v, level)) + outside;
    KeptSubset(input, smallest, v, level);
    if top :| Newest(before, u, s, top) {
      ReadIs(before, u, s, top);
      if top in after {
        forall f | Visible(after, u, s, f) ensures Visible(before, u, s, f) {}
        assert Newest(after, u, s, top);
        ReadIs(after, u, s, top);
      } else {
        var i :| 0 <= i < |input| && input[i] == top;
        KeptMembers(input, |input|, smallest, v, level, top);
        NewestNotHidden(input, before, i, smallest, s);
        NothingUnderElided(input, outside, i, smallest, v, level, s);
      }
    } else {
      if f :| Visible(after, u, s, f) {
        var _ := NewestExists(before, u, s, f);
      }
    }
  }

  /** Conversely, when a value resurfaces, a reader at the smallest snapshot can see it. */
  lemma ResurrectionIsVisible(input: seq<Entry>, smallest: SeqNo, v: Levels, level: nat, u: UserKey)
    requires Sorted(input) && DistinctVersions(Elements(input))
    requires Resurrects(input, smallest, v, level, u)
    ensures Admissible(input, {}, v, level)
    ensures !Unchanged(input, {}, smallest, v, level, u, smallest)
  {
    hide IsBase, Kept;
    var i, k :| 0 <= i < k < |input| && input[i].key.user == u
      && Top(input, i, smallest) && Elided(input, i, smallest, v, level)
      && NextKept(input, i, k, smallest, v, level) && input[k].key.kind == TYPE_VALUE;
    assert Elements(input) + {} == Elements(input);
    assert Admissible(input, {}, v, level);
    assert Read(Elements(input) + {}, u, smallest) == None by {
      ReadIs(Elements(input), u, smallest, input[i]);
    }
    NewestSurvivor(input, i, k, smallest, v, level);
  }

  lemma NewestSurvivor(input: seq<Entry>, i: nat, k: nat, smallest: SeqNo, v: Levels, level: nat)
    requires Sorted(input) && DistinctVersions(Elements(input)) && i < k < |input|
    requires Top(input, i, smallest) && Elided(input, i, smallest, v, level)
    requires NextKept(input, i, k, smallest, v, level)
    ensures Read(Elements(Kept(input, |input|, smallest, v, level)) + {}, input[i].key.user, smallest) == Answer(input[k])
  {
    hide IsBase, Kept, Read, Hidden, Rank;
    var u := input[i].key.user;
    var after := Elements(Kept(input, |input|, smallest, v, level)) + {};
    assert Elements(input) + {} == Elements(input);
    KeptMembers(input, |input|, smallest, v, level, input[k]);
    assert Before(input[i].key, input[k].key);
    forall f | Visible(after, u, smallest, f)
      ensures f.key.seqno <= input[k].key.seqno
    {
      var j := SurvivorBelow(input, {}, i, smallest, v, level, smallest, f);
      assert j > k ==> Before(input[k].key, input[j].key);
    }
    KeptSubset(input, smallest, v, level);
    ReadIs(after, u, smallest, input[k]);
  }

  /** Between two records of one user key the merged order has only that user key. */
  lemma SameUserBetween(input: seq<Entry>, i: nat, j: nat, k: nat)
    requires Sorted(input) && i <= j <= k < |input| && input[i].key.user == input[k].key.user
    ensures input[j].key.user == input[i].key.user
  {
    SameRank(input[i].key.user, input[j].key.user);
    assert i < j ==> Before(input[i].key, input[j].key);
    assert j < k ==> Before(input[j].key, input[k].key);
  }

  /** A rewritten record under the marker comes right after an unparsable key. */
  lemma KeptAfterReset(input: seq<Entry>, i: nat, k: nat, smallest: SeqNo, v: Levels, level: nat)
    requires Sorted(input) && i < k < |input| && input[k].key.user == input[i].key.user
    requires Elided(input, i, smallest, v, level) && input[k].Parses() && !Dropped(input, k, smallest, v, level)
    ensures !input[k - 1].Parses()
  {
    hide IsBase;
    SameUserBetween(input, i, k - 1, k);
    assert i < k - 1 ==> Before(input[i].key, input[k - 1].key);
  }

  /** Of the rewritten records under a marker, one comes first. */
  lemma {:induction false} FirstKept(input: seq<Entry>, i: nat, k: nat, smallest: SeqNo, v: Levels, level: nat) returns (j: nat)
    requires i < k < |input| && input[k].Parses() && input[k].key.user == input[i].key.user && !Dropped(input, k, smallest, v, level)
    ensures i < j <= k && NextKept(input, i, j, smallest, v, level)
    decreases k
  {
    hide Dropped;
    if m :| i < m < k && input[m].Parses() && input[m].key.user == input[i].key.user && !Dropped(input, m, smallest, v, level) {
      j := FirstKept(input, i, m, smallest, v, level);
    } else {
      j := k;
    }
  }

  lemma ResurrectsUnderReset(input: seq<Entry>, smallest: SeqNo, v: Levels, level: nat, u: UserKey)
    requires Sorted(input) && smallest < MAX_SEQUENCE && Resurrects(input, smallest, v, level, u)
    ensures ValueUnderReset(input, smallest, v, level, u)
  {
    hide IsBase, Top, Sorted;
    var i, k :| 0 <= i < k < |input| && input[i].key.user == u
      && Top(input, i, smallest) && Elided(input, i, smallest, v, level)
      && NextKept(input, i, k, smallest, v, level) && input[k].key.kind == TYPE_VALUE;
    KeptAfterReset(input, i, k, smallest, v, level);
  }

  /** A deleted value is rewritten exactly on the inputs described. */
  lemma ResurrectsIff(input: seq<Entry>, smallest: SeqNo, v: Levels, level: nat, u: UserKey)
    requires Sorted(input) && smallest < MAX_SEQUENCE
    ensures Resurrects(input, smallest, v, level, u) <==> ValueUnderReset(input, smallest, v, level, u)
  {
    hide IsBase, Top, Elided, NextKept, Sorted;
    if Resurrects(input, smallest, v, level, u) {
      ResurrectsUnderReset(input, smallest, v, level, u);
    } else if ValueUnderReset(input, smallest, v, level, u) {
      var i, k :| 0 <= i < k < |input| && input[i].key.user == u && Top(input, i, smallest) && input[i].key.kind == TYPE_DELETION
         && input[k].key.user == u && input[k].key.kind == TYPE_VALUE && !input[k - 1].Parses();
      var j := ResetKeeps(input, i, k, smallest, v, level);
    }
  }

  lemma ResetKeeps(input: seq<Entry>, i: nat, k: nat, smallest: SeqNo, v: Levels, level: nat) returns (j: nat)
    requires Sorted(input) && smallest < MAX_SEQUENCE && i < k < |input|
    requires IsBase(v, level, input[i].key.user) && Top(input, i, smallest) && input[i].key.kind == TYPE_DELETION
    requires input[k].key.user == input[i].key.user && input[k].key.kind == TYPE_VALUE && !input[k - 1].Parses()
    ensures i < j < |input| && Elided(input, i, smallest, v, level) && NextKept(input, i, j, smallest, v, level)
    ensures input[j].key.kind == TYPE_VALUE
  {
    hide IsBase, Top, NextKept;
    TopIs(input, i, smallest);
    j := FirstKept(input, i, k, smallest, v, level);
    NextKeptIs(input, i, j, smallest, v, level);
    assert Before(input[i].key, input[j].key);
  }

  lemma NextKeptIs(input: seq<Entry>, i: nat, k: nat, smallest: SeqNo, v: Levels, level: nat)
    requires i < k < |input| && NextKept(input, i, k, smallest, v, level)
    ensures input[k].Parses() && input[k].key.user == input[i].key.user && !Dropped(input, k, smallest, v, level)
  {
  }

  lemma TopIs(input: seq<Entry>, i: nat, smallest: SeqNo)
    requires i < |input| && Top(input, i, smallest)
    ensures input[i].Parses() && input[i].key.seqno <= smallest
  {
  }

  /** Readers at or above the smallest snapshot see no change, unless a value stands under a reset. */
  lemma CompactionInvisible(input: seq<Entry>, outside: set<Entry>, smallest: SeqNo, v: Levels, level: nat, u: UserKey, s: SeqNo)
    requires Sorted(input) && smallest < MAX_SEQUENCE && smallest <= s
    requires Admissible(input, outside, v, level)
    requires !ValueUnderReset(input, smallest, v, level, u)
    ensures Unchanged(input, outside, smallest, v, level, u, s)
  {
    hide Admissible, Unchanged, Resurrects, ValueUnderReset, Sorted;
    ResurrectsIff(input, smallest, v, level, u);
    InvisibleUnlessResurrected(input, outside, smallest, v, level, u, s);
  }

  /** The exact condition on the input, over every surrounding store and every admissible snapshot. */
  lemma CompactionInvisibleIff(input: seq<Entry>, smallest: SeqNo, v: Levels, level: nat, u: UserKey)
    requires Sorted(input) && DistinctVersions(Elements(input)) && smallest < MAX_SEQUENCE
    ensures !ValueUnderReset(input, smallest, v, level, u) <==>
      forall outside: set<Entry>, s: SeqNo :: Admissible(input, outside, v, level) && smallest <= s ==>
        Unchanged(input, outside, smallest, v, level, u, s)
  {
    hide Resurrects, ValueUnderReset, Sorted;
    if ValueUnderReset(input, smallest, v, level, u) {
      ResurrectsIff(input, smallest, v, level, u);
      ResurrectionIsVisible(input, smallest, v, level, u);
    } else {
      forall outside: set<Entry>, s: SeqNo | Admissible(input, outside, v, level) && smallest <= s
        ensures Unchanged(input, outside, smallest, v, level, u, s)
      {
        CompactionInvisible(input, outside, smallest, v, level, u, s);
      }
    }
  }

  /** Without an unparsable key among the inputs of `u`, nothing resurfaces. */
  lemma ParsedKeysNeverResurrect(input: seq<Entry>, smallest: SeqNo, v: Levels, level: nat, u: UserKey)
    requires Sorted(input)
    requires forall e :: e in input && e.key.user == u ==> e.Parses()
    ensures !ValueUnderReset(input, smallest, v, level, u)
  {
    hide IsBase, Top;
    forall i, k | 0 <= i < k < |input| && input[i].key.user == u && input[k].key.user == u
      ensures input[k - 1].Parses()
    {
      SameUserBetween(input, i, k - 1, k);
      assert input[k - 1] in input;
    }
  }

  /** Sets with the same visible versions read the same. */
  lemma SameVisible(a: set<Entry>, b: set<Entry>, u: UserKey, s: SeqNo)
    requires DistinctVersions(a) && DistinctVersions(b)
    requires forall f :: Visible(a, u, s, f) <==> Visible(b, u, s, f)
    ensures Read(a, u, s) == Read(b, u, s)
  {
    hide DistinctVersions, Visible;
    if top :| Newest(a, u, s, top) {
      assert Newest(b, u, s, top);
      ReadIs(a, u, s, top);
      ReadIs(b, u, s, top);
    } else {
      assert forall f :: Newest(b, u, s, f) ==> Newest(a, u, s, f);
    }
  }

  lemma SubsetDistinct(es: set<Entry>, fs: set<Entry>)
    requires DistinctVersions(es) && fs <= es
    ensures DistinctVersions(fs)
  {
  }

  /** Under an elided newest marker of a parsable user key, only what lies outside is left to see. */
  lemma OnlyOutsideLeft(input: seq<Entry>, outside: set<Entry>, i: nat, smallest: SeqNo, v: Levels, level: nat, s: SeqNo, f: Entry)
    requires Sorted(input) && i < |input| && DistinctVersions(Elements(input) + outside)
    requires forall e :: e in input && e.key.user == input[i].key.user ==> e.Parses()
    requires Newest(Elements(input) + outside, input[i].key.user, s, input[i]) && Elided(input, i, smallest, v, level)
    requires Visible(Elements(Kept(input, |input|, smallest, v, level)) + outside, input[i].key.user, s, f)
    ensures Visible(outside, input[i].key.user, s, f)
  {
    hide IsBase, Kept, DistinctVersions, Sorted, Before;
    if f !in outside {
      KeptMembers(input, |input|, smallest, v, level, f);
      var k :| 0 <= k < |input| && input[k] == f && !Dropped(input, k, smallest, v, level);
      IndexAfter(input, i, k, Elements(input) + outside, s);
      SameUserBetween(input, i, k - 1, k);
      assert input[k - 1] in input;
      KeptAfterReset(input, i, k, smallest, v, level);
    }
  }

  /**
   What a compaction does to a reader of a parsable user key, in any surrounding store: nothing,
   unless the version it sees is an elided marker; then it sees what the surrounding store has.
   */
  lemma OnlyElisionMatters(input: seq<Entry>, outside: set<Entry>, smallest: SeqNo, v: Levels, level: nat, u: UserKey, s: SeqNo)
    requires Sorted(input) && smallest < MAX_SEQUENCE && smallest <= s
    requires DistinctVersions(Elements(input) + outside)
    requires forall e :: e in input && e.key.user == u ==> e.Parses()
    ensures Read(Elements(Kept(input, |input|, smallest, v, level)) + outside, u, s)
      == if exists i: nat :: i < |input| && Newest(Elements(input) + outside, u, s, input[i]) && Elided(input, i, smallest, v, level)
         then Read(outside, u, s) else Read(Elements(input) + outside, u, s)
  {
    hide IsBase, Kept, Sorted, Read;
    var before := Elements(input) + outside;
    var after := Elements(Kept(input, |input|, smallest, v, level)) + outside;
    KeptSubset(input, smallest, v, level);
    SubsetDistinct(before, after);
    SubsetDistinct(before, outside);
    if i: nat :| i < |input| && Newest(before, u, s, input[i]) && Elided(input, i, smallest, v, level) {
      forall f
        ensures Visible(after, u, s, f) <==> Visible(outside, u, s, f)
      {
        if Visible(after, u, s, f) { OnlyOutsideLeft(input, outside, i, smallest, v, level, s, f); }
      }
      SameVisible(after, outside, u, s);
    } else {
      NothingLost(input, outside, smallest, v, level, u, s);
    }
  }

  lemma NothingLost(input: seq<Entry>, outside: set<Entry>, smallest: SeqNo, v: Levels, level: nat, u: UserKey, s: SeqNo)
    requires Sorted(input) && smallest < MAX_SEQUENCE && smallest <= s
    requires DistinctVersions(Elements(input) + outside)
    requires forall i: nat :: i < |input| && Newest(Elements(input) + outside, u, s, input[i]) ==> !Elided(input, i, smallest, v, level)
    ensures Read(Elements(Kept(input, |input|, smallest, v, level)) + outside, u, s) == Read(Elements(input) + outside, u, s)
  {
    hide IsBase, Kept, Sorted, Elided, Hidden;
    var before := Elements(input) + outside;
    var after := Elements(Kept(input, |input|, smallest, v, level)) + outside;
    KeptSubset(input, smallest, v, level);
    SubsetDistinct(before, after);
    if top :| Newest(before, u, s, top) {
      ReadIs(before, u, s, top);
      if top in input {
        var i :| 0 <= i < |input| && input[i] == top;
        NewestNotHidden(input, before, i, smallest, s);
        KeptMembers(input, |input|, smallest, v, level, top);
      }
      assert top in after;
      forall f | Visible(after, u, s, f) ensures Visible(before, u, s, f) {}
      assert Newest(after, u, s, top);
      ReadIs(after, u, s, top);
    } else {
      if f :| Visible(after, u, s, f) {
        assert Visible(before, u, s, f);
        var _ := NewestExists(before, u, s, f);
      }
    }
  }

  /** A deletion marker, an unparsable key and an older value of one user key. */
  function Example(u: UserKey): seq<Entry> {
    [Entry(InternalKey(u, 3, TYPE_DELETION), []), Entry(InternalKey(u, 2, 7), []), Entry(InternalKey(u, 1, TYPE_VALUE), [9])]
  }

  /** An unparsable key between a marker and an older value does bring the value back. */
  lemma UnparsableKeyResurrects(u: UserKey, v: Levels)
    requires v == [[], [], [], [], [], [], []]
    ensures Sorted(Example(u)) && DistinctVersions(Elements(Example(u))) && ValueUnderReset(Example(u), 3, v, 0, u)
    ensures Admissible(Example(u), {}, v, 0) && !Unchanged(Example(u), {}, 3, v, 0, u, 3)
  {
    hide Kept, Read;
    var input := Example(u);
    assert Elements(input) == {input[0], input[1], input[2]};
    assert Top(input, 0, 3) && !input[1].Parses();
    assert ValueUnderReset(input, 3, v, 0, u);
    ResurrectsIff(input, 3, v, 0, u);
    ResurrectionIsVisible(input, 3, v, 0, u);
  }

  /** A smallest snapshot at the very last sequence number would hide every first version too. */
  lemma {:induction false} MaximalSnapshotDropsAll(input: seq<Entry>, n: nat, v: Levels, level: nat)
    requires n <= |input| && forall e :: e in input ==> e.Parses()
    ensures Kept(input, n, MAX_SEQUENCE, v, level) == []
  {
    if n > 0 {
      MaximalSnapshotDropsAll(input, n - 1, v, level);
      assert input[n - 1] in input;
    }
  }
}
