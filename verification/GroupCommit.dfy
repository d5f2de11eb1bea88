/**
 Group commit (DBImpl::Write and BuildBatchGroup, db/db_impl.cc).

 Writers queue up under the mutex. The one at the front commits a whole prefix of the queue:
 it builds one batch, releases the mutex, appends the batch to the log, syncs if it asked for
 it, applies the batch to the memtable record by record, and takes the mutex again to publish
 the new last sequence and to wake the writers it committed. Each method of `Database` is one
 such step; between the steps of a leader other writers may queue up and readers may read.
 */
module GroupCommit {
  import opened Keys
  import opened Store
  import opened Coding
  import opened WriteBatches

  /** One call of Write. */
  type Call = nat

  /** No batch: the caller only wants the memtable switched. */
  datatype Request = Request(batch: Option<Bytes>, sync: bool)

  type Requests = map<Call, Request>

  datatype Stage =
    | ToLog
    | ToSync
    | Inserting(rest: Bytes, next: nat)
    | Ended(ok: bool, logged: bool)

  /** What the leader holds while the mutex is released: its group is the first `size` writers. */
  datatype Flight = Flight(size: nat, updates: Bytes, last: nat, stage: Stage)

  /** A committed group: its operations take the sequence numbers first + 1, first + 2, ... */
  datatype Group = Group(members: seq<Call>, first: nat, ops: seq<Op>, logged: Option<nat>, ok: bool)

  ghost function OpsOf(r: Request): seq<Op> {
    if r.batch.Some? && |r.batch.value| >= HEADER then Parse(r.batch.value[HEADER..]).0 else []
  }

  ghost predicate WellFormed(r: Request) {
    r.batch.Some? ==> Represents(r.batch.value, OpsOf(r))
  }

  ghost predicate Known(requests: Requests, calls: seq<Call>) {
    forall i :: 0 <= i < |calls| ==> calls[i] in requests && WellFormed(requests[calls[i]])
  }

  /** The operations of several calls, in queue order. */
  ghost function GroupOps(requests: Requests, members: seq<Call>): seq<Op>
    requires Known(requests, members)
  {
    if members == [] then []
    else GroupOps(requests, members[..|members| - 1]) + OpsOf(requests[members[|members| - 1]])
  }

  /** The bytes of several calls' batches, one after another. */
  ghost function Joined(requests: Requests, members: seq<Call>): Bytes
    requires forall i :: 0 <= i < |members| ==> members[i] in requests
  {
    if members == [] then []
    else
      var r := requests[members[|members| - 1]];
      Joined(requests, members[..|members| - 1]) + if r.batch.Some? then r.batch.value else []
  }

  /** Writer `k` may join the group of `writers[0]`: no sync write under a leader without, and no more bytes than `max`. */
  ghost predicate Joins(requests: Requests, writers: seq<Call>, k: nat, max: nat)
    requires 0 < k < |writers| && forall i :: 0 <= i < |writers| ==> writers[i] in requests
  {
    && (requests[writers[k]].sync ==> requests[writers[0]].sync)
    && (requests[writers[k]].batch.Some? ==> |Joined(requests, writers[..k + 1])| <= max)
  }

  /** A batch holds at most one operation a byte, so a group's count cannot overflow. */
  lemma {:induction false} OpsFit(requests: Requests, members: seq<Call>)
    requires Known(requests, members)
    ensures |GroupOps(requests, members)| <= |Joined(requests, members)|
  {
    if members != [] {
      var n := |members| - 1;
      OpsFit(requests, members[..n]);
      assert WellFormed(requests[members[n]]);
    }
  }

  lemma Extend(requests: Requests, writers: seq<Call>, k: nat)
    requires Known(requests, writers) && k < |writers|
    ensures GroupOps(requests, writers[..k + 1]) == GroupOps(requests, writers[..k]) + OpsOf(requests[writers[k]])
    ensures Joined(requests, writers[..k + 1])
      == Joined(requests, writers[..k]) + if requests[writers[k]].batch.Some? then requests[writers[k]].batch.value else []
  {
    assert writers[..k + 1][..k] == writers[..k];
  }

  lemma Single(requests: Requests, writers: seq<Call>)
    requires Known(requests, writers) && writers != []
    ensures GroupOps(requests, writers[..1]) == OpsOf(requests[writers[0]])
    ensures Joined(requests, writers[..1]) == if requests[writers[0]].batch.Some? then requests[writers[0]].batch.value else []
  {
    hide WellFormed, OpsOf;
    Extend(requests, writers, 0);
    assert writers[..0] == [] && [] + OpsOf(requests[writers[0]]) == OpsOf(requests[writers[0]]);
  }

  /** BuildBatchGroup: the longest prefix of the queue that nothing blocks, and its combined batch. */
  method BuildBatchGroup(requests: Requests, writers: seq<Call>) returns (size: nat, updates: Bytes)
    requires Known(requests, writers) && writers != [] && requests[writers[0]].batch.Some?
    ensures 1 <= size <= |writers|
    ensures Represents(updates, GroupOps(requests, writers[..size]))
    ensures var b := |requests[writers[0]].batch.value|;
            var max := if b <= 131072 then b + 131072 else 1048576;
            && (forall k :: 0 < k < size ==>
                  && (requests[writers[k]].sync ==> requests[writers[0]].sync)
                  && (requests[writers[k]].batch.Some? ==> |Joined(requests, writers[..k + 1])| <= max))
            && (size < |writers| ==>
                  || (requests[writers[size]].sync && !requests[writers[0]].sync)
                  || (requests[writers[size]].batch.Some? && |Joined(requests, writers[..size + 1])| > max))
  {
    hide Represents, GroupOps, Joined, Parse;
    var first := requests[writers[0]];
    var bytes := |first.batch.value|;
    var maxSize := 1048576;
    if bytes <= 131072 {
      maxSize := bytes + 131072;
    }
    var tmp: WriteBatch? := null;
    size := 1;
    Single(requests, writers);
    while size < |writers|
      invariant 1 <= size <= |writers| && bytes == |Joined(requests, writers[..size])|
      invariant tmp == null ==> Represents(first.batch.value, GroupOps(requests, writers[..size]))
      invariant tmp != null ==> fresh(tmp) && Represents(tmp.rep, GroupOps(requests, writers[..size]))
      invariant forall k :: 0 < k < size ==> Joins(requests, writers, k, maxSize)
    {
      var w := requests[writers[size]];
      Extend(requests, writers, size);
      if w.sync && !first.sync {
        break;
      }
      if w.batch.Some? {
        bytes := bytes + |w.batch.value|;
        if bytes > maxSize {
          break;
        }
        OpsFit(requests, writers[..size + 1]);
        ghost var ops := GroupOps(requests, writers[..size]);
        if tmp == null {
          tmp := new WriteBatch();
          tmp.Append(first.batch.value, [], ops);
          assert [] + ops == ops;
        }
        tmp.Append(w.batch.value, ops, OpsOf(w));
      } else {
        assert GroupOps(requests, writers[..size]) + [] == GroupOps(requests, writers[..size]);
      }
      size := size + 1;
    }
    updates := if tmp == null then first.batch.value else tmp.rep;
    forall k | 0 < k < size
      ensures requests[writers[k]].sync ==> first.sync
      ensures requests[writers[k]].batch.Some? ==> |Joined(requests, writers[..k + 1])| <= maxSize
    {
      assert Joins(requests, writers, k, maxSize);
    }
  }

  // ---- The state of the database and what holds in it ----

  datatype State = State(
    requests: Requests, writers: seq<Call>, acked: map<Call, bool>, lastSequence: nat, log: seq<Bytes>, durable: set<nat>,
    mem: seq<(nat, Op)>, flight: Option<Flight>, groups: seq<Group>, arrivals: seq<Call>)

  ghost function Members(groups: seq<Group>): seq<Call> {
    if groups == [] then [] else Members(groups[..|groups| - 1]) + groups[|groups| - 1].members
  }

  /** The last sequence number the groups take. */
  ghost function End(groups: seq<Group>): nat {
    if groups == [] then 0 else groups[|groups| - 1].first + |groups[|groups| - 1].ops|
  }

  ghost function Numbered(first: nat, ops: seq<Op>): (r: seq<(nat, Op)>)
    ensures |r| == |ops| && forall i :: 0 <= i < |r| ==> r[i] == (first + 1 + i, ops[i])
  {
    seq(|ops|, i requires 0 <= i < |ops| => (first + 1 + i, ops[i]))
  }

  /** What one group puts into the memtable, and what all of them do. */
  ghost function Applied(g: Group): (r: seq<(nat, Op)>)
    ensures forall i :: 0 <= i < |r| ==> g.first < r[i].0 <= g.first + |g.ops|
  {
    if g.ok then Numbered(g.first, g.ops) else []
  }

  ghost function Content(groups: seq<Group>): seq<(nat, Op)> {
    if groups == [] then [] else Content(groups[..|groups| - 1]) + Applied(groups[|groups| - 1])
  }

  lemma AppendGroup(groups: seq<Group>, g: Group)
    ensures Members(groups + [g]) == Members(groups) + g.members
    ensures Content(groups + [g]) == Content(groups) + Applied(g)
    ensures End(groups + [g]) == g.first + |g.ops|
  {
    assert (groups + [g])[..|groups|] == groups;
  }

  ghost predicate NoDuplicates(calls: seq<Call>) {
    forall i, j :: 0 <= i < j < |calls| ==> calls[i] != calls[j]
  }

  ghost predicate SyncOnlyUnderSync(requests: Requests, members: seq<Call>)
    requires Known(requests, members) && members != []
  {
    forall i :: 0 <= i < |members| && requests[members[i]].sync ==> requests[members[0]].sync
  }

  /** One committed group: its leader's batch is the members' batches in queue order. */
  ghost predicate GoodGroup(requests: Requests, log: seq<Bytes>, durable: set<nat>, g: Group) {
    && g.members != [] && Known(requests, g.members) && SyncOnlyUnderSync(requests, g.members)
    && (g.ops == GroupOps(requests, g.members) || (g.ops == [] && !g.ok && g.logged.None?))
    && (g.logged.Some? ==>
          g.logged.value < |log| && Represents(log[g.logged.value], g.ops) && Sequence(log[g.logged.value]) == g.first + 1)
    && (g.ok && requests[g.members[0]].batch.Some? ==>
          g.logged.Some? && (requests[g.members[0]].sync ==> g.logged.value in durable))
    && (requests[g.members[0]].batch.None? ==> |g.members| == 1)
  }

  /** Every call is in exactly one place: still queued, or in one committed group, and then answered. */
  ghost predicate Queue(s: State) {
    && s.arrivals == Members(s.groups) + s.writers && NoDuplicates(s.arrivals) && Known(s.requests, s.arrivals)
    && (forall c :: c in s.acked <==> c in Members(s.groups))
    && Answered(s.groups, s.acked)
  }

  /** Every member of a group got the group's status. */
  ghost predicate Answered(groups: seq<Group>, acked: map<Call, bool>) {
    forall i, m :: 0 <= i < |groups| && m in groups[i].members ==> m in acked && acked[m] == groups[i].ok
  }

  /** Sequence ranges follow each other without a gap, and log records follow the groups' order. */
  ghost predicate Chain(s: State) {
    && (forall i :: 0 <= i < |s.groups| ==> s.groups[i].first == End(s.groups[..i]))
    && s.lastSequence == End(s.groups)
    && (forall i, j :: 0 <= i < j < |s.groups| && s.groups[i].logged.Some? && s.groups[j].logged.Some? ==>
          s.groups[i].logged.value < s.groups[j].logged.value)
    && (forall i :: 0 <= i < |s.groups| ==> GoodGroup(s.requests, s.log, s.durable, s.groups[i]))
  }

  /** How much of the leader's batch is in the log and in the memtable. */
  ghost predicate Airborne(s: State, f: Flight) {
    && 1 <= f.size <= |s.writers| && Known(s.requests, s.writers[..f.size])
    && SyncOnlyUnderSync(s.requests, s.writers[..f.size])
    && s.requests[s.writers[0]].batch.Some?
    && var ops := GroupOps(s.requests, s.writers[..f.size]);
       && Represents(f.updates, ops) && Sequence(f.updates) == s.lastSequence + 1 && f.last == s.lastSequence + |ops|
       && (f.stage != ToLog && f.stage != Ended(false, false) ==>
             s.log != [] && s.log[|s.log| - 1] == f.updates && IsFresh(s.groups, |s.log| - 1))
       && (f.stage.Inserting? || f.stage == Ended(true, true) ==> s.requests[s.writers[0]].sync ==> |s.log| - 1 in s.durable)
       && (f.stage.ToSync? ==> s.requests[s.writers[0]].sync)
       && match f.stage
          case Inserting(rest, next) =>
            exists k :: 0 <= k <= |ops| && rest == Records(ops[k..]) && next == s.lastSequence + 1 + k
              && s.mem == Content(s.groups) + Numbered(s.lastSequence, ops[..k])
          case Ended(true, logged) => logged && s.mem == Content(s.groups) + Numbered(s.lastSequence, ops)
          case _ => s.mem == Content(s.groups)
  }

  ghost predicate IsFresh(groups: seq<Group>, record: nat) {
    forall i :: 0 <= i < |groups| && groups[i].logged.Some? ==> groups[i].logged.value < record
  }

  ghost predicate Valid(s: State) {
    && Queue(s) && Chain(s)
    && match s.flight
       case Some(f) => Airborne(s, f)
       case None => s.mem == Content(s.groups)
  }

  // ---- What validity means ----

  lemma {:induction false} MembersAt(groups: seq<Group>, i: nat, j: nat) returns (k: nat)
    requires i < |groups| && j < |groups[i].members|
    ensures k < |Members(groups)| && Members(groups)[k] == groups[i].members[j]
    ensures k == |Members(groups[..i])| + j
  {
    var n := |groups| - 1;
    if i == n {
      k := |Members(groups[..n])| + j;
    } else {
      k := MembersAt(groups[..n], i, j);
      assert groups[..n][..i] == groups[..i];
    }
  }

  lemma {:induction false} MembersGrow(groups: seq<Group>, i: nat, i': nat)
    requires i <= i' <= |groups|
    ensures |Members(groups[..i])| <= |Members(groups[..i'])|
    ensures i < i' ==> |Members(groups[..i])| + |groups[i].members| <= |Members(groups[..i'])|
  {
    if i < i' {
      MembersGrow(groups, i, i' - 1);
      assert groups[..i'][..i' - 1] == groups[..i' - 1];
    }
  }

  /** No call is committed twice, by two leaders or by one, and none that is committed still waits. */
  lemma OneLeader(s: State, i: nat, j: nat, i': nat, j': nat)
    requires Valid(s) && i < |s.groups| && j < |s.groups[i].members| && i' < |s.groups| && j' < |s.groups[i'].members|
    requires s.groups[i].members[j] == s.groups[i'].members[j']
    ensures i == i' && j == j' && s.groups[i].members[j] !in s.writers
  {
    var k := MembersAt(s.groups, i, j);
    var k' := MembersAt(s.groups, i', j');
    assert s.arrivals[k] == s.arrivals[k'];
    if i < i' { MembersGrow(s.groups, i, i'); }
    if i' < i { MembersGrow(s.groups, i', i); }
    CommittedNotQueued(s, i, s.groups[i].members[j]);
  }

  lemma {:induction false} PlaceOf(groups: seq<Group>, k: nat) returns (i: nat, j: nat)
    requires k < |Members(groups)|
    ensures i < |groups| && j < |groups[i].members| && groups[i].members[j] == Members(groups)[k]
    ensures k == |Members(groups[..i])| + j
  {
    var n := |groups| - 1;
    if k >= |Members(groups[..n])| {
      i, j := n, k - |Members(groups[..n])|;
    } else {
      i, j := PlaceOf(groups[..n], k);
      assert groups[..n][..i] == groups[..i];
    }
  }

  /** Commits happen in queue order: whoever came before a committed call was committed before it. */
  lemma QueueOrder(s: State, p: nat, q: nat) returns (i: nat, j: nat, i': nat, j': nat)
    requires Valid(s) && p < q < |s.arrivals| && s.arrivals[q] !in s.writers
    ensures s.arrivals[p] !in s.writers
    ensures i < |s.groups| && j < |s.groups[i].members| && s.groups[i].members[j] == s.arrivals[p]
    ensures i' < |s.groups| && j' < |s.groups[i'].members| && s.groups[i'].members[j'] == s.arrivals[q]
    ensures i < i' || (i == i' && j < j')
  {
    hide Chain, Airborne, Members, NoDuplicates;
    i, j, i', j' := Earlier(s.groups, s.writers, s.arrivals, p, q);
  }

  lemma Earlier(groups: seq<Group>, writers: seq<Call>, arrivals: seq<Call>, p: nat, q: nat) returns (i: nat, j: nat, i': nat, j': nat)
    requires arrivals == Members(groups) + writers && NoDuplicates(arrivals)
    requires p < q < |arrivals| && arrivals[q] !in writers
    ensures arrivals[p] !in writers
    ensures i < |groups| && j < |groups[i].members| && groups[i].members[j] == arrivals[p]
    ensures i' < |groups| && j' < |groups[i'].members| && groups[i'].members[j'] == arrivals[q]
    ensures i < i' || (i == i' && j < j')
  {
    hide Members;
    var n := |Members(groups)|;
    assert forall k :: 0 <= k < |writers| ==> writers[k] == arrivals[n + k];
    i, j := PlaceOf(groups, p);
    i', j' := PlaceOf(groups, q);
    if i' < i { MembersGrow(groups, i', i); }
  }

  /** A sync write that was told it succeeded was committed by a sync leader, and its log record is on disk. */
  lemma SyncIsHonoured(s: State, c: Call, i: nat)
    requires Valid(s) && i < |s.groups| && c in s.groups[i].members && s.requests[c].sync && s.requests[c].batch.Some?
    requires c in s.acked && s.acked[c]
    ensures var g := s.groups[i];
            && g.ok && s.requests[g.members[0]].sync
            && g.logged.Some? && g.logged.value in s.durable && g.logged.value < |s.log|
            && Represents(s.log[g.logged.value], GroupOps(s.requests, g.members))
  {
    hide Represents, Parse, GroupOps, Content, OpsOf, Airborne, Sequence;
    assert GoodGroup(s.requests, s.log, s.durable, s.groups[i]);
  }

  lemma {:induction false} EndsGrow(s: State, i: nat, j: nat)
    requires Chain(s) && i <= j <= |s.groups|
    ensures End(s.groups[..i]) <= End(s.groups[..j])
    ensures i < j ==> s.groups[i].first == End(s.groups[..i]) && End(s.groups[..i]) + |s.groups[i].ops| <= End(s.groups[..j])
  {
    hide GoodGroup;
    if i < j {
      EndsGrow(s, i, j - 1);
      assert s.groups[..j][..j - 1] == s.groups[..j - 1] && s.groups[..j][j - 1] == s.groups[j - 1];
    }
  }

  /** Sequence ranges of different groups never meet: a later group starts after an earlier one ends. */
  lemma RangesFollow(s: State, i: nat, j: nat)
    requires Valid(s) && i < j < |s.groups|
    ensures s.groups[i].first + |s.groups[i].ops| <= s.groups[j].first
    ensures s.groups[i + 1].first == s.groups[i].first + |s.groups[i].ops|
  {
    hide GoodGroup, Queue, Airborne;
    EndsGrow(s, i, j);
    assert s.groups[..i + 1][..i] == s.groups[..i];
  }

  /** What a reader at a snapshot sees of the memtable. */
  ghost function Visible(mem: seq<(nat, Op)>, snapshot: nat): seq<(nat, Op)> {
    if mem == [] then []
    else Visible(mem[..|mem| - 1], snapshot) + if mem[|mem| - 1].0 <= snapshot then [mem[|mem| - 1]] else []
  }

  lemma {:induction false} VisibleJoin(a: seq<(nat, Op)>, b: seq<(nat, Op)>, snapshot: nat)
    ensures Visible(a + b, snapshot) == Visible(a, snapshot) + Visible(b, snapshot)
  {
    if b == [] {
      assert a + b == a && Visible(a, snapshot) + [] == Visible(a, snapshot);
    } else {
      VisibleJoin(a, b[..|b| - 1], snapshot);
      assert (a + b)[..|a + b| - 1] == a + b[..|b| - 1];
    }
  }

  lemma {:induction false} AllVisible(a: seq<(nat, Op)>, snapshot: nat)
    requires forall i :: 0 <= i < |a| ==> a[i].0 <= snapshot
    ensures Visible(a, snapshot) == a
  {
    if a != [] {
      AllVisible(a[..|a| - 1], snapshot);
      assert a == a[..|a| - 1] + [a[|a| - 1]];
    }
  }

  lemma {:induction false} NoneVisible(a: seq<(nat, Op)>, snapshot: nat)
    requires forall i :: 0 <= i < |a| ==> a[i].0 > snapshot
    ensures Visible(a, snapshot) == []
  {
    if a != [] { NoneVisible(a[..|a| - 1], snapshot); }
  }

  lemma {:induction false} VisibleContent(s: State, j: nat, n: nat)
    requires Chain(s) && j <= |s.groups| && n <= |s.groups|
    ensures Visible(Content(s.groups[..n]), End(s.groups[..j])) == Content(s.groups[..if n < j then n else j])
  {
    hide Chain, Visible, Applied;
    var snapshot := End(s.groups[..j]);
    if n == 0 {
      NoneVisible([], snapshot);
    } else {
      VisibleContent(s, j, n - 1);
      var tail := Applied(s.groups[n - 1]);
      assert s.groups[..n][..n - 1] == s.groups[..n - 1];
      VisibleJoin(Content(s.groups[..n - 1]), tail, snapshot);
      EndsGrow(s, n - 1, n);
      if n <= j {
        EndsGrow(s, n, j);
        AllVisible(tail, snapshot);
      } else {
        EndsGrow(s, j, n - 1);
        NoneVisible(tail, snapshot);
        assert Content(s.groups[..j]) + [] == Content(s.groups[..j]);
      }
    }
  }

  /** The memtable: what the groups put there, then what the leader of the moment did so far. */
  lemma MemTable(s: State) returns (tail: seq<(nat, Op)>)
    requires Valid(s)
    ensures s.mem == Content(s.groups) + tail && Chain(s)
    ensures forall i :: 0 <= i < |tail| ==> tail[i].0 > s.lastSequence
  {
    hide Queue, Chain, Represents, Known, SyncOnlyUnderSync, GroupOps, Content;
    if s.flight.None? {
      tail := [];
    } else {
      var f := s.flight.value;
      var ops := GroupOps(s.requests, s.writers[..f.size]);
      match f.stage {
        case Inserting(rest, next) =>
          var k: nat :| k <= |ops| && rest == Records(ops[k..]) && next == s.lastSequence + 1 + k
            && s.mem == Content(s.groups) + Numbered(s.lastSequence, ops[..k]);
          tail := Numbered(s.lastSequence, ops[..k]);
        case Ended(true, _) =>
          tail := Numbered(s.lastSequence, ops);
        case _ =>
          tail := [];
      }
    }
  }

  /**
   A snapshot is the last sequence as it stood after some number of groups. Whatever was
   committed since, and however far the leader of the moment has come, a reader at the
   snapshot sees those groups whole and nothing else.
   */
  lemma SnapshotSeesWholeGroups(s: State, j: nat)
    requires Valid(s) && j <= |s.groups|
    ensures Visible(s.mem, End(s.groups[..j])) == Content(s.groups[..j])
  {
    var n := |s.groups|;
    var tail := MemTable(s);
    hide Valid, Visible, Content, GoodGroup;
    assert s.groups[..n] == s.groups;
    VisibleContent(s, j, n);
    EndsGrow(s, j, n);
    VisibleJoin(Content(s.groups), tail, End(s.groups[..j]));
    NoneVisible(tail, End(s.groups[..j]));
    assert Content(s.groups[..j]) + [] == Content(s.groups[..j]);
  }

  /** Each member's own operations are one stretch of its group's. */
  lemma {:induction false} MemberSlice(requests: Requests, members: seq<Call>, j: nat) returns (a: nat)
    requires Known(requests, members) && j < |members|
    ensures a + |OpsOf(requests[members[j]])| <= |GroupOps(requests, members)|
    ensures GroupOps(requests, members)[a..a + |OpsOf(requests[members[j]])|] == OpsOf(requests[members[j]])
  {
    hide OpsOf, WellFormed;
    var n := |members| - 1;
    if j == n {
      a := |GroupOps(requests, members[..n])|;
    } else {
      a := MemberSlice(requests, members[..n], j);
    }
  }

  /** An acknowledged write is in the memtable, whole and under consecutive sequence numbers of its own. */
  lemma AcknowledgedIsApplied(s: State, i: nat, j: nat) returns (a: nat)
    requires Valid(s) && i < |s.groups| && j < |s.groups[i].members| && s.groups[i].members[j] in s.requests
    requires s.groups[i].members[j] in s.acked && s.acked[s.groups[i].members[j]]
    ensures s.groups[i].first <= a && a + |OpsOf(s.requests[s.groups[i].members[j]])| <= s.groups[i].first + |s.groups[i].ops|
    ensures forall k :: 0 <= k < |OpsOf(s.requests[s.groups[i].members[j]])| ==>
              (a + 1 + k, OpsOf(s.requests[s.groups[i].members[j]])[k]) in s.mem
  {
    hide Valid, GroupOps, OpsOf;
    var g := s.groups[i];
    AckedGroup(s, i, j);
    var off := MemberSlice(s.requests, g.members, j);
    a := g.first + off;
    forall k | 0 <= k < |OpsOf(s.requests[g.members[j]])|
      ensures (a + 1 + k, OpsOf(s.requests[g.members[j]])[k]) in s.mem
    {
      SliceApplied(s, i, off, OpsOf(s.requests[g.members[j]]), k);
    }
  }

  lemma AckedGroup(s: State, i: nat, j: nat)
    requires Valid(s) && i < |s.groups| && j < |s.groups[i].members|
    requires s.groups[i].members[j] in s.acked && s.acked[s.groups[i].members[j]]
    ensures var g := s.groups[i]; g.ok && Known(s.requests, g.members) && g.ops == GroupOps(s.requests, g.members)
  {
    hide Airborne, Represents, WellFormed, GroupOps, NoDuplicates, SyncOnlyUnderSync;
    assert s.groups[i].members[j] in s.groups[i].members && GoodGroup(s.requests, s.log, s.durable, s.groups[i]);
  }

  lemma SliceApplied(s: State, i: nat, off: nat, ops: seq<Op>, k: nat)
    requires Valid(s) && i < |s.groups| && s.groups[i].ok && k < |ops|
    requires off + |ops| <= |s.groups[i].ops| && s.groups[i].ops[off..off + |ops|] == ops
    ensures (s.groups[i].first + off + 1 + k, ops[k]) in s.mem
  {
    hide Valid, Content, Chain;
    var g := s.groups[i];
    var _ := MemTable(s);
    assert g.ops[off..off + |ops|][k] == g.ops[off + k];
    assert Numbered(g.first, g.ops)[off + k] == (g.first + off + 1 + k, ops[k]);
    InContent(s.groups, i, (g.first + off + 1 + k, ops[k]));
  }

  lemma {:induction false} InContent(groups: seq<Group>, i: nat, x: (nat, Op))
    requires i < |groups| && groups[i].ok && x in Numbered(groups[i].first, groups[i].ops)
    ensures x in Content(groups)
  {
    var n := |groups| - 1;
    hide Numbered;
    if i < n { InContent(groups[..n], i, x); }
  }

  // ---- Each step keeps the state valid ----

  lemma {:induction false} GroupOpsKept(requests: Requests, requests': Requests, members: seq<Call>)
    requires Known(requests, members) && forall c :: c in requests ==> c in requests' && requests'[c] == requests[c]
    ensures Known(requests', members) && GroupOps(requests', members) == GroupOps(requests, members)
  {
    if members != [] { GroupOpsKept(requests, requests', members[..|members| - 1]); }
  }

  /** A committed group stays good when calls, log records and durable records are added. */
  lemma GoodGroupKept(s: State, s': State, g: Group)
    requires GoodGroup(s.requests, s.log, s.durable, g)
    requires forall c :: c in s.requests ==> c in s'.requests && s'.requests[c] == s.requests[c]
    requires s.log <= s'.log && s.durable <= s'.durable
    ensures GoodGroup(s'.requests, s'.log, s'.durable, g)
  {
    hide Represents, Sequence, WellFormed, GroupOps;
    GroupOpsKept(s.requests, s'.requests, g.members);
  }

  lemma ChainKept(s: State, s': State)
    requires Chain(s) && s'.groups == s.groups && s'.lastSequence == s.lastSequence
    requires forall c :: c in s.requests ==> c in s'.requests && s'.requests[c] == s.requests[c]
    requires s.log <= s'.log && s.durable <= s'.durable
    ensures Chain(s')
  {
    hide GoodGroup;
    forall i | 0 <= i < |s.groups|
      ensures GoodGroup(s'.requests, s'.log, s'.durable, s'.groups[i])
    {
      GoodGroupKept(s, s', s.groups[i]);
    }
  }

  lemma EnqueueKeeps(s: State, c: Call, r: Request, s': State)
    requires Valid(s) && c !in s.requests && WellFormed(r)
    requires s' == s.(requests := s.requests[c := r], writers := s.writers + [c], arrivals := s.arrivals + [c])
    ensures Valid(s')
  {
    hide Represents, Sequence, WellFormed, GroupOps, Chain, Airborne;
    ChainKept(s, s');
    assert Known(s'.requests, s'.arrivals);
    if s.flight.Some? { AirborneQueued(s, c, r, s.flight.value, s'); }
  }

  lemma AirborneQueued(s: State, c: Call, r: Request, f: Flight, s': State)
    requires Airborne(s, f) && c !in s.requests
    requires s' == s.(requests := s.requests[c := r], writers := s.writers + [c], arrivals := s.arrivals + [c])
    ensures Airborne(s', f)
  {
    hide Represents, Sequence, WellFormed, GroupOps, Content;
    assert s'.writers[..f.size] == s.writers[..f.size];
    GroupOpsKept(s.requests, s'.requests, s.writers[..f.size]);
    assert s.writers[..f.size][0] == s.writers[0];
  }

  /** The front `size` calls leave the queue as one group. */
  lemma QueuePops(s: State, size: nat, g: Group, s': State)
    requires Queue(s) && size <= |s.writers| && g.members == s.writers[..size]
    requires s' == s.(writers := s.writers[size..], acked := AckAll(s.acked, g.members, g.ok), groups := s.groups + [g],
                      lastSequence := s'.lastSequence, flight := None)
    ensures Queue(s')
  {
    hide AckAll, Members, NoDuplicates, Known, Answered;
    AppendGroup(s.groups, g);
    AckedAre(s.acked, g.members, g.ok);
    assert s.writers == g.members + s'.writers;
    assert s.arrivals == Members(s.groups) + g.members + s'.writers;
    AcksStay(s, g, s'.acked);
    AnsweredExtends(s.groups, g, s'.acked);
  }

  lemma AnsweredExtends(groups: seq<Group>, g: Group, acked: map<Call, bool>)
    requires Answered(groups, acked) && forall m :: m in g.members ==> m in acked && acked[m] == g.ok
    ensures Answered(groups + [g], acked)
  {
    var groups' := groups + [g];
    forall i, m | 0 <= i < |groups'| && m in groups'[i].members
      ensures m in acked && acked[m] == groups'[i].ok
    {
      assert i < |groups| ==> groups'[i] == groups[i];
    }
  }

  lemma AckedAre(acked: map<Call, bool>, members: seq<Call>, ok: bool)
    ensures forall c :: c in AckAll(acked, members, ok) <==> c in acked || c in members
    ensures forall c :: c in members ==> AckAll(acked, members, ok)[c] == ok
  {
  }

  lemma AcksStay(s: State, g: Group, acked: map<Call, bool>)
    requires Queue(s) && acked == AckAll(s.acked, g.members, g.ok) && |g.members| <= |s.writers| && g.members == s.writers[..|g.members|]
    ensures Answered(s.groups, acked)
  {
    hide WellFormed, Known, NoDuplicates;
    forall i, m | 0 <= i < |s.groups| && m in s.groups[i].members
      ensures m in acked && acked[m] == s.groups[i].ok
    {
      CommittedNotQueued(s, i, m);
      assert m !in g.members;
    }
  }

  lemma CommittedNotQueued(s: State, i: nat, m: Call)
    requires Queue(s) && i < |s.groups| && m in s.groups[i].members
    ensures m !in s.writers
  {
    var j: nat :| j < |s.groups[i].members| && s.groups[i].members[j] == m;
    var k := MembersAt(s.groups, i, j);
    forall q | 0 <= q < |s.writers|
      ensures s.writers[q] != m
    {
      assert s.arrivals[|Members(s.groups)| + q] == s.writers[q] && s.arrivals[k] == m;
    }
  }

  function AckAll(acked: map<Call, bool>, members: seq<Call>, ok: bool): map<Call, bool> {
    acked + map m | m in members :: ok
  }

  lemma ChainExtends(s: State, g: Group, s': State)
    requires Chain(s) && s' == s.(writers := s'.writers, acked := s'.acked, groups := s.groups + [g],
                                  lastSequence := s.lastSequence + |g.ops|, flight := None)
    requires g.first == s.lastSequence && GoodGroup(s.requests, s.log, s.durable, g)
    requires g.logged.Some? ==> IsFresh(s.groups, g.logged.value)
    ensures Chain(s')
  {
    hide GoodGroup;
    AppendGroup(s.groups, g);
    forall i | 0 <= i < |s'.groups|
      ensures s'.groups[i].first == End(s'.groups[..i]) && GoodGroup(s'.requests, s'.log, s'.durable, s'.groups[i])
    {
      if i < |s.groups| {
        assert s'.groups[..i] == s.groups[..i];
      } else {
        assert s'.groups[..i] == s.groups;
      }
    }
  }

  lemma AloneIsGood(s: State, c: Call, ok: bool)
    requires c in s.requests && Known(s.requests, [c]) && (ok ==> s.requests[c].batch.None?)
    ensures GoodGroup(s.requests, s.log, s.durable, Group([c], s.lastSequence, [], None, ok))
  {
    hide Represents, Sequence, WellFormed, Parse;
    Single(s.requests, [c]);
    assert [c][..1] == [c];
  }

  /** The leader commits nobody but itself, without a batch: refused, or nothing to write. */
  lemma AloneKeeps(s: State, ok: bool, s': State)
    requires Valid(s) && s.flight.None? && s.writers != []
    requires s.writers[0] in s.requests && (ok ==> s.requests[s.writers[0]].batch.None?)
    requires s' == s.(writers := s.writers[1..], acked := AckAll(s.acked, s.writers[..1], ok),
                      groups := s.groups + [Group(s.writers[..1], s.lastSequence, [], None, ok)])
    ensures Valid(s')
  {
    hide Content, Chain, AckAll, Queue, GoodGroup, Airborne;
    var g := Group(s.writers[..1], s.lastSequence, [], None, ok);
    QueuePops(s, 1, g, s');
    FrontIsKnown(s);
    AloneIsGood(s, s.writers[0], ok);
    ChainExtends(s, g, s');
    AppendGroup(s.groups, g);
    assert Content(s.groups) + [] == Content(s.groups);
  }

  /** What BuildBatchGroup guarantees starts a flight. */
  lemma TakeOffKeeps(s: State, f: Flight, s': State)
    requires Valid(s) && s.flight.None? && 1 <= f.size <= |s.writers| && f.stage == ToLog
    requires Known(s.requests, s.writers) && s.requests[s.writers[0]].batch.Some?
    requires forall k :: 0 < k < f.size ==> s.requests[s.writers[k]].sync ==> s.requests[s.writers[0]].sync
    requires Represents(f.updates, GroupOps(s.requests, s.writers[..f.size])) && Sequence(f.updates) == s.lastSequence + 1
    requires f.last == s.lastSequence + |GroupOps(s.requests, s.writers[..f.size])|
    requires s' == s.(flight := Some(f))
    ensures Valid(s')
  {
    hide Represents, Sequence, Content, GroupOps, WellFormed, GoodGroup;
    var members := s.writers[..f.size];
    forall i | 0 <= i < f.size && s.requests[members[i]].sync
      ensures s.requests[members[0]].sync
    {
      assert members[i] == s.writers[i];
    }
  }

  lemma LogKeeps(s: State, f: Flight, ok: bool, s': State)
    requires Valid(s) && s.flight == Some(f) && f.stage == ToLog && s.writers != [] && s.writers[0] in s.requests
    requires s' == s.(log := if ok then s.log + [f.updates] else s.log,
                      flight := Some(f.(stage := AfterLog(f.updates, ok, s.requests[s.writers[0]].sync))))
    ensures Valid(s')
  {
    hide Represents, Sequence, Content, GroupOps, WellFormed, GoodGroup, Numbered, Parse, Records;
    ChainKept(s, s');
    RestOf(f.updates, GroupOps(s.requests, s.writers[..f.size]));
    FreshAtEnd(s);
    Nothing(s, GroupOps(s.requests, s.writers[..f.size]));
  }

  /** A batch header's sequence number and the operations not yet inserted. */
  lemma RestOf(updates: Bytes, ops: seq<Op>)
    requires Represents(updates, ops)
    ensures |updates| >= HEADER && updates[HEADER..] == Records(ops[0..])
  {
    assert ops[0..] == ops;
  }

  lemma Nothing(s: State, ops: seq<Op>)
    ensures Content(s.groups) == Content(s.groups) + Numbered(s.lastSequence, ops[..0])
  {
    assert Numbered(s.lastSequence, ops[..0]) == [];
  }

  lemma FreshAtEnd(s: State)
    requires Chain(s)
    ensures IsFresh(s.groups, |s.log|)
  {
    hide Represents, Sequence, GroupOps, WellFormed;
    forall i | 0 <= i < |s.groups| && s.groups[i].logged.Some?
      ensures s.groups[i].logged.value < |s.log|
    {
      assert GoodGroup(s.requests, s.log, s.durable, s.groups[i]);
    }
  }

  /** Where the leader goes on after AddRecord, and after Sync. */
  function AfterLog(updates: Bytes, ok: bool, sync: bool): Stage
    requires |updates| >= HEADER
  {
    if !ok then Ended(false, false) else if sync then ToSync else Inserting(updates[HEADER..], Sequence(updates))
  }

  lemma SyncKeeps(s: State, f: Flight, ok: bool, s': State)
    requires Valid(s) && s.flight == Some(f) && f.stage == ToSync && |f.updates| >= HEADER && s.log != []
    requires s' == s.(durable := if ok then s.durable + {|s.log| - 1} else s.durable,
                      flight := Some(f.(stage := if ok then Inserting(f.updates[HEADER..], Sequence(f.updates)) else Ended(false, true))))
    ensures Valid(s')
  {
    hide Represents, Sequence, Content, GroupOps, WellFormed, GoodGroup, Numbered, Parse, Records;
    ChainKept(s, s');
    RestOf(f.updates, GroupOps(s.requests, s.writers[..f.size]));
    Nothing(s, GroupOps(s.requests, s.writers[..f.size]));
  }

  lemma SameQueue(s: State, s': State)
    requires Queue(s) && Chain(s) && s' == s.(mem := s'.mem, flight := s'.flight)
    ensures Queue(s') && Chain(s')
  {
    hide GoodGroup, Known, NoDuplicates;
  }

  /** The rest of a well-formed batch parses, record by record, into the rest of its operations. */
  lemma NextOfRest(s: State, f: Flight, rest: Bytes, next: nat) returns (k: nat)
    requires Airborne(s, f) && f.stage == Inserting(rest, next)
    ensures Known(s.requests, s.writers[..f.size])
    ensures var ops := GroupOps(s.requests, s.writers[..f.size]);
            && k <= |ops| && rest == Records(ops[k..]) && next == s.lastSequence + 1 + k
            && s.mem == Content(s.groups) + Numbered(s.lastSequence, ops[..k])
            && (rest == [] <==> k == |ops|)
            && (rest != [] ==> NextRecord(rest) == Some((ops[k], Records(ops[k + 1..]))))
  {
    hide Record, NextRecord, Content, GroupOps, Parse, Sequence, CountOf, Numbered;
    var ops := GroupOps(s.requests, s.writers[..f.size]);
    k :| 0 <= k <= |ops| && rest == Records(ops[k..]) && next == s.lastSequence + 1 + k
      && s.mem == Content(s.groups) + Numbered(s.lastSequence, ops[..k]);
    if k < |ops| {
      assert ops[k..][1..] == ops[k + 1..];
      NextOfRecord(ops[k], Records(ops[k + 1..]));
    }
  }

  lemma InsertKeeps(s: State, f: Flight, rest: Bytes, next: nat, op: Op, rest': Bytes, s': State)
    requires Valid(s) && s.flight == Some(f) && f.stage == Inserting(rest, next) && rest != []
    requires NextRecord(rest) == Some((op, rest'))
    requires s' == s.(mem := s.mem + [(next, op)], flight := Some(f.(stage := Inserting(rest', next + 1))))
    ensures Valid(s')
  {
    hide Represents, Sequence, Content, GroupOps, WellFormed, GoodGroup, Parse, Records, NextRecord, Chain, Queue;
    SameQueue(s, s');
    var k := NextOfRest(s, f, rest, next);
    var ops := GroupOps(s.requests, s.writers[..f.size]);
    assert Numbered(s.lastSequence, ops[..k]) + [(next, op)] == Numbered(s.lastSequence, ops[..k + 1]);
    assert s'.mem == Content(s.groups) + Numbered(s.lastSequence, ops[..k + 1]);
    assert rest' == Records(ops[k + 1..]) && next + 1 == s'.lastSequence + 1 + (k + 1);
  }

  lemma InsertedKeeps(s: State, f: Flight, next: nat, s': State)
    requires Valid(s) && s.flight == Some(f) && f.stage == Inserting([], next)
    requires s' == s.(flight := Some(f.(stage := Ended(true, true))))
    ensures Valid(s')
  {
    hide Represents, Sequence, Content, GroupOps, WellFormed, GoodGroup, Parse, Records, NextRecord, Chain, Queue;
    SameQueue(s, s');
    var k := NextOfRest(s, f, [], next);
    var ops := GroupOps(s.requests, s.writers[..f.size]);
    assert ops[..k] == ops;
  }

  lemma LandKeeps(s: State, f: Flight, ok: bool, logged: bool, g: Group, s': State)
    requires Valid(s) && s.flight == Some(f) && f.stage == Ended(ok, logged) && f.size <= |s.writers|
    requires Known(s.requests, s.writers[..f.size]) && (logged ==> s.log != [])
    requires g == Group(s.writers[..f.size], s.lastSequence, GroupOps(s.requests, s.writers[..f.size]),
                        if logged then Some(|s.log| - 1) else None, ok)
    requires s' == s.(writers := s.writers[f.size..], acked := AckAll(s.acked, g.members, ok), groups := s.groups + [g],
                      lastSequence := f.last, flight := None)
    ensures Valid(s')
  {
    hide Represents, Sequence, Content, GroupOps, WellFormed, Chain, AckAll, NoDuplicates, Known;
    QueuePops(s, f.size, g, s');
    assert g.members[0] == s.writers[0];
    ChainExtends(s, g, s');
    AppendGroup(s.groups, g);
    assert Content(s.groups) + [] == Content(s.groups);
  }

  lemma FrontIsKnown(s: State)
    requires Valid(s) && s.writers != []
    ensures Known(s.requests, s.writers) && |s.writers[..1]| == 1 && s.writers[..1] == [s.writers[0]]
  {
    hide WellFormed, Airborne, Chain;
    forall i | 0 <= i < |s.writers|
      ensures s.writers[i] in s.requests && WellFormed(s.requests[s.writers[i]])
    {
      assert s.arrivals[|Members(s.groups)| + i] == s.writers[i];
    }
  }

  lemma CountIs(rep: Bytes, ops: seq<Op>)
    requires Represents(rep, ops)
    ensures |rep| >= HEADER && CountOf(rep) == |ops| <= MAX_COUNT
  {
  }

  /** What the leader's thread can rely on. */
  lemma InFlight(s: State, f: Flight)
    requires Valid(s) && s.flight == Some(f)
    ensures s.writers != [] && s.writers[0] in s.requests && 1 <= f.size <= |s.writers|
    ensures Known(s.requests, s.writers[..f.size]) && Represents(f.updates, GroupOps(s.requests, s.writers[..f.size]))
    ensures |f.updates| >= HEADER && f.last == s.lastSequence + CountOf(f.updates)
    ensures CountOf(f.updates) == |GroupOps(s.requests, s.writers[..f.size])|
    ensures f.stage != ToLog && f.stage != Ended(false, false) ==> s.log != []
    ensures f.stage.Ended? && f.stage.ok ==> f.stage.logged
  {
    hide Parse, Records, WellFormed, Chain, Content, Numbered;
    assert s.writers[..f.size][0] == s.writers[0];
  }

  lemma NothingYet(s: State)
    requires s.writers == [] && s.groups == [] && s.arrivals == [] && s.acked == map[] && s.mem == []
    requires s.flight == None && s.lastSequence == 0
    ensures Valid(s)
  {
    hide GoodGroup, WellFormed, Airborne;
  }

  class Database {
    var requests: Requests
    var writers: seq<Call>
    var acked: map<Call, bool>
    var lastSequence: nat
    var log: seq<Bytes>
    var mem: seq<(nat, Op)>
    /** bg_error_: every later write is refused. */
    var broken: bool
    var flight: Option<Flight>
    /** The log records known to be on disk. */
    ghost var durable: set<nat>
    ghost var groups: seq<Group>
    ghost var arrivals: seq<Call>

    ghost function S(): State
      reads this
    {
      State(requests, writers, acked, lastSequence, log, durable, mem, flight, groups, arrivals)
    }

    /**
     The log failed to sync, and from group `n` on nothing was committed. While this holds no leader
     can take off, so the steps that keep it are the arrival of a writer and a leader's turn.
     */
    ghost predicate Halted(n: nat)
      reads this
    {
      broken && flight.None? && n <= |groups| && forall i :: n <= i < |groups| ==> !groups[i].ok
    }

    constructor ()
      ensures Valid(S()) && arrivals == [] && !broken
    {
      requests, writers, acked, lastSequence, log, mem, broken, flight := map[], [], map[], 0, [], [], false, None;
      durable, groups, arrivals := {}, [], [];
      new;
      NothingYet(S());
    }

    /** Write, up to its wait. */
    method Enqueue(c: Call, r: Request)
      requires Valid(S()) && c !in requests && WellFormed(r)
      modifies this
      ensures Valid(S()) && arrivals == old(arrivals) + [c] && writers == old(writers) + [c]
      ensures S() == old(S()).(requests := old(requests)[c := r], writers := writers, arrivals := arrivals) && broken == old(broken)
      ensures forall n: nat :: old(Halted(n)) ==> Halted(n)
    {
      hide Valid;
      ghost var s := S();
      requests := requests[c := r];
      writers := writers + [c];
      arrivals := arrivals + [c];
      EnqueueKeeps(s, c, r, S());
    }

    /**
     The writer at the front goes on, once MakeRoomForWrite returned; `room` is its status.
     A leader that has nothing to write, or may not, commits itself alone at once.
     */
    method Lead(room: bool)
      requires Valid(S()) && writers != [] && flight.None? && lastSequence + MAX_COUNT < MAX_SEQUENCE
      modifies this
      ensures Valid(S()) && mem == old(mem) && log == old(log) && lastSequence == old(lastSequence) && arrivals == old(arrivals)
      ensures requests == old(requests) && Known(requests, old(writers)) && broken == old(broken)
      ensures flight.Some? <==> room && !broken && requests[old(writers)[0]].batch.Some?
      ensures flight.Some? ==> writers == old(writers) && groups == old(groups) && 1 <= flight.value.size <= |writers|
      ensures flight.Some? ==>
                var size, b := flight.value.size, |requests[writers[0]].batch.value|;
                var max := if b <= 131072 then b + 131072 else 1048576;
                && (forall k :: 0 < k < size ==>
                      && (requests[writers[k]].sync ==> requests[writers[0]].sync)
                      && (requests[writers[k]].batch.Some? ==> |Joined(requests, writers[..k + 1])| <= max))
                && (size < |writers| ==>
                      || (requests[writers[size]].sync && !requests[writers[0]].sync)
                      || (requests[writers[size]].batch.Some? && |Joined(requests, writers[..size + 1])| > max))
      ensures flight.None? ==> writers == old(writers)[1..]
      ensures flight.None? ==> groups == old(groups) + [Group([old(writers)[0]], lastSequence, [], None, room && !broken)]
      ensures S() == old(S()).(writers := writers, acked := acked, flight := flight, groups := groups)
      ensures forall n: nat :: old(Halted(n)) ==> Halted(n)
    {
      hide Valid, Represents, GroupOps, Joined, WellFormed, Sequence, CountOf, Parse;
      ghost var s := S();
      FrontIsKnown(s);
      var leader := writers[0];
      var status := room && !broken;
      if status && requests[leader].batch.Some? {
        var size, updates := BuildBatchGroup(requests, writers);
        ghost var ops := GroupOps(requests, writers[..size]);
        var batch := new WriteBatch();
        batch.rep := updates;
        batch.SetSequence(lastSequence + 1, ops);
        CountIs(batch.rep, ops);
        flight := Some(Flight(size, batch.rep, lastSequence + CountOf(batch.rep), ToLog));
        TakeOffKeeps(s, flight.value, S());
      } else {
        acked := AckAll(acked, [leader], status);
        groups := groups + [Group(writers[..1], lastSequence, [], None, status)];
        assert writers[..1] == [leader];
        writers := writers[1..];
        AloneKeeps(s, status, S());
      }
    }

    /** AddRecord, with the mutex released. */
    method AppendRecord(ok: bool)
      requires Valid(S()) && flight.Some? && flight.value.stage == ToLog
      modifies this
      ensures Valid(S()) && mem == old(mem) && groups == old(groups) && writers == old(writers) && lastSequence == old(lastSequence)
      ensures log == if ok then old(log) + [old(flight.value.updates)] else old(log)
      ensures flight.Some? && flight.value == old(flight.value).(stage := flight.value.stage)
      ensures !ok ==> flight.value.stage == Ended(false, false)
      ensures S() == old(S()).(log := log, flight := flight) && broken == old(broken)
      ensures writers != [] && writers[0] in requests
      ensures ok ==> if requests[writers[0]].sync then flight.value.stage == ToSync else flight.value.stage.Inserting?
    {
      hide Valid, Represents, GroupOps;
      ghost var s := S();
      var f := flight.value;
      InFlight(s, f);
      if ok {
        log := log + [f.updates];
      }
      flight := Some(f.(stage := AfterLog(f.updates, ok, requests[writers[0]].sync)));
      LogKeeps(s, f, ok, S());
    }

    /** Sync, for a leader that asked for it. */
    method SyncLog(ok: bool)
      requires Valid(S()) && flight.Some? && flight.value.stage == ToSync
      modifies this
      ensures Valid(S()) && mem == old(mem) && groups == old(groups) && writers == old(writers) && lastSequence == old(lastSequence)
      ensures log == old(log) && log != [] && durable == if ok then old(durable) + {|log| - 1} else old(durable)
      ensures flight.Some? && flight.value == old(flight.value).(stage := flight.value.stage)
      ensures if ok then flight.value.stage.Inserting? else flight.value.stage == Ended(false, true)
      ensures S() == old(S()).(durable := durable, flight := flight) && broken == old(broken)
    {
      hide Valid, Represents, GroupOps;
      ghost var s := S();
      var f := flight.value;
      InFlight(s, f);
      if ok {
        durable := durable + {|log| - 1};
        flight := Some(f.(stage := Inserting(f.updates[HEADER..], Sequence(f.updates))));
      } else {
        flight := Some(f.(stage := Ended(false, true)));
      }
      SyncKeeps(s, f, ok, S());
    }

    /** One round of InsertInto, or its end; a well-formed batch gives it nothing to complain about. */
    method InsertNext()
      requires Valid(S()) && flight.Some? && flight.value.stage.Inserting?
      modifies this
      ensures Valid(S()) && groups == old(groups) && writers == old(writers) && lastSequence == old(lastSequence) && log == old(log)
      ensures flight.Some? && flight.value == old(flight.value).(stage := flight.value.stage)
      ensures if old(flight.value.stage.rest) == [] then mem == old(mem) && flight.value.stage == Ended(true, true)
              else
                && NextRecord(old(flight.value.stage.rest)).Some?
                && var record := NextRecord(old(flight.value.stage.rest)).value;
                   && mem == old(mem) + [(old(flight.value.stage.next), record.0)]
                   && flight.value.stage == Inserting(record.1, old(flight.value.stage.next) + 1)
      ensures S() == old(S()).(mem := mem, flight := flight) && broken == old(broken)
    {
      hide Represents, Sequence, Content, GroupOps, WellFormed, GoodGroup, Parse, Records, NextRecord, Queue, Chain;
      ghost var s := S();
      var f := flight.value;
      var rest, next := f.stage.rest, f.stage.next;
      ghost var _ := NextOfRest(s, f, rest, next);
      if rest == [] {
        flight := Some(f.(stage := Ended(true, true)));
        InsertedKeeps(s, f, next, S());
      } else {
        var record := NextRecord(rest);
        mem := mem + [(next, record.value.0)];
        flight := Some(f.(stage := Inserting(record.value.1, next + 1)));
        InsertKeeps(s, f, rest, next, record.value.0, record.value.1, S());
      }
    }

    /** The final loop of Write: pop and answer the writers up to the group's last. */
    method Answer(size: nat, ok: bool)
      requires 1 <= size <= |writers| && NoDuplicates(writers)
      modifies `writers, `acked
      ensures writers == old(writers)[size..] && acked == AckAll(old(acked), old(writers)[..size], ok)
    {
      hide AckAll;
      var lastWriter := writers[size - 1];
      var k: nat := 0;
      assert AckAll(old(acked), old(writers)[..0], ok) == acked by { AckNone(old(acked), ok); }
      while true
        invariant k < size && writers == old(writers)[k..] && acked == AckAll(old(acked), old(writers)[..k], ok)
        decreases size - k
      {
        var ready := writers[0];
        writers := writers[1..];
        acked := acked[ready := ok];
        AckOneMore(old(acked), old(writers), k, ok);
        if ready == lastWriter {
          break;
        }
        k := k + 1;
      }
    }

    /** Back under the mutex: publish the last sequence, whatever the status, and answer the whole group. */
    method Land()
      requires Valid(S()) && flight.Some? && flight.value.stage.Ended?
      modifies this
      ensures Valid(S()) && flight.None? && mem == old(mem) && log == old(log)
      ensures old(flight.value.size) <= old(|writers|) && writers == old(writers)[old(flight.value.size)..]
      ensures lastSequence == old(flight.value.last)
      ensures |groups| == old(|groups|) + 1 && groups[..|groups| - 1] == old(groups)
      ensures groups[|groups| - 1].members == old(writers)[..old(flight.value.size)] && groups[|groups| - 1].ok == old(flight.value.stage.ok)
      ensures acked == AckAll(old(acked), groups[|groups| - 1].members, old(flight.value.stage.ok))
      ensures S() == old(S()).(writers := writers, acked := acked, lastSequence := lastSequence, flight := None, groups := groups)
      ensures broken == (old(broken) || old(flight.value.stage) == Ended(false, true))
      ensures old(flight.value.stage) == Ended(false, true) ==> Halted(old(|groups|))
    {
      hide Valid, Represents, GroupOps, WellFormed;
      ghost var s := S();
      var f := flight.value;
      var ok, logged := f.stage.ok, f.stage.logged;
      InFlight(s, f);
      if !ok && logged {
        broken := true;
      }
      lastSequence := f.last;
      ghost var members := writers[..f.size];
      QueueDistinct(s);
      Answer(f.size, ok);
      ghost var g := Group(members, s.lastSequence, GroupOps(requests, members), if logged then Some(|log| - 1) else None, ok);
      groups := groups + [g];
      flight := None;
      LandKeeps(s, f, ok, logged, g, S());
    }
  }

  lemma QueueDistinct(s: State)
    requires Valid(s)
    ensures NoDuplicates(s.writers)
  {
    hide Airborne, Chain, Known;
    forall i, j | 0 <= i < j < |s.writers|
      ensures s.writers[i] != s.writers[j]
    {
      assert s.arrivals[|Members(s.groups)| + i] == s.writers[i] && s.arrivals[|Members(s.groups)| + j] == s.writers[j];
    }
  }

  lemma AckNone(acked: map<Call, bool>, ok: bool)
    ensures AckAll(acked, [], ok) == acked
  {
  }

  lemma AckOneMore(acked: map<Call, bool>, members: seq<Call>, k: nat, ok: bool)
    requires k < |members|
    ensures AckAll(acked, members[..k + 1], ok) == AckAll(acked, members[..k], ok)[members[k] := ok]
  {
    assert members[..k + 1] == members[..k] + [members[k]];
  }
}
