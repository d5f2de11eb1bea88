/**
 libuv's thread pool (src/threadpool.c): two work queues and their counters under one mutex,
 the loop's queue of finished work under another, a condition variable for idle workers.

 Every method of `ThreadPool` is one critical section or one unlocked action of one thread;
 a run is any interleaving of them.
 */
module ThreadPool {

  /** One submission of a request. */
  type Request = nat

  datatype Item = Job(request: Request) | RunSlow

  /** The `work` pointer: the caller's function, NULL, or uv__cancelled. */
  datatype Work = Pending | Null | Cancelled

  datatype Status = Success | ECanceled

  datatype Callback = Callback(request: Request, status: Status)

  /** Where a worker thread is. `Waiting(false)` is asleep in uv_cond_wait, `Waiting(true)` was woken. */
  datatype Worker =
    | Waiting(signaled: bool)
    | Ready
    | Working(request: Request, slow: bool)
    | Worked(request: Request, slow: bool)
    | Posted(slow: bool)

  /** The requests in the main queue, in order. */
  function Jobs(wq: seq<Item>): seq<Request> {
    if wq == [] then [] else (if wq[0].Job? then [wq[0].request] else []) + Jobs(wq[1..])
  }

  /** What the head of the queue has to do with them. */
  lemma JobsHead(wq: seq<Item>)
    requires wq != []
    ensures wq[0].Job? ==> Jobs(wq) == [wq[0].request] + Jobs(wq[1..])
    ensures wq[0] == RunSlow ==> Jobs(wq[1..]) == Jobs(wq) && Jobs(wq[1..] + [RunSlow]) == Jobs(wq) && Jobs(wq[1..] + []) == Jobs(wq)
  {
    JobsLonger(wq[1..]);
    assert wq[1..] + [] == wq[1..];
  }

  lemma {:induction false} JobsLonger(wq: seq<Item>)
    ensures Jobs(wq + [RunSlow]) == Jobs(wq)
  {
    if wq == [] {
      assert wq + [RunSlow] == [RunSlow] && [RunSlow][1..] == [];
    } else {
      JobsLonger(wq[1..]);
      assert (wq + [RunSlow])[1..] == wq[1..] + [RunSlow];
    }
  }

  predicate IsWaiting(w: Worker) { w.Waiting? }

  /** About to look at the main queue. */
  predicate IsLooking(w: Worker) { w == Ready || w == Waiting(true) }

  predicate IsSlow(w: Worker) { (w.Working? || w.Worked? || w.Posted?) && w.slow }

  function Count(ws: seq<Worker>, f: Worker -> bool): nat {
    if ws == [] then 0 else (if f(ws[0]) then 1 else 0) + Count(ws[1..], f)
  }

  lemma {:induction false} CountUpdate(ws: seq<Worker>, f: Worker -> bool, i: nat, w: Worker)
    requires i < |ws|
    ensures Count(ws[i := w], f) == Count(ws, f) - (if f(ws[i]) then 1 else 0) + if f(w) then 1 else 0
  {
    if i == 0 {
      assert ws[i := w][1..] == ws[1..];
    } else {
      CountUpdate(ws[1..], f, i - 1, w);
      assert ws[i := w][1..] == ws[1..][i - 1 := w];
    }
  }

  lemma {:induction false} CountNone(ws: seq<Worker>, f: Worker -> bool)
    ensures Count(ws, f) == 0 <==> forall i :: 0 <= i < |ws| ==> !f(ws[i])
  {
    if ws != [] {
      CountNone(ws[1..], f);
      assert forall i :: 0 <= i < |ws| - 1 ==> ws[1..][i] == ws[i + 1];
      assert forall i :: 0 < i < |ws| ==> ws[i] == ws[1..][i - 1];
    }
  }

  function Without<T(==)>(q: seq<T>, x: T): (r: seq<T>) {
    if q == [] then [] else if q[0] == x then q[1..] else [q[0]] + Without(q[1..], x)
  }

  lemma {:induction false} WithoutCounts<T>(q: seq<T>, x: T)
    ensures multiset(Without(q, x)) == multiset(q) - multiset{x}
  {
    if q != [] {
      assert q == [q[0]] + q[1..];
      if q[0] != x { WithoutCounts(q[1..], x); }
    }
  }

  /** Taking the head off a queue. */
  lemma HeadCounts<T>(q: seq<T>)
    requires q != []
    ensures multiset(q) == multiset{q[0]} + multiset(q[1..])
  {
    assert q == [q[0]] + q[1..];
  }

  /** The whole shared state. `empty` holds the requests whose queue link points to itself (QUEUE_EMPTY). */
  datatype State = State(
    wq: seq<Item>, slowPending: seq<Request>, slowRunning: nat, idle: nat, workers: seq<Worker>,
    work: map<Request, Work>, empty: set<Request>,
    cancelling: seq<Request>, loopQueue: seq<Request>, batch: seq<Request>,
    called: seq<Callback>, ran: seq<Request>, submitted: set<Request>)

  function Threshold(workers: seq<Worker>): nat { (|workers| + 1) / 2 }

  /** At most half of the threads run slow work, and the counters say what they should. */
  ghost predicate Limits(s: State) {
    && s.workers != []
    && s.slowRunning == Count(s.workers, IsSlow) <= Threshold(s.workers)
    && s.idle == Count(s.workers, IsWaiting)
  }

  /** Pending slow work is announced in the main queue, once. */
  ghost predicate Announced(s: State) {
    && (s.slowPending != [] ==> RunSlow in s.wq)
    && multiset(s.wq)[RunSlow] <= 1
  }

  /** How many workers hold a request. */
  ghost function HeldBefore(ws: seq<Worker>, r: Request): nat {
    multiset(ws)[Working(r, true)] + multiset(ws)[Working(r, false)]
  }

  ghost function HeldAfter(ws: seq<Worker>, r: Request): nat {
    multiset(ws)[Worked(r, true)] + multiset(ws)[Worked(r, false)]
  }

  ghost function Queued(wq: seq<Item>, slowPending: seq<Request>, r: Request): nat {
    multiset(wq)[Job(r)] + multiset(slowPending)[r]
  }

  ghost function Finished(loopQueue: seq<Request>, batch: seq<Request>, r: Request): nat {
    multiset(loopQueue)[r] + multiset(batch)[r]
  }

  ghost function Called(called: seq<Callback>, r: Request): nat {
    multiset(called)[Callback(r, Success)] + multiset(called)[Callback(r, ECanceled)]
  }

  /** In how many places a request is. */
  ghost function Places(s: State, r: Request): nat {
    Queued(s.wq, s.slowPending, r) + HeldBefore(s.workers, r) + HeldAfter(s.workers, r) + multiset(s.cancelling)[r] + Finished(s.loopQueue, s.batch, r) + Called(s.called, r)
  }

  /** What is known of a request in each place. */
  ghost predicate Consistent(s: State, r: Request) {
    && Places(s, r) == (if r in s.submitted then 1 else 0)
    && multiset(s.ran)[r] == (if r in s.work && Ran(s, r) then 1 else 0)
    && (r in s.submitted <==> r in s.work)
    && (r in s.empty <==> HeldBefore(s.workers, r) + HeldAfter(s.workers, r) > 0)
    && (Queued(s.wq, s.slowPending, r) + HeldBefore(s.workers, r) + HeldAfter(s.workers, r) > 0 ==> r in s.work && s.work[r] == Pending)
    && (multiset(s.cancelling)[r] > 0 ==> r in s.work && s.work[r] != Null)
    && (Finished(s.loopQueue, s.batch, r) > 0 ==> r in s.work && s.work[r] != Pending)
    && (multiset(s.called)[Callback(r, Success)] > 0 ==> r in s.work && s.work[r] == Null)
    && (multiset(s.called)[Callback(r, ECanceled)] > 0 ==> r in s.work && s.work[r] == Cancelled)
  }

  ghost predicate Ran(s: State, r: Request)
    requires r in s.work
  {
    s.work[r] == Null || HeldAfter(s.workers, r) > 0
  }

  /** Something a worker could start on right now. */
  predicate Runnable(wq: seq<Item>, slowRunning: nat, workers: seq<Worker>) {
    wq != [] && !(wq == [RunSlow] && slowRunning >= Threshold(workers))
  }

  /** How many entries of the main queue could be started right now. */
  ghost function Startable(s: State): int {
    |s.wq| - if RunSlow in s.wq && s.slowRunning >= Threshold(s.workers) then 1 else 0
  }

  ghost predicate Asleep(ws: seq<Worker>) {
    exists i :: 0 <= i < |ws| && ws[i] == Waiting(false)
  }

  /** While a worker sleeps, at most `missing` more entries could be started than there are workers on their way to look. */
  ghost predicate Short(s: State, missing: nat) {
    Asleep(s.workers) ==> Startable(s) <= Count(s.workers, IsLooking) + missing
  }

  /** No worker sleeps through work that nobody is on the way to. */
  ghost predicate Attended(s: State) {
    Short(s, 0)
  }

  ghost predicate Valid(s: State) {
    Limits(s) && Announced(s) && Attended(s) && forall r :: Consistent(s, r)
  }

  // ---- What validity means ----

  /** A submitted request is in exactly one place, and slow work holds at most half of the threads, rounded up. */
  lemma OnePlace(s: State, r: Request)
    requires Valid(s)
    ensures Queued(s.wq, s.slowPending, r) + HeldBefore(s.workers, r) + HeldAfter(s.workers, r) + multiset(s.cancelling)[r]
      + Finished(s.loopQueue, s.batch, r) + Called(s.called, r) == if r in s.submitted then 1 else 0
    ensures 2 * Count(s.workers, IsSlow) <= |s.workers| + 1
    ensures s.slowPending != [] ==> multiset(s.wq)[RunSlow] == 1
  {
    assert Consistent(s, r);
  }

  /** A request gets at most one callback, and UV_ECANCELED exactly when its function never ran. */
  lemma OneCallback(s: State, r: Request)
    requires Valid(s)
    ensures Called(s.called, r) <= 1
    ensures Called(s.called, r) == 1 ==> (Callback(r, ECanceled) in s.called <==> r !in s.ran)
    ensures multiset(s.ran)[r] <= 1
  {
    assert Consistent(s, r);
  }

  /**
   The use that is made of the threads: when one sleeps and none is on its way to look, the others
   are all at work, no request waits but slow ones, and slow work has half of the threads or more.
   */
  lemma NothingOverslept(s: State)
    requires Valid(s) && Asleep(s.workers)
    requires forall i :: 0 <= i < |s.workers| ==> s.workers[i] != Ready && s.workers[i] != Waiting(true)
    ensures forall r :: Job(r) !in s.wq
    ensures s.slowPending != [] ==> 2 * Count(s.workers, IsSlow) >= |s.workers|
    ensures s.wq == [] || (s.wq == [RunSlow] && 2 * s.slowRunning >= |s.workers|)
  {
    hide Consistent;
    CountNone(s.workers, IsLooking);
    assert Startable(s) <= 0;
    assert s.wq != [] ==> s.wq == [s.wq[0]] && RunSlow in s.wq;
  }

  /** Nothing is left behind: once every worker sleeps, no submitted request waits in a queue. */
  lemma NothingStranded(s: State, r: Request)
    requires Valid(s) && r in s.submitted
    requires forall i :: 0 <= i < |s.workers| ==> s.workers[i] == Waiting(false)
    ensures s.wq == [] && s.slowPending == [] && s.slowRunning == 0
    ensures r in s.cancelling || r in s.loopQueue || r in s.batch || Called(s.called, r) == 1
  {
    CountNone(s.workers, IsSlow);
    assert s.workers[0] == Waiting(false);
    NothingOverslept(s);
    assert Consistent(s, r);
    forall w | w in multiset(s.workers)
      ensures w == Waiting(false)
    {
      assert w in s.workers;
    }
  }

  /** A request whose cancellation succeeded. */
  ghost predicate Revoked(s: State, r: Request) {
    r in s.cancelling || (r in s.work && s.work[r] == Cancelled)
  }

  /** A revoked request never runs and never reports success. */
  lemma RevokedNeverRuns(s: State, r: Request)
    requires Valid(s) && Revoked(s, r)
    ensures r !in s.ran && Callback(r, Success) !in s.called
  {
    assert Consistent(s, r);
  }

  /** History only grows, and a revocation is final. */
  ghost predicate Later(s: State, s': State) {
    && s.submitted <= s'.submitted && s.ran <= s'.ran && s.called <= s'.called
    && |s.workers| == |s'.workers|
    && (forall r :: Revoked(s, r) ==> Revoked(s', r))
  }

  lemma LaterTwice(s: State, s': State, s'': State)
    requires Later(s, s') && Later(s', s'')
    ensures Later(s, s'')
  {
  }

  lemma LaterSame(s: State, s': State)
    requires s' == s.(wq := s'.wq, slowPending := s'.slowPending, slowRunning := s'.slowRunning, idle := s'.idle,
                      workers := s'.workers, empty := s'.empty, loopQueue := s'.loopQueue, batch := s'.batch,
                      called := s'.called, ran := s'.ran, cancelling := s'.cancelling)
    requires s.ran <= s'.ran && s.called <= s'.called && |s.workers| == |s'.workers| && s.cancelling <= s'.cancelling
    ensures Later(s, s')
  {
  }

  /** A work pointer changed, but not one that says uv__cancelled. */
  lemma LaterWork(s: State, r: Request, w: Work, s': State)
    requires s' == s.(wq := s'.wq, slowPending := s'.slowPending, workers := s'.workers, empty := s'.empty, loopQueue := s'.loopQueue,
                      submitted := s'.submitted, work := s.work[r := w], cancelling := s'.cancelling)
    requires s.submitted <= s'.submitted && |s.workers| == |s'.workers|
    requires if w == Cancelled then forall q :: q in s.cancelling && q != r ==> q in s'.cancelling
             else !Revoked(s, r) && s'.cancelling == s.cancelling
    ensures Later(s, s')
  {
  }

  // ---- Each step keeps the state valid ----

  lemma NoneHeld(ws: seq<Worker>, r: Request)
    requires forall i :: 0 <= i < |ws| ==> ws[i] == Ready
    ensures HeldBefore(ws, r) == 0 && HeldAfter(ws, r) == 0
  {
    assert forall w :: w in multiset(ws) ==> w in ws;
  }

  lemma UpdateCounts(ws: seq<Worker>, i: nat, w: Worker)
    requires i < |ws|
    ensures multiset(ws[i := w]) == multiset(ws) - multiset{ws[i]} + multiset{w}
    ensures multiset(ws)[ws[i]] >= 1
  {
  }

  /** Moving a worker between places where it holds no request. */
  lemma IdleMoveKeeps(s: State, i: nat, w: Worker)
    requires i < |s.workers|
    requires !s.workers[i].Working? && !s.workers[i].Worked? && !w.Working? && !w.Worked?
    requires forall r :: Consistent(s, r)
    ensures var s' := s.(workers := s.workers[i := w]); forall r :: Consistent(s', r)
  {
    var s' := s.(workers := s.workers[i := w]);
    UpdateCounts(s.workers, i, w);
    forall r
      ensures Consistent(s', r)
    {
      assert Consistent(s, r);
    }
  }

  /** A worker moves, and the work that could be started changes by no more than the workers that look for it. */
  lemma MoveAttends(s: State, i: nat, w: Worker, s': State, missing: nat)
    requires Attended(s) && i < |s.workers| && s'.workers == s.workers[i := w] && w != Waiting(false)
    requires Startable(s') - (if IsLooking(w) then 1 else 0) <= Startable(s) - (if IsLooking(s.workers[i]) then 1 else 0) + missing
    ensures Short(s', missing)
  {
    hide Startable;
    CountUpdate(s.workers, IsLooking, i, w);
    if j: nat :| j < |s'.workers| && s'.workers[j] == Waiting(false) {
      assert s.workers[j] == Waiting(false);
    }
  }

  /** The effect of uv_cond_signal on the workers. */
  ghost predicate Signalled(ws: seq<Worker>, ws': seq<Worker>) {
    if exists i :: 0 <= i < |ws| && ws[i] == Waiting(false)
    then exists i :: 0 <= i < |ws| && ws[i] == Waiting(false) && ws' == ws[i := Waiting(true)]
    else ws' == ws
  }

  /** A signal sent whenever somebody counts as idle leaves some worker awake. */
  lemma SignalKeeps(s: State, s': State)
    requires Limits(s) && (forall r :: Consistent(s, r)) && Short(s, 1)
    requires if s.idle > 0 then Signalled(s.workers, s'.workers) && s' == s.(workers := s'.workers) else s' == s
    ensures Limits(s') && (forall r :: Consistent(s', r)) && Attended(s') && |s'.workers| == |s.workers|
    ensures s' == s.(workers := s'.workers)
  {
    hide Consistent;
    if j: nat :| j < |s.workers| && s.workers[j] == Waiting(false) {
      if s.idle == 0 { CountNone(s.workers, IsWaiting); }
      var i: nat :| i < |s.workers| && s.workers[i] == Waiting(false) && s'.workers == s.workers[i := Waiting(true)];
      CountUpdate(s.workers, IsSlow, i, Waiting(true));
      CountUpdate(s.workers, IsWaiting, i, Waiting(true));
      CountUpdate(s.workers, IsLooking, i, Waiting(true));
      IdleMoveKeeps(s, i, Waiting(true));
      assert s' == s.(workers := s.workers[i := Waiting(true)]);
    } else {
      assert s' == s;
    }
  }

  lemma SubmitKeepsOne(s: State, r: Request, slow: bool, s': State, q: Request)
    requires Consistent(s, q) && Consistent(s, r) && r !in s.submitted
    requires s' == s.(work := s.work[r := Pending], submitted := s.submitted + {r},
                      slowPending := if slow then s.slowPending + [r] else s.slowPending,
                      wq := if !slow then s.wq + [Job(r)] else if RunSlow in s.wq then s.wq else s.wq + [RunSlow])
    ensures Consistent(s', q)
  {
    assert Queued(s'.wq, s'.slowPending, q) == Queued(s.wq, s.slowPending, q) + if q == r then 1 else 0;
    assert HeldAfter(s'.workers, q) == HeldAfter(s.workers, q);
  }

  lemma SubmitQueues(s: State, r: Request, slow: bool, s': State)
    requires Consistent(s, r) && r !in s.submitted
    requires s' == s.(work := s.work[r := Pending], submitted := s.submitted + {r},
                      slowPending := if slow then s.slowPending + [r] else s.slowPending,
                      wq := if !slow then s.wq + [Job(r)] else if RunSlow in s.wq then s.wq else s.wq + [RunSlow])
    ensures Queued(s'.wq, s'.slowPending, r) == 1
  {
  }

  lemma SubmitKeeps(s: State, r: Request, slow: bool, s': State)
    requires Valid(s) && r !in s.submitted
    requires s' == s.(work := s.work[r := Pending], submitted := s.submitted + {r},
                      slowPending := if slow then s.slowPending + [r] else s.slowPending,
                      wq := if !slow then s.wq + [Job(r)] else if RunSlow in s.wq then s.wq else s.wq + [RunSlow])
    ensures Limits(s') && Announced(s') && (forall q :: Consistent(s', q)) && Queued(s'.wq, s'.slowPending, r) == 1
    ensures Short(s', 1) && (slow && RunSlow in s.wq ==> Attended(s'))
  {
    hide Consistent;
    forall q
      ensures Consistent(s', q)
    {
      SubmitKeepsOne(s, r, slow, s', q);
    }
    SubmitQueues(s, r, slow, s');
  }

  lemma TakeKeepsOne(s: State, i: nat, r: Request, slow: bool, s': State, q: Request)
    requires Consistent(s, q) && Consistent(s, r) && i < |s.workers| && s.workers[i] == Ready
    requires s' == s.(wq := s'.wq, slowPending := s'.slowPending, slowRunning := s'.slowRunning,
                      empty := s.empty + {r}, workers := s.workers[i := Working(r, slow)])
    requires Queued(s.wq, s.slowPending, r) > 0 && Queued(s'.wq, s'.slowPending, q) == Queued(s.wq, s.slowPending, q) - if q == r then 1 else 0
    ensures Consistent(s', q)
  {
    hide Queued;
    UpdateCounts(s.workers, i, Working(r, slow));
    assert HeldBefore(s'.workers, q) == HeldBefore(s.workers, q) + if q == r then 1 else 0;
    assert HeldAfter(s'.workers, q) == HeldAfter(s.workers, q);
  }

  /** A job leaves its queue for a worker. */
  lemma TakeKeeps(s: State, i: nat, r: Request, slow: bool, s': State)
    requires Limits(s) && (forall q :: Consistent(s, q)) && i < |s.workers| && s.workers[i] == Ready
    requires s' == s.(wq := s'.wq, slowPending := s'.slowPending, slowRunning := s'.slowRunning,
                      empty := s.empty + {r}, workers := s.workers[i := Working(r, slow)])
    requires s'.slowRunning == s.slowRunning + (if slow then 1 else 0) <= Threshold(s.workers)
    requires Queued(s.wq, s.slowPending, r) > 0 && forall q :: Queued(s'.wq, s'.slowPending, q) == Queued(s.wq, s.slowPending, q) - if q == r then 1 else 0
    ensures Limits(s') && (forall q :: Consistent(s', q))
  {
    hide Consistent, Queued;
    CountUpdate(s.workers, IsSlow, i, Working(r, slow));
    CountUpdate(s.workers, IsWaiting, i, Working(r, slow));
    forall q
      ensures Consistent(s', q)
    {
      TakeKeepsOne(s, i, r, slow, s', q);
    }
  }

  lemma RunKeepsOne(s: State, i: nat, r: Request, slow: bool, s': State, q: Request)
    requires Consistent(s, q) && Consistent(s, r) && i < |s.workers| && s.workers[i] == Working(r, slow)
    requires s' == s.(workers := s.workers[i := Worked(r, slow)], ran := s.ran + [r])
    ensures Consistent(s', q)
  {
    UpdateCounts(s.workers, i, Worked(r, slow));
    assert HeldBefore(s'.workers, q) == HeldBefore(s.workers, q) - if q == r then 1 else 0;
    assert HeldAfter(s'.workers, q) == HeldAfter(s.workers, q) + if q == r then 1 else 0;
  }

  lemma RunKeeps(s: State, i: nat, r: Request, slow: bool, s': State)
    requires Valid(s) && i < |s.workers| && s.workers[i] == Working(r, slow)
    requires s' == s.(workers := s.workers[i := Worked(r, slow)], ran := s.ran + [r])
    ensures Valid(s')
  {
    hide Consistent;
    UpdateCounts(s.workers, i, Worked(r, slow));
    CountUpdate(s.workers, IsSlow, i, Worked(r, slow));
    CountUpdate(s.workers, IsWaiting, i, Worked(r, slow));
    assert Consistent(s, r);
    forall q
      ensures Consistent(s', q)
    {
      RunKeepsOne(s, i, r, slow, s', q);
    }
    MoveAttends(s, i, Worked(r, slow), s', 0);
  }

  lemma FinishKeepsOne(s: State, i: nat, r: Request, slow: bool, s': State, q: Request)
    requires Consistent(s, q) && Consistent(s, r) && i < |s.workers| && s.workers[i] == Worked(r, slow)
    requires s' == s.(workers := s.workers[i := Posted(slow)], work := s.work[r := Null],
                      loopQueue := s.loopQueue + [r], empty := s.empty - {r})
    ensures Consistent(s', q)
  {
    UpdateCounts(s.workers, i, Posted(slow));
    assert HeldBefore(s'.workers, q) == HeldBefore(s.workers, q);
    assert HeldAfter(s'.workers, q) == HeldAfter(s.workers, q) - if q == r then 1 else 0;
  }

  lemma FinishKeeps(s: State, i: nat, r: Request, slow: bool, s': State)
    requires Valid(s) && i < |s.workers| && s.workers[i] == Worked(r, slow)
    requires s' == s.(workers := s.workers[i := Posted(slow)], work := s.work[r := Null],
                      loopQueue := s.loopQueue + [r], empty := s.empty - {r})
    ensures Valid(s')
  {
    hide Consistent;
    UpdateCounts(s.workers, i, Posted(slow));
    CountUpdate(s.workers, IsSlow, i, Posted(slow));
    CountUpdate(s.workers, IsWaiting, i, Posted(slow));
    assert Consistent(s, r);
    forall q
      ensures Consistent(s', q)
    {
      FinishKeepsOne(s, i, r, slow, s', q);
    }
    MoveAttends(s, i, Posted(slow), s', 0);
  }

  lemma WithoutCount<T>(q: seq<T>, x: T, y: T)
    ensures multiset(Without(q, x))[y] == multiset(q)[y] - if y == x && multiset(q)[x] > 0 then 1 else 0
  {
    WithoutCounts(q, x);
  }

  lemma RemoveKeepsOne(s: State, r: Request, s': State, q: Request)
    requires Consistent(s, q) && Consistent(s, r) && r in s.submitted && Called(s.called, r) == 0 && r !in s.cancelling && r !in s.empty
    requires r in s.work && s.work[r] != Null
    requires s' == s.(wq := Without(s.wq, Job(r)), slowPending := Without(s.slowPending, r),
                      loopQueue := Without(s.loopQueue, r), batch := Without(s.batch, r), cancelling := s.cancelling + [r])
    ensures Consistent(s', q)
  {
    hide HeldBefore, HeldAfter, Called, Without;
    WithoutCount(s.wq, Job(r), Job(q));
    WithoutCount(s.slowPending, r, q);
    WithoutCount(s.loopQueue, r, q);
    WithoutCount(s.batch, r, q);
    assert multiset(s'.cancelling)[q] == multiset(s.cancelling)[q] + if q == r then 1 else 0;
    assert multiset(s.cancelling)[r] == 0;
  }

  lemma RemoveKeeps(s: State, r: Request, s': State)
    requires Valid(s) && r in s.submitted && Called(s.called, r) == 0 && r !in s.cancelling && r !in s.empty
    requires r in s.work && s.work[r] != Null
    requires s' == s.(wq := Without(s.wq, Job(r)), slowPending := Without(s.slowPending, r),
                      loopQueue := Without(s.loopQueue, r), batch := Without(s.batch, r), cancelling := s.cancelling + [r])
    ensures Valid(s')
  {
    hide Consistent, Short;
    assert Consistent(s, r);
    forall q
      ensures Consistent(s', q)
    {
      RemoveKeepsOne(s, r, s', q);
    }
    WithoutCount(s.wq, Job(r), RunSlow);
    WithoutShorter(s.wq, Job(r));
    assert s'.slowPending != [] ==> s.slowPending != [];
    FewerAttend(s, s');
  }

  lemma FewerAttend(s: State, s': State)
    requires Attended(s) && s'.workers == s.workers && s'.slowRunning == s.slowRunning
    requires |s'.wq| <= |s.wq| && (RunSlow in s'.wq <==> RunSlow in s.wq)
    ensures Attended(s')
  {
  }

  lemma {:induction false} WithoutShorter<T>(q: seq<T>, x: T)
    ensures |Without(q, x)| <= |q|
    ensures forall y :: y != x ==> (y in Without(q, x) <==> y in q)
  {
    if q != [] {
      assert q == [q[0]] + q[1..];
      if q[0] != x { WithoutShorter(q[1..], x); }
    }
  }

  lemma RevokeKeepsOne(s: State, r: Request, s': State, q: Request)
    requires Consistent(s, q) && Consistent(s, r) && r in s.cancelling
    requires s' == s.(cancelling := Without(s.cancelling, r), work := s.work[r := Cancelled], loopQueue := s.loopQueue + [r])
    ensures Consistent(s', q)
  {
    WithoutCounts(s.cancelling, r);
    assert multiset(s.cancelling)[r] > 0;
    assert Finished(s'.loopQueue, s'.batch, q) == Finished(s.loopQueue, s.batch, q) + if q == r then 1 else 0;
  }

  lemma RevokeKeeps(s: State, r: Request, s': State)
    requires Valid(s) && r in s.cancelling
    requires s' == s.(cancelling := Without(s.cancelling, r), work := s.work[r := Cancelled], loopQueue := s.loopQueue + [r])
    ensures Valid(s')
  {
    hide Consistent;
    WithoutCounts(s.cancelling, r);
    assert multiset(s.cancelling)[r] > 0;
    assert Consistent(s, r);
    forall q
      ensures Consistent(s', q)
    {
      RevokeKeepsOne(s, r, s', q);
    }
  }

  lemma MoveKeeps(s: State, s': State)
    requires Valid(s) && s.batch == []
    requires s' == s.(batch := s.loopQueue, loopQueue := [])
    ensures Valid(s')
  {
    forall q
      ensures Consistent(s', q)
    {
      assert Consistent(s, q);
    }
  }

  lemma CallKeepsOne(s: State, r: Request, s': State, q: Request)
    requires Consistent(s, q) && Consistent(s, r) && s.batch != [] && s.batch[0] == r && r in s.work
    requires s' == s.(batch := s.batch[1..],
                      called := s.called + [Callback(r, if s.work[r] == Cancelled then ECanceled else Success)])
    ensures Consistent(s', q)
  {
    HeadCounts(s.batch);
    assert multiset(s.batch)[r] > 0;
    assert Finished(s'.loopQueue, s'.batch, q) == Finished(s.loopQueue, s.batch, q) - if q == r then 1 else 0;
    assert Called(s'.called, q) == Called(s.called, q) + if q == r then 1 else 0;
  }

  lemma CallKeeps(s: State, r: Request, s': State)
    requires Valid(s) && s.batch != [] && s.batch[0] == r && r in s.work
    requires s' == s.(batch := s.batch[1..],
                      called := s.called + [Callback(r, if s.work[r] == Cancelled then ECanceled else Success)])
    ensures Valid(s')
  {
    hide Consistent;
    forall q
      ensures Consistent(s', q)
    {
      CallKeepsOne(s, r, s', q);
    }
  }

  /** What the test in uv__work_cancel finds out. */
  lemma CancelTest(s: State, r: Request)
    requires Valid(s) && r in s.submitted && Called(s.called, r) == 0
    ensures r in s.work
    ensures r in s.empty || s.work[r] == Null <==> HeldBefore(s.workers, r) + HeldAfter(s.workers, r) > 0 || r in s.ran
  {
    assert Consistent(s, r);
  }

  lemma BatchHead(s: State)
    requires Valid(s) && s.batch != []
    ensures s.batch[0] in s.work
    ensures s.work[s.batch[0]] == Cancelled <==> s.batch[0] !in s.ran
  {
    HeadCounts(s.batch);
    assert multiset(s.batch)[s.batch[0]] > 0;
    assert Consistent(s, s.batch[0]);
  }

  lemma OnlyMessage(s: State)
    requires Runnable(s.wq, s.slowRunning, s.workers) && s.wq[0] == RunSlow && s.slowRunning >= Threshold(s.workers)
    ensures |s.wq| > 1
  {
    assert |s.wq| == 1 ==> s.wq == [RunSlow];
  }

  lemma NotEmpty(s: State)
    requires Limits(s)
    ensures Runnable(s.wq, s.slowRunning, s.workers) ==> s.wq != []
  {
  }

  lemma AtHalf(slowRunning: nat, workers: seq<Worker>)
    ensures slowRunning >= Threshold(workers) <==> 2 * slowRunning >= |workers|
  {
  }

  lemma NothingToStart(s: State)
    requires !Runnable(s.wq, s.slowRunning, s.workers)
    ensures s.wq == [] || (s.wq == [RunSlow] && 2 * s.slowRunning >= |s.workers|)
  {
  }

  lemma SameLength(s: State, s': State)
    requires |s.workers| == |s'.workers|
    ensures Runnable(s.wq, s.slowRunning, s.workers) == Runnable(s.wq, s.slowRunning, s'.workers)
  {
  }

  lemma WorkersOnly(s: State, s': State, r: Request)
    requires s' == s.(workers := s'.workers) && Announced(s)
    ensures Announced(s') && Queued(s'.wq, s'.slowPending, r) == Queued(s.wq, s.slowPending, r)
  {
  }

  lemma Unknown(s: State, r: Request)
    requires Valid(s) && r !in s.submitted
    ensures !Revoked(s, r)
  {
    assert Consistent(s, r);
  }

  lemma Wakes(s: State, i: nat)
    requires Valid(s) && i < |s.workers| && s.workers[i] == Waiting(true)
    ensures s.idle > 0 && Valid(s.(idle := s.idle - 1, workers := s.workers[i := Ready]))
  {
    CountNone(s.workers, IsWaiting);
    var s' := s.(idle := s.idle - 1, workers := s.workers[i := Ready]);
    CountUpdate(s.workers, IsSlow, i, Ready);
    CountUpdate(s.workers, IsWaiting, i, Ready);
    IdleMoveKeeps(s, i, Ready);
    Same(s.(workers := s.workers[i := Ready]), s');
    MoveAttends(s, i, Ready, s', 0);
  }

  lemma Sleeps(s: State, i: nat)
    requires Valid(s) && i < |s.workers| && s.workers[i] == Ready && !Runnable(s.wq, s.slowRunning, s.workers)
    ensures Valid(s.(idle := s.idle + 1, workers := s.workers[i := Waiting(false)]))
  {
    var s' := s.(idle := s.idle + 1, workers := s.workers[i := Waiting(false)]);
    CountUpdate(s.workers, IsSlow, i, Waiting(false));
    CountUpdate(s.workers, IsWaiting, i, Waiting(false));
    IdleMoveKeeps(s, i, Waiting(false));
    Same(s.(workers := s.workers[i := Waiting(false)]), s');
  }

  /** The counters say nothing about any one request. */
  lemma Same(s: State, s': State)
    requires forall r :: Consistent(s, r)
    requires s' == s.(idle := s'.idle, slowRunning := s'.slowRunning)
    ensures forall r :: Consistent(s', r)
  {
    forall r
      ensures Consistent(s', r)
    {
      assert Consistent(s, r);
    }
  }

  /** Moving or dropping the run-slow message touches no request. */
  lemma MessageKeeps(s: State, wq: seq<Item>)
    requires forall r :: Consistent(s, r)
    requires forall r :: multiset(wq)[Job(r)] == multiset(s.wq)[Job(r)]
    ensures var s' := s.(wq := wq); forall r :: Consistent(s', r)
  {
    var s' := s.(wq := wq);
    forall r
      ensures Consistent(s', r)
    {
      assert Consistent(s, r);
      assert Queued(s'.wq, s'.slowPending, r) == Queued(s.wq, s.slowPending, r);
    }
  }

  lemma Requeues(s: State, i: nat)
    requires Valid(s) && i < |s.workers| && s.workers[i] == Ready && s.wq != [] && s.wq[0] == RunSlow
    ensures Valid(s.(wq := s.wq[1..] + [RunSlow]))
    ensures |s.wq| > 1 ==> s.wq[1] != RunSlow
  {
    hide Consistent;
    HeadCounts(s.wq);
    if |s.wq| > 1 { HeadCounts(s.wq[1..]); }
    MessageKeeps(s, s.wq[1..] + [RunSlow]);
  }

  lemma Drops(s: State, i: nat)
    requires Valid(s) && i < |s.workers| && s.workers[i] == Ready && s.wq != [] && s.wq[0] == RunSlow && s.slowPending == []
    ensures Valid(s.(wq := s.wq[1..]))
  {
    hide Consistent;
    HeadCounts(s.wq);
    MessageKeeps(s, s.wq[1..]);
  }

  lemma TakesSlow(s: State, i: nat, s': State)
    requires Valid(s) && i < |s.workers| && s.workers[i] == Ready && s.wq != [] && s.wq[0] == RunSlow && s.slowPending != []
    requires s.slowRunning < Threshold(s.workers)
    requires s' == s.(wq := if |s.slowPending| > 1 then s.wq[1..] + [RunSlow] else s.wq[1..], slowPending := s.slowPending[1..],
                      slowRunning := s.slowRunning + 1, empty := s.empty + {s.slowPending[0]},
                      workers := s.workers[i := Working(s.slowPending[0], true)])
    ensures Limits(s') && Announced(s') && (forall q :: Consistent(s', q))
    ensures Short(s', 1) && (|s.slowPending| == 1 ==> Attended(s'))
  {
    HeadCounts(s.wq);
    HeadCounts(s.slowPending);
    var r := s.slowPending[0];
    forall q
      ensures Queued(s'.wq, s'.slowPending, q) == Queued(s.wq, s.slowPending, q) - if q == r then 1 else 0
    {
    }
    assert multiset(s.slowPending)[r] > 0;
    TakeKeeps(s, i, r, true, s');
    MoveAttends(s, i, Working(r, true), s', if |s.slowPending| > 1 then 1 else 0);
  }

  lemma TakesJob(s: State, i: nat, s': State)
    requires Valid(s) && i < |s.workers| && s.workers[i] == Ready && s.wq != [] && s.wq[0].Job?
    requires s' == s.(wq := s.wq[1..], empty := s.empty + {s.wq[0].request},
                      workers := s.workers[i := Working(s.wq[0].request, false)])
    ensures Valid(s')
  {
    HeadCounts(s.wq);
    var r := s.wq[0].request;
    assert multiset(s.wq)[Job(r)] > 0;
    assert s.slowPending != [] ==> multiset(s.wq)[RunSlow] > 0;
    assert s.slowPending != [] ==> multiset(s'.wq)[RunSlow] > 0;
    TakeKeeps(s, i, r, false, s');
    MoveAttends(s, i, Working(r, false), s', 0);
  }

  lemma SignalledOthers(ws: seq<Worker>, ws': seq<Worker>, i: nat)
    requires Signalled(ws, ws') && i < |ws| && !ws[i].Waiting?
    ensures |ws'| == |ws| && ws'[i] == ws[i]
  {
  }

  lemma NotRevoked(s: State, i: nat)
    requires Valid(s) && i < |s.workers| && s.workers[i].Worked?
    ensures !Revoked(s, s.workers[i].request)
  {
    var r := s.workers[i].request;
    UpdateCounts(s.workers, i, Ready);
    assert Consistent(s, r);
  }

  lemma RemovedStay(q: seq<Request>, r: Request)
    ensures forall x :: x in q && x != r ==> x in Without(q, r)
  {
    WithoutCounts(q, r);
    forall x | x in q && x != r
      ensures x in Without(q, r)
    {
      assert multiset(q)[x] > 0;
      assert multiset(Without(q, r))[x] > 0;
    }
  }

  // ---- One thread's steps ----

  class ThreadPool {
    var wq: seq<Item>
    var slowPending: seq<Request>
    var slowRunning: nat
    var idle: nat
    var workers: seq<Worker>
    var work: map<Request, Work>
    var empty: set<Request>
    var cancelling: seq<Request>
    var loopQueue: seq<Request>
    var batch: seq<Request>
    ghost var called: seq<Callback>
    ghost var ran: seq<Request>
    ghost var submitted: set<Request>

    ghost function S(): State
      reads this
    {
      State(wq, slowPending, slowRunning, idle, workers, work, empty, cancelling, loopQueue, batch, called, ran, submitted)
    }

    /** init_threads: every worker starts at the top of its loop. */
    constructor (nthreads: nat)
      requires nthreads >= 1
      ensures Valid(S()) && submitted == {} && called == [] && |workers| == nthreads
    {
      wq, slowPending, slowRunning, idle, workers := [], [], 0, 0, seq(nthreads, i => Ready);
      work, empty, cancelling, loopQueue, batch := map[], {}, [], [], [];
      called, ran, submitted := [], [], {};
      new;
      CountNone(workers, IsSlow);
      CountNone(workers, IsWaiting);
      forall r
        ensures HeldBefore(workers, r) == 0 && HeldAfter(workers, r) == 0
      {
        NoneHeld(workers, r);
      }
    }

    /** uv_cond_signal: wakes one sleeper, if there is any. */
    method Signal()
      modifies this`workers
      ensures Signalled(old(workers), workers)
    {
      if i: nat :| i < |workers| && workers[i] == Waiting(false) {
        workers := workers[i := Waiting(true)];
      }
    }

    /** uv__work_submit and post. */
    method Submit(r: Request, slow: bool)
      requires Valid(S()) && r !in submitted
      modifies this
      ensures Valid(S()) && Later(old(S()), S()) && submitted == old(submitted) + {r}
      ensures called == old(called) && ran == old(ran) && Queued(wq, slowPending, r) == 1
      ensures slowPending == if slow then old(slowPending) + [r] else old(slowPending)
      ensures wq == if !slow then old(wq) + [Job(r)] else if RunSlow in old(wq) then old(wq) else old(wq) + [RunSlow]
      ensures S() == old(S()).(wq := wq, slowPending := slowPending, work := old(work)[r := Pending], submitted := submitted, workers := workers)
    {
      hide Limits, Announced, Attended, Consistent, Threshold, Runnable, Queued, Later, Revoked, Signalled;
      ghost var s := S();
      Unknown(s, r);
      work := work[r := Pending];
      submitted := submitted + {r};
      if slow {
        slowPending := slowPending + [r];
        if RunSlow in wq {
          SubmitKeeps(s, r, slow, S());
          LaterWork(s, r, Pending, S());
          return;
        }
      }
      wq := wq + [if slow then RunSlow else Job(r)];
      ghost var s' := S();
      SubmitKeeps(s, r, slow, s');
      if idle > 0 {
        Signal();
      }
      SignalKeeps(s', S());
      WorkersOnly(s', S(), r);
      LaterWork(s, r, Pending, S());
    }

    /** A worker that found the run-slow message takes a slow request, and announces the rest. */
    method StartSlow(i: nat)
      requires Valid(S()) && i < |workers| && workers[i] == Ready && wq != [] && wq[0] == RunSlow && slowPending != []
      requires slowRunning < Threshold(workers)
      modifies this
      ensures Valid(S()) && Later(old(S()), S())
      ensures |workers| == old(|workers|) && workers[i] == Working(old(slowPending)[0], true)
      ensures wq == old(wq)[1..] + (if old(|slowPending|) > 1 then [RunSlow] else [])
      ensures slowPending == old(slowPending)[1..] && submitted == old(submitted) && called == old(called) && ran == old(ran)
      ensures S() == old(S()).(wq := wq, slowPending := slowPending, slowRunning := old(slowRunning) + 1,
                               empty := old(empty) + {old(slowPending)[0]}, workers := workers)
    {
      hide Limits, Announced, Attended, Consistent, Threshold, Signalled, Later, Revoked, Runnable;
      ghost var s := S();
      wq := wq[1..];
      slowRunning := slowRunning + 1;
      var r := slowPending[0];
      slowPending := slowPending[1..];
      empty := empty + {r};
      workers := workers[i := Working(r, true)];
      if slowPending == [] {
        TakesSlow(s, i, S());
      } else {
        wq := wq + [RunSlow];
        ghost var s' := S();
        TakesSlow(s, i, s');
        if idle > 0 {
          Signal();
          SignalledOthers(s'.workers, workers, i);
        }
        SignalKeeps(s', S());
        WorkersOnly(s', S(), r);
      }
      LaterSame(s, S());
    }

    /** A worker that found a request takes it. */
    method StartJob(i: nat)
      requires Valid(S()) && i < |workers| && workers[i] == Ready && wq != [] && wq[0].Job?
      modifies this
      ensures Valid(S()) && Later(old(S()), S())
      ensures workers == old(workers)[i := Working(old(wq)[0].request, false)] && wq == old(wq)[1..]
      ensures slowPending == old(slowPending) && submitted == old(submitted) && called == old(called) && ran == old(ran)
      ensures S() == old(S()).(wq := wq, empty := old(empty) + {old(wq)[0].request}, workers := workers)
    {
      hide Limits, Announced, Attended, Consistent, Later, Revoked, Runnable;
      ghost var s := S();
      var r := wq[0].request;
      wq := wq[1..];
      empty := empty + {r};
      workers := workers[i := Working(r, false)];
      TakesJob(s, i, S());
      LaterSame(s, S());
    }

    /** One stay of a worker inside the mutex: from uv_cond_wait or the loop's top to a job or to sleep. */
    method Turn(i: nat)
      requires Valid(S()) && i < |workers| && (workers[i] == Ready || workers[i] == Waiting(true))
      modifies this
      ensures Valid(S()) && Later(old(S()), S())
      ensures submitted == old(submitted) && called == old(called) && ran == old(ran)
      ensures S() == old(S()).(wq := wq, slowPending := slowPending, slowRunning := slowRunning, idle := idle, empty := empty, workers := workers)
      ensures |workers| == old(|workers|)
      ensures workers[i] == Waiting(false) || workers[i].Working?
      ensures workers[i] == Waiting(false) ==> Jobs(wq) == Jobs(old(wq)) && slowPending == old(slowPending)
      ensures workers[i].Working? && !workers[i].slow ==> Jobs(old(wq)) == [workers[i].request] + Jobs(wq) && slowPending == old(slowPending)
      ensures workers[i].Working? && workers[i].slow ==> Jobs(wq) == Jobs(old(wq)) && old(slowPending) == [workers[i].request] + slowPending
      ensures old(wq) != [] && old(wq)[0].Job? ==> workers[i] == Working(old(wq)[0].request, false)
      ensures old(wq) != [] && old(wq)[0] == RunSlow && old(slowPending) != [] && 2 * old(slowRunning) < |workers| ==>
                workers[i] == Working(old(slowPending)[0], true)
      ensures workers[i] == Waiting(false) ==> wq == [] || (wq == [RunSlow] && 2 * slowRunning >= |workers|)
    {
      hide Limits, Announced, Attended, Consistent, Threshold, Later, Revoked, Runnable, Jobs;
      ghost var s0 := S();
      if workers[i].Waiting? {
        Wakes(S(), i);
        idle := idle - 1;
        workers := workers[i := Ready];
      }
      while true
        invariant Valid(S()) && i < |workers| == old(|workers|) && workers[i] == Ready
        invariant S() == s0.(wq := wq, idle := idle, workers := workers)
        invariant Jobs(wq) == Jobs(old(wq))
        invariant wq == old(wq) || (old(wq) != [] && old(wq)[0] == RunSlow && (2 * slowRunning >= |workers| || slowPending == []))
        decreases |wq|, wq != [] && wq[0] == RunSlow
      {
        ghost var s := S();
        NotEmpty(s);
        AtHalf(slowRunning, workers);
        if wq != [] { JobsHead(wq); }
        if !Runnable(wq, slowRunning, workers) {
          Sleeps(s, i);
          NothingToStart(s);
          idle := idle + 1;
          workers := workers[i := Waiting(false)];
          SameLength(s, S());
          LaterSame(s0, S());
          return;
        }
        if wq[0] == RunSlow && slowRunning >= Threshold(workers) {
          Requeues(s, i);
          OnlyMessage(s);
          wq := wq[1..] + [RunSlow];
        } else if wq[0] == RunSlow && slowPending == [] {
          Drops(s, i);
          wq := wq[1..];
        } else {
          LaterSame(s0, s);
          if wq[0] == RunSlow {
            StartSlow(i);
          } else {
            StartJob(i);
          }
          LaterTwice(s0, s, S());
          return;
        }
      }
    }

    /** uv_cond_wait may return without a signal. */
    method Spurious(i: nat)
      requires Valid(S()) && i < |workers| && workers[i] == Waiting(false)
      modifies this
      ensures Valid(S()) && Later(old(S()), S())
      ensures S() == old(S()).(workers := old(workers)[i := Waiting(true)])
    {
      CountUpdate(workers, IsSlow, i, Waiting(true));
      CountUpdate(workers, IsWaiting, i, Waiting(true));
      IdleMoveKeeps(S(), i, Waiting(true));
      ghost var s := S();
      workers := workers[i := Waiting(true)];
      MoveAttends(s, i, Waiting(true), S(), 0);
      LaterSame(s, S());
    }

    /** w->work(w), with no lock held. */
    method Run(i: nat)
      requires Valid(S()) && i < |workers| && workers[i].Working?
      modifies this
      ensures Valid(S()) && Later(old(S()), S()) && ran == old(ran) + [old(workers[i].request)] && called == old(called)
      ensures S() == old(S()).(ran := ran, workers := old(workers)[i := Worked(old(workers[i].request), old(workers[i].slow))])
    {
      hide Valid, Later, Revoked;
      var w := workers[i];
      ghost var s := S();
      ran := ran + [w.request];
      workers := workers[i := Worked(w.request, w.slow)];
      RunKeeps(s, i, w.request, w.slow, S());
      LaterSame(s, S());
    }

    /** Under the loop's mutex: the work pointer is cleared and the request queued for its callback. */
    method Finish(i: nat)
      requires Valid(S()) && i < |workers| && workers[i].Worked?
      modifies this
      ensures Valid(S()) && Later(old(S()), S()) && ran == old(ran) && called == old(called)
      ensures loopQueue == old(loopQueue) + [old(workers[i].request)]
      ensures S() == old(S()).(work := old(work)[old(workers[i].request) := Null], loopQueue := loopQueue,
                               empty := old(empty) - {old(workers[i].request)}, workers := old(workers)[i := Posted(old(workers[i].slow))])
    {
      hide Valid, Later, Revoked;
      var w := workers[i];
      ghost var s := S();
      NotRevoked(s, i);
      work := work[w.request := Null];
      loopQueue := loopQueue + [w.request];
      empty := empty - {w.request};
      workers := workers[i := Posted(w.slow)];
      FinishKeeps(s, i, w.request, w.slow, S());
      LaterWork(s, w.request, Null, S());
    }

    /** Back under the pool's mutex, at the top of the loop. */
    method Relock(i: nat)
      requires Valid(S()) && i < |workers| && workers[i].Posted?
      modifies this
      ensures Valid(S()) && Later(old(S()), S()) && ran == old(ran) && called == old(called)
      ensures workers == old(workers)[i := Ready] && slowRunning == if old(workers[i].slow) then old(slowRunning) - 1 else old(slowRunning)
      ensures S() == old(S()).(workers := workers, slowRunning := slowRunning)
    {
      var slow := workers[i].slow;
      CountUpdate(workers, IsSlow, i, Ready);
      CountUpdate(workers, IsWaiting, i, Ready);
      IdleMoveKeeps(S(), i, Ready);
      ghost var s := S();
      workers := workers[i := Ready];
      assert forall r :: Consistent(S(), r) by { assert S() == s.(workers := s.workers[i := Ready]); }
      ghost var s' := S();
      if slow {
        slowRunning := slowRunning - 1;
      }
      Same(s', S());
      MoveAttends(s, i, Ready, S(), 0);
      LaterSame(s, S());
    }

    /** The locked half of uv__work_cancel; the caller must not cancel a request whose callback has run. */
    method Cancel(r: Request) returns (busy: bool)
      requires Valid(S()) && r in submitted && Called(called, r) == 0 && r !in cancelling
      modifies this
      ensures Valid(S()) && Later(old(S()), S()) && ran == old(ran) && called == old(called)
      ensures busy <==> old(HeldBefore(workers, r) + HeldAfter(workers, r) > 0 || r in ran)
      ensures !busy ==> r in cancelling && Revoked(S(), r)
      ensures !busy ==> S() == old(S()).(wq := Without(old(wq), Job(r)), slowPending := Without(old(slowPending), r),
                                         loopQueue := Without(old(loopQueue), r), batch := Without(old(batch), r),
                                         cancelling := old(cancelling) + [r])
      ensures busy ==> S() == old(S())
    {
      hide Valid, Later, HeldBefore, HeldAfter, Called, Without;
      CancelTest(S(), r);
      busy := r in empty || work[r] == Null;
      if !busy {
        ghost var s := S();
        wq := Without(wq, Job(r));
        slowPending := Without(slowPending, r);
        loopQueue := Without(loopQueue, r);
        batch := Without(batch, r);
        cancelling := cancelling + [r];
        RemoveKeeps(s, r, S());
        LaterSame(s, S());
      } else {
        LaterSame(S(), S());
      }
    }

    /** Its other half, after the pool's mutex was released. */
    method CancelEnd(r: Request)
      requires Valid(S()) && r in cancelling
      modifies this
      ensures Valid(S()) && Later(old(S()), S()) && ran == old(ran) && called == old(called)
      ensures loopQueue == old(loopQueue) + [r] && r in work && work[r] == Cancelled
      ensures S() == old(S()).(work := old(work)[r := Cancelled], cancelling := Without(old(cancelling), r), loopQueue := loopQueue)
    {
      hide Valid, Later, Revoked;
      ghost var s := S();
      RemovedStay(cancelling, r);
      work := work[r := Cancelled];
      cancelling := Without(cancelling, r);
      loopQueue := loopQueue + [r];
      RevokeKeeps(s, r, S());
      LaterWork(s, r, Cancelled, S());
    }

    /** The head of uv__work_done: take the whole queue over. */
    method DoneBegin()
      requires Valid(S()) && batch == []
      modifies this
      ensures Valid(S()) && Later(old(S()), S()) && batch == old(loopQueue) && loopQueue == []
      ensures S() == old(S()).(batch := batch, loopQueue := loopQueue)
    {
      hide Valid, Later, Revoked;
      ghost var s := S();
      batch, loopQueue := loopQueue, [];
      MoveKeeps(s, S());
      LaterSame(s, S());
    }

    /** One round of its loop: the callback of the oldest request. */
    method DoneNext()
      requires Valid(S()) && batch != []
      modifies this
      ensures Valid(S()) && Later(old(S()), S()) && ran == old(ran)
      ensures called == old(called) + [Callback(old(batch)[0], if old(batch)[0] in ran then Success else ECanceled)]
      ensures S() == old(S()).(batch := old(batch)[1..], called := called)
    {
      hide Valid, Later;
      var r := batch[0];
      BatchHead(S());
      ghost var s := S();
      batch := batch[1..];
      called := called + [Callback(r, if work[r] == Cancelled then ECanceled else Success)];
      CallKeeps(s, r, S());
      LaterSame(s, S());
    }
  }
}
