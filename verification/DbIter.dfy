/**
 DBIter (db/db_iter.cc): turns the versioned entries of the internal iterator into the
 sorted map of user keys to values that a reader at `sequence` sees, in both directions.
 */
module DbIterator {
  import opened Keys
  import opened Store
  import opened Version
  import Merger
  import opened InternalIterators

  /** A reader at `s` does not skip entry `i`. */
  predicate VisibleAt(es: seq<Entry>, s: SeqNo, i: nat)
    requires i < |es|
  {
    es[i].Parses() && es[i].key.seqno <= s
  }

  /** Entry `i` carries the binding of its user key: it is its newest visible version, and a value. */
  ghost predicate Yields(es: seq<Entry>, s: SeqNo, i: nat)
    requires i < |es|
  {
    && VisibleAt(es, s, i) && es[i].key.kind == TYPE_VALUE
    && forall j :: 0 <= j < i && es[j].key.user == es[i].key.user ==> !VisibleAt(es, s, j)
  }

  /** Entry `i` carries binding `b`. */
  ghost predicate Carries(es: seq<Entry>, s: SeqNo, i: nat, b: (UserKey, Value)) {
    i < |es| && Yields(es, s, i) && b == (es[i].key.user, es[i].value)
  }

  /** The bindings carried by the first `n` entries, in key order. */
  ghost function View(es: seq<Entry>, s: SeqNo, n: nat): seq<(UserKey, Value)>
    requires n <= |es|
  {
    if n == 0 then []
    else View(es, s, n - 1) + (if Yields(es, s, n - 1) then [(es[n - 1].key.user, es[n - 1].value)] else [])
  }

  ghost function FullView(es: seq<Entry>, s: SeqNo): seq<(UserKey, Value)> {
    View(es, s, |es|)
  }

  /** Without bindings in between, the view does not grow. */
  lemma {:induction false} ViewGap(es: seq<Entry>, s: SeqNo, i: nat, j: nat)
    requires i <= j <= |es|
    requires forall k :: i <= k < j ==> !Yields(es, s, k)
    ensures View(es, s, j) == View(es, s, i)
    decreases j
  {
    if i < j {
      ViewGap(es, s, i, j - 1);
    }
  }

  lemma {:induction false} ViewPrefix(es: seq<Entry>, s: SeqNo, i: nat, j: nat)
    requires i <= j <= |es|
    ensures |View(es, s, i)| <= |View(es, s, j)|
    ensures View(es, s, i) == View(es, s, j)[..|View(es, s, i)|]
    decreases j
  {
    if i < j {
      ViewPrefix(es, s, i, j - 1);
    }
  }

  /** The binding carried by entry `i` sits at index `|View(i)|`. */
  lemma BindingAt(es: seq<Entry>, s: SeqNo, i: nat)
    requires i < |es| && Yields(es, s, i)
    ensures |View(es, s, i)| < |FullView(es, s)|
    ensures FullView(es, s)[|View(es, s, i)|] == (es[i].key.user, es[i].value)
  {
    ViewPrefix(es, s, i + 1, |es|);
  }

  /** The view is the sorted map of what `Read` answers. */
  lemma {:induction false} ViewIsSortedMap(es: seq<Entry>, s: SeqNo, n: nat)
    requires Sorted(es) && n <= |es|
    ensures forall p, q :: 0 <= p < q < |View(es, s, n)| ==> Rank(View(es, s, n)[p].0) < Rank(View(es, s, n)[q].0)
    ensures forall b :: b in View(es, s, n) ==> exists i: nat :: i < n && Carries(es, s, i, b)
  {
    if n > 0 {
      ViewIsSortedMap(es, s, n - 1);
      var v := View(es, s, n - 1);
      assert Yields(es, s, n - 1) ==> Carries(es, s, n - 1, (es[n - 1].key.user, es[n - 1].value));
      forall p | 0 <= p < |v| && Yields(es, s, n - 1)
        ensures Rank(v[p].0) < Rank(es[n - 1].key.user)
      {
        assert v[p] in v;
        var i: nat :| i < n - 1 && Carries(es, s, i, v[p]);
        assert Before(es[i].key, es[n - 1].key);
        SameRank(es[i].key.user, es[n - 1].key.user);
      }
    }
  }

  /** A yielding entry is the newest one, and so decides `Read`. */
  lemma YieldsIffRead(es: seq<Entry>, s: SeqNo, u: UserKey, x: Value)
    requires Sorted(es) && DistinctVersions(Elements(es))
    ensures Read(Elements(es), u, s) == Some(x) <==> (u, x) in FullView(es, s)
  {
    if (u, x) in FullView(es, s) {
      ViewIsSortedMap(es, s, |es|);
      var i: nat :| i < |es| && Carries(es, s, i, (u, x));
      YieldIsNewest(es, s, i);
      ReadIs(Elements(es), u, s, es[i]);
    }
    if Read(Elements(es), u, s) == Some(x) {
      var e :| Newest(Elements(es), u, s, e);
      ReadIs(Elements(es), u, s, e);
      var i :| 0 <= i < |es| && es[i] == e;
      forall j | 0 <= j < i && es[j].key.user == u
        ensures !VisibleAt(es, s, j)
      {
        assert Before(es[j].key, es[i].key);
        assert VisibleAt(es, s, j) ==> Visible(Elements(es), u, s, es[j]);
      }
      BindingAt(es, s, i);
    }
  }

  lemma YieldIsNewest(es: seq<Entry>, s: SeqNo, i: nat)
    requires Sorted(es) && i < |es| && Yields(es, s, i)
    ensures Newest(Elements(es), es[i].key.user, s, es[i])
  {
    forall f | Visible(Elements(es), es[i].key.user, s, f)
      ensures f.key.seqno <= es[i].key.seqno
    {
      var j :| 0 <= j < |es| && es[j] == f;
      assert j > i ==> Before(es[i].key, es[j].key);
    }
  }

  // ---- The forward scan ----

  /** Every visible entry before `p` is hidden from, or below, what follows. */
  ghost predicate Covered(es: seq<Entry>, s: SeqNo, p: nat, skipping: bool, skip: UserKey)
    requires p <= |es|
  {
    forall j {:trigger VisibleAt(es, s, j)} :: 0 <= j < p && VisibleAt(es, s, j) ==>
      (skipping && Rank(es[j].key.user) <= Rank(skip)) || StrictlyBelow(es, j, p)
  }

  ghost predicate StrictlyBelow(es: seq<Entry>, j: nat, p: nat)
    requires j < |es|
  {
    forall k :: p <= k < |es| ==> Rank(es[j].key.user) < Rank(es[k].key.user)
  }

  /** A binding at or after entry `p` that is not to be skipped. */
  ghost predicate Wanted(es: seq<Entry>, s: SeqNo, k: nat, p: nat, skipping: bool, skip: UserKey) {
    p <= k < |es| && Yields(es, s, k) && !(skipping && Rank(es[k].key.user) <= Rank(skip))
  }

  /** Entry `at`, or none, is the first wanted binding. */
  ghost predicate FirstWanted(es: seq<Entry>, s: SeqNo, found: bool, at: nat, p: nat, skipping: bool, skip: UserKey) {
    && (found ==> Wanted(es, s, at, p, skipping, skip))
    && forall k: nat :: (found ==> k < at) ==> !Wanted(es, s, k, p, skipping, skip)
  }

  /** The scan for what was wanted at `start` goes on at `p` with a possibly larger key to skip. */
  ghost predicate Progress(es: seq<Entry>, s: SeqNo, start: nat, skipping0: bool, skip0: UserKey, p: nat, skipping: bool, skip: UserKey) {
    && start <= p <= |es| && Covered(es, s, p, skipping, skip)
    && (forall k: nat :: Wanted(es, s, k, start, skipping0, skip0) ==> Wanted(es, s, k, p, skipping, skip))
    && (skipping0 ==> skipping && Rank(skip0) <= Rank(skip))
  }

  /** A deletion marker hides the rest of its user key. */
  lemma ProgressDeletion(es: seq<Entry>, s: SeqNo, start: nat, skipping0: bool, skip0: UserKey, p: nat, skipping: bool, skip: UserKey)
    requires Sorted(es) && Progress(es, s, start, skipping0, skip0, p, skipping, skip)
    requires p < |es| && VisibleAt(es, s, p) && es[p].key.kind == TYPE_DELETION
    requires skipping0 ==> Rank(skip0) <= Rank(es[p].key.user)
    ensures Progress(es, s, start, skipping0, skip0, p, true, es[p].key.user)
  {
    forall j | 0 <= j < p
      ensures Rank(es[j].key.user) <= Rank(es[p].key.user)
    {
      assert Before(es[j].key, es[p].key);
    }
    forall k: nat | Wanted(es, s, k, p, skipping, skip)
      ensures Rank(es[k].key.user) > Rank(es[p].key.user)
    {
      assert k > p && Before(es[p].key, es[k].key);
      SameRank(es[k].key.user, es[p].key.user);
    }
  }

  lemma ProgressStart(es: seq<Entry>, s: SeqNo, start: nat, skipping: bool, skip: UserKey)
    requires start <= |es| && Covered(es, s, start, skipping, skip)
    ensures Progress(es, s, start, skipping, skip, start, skipping, skip)
  {
  }

  lemma CoveredStep(es: seq<Entry>, s: SeqNo, p: nat, skipping: bool, skip: UserKey)
    requires p < |es| && Covered(es, s, p, skipping, skip)
    requires VisibleAt(es, s, p) ==> skipping && Rank(es[p].key.user) <= Rank(skip)
    ensures Covered(es, s, p + 1, skipping, skip)
  {
    hide StrictlyBelow;
    forall j {:trigger VisibleAt(es, s, j)} |
        0 <= j < p && VisibleAt(es, s, j) && !(skipping && Rank(es[j].key.user) <= Rank(skip))
      ensures StrictlyBelow(es, j, p + 1)
    {
      StillBelow(es, j, p);
    }
  }

  lemma StillBelow(es: seq<Entry>, j: nat, p: nat)
    requires j < |es| && StrictlyBelow(es, j, p)
    ensures StrictlyBelow(es, j, p + 1)
  {
  }

  lemma WantedStep(es: seq<Entry>, s: SeqNo, k: nat, p: nat, skipping: bool, skip: UserKey)
    requires p < |es| && Wanted(es, s, k, p, skipping, skip)
    requires VisibleAt(es, s, p) ==> skipping && Rank(es[p].key.user) <= Rank(skip)
    ensures Wanted(es, s, k, p + 1, skipping, skip)
  {
  }

  /** An invisible or skipped entry changes nothing. */
  lemma ProgressStep(es: seq<Entry>, s: SeqNo, start: nat, skipping0: bool, skip0: UserKey, p: nat, skipping: bool, skip: UserKey)
    requires Progress(es, s, start, skipping0, skip0, p, skipping, skip) && p < |es|
    requires VisibleAt(es, s, p) ==> skipping && Rank(es[p].key.user) <= Rank(skip)
    ensures Progress(es, s, start, skipping0, skip0, p + 1, skipping, skip)
  {
    hide Covered, Wanted, Rank;
    CoveredStep(es, s, p, skipping, skip);
    forall k: nat | Wanted(es, s, k, start, skipping0, skip0)
      ensures Wanted(es, s, k, p + 1, skipping, skip)
    {
      WantedStep(es, s, k, p, skipping, skip);
    }
  }

  /** A visible value that is not skipped is the first wanted binding. */
  lemma ProgressFound(es: seq<Entry>, s: SeqNo, start: nat, skipping0: bool, skip0: UserKey, p: nat, skipping: bool, skip: UserKey)
    requires Progress(es, s, start, skipping0, skip0, p, skipping, skip) && p < |es|
    requires VisibleAt(es, s, p) && es[p].key.kind == TYPE_VALUE
    requires !(skipping && Rank(es[p].key.user) <= Rank(skip))
    ensures Yields(es, s, p) && FirstWanted(es, s, true, p, start, skipping0, skip0)
  {
    assert Yields(es, s, p);
  }

  lemma ProgressDone(es: seq<Entry>, s: SeqNo, start: nat, skipping0: bool, skip0: UserKey, skipping: bool, skip: UserKey, at: nat)
    requires Progress(es, s, start, skipping0, skip0, |es|, skipping, skip)
    ensures FirstWanted(es, s, false, at, start, skipping0, skip0)
  {
    forall k: nat ensures !Wanted(es, s, k, start, skipping0, skip0) {
      assert !Wanted(es, s, k, |es|, skipping, skip);
    }
  }

  /** Nothing visible from `start` on is below the key to skip. */
  ghost predicate SkipsFromHere(es: seq<Entry>, s: SeqNo, start: nat, skipping: bool, skip: UserKey) {
    forall k :: start <= k < |es| && VisibleAt(es, s, k) && skipping ==> Rank(skip) <= Rank(es[k].key.user)
  }

  /** Skipping the current user key from at or before its binding misses nothing. */
  lemma NextStarts(es: seq<Entry>, s: SeqNo, from: nat, start: nat)
    requires Sorted(es) && start <= from < |es|
    requires forall k :: start <= k < from && VisibleAt(es, s, k) ==> es[k].key.user == es[from].key.user
    ensures Covered(es, s, start, true, es[from].key.user)
    ensures SkipsFromHere(es, s, start, true, es[from].key.user)
  {
    assert forall j :: 0 <= j < from ==> Before(es[j].key, es[from].key);
    assert forall j :: from < j < |es| ==> Before(es[from].key, es[j].key);
  }

  // ---- The backward scan ----

  /**
   State of a backward scan from below `start`, with `q` the next entry: `c` is the last
   visible entry met, or `start`, and nothing between `c` and `start` carries a binding.
   */
  ghost predicate Scanned(es: seq<Entry>, s: SeqNo, q: int, c: nat, start: nat) {
    && -1 <= q < c <= start <= |es|
    && (forall k :: q < k < start && VisibleAt(es, s, k) ==> c <= k)
    && (forall k :: c < k < start ==> !Yields(es, s, k))
    && (c < start ==> VisibleAt(es, s, c))
  }

  lemma ScanVisible(es: seq<Entry>, s: SeqNo, q: nat, c: nat, start: nat)
    requires Sorted(es) && Scanned(es, s, q, c, start) && VisibleAt(es, s, q)
    requires c < start && es[c].key.kind == TYPE_VALUE ==> Rank(es[q].key.user) >= Rank(es[c].key.user)
    requires c < start ==> es[c].key.kind <= TYPE_VALUE
    ensures Scanned(es, s, q - 1, q, start)
  {
    if c < start && es[c].key.kind == TYPE_VALUE {
      assert Before(es[q].key, es[c].key);
      SameRank(es[q].key.user, es[c].key.user);
      assert !Yields(es, s, c);
    }
  }

  /** A value met last is the binding of its user key once the scan leaves that key. */
  lemma ScanEnds(es: seq<Entry>, s: SeqNo, q: int, c: nat, start: nat)
    requires Sorted(es) && Scanned(es, s, q, c, start) && c < start && es[c].key.kind == TYPE_VALUE
    requires q >= 0 ==> VisibleAt(es, s, q) && Rank(es[q].key.user) < Rank(es[c].key.user)
    ensures Yields(es, s, c) && Behind(es, s, q + 1, c)
    ensures forall k :: c < k < start ==> !Yields(es, s, k)
  {
    assert forall j :: 0 <= j < q ==> Before(es[j].key, es[q].key);
  }

  /** A scan that met a deletion marker last, or nothing visible, found no binding. */
  lemma ScanFindsNothing(es: seq<Entry>, s: SeqNo, q: int, c: nat, start: nat)
    requires Scanned(es, s, q, c, start) && (c < start ==> es[c].key.kind == TYPE_DELETION)
    ensures forall k :: q < k < start ==> !Yields(es, s, k)
  {
  }

  /**
   Between bound and entry `i` lies nothing visible of another user key, and right below the
   bound, if anything, sits a visible entry of a smaller user key.
   */
  ghost predicate Behind(es: seq<Entry>, s: SeqNo, bound: nat, i: nat)
    requires i < |es|
  {
    && bound <= i
    && (forall k :: bound <= k < i && VisibleAt(es, s, k) ==> es[k].key.user == es[i].key.user)
    && (bound > 0 ==> VisibleAt(es, s, bound - 1) && Rank(es[bound - 1].key.user) < Rank(es[i].key.user))
  }

  /** Bindings around the current one, as positions in the view. */
  lemma NextInView(es: seq<Entry>, s: SeqNo, from: nat, found: bool, at: nat, start: nat)
    requires Sorted(es) && start <= from < |es| && Yields(es, s, from)
    requires FirstWanted(es, s, found, at, start, true, es[from].key.user)
    ensures if found then at < |es| && |View(es, s, at)| == |View(es, s, from)| + 1
            else |FullView(es, s)| == |View(es, s, from)| + 1
  {
    var limit := if found then at else |es|;
    if found && at <= from {
      assert at < from ==> Before(es[at].key, es[from].key);
    }
    forall k: nat | from < k < limit
      ensures !Yields(es, s, k)
    {
      assert Before(es[from].key, es[k].key);
      SameRank(es[from].key.user, es[k].key.user);
      assert !Wanted(es, s, k, start, true, es[from].key.user);
    }
    ViewGap(es, s, from + 1, limit);
  }

  lemma FirstInView(es: seq<Entry>, s: SeqNo, found: bool, at: nat, start: nat, skip: UserKey)
    requires start <= |es| && FirstWanted(es, s, found, at, start, false, skip)
    ensures if found then start <= at < |es| && |View(es, s, at)| == |View(es, s, start)|
            else |FullView(es, s)| == |View(es, s, start)|
  {
    var limit := if found then at else |es|;
    forall k: nat | start <= k < limit
      ensures !Yields(es, s, k)
    {
      assert !Wanted(es, s, k, start, false, skip);
    }
    ViewGap(es, s, start, limit);
  }

  lemma PrevInView(es: seq<Entry>, s: SeqNo, from: nat, bound: nat, found: bool, at: nat)
    requires bound <= from <= |es| && (found ==> at < bound && Yields(es, s, at))
    requires forall k :: bound <= k < from ==> !Yields(es, s, k)
    requires forall k :: (if found then at else -1) < k < bound ==> !Yields(es, s, k)
    ensures |View(es, s, from)| == if found then |View(es, s, at)| + 1 else 0
  {
    ViewGap(es, s, bound, from);
    ViewGap(es, s, if found then at + 1 else 0, bound);
  }

  /** Bindings before the seek target's entry have smaller keys. */
  lemma SeekBelow(es: seq<Entry>, s: SeqNo, target: UserKey, start: nat, q: nat)
    requires Sorted(es) && start <= |es| && q < |View(es, s, start)|
    requires forall i :: 0 <= i < start ==> Before(es[i].key, InternalKey(target, s, TYPE_FOR_SEEK))
    ensures Rank(View(es, s, start)[q].0) < Rank(target)
  {
    ViewIsSortedMap(es, s, start);
    assert View(es, s, start)[q] in View(es, s, start);
    var i: nat :| i < start && Carries(es, s, i, View(es, s, start)[q]);
  }

  /** The seek target's entry stands at the first binding that is not smaller. */
  lemma SeekInView(es: seq<Entry>, s: SeqNo, target: UserKey, start: nat, found: bool, at: nat, skip: UserKey)
    requires Sorted(es) && start <= |es|
    requires forall i :: 0 <= i < start ==> Before(es[i].key, InternalKey(target, s, TYPE_FOR_SEEK))
    requires forall i :: start <= i < |es| ==> NotAfter(InternalKey(target, s, TYPE_FOR_SEEK), es[i].key)
    requires FirstWanted(es, s, found, at, start, false, skip)
    ensures IsLowerBound(FullView(es, s), target, |View(es, s, start)|)
  {
    var full := FullView(es, s);
    var p := |View(es, s, start)|;
    FirstInView(es, s, found, at, start, skip);
    ViewPrefix(es, s, start, |es|);
    forall q | 0 <= q < p
      ensures Rank(full[q].0) < Rank(target)
    {
      SeekBelow(es, s, target, start, q);
      assert full[q] == View(es, s, start)[q];
    }
    if found {
      BindingAt(es, s, at);
      assert Rank(full[p].0) >= Rank(target);
      ViewIsSortedMap(es, s, |es|);
    }
  }

  /** `p` is the position of the first binding whose key is at or after `target`. */
  ghost predicate IsLowerBound(view: seq<(UserKey, Value)>, target: UserKey, p: nat) {
    && p <= |view|
    && (forall q :: 0 <= q < p ==> Rank(view[q].0) < Rank(target))
    && (forall q :: p <= q < |view| ==> Rank(view[q].0) >= Rank(target))
  }

  datatype Direction = Forward | Reverse

  class DBIter {
    const iter: InternalIterator
    const sequence: SeqNo
    var savedKey: UserKey
    var savedValue: Value
    var direction: Direction
    var valid: bool
    /** status_ is a corruption: an unparsable key was met. */
    var corrupt: bool
    /** The entry whose binding is current, when valid. */
    ghost var at: nat

    /** A backward scan has passed everything at or above this index. */
    ghost function Bound(): nat
      reads this, iter
    {
      if iter.pos < |iter.entries| then iter.pos + 1 else 0
    }

    /** Corruption is only reported when there is some. */
    ghost predicate StatusOk()
      reads this
    {
      corrupt ==> exists e :: e in iter.entries && !e.Parses()
    }

    ghost predicate Repr()
      reads this, iter, iter.merging, iter.merging.children
    {
      && iter.Repr() && StatusOk()
      && (valid ==>
            && at < |iter.entries| && Yields(iter.entries, sequence, at)
            && (direction == Forward ==> iter.pos == at)
            && (direction == Reverse ==>
                  && savedKey == iter.entries[at].key.user && savedValue == iter.entries[at].value
                  && Behind(iter.entries, sequence, Bound(), at)))
    }

    function Key(): UserKey
      requires Repr() && valid
      reads this, iter, iter.merging, iter.merging.children
    {
      if direction == Forward then iter.Current().key.user else savedKey
    }

    function Val(): Value
      requires Repr() && valid
      reads this, iter, iter.merging, iter.merging.children
    {
      if direction == Forward then iter.Current().value else savedValue
    }

    /** The position in the sorted map. */
    ghost function Index(): nat
      requires Repr() && valid
      reads this, iter, iter.merging, iter.merging.children
    {
      |View(iter.entries, sequence, at)|
    }

    /** The iterator shows binding `index` of the map, or is not valid when there is none. */
    ghost predicate Shows(index: int)
      requires Repr()
      reads this, iter, iter.merging, iter.merging.children
    {
      var full := FullView(iter.entries, sequence);
      if 0 <= index < |full| then valid && Index() == index && full[index] == (Key(), Val()) else !valid
    }

    constructor (iter: InternalIterator, s: SeqNo)
      requires iter.Repr()
      ensures Repr() && !valid && this.iter == iter && sequence == s
    {
      this.iter := iter;
      sequence := s;
      savedKey, savedValue := [], [];
      direction, valid, corrupt := Forward, false, false;
      at := 0;
    }

    /** ParseKey: None for a corrupt key, which is recorded in the status. */
    method ParseKey() returns (key: Option<InternalKey>)
      requires iter.Repr() && iter.Valid() && StatusOk()
      modifies this`corrupt
      ensures StatusOk()
      ensures key == if iter.Current().Parses() then Some(iter.Current().key) else None
      ensures corrupt == (old(corrupt) || key.None?)
    {
      if iter.Current().Parses() {
        key := Some(iter.Current().key);
      } else {
        corrupt := true;
        assert iter.Current() in iter.entries;
        key := None;
      }
    }

    /** Moves forward to the first wanted binding. */
    method FindNextUserEntry(skipping0: bool, skip0: UserKey)
      requires iter.Repr() && StatusOk() && iter.Valid() && direction == Forward
      requires Covered(iter.entries, sequence, iter.pos, skipping0, skip0)
      requires SkipsFromHere(iter.entries, sequence, iter.pos, skipping0, skip0)
      modifies this`savedKey, this`valid, this`corrupt, this`at, iter, iter.merging, iter.merging.children
      ensures Repr()
      ensures FirstWanted(iter.entries, sequence, valid, at, old(iter.pos), skipping0, skip0)
    {
      hide InternalIterator.Repr, Sorted, Progress, Covered, Yields, FirstWanted;
      var skipping, skip := skipping0, skip0;
      ghost var start := iter.pos;
      ghost var es := iter.entries;
      ProgressStart(es, sequence, start, skipping, skip);
      while true
        invariant iter.Repr() && StatusOk() && iter.Valid()
        invariant Progress(es, sequence, start, skipping0, skip0, iter.pos, skipping, skip)
        decreases |es| - iter.pos
      {
        var ikey := ParseKey();
        if ikey.Some? && ikey.value.seqno <= sequence {
          if ikey.value.kind == TYPE_DELETION {
            ProgressDeletion(es, sequence, start, skipping0, skip0, iter.pos, skipping, skip);
            skip := ikey.value.user;
            skipping := true;
          } else if skipping && Compare(ikey.value.user, skip) <= 0 {
            // A deletion above it hides this version.
          } else {
            ProgressFound(es, sequence, start, skipping0, skip0, iter.pos, skipping, skip);
            valid := true;
            at := iter.pos;
            savedKey := [];
            return;
          }
        }
        ProgressStep(es, sequence, start, skipping0, skip0, iter.pos, skipping, skip);
        iter.Next();
        if !iter.Valid() { break; }
      }
      savedKey := [];
      valid := false;
      ProgressDone(es, sequence, start, skipping0, skip0, skipping, skip, at);
    }

    method Next()
      requires Repr() && valid
      modifies this, iter, iter.merging, iter.merging.children
      ensures Repr() && Shows(old(Index()) + 1)
    {
      hide Sorted, Covered, SkipsFromHere, FirstWanted, View;
      ghost var from := at;
      ghost var es := iter.entries;
      if direction == Reverse {
        direction := Forward;
        // The inner iterator is just before the entries of Key(), or before everything.
        if !iter.Valid() {
          iter.SeekToFirst();
        } else {
          iter.Next();
        }
        // There the original gives up if nothing follows; the current binding always does.
        assert iter.Valid();
      } else {
        savedKey := iter.Current().key.user;
      }
      ghost var start := iter.pos;
      NextStarts(es, sequence, from, start);
      FindNextUserEntry(true, savedKey);
      NextInView(es, sequence, from, valid, at, start);
      if valid { BindingAt(es, sequence, at); }
    }

    /** The first binding at or after `target`. */
    method Seek(target: UserKey)
      requires Repr()
      modifies this, iter, iter.merging, iter.merging.children
      ensures Repr()
      ensures exists p: nat :: IsLowerBound(FullView(iter.entries, sequence), target, p) && Shows(p)
    {
      hide InternalIterator.Repr, Sorted, Covered, Yields, View;
      direction := Forward;
      savedValue := [];
      savedKey := [];
      ghost var es := iter.entries;
      iter.Seek(InternalKey(target, sequence, TYPE_FOR_SEEK));
      ghost var start := iter.pos;
      if iter.Valid() {
        SeekCovers(es, sequence, target, start);
        FindNextUserEntry(false, savedKey);
      } else {
        valid := false;
      }
      SeekInView(es, sequence, target, start, valid, at, []);
      FirstInView(es, sequence, valid, at, start, []);
      if valid { BindingAt(es, sequence, at); }
      assert Shows(|View(es, sequence, start)|);
    }

    method SeekToFirst()
      requires Repr()
      modifies this, iter, iter.merging, iter.merging.children
      ensures Repr() && Shows(0)
    {
      direction := Forward;
      savedValue := [];
      ghost var skip := savedKey;
      iter.SeekToFirst();
      if iter.Valid() {
        FindNextUserEntry(false, savedKey);
      } else {
        valid := false;
      }
      FirstInView(iter.entries, sequence, valid, at, 0, skip);
      if valid { BindingAt(iter.entries, sequence, at); }
    }

    /** One visible or invisible entry of the backward scan; `stop` leaves the scan there. */
    method ScanEntry(valueType: nat, ghost c: nat, ghost start: nat) returns (stop: bool, vt: nat, ghost d: nat)
      requires iter.Repr() && StatusOk() && iter.Valid()
      requires Scanned(iter.entries, sequence, iter.pos, c, start) && Latest(valueType, c, start)
      modifies this`savedKey, this`savedValue, this`corrupt
      ensures StatusOk()
      ensures stop ==> d == c && vt == valueType == TYPE_VALUE && Latest(vt, c, start)
      ensures stop ==> VisibleAt(iter.entries, sequence, iter.pos) && Rank(iter.Current().key.user) < Rank(savedKey)
      ensures !stop ==> Scanned(iter.entries, sequence, iter.pos - 1, d, start) && Latest(vt, d, start)
    {
      stop, vt, d := false, valueType, c;
      var ikey := ParseKey();
      if ikey.Some? && ikey.value.seqno <= sequence {
        if valueType != TYPE_DELETION && Compare(ikey.value.user, savedKey) < 0 {
          return true, valueType, c;
        }
        ScanVisible(iter.entries, sequence, iter.pos, c, start);
        d := iter.pos;
        vt := ikey.value.kind;
        if vt == TYPE_DELETION {
          savedKey, savedValue := [], [];
        } else {
          savedKey := iter.Current().key.user;
          savedValue := iter.Current().value;
        }
      }
    }

    /** `valueType`, and the saved pair, describe the last visible entry scanned. */
    ghost predicate Latest(valueType: nat, c: nat, start: nat)
      requires c <= start <= |iter.entries|
      reads this
    {
      && valueType == (if c == start then TYPE_DELETION else iter.entries[c].key.kind)
      && valueType <= TYPE_VALUE
      && (valueType == TYPE_VALUE ==> savedKey == iter.entries[c].key.user && savedValue == iter.entries[c].value)
    }

    /** The loop of FindPrevUserEntry, down to a visible entry of a smaller key than one that holds a value. */
    method ScanBack() returns (valueType: nat, ghost c: nat)
      requires iter.Repr() && StatusOk() && iter.Valid() && direction == Reverse
      modifies this`savedKey, this`savedValue, this`corrupt, iter, iter.merging, iter.merging.children
      ensures iter.Repr() && StatusOk()
      ensures Scanned(iter.entries, sequence, Bound() - 1, c, old(Bound())) && Latest(valueType, c, old(Bound()))
      ensures valueType != TYPE_DELETION && Bound() > 0 ==>
                VisibleAt(iter.entries, sequence, iter.pos) && Rank(iter.entries[iter.pos].key.user) < Rank(savedKey)
      ensures valueType == TYPE_DELETION ==> Bound() == 0
    {
      hide InternalIterator.Repr, Sorted, Yields;
      valueType := TYPE_DELETION;
      ghost var start := Bound();
      c := start;
      while true
        invariant iter.Repr() && StatusOk() && iter.Valid()
        invariant Scanned(iter.entries, sequence, iter.pos, c, start) && Latest(valueType, c, start)
        decreases iter.pos
      {
        var stop;
        stop, valueType, c := ScanEntry(valueType, c, start);
        if stop { break; }
        iter.Prev();
        if !iter.Valid() { break; }
      }
    }

    /** Moves back to the last binding at or before the inner iterator. */
    method FindPrevUserEntry()
      requires iter.Repr() && StatusOk() && direction == Reverse
      modifies this, iter, iter.merging, iter.merging.children
      ensures Repr()
      ensures valid ==> direction == Reverse && at < old(Bound())
      ensures forall k :: (if valid then at else -1) < k < old(Bound()) ==> !Yields(iter.entries, sequence, k)
    {
      hide InternalIterator.Repr, Sorted, Yields, Behind, View;
      var valueType := TYPE_DELETION;
      ghost var start := Bound();
      ghost var c := start;
      if iter.Valid() {
        valueType, c := ScanBack();
      }
      if valueType == TYPE_DELETION {
        ScanFindsNothing(iter.entries, sequence, Bound() - 1, c, start);
        valid := false;
        savedKey, savedValue := [], [];
        direction := Forward;
      } else {
        ScanEnds(iter.entries, sequence, Bound() - 1, c, start);
        valid := true;
        at := c;
      }
    }

    /** The start of Prev: backward over the entries of the current key, to one of a smaller key if there is any. */
    method LeaveKey() returns (left: bool)
      requires Repr() && valid && direction == Forward
      modifies this`savedKey, this`savedValue, this`valid, iter, iter.merging, iter.merging.children
      ensures iter.Repr() && StatusOk() && valid == left && Bound() <= at && (left <==> Bound() > 0)
      ensures forall k :: Bound() <= k < at ==> !Yields(iter.entries, sequence, k)
    {
      hide InternalIterator.Repr, Sorted, Behind;
      ghost var es := iter.entries;
      savedKey := iter.Current().key.user;
      while true
        invariant iter.Repr() && StatusOk() && iter.Valid() && iter.pos <= at && valid
        invariant savedKey == es[at].key.user
        invariant forall k :: iter.pos <= k < at ==> es[k].key.user == savedKey
        decreases iter.pos
      {
        iter.Prev();
        if !iter.Valid() {
          valid := false;
          savedKey, savedValue := [], [];
          return false;
        }
        KeysAscend(es, iter.pos, at);
        if Compare(iter.Current().key.user, savedKey) < 0 {
          break;
        }
      }
      left := true;
    }

    method Prev()
      requires Repr() && valid
      modifies this, iter, iter.merging, iter.merging.children
      ensures Repr() && Shows(old(Index()) - 1)
    {
      hide InternalIterator.Repr, Sorted, Yields, View, Behind;
      ghost var from := at;
      ghost var es := iter.entries;
      BindingAt(es, sequence, from);
      if direction == Forward {
        var left := LeaveKey();
        if !left {
          PrevInView(es, sequence, from, Bound(), false, 0);
          return;
        }
        direction := Reverse;
      } else {
        NoneBetween(es, sequence, Bound(), from);
      }
      ghost var bound := Bound();
      FindPrevUserEntry();
      PrevInView(es, sequence, from, bound, valid, at);
      if valid { BindingAt(es, sequence, at); }
    }

    method SeekToLast()
      requires Repr()
      modifies this, iter, iter.merging, iter.merging.children
      ensures Repr() && Shows(|FullView(iter.entries, sequence)| - 1)
    {
      direction := Reverse;
      savedValue := [];
      iter.SeekToLast();
      FindPrevUserEntry();
      PrevInView(iter.entries, sequence, |iter.entries|, |iter.entries|, valid, at);
      if valid { BindingAt(iter.entries, sequence, at); }
    }
  }

  /** All entries of the sources under the internal iterator. */
  ghost function Sources(runs: seq<seq<Entry>>): set<Entry> {
    set j, e | 0 <= j < |runs| && e in runs[j] :: e
  }

  /** The whole stack: the iterator over the merged sources shows exactly what reading all of them gives. */
  lemma StackReads(runs: seq<seq<Entry>>, merged: seq<Entry>, s: SeqNo, u: UserKey, x: Value)
    requires Merger.IsMerge(runs, merged) && DistinctVersions(Sources(runs))
    ensures Read(Sources(runs), u, s) == Some(x) <==> (u, x) in FullView(merged, s)
  {
    hide Sorted, Read, DistinctVersions;
    forall e
      ensures e in Elements(merged) <==> e in Sources(runs)
    {
      if e in Sources(runs) {
        var j :| 0 <= j < |runs| && e in runs[j];
        assert Merger.Part(runs[j], merged);
      }
    }
    assert Elements(merged) == Sources(runs);
    YieldsIffRead(merged, s, u, x);
  }

  /** Between the bound and a binding there is no other. */
  lemma NoneBetween(es: seq<Entry>, s: SeqNo, bound: nat, i: nat)
    requires i < |es| && Yields(es, s, i) && Behind(es, s, bound, i)
    ensures bound <= i && forall k :: bound <= k < i ==> !Yields(es, s, k)
  {
  }

  lemma KeysAscend(es: seq<Entry>, i: nat, j: nat)
    requires Sorted(es) && i < j < |es|
    ensures Rank(es[i].key.user) <= Rank(es[j].key.user)
  {
    assert Before(es[i].key, es[j].key);
  }

  lemma SeekCovers(es: seq<Entry>, s: SeqNo, target: UserKey, start: nat)
    requires start <= |es|
    requires forall i :: 0 <= i < start ==> Before(es[i].key, InternalKey(target, s, TYPE_FOR_SEEK))
    requires forall i :: start <= i < |es| ==> NotAfter(InternalKey(target, s, TYPE_FOR_SEEK), es[i].key)
    ensures Covered(es, s, start, false, [])
  {
    forall j | 0 <= j < start && VisibleAt(es, s, j)
      ensures StrictlyBelow(es, j, start)
    {
      assert Rank(es[j].key.user) < Rank(target);
    }
  }
}
