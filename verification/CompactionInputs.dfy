/**
 Choosing a compaction's inputs (Version::GetOverlappingInputs, AddBoundaryInputs and
 VersionSet::SetupOtherInputs, db/version_set.cc).
 */
module CompactionInputs {
  import opened Keys
  import opened Store
  import opened Version
  import opened PointLookup
  import opened CompactionWork

  // ---- Files that overlap a range ----

  /** A range of user keys; a missing bound is infinite. */
  datatype Range = Range(begin: Option<UserKey>, end: Option<UserKey>)

  ghost predicate StartsBefore(f: FileMeta, begin: Option<UserKey>) {
    begin.Some? && Rank(f.smallest.user) < Rank(begin.value)
  }

  ghost predicate EndsAfter(f: FileMeta, end: Option<UserKey>) {
    end.Some? && Rank(f.largest.user) > Rank(end.value)
  }

  ghost predicate Overlaps(f: FileMeta, r: Range) {
    && !(r.begin.Some? && Rank(f.largest.user) < Rank(r.begin.value))
    && !(r.end.Some? && Rank(f.smallest.user) > Rank(r.end.value))
  }

  ghost predicate Inside(f: FileMeta, r: Range) {
    !StartsBefore(f, r.begin) && !EndsAfter(f, r.end)
  }

  ghost predicate Wider(r: Range, s: Range) {
    && (r.begin.Some? ==> s.begin.Some? && Rank(r.begin.value) <= Rank(s.begin.value))
    && (r.end.Some? ==> s.end.Some? && Rank(s.end.value) <= Rank(r.end.value))
  }

  /** No file straddles an end of the range. */
  ghost predicate Closed(files: seq<FileMeta>, r: Range) {
    forall i :: 0 <= i < |files| && Overlaps(files[i], r) ==> Inside(files[i], r)
  }

  /** The files that overlap the range, in order. */
  ghost function Selected(files: seq<FileMeta>, r: Range): seq<FileMeta> {
    if files == [] then []
    else
      var n := |files| - 1;
      Selected(files[..n], r) + if Overlaps(files[n], r) then [files[n]] else []
  }

  lemma {:induction false} SelectedMembers(files: seq<FileMeta>, r: Range, f: FileMeta)
    ensures f in Selected(files, r) <==> f in files && Overlaps(f, r)
  {
    if files != [] {
      SelectedMembers(files[..|files| - 1], r, f);
      assert files == files[..|files| - 1] + [files[|files| - 1]];
    }
  }

  /** How many file ends stick out of the range. */
  ghost function Sticking(files: seq<FileMeta>, r: Range): nat {
    if files == [] then 0
    else
      var f := files[|files| - 1];
      Sticking(files[..|files| - 1], r) + (if StartsBefore(f, r.begin) then 1 else 0) + if EndsAfter(f, r.end) then 1 else 0
  }

  /** A range widened to the end of one of the files has fewer file ends sticking out. */
  lemma {:induction false} WideningShrinks(files: seq<FileMeta>, r: Range, s: Range, i: nat)
    requires Wider(s, r) && i <= |files|
    ensures Sticking(files, s) <= Sticking(files, r)
    ensures i < |files| && StartsBefore(files[i], r.begin) && !StartsBefore(files[i], s.begin) ==> Sticking(files, s) < Sticking(files, r)
    ensures i < |files| && EndsAfter(files[i], r.end) && !EndsAfter(files[i], s.end) ==> Sticking(files, s) < Sticking(files, r)
  {
    if files != [] {
      var n := |files| - 1;
      WideningShrinks(files[..n], r, s, if i < n then i else n);
    }
  }

  /**
   GetOverlappingInputs. Above level 0 it selects by the given range. At level 0 the range
   grows until no file straddles it: the selection is by the least closed range around it.
   */
  method GetOverlappingInputs(level: nat, files: seq<FileMeta>, begin: Option<UserKey>, end: Option<UserKey>)
    returns (inputs: seq<FileMeta>, ghost r: Range)
    ensures inputs == Selected(files, r) && Wider(r, Range(begin, end))
    ensures level > 0 ==> r == Range(begin, end) && inputs == Selected(files, Range(begin, end))
    ensures level == 0 ==> Closed(files, r)
    ensures level == 0 ==> Least(files, Range(begin, end), r)
  {
    hide Sticking, Closed, Least, Selected, Overlaps, Wider;
    var userBegin, userEnd := begin, end;
    r := Range(begin, end);
    inputs := [];
    var i := 0;
    Begins(files, r);
    while i < |files|
      invariant i <= |files| && r == Range(userBegin, userEnd) && inputs == Selected(files[..i], r)
      invariant Wider(r, Range(begin, end)) && (level > 0 ==> r == Range(begin, end))
      invariant level == 0 ==> Closed(files[..i], r)
      invariant Least(files, Range(begin, end), r)
      decreases Sticking(files, r), |files| - i
    {
      var f := files[i];
      OneMore(files, i, r);
      i := i + 1;
      if userBegin.Some? && Compare(f.largest.user, userBegin.value) < 0 {
      } else if userEnd.Some? && Compare(f.smallest.user, userEnd.value) > 0 {
      } else {
        inputs := inputs + [f];
        if level == 0 {
          if userBegin.Some? && Compare(f.smallest.user, userBegin.value) < 0 {
            userBegin := Some(f.smallest.user);
            Widens(files, i - 1, Range(begin, end), r, Range(userBegin, userEnd));
            r := Range(userBegin, userEnd);
            inputs, i := [], 0;
            Begins(files, r);
          } else if userEnd.Some? && Compare(f.largest.user, userEnd.value) > 0 {
            userEnd := Some(f.largest.user);
            Widens(files, i - 1, Range(begin, end), r, Range(userBegin, userEnd));
            r := Range(userBegin, userEnd);
            inputs, i := [], 0;
            Begins(files, r);
          }
        }
      }
    }
    assert files[..i] == files;
  }

  /** Every closed range around the wanted one is around `r`. */
  ghost predicate Least(files: seq<FileMeta>, wanted: Range, r: Range) {
    forall s :: Wider(s, wanted) && Closed(files, s) ==> Wider(s, r)
  }

  lemma Begins(files: seq<FileMeta>, r: Range)
    ensures Selected(files[..0], r) == [] && Closed(files[..0], r) && Least(files, r, r) && Wider(r, r)
  {
  }

  lemma OneMore(files: seq<FileMeta>, i: nat, r: Range)
    requires i < |files|
    ensures Overlaps(files[i], r) <==>
              && !(r.begin.Some? && Rank(files[i].largest.user) < Rank(r.begin.value))
              && !(r.end.Some? && Rank(files[i].smallest.user) > Rank(r.end.value))
    ensures Selected(files[..i + 1], r) == Selected(files[..i], r) + if Overlaps(files[i], r) then [files[i]] else []
    ensures Closed(files[..i], r) && (Overlaps(files[i], r) ==> Inside(files[i], r)) ==> Closed(files[..i + 1], r)
  {
    assert files[..i + 1][..i] == files[..i];
    assert Selected(files[..i], r) + [] == Selected(files[..i], r);
    assert forall j :: 0 <= j < i ==> files[..i + 1][j] == files[..i][j];
  }

  /** An overlapping file that sticks out takes the range with it, and every closed range has it inside. */
  lemma Widens(files: seq<FileMeta>, i: nat, wanted: Range, r: Range, r': Range)
    requires i < |files| && Overlaps(files[i], r) && Least(files, wanted, r) && Wider(r, wanted)
    requires || (StartsBefore(files[i], r.begin) && r' == r.(begin := Some(files[i].smallest.user)))
             || (EndsAfter(files[i], r.end) && r' == r.(end := Some(files[i].largest.user)))
    ensures Least(files, wanted, r') && Wider(r', wanted) && Sticking(files, r') < Sticking(files, r)
  {
    WideningShrinks(files, r, r', i);
    forall s | Wider(s, wanted) && Closed(files, s)
      ensures Wider(s, r')
    {
      assert Wider(s, r);
      assert Overlaps(files[i], s);
    }
  }

  // ---- Boundary files ----

  ghost predicate IsLargestKey(files: seq<FileMeta>, key: InternalKey) {
    && (exists i :: 0 <= i < |files| && files[i].largest == key)
    && forall i :: 0 <= i < |files| ==> NotAfter(files[i].largest, key)
  }

  method FindLargestKey(files: seq<FileMeta>) returns (key: Option<InternalKey>)
    ensures files == [] <==> key.None?
    ensures key.Some? ==> IsLargestKey(files, key.value)
  {
    if files == [] {
      return None;
    }
    var largest := files[0].largest;
    for i := 1 to |files|
      invariant IsLargestKey(files[..i], largest)
    {
      var j :| 0 <= j < |files[..i]| && files[..i][j].largest == largest;
      assert files[..i + 1][j].largest == largest && files[..i + 1][i] == files[i];
      assert forall k :: 0 <= k < i ==> files[..i + 1][k] == files[..i][k];
      if CompareInternal(files[i].largest, largest) > 0 {
        largest := files[i].largest;
      }
    }
    assert files[..|files|] == files;
    key := Some(largest);
  }

  /** `f` goes on with older versions of the user key that ends at `key`. */
  ghost predicate IsBoundary(f: FileMeta, key: InternalKey) {
    Before(key, f.smallest) && f.smallest.user == key.user
  }

  method FindSmallestBoundaryFile(files: seq<FileMeta>, key: InternalKey) returns (r: Option<FileMeta>)
    ensures r.None? <==> forall f :: f in files ==> !IsBoundary(f, key)
    ensures r.Some? ==> r.value in files && IsBoundary(r.value, key)
    ensures r.Some? ==> forall f :: f in files && IsBoundary(f, key) ==> NotAfter(r.value.smallest, f.smallest)
  {
    r := None;
    for i := 0 to |files|
      invariant r.None? <==> forall f :: f in files[..i] ==> !IsBoundary(f, key)
      invariant r.Some? ==> r.value in files && IsBoundary(r.value, key)
      invariant r.Some? ==> forall f :: f in files[..i] && IsBoundary(f, key) ==> NotAfter(r.value.smallest, f.smallest)
    {
      var f := files[i];
      assert files[..i + 1] == files[..i] + [f];
      SameRank(f.smallest.user, key.user);
      assert IsBoundary(f, key) <==> CompareInternal(f.smallest, key) > 0 && Compare(f.smallest.user, key.user) == 0;
      if CompareInternal(f.smallest, key) > 0 && Compare(f.smallest.user, key.user) == 0 {
        if r.None? || CompareInternal(f.smallest, r.value.smallest) < 0 {
          r := Some(f);
        }
      }
    }
    assert files[..|files|] == files;
  }

  /** How many files start after a key. */
  ghost function StartAfter(files: seq<FileMeta>, key: InternalKey): nat {
    if files == [] then 0
    else StartAfter(files[..|files| - 1], key) + if Before(key, files[|files| - 1].smallest) then 1 else 0
  }

  lemma {:induction false} FewerStartAfter(files: seq<FileMeta>, key: InternalKey, later: InternalKey, f: FileMeta)
    requires Before(key, later)
    ensures StartAfter(files, later) <= StartAfter(files, key)
    ensures f in files && Before(key, f.smallest) && NotAfter(f.smallest, later) ==> StartAfter(files, later) < StartAfter(files, key)
  {
    if files != [] {
      FewerStartAfter(files[..|files| - 1], key, later, f);
      assert files == files[..|files| - 1] + [files[|files| - 1]];
    }
  }

  ghost predicate FirstBoundary(level: seq<FileMeta>, f: FileMeta, key: InternalKey) {
    forall g :: g in level && IsBoundary(g, key) ==> NotAfter(f.smallest, g.smallest)
  }

  /** `f` is the first file of the level that goes on with the last user key of the inputs. */
  ghost predicate NextBoundary(level: seq<FileMeta>, inputs: seq<FileMeta>, f: FileMeta) {
    f in level && exists key :: IsLargestKey(inputs, key) && IsBoundary(f, key) && FirstBoundary(level, f, key)
  }

  ghost predicate NoBoundary(level: seq<FileMeta>, inputs: seq<FileMeta>) {
    forall key, f :: IsLargestKey(inputs, key) && f in level ==> !IsBoundary(f, key)
  }

  /** Boundary files added one after another. */
  ghost predicate Appended(level: seq<FileMeta>, inputs: seq<FileMeta>, r: seq<FileMeta>) {
    inputs <= r && forall k :: |inputs| <= k < |r| ==> NextBoundary(level, r[..k], r[k])
  }

  lemma LargestKeyIsOne(files: seq<FileMeta>, a: InternalKey, b: InternalKey)
    requires IsLargestKey(files, a) && IsLargestKey(files, b)
    ensures !Before(a, b) && !Before(b, a) && a.user == b.user
  {
    SameRank(a.user, b.user);
  }

  /** A file that is added starts after everything already there, so no file is added twice. */
  lemma AppendedAreNew(level: seq<FileMeta>, inputs: seq<FileMeta>, r: seq<FileMeta>, j: nat, k: nat)
    requires Appended(level, inputs, r) && |inputs| <= k < |r| && j < k && ValidFiles(r)
    ensures Before(r[j].largest, r[k].smallest) && r[j] != r[k]
  {
    assert NextBoundary(level, r[..k], r[k]);
    var key :| IsLargestKey(r[..k], key) && IsBoundary(r[k], key);
    assert r[..k][j] == r[j];
    SmallestFirst(r[k]);
  }

  /** AddBoundaryInputs: afterwards no file of the level goes on with the last user key of the inputs. */
  method AddBoundaryInputs(level: seq<FileMeta>, inputs: seq<FileMeta>) returns (r: seq<FileMeta>)
    requires ValidFiles(level) && ValidFiles(inputs)
    ensures ValidFiles(r) && Appended(level, inputs, r) && NoBoundary(level, r)
    ensures inputs == [] ==> r == []
  {
    hide Appended, NextBoundary;
    r := inputs;
    AppendedNone(level, inputs);
    var key := FindLargestKey(inputs);
    if key.None? {
      return;
    }
    var largestKey := key.value;
    var searching := true;
    while searching
      invariant ValidFiles(r) && Appended(level, inputs, r) && IsLargestKey(r, largestKey)
      invariant !searching ==> forall f :: f in level ==> !IsBoundary(f, largestKey)
      decreases searching, StartAfter(level, largestKey)
    {
      var boundary := FindSmallestBoundaryFile(level, largestKey);
      if boundary.Some? {
        var f := boundary.value;
        SmallestFirst(f);
        FewerStartAfter(level, largestKey, f.largest, f);
        AppendOne(level, inputs, r, f, largestKey);
        r := r + [f];
        largestKey := f.largest;
      } else {
        searching := false;
      }
    }
    forall key, f | IsLargestKey(r, key) && f in level
      ensures !IsBoundary(f, key)
    {
      LargestKeyIsOne(r, key, largestKey);
      SameRank(key.user, largestKey.user);
      assert !IsBoundary(f, largestKey);
    }
  }

  lemma AppendedNone(level: seq<FileMeta>, inputs: seq<FileMeta>)
    ensures Appended(level, inputs, inputs)
  {
  }

  lemma AppendOne(level: seq<FileMeta>, inputs: seq<FileMeta>, r: seq<FileMeta>, f: FileMeta, key: InternalKey)
    requires Appended(level, inputs, r) && IsLargestKey(r, key) && f in level && IsBoundary(f, key) && f.Valid()
    requires FirstBoundary(level, f, key)
    ensures Appended(level, inputs, r + [f]) && IsLargestKey(r + [f], f.largest)
  {
    hide IsLargestKey, NextBoundary, IsBoundary;
    var r' := r + [f];
    assert r'[..|r|] == r;
    NextIs(level, r, f, key);
    forall k | |inputs| <= k < |r'|
      ensures NextBoundary(level, r'[..k], r'[k])
    {
      if k < |r| { assert r'[..k] == r[..k] && r'[k] == r[k]; }
    }
    LargestIsLast(r, f, key);
  }

  lemma NextIs(level: seq<FileMeta>, r: seq<FileMeta>, f: FileMeta, key: InternalKey)
    requires IsLargestKey(r, key) && f in level && IsBoundary(f, key)
    requires FirstBoundary(level, f, key)
    ensures NextBoundary(level, r, f)
  {
  }

  lemma LargestIsLast(r: seq<FileMeta>, f: FileMeta, key: InternalKey)
    requires IsLargestKey(r, key) && IsBoundary(f, key) && f.Valid()
    ensures IsLargestKey(r + [f], f.largest)
  {
    SmallestFirst(f);
    assert (r + [f])[|r|].largest == f.largest;
  }

  lemma SmallestFirst(f: FileMeta)
    requires f.Valid()
    ensures NotAfter(f.smallest, f.largest)
  {
    assert |f.entries| > 1 ==> Before(f.entries[0].key, f.entries[|f.entries| - 1].key);
  }

  // ---- All inputs of a compaction ----

  ghost predicate IsSmallestKey(files: seq<FileMeta>, key: InternalKey) {
    && (exists i :: 0 <= i < |files| && files[i].smallest == key)
    && forall i :: 0 <= i < |files| ==> NotAfter(key, files[i].smallest)
  }

  method GetRange(inputs: seq<FileMeta>) returns (smallest: InternalKey, largest: InternalKey)
    requires inputs != []
    ensures IsSmallestKey(inputs, smallest) && IsLargestKey(inputs, largest)
  {
    smallest, largest := inputs[0].smallest, inputs[0].largest;
    ghost var p, q: nat := 0, 0;
    for i := 1 to |inputs|
      invariant p < i && inputs[p].smallest == smallest && forall j :: 0 <= j < i ==> NotAfter(smallest, inputs[j].smallest)
      invariant q < i && inputs[q].largest == largest && forall j :: 0 <= j < i ==> NotAfter(inputs[j].largest, largest)
    {
      if CompareInternal(inputs[i].smallest, smallest) < 0 {
        smallest, p := inputs[i].smallest, i;
      }
      if CompareInternal(inputs[i].largest, largest) > 0 {
        largest, q := inputs[i].largest, i;
      }
    }
  }

  /** One run of neighbours above level 0; at level 0 all files that touch a closed range. */
  ghost predicate Picked(level: nat, files: seq<FileMeta>, inputs: seq<FileMeta>) {
    && inputs != []
    && if level == 0 then exists r :: inputs == Selected(files, r) && Closed(files, r)
       else exists a, b :: 0 <= a < b <= |files| && inputs == files[a..b]
  }

  /** The files that overlap a range are neighbours in a sorted level. */
  lemma {:induction false} SelectedAreNeighbours(files: seq<FileMeta>, r: Range) returns (a: nat, b: nat)
    requires ValidFiles(files) && SortedLevel(files)
    ensures a <= b <= |files| && Selected(files, r) == files[a..b]
    ensures forall i :: 0 <= i < |files| ==> (Overlaps(files[i], r) <==> a <= i < b)
  {
    hide FileMeta.Valid, Overlaps, SortedLevel, ValidFiles;
    if files == [] {
      a, b := 0, 0;
    } else {
      var n := |files| - 1;
      RestIsSorted(files, n);
      a, b := SelectedAreNeighbours(files[..n], r);
      a, b := OneMoreNeighbour(files, n, r, a, b);
    }
  }

  lemma OneMoreNeighbour(files: seq<FileMeta>, n: nat, r: Range, a0: nat, b0: nat) returns (a: nat, b: nat)
    requires ValidFiles(files) && SortedLevel(files) && |files| == n + 1
    requires a0 <= b0 <= n && Selected(files[..n], r) == files[..n][a0..b0]
    requires forall i :: 0 <= i < n ==> (Overlaps(files[..n][i], r) <==> a0 <= i < b0)
    ensures a <= b <= |files| && Selected(files, r) == files[a..b]
    ensures forall i :: 0 <= i < |files| ==> (Overlaps(files[i], r) <==> a <= i < b)
  {
    hide FileMeta.Valid, Overlaps, SortedLevel, ValidFiles;
    assert forall i :: 0 <= i < n ==> files[..n][i] == files[i];
    assert files[..n][a0..b0] == files[a0..b0];
    a, b := a0, b0;
    if Overlaps(files[n], r) {
      if a0 < b0 {
        RunReaches(files, a0, b0, n, r);
        assert files[a0..n] + [files[n]] == files[a0..n + 1];
        b := n + 1;
      } else {
        a, b := n, n + 1;
      }
    }
  }

  lemma RestIsSorted(files: seq<FileMeta>, n: nat)
    requires ValidFiles(files) && SortedLevel(files) && n <= |files|
    ensures ValidFiles(files[..n]) && SortedLevel(files[..n])
  {
  }

  /** Nothing between two overlapping files misses the range. */
  lemma RunReaches(files: seq<FileMeta>, a: nat, b: nat, n: nat, r: Range)
    requires ValidFiles(files) && SortedLevel(files) && a < b <= n < |files|
    requires Overlaps(files[b - 1], r) && Overlaps(files[n], r) && (b < n ==> !Overlaps(files[b], r))
    ensures b == n
  {
    hide FileMeta.Valid;
    if b < n {
      Between(files, b - 1, b, n);
    }
  }

  lemma Between(files: seq<FileMeta>, i: nat, j: nat, k: nat)
    requires ValidFiles(files) && SortedLevel(files) && i < j < k < |files|
    ensures Rank(files[i].largest.user) <= Rank(files[j].smallest.user) <= Rank(files[j].largest.user) <= Rank(files[k].smallest.user)
  {
    SmallestFirst(files[j]);
    assert Before(files[i].largest, files[j].smallest) && Before(files[j].largest, files[k].smallest);
  }

  /** Boundary files extend a run by its next neighbours, and at level 0 there are none. */
  lemma {:induction false} AppendedKeepsPicked(level: nat, files: seq<FileMeta>, inputs: seq<FileMeta>, r: seq<FileMeta>, k: nat)
    requires ValidFiles(files) && (level > 0 ==> SortedLevel(files)) && Picked(level, files, inputs) && Appended(files, inputs, r)
    requires |inputs| <= k <= |r|
    ensures Picked(level, files, r[..k])
    decreases k
  {
    hide Picked, NextBoundary, FileMeta.Valid, SortedLevel;
    if k == |inputs| {
      assert r[..k] == inputs;
    } else {
      AppendedKeepsPicked(level, files, inputs, r, k - 1);
      assert NextBoundary(files, r[..k - 1], r[k - 1]);
      assert r[..k] == r[..k - 1] + [r[k - 1]];
      if level == 0 {
        NoBoundaryAtLevel0(files, r[..k - 1], r[k - 1]);
      } else {
        PickedAbove(level, files, r[..k - 1]);
        NextIsNeighbour(files, r[..k - 1], r[k - 1]);
        PickedAbove(level, files, r[..k]);
      }
    }
  }

  lemma PickedAbove(level: nat, files: seq<FileMeta>, inputs: seq<FileMeta>)
    requires level > 0
    ensures Picked(level, files, inputs) <==> Picked(1, files, inputs)
  {
  }

  lemma NoBoundaryAtLevel0(files: seq<FileMeta>, inputs: seq<FileMeta>, f: FileMeta)
    requires ValidFiles(files) && Picked(0, files, inputs)
    ensures !NextBoundary(files, inputs, f)
  {
    var r :| inputs == Selected(files, r) && Closed(files, r);
    forall key | IsLargestKey(inputs, key) && f in files
      ensures !IsBoundary(f, key)
    {
      var i :| 0 <= i < |inputs| && inputs[i].largest == key;
      SelectedMembers(files, r, inputs[i]);
      SelectedMembers(files, r, f);
      SmallestFirst(f);
      SmallestFirst(inputs[i]);
    }
  }

  lemma NextIsNeighbour(files: seq<FileMeta>, inputs: seq<FileMeta>, f: FileMeta)
    requires ValidFiles(files) && SortedLevel(files) && Picked(1, files, inputs) && NextBoundary(files, inputs, f)
    ensures Picked(1, files, inputs + [f])
  {
    hide FileMeta.Valid, FirstBoundary, IsLargestKey, SortedLevel;
    var a, b :| 0 <= a < b <= |files| && inputs == files[a..b];
    var key :| IsLargestKey(inputs, key) && IsBoundary(f, key) && FirstBoundary(files, f, key);
    LastIsLargest(files, a, b);
    LargestKeyIsOne(inputs, key, files[b - 1].largest);
    FirstIsNeighbour(files, b, f, key);
    assert files[a..b + 1] == files[a..b] + [files[b]];
  }

  lemma FirstIsNeighbour(files: seq<FileMeta>, b: nat, f: FileMeta, key: InternalKey)
    requires ValidFiles(files) && SortedLevel(files) && 1 <= b <= |files| && f in files
    requires IsBoundary(f, key) && FirstBoundary(files, f, key) && key.user == files[b - 1].largest.user
    requires !Before(key, files[b - 1].largest) && !Before(files[b - 1].largest, key)
    ensures b < |files| && f == files[b]
  {
    hide FileMeta.Valid;
    assert forall q :: 0 <= q < b - 1 ==> Before(files[q].largest, files[b - 1].smallest);
    assert forall q :: b < q < |files| ==> Before(files[b].largest, files[q].smallest);
    var i :| 0 <= i < |files| && files[i] == f;
    SmallestFirst(f);
    SmallestFirst(files[b - 1]);
    if i > b {
      Between(files, b - 1, b, i);
      SameRank(files[b].smallest.user, key.user);
      assert IsBoundary(files[b], key) && files[b] in files;
      SmallestFirst(files[b]);
    }
  }

  lemma LastIsLargest(files: seq<FileMeta>, a: nat, b: nat)
    requires ValidFiles(files) && SortedLevel(files) && a < b <= |files|
    ensures IsLargestKey(files[a..b], files[b - 1].largest)
  {
    assert files[a..b][b - 1 - a].largest == files[b - 1].largest;
    forall i | 0 <= i < b - a
      ensures NotAfter(files[a..b][i].largest, files[b - 1].largest)
    {
      SmallestFirst(files[b - 1]);
      assert a + i < b - 1 ==> Before(files[a + i].largest, files[b - 1].smallest);
    }
  }

  /** The files of the next level that overlap the range of `inputs`. */
  ghost predicate Following(next: seq<FileMeta>, inputs: seq<FileMeta>, following: seq<FileMeta>) {
    exists smallest, largest :: IsSmallestKey(inputs, smallest) && IsLargestKey(inputs, largest)
      && following == Selected(next, Range(Some(smallest.user), Some(largest.user)))
  }

  /** What SetupOtherInputs promises of the two input lists. */
  ghost predicate Chosen(v: Levels, level: nat, inputs0: seq<FileMeta>, inputs1: seq<FileMeta>)
    requires level + 1 < NUM_LEVELS
  {
    Picked(level, v[level], inputs0) && NoBoundary(v[level], inputs0) && Following(v[level + 1], inputs0, inputs1)
  }

  /** `done` is `files` with boundary files added until there are no more. */
  ghost predicate Completes(level: seq<FileMeta>, files: seq<FileMeta>, done: seq<FileMeta>) {
    Appended(level, files, done) && NoBoundary(level, done)
  }

  /** What the level would contribute if the inputs were everything that overlaps all of them. */
  ghost predicate Widened(level: nat, files: seq<FileMeta>, inputs: seq<FileMeta>, wide: seq<FileMeta>) {
    exists smallest, largest, r :: IsSmallestKey(inputs, smallest) && IsLargestKey(inputs, largest)
      && var wanted := Range(Some(smallest.user), Some(largest.user));
         && (if level > 0 then r == wanted else Wider(r, wanted) && Closed(files, r) && Least(files, wanted, r))
         && Completes(files, Selected(files, r), wide)
  }

  function TotalFileSize(files: seq<FileMeta>): nat {
    if files == [] then 0 else files[0].size + TotalFileSize(files[1..])
  }

  lemma {:induction false} TotalFileSizeAdds(files: seq<FileMeta>, more: seq<FileMeta>)
    ensures TotalFileSize(files + more) == TotalFileSize(files) + TotalFileSize(more)
    ensures |files| == 1 ==> TotalFileSize(files) == files[0].size
  {
    if files == [] {
      assert files + more == more;
    } else {
      TotalFileSizeAdds(files[1..], more);
      assert (files + more)[1..] == files[1..] + more;
    }
  }

  lemma SelectedValid(files: seq<FileMeta>, r: Range)
    requires ValidFiles(files)
    ensures ValidFiles(Selected(files, r))
  {
    forall i | 0 <= i < |Selected(files, r)|
      ensures Selected(files, r)[i].Valid()
    {
      SelectedMembers(files, r, Selected(files, r)[i]);
    }
  }

  lemma PickedValid(level: nat, files: seq<FileMeta>, inputs: seq<FileMeta>)
    requires ValidFiles(files) && Picked(level, files, inputs)
    ensures ValidFiles(inputs) && forall f :: f in inputs ==> f in files
  {
    hide FileMeta.Valid;
    if level == 0 {
      var r :| inputs == Selected(files, r) && Closed(files, r);
      SelectedValid(files, r);
      forall f | f in inputs
        ensures f in files
      {
        SelectedMembers(files, r, f);
      }
    }
  }

  /** An overlap selection that found something counts as picked. */
  lemma SelectedPicked(level: nat, files: seq<FileMeta>, r: Range)
    requires ValidFiles(files) && (level > 0 ==> SortedLevel(files)) && (level == 0 ==> Closed(files, r))
    requires Selected(files, r) != []
    ensures Picked(level, files, Selected(files, r))
  {
    hide FileMeta.Valid, Selected, SortedLevel;
    if level > 0 {
      var a, b := SelectedAreNeighbours(files, r);
    }
  }

  /** A range of file ends overlaps each of those files. */
  lemma RangeCovers(files: seq<FileMeta>, smallest: InternalKey, largest: InternalKey, f: FileMeta, r: Range)
    requires IsSmallestKey(files, smallest) && IsLargestKey(files, largest) && f in files && f.Valid()
    requires Wider(r, Range(Some(smallest.user), Some(largest.user)))
    ensures Overlaps(f, r)
  {
    SmallestFirst(f);
  }

  /** The range of file ends determines the files that follow. */
  lemma FollowingIsOne(next: seq<FileMeta>, inputs: seq<FileMeta>, a: seq<FileMeta>, smallest: InternalKey, largest: InternalKey)
    requires IsSmallestKey(inputs, smallest) && IsLargestKey(inputs, largest)
    ensures Following(next, inputs, a) <==> a == Selected(next, Range(Some(smallest.user), Some(largest.user)))
  {
    hide Selected, IsLargestKey;
    forall x, y | IsSmallestKey(inputs, x) && IsLargestKey(inputs, y)
      ensures x.user == smallest.user && y.user == largest.user
    {
      LargestKeyIsOne(inputs, y, largest);
      SameRank(x.user, smallest.user);
    }
  }

  /** A wider range that selects as many files of a sorted level selects the same ones. */
  lemma SameCount(files: seq<FileMeta>, r: Range, s: Range)
    requires ValidFiles(files) && SortedLevel(files) && Wider(s, r)
    ensures |Selected(files, s)| == |Selected(files, r)| <==> Selected(files, s) == Selected(files, r)
  {
    hide Selected, SortedLevel, FileMeta.Valid;
    var a, b := SelectedAreNeighbours(files, r);
    var c, d := SelectedAreNeighbours(files, s);
    assert forall i :: 0 <= i < |files| && Overlaps(files[i], r) ==> Overlaps(files[i], s);
    if a < b {
      assert Overlaps(files[a], s) && Overlaps(files[b - 1], s);
    }
  }

  /** The range of more files is wider. */
  lemma MoreFilesWider(files: seq<FileMeta>, more: seq<FileMeta>, smallest: InternalKey, largest: InternalKey, newSmallest: InternalKey, newLargest: InternalKey)
    requires forall f :: f in files ==> f in more
    requires IsSmallestKey(files, smallest) && IsLargestKey(files, largest) && IsSmallestKey(more, newSmallest) && IsLargestKey(more, newLargest)
    ensures Wider(Range(Some(newSmallest.user), Some(newLargest.user)), Range(Some(smallest.user), Some(largest.user)))
  {
    var i :| 0 <= i < |files| && files[i].smallest == smallest;
    var j :| 0 <= j < |files| && files[j].largest == largest;
    assert files[i] in more && files[j] in more;
  }

  /**
   SetupOtherInputs: completes the picked files, and grows them when that stays within a size
   limit and brings in no further file of the next level.
   */
  method SetupOtherInputs(v: Levels, level: nat, picked: seq<FileMeta>, limit: nat)
    returns (inputs0: seq<FileMeta>, inputs1: seq<FileMeta>, ghost base: seq<FileMeta>, ghost wide: seq<FileMeta>)
    requires ValidLevels(v) && level + 1 < NUM_LEVELS && Picked(level, v[level], picked)
    ensures Chosen(v, level, inputs0, inputs1)
    ensures forall f :: f in picked ==> f in inputs0
    ensures Completes(v[level], picked, base) && Following(v[level + 1], base, inputs1)
    ensures inputs1 != [] ==> Widened(level, v[level], base + inputs1, wide)
    ensures inputs0 == if inputs1 != [] && |wide| > |base| && TotalFileSize(inputs1) + TotalFileSize(wide) < limit && Following(v[level + 1], wide, inputs1)
                       then wide else base
  {
    hide Picked, NoBoundary, Appended, Selected, FileMeta.Valid, Closed, Least, Wider, IsSmallestKey, IsLargestKey, SortedLevel, TotalFileSize, Following;
    var files, next := v[level], v[level + 1];
    PickedValid(level, files, picked);
    inputs0 := AddBoundaryInputs(files, picked);
    Completed(level, files, picked, inputs0);
    base, wide := inputs0, [];
    var smallest, largest := GetRange(inputs0);
    ghost var r1, r, r2;
    inputs1, r1 := GetOverlappingInputs(level + 1, next, Some(smallest.user), Some(largest.user));
    FollowingIsOne(next, base, inputs1, smallest, largest);
    if inputs1 != [] {
      var allStart, allLimit := GetRange(inputs0 + inputs1);
      var expanded0;
      expanded0, r := GetOverlappingInputs(level, files, Some(allStart.user), Some(allLimit.user));
      SelectedValid(files, r);
      Covered(level, files, inputs0, inputs1, allStart, allLimit, r);
      ghost var was := expanded0;
      expanded0 := AddBoundaryInputs(files, expanded0);
      Completed(level, files, was, expanded0);
      wide := expanded0;
      assert Widened(level, files, base + inputs1, wide);
      if |expanded0| > |inputs0| && TotalFileSize(inputs1) + TotalFileSize(expanded0) < limit {
        var newStart, newLimit := GetRange(expanded0);
        var expanded1;
        expanded1, r2 := GetOverlappingInputs(level + 1, next, Some(newStart.user), Some(newLimit.user));
        MoreFilesWider(base, wide, smallest, largest, newStart, newLimit);
        SameCount(next, r1, r2);
        FollowingIsOne(next, wide, inputs1, newStart, newLimit);
        if |expanded1| == |inputs1| {
          inputs0, inputs1 := expanded0, expanded1;
        }
      }
    }
  }

  lemma Completed(level: nat, files: seq<FileMeta>, picked: seq<FileMeta>, inputs: seq<FileMeta>)
    requires ValidFiles(files) && (level > 0 ==> SortedLevel(files)) && Picked(level, files, picked) && Appended(files, picked, inputs)
    ensures Picked(level, files, inputs) && inputs != [] && ValidFiles(inputs) && forall f :: f in picked ==> f in inputs
  {
    AppendedKeepsPicked(level, files, picked, inputs, |inputs|);
    assert inputs[..|inputs|] == inputs;
    PickedValid(level, files, inputs);
  }

  lemma Covered(level: nat, files: seq<FileMeta>, inputs0: seq<FileMeta>, inputs1: seq<FileMeta>, smallest: InternalKey, largest: InternalKey, r: Range)
    requires ValidFiles(files) && (level > 0 ==> SortedLevel(files)) && Picked(level, files, inputs0)
    requires IsSmallestKey(inputs0 + inputs1, smallest) && IsLargestKey(inputs0 + inputs1, largest)
    requires Wider(r, Range(Some(smallest.user), Some(largest.user))) && (level == 0 ==> Closed(files, r))
    ensures Picked(level, files, Selected(files, r)) && forall f :: f in inputs0 ==> f in Selected(files, r)
  {
    hide Picked, FileMeta.Valid, Selected, Wider, IsSmallestKey, IsLargestKey;
    PickedValid(level, files, inputs0);
    forall f | f in inputs0
      ensures f in Selected(files, r)
    {
      assert f in inputs0 + inputs1;
      RangeCovers(inputs0 + inputs1, smallest, largest, f, r);
      SelectedMembers(files, r, f);
    }
    NonEmpty(level, files, inputs0);
    assert inputs0[0] in inputs0;
    SelectedPicked(level, files, r);
  }

  lemma NonEmpty(level: nat, files: seq<FileMeta>, inputs: seq<FileMeta>)
    requires Picked(level, files, inputs)
    ensures inputs != []
  {
  }

  // ---- The inputs are admissible ----

  /** A file left behind at a picked level shares no user key with the inputs, or holds newer versions only. */
  lemma LeftBehind(level: nat, files: seq<FileMeta>, inputs: seq<FileMeta>, g: FileMeta, o: Entry, h: FileMeta, e: Entry)
    requires ValidFiles(files) && (level > 0 ==> SortedLevel(files)) && Picked(level, files, inputs)
    requires g in files && g !in inputs && h in inputs && o in g.entries && e in h.entries && o.key.user == e.key.user
    ensures level > 0
    ensures Before(o.key, e.key) || exists key :: IsLargestKey(inputs, key) && IsBoundary(g, key) && key.user == o.key.user
  {
    hide Picked, FileMeta.Valid, SortedLevel, IsLargestKey;
    EntryCoveredIn(files, g, o);
    PickedValid(level, files, inputs);
    EntryCoveredIn(files, h, e);
    if level == 0 {
      AllSharersPicked(files, inputs, g, h, o.key.user);
    } else {
      PickedAbove(level, files, inputs);
      var i, j, b := Indices(files, inputs, g, h);
      Apart(files, i, j, b, o, e);
    }
  }

  lemma EntryCoveredIn(files: seq<FileMeta>, f: FileMeta, e: Entry)
    requires ValidFiles(files) && f in files && e in f.entries
    ensures f.Covers(e.key.user) && NotAfter(f.smallest, e.key) && NotAfter(e.key, f.largest)
  {
    hide FileMeta.Valid;
    EntryCovered(f, e);
  }

  lemma AllSharersPicked(files: seq<FileMeta>, inputs: seq<FileMeta>, g: FileMeta, h: FileMeta, u: UserKey)
    requires Picked(0, files, inputs) && g in files && h in inputs && g.Covers(u) && h.Covers(u)
    ensures g in inputs
  {
    hide Selected;
    var r :| inputs == Selected(files, r) && Closed(files, r);
    SelectedMembers(files, r, g);
    SelectedMembers(files, r, h);
  }

  lemma Indices(files: seq<FileMeta>, inputs: seq<FileMeta>, g: FileMeta, h: FileMeta) returns (i: nat, j: nat, b: nat)
    requires ValidFiles(files) && SortedLevel(files) && Picked(1, files, inputs) && g in files && g !in inputs && h in inputs
    ensures i < |files| && j < b <= |files| && (i < j || i >= b) && files[i] == g && files[j] == h
    ensures IsLargestKey(inputs, files[b - 1].largest)
  {
    hide FileMeta.Valid, SortedLevel, IsLargestKey, ValidFiles;
    var a;
    a, b :| 0 <= a < b <= |files| && inputs == files[a..b];
    RunMembers(files, a, b);
    i :| 0 <= i < |files| && files[i] == g;
    j :| a <= j < b && files[j] == h;
    LastIsLargest(files, a, b);
  }

  lemma RunMembers(files: seq<FileMeta>, a: nat, b: nat)
    requires a <= b <= |files|
    ensures forall q :: a <= q < b ==> files[q] in files[a..b]
    ensures forall f :: f in files[a..b] ==> exists q :: a <= q < b && files[q] == f
  {
    forall q | a <= q < b
      ensures files[q] in files[a..b]
    {
      assert files[a..b][q - a] == files[q];
    }
    forall f | f in files[a..b]
      ensures exists q :: a <= q < b && files[q] == f
    {
      var p :| 0 <= p < b - a && files[a..b][p] == f;
      assert files[a + p] == f;
    }
  }

  lemma Apart(files: seq<FileMeta>, i: nat, j: nat, b: nat, o: Entry, e: Entry)
    requires ValidFiles(files) && SortedLevel(files) && i < |files| && j < b <= |files| && (i < j || i >= b)
    requires NotAfter(files[i].smallest, o.key) && NotAfter(o.key, files[i].largest)
    requires NotAfter(files[j].smallest, e.key) && NotAfter(e.key, files[j].largest)
    requires o.key.user == e.key.user
    ensures Before(o.key, e.key) || (IsBoundary(files[i], files[b - 1].largest) && files[b - 1].largest.user == o.key.user)
  {
    hide FileMeta.Valid;
    assert i < j ==> Before(files[i].largest, files[j].smallest);
    SmallestFirst(files[b - 1]);
    assert j < b - 1 ==> Before(files[j].largest, files[b - 1].smallest);
    assert i >= b ==> Before(files[b - 1].largest, files[i].smallest);
    SameRank(files[i].smallest.user, files[b - 1].largest.user);
    SameRank(o.key.user, files[b - 1].largest.user);
  }

  /** Every file of the next level that shares a user key with the first inputs is among the second. */
  lemma SharedIsSelected(v: Levels, level: nat, inputs0: seq<FileMeta>, inputs1: seq<FileMeta>, g: FileMeta, o: Entry, h: FileMeta, e: Entry)
    requires ValidLevels(v) && level + 1 < NUM_LEVELS && Chosen(v, level, inputs0, inputs1)
    requires g in v[level + 1] && h in inputs0 && h.Valid() && o in g.entries && e in h.entries && o.key.user == e.key.user
    ensures g in inputs1
  {
    hide Picked, NoBoundary, FileMeta.Valid, Selected, SortedLevel;
    var smallest, largest :| IsSmallestKey(inputs0, smallest) && IsLargestKey(inputs0, largest)
      && inputs1 == Selected(v[level + 1], Range(Some(smallest.user), Some(largest.user)));
    EntryCovered(g, o);
    EntryCovered(h, e);
    SelectedMembers(v[level + 1], Range(Some(smallest.user), Some(largest.user)), g);
  }

  /** The tag orders versions of one user key by sequence number. */
  lemma EarlierIsNewer(es: set<Entry>, o: Entry, e: Entry)
    requires DistinctVersions(es) && o in es && e in es && o.key.user == e.key.user
    ensures Before(o.key, e.key) ==> o.key.seqno > e.key.seqno
  {
  }

  ghost function Outside(mem: seq<Entry>, imm: seq<Entry>, v: Levels, inputs0: seq<FileMeta>, inputs1: seq<FileMeta>): set<Entry> {
    AllEntries(mem, imm, v) - FileEntries(inputs0) - FileEntries(inputs1)
  }

  /** Wherever the next level goes on with the user key its inputs end in, a deeper file may hold that key. */
  ghost predicate BoundaryBacked(v: Levels, level: nat, inputs1: seq<FileMeta>)
    requires level + 1 < NUM_LEVELS
  {
    forall key, f :: IsLargestKey(inputs1, key) && f in v[level + 1] && IsBoundary(f, key) ==> !IsBase(v, level, key.user)
  }

  /** With nothing deeper, an untouched older version lies in a boundary file of the next level. */
  lemma OlderIsBehind(v: Levels, level: nat, inputs0: seq<FileMeta>, inputs1: seq<FileMeta>, o: Entry, l: nat, e: Entry)
    returns (g: FileMeta, key: InternalKey)
    requires ValidLevels(v) && LayeredLevels(v) && level + 1 < NUM_LEVELS && Chosen(v, level, inputs0, inputs1)
    requires DistinctVersions(AllFiles(v, NUM_LEVELS))
    requires l < NUM_LEVELS && o in FileEntries(v[l]) && o !in FileEntries(inputs0) && o !in FileEntries(inputs1)
    requires e in FileEntries(inputs0) || e in FileEntries(inputs1)
    requires o.key.user == e.key.user && o.key.seqno < e.key.seqno
    requires IsBase(v, level, o.key.user)
    ensures g in v[level + 1] && o in g.entries && IsLargestKey(inputs1, key) && IsBoundary(g, key) && key.user == o.key.user
  {
    hide Picked, NoBoundary, FileMeta.Valid, Selected, SortedLevel, IsLargestKey, IsSmallestKey, DistinctVersions, Level0Ordered;
    InputsWithin(v, level, inputs0, inputs1);
    var i, o' :| 0 <= i < |v[l]| && o' in v[l][i].entries && o' == o;
    g := v[l][i];
    InAllFiles(v, NUM_LEVELS, o);
    InAllFiles(v, NUM_LEVELS, e);
    EarlierIsNewer(AllFiles(v, NUM_LEVELS), o, e);
    if l == level { NotBoundary(v[level], inputs0, g); }
    if l >= level + 2 { EntryCovered(g, o); }
    if l == level + 1 && e in FileEntries(inputs0) {
      var j, e' :| 0 <= j < |inputs0| && e' in inputs0[j].entries && e' == e;
      SharedIsSelected(v, level, inputs0, inputs1, g, o, inputs0[j], e);
    }
    if l == level && e in FileEntries(inputs0) {
      var j, e' :| 0 <= j < |inputs0| && e' in inputs0[j].entries && e' == e;
      LeftBehind(level, v[level], inputs0, g, o, inputs0[j], e);
    }
    assert l == level + 1 && e in FileEntries(inputs1);
    var j, e' :| 0 <= j < |inputs1| && e' in inputs1[j].entries && e' == e;
    NextPicked(v, level, inputs0, inputs1);
    LeftBehind(level + 1, v[level + 1], inputs1, g, o, inputs1[j], e);
    key :| IsLargestKey(inputs1, key) && IsBoundary(g, key) && key.user == o.key.user;
  }

  /** An untouched older version lies in a deeper level, if boundaries are backed. */
  lemma OlderIsDeeper(v: Levels, level: nat, inputs0: seq<FileMeta>, inputs1: seq<FileMeta>, o: Entry, l: nat, e: Entry)
    requires ValidLevels(v) && LayeredLevels(v) && level + 1 < NUM_LEVELS && Chosen(v, level, inputs0, inputs1)
    requires DistinctVersions(AllFiles(v, NUM_LEVELS)) && BoundaryBacked(v, level, inputs1)
    requires l < NUM_LEVELS && o in FileEntries(v[l]) && o !in FileEntries(inputs0) && o !in FileEntries(inputs1)
    requires e in FileEntries(inputs0) || e in FileEntries(inputs1)
    requires o.key.user == e.key.user && o.key.seqno < e.key.seqno
    ensures !IsBase(v, level, o.key.user)
  {
    hide Chosen, IsBase, DistinctVersions, IsLargestKey;
    if IsBase(v, level, o.key.user) {
      var _, _ := OlderIsBehind(v, level, inputs0, inputs1, o, l, e);
    }
  }

  lemma NotBoundary(files: seq<FileMeta>, inputs: seq<FileMeta>, g: FileMeta)
    requires NoBoundary(files, inputs) && g in files
    ensures forall key :: IsLargestKey(inputs, key) ==> !IsBoundary(g, key)
  {
  }

  lemma InputsWithin(v: Levels, level: nat, inputs0: seq<FileMeta>, inputs1: seq<FileMeta>)
    requires ValidLevels(v) && level + 1 < NUM_LEVELS && Chosen(v, level, inputs0, inputs1)
    ensures ValidFiles(inputs0) && ValidFiles(inputs1)
    ensures FileEntries(inputs0) <= FileEntries(v[level]) && FileEntries(inputs1) <= FileEntries(v[level + 1])
  {
    hide Picked, NoBoundary, FileMeta.Valid, Selected, SortedLevel, IsLargestKey, IsSmallestKey, Overlaps;
    PickedValid(level, v[level], inputs0);
    MembersWithin(inputs0, v[level]);
    var smallest, largest :| IsSmallestKey(inputs0, smallest) && IsLargestKey(inputs0, largest)
      && inputs1 == Selected(v[level + 1], Range(Some(smallest.user), Some(largest.user)));
    var r := Range(Some(smallest.user), Some(largest.user));
    SelectedValid(v[level + 1], r);
    forall f | f in inputs1
      ensures f in v[level + 1]
    {
      SelectedMembers(v[level + 1], r, f);
    }
    MembersWithin(inputs1, v[level + 1]);
  }

  lemma MembersWithin(inputs: seq<FileMeta>, files: seq<FileMeta>)
    requires forall f :: f in inputs ==> f in files
    ensures FileEntries(inputs) <= FileEntries(files)
  {
    forall e | e in FileEntries(inputs)
      ensures e in FileEntries(files)
    {
      var i, e' :| 0 <= i < |inputs| && e' in inputs[i].entries && e' == e;
      assert inputs[i] in inputs;
      var j :| 0 <= j < |files| && files[j] == inputs[i];
      assert e in files[j].entries;
    }
  }

  lemma NextPicked(v: Levels, level: nat, inputs0: seq<FileMeta>, inputs1: seq<FileMeta>)
    requires ValidLevels(v) && level + 1 < NUM_LEVELS && Chosen(v, level, inputs0, inputs1) && inputs1 != []
    ensures Picked(level + 1, v[level + 1], inputs1)
  {
    hide Picked, NoBoundary, FileMeta.Valid, Selected, SortedLevel, IsLargestKey, IsSmallestKey, Overlaps;
    var smallest, largest :| IsSmallestKey(inputs0, smallest) && IsLargestKey(inputs0, largest)
      && inputs1 == Selected(v[level + 1], Range(Some(smallest.user), Some(largest.user)));
    SelectedPicked(level + 1, v[level + 1], Range(Some(smallest.user), Some(largest.user)));
  }

  lemma OutsideIs(mem: seq<Entry>, imm: seq<Entry>, v: Levels, level: nat, inputs0: seq<FileMeta>, inputs1: seq<FileMeta>)
    requires ValidLevels(v) && level + 1 < NUM_LEVELS && Chosen(v, level, inputs0, inputs1)
    ensures FileEntries(inputs0) + FileEntries(inputs1) <= AllFiles(v, NUM_LEVELS) <= AllEntries(mem, imm, v)
  {
    hide Chosen, FileEntries;
    InputsWithin(v, level, inputs0, inputs1);
    forall e | e in FileEntries(inputs0) + FileEntries(inputs1)
      ensures e in AllFiles(v, NUM_LEVELS)
    {
      InAllFiles(v, NUM_LEVELS, e);
    }
  }

  /** Half of the main result: backed boundaries make the inputs admissible. */
  lemma ChosenIsAdmissible(mem: seq<Entry>, imm: seq<Entry>, v: Levels, level: nat, inputs0: seq<FileMeta>, inputs1: seq<FileMeta>, input: seq<Entry>)
    requires ValidLevels(v) && Layered(mem, imm, v) && DistinctVersions(AllEntries(mem, imm, v)) && level + 1 < NUM_LEVELS
    requires Chosen(v, level, inputs0, inputs1) && Elements(input) == FileEntries(inputs0) + FileEntries(inputs1)
    requires BoundaryBacked(v, level, inputs1)
    ensures Admissible(input, Outside(mem, imm, v, inputs0, inputs1), v, level)
  {
    hide Chosen, FileEntries, BoundaryBacked, AllFiles, ValidLevels, LayeredLevels, IsBase;
    var outside := Outside(mem, imm, v, inputs0, inputs1);
    OutsideIs(mem, imm, v, level, inputs0, inputs1);
    forall o, e | o in outside && e in input && o.key.user == e.key.user && o.key.seqno < e.key.seqno
      ensures !IsBase(v, level, o.key.user)
    {
      assert e in Elements(input);
      assert o in AllFiles(v, NUM_LEVELS);
      InAllFiles(v, NUM_LEVELS, o);
      var l :| 0 <= l < NUM_LEVELS && o in FileEntries(v[l]);
      OlderIsDeeper(v, level, inputs0, inputs1, o, l, e);
    }
  }

  /** The other half: a boundary file with nothing deeper holds an older version that IsBaseLevelForKey overlooks. */
  lemma BoundaryMatters(mem: seq<Entry>, imm: seq<Entry>, v: Levels, level: nat, inputs0: seq<FileMeta>, inputs1: seq<FileMeta>, input: seq<Entry>,
                        key: InternalKey, f: FileMeta)
    requires ValidLevels(v) && Layered(mem, imm, v) && DistinctVersions(AllEntries(mem, imm, v)) && level + 1 < NUM_LEVELS
    requires Chosen(v, level, inputs0, inputs1) && Elements(input) == FileEntries(inputs0) + FileEntries(inputs1)
    requires IsLargestKey(inputs1, key) && f in v[level + 1] && IsBoundary(f, key) && IsBase(v, level, key.user)
    ensures !Admissible(input, Outside(mem, imm, v, inputs0, inputs1), v, level)
  {
    hide Chosen, BoundaryBacked, AllFiles, LayeredLevels, IsBase;
    OutsideIs(mem, imm, v, level, inputs0, inputs1);
    InputsWithin(v, level, inputs0, inputs1);
    var i :| 0 <= i < |inputs1| && inputs1[i].largest == key;
    var last := inputs1[i].entries[|inputs1[i].entries| - 1];
    var first := f.entries[0];
    assert last in inputs1[i].entries && last in FileEntries(inputs1) && last in Elements(input);
    FirstOutside(mem, imm, v, level, inputs0, inputs1, key, f);
    EarlierIsNewer(AllEntries(mem, imm, v), last, first);
  }

  lemma FirstOutside(mem: seq<Entry>, imm: seq<Entry>, v: Levels, level: nat, inputs0: seq<FileMeta>, inputs1: seq<FileMeta>, key: InternalKey, f: FileMeta)
    requires ValidLevels(v) && Layered(mem, imm, v) && level + 1 < NUM_LEVELS && Chosen(v, level, inputs0, inputs1)
    requires IsLargestKey(inputs1, key) && f in v[level + 1] && IsBoundary(f, key)
    ensures f.Valid() && f.entries[0] in Outside(mem, imm, v, inputs0, inputs1)
  {
    hide Chosen, AllFiles, Level0Ordered;
    InputsWithin(v, level, inputs0, inputs1);
    var first := f.entries[0];
    var j :| 0 <= j < |v[level + 1]| && v[level + 1][j] == f;
    assert first in FileEntries(v[level + 1]) by { assert first in v[level + 1][j].entries; }
    InAllFiles(v, NUM_LEVELS, first);
    assert first !in FileEntries(inputs1) by {
      forall i | 0 <= i < |inputs1|
        ensures first !in inputs1[i].entries
      {
        if first in inputs1[i].entries { EntryCovered(inputs1[i], first); }
      }
    }
    assert NewerThan(FileEntries(v[level]), FileEntries(v[level + 1]));
    assert first !in FileEntries(inputs0);
  }

  /**
   The picked inputs meet the compaction's hypothesis exactly when each user key that the
   next level's inputs end in, and that level goes on with, may also live deeper. The
   second input list is never extended by boundary files, so this can fail.
   */
  lemma ChosenIsAdmissibleIff(mem: seq<Entry>, imm: seq<Entry>, v: Levels, level: nat, inputs0: seq<FileMeta>, inputs1: seq<FileMeta>, input: seq<Entry>)
    requires ValidLevels(v) && Layered(mem, imm, v) && DistinctVersions(AllEntries(mem, imm, v)) && level + 1 < NUM_LEVELS
    requires Chosen(v, level, inputs0, inputs1) && Elements(input) == FileEntries(inputs0) + FileEntries(inputs1)
    ensures Admissible(input, Outside(mem, imm, v, inputs0, inputs1), v, level) <==> BoundaryBacked(v, level, inputs1)
  {
    hide Chosen, Layered, Admissible, DistinctVersions, ValidLevels, FileEntries, Outside;
    if BoundaryBacked(v, level, inputs1) {
      ChosenIsAdmissible(mem, imm, v, level, inputs0, inputs1, input);
    } else {
      var key, f :| IsLargestKey(inputs1, key) && f in v[level + 1] && IsBoundary(f, key) && IsBase(v, level, key.user);
      BoundaryMatters(mem, imm, v, level, inputs0, inputs1, input, key, f);
    }
  }

  /** From choosing the inputs to dropping records: a compaction with backed boundaries changes no answer. */
  lemma ChosenCompactionInvisible(mem: seq<Entry>, imm: seq<Entry>, v: Levels, level: nat, inputs0: seq<FileMeta>, inputs1: seq<FileMeta>,
                                  input: seq<Entry>, smallest: SeqNo, u: UserKey, s: SeqNo)
    requires ValidLevels(v) && Layered(mem, imm, v) && DistinctVersions(AllEntries(mem, imm, v)) && level + 1 < NUM_LEVELS
    requires Chosen(v, level, inputs0, inputs1)
    requires Sorted(input) && Elements(input) == FileEntries(inputs0) + FileEntries(inputs1)
    requires BoundaryBacked(v, level, inputs1)
    requires smallest < MAX_SEQUENCE && smallest <= s
    requires forall e :: e in input && e.key.user == u ==> e.Parses()
    ensures Read(Elements(Kept(input, |input|, smallest, v, level)) + Outside(mem, imm, v, inputs0, inputs1), u, s)
         == Read(AllEntries(mem, imm, v), u, s)
  {
    hide Chosen, FileEntries, BoundaryBacked, AllFiles, ValidLevels, Layered, DistinctVersions, Admissible, Kept, ValueUnderReset, Sorted, Read, AllEntries;
    OutsideIs(mem, imm, v, level, inputs0, inputs1);
    ChosenIsAdmissible(mem, imm, v, level, inputs0, inputs1, input);
    ParsedKeysNeverResurrect(input, smallest, v, level, u);
    CompactionInvisible(input, Outside(mem, imm, v, inputs0, inputs1), smallest, v, level, u, s);
    assert Elements(input) + Outside(mem, imm, v, inputs0, inputs1) == AllEntries(mem, imm, v);
  }

  // ---- What readers see ----

  /** Of the files that go on after `key`, one comes first. */
  lemma FirstBoundaryExists(files: seq<FileMeta>, g: FileMeta, key: InternalKey) returns (f: FileMeta)
    requires g in files && IsBoundary(g, key)
    ensures f in files && IsBoundary(f, key) && FirstBoundary(files, f, key)
  {
    f := g;
    for i := 0 to |files|
      invariant f in files && IsBoundary(f, key)
      invariant forall j :: 0 <= j < i && IsBoundary(files[j], key) ==> NotAfter(f.smallest, files[j].smallest)
    {
      if IsBoundary(files[i], key) && Before(files[i].smallest, f.smallest) {
        f := files[i];
      }
    }
  }

  /** The store around a compaction of chosen inputs. */
  ghost predicate Surrounded(mem: seq<Entry>, imm: seq<Entry>, v: Levels, level: nat, inputs0: seq<FileMeta>, inputs1: seq<FileMeta>) {
    && ValidLevels(v) && Layered(mem, imm, v) && DistinctVersions(AllEntries(mem, imm, v))
    && level + 1 < NUM_LEVELS && Chosen(v, level, inputs0, inputs1)
  }

  /** What is left outside under an input version of a key with nothing deeper begins with the first boundary file. */
  lemma LeftOutside(mem: seq<Entry>, imm: seq<Entry>, v: Levels, level: nat, inputs0: seq<FileMeta>, inputs1: seq<FileMeta>, e: Entry, o: Entry)
    returns (f: FileMeta)
    requires Surrounded(mem, imm, v, level, inputs0, inputs1)
    requires e in FileEntries(inputs0) + FileEntries(inputs1) && IsBase(v, level, e.key.user)
    requires o in Outside(mem, imm, v, inputs0, inputs1) && o.key.user == e.key.user && o.key.seqno < e.key.seqno
    ensures NextBoundary(v[level + 1], inputs1, f) && f.smallest.user == e.key.user && NotAfter(f.smallest, o.key)
  {
    hide Chosen, IsBase, FileEntries, ValidLevels, LayeredLevels, IsLargestKey;
    OutsideIs(mem, imm, v, level, inputs0, inputs1);
    assert o in AllFiles(v, NUM_LEVELS);
    InAllFiles(v, NUM_LEVELS, o);
    var l :| 0 <= l < NUM_LEVELS && o in FileEntries(v[l]);
    FilesDistinct(mem, imm, v);
    var g, key := OlderIsBehind(v, level, inputs0, inputs1, o, l, e);
    f := FirstBoundaryExists(v[level + 1], g, key);
    LevelEntryCovered(v, level + 1, g, o);
  }

  lemma LevelEntryCovered(v: Levels, l: nat, g: FileMeta, o: Entry)
    requires ValidLevels(v) && l < NUM_LEVELS && g in v[l] && o in g.entries
    ensures NotAfter(g.smallest, o.key)
  {
    EntryCovered(g, o);
  }

  lemma FilesDistinct(mem: seq<Entry>, imm: seq<Entry>, v: Levels)
    requires DistinctVersions(AllEntries(mem, imm, v))
    ensures DistinctVersions(AllFiles(v, NUM_LEVELS))
  {
  }

  /** The first entry of the first boundary file is outside, and older than any input version of its user key. */
  lemma FirstIsOlder(mem: seq<Entry>, imm: seq<Entry>, v: Levels, level: nat, inputs0: seq<FileMeta>, inputs1: seq<FileMeta>, e: Entry, f: FileMeta)
    requires Surrounded(mem, imm, v, level, inputs0, inputs1)
    requires e in FileEntries(inputs0) + FileEntries(inputs1)
    requires NextBoundary(v[level + 1], inputs1, f) && f.smallest.user == e.key.user
    ensures f.Valid() && f.smallest == f.entries[0].key && f.entries[0] in Outside(mem, imm, v, inputs0, inputs1)
    ensures f.entries[0].key.seqno < e.key.seqno
  {
    hide Chosen, AllFiles, ValidLevels, FileMeta.Valid, Level0Ordered;
    var key :| IsLargestKey(inputs1, key) && IsBoundary(f, key);
    FirstOutside(mem, imm, v, level, inputs0, inputs1, key, f);
    FirstEntry(f);
    InputsWithin(v, level, inputs0, inputs1);
    OutsideIs(mem, imm, v, level, inputs0, inputs1);
    var j :| 0 <= j < |v[level + 1]| && v[level + 1][j] == f;
    assert f.entries[0] in v[level + 1][j].entries;
    assert f.entries[0] in FileEntries(v[level + 1]);
    if e in FileEntries(inputs1) {
      var i, e' :| 0 <= i < |inputs1| && e' in inputs1[i].entries && e' == e;
      EntryCovered(inputs1[i], e);
      EarlierIsNewer(AllEntries(mem, imm, v), e, f.entries[0]);
    } else {
      assert NewerThan(FileEntries(v[level]), FileEntries(v[level + 1]));
    }
  }

  lemma FirstEntry(f: FileMeta)
    requires f.Valid()
    ensures f.entries != [] && f.smallest == f.entries[0].key
  {
  }

  /** A reader to whom the compaction leaves only the outside sees nothing without a boundary file. */
  lemma NothingOutside(mem: seq<Entry>, imm: seq<Entry>, v: Levels, level: nat, inputs0: seq<FileMeta>, inputs1: seq<FileMeta>, e: Entry, s: SeqNo)
    requires Surrounded(mem, imm, v, level, inputs0, inputs1)
    requires e in FileEntries(inputs0) + FileEntries(inputs1) && IsBase(v, level, e.key.user)
    requires Newest(AllEntries(mem, imm, v), e.key.user, s, e)
    requires forall f :: NextBoundary(v[level + 1], inputs1, f) ==> f.smallest.user != e.key.user
    ensures Read(Outside(mem, imm, v, inputs0, inputs1), e.key.user, s) == None
  {
    hide Chosen, IsBase, FileEntries, ValidLevels, Layered, NextBoundary, AllEntries;
    var outside := Outside(mem, imm, v, inputs0, inputs1);
    forall o
      ensures !Visible(outside, e.key.user, s, o)
    {
      if Visible(outside, e.key.user, s, o) {
        assert Visible(AllEntries(mem, imm, v), e.key.user, s, o);
        var f := LeftOutside(mem, imm, v, level, inputs0, inputs1, e, o);
      }
    }
  }

  /** With a boundary file, that reader sees the first version in it. */
  lemma FirstSeen(mem: seq<Entry>, imm: seq<Entry>, v: Levels, level: nat, inputs0: seq<FileMeta>, inputs1: seq<FileMeta>, e: Entry, s: SeqNo, f: FileMeta)
    requires Surrounded(mem, imm, v, level, inputs0, inputs1)
    requires e in FileEntries(inputs0) + FileEntries(inputs1) && IsBase(v, level, e.key.user)
    requires Newest(AllEntries(mem, imm, v), e.key.user, s, e)
    requires forall o :: o in AllEntries(mem, imm, v) && o.key.user == e.key.user ==> o.Parses()
    requires NextBoundary(v[level + 1], inputs1, f) && f.smallest.user == e.key.user
    ensures f.entries != [] && f.smallest == f.entries[0].key && f.entries[0].Parses()
    ensures Read(Outside(mem, imm, v, inputs0, inputs1), e.key.user, s) == Answer(f.entries[0])
  {
    hide Chosen, IsBase, FileEntries, ValidLevels, Layered, IsLargestKey, AllEntries, FileMeta.Valid;
    var all, outside := AllEntries(mem, imm, v), Outside(mem, imm, v, inputs0, inputs1);
    FirstIsOlder(mem, imm, v, level, inputs0, inputs1, e, f);
    FirstEntry(f);
    var first := f.entries[0];
    assert Visible(outside, e.key.user, s, first);
    forall o | Visible(outside, e.key.user, s, o)
      ensures o.key.seqno <= first.key.seqno
    {
      assert Visible(all, e.key.user, s, o);
      var g := LeftOutside(mem, imm, v, level, inputs0, inputs1, e, o);
      SameStart(v[level + 1], inputs1, f, g);
      NotNewer(all, first, o);
    }
    ReadIs(outside, e.key.user, s, first);
  }

  lemma SameStart(files: seq<FileMeta>, inputs: seq<FileMeta>, f: FileMeta, g: FileMeta)
    requires NextBoundary(files, inputs, f) && NextBoundary(files, inputs, g)
    ensures NotAfter(f.smallest, g.smallest)
  {
    var a :| IsLargestKey(inputs, a) && IsBoundary(f, a) && FirstBoundary(files, f, a);
    var b :| IsLargestKey(inputs, b) && IsBoundary(g, b) && FirstBoundary(files, g, b);
    LargestKeyIsOne(inputs, a, b);
  }

  lemma NotNewer(es: set<Entry>, first: Entry, o: Entry)
    requires DistinctVersions(es) && first in es && o in es && o.key.user == first.key.user && NotAfter(first.key, o.key)
    ensures o.key.seqno <= first.key.seqno
  {
  }

  /**
   Where the choice of inputs brings a deleted value back: nothing deeper may hold `u`, the version
   that a reader at the smallest snapshot sees is a deletion marker of the inputs, and the next
   level goes on with `u` in a file that starts with a value and is left behind.
   */
  ghost predicate Exposed(mem: seq<Entry>, imm: seq<Entry>, v: Levels, level: nat, inputs1: seq<FileMeta>, input: seq<Entry>, smallest: SeqNo, u: UserKey)
    requires level + 1 < NUM_LEVELS
  {
    && IsBase(v, level, u)
    && (exists e :: Newest(AllEntries(mem, imm, v), u, smallest, e) && e in input && e.key.kind == TYPE_DELETION)
    && (exists f :: NextBoundary(v[level + 1], inputs1, f) && f.smallest.user == u && f.smallest.kind == TYPE_VALUE)
  }

  /** A reader of `u` at `s` gets the same answer before and after the compaction. */
  ghost predicate ReadUnchanged(mem: seq<Entry>, imm: seq<Entry>, v: Levels, level: nat, inputs0: seq<FileMeta>, inputs1: seq<FileMeta>,
                                input: seq<Entry>, smallest: SeqNo, u: UserKey, s: SeqNo)
  {
    Read(Elements(Kept(input, |input|, smallest, v, level)) + Outside(mem, imm, v, inputs0, inputs1), u, s) == Read(AllEntries(mem, imm, v), u, s)
  }

  lemma NotExposed(mem: seq<Entry>, imm: seq<Entry>, v: Levels, level: nat, inputs0: seq<FileMeta>, inputs1: seq<FileMeta>,
                   input: seq<Entry>, smallest: SeqNo, u: UserKey, s: SeqNo, i: nat)
    requires Surrounded(mem, imm, v, level, inputs0, inputs1)
    requires Elements(input) == FileEntries(inputs0) + FileEntries(inputs1)
    requires forall o :: o in AllEntries(mem, imm, v) && o.key.user == u ==> o.Parses()
    requires smallest <= s && i < |input| && Newest(AllEntries(mem, imm, v), u, s, input[i]) && Elided(input, i, smallest, v, level)
    requires !Exposed(mem, imm, v, level, inputs1, input, smallest, u)
    ensures Read(Outside(mem, imm, v, inputs0, inputs1), u, s) == None
  {
    hide Chosen, ValidLevels, Layered, DistinctVersions, IsBase, FileEntries, NextBoundary, AllEntries, FileMeta.Valid, Outside;
    var e := input[i];
    assert e in Elements(input) && e in input;
    NewestBelow(AllEntries(mem, imm, v), u, smallest, s, e);
    if f :| NextBoundary(v[level + 1], inputs1, f) && f.smallest.user == u {
      FirstSeen(mem, imm, v, level, inputs0, inputs1, e, s, f);
    } else {
      NothingOutside(mem, imm, v, level, inputs0, inputs1, e, s);
    }
  }

  lemma NewestBelow(es: set<Entry>, u: UserKey, smallest: SeqNo, s: SeqNo, e: Entry)
    requires smallest <= s && e.key.seqno <= smallest && Newest(es, u, s, e)
    ensures Newest(es, u, smallest, e)
  {
    forall f | Visible(es, u, smallest, f)
      ensures f.key.seqno <= e.key.seqno
    {
      assert Visible(es, u, s, f);
    }
  }

  lemma ExposedReads(mem: seq<Entry>, imm: seq<Entry>, v: Levels, level: nat, inputs0: seq<FileMeta>, inputs1: seq<FileMeta>,
                     input: seq<Entry>, smallest: SeqNo, u: UserKey)
    requires Surrounded(mem, imm, v, level, inputs0, inputs1)
    requires Sorted(input) && Elements(input) == FileEntries(inputs0) + FileEntries(inputs1) && smallest < MAX_SEQUENCE
    requires forall o :: o in AllEntries(mem, imm, v) && o.key.user == u ==> o.Parses()
    requires Exposed(mem, imm, v, level, inputs1, input, smallest, u)
    ensures Read(AllEntries(mem, imm, v), u, smallest) == None
    ensures !ReadUnchanged(mem, imm, v, level, inputs0, inputs1, input, smallest, u, smallest)
  {
    hide IsBase, FileEntries, NextBoundary, AllEntries, FileMeta.Valid, ValidLevels, Layered, Chosen, Sorted, Kept, Read, DistinctVersions;
    var all, outside := AllEntries(mem, imm, v), Outside(mem, imm, v, inputs0, inputs1);
    OutsideIs(mem, imm, v, level, inputs0, inputs1);
    assert Elements(input) + outside == all;
    var e :| Newest(all, u, smallest, e) && e in input && e.key.kind == TYPE_DELETION;
    var f :| NextBoundary(v[level + 1], inputs1, f) && f.smallest.user == u && f.smallest.kind == TYPE_VALUE;
    var i :| 0 <= i < |input| && input[i] == e;
    assert forall x :: x in input ==> x in Elements(input);
    ReadIs(all, u, smallest, e);
    assert Elided(input, i, smallest, v, level);
    OnlyElisionMatters(input, outside, smallest, v, level, u, smallest);
    FirstSeen(mem, imm, v, level, inputs0, inputs1, e, smallest, f);
  }

  /**
   The exact condition for what readers see: with the versions of `u` parsable, every read of it at
   or above the smallest snapshot is unchanged by a compaction of the chosen inputs, unless it is exposed.
   */
  lemma ChosenReadsIff(mem: seq<Entry>, imm: seq<Entry>, v: Levels, level: nat, inputs0: seq<FileMeta>, inputs1: seq<FileMeta>,
                       input: seq<Entry>, smallest: SeqNo, u: UserKey)
    requires Surrounded(mem, imm, v, level, inputs0, inputs1)
    requires Sorted(input) && Elements(input) == FileEntries(inputs0) + FileEntries(inputs1) && smallest < MAX_SEQUENCE
    requires forall o :: o in AllEntries(mem, imm, v) && o.key.user == u ==> o.Parses()
    ensures !Exposed(mem, imm, v, level, inputs1, input, smallest, u) <==>
      forall s: SeqNo :: smallest <= s ==> ReadUnchanged(mem, imm, v, level, inputs0, inputs1, input, smallest, u, s)
  {
    hide IsBase, FileEntries, NextBoundary, AllEntries, ValidLevels, Layered, Chosen, Sorted, Kept, Read, DistinctVersions, Exposed, Newest;
    if Exposed(mem, imm, v, level, inputs1, input, smallest, u) {
      ExposedReads(mem, imm, v, level, inputs0, inputs1, input, smallest, u);
    } else {
      var all, outside := AllEntries(mem, imm, v), Outside(mem, imm, v, inputs0, inputs1);
      OutsideIs(mem, imm, v, level, inputs0, inputs1);
      assert Elements(input) + outside == all;
      assert forall x :: x in input ==> x in Elements(input);
      forall s: SeqNo | smallest <= s
        ensures ReadUnchanged(mem, imm, v, level, inputs0, inputs1, input, smallest, u, s)
      {
        OnlyElisionMatters(input, outside, smallest, v, level, u, s);
        if i: nat :| i < |input| && Newest(all, u, s, input[i]) && Elided(input, i, smallest, v, level) {
          NotExposed(mem, imm, v, level, inputs0, inputs1, input, smallest, u, s, i);
          ReadIs(all, u, s, input[i]);
        }
      }
    }
  }

  // ---- It can fail ----

  function OneEntryFile(number: nat, e: Entry): FileMeta {
    FileMeta(number, 1, e.key, e.key, [e])
  }

  /** A marker for the key [2] ends the next level's inputs; the value under it sits in the file after. */
  function BoundaryExample(): Levels {
    [[], [OneEntryFile(3, Entry(InternalKey([1], 9, TYPE_VALUE), [7]))],
     [FileMeta(2, 1, InternalKey([1], 5, TYPE_VALUE), InternalKey([2], 4, TYPE_DELETION),
               [Entry(InternalKey([1], 5, TYPE_VALUE), [8]), Entry(InternalKey([2], 4, TYPE_DELETION), [])]),
      OneEntryFile(1, Entry(InternalKey([2], 3, TYPE_VALUE), [6]))], [], [], [], []]
  }

  /** What is compacted, and what stays behind. */
  function ExampleInput(): seq<Entry> {
    [Entry(InternalKey([1], 9, TYPE_VALUE), [7]), Entry(InternalKey([1], 5, TYPE_VALUE), [8]), Entry(InternalKey([2], 4, TYPE_DELETION), [])]
  }

  const LEFT_BEHIND: Entry := Entry(InternalKey([2], 3, TYPE_VALUE), [6])

  /** A well-formed store whose compaction, inputs chosen as the code does, brings a deleted key back. */
  lemma BoundaryFileResurrects()
    ensures var v, input := BoundaryExample(), ExampleInput();
            && Surrounded([], [], v, 1, v[1], v[2][..1])
            && Sorted(input) && Elements(input) == FileEntries(v[1]) + FileEntries(v[2][..1])
            && Outside([], [], v, v[1], v[2][..1]) == {LEFT_BEHIND}
            && Exposed([], [], v, 1, v[2][..1], input, 10, [2])
            && Read(AllEntries([], [], v), [2], 10) == None
            && Read(Elements(Kept(input, 3, 10, v, 1)) + {LEFT_BEHIND}, [2], 10) == Some([6])
  {
    hide Kept, ValidLevels, Chosen, FileEntries, Read, BoundaryExample, ExampleInput, AllEntries, Outside, Exposed, Layered, Sorted, DistinctVersions;
    ExampleIsValid();
    ExampleIsChosen();
    ExampleStore();
    ExampleIsExposed();
    ExampleElides();
    KeptByExample();
    ReadBefore();
    ReadAfter();
  }

  lemma ExampleFiles(l: nat)
    requires l < NUM_LEVELS
    ensures var v, input := BoundaryExample(), ExampleInput();
            FileEntries(v[l]) == if l == 1 then {input[0]} else if l == 2 then {input[1], input[2], LEFT_BEHIND} else {}
  {
    var v, input := BoundaryExample(), ExampleInput();
    if l == 1 {
      assert v[1][0].entries == [input[0]] && input[0] in v[1][0].entries;
    } else if l == 2 {
      assert v[2][0].entries == [input[1], input[2]] && v[2][1].entries == [LEFT_BEHIND];
      assert input[1] in v[2][0].entries && input[2] in v[2][0].entries && LEFT_BEHIND in v[2][1].entries;
    }
  }

  lemma ExampleStore()
    ensures var v, input := BoundaryExample(), ExampleInput();
            && AllEntries([], [], v) == Elements(input) + {LEFT_BEHIND} && Outside([], [], v, v[1], v[2][..1]) == {LEFT_BEHIND}
            && DistinctVersions(AllEntries([], [], v)) && Layered([], [], v) && Sorted(input)
  {
    hide FileEntries;
    Ranks();
    var v, input := BoundaryExample(), ExampleInput();
    assert Elements(input) == {input[0], input[1], input[2]};
    forall l | 0 <= l < NUM_LEVELS
      ensures FileEntries(v[l]) == if l == 1 then {input[0]} else if l == 2 then {input[1], input[2], LEFT_BEHIND} else {}
    {
      ExampleFiles(l);
    }
    assert AllFiles(v, 1) == {} && AllFiles(v, 2) == {input[0]};
    assert AllFiles(v, 3) == {input[0], input[1], input[2], LEFT_BEHIND};
    assert AllFiles(v, 4) == AllFiles(v, 3) && AllFiles(v, 5) == AllFiles(v, 4);
    assert AllFiles(v, 6) == AllFiles(v, 5) && AllFiles(v, 7) == AllFiles(v, 6);
    ExampleEntries();
  }

  lemma ExampleIsExposed()
    ensures Exposed([], [], BoundaryExample(), 1, BoundaryExample()[2][..1], ExampleInput(), 10, [2])
  {
    hide FileEntries, AllEntries;
    Ranks();
    ExampleStore();
    var v, input := BoundaryExample(), ExampleInput();
    assert Elements(input) == {input[0], input[1], input[2]};
    assert Newest(AllEntries([], [], v), [2], 10, input[2]) && input[2] in input;
    var f, key := v[2][1], InternalKey([2], 4, TYPE_DELETION);
    assert v[2][..1][0].largest == key && IsLargestKey(v[2][..1], key);
    assert f in v[2] && IsBoundary(f, key) && FirstBoundary(v[2], f, key);
    assert NextBoundary(v[2], v[2][..1], f);
    ExampleElides();
  }

  lemma ExampleElides()
    ensures Elided(ExampleInput(), 2, 10, BoundaryExample(), 1)
  {
    var v := BoundaryExample();
    assert IsBase(v, 1, [2]);
  }

  lemma ReadBefore()
    ensures Read(Elements(ExampleInput()) + {LEFT_BEHIND}, [2], 10) == None
  {
    hide Read;
    var input := ExampleInput();
    assert Elements(input) == {input[0], input[1], input[2]};
    var es := Elements(input) + {LEFT_BEHIND};
    assert Newest(es, [2], 10, input[2]);
    ReadIs(es, [2], 10, input[2]);
  }

  lemma ReadAfter()
    ensures Read(Elements([ExampleInput()[0]]) + {LEFT_BEHIND}, [2], 10) == Some([6])
  {
    hide Read;
    var first := ExampleInput()[0];
    assert Elements([first]) == {first};
    var es := Elements([first]) + {LEFT_BEHIND};
    assert Newest(es, [2], 10, LEFT_BEHIND);
    ReadIs(es, [2], 10, LEFT_BEHIND);
  }

  lemma Ranks()
    ensures Rank([1]) < Rank([2])
  {
    assert Compare([1], [2]) < 0;
  }

  lemma ExampleIsValid()
    ensures ValidLevels(BoundaryExample())
  {
    Ranks();
    var v := BoundaryExample();
    assert Sorted(v[2][0].entries) && Sorted(v[2][1].entries) && Sorted(v[1][0].entries);
    assert SortedLevel(v[2]);
  }

  lemma ExampleIsChosen()
    ensures var v := BoundaryExample();
            && Chosen(v, 1, v[1], v[2][..1])
            && Elements(ExampleInput()) == FileEntries(v[1]) + FileEntries(v[2][..1])
  {
    Ranks();
    var v := BoundaryExample();
    var key := InternalKey([1], 9, TYPE_VALUE);
    assert v[1] == v[1][0..1] && Picked(1, v[1], v[1]);
    assert IsSmallestKey(v[1], key) by { assert v[1][0].smallest == key; }
    assert IsLargestKey(v[1], key) by { assert v[1][0].largest == key; }
    assert NoBoundary(v[1], v[1]);
    var r := Range(Some([1]), Some([1]));
    assert v[2][..1][..0] == [] && v[2][..2] == v[2];
    assert Selected(v[2][..0], r) == [];
    assert Selected(v[2][..1], r) == [v[2][0]];
    assert Selected(v[2], r) == [v[2][0]];
    assert v[2][..1] == [v[2][0]];
    ExampleEntries();
  }

  lemma ExampleEntries()
    ensures var v := BoundaryExample(); Elements(ExampleInput()) == FileEntries(v[1]) + FileEntries(v[2][..1])
  {
    var v := BoundaryExample();
    var input := ExampleInput();
    assert v[1][0].entries[0] == input[0] && v[2][..1][0].entries[0] == input[1] && v[2][..1][0].entries[1] == input[2];
    assert input[0] in v[1][0].entries && input[1] in v[2][..1][0].entries && input[2] in v[2][..1][0].entries;
  }

  lemma KeptByExample()
    requires Elided(ExampleInput(), 2, 10, BoundaryExample(), 1)
    ensures Kept(ExampleInput(), 3, 10, BoundaryExample(), 1) == [ExampleInput()[0]]
  {
    var v := BoundaryExample();
    var input := ExampleInput();
    assert Dropped(input, 2, 10, v, 1);
    assert Hidden(input, 1, 10);
    assert !Hidden(input, 0, 10);
    assert Kept(input, 0, 10, v, 1) == [];
    assert Kept(input, 1, 10, v, 1) == [input[0]];
    assert Kept(input, 2, 10, v, 1) == [input[0]];
  }
}
