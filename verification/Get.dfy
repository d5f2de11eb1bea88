/**
 Point lookups (DBImpl::Get in db/db_impl.cc, Version::Get and FindFile in
 db/version_set.cc, MemTable::Get in db/memtable.cc): the search stops at the first source
 that knows the key, yet answers like a scan of every entry of the store.
 */
module PointLookup {
  import opened Keys
  import opened Store
  import opened Version

  datatype GetResult = Found(value: Value) | NotFound | Corruption

  function ResultOf(answer: Option<Value>): GetResult {
    match answer
    case Some(x) => Found(x)
    case None => NotFound
  }

  /** LookupKey: the first possible internal key of `u` for a reader at `s`. */
  function LookupKey(u: UserKey, s: SeqNo): InternalKey {
    InternalKey(u, s, TYPE_FOR_SEEK)
  }

  /** Every version in `a` is newer than every version of the same user key in `b`. */
  ghost predicate NewerThan(a: set<Entry>, b: set<Entry>) {
    forall e, f :: e in a && f in b && e.key.user == f.key.user ==> e.key.seqno > f.key.seqno
  }

  /** Every entry of `u` comes before the lookup key: none of them is visible. */
  ghost predicate Past(es: set<Entry>, u: UserKey, s: SeqNo) {
    forall e :: e in es && e.key.user == u ==> Before(e.key, LookupKey(u, s))
  }

  /** What a lookup may hand to its caller from one sorted source. */
  ghost predicate IsHit(es: seq<Entry>, u: UserKey, s: SeqNo, hit: Option<Entry>) {
    && (hit.Some? ==> hit.value in es)
    && (hit.Some? && hit.value.Parses() && hit.value.key.user == u ==> Newest(Elements(es), u, s, hit.value))
    && (hit.None? || (hit.value.Parses() && hit.value.key.user != u) ==> Past(Elements(es), u, s))
  }

  /** `e` is the first entry at or after the lookup key. */
  ghost predicate FirstFrom(es: seq<Entry>, u: UserKey, s: SeqNo, e: Entry) {
    && e in es && NotAfter(LookupKey(u, s), e.key)
    && forall f :: f in es && NotAfter(LookupKey(u, s), f.key) ==> NotAfter(e.key, f.key)
  }

  /** What a seek finds in one sorted run. */
  ghost predicate Sought(es: seq<Entry>, u: UserKey, s: SeqNo, hit: Option<Entry>) {
    if hit.Some? then FirstFrom(es, u, s, hit.value) else forall e :: e in es ==> Before(e.key, LookupKey(u, s))
  }

  /** What the table cache may hand over from a file; it never comes before the lookup key. */
  ghost predicate TableHit(es: seq<Entry>, u: UserKey, s: SeqNo, hit: Option<Entry>) {
    IsHit(es, u, s, hit) && (hit.Some? ==> NotAfter(LookupKey(u, s), hit.value.key))
  }

  /** The table cache's answer for each file, for one lookup. */
  type Tables = FileMeta -> Option<Entry>

  /** The lookup ends with this file: it hands over an unparsable entry, or a version of `u`. */
  predicate Stops(tables: Tables, f: FileMeta, u: UserKey) {
    tables(f).Some? && (!tables(f).value.Parses() || tables(f).value.key.user == u)
  }

  /** The lookup fails on this file: it hands over an unparsable entry, whatever its user key. */
  predicate Fails(tables: Tables, f: FileMeta) {
    tables(f).Some? && !tables(f).value.Parses()
  }

  ghost predicate Readable(v: Levels, tables: Tables, u: UserKey, s: SeqNo) {
    forall l, i :: 0 <= l < NUM_LEVELS && 0 <= i < |v[l]| ==> TableHit(v[l][i].entries, u, s, tables(v[l][i]))
  }

  /** The first entry at or after the lookup key (MemTable and table iterators' Seek). */
  method SeekEntry(es: seq<Entry>, u: UserKey, s: SeqNo) returns (hit: Option<Entry>)
    requires Sorted(es)
    ensures IsHit(es, u, s, hit)
    ensures Sought(es, u, s, hit)
  {
    var i := 0;
    while i < |es| && CompareInternal(es[i].key, LookupKey(u, s)) < 0
      invariant 0 <= i <= |es|
      invariant forall k :: 0 <= k < i ==> Before(es[k].key, LookupKey(u, s))
    {
      i := i + 1;
    }
    hit := if i < |es| then Some(es[i]) else None;
    forall e | e in es && NotAfter(LookupKey(u, s), e.key)
      ensures i < |es| && NotAfter(es[i].key, e.key)
    {
      var k :| 0 <= k < |es| && es[k] == e;
      assert k > i ==> Before(es[i].key, e.key);
    }
    forall e | e in es && e.key.user == u && NotAfter(LookupKey(u, s), e.key)
      ensures i < |es| && es[i].key.user == u && NotAfter(es[i].key, e.key)
    {
      var k :| 0 <= k < |es| && es[k] == e;
      if i < |es| { SameRank(es[i].key.user, u); }
      assert k >= i;
      assert k > i ==> Before(es[i].key, e.key);
    }
  }

  /** MemTable::Get: None when the table does not know the key. */
  method MemTableGet(es: seq<Entry>, u: UserKey, s: SeqNo) returns (r: Option<GetResult>)
    requires Sorted(es) && forall e :: e in es ==> e.Parses()
    ensures r.Some? ==> exists e :: Newest(Elements(es), u, s, e) && r.value == ResultOf(Answer(e))
    ensures r.None? <==> Past(Elements(es), u, s)
  {
    var hit := SeekEntry(es, u, s);
    if hit.Some? && Compare(hit.value.key.user, u) == 0 {
      r := Some(ResultOf(Answer(hit.value)));
    } else {
      r := None;
    }
  }

  /** Position `index` is the first file whose largest key is at or after `key`. */
  ghost predicate PointsAt(files: seq<FileMeta>, index: nat, key: InternalKey) {
    && index <= |files|
    && (forall i :: 0 <= i < index ==> Before(files[i].largest, key))
    && (forall i :: index <= i < |files| ==> NotAfter(key, files[i].largest))
  }

  /** FindFile: binary search for the first file whose largest key is at or after `key`. */
  method FindFile(files: seq<FileMeta>, key: InternalKey) returns (index: nat)
    requires ValidFiles(files) && SortedLevel(files)
    ensures PointsAt(files, index, key)
  {
    var left, right := 0, |files|;
    while left < right
      invariant 0 <= left <= right <= |files|
      invariant forall i :: 0 <= i < left ==> Before(files[i].largest, key)
      invariant forall i :: right <= i < |files| ==> NotAfter(key, files[i].largest)
    {
      var mid := (left + right) / 2;
      LargestAscend(files);
      if CompareInternal(files[mid].largest, key) < 0 {
        left := mid + 1;
      } else {
        right := mid;
      }
    }
    index := right;
  }

  lemma LargestAscend(files: seq<FileMeta>)
    requires ValidFiles(files) && SortedLevel(files)
    ensures forall i, j :: 0 <= i < j < |files| ==> Before(files[i].largest, files[j].largest)
  {
    forall i, j | 0 <= i < j < |files|
      ensures Before(files[i].largest, files[j].largest)
    {
      EntryCovered(files[j], files[j].entries[0]);
    }
  }

  ghost predicate DistinctNumbers(files: seq<FileMeta>) {
    forall i, j :: 0 <= i < j < |files| ==> files[i].number != files[j].number
  }

  ghost predicate NewestFirst(files: seq<FileMeta>) {
    forall i, j :: 0 <= i < j < |files| ==> files[i].number > files[j].number
  }

  /** std::sort with NewestFirst. */
  method SortNewestFirst(files: seq<FileMeta>) returns (sorted: seq<FileMeta>)
    requires DistinctNumbers(files)
    ensures NewestFirst(sorted)
    ensures forall f :: f in sorted <==> f in files
  {
    sorted := [];
    for n := 0 to |files|
      invariant NewestFirst(sorted)
      invariant forall f :: f in sorted <==> f in files[..n]
    {
      var k := 0;
      while k < |sorted| && sorted[k].number > files[n].number
        invariant 0 <= k <= |sorted|
        invariant forall i :: 0 <= i < k ==> sorted[i].number > files[n].number
      {
        k := k + 1;
      }
      assert forall i :: k <= i < |sorted| ==> sorted[i].number < files[n].number by {
        assert k < |sorted| ==> sorted[k] in files[..n];
      }
      assert files[..n + 1] == files[..n] + [files[n]];
      assert forall f :: f in sorted <==> f in sorted[..k] || f in sorted[k..];
      sorted := sorted[..k] + [files[n]] + sorted[k..];
    }
    assert files[..|files|] == files;
  }

  ghost predicate Level0Ordered(files: seq<FileMeta>) {
    && DistinctNumbers(files)
    && forall f, g :: f in files && g in files && f.number > g.number ==>
         NewerThan(Elements(f.entries), Elements(g.entries))
  }

  /** Reading `files` in order, and stopping at the first hit, searches the whole level. */
  ghost predicate Suffices(files: seq<FileMeta>, level: set<Entry>, u: UserKey, s: SeqNo) {
    && ((forall i :: 0 <= i < |files| ==> Past(Elements(files[i].entries), u, s)) ==> Past(level, u, s))
    && forall i, e :: 0 <= i < |files| && Newest(Elements(files[i].entries), u, s, e) && PastBefore(files, i, u, s) ==>
         Newest(level, u, s, e)
  }

  ghost predicate PastBefore(files: seq<FileMeta>, i: nat, u: UserKey, s: SeqNo)
    requires i <= |files|
  {
    forall j :: 0 <= j < i ==> Past(Elements(files[j].entries), u, s)
  }

  /**
   The files a lookup may read: at level 0 those that cover `u`, elsewhere the first file that
   does not end before the lookup key, unless it starts after `u`.
   */
  ghost predicate Candidate(v: Levels, level: nat, f: FileMeta, u: UserKey, s: SeqNo)
    requires level < NUM_LEVELS
  {
    if level == 0 then f in v[0] && f.Covers(u)
    else exists index: nat :: index < |v[level]| && v[level][index] == f && PointsAt(v[level], index, LookupKey(u, s))
           && Rank(f.smallest.user) <= Rank(u)
  }

  lemma PointsAtOne(files: seq<FileMeta>, i: nat, j: nat, key: InternalKey)
    requires PointsAt(files, i, key) && PointsAt(files, j, key) && i < |files|
    ensures i == j
  {
    var _ := files[i].largest;
    if j < |files| {
      var _ := files[j].largest;
    }
  }

  lemma CandidateIs(v: Levels, level: nat, index: nat, u: UserKey, s: SeqNo)
    requires 0 < level < NUM_LEVELS && PointsAt(v[level], index, LookupKey(u, s))
    ensures forall f :: Candidate(v, level, f, u, s) <==>
              index < |v[level]| && v[level][index] == f && Rank(f.smallest.user) <= Rank(u)
  {
    hide PointsAt;
    forall f | Candidate(v, level, f, u, s)
      ensures index < |v[level]| && v[level][index] == f
    {
      var i: nat :| i < |v[level]| && v[level][i] == f && PointsAt(v[level], i, LookupKey(u, s));
      PointsAtOne(v[level], i, index, LookupKey(u, s));
    }
  }

  /** The files of one level that must be read for `u`, in reading order. */
  method Candidates(v: Levels, level: nat, u: UserKey, s: SeqNo) returns (files: seq<FileMeta>)
    requires ValidLevels(v) && level < NUM_LEVELS && Level0Ordered(v[0])
    requires DistinctVersions(FileEntries(v[level]))
    ensures forall f :: f in files <==> Candidate(v, level, f, u, s)
    ensures forall f :: f in files ==> f in v[level]
    ensures if level == 0 then NewestFirst(files) else |files| <= 1
    ensures Suffices(files, FileEntries(v[level]), u, s)
  {
    if level == 0 {
      files := Level0Candidates(v[0], u, s);
      Level0Suffices(v[0], files, u, s);
    } else {
      files := [];
      var index := FindFile(v[level], LookupKey(u, s));
      CandidateIs(v, level, index, u, s);
      if index < |v[level]| && Compare(u, v[level][index].smallest.user) >= 0 {
        files := [v[level][index]];
        OneFileSuffices(v[level], index, u, s);
        assert files[0] == v[level][index];
      } else {
        forall e | e in FileEntries(v[level]) && e.key.user == u && NotAfter(LookupKey(u, s), e.key)
          ensures false
        {
          PlaceInLevel(v[level], index, u, s, e);
        }
      }
    }
  }

  method Level0Candidates(level0: seq<FileMeta>, u: UserKey, s: SeqNo) returns (files: seq<FileMeta>)
    requires ValidFiles(level0) && Level0Ordered(level0)
    ensures NewestFirst(files)
    ensures forall f :: f in files <==> f in level0 && f.Covers(u)
  {
    var tmp := [];
    for i := 0 to |level0|
      invariant DistinctNumbers(tmp)
      invariant forall f :: f in tmp <==> exists k :: 0 <= k < i && f == level0[k] && f.Covers(u)
    {
      var f := level0[i];
      if Compare(u, f.smallest.user) >= 0 && Compare(u, f.largest.user) <= 0 {
        forall k | 0 <= k < |tmp| ensures tmp[k].number != f.number {
          assert tmp[k] in tmp;
        }
        tmp := tmp + [f];
      }
    }
    files := SortNewestFirst(tmp);
  }

  lemma Level0Suffices(level0: seq<FileMeta>, files: seq<FileMeta>, u: UserKey, s: SeqNo)
    requires ValidFiles(level0) && Level0Ordered(level0)
    requires NewestFirst(files) && forall f :: f in files <==> f in level0 && f.Covers(u)
    ensures Suffices(files, FileEntries(level0), u, s)
  {
    forall e | e in FileEntries(level0) && e.key.user == u
      ensures exists i :: 0 <= i < |files| && e in Elements(files[i].entries)
    {
      var k :| 0 <= k < |level0| && e in level0[k].entries;
      EntryCovered(level0[k], e);
      assert level0[k] in files;
    }
    forall i, e | 0 <= i < |files| && Newest(Elements(files[i].entries), u, s, e) && PastBefore(files, i, u, s)
      ensures Newest(FileEntries(level0), u, s, e)
    {
      assert files[i] in files && e in files[i].entries;
      forall f | Visible(FileEntries(level0), u, s, f)
        ensures f.key.seqno <= e.key.seqno
      {
        var j :| 0 <= j < |files| && f in Elements(files[j].entries);
        assert files[j] in files;
        assert j > i ==> NewerThan(Elements(files[i].entries), Elements(files[j].entries));
        assert j == i ==> Visible(Elements(files[i].entries), u, s, f);
      }
    }
  }

  /** An entry of `u` at or after the lookup key is in the named file, or follows that file's last key. */
  lemma PlaceInLevel(files: seq<FileMeta>, index: nat, u: UserKey, s: SeqNo, e: Entry)
    requires ValidFiles(files) && SortedLevel(files) && PointsAt(files, index, LookupKey(u, s))
    requires e in FileEntries(files) && e.key.user == u && NotAfter(LookupKey(u, s), e.key)
    ensures index < |files| && Rank(u) >= Rank(files[index].smallest.user)
    ensures e in files[index].entries || (files[index].largest.user == u && Before(files[index].largest, e.key))
  {
    var k :| 0 <= k < |files| && e in files[k].entries;
    EntryCovered(files[k], e);
    EntryCovered(files[index], files[index].entries[0]);
    SameRank(files[index].largest.user, u);
    assert k > index ==> Before(files[index].largest, files[k].smallest);
  }

  /** In a sorted level the file FindFile names decides, even when `u` goes on into the next one. */
  lemma OneFileSuffices(files: seq<FileMeta>, index: nat, u: UserKey, s: SeqNo)
    requires ValidFiles(files) && SortedLevel(files) && PointsAt(files, index, LookupKey(u, s))
    requires DistinctVersions(FileEntries(files))
    requires index < |files|
    ensures Suffices([files[index]], FileEntries(files), u, s)
  {
    var file := files[index];
    var only := [file];
    assert only[0] == file;
    var last := file.entries[|file.entries| - 1];
    assert last in file.entries && last in Elements(file.entries);
    forall e | e in FileEntries(files) && e.key.user == u && Past(Elements(file.entries), u, s)
      ensures Before(e.key, LookupKey(u, s))
    {
      if NotAfter(LookupKey(u, s), e.key) {
        PlaceInLevel(files, index, u, s, e);
      }
    }
    forall e | Newest(Elements(file.entries), u, s, e)
      ensures Newest(FileEntries(files), u, s, e)
    {
      forall f | Visible(FileEntries(files), u, s, f)
        ensures f.key.seqno <= e.key.seqno
      {
        PlaceInLevel(files, index, u, s, f);
        EntryCovered(file, e);
        assert f in file.entries ==> Visible(Elements(file.entries), u, s, f);
      }
    }
  }

  /** Reads table files in order until one of them settles the lookup. */
  method ReadFiles(files: seq<FileMeta>, tables: Tables, u: UserKey, s: SeqNo) returns (r: Option<GetResult>)
    requires forall f :: f in files ==> TableHit(f.entries, u, s, tables(f))
    ensures r.None? ==> PastBefore(files, |files|, u, s) && NoneStops(files, tables, |files|, u)
    ensures r == Some(Corruption) ==> exists i: nat :: i < |files| && NoneStops(files, tables, i, u) && Fails(tables, files[i])
    ensures r.Some? && r.value != Corruption ==> exists i: nat, e ::
      && i < |files| && PastBefore(files, i, u, s) && NoneStops(files, tables, i, u)
      && Newest(Elements(files[i].entries), u, s, e) && r.value == ResultOf(Answer(e))
      && Stops(tables, files[i], u) && !Fails(tables, files[i])
  {
    for i := 0 to |files|
      invariant PastBefore(files, i, u, s) && NoneStops(files, tables, i, u)
    {
      assert files[i] in files;
      var hit := tables(files[i]);
      if hit.Some? {
        if !hit.value.Parses() {
          return Some(Corruption);
        }
        if Compare(hit.value.key.user, u) == 0 {
          assert Newest(Elements(files[i].entries), u, s, hit.value);
          return Some(ResultOf(Answer(hit.value)));
        }
      }
    }
    r := None;
  }

  /** None of the first `n` files ends the lookup. */
  predicate NoneStops(files: seq<FileMeta>, tables: Tables, n: nat, u: UserKey)
    requires n <= |files|
  {
    forall j :: 0 <= j < n ==> !Stops(tables, files[j], u)
  }

  // ---- The whole store ----

  ghost function AllFiles(v: Levels, levels: nat): set<Entry>
    requires levels <= NUM_LEVELS
  {
    if levels == 0 then {} else AllFiles(v, levels - 1) + FileEntries(v[levels - 1])
  }

  ghost function AllEntries(mem: seq<Entry>, imm: seq<Entry>, v: Levels): set<Entry> {
    Elements(mem) + Elements(imm) + AllFiles(v, NUM_LEVELS)
  }

  /** Shallower sources hold newer versions of every user key. */
  ghost predicate Layered(mem: seq<Entry>, imm: seq<Entry>, v: Levels) {
    && NewerThan(Elements(mem), Elements(imm))
    && NewerThan(Elements(mem) + Elements(imm), AllFiles(v, NUM_LEVELS))
    && LayeredLevels(v)
  }

  ghost predicate LayeredLevels(v: Levels) {
    && Level0Ordered(v[0])
    && forall l, m :: 0 <= l < m < NUM_LEVELS ==> NewerThan(FileEntries(v[l]), FileEntries(v[m]))
  }

  lemma {:induction false} InAllFiles(v: Levels, levels: nat, e: Entry)
    requires levels <= NUM_LEVELS
    ensures e in AllFiles(v, levels) <==> exists l :: 0 <= l < levels && e in FileEntries(v[l])
  {
    if levels > 0 {
      InAllFiles(v, levels - 1, e);
    }
  }

  /** The lookup comes to file `f` of level `l`, and fails on it. */
  ghost predicate FailsAt(v: Levels, tables: Tables, l: nat, f: FileMeta, u: UserKey, s: SeqNo)
    requires l < NUM_LEVELS
  {
    && Candidate(v, l, f, u, s) && Fails(tables, f)
    && (forall m: nat, g :: m < l && Candidate(v, m, g, u, s) ==> !Stops(tables, g, u))
    && (l == 0 ==> forall g :: Candidate(v, 0, g, u, s) && g.number > f.number ==> !Stops(tables, g, u))
  }

  /** In reading order, the first file that ends the lookup has an unparsable entry where the lookup lands. */
  ghost predicate LookupFails(v: Levels, tables: Tables, u: UserKey, s: SeqNo) {
    exists l: nat, f :: l < NUM_LEVELS && FailsAt(v, tables, l, f, u, s)
  }

  /** `r` is corruption exactly when the lookup fails, and otherwise answers like a scan of `es`. */
  ghost predicate Answers(r: GetResult, fails: bool, es: set<Entry>, u: UserKey, s: SeqNo) {
    r == if fails then Corruption else ResultOf(Read(es, u, s))
  }

  /** A hit below exhausted newer sources and above older ones decides for all of them. */
  lemma HitDecides(newer: set<Entry>, source: set<Entry>, older: set<Entry>, u: UserKey, s: SeqNo, e: Entry)
    requires Past(newer, u, s) && Newest(source, u, s, e) && NewerThan(source, older)
    ensures Newest(newer + source + older, u, s, e)
  {
    forall f | Visible(newer + source + older, u, s, f)
      ensures f.key.seqno <= e.key.seqno
    {
      assert f in source ==> Visible(source, u, s, f);
    }
  }

  lemma PastReadsNothing(es: set<Entry>, u: UserKey, s: SeqNo)
    requires Past(es, u, s)
    ensures Read(es, u, s) == None
  {
  }

  /** Version::Get: level by level, stopping at the first level that knows the key. */
  method VersionGet(v: Levels, tables: Tables, u: UserKey, s: SeqNo) returns (r: GetResult)
    requires Readable(v, tables, u, s)
    requires ValidLevels(v) && LayeredLevels(v) && DistinctVersions(AllFiles(v, NUM_LEVELS))
    ensures Answers(r, LookupFails(v, tables, u, s), AllFiles(v, NUM_LEVELS), u, s)
  {
    hide Candidate, Stops, Fails, ValidLevels, TableHit, Level0Ordered, Suffices, Newest, Read, FileEntries, NoneStops, FileMeta.Valid, Answer, LookupFails, NewestFirst;
    for level := 0 to NUM_LEVELS
      invariant Past(AllFiles(v, level), u, s)
      invariant NoneStopsAbove(v, tables, level, u, s)
    {
      FilesWithin(v, level);
      var files := Candidates(v, level, u, s);
      forall f | f in files
        ensures TableHit(f.entries, u, s, tables(f))
      {
        var i :| 0 <= i < |v[level]| && v[level][i] == f;
      }
      var hit := ReadFiles(files, tables, u, s);
      if hit.Some? {
        r := hit.value;
        LevelHit(v, tables, level, files, r, u, s);
        return;
      }
      PastOneMore(v, level, files, u, s);
      OneMoreLevel(v, tables, level, files, u, s);
    }
    PastReadsNothing(AllFiles(v, NUM_LEVELS), u, s);
    NothingFails(v, tables, u, s);
    r := NotFound;
  }

  lemma PastOneMore(v: Levels, level: nat, files: seq<FileMeta>, u: UserKey, s: SeqNo)
    requires level < NUM_LEVELS && Past(AllFiles(v, level), u, s)
    requires Suffices(files, FileEntries(v[level]), u, s) && PastBefore(files, |files|, u, s)
    ensures Past(AllFiles(v, level + 1), u, s)
  {
  }

  lemma NothingFails(v: Levels, tables: Tables, u: UserKey, s: SeqNo)
    requires NoneStopsAbove(v, tables, NUM_LEVELS, u, s)
    ensures !LookupFails(v, tables, u, s)
  {
    hide Candidate;
  }

  /** The levels above are passed by, and now this one. */
  lemma OneMoreLevel(v: Levels, tables: Tables, level: nat, files: seq<FileMeta>, u: UserKey, s: SeqNo)
    requires level < NUM_LEVELS && NoneStopsAbove(v, tables, level, u, s) && NoneStops(files, tables, |files|, u)
    requires forall f :: f in files <==> Candidate(v, level, f, u, s)
    ensures NoneStopsAbove(v, tables, level + 1, u, s)
  {
    hide Candidate, Stops;
  }

  ghost predicate NoneStopsAbove(v: Levels, tables: Tables, l: nat, u: UserKey, s: SeqNo)
    requires l <= NUM_LEVELS
  {
    forall m: nat, g :: m < l && Candidate(v, m, g, u, s) ==> !Stops(tables, g, u)
  }

  /** The file that ends the lookup decides whether it fails. */
  lemma StopDecides(v: Levels, tables: Tables, level: nat, files: seq<FileMeta>, i: nat, u: UserKey, s: SeqNo)
    requires level < NUM_LEVELS && i < |files| && NoneStopsAbove(v, tables, level, u, s) && NoneStops(files, tables, i, u)
    requires forall f :: f in files <==> Candidate(v, level, f, u, s)
    requires if level == 0 then NewestFirst(files) else |files| <= 1
    requires Stops(tables, files[i], u)
    ensures LookupFails(v, tables, u, s) <==> Fails(tables, files[i])
  {
    hide Candidate;
    assert files[i] in files;
    if Fails(tables, files[i]) {
      forall g | level == 0 && Candidate(v, 0, g, u, s) && g.number > files[i].number
        ensures !Stops(tables, g, u)
      {
        var j :| 0 <= j < |files| && files[j] == g;
      }
      assert FailsAt(v, tables, level, files[i], u, s);
    } else {
      forall l: nat, f | l < NUM_LEVELS
        ensures !FailsAt(v, tables, l, f, u, s)
      {
        if l == level && FailsAt(v, tables, l, f, u, s) {
          var j :| 0 <= j < |files| && files[j] == f;
        }
      }
    }
  }

  lemma FilesWithin(v: Levels, level: nat)
    requires level < NUM_LEVELS
    ensures FileEntries(v[level]) <= AllFiles(v, NUM_LEVELS)
  {
    forall e | e in FileEntries(v[level])
      ensures e in AllFiles(v, NUM_LEVELS)
    {
      InAllFiles(v, NUM_LEVELS, e);
    }
  }

  lemma LevelHit(v: Levels, tables: Tables, level: nat, files: seq<FileMeta>, r: GetResult, u: UserKey, s: SeqNo)
    requires level < NUM_LEVELS && LayeredLevels(v) && DistinctVersions(AllFiles(v, NUM_LEVELS))
    requires forall f :: f in files <==> Candidate(v, level, f, u, s)
    requires if level == 0 then NewestFirst(files) else |files| <= 1
    requires NoneStopsAbove(v, tables, level, u, s)
    requires Suffices(files, FileEntries(v[level]), u, s) && Past(AllFiles(v, level), u, s)
    requires r == Corruption ==> exists i: nat :: i < |files| && NoneStops(files, tables, i, u) && Fails(tables, files[i])
    requires r != Corruption ==> exists i: nat, e ::
      && i < |files| && PastBefore(files, i, u, s) && NoneStops(files, tables, i, u)
      && Newest(Elements(files[i].entries), u, s, e) && r == ResultOf(Answer(e))
      && Stops(tables, files[i], u) && !Fails(tables, files[i])
    ensures Answers(r, LookupFails(v, tables, u, s), AllFiles(v, NUM_LEVELS), u, s)
  {
    hide Candidate, NoneStops, NoneStopsAbove, LookupFails, Newest;
    FilesWithin(v, level);
    if r == Corruption {
      var i: nat :| i < |files| && NoneStops(files, tables, i, u) && Fails(tables, files[i]);
      StopDecides(v, tables, level, files, i, u, s);
    } else {
      var i: nat, e :| i < |files| && PastBefore(files, i, u, s) && NoneStops(files, tables, i, u)
        && Newest(Elements(files[i].entries), u, s, e) && r == ResultOf(Answer(e))
        && Stops(tables, files[i], u) && !Fails(tables, files[i]);
      StopDecides(v, tables, level, files, i, u, s);
      NewestInLevels(v, level, u, s, e);
      ReadIs(AllFiles(v, NUM_LEVELS), u, s, e);
    }
  }

  lemma NewestInLevels(v: Levels, level: nat, u: UserKey, s: SeqNo, e: Entry)
    requires level < NUM_LEVELS && LayeredLevels(v)
    requires Past(AllFiles(v, level), u, s) && Newest(FileEntries(v[level]), u, s, e)
    ensures Newest(AllFiles(v, NUM_LEVELS), u, s, e)
  {
    FilesWithin(v, level);
    forall f | Visible(AllFiles(v, NUM_LEVELS), u, s, f)
      ensures f.key.seqno <= e.key.seqno
    {
      InAllFiles(v, NUM_LEVELS, f);
      var l :| 0 <= l < NUM_LEVELS && f in FileEntries(v[l]);
      InAllFiles(v, level, f);
      assert l == level ==> Visible(FileEntries(v[level]), u, s, f);
    }
  }

  /** DBImpl::Get: memtable, immutable memtable, then the files. */
  method Get(mem: seq<Entry>, imm: Option<seq<Entry>>, v: Levels, tables: Tables, u: UserKey, s: SeqNo) returns (r: GetResult)
    requires Readable(v, tables, u, s)
    requires Sorted(mem) && (imm.Some? ==> Sorted(imm.value)) && ValidLevels(v)
    requires forall e :: e in mem || e in ImmEntries(imm) ==> e.Parses()
    requires Layered(mem, ImmEntries(imm), v) && DistinctVersions(AllEntries(mem, ImmEntries(imm), v))
    ensures Answers(r, Past(Elements(mem), u, s) && Past(Elements(ImmEntries(imm)), u, s) && LookupFails(v, tables, u, s),
                    AllEntries(mem, ImmEntries(imm), v), u, s)
  {
    ghost var all := AllEntries(mem, ImmEntries(imm), v);
    ghost var files := AllFiles(v, NUM_LEVELS);
    var hit := MemTableGet(mem, u, s);
    if hit.Some? {
      r := hit.value;
      ghost var e :| Newest(Elements(mem), u, s, e) && r == ResultOf(Answer(e));
      HitDecides({}, Elements(mem), Elements(ImmEntries(imm)) + files, u, s, e);
      assert {} + Elements(mem) + (Elements(ImmEntries(imm)) + files) == all;
      ReadIs(all, u, s, e);
      return;
    }
    if imm.Some? {
      hit := MemTableGet(imm.value, u, s);
      if hit.Some? {
        r := hit.value;
        ghost var e :| Newest(Elements(imm.value), u, s, e) && r == ResultOf(Answer(e));
        HitDecides(Elements(mem), Elements(imm.value), files, u, s, e);
        ReadIs(all, u, s, e);
        return;
      }
    }
    r := VersionGet(v, tables, u, s);
    ReadBelow(Elements(mem) + Elements(ImmEntries(imm)), files, u, s);
  }

  function ImmEntries(imm: Option<seq<Entry>>): seq<Entry> {
    if imm.Some? then imm.value else []
  }

  /** Exhausted sources do not change what is read. */
  lemma ReadBelow(newer: set<Entry>, older: set<Entry>, u: UserKey, s: SeqNo)
    requires DistinctVersions(newer + older) && Past(newer, u, s)
    ensures Read(newer + older, u, s) == Read(older, u, s)
  {
    if e :| Newest(older, u, s, e) {
      HitDecides(newer, older, {}, u, s, e);
      assert newer + older + {} == newer + older;
      ReadIs(older, u, s, e);
      ReadIs(newer + older, u, s, e);
    } else if e :| Newest(newer + older, u, s, e) {
      assert Visible(older, u, s, e);
      var _ := NewestExists(older, u, s, e);
    }
  }

  /** A healthy key that the store does not have: its neighbour is unparsable. */
  function FailingExample(): Levels {
    [[], [FileMeta(1, 1, InternalKey([1], 5, TYPE_VALUE), InternalKey([3], 5, 7),
                   [Entry(InternalKey([1], 5, TYPE_VALUE), [6]), Entry(InternalKey([3], 5, 7), [])])], [], [], [], [], []]
  }

  /**
   The lookup of a key that is absent and healthy reports corruption over an unparsable entry of
   another user key, when the table cache hands over the first entry at or after the lookup key.
   */
  lemma HealthyKeyFails(tables: Tables)
    requires tables(FailingExample()[1][0]) == Some(FailingExample()[1][0].entries[1])
    ensures var v := FailingExample();
            && ValidLevels(v) && LayeredLevels(v) && DistinctVersions(AllFiles(v, NUM_LEVELS)) && Readable(v, tables, [2], 10)
            && FirstFrom(v[1][0].entries, [2], 10, v[1][0].entries[1])
            && LookupFails(v, tables, [2], 10) && Read(AllFiles(v, NUM_LEVELS), [2], 10) == None
  {
    hide FailsAt, Candidate, Read, LayeredLevels, AllFiles, FirstFrom;
    var v := FailingExample();
    FailingFiles();
    FailingFile();
    FailingCandidate(tables);
    assert FailsAt(v, tables, 1, v[1][0], [2], 10);
    PastReadsNothing(AllFiles(v, NUM_LEVELS), [2], 10);
  }

  lemma FailingFile()
    ensures var f := FailingExample()[1][0]; f.Valid() && FirstFrom(f.entries, [2], 10, f.entries[1]) && ValidLevels(FailingExample())
  {
    var f := FailingExample()[1][0];
    var a, b := f.entries[0], f.entries[1];
    assert Compare([1], [2]) < 0 && Compare([2], [3]) < 0;
    assert f.entries == [a, b];
    assert Sorted(f.entries) && f.Valid();
  }

  lemma FailingCandidate(tables: Tables)
    requires Fails(tables, FailingExample()[1][0])
    ensures FailsAt(FailingExample(), tables, 1, FailingExample()[1][0], [2], 10)
    ensures Past({FailingExample()[1][0].entries[0], FailingExample()[1][0].entries[1]}, [2], 10)
  {
    var v := FailingExample();
    assert Compare([1], [2]) < 0 && Compare([2], [3]) < 0;
    assert PointsAt(v[1], 0, LookupKey([2], 10));
    assert Candidate(v, 1, v[1][0], [2], 10);
  }

  lemma FailingFiles()
    ensures var v := FailingExample();
            && AllFiles(v, NUM_LEVELS) == {v[1][0].entries[0], v[1][0].entries[1]} && LayeredLevels(v)
  {
    var v := FailingExample();
    var a, b := v[1][0].entries[0], v[1][0].entries[1];
    assert a in v[1][0].entries && b in v[1][0].entries;
    assert FileEntries(v[1]) == {a, b};
    assert AllFiles(v, 1) == {} && AllFiles(v, 2) == {a, b} && AllFiles(v, 3) == {a, b} && AllFiles(v, 4) == {a, b};
    assert AllFiles(v, 5) == {a, b} && AllFiles(v, 6) == {a, b};
  }
}
