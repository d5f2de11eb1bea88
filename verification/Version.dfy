/**
 Table files and versions (db/version_edit.h, db/version_set.h): which files sit at
 which level, each with its key range and its sorted contents.
 */
module Version {
  import opened Keys

  const NUM_LEVELS: nat := 7

  /** `entries` stands for the contents of the table file. */
  datatype FileMeta = FileMeta(number: nat, size: nat, smallest: InternalKey, largest: InternalKey, entries: seq<Entry>)
  {
    ghost predicate Valid() {
      && entries != []
      && Sorted(entries)
      && smallest == entries[0].key
      && largest == entries[|entries| - 1].key
    }

    /** The user-key range of the file contains `u`. */
    ghost predicate Covers(u: UserKey) {
      Rank(smallest.user) <= Rank(u) <= Rank(largest.user)
    }
  }

  /** Files of one level above 0: disjoint and ascending. Neighbours may share one user key. */
  ghost predicate SortedLevel(files: seq<FileMeta>) {
    forall i, j :: 0 <= i < j < |files| ==> Before(files[i].largest, files[j].smallest)
  }

  ghost predicate ValidFiles(files: seq<FileMeta>) {
    forall i :: 0 <= i < |files| ==> files[i].Valid()
  }

  type Levels = v: seq<seq<FileMeta>> | |v| == NUM_LEVELS witness [[], [], [], [], [], [], []]

  ghost predicate ValidLevels(v: Levels) {
    && (forall l :: 0 <= l < NUM_LEVELS ==> ValidFiles(v[l]))
    && (forall l :: 1 <= l < NUM_LEVELS ==> SortedLevel(v[l]))
  }

  function Elements(es: seq<Entry>): set<Entry> {
    set e | e in es
  }

  ghost function FileEntries(files: seq<FileMeta>): set<Entry> {
    set i, e | 0 <= i < |files| && e in files[i].entries :: e
  }

  /** Every entry lies in its file's user-key range. */
  lemma EntryCovered(f: FileMeta, e: Entry)
    requires f.Valid() && e in f.entries
    ensures f.Covers(e.key.user)
    ensures NotAfter(f.smallest, e.key) && NotAfter(e.key, f.largest)
  {
    var i :| 0 <= i < |f.entries| && f.entries[i] == e;
    assert i > 0 ==> Before(f.entries[0].key, e.key);
    assert i < |f.entries| - 1 ==> Before(e.key, f.entries[|f.entries| - 1].key);
  }
}
