/**
 Replaying the MANIFEST (VersionSet::Builder, WriteSnapshot and Recover, db/version_set.cc):
 one builder takes a whole sequence of edits and saves one version.
 */
module VersionBuilders {
  import opened Keys
  import opened Store
  import opened Coding
  import opened VersionEdits

  /** The internal key an encoded one stands for; shorter strings are no internal keys. */
  function ParseKey(s: Bytes): InternalKey {
    if |s| < 8 then InternalKey(s, 0, 0)
    else
      var tag := FromFixed(s[|s| - 8..]);
      InternalKey(s[..|s| - 8], tag / 256 % (MAX_SEQUENCE + 1), tag % 256)
  }

  /** An internal key is its user key and its tag in eight bytes, low byte first. */
  lemma ParsesEncoded(k: InternalKey)
    ensures ParseKey(k.user + Fixed(k.Tag(), 8)) == k
  {
    hide Fixed, FromFixed;
    var tag := Fixed(k.Tag(), 8);
    var s := k.user + tag;
    assert s[|s| - 8..] == tag && s[..|s| - 8] == k.user;
    FixedRoundTrip(k.Tag(), 8);
    assert Power256(8) == 0x1_0000_0000_0000_0000 by {
      assert Power256(2) == 0x1_0000 && Power256(4) == 0x1_0000_0000 && Power256(6) == 0x1_0000_0000_0000;
    }
    assert k.Tag() < 0x1_0000_0000_0000_0000 && k.Tag() / 256 == k.seqno && k.Tag() % 256 == k.kind;
  }

  /** BySmallestKey: smallest key first, then file number. */
  ghost predicate Precedes(f: File, g: File) {
    || Before(ParseKey(f.smallest), ParseKey(g.smallest))
    || (!Before(ParseKey(g.smallest), ParseKey(f.smallest)) && f.number < g.number)
  }

  function CompareFiles(f: File, g: File): (less: bool)
    ensures less <==> Precedes(f, g)
    ensures Before(ParseKey(f.smallest), ParseKey(g.smallest)) ==> less
    ensures ParseKey(f.smallest) == ParseKey(g.smallest) ==> (less <==> f.number < g.number)
  {
    var r := CompareInternal(ParseKey(f.smallest), ParseKey(g.smallest));
    if r != 0 then r < 0 else f.number < g.number
  }

  /** Neither comes first: a std::set takes the two for one element. They have the same number. */
  ghost predicate Tied(f: File, g: File) {
    !Precedes(f, g) && !Precedes(g, f)
  }

  /** The order of a set of added files, in which no two are tied. */
  ghost predicate InOrder(files: seq<File>) {
    forall i, j :: 0 <= i < j < |files| ==> Precedes(files[i], files[j])
  }

  /** The order of a level's files. */
  ghost predicate WeaklyOrdered(files: seq<File>) {
    forall i, j :: 0 <= i < j < |files| ==> !Precedes(files[j], files[i])
  }

  function Numbers(files: seq<File>): set<nat> {
    set f | f in files :: f.number
  }

  /** The files tied with `g`, in order. */
  ghost function TiedWith(files: seq<File>, g: File): seq<File> {
    if files == [] then [] else (if Tied(files[0], g) then [files[0]] else []) + TiedWith(files[1..], g)
  }

  /** What an edit does to one level. */
  datatype LevelEdit = LevelEdit(deleted: set<nat>, added: seq<File>)

  // ---- One level ----

  /** std::set::insert: a file tied with one already there is not added. */
  function WithFile(files: seq<File>, f: File): seq<File> {
    if files == [] then [f]
    else if CompareFiles(files[0], f) then [files[0]] + WithFile(files[1..], f)
    else if CompareFiles(f, files[0]) then [f] + files
    else files
  }

  function WithFiles(files: seq<File>, fs: seq<File>): seq<File> {
    if fs == [] then files else WithFile(WithFiles(files, fs[..|fs| - 1]), fs[|fs| - 1])
  }

  /** Of tied files the one of the base comes first. */
  function Merge(base: seq<File>, added: seq<File>): seq<File>
    decreases |base| + |added|
  {
    if base == [] then added
    else if added == [] then base
    else if CompareFiles(added[0], base[0]) then [added[0]] + Merge(base, added[1..])
    else [base[0]] + Merge(base[1..], added)
  }

  function Undeleted(files: seq<File>, deleted: set<nat>): seq<File> {
    if files == [] then []
    else (if files[0].number in deleted then [] else [files[0]]) + Undeleted(files[1..], deleted)
  }

  /** A builder's state for one level. */
  datatype LevelState = LevelState(base: seq<File>, deleted: set<nat>, added: seq<File>)

  function Applied(s: LevelState, e: LevelEdit): LevelState {
    LevelState(s.base, s.deleted + e.deleted - Numbers(e.added), WithFiles(s.added, e.added))
  }

  function Saved(s: LevelState): seq<File> {
    Undeleted(Merge(s.base, s.added), s.deleted)
  }

  function Start(files: seq<File>): LevelState {
    LevelState(files, {}, [])
  }

  /** One builder takes all the edits. */
  function AppliedAll(files: seq<File>, es: seq<LevelEdit>): LevelState {
    if es == [] then Start(files) else Applied(AppliedAll(files, es[..|es| - 1]), es[|es| - 1])
  }

  /** A version saved after every single edit. */
  function SavedEach(files: seq<File>, es: seq<LevelEdit>): seq<File> {
    if es == [] then files else Saved(Applied(Start(SavedEach(files, es[..|es| - 1])), es[|es| - 1]))
  }

  // ---- What becomes of tied files ----

  lemma Transitive(f: File, g: File, h: File)
    requires Precedes(f, g) && Precedes(g, h)
    ensures Precedes(f, h)
  {
  }

  /** Tied files are in the same place of the order. */
  lemma TiedAlike(f: File, g: File, h: File)
    requires Tied(f, g)
    ensures f.number == g.number && Tied(g, f)
    ensures (Precedes(f, h) <==> Precedes(g, h)) && (Precedes(h, f) <==> Precedes(h, g)) && (Tied(f, h) <==> Tied(g, h))
  {
  }

  lemma {:induction false} TiedMembers(files: seq<File>, g: File)
    ensures forall f :: f in TiedWith(files, g) <==> f in files && Tied(f, g)
  {
    hide Tied;
    if files != [] {
      TiedMembers(files[1..], g);
      assert files == [files[0]] + files[1..];
    }
  }

  lemma TiedFirst(f: File, rest: seq<File>, g: File)
    ensures TiedWith([f] + rest, g) == (if Tied(f, g) then [f] else []) + TiedWith(rest, g)
  {
    assert ([f] + rest)[1..] == rest;
  }

  lemma TiedNone(g: File)
    ensures TiedWith([], g) == []
  {
  }

  lemma {:induction false} TiedJoin(a: seq<File>, b: seq<File>, g: File)
    ensures TiedWith(a + b, g) == TiedWith(a, g) + TiedWith(b, g)
  {
    hide Tied;
    if a == [] {
      assert a + b == b;
    } else {
      TiedJoin(a[1..], b, g);
      assert (a + b)[0] == a[0] && (a + b)[1..] == a[1..] + b;
    }
  }

  lemma {:induction false} TiedPlace(files: seq<File>, f: File, g: File)
    requires Tied(f, g)
    ensures TiedWith(files, f) == TiedWith(files, g)
  {
    hide Tied, Precedes;
    if files != [] {
      TiedPlace(files[1..], f, g);
      TiedAlike(f, g, files[0]);
      if Tied(files[0], f) { TiedAlike(files[0], f, g); }
      if Tied(files[0], g) { TiedAlike(files[0], g, f); }
    }
  }

  lemma {:induction false} NoneTiedIn(files: seq<File>, g: File)
    requires forall f :: f in files ==> !Tied(f, g)
    ensures TiedWith(files, g) == []
  {
    hide Tied;
    if files != [] { NoneTiedIn(files[1..], g); }
  }

  /** Nothing behind the first of an ordered list is tied with what comes before it. */
  lemma NoneTied(files: seq<File>, f: File, g: File)
    requires InOrder(files) && Tied(f, g) && (files != [] ==> Precedes(f, files[0]))
    ensures TiedWith(files, g) == []
  {
    hide Precedes;
    forall i | 0 <= i < |files|
      ensures !Tied(files[i], g)
    {
      if i > 0 { Transitive(f, files[0], files[i]); }
      TiedAlike(f, g, files[i]);
    }
    NoneTiedIn(files, g);
  }

  /** A file is added exactly when none is tied with it. */
  lemma {:induction false} WithFileIs(files: seq<File>, f: File, g: File)
    requires InOrder(files)
    ensures InOrder(WithFile(files, f)) && forall x :: x in WithFile(files, f) ==> x in files || x == f
    ensures TiedWith(WithFile(files, f), g) == if TiedWith(files, g) == [] && Tied(f, g) then [f] else TiedWith(files, g)
  {
    hide Precedes, Tied, TiedWith;
    TiedNone(g);
    if files == [] {
      TiedFirst(f, [], g);
      assert [f] + [] == [f];
    } else {
      TiedFirst(files[0], files[1..], g);
      assert files == [files[0]] + files[1..];
      if Precedes(files[0], f) {
        var rest := WithFile(files[1..], f);
        WithFileIs(files[1..], f, g);
        assert forall x :: x in files[1..] ==> Precedes(files[0], x);
        assert forall i :: 0 <= i < |rest| ==> rest[i] in rest;
        assert forall i :: 0 < i < |rest| + 1 ==> ([files[0]] + rest)[i] == rest[i - 1];
        if Tied(files[0], g) && Tied(f, g) { TiedApart(files[0], f, g); }
        TiedFirst(files[0], rest, g);
      } else if Precedes(f, files[0]) {
        forall i | 0 <= i < |files|
          ensures Precedes(f, files[i])
        {
          if i > 0 { Transitive(f, files[0], files[i]); }
        }
        assert forall i :: 0 < i < |files| + 1 ==> ([f] + files)[i] == files[i - 1];
        if Tied(f, g) { NoneTied(files, f, g); }
        TiedFirst(f, files, g);
      } else {
        BothWays(f, files[0]);
        TiedAlike(f, files[0], g);
      }
    }
  }

  lemma TiedApart(f: File, g: File, h: File)
    requires Precedes(f, g) && Tied(f, h)
    ensures !Tied(g, h)
  {
  }

  lemma BothWays(f: File, g: File)
    requires !Precedes(f, g) && !Precedes(g, f)
    ensures Tied(f, g)
  {
  }

  function Head(files: seq<File>): seq<File> {
    if files == [] then [] else [files[0]]
  }

  /** Of tied files a set takes the first. */
  lemma {:induction false} WithFilesIs(files: seq<File>, fs: seq<File>, g: File)
    requires InOrder(files)
    ensures InOrder(WithFiles(files, fs))
    ensures TiedWith(WithFiles(files, fs), g) == if TiedWith(files, g) != [] then TiedWith(files, g) else Head(TiedWith(fs, g))
  {
    hide InOrder, Tied, WithFile;
    if fs != [] {
      var front, last := fs[..|fs| - 1], fs[|fs| - 1];
      WithFilesIs(files, front, g);
      WithFileIs(WithFiles(files, front), last, g);
      TiedJoin(front, [last], g);
      assert fs == front + [last];
      assert TiedWith([last], g) == if Tied(last, g) then [last] else [];
    }
  }

  lemma RestOrdered(files: seq<File>)
    requires WeaklyOrdered(files) && files != []
    ensures WeaklyOrdered(files[1..]) && forall x :: x in files ==> !Precedes(x, files[0])
  {
    assert forall i :: 0 <= i < |files| - 1 ==> files[1..][i] == files[i + 1];
    forall x | x in files
      ensures !Precedes(x, files[0])
    {
      var i :| 0 <= i < |files| && files[i] == x;
    }
  }

  lemma FirstOrdered(f: File, rest: seq<File>)
    requires WeaklyOrdered(rest) && forall x :: x in rest ==> !Precedes(x, f)
    ensures WeaklyOrdered([f] + rest)
  {
    hide Precedes;
    assert forall i :: 0 < i < |rest| + 1 ==> ([f] + rest)[i] == rest[i - 1] && rest[i - 1] in rest;
  }

  lemma OrderIsWeak(files: seq<File>)
    requires InOrder(files)
    ensures WeaklyOrdered(files) && (files != [] ==> InOrder(files[1..]))
  {
    assert forall i :: 0 <= i < |files| - 1 ==> files != [] ==> files[1..][i] == files[i + 1];
  }

  lemma {:induction false} MergeOrdered(base: seq<File>, added: seq<File>)
    requires WeaklyOrdered(base) && WeaklyOrdered(added)
    ensures WeaklyOrdered(Merge(base, added)) && forall x :: x in Merge(base, added) ==> x in base || x in added
    decreases |base| + |added|
  {
    hide Precedes, WeaklyOrdered;
    if base != [] && added != [] {
      RestOrdered(added);
      RestOrdered(base);
      if Precedes(added[0], base[0]) {
        var rest := Merge(base, added[1..]);
        MergeOrdered(base, added[1..]);
        forall x | x in rest
          ensures !Precedes(x, added[0])
        {
          if x in base { Asymmetric(added[0], base[0], x); }
        }
        FirstOrdered(added[0], rest);
      } else {
        var rest := Merge(base[1..], added);
        MergeOrdered(base[1..], added);
        forall x | x in rest
          ensures !Precedes(x, base[0])
        {
          if x in added { NotBefore(x, added[0], base[0]); }
        }
        FirstOrdered(base[0], rest);
      }
    }
  }

  /** Of tied files the merge has those of the base in front. */
  lemma {:induction false} MergeIs(base: seq<File>, added: seq<File>, g: File)
    requires WeaklyOrdered(base) && WeaklyOrdered(added)
    ensures TiedWith(Merge(base, added), g) == TiedWith(base, g) + TiedWith(added, g)
    decreases |base| + |added|
  {
    hide Precedes, Tied, WeaklyOrdered, TiedWith;
    TiedNone(g);
    if base != [] && added != [] {
      RestOrdered(added);
      RestOrdered(base);
      if Precedes(added[0], base[0]) {
        MergeIs(base, added[1..], g);
        TiedFirst(added[0], Merge(base, added[1..]), g);
        TiedFirst(added[0], added[1..], g);
        assert added == [added[0]] + added[1..];
        if Tied(added[0], g) { NoneTiedBehind(base, added[0], g); }
      } else {
        MergeIs(base[1..], added, g);
        TiedFirst(base[0], Merge(base[1..], added), g);
        TiedFirst(base[0], base[1..], g);
        assert base == [base[0]] + base[1..];
      }
    }
  }

  lemma Asymmetric(f: File, g: File, h: File)
    requires Precedes(f, g) && !Precedes(h, g)
    ensures !Precedes(h, f) && Precedes(f, h)
  {
  }

  lemma NotBefore(f: File, g: File, h: File)
    requires !Precedes(f, g) && !Precedes(g, h)
    ensures !Precedes(f, h)
  {
  }

  lemma NoneTiedBehind(files: seq<File>, f: File, g: File)
    requires WeaklyOrdered(files) && Tied(f, g) && files != [] && Precedes(f, files[0])
    ensures TiedWith(files, g) == []
  {
    hide Precedes, Tied;
    RestOrdered(files);
    forall x | x in files
      ensures !Tied(x, g)
    {
      Asymmetric(f, files[0], x);
      TiedApart(f, x, g);
    }
    NoneTiedIn(files, g);
  }

  lemma {:induction false} UndeletedIs(files: seq<File>, deleted: set<nat>, g: File)
    requires WeaklyOrdered(files)
    ensures WeaklyOrdered(Undeleted(files, deleted)) && forall x :: x in Undeleted(files, deleted) ==> x in files
    ensures TiedWith(Undeleted(files, deleted), g) == if g.number in deleted then [] else TiedWith(files, g)
  {
    hide Precedes, Tied, WeaklyOrdered;
    if files != [] {
      RestOrdered(files);
      UndeletedIs(files[1..], deleted, g);
      var rest := Undeleted(files[1..], deleted);
      FirstOrdered(files[0], rest);
      if Tied(files[0], g) { TiedAlike(files[0], g, g); }
      assert [] + rest == rest && ([files[0]] + rest)[1..] == rest;
    }
  }

  /** What a level's builder saves: base before added, without the deleted numbers. */
  lemma SavedIs(s: LevelState, g: File)
    requires WeaklyOrdered(s.base) && InOrder(s.added)
    ensures WeaklyOrdered(Saved(s))
    ensures TiedWith(Saved(s), g) == if g.number in s.deleted then [] else TiedWith(s.base, g) + TiedWith(s.added, g)
  {
    hide WeaklyOrdered, InOrder, Tied;
    OrderIsWeak(s.added);
    MergeOrdered(s.base, s.added);
    MergeIs(s.base, s.added, g);
    UndeletedIs(Merge(s.base, s.added), s.deleted, g);
  }

  lemma SavedOrdered(s: LevelState)
    requires WeaklyOrdered(s.base) && InOrder(s.added)
    ensures WeaklyOrdered(Saved(s))
  {
    SavedIs(s, File(0, 0, [], []));
  }

  /** Lists in order are the same as soon as they have the same tied files in the same order. */
  lemma {:induction false} OrderDetermines(a: seq<File>, b: seq<File>)
    requires WeaklyOrdered(a) && WeaklyOrdered(b) && forall g :: TiedWith(a, g) == TiedWith(b, g)
    ensures a == b
  {
    hide WeaklyOrdered, Tied, Precedes;
    if a == [] || b == [] {
      if a != [] { FirstsTied(b, a); }
      if b != [] { FirstsTied(a, b); }
    } else {
      FirstsTied(a, b);
      FirstsTied(b, a);
      RestOrdered(a);
      RestOrdered(b);
      BothWays(a[0], b[0]);
      TiedPlace(b, a[0], b[0]);
      SelfTied(a[0]);
      SelfTied(b[0]);
      assert TiedWith(a, a[0])[0] == a[0] && TiedWith(b, b[0])[0] == b[0];
      forall g
        ensures TiedWith(a[1..], g) == TiedWith(b[1..], g)
      {
        assert TiedWith(a, g) == TiedWith(b, g);
        assert TiedWith(a[1..], g) == TiedWith(a, g)[if Tied(a[0], g) then 1 else 0..];
        assert TiedWith(b[1..], g) == TiedWith(b, g)[if Tied(b[0], g) then 1 else 0..];
      }
      OrderDetermines(a[1..], b[1..]);
      assert a == [a[0]] + a[1..] && b == [b[0]] + b[1..];
    }
  }

  lemma SelfTied(f: File)
    ensures Tied(f, f)
  {
  }

  /** The first of `b` is tied with something in `a`. */
  lemma FirstsTied(a: seq<File>, b: seq<File>)
    requires b != [] && forall g :: TiedWith(a, g) == TiedWith(b, g)
    ensures a != []
    ensures WeaklyOrdered(a) ==> !Precedes(b[0], a[0])
  {
    hide Tied, Precedes, WeaklyOrdered;
    SelfTied(b[0]);
    assert TiedWith(b, b[0])[0] == b[0];
    assert TiedWith(a, b[0]) == TiedWith(b, b[0]);
    TiedMembers(a, b[0]);
    assert b[0] in TiedWith(a, b[0]);
    if WeaklyOrdered(a) { RestOrdered(a); }
  }

  // ---- One builder for many edits ----

  /** After this edit no file of the number is left. */
  predicate Drops(e: LevelEdit, n: nat) {
    n in e.deleted && n !in Numbers(e.added)
  }

  /** How many edits there are up to the last that drops the number. */
  function LastDrop(es: seq<LevelEdit>, n: nat): (d: nat)
    ensures d <= |es|
  {
    if es == [] then 0 else if Drops(es[|es| - 1], n) then |es| else LastDrop(es[..|es| - 1], n)
  }

  /** The number has been dropped and not been added again. */
  ghost predicate Gone(es: seq<LevelEdit>, n: nat) {
    var d := LastDrop(es, n);
    d > 0 && forall i :: d <= i < |es| ==> n !in Numbers(es[i].added)
  }

  /** What the edits add in the place of `g`: of each edit the first such file. */
  ghost function Additions(es: seq<LevelEdit>, g: File): seq<File> {
    if es == [] then [] else Additions(es[..|es| - 1], g) + Head(TiedWith(es[|es| - 1].added, g))
  }

  lemma {:induction false} AppliedIs(files: seq<File>, es: seq<LevelEdit>, g: File)
    ensures var s := AppliedAll(files, es);
            && s.base == files && InOrder(s.added)
            && TiedWith(s.added, g) == Head(Additions(es, g))
            && (g.number in s.deleted <==> Gone(es, g.number))
  {
    hide TiedWith, InOrder, WithFiles, Numbers, Gone;
    if es == [] {
      NothingInOrder();
      NothingGone(g.number);
      assert TiedWith([], g) == [] by { NoneTiedIn([], g); }
    } else {
      var front, e := es[..|es| - 1], es[|es| - 1];
      AppliedIs(files, front, g);
      WithFilesIs(AppliedAll(files, front).added, e.added, g);
      GoneNext(es, g.number);
    }
  }

  lemma NothingGone(n: nat)
    ensures !Gone([], n)
  {
  }

  lemma GoneNext(es: seq<LevelEdit>, n: nat)
    requires es != []
    ensures var e := es[|es| - 1]; Gone(es, n) <==> (Gone(es[..|es| - 1], n) || n in e.deleted) && n !in Numbers(e.added)
  {
    hide Numbers;
    var front := es[..|es| - 1];
    assert forall i :: 0 <= i < |front| ==> es[i] == front[i];
  }

  lemma NothingInOrder()
    ensures InOrder([])
  {
  }

  /** What one builder saves, whatever the edits are: in every place the base files and the first file ever added there, unless their number is gone. */
  lemma ReplayIs(files: seq<File>, es: seq<LevelEdit>, g: File)
    requires WeaklyOrdered(files)
    ensures WeaklyOrdered(Saved(AppliedAll(files, es)))
    ensures TiedWith(Saved(AppliedAll(files, es)), g) == if Gone(es, g.number) then [] else TiedWith(files, g) + Head(Additions(es, g))
  {
    hide WeaklyOrdered, Saved, InOrder;
    AppliedIs(files, es, g);
    SavedIs(AppliedAll(files, es), g);
  }

  lemma SavedOnce(v: seq<File>, e: LevelEdit, g: File)
    requires WeaklyOrdered(v)
    ensures WeaklyOrdered(Saved(Applied(Start(v), e)))
    ensures TiedWith(Saved(Applied(Start(v), e)), g) == if Drops(e, g.number) then [] else TiedWith(v, g) + Head(TiedWith(e.added, g))
  {
    hide WeaklyOrdered, Saved, InOrder, WithFiles, Tied, Head;
    NothingInOrder();
    WithFilesIs([], e.added, g);
    SavedIs(Applied(Start(v), e), g);
  }

  /** What is there after a save per edit: everything added to a place since its number was last dropped, and the base files if it never was. */
  lemma {:induction false} SavedEachIs(files: seq<File>, es: seq<LevelEdit>, g: File)
    requires WeaklyOrdered(files)
    ensures WeaklyOrdered(SavedEach(files, es))
    ensures var d := LastDrop(es, g.number);
            TiedWith(SavedEach(files, es), g) == (if d == 0 then TiedWith(files, g) else []) + Additions(es[d..], g)
  {
    hide WeaklyOrdered, Saved, Applied, TiedWith, Drops, Head;
    if es != [] {
      var front, e := es[..|es| - 1], es[|es| - 1];
      var d := LastDrop(es, g.number);
      SavedEachIs(files, front, g);
      SavedOnce(SavedEach(files, front), e, g);
      if d < |es| { AdditionsNext(es, d, g); }
    }
  }

  lemma AdditionsNext(es: seq<LevelEdit>, d: nat, g: File)
    requires d < |es|
    ensures var n := |es| - 1; Additions(es[d..], g) == Additions(es[..n][d..], g) + Head(TiedWith(es[n].added, g))
  {
    hide TiedWith, Head;
    var n, tail := |es| - 1, es[d..];
    assert tail[..|tail| - 1] == es[..n][d..] && tail[|tail| - 1] == es[n];
  }

  lemma {:induction false} AdditionsSplit(es: seq<LevelEdit>, d: nat, g: File)
    requires d <= |es|
    ensures Additions(es, g) == Additions(es[..d], g) + Additions(es[d..], g)
  {
    hide TiedWith, Head;
    if d < |es| {
      var front := es[..|es| - 1];
      AdditionsSplit(front, d, g);
      assert front[..d] == es[..d] && es[d..][..|es[d..]| - 1] == front[d..];
    } else {
      assert es[..d] == es;
    }
  }

  /** All files the level has ever been given. */
  function Held(files: seq<File>, es: seq<LevelEdit>): seq<File> {
    if es == [] then files else Held(files, es[..|es| - 1]) + es[|es| - 1].added
  }

  /**
   The place of `g` is kept by a single builder. If there was something before its number was last
   dropped, that comes back, and so must be what has been added since. If not, at most one edit
   has added to the place: a set does not take a second file.
   */
  ghost predicate Kept(files: seq<File>, es: seq<LevelEdit>, g: File) {
    var d := LastDrop(es, g.number);
    if d > 0 && TiedWith(files, g) + Additions(es[..d], g) != [] then
      Additions(es[d..], g) == TiedWith(files, g) + Head(Additions(es, g))
    else
      |Additions(es[d..], g)| <= 1
  }

  lemma KeptIff(files: seq<File>, es: seq<LevelEdit>, g: File)
    requires WeaklyOrdered(files)
    ensures TiedWith(Saved(AppliedAll(files, es)), g) == TiedWith(SavedEach(files, es), g) <==> Gone(es, g.number) || Kept(files, es, g)
  {
    hide WeaklyOrdered, Saved, AppliedAll, SavedEach, TiedWith, Additions, Gone, LastDrop;
    var d := LastDrop(es, g.number);
    ReplayIs(files, es, g);
    SavedEachIs(files, es, g);
    AdditionsSplit(es, d, g);
    NothingBefore(es, g);
    if Gone(es, g.number) { GoneEmpty(es, g); }
    SameHead(TiedWith(files, g), Additions(es[..d], g), Additions(es[d..], g));
  }

  lemma NothingBefore(es: seq<LevelEdit>, g: File)
    ensures Additions(es[..0], g) == []
  {
  }

  lemma GoneEmpty(es: seq<LevelEdit>, g: File)
    requires Gone(es, g.number)
    ensures LastDrop(es, g.number) > 0 && Additions(es[LastDrop(es, g.number)..], g) == []
  {
    NothingAdded(es[LastDrop(es, g.number)..], g);
  }

  lemma SameHead(base: seq<File>, before: seq<File>, since: seq<File>)
    ensures base + Head(before + since) == base + since <==> Head(before + since) == since
    ensures base + before == [] ==> base == [] && before + since == since && base + Head(since) == Head(since)
    ensures before == [] ==> before + since == since
    ensures Head(since) == since <==> |since| <= 1
    ensures [] + since == since
  {
    if base + Head(before + since) == base + since {
      assert (base + since)[|base|..] == since && (base + Head(before + since))[|base|..] == Head(before + since);
    }
  }

  lemma {:induction false} NothingAdded(es: seq<LevelEdit>, g: File)
    requires forall i :: 0 <= i < |es| ==> g.number !in Numbers(es[i].added)
    ensures Additions(es, g) == []
  {
    hide Tied;
    if es != [] {
      NothingAdded(es[..|es| - 1], g);
      var added := es[|es| - 1].added;
      forall f | f in added
        ensures !Tied(f, g)
      {
        if Tied(f, g) { TiedAlike(f, g, g); }
      }
      NoneTiedIn(added, g);
    }
  }

  /** A place that nothing was ever held in stays empty. */
  lemma {:induction false} NothingHeld(files: seq<File>, es: seq<LevelEdit>, g: File)
    requires forall f :: f in Held(files, es) ==> !Tied(f, g)
    ensures TiedWith(files, g) == [] && Additions(es, g) == []
  {
    hide Tied;
    if es == [] {
      NoneTiedIn(files, g);
    } else {
      NothingHeld(files, es[..|es| - 1], g);
      NoneTiedIn(es[|es| - 1].added, g);
    }
  }

  /** The exact condition, over the files the level has ever been given. */
  lemma ReplayIsStepwiseIff(files: seq<File>, es: seq<LevelEdit>)
    requires WeaklyOrdered(files)
    ensures Saved(AppliedAll(files, es)) == SavedEach(files, es)
      <==> forall g :: g in Held(files, es) ==> Gone(es, g.number) || Kept(files, es, g)
  {
    hide WeaklyOrdered, Saved, AppliedAll, SavedEach, Held, Gone, Kept, TiedWith, Tied;
    forall g | g in Held(files, es)
      ensures TiedWith(Saved(AppliedAll(files, es)), g) == TiedWith(SavedEach(files, es), g) <==> Gone(es, g.number) || Kept(files, es, g)
    {
      KeptIff(files, es, g);
    }
    if forall g :: g in Held(files, es) ==> Gone(es, g.number) || Kept(files, es, g) {
      var any := File(0, 0, [], []);
      ReplayIs(files, es, any);
      SavedEachIs(files, es, any);
      forall g
        ensures TiedWith(Saved(AppliedAll(files, es)), g) == TiedWith(SavedEach(files, es), g)
      {
        if f :| f in Held(files, es) && Tied(f, g) {
          TiedPlace(Saved(AppliedAll(files, es)), f, g);
          TiedPlace(SavedEach(files, es), f, g);
        } else {
          EmptyPlace(files, es, g);
        }
      }
      OrderDetermines(Saved(AppliedAll(files, es)), SavedEach(files, es));
    }
  }

  lemma EmptyPlace(files: seq<File>, es: seq<LevelEdit>, g: File)
    requires WeaklyOrdered(files) && forall f :: f in Held(files, es) ==> !Tied(f, g)
    ensures TiedWith(Saved(AppliedAll(files, es)), g) == TiedWith(SavedEach(files, es), g)
  {
    hide WeaklyOrdered, Saved, AppliedAll, SavedEach, Held, TiedWith, Tied, Gone;
    NothingHeld(files, es, g);
    AdditionsSplit(es, LastDrop(es, g.number), g);
    KeptIff(files, es, g);
  }

  /** No edit adds a file under a number the level has held. */
  ghost predicate NeverReused(files: seq<File>, es: seq<LevelEdit>) {
    es == [] || (NeverReused(files, es[..|es| - 1]) && Numbers(Held(files, es[..|es| - 1])) !! Numbers(es[|es| - 1].added))
  }

  lemma {:induction false} NotAddedAgain(files: seq<File>, es: seq<LevelEdit>, d: nat, i: nat, n: nat)
    requires NeverReused(files, es) && d <= i < |es| && n in Numbers(Held(files, es[..d]))
    ensures n !in Numbers(es[i].added) && n in Numbers(Held(files, es[..|es| - 1]))
  {
    var front := es[..|es| - 1];
    if i < |front| {
      assert front[..d] == es[..d];
      NotAddedAgain(files, front, d, i, n);
      assert Numbers(Held(files, front[..|front| - 1])) <= Numbers(Held(files, front));
    } else {
      HeldGrows(files, front, d);
      assert front[..d] == es[..d];
    }
  }

  lemma {:induction false} HeldGrows(files: seq<File>, es: seq<LevelEdit>, d: nat)
    requires d <= |es|
    ensures Numbers(Held(files, es[..d])) <= Numbers(Held(files, es))
  {
    if d < |es| {
      HeldGrows(files, es[..|es| - 1], d);
      assert es[..|es| - 1][..d] == es[..d];
    } else {
      assert es[..d] == es;
    }
  }

  /** Whatever is in a place has a number that was held. */
  lemma PlaceHeld(files: seq<File>, es: seq<LevelEdit>, g: File)
    requires g.number !in Numbers(Held(files, es))
    ensures TiedWith(files, g) == [] && Additions(es, g) == []
  {
    hide Tied, Held;
    forall f | f in Held(files, es)
      ensures !Tied(f, g)
    {
      if Tied(f, g) { TiedAlike(f, g, g); }
    }
    NothingHeld(files, es, g);
  }

  lemma {:induction false} AddedOnce(files: seq<File>, es: seq<LevelEdit>, g: File)
    requires NeverReused(files, es)
    ensures |Additions(es, g)| <= 1
  {
    hide Held, TiedWith;
    if es != [] {
      var front, e := es[..|es| - 1], es[|es| - 1];
      AddedOnce(files, front, g);
      if g.number in Numbers(Held(files, front)) {
        NothingAdded([e], g);
        assert [e][..0] == [];
        assert Additions([e], g) == Additions([], g) + Head(TiedWith(e.added, g));
      } else {
        PlaceHeld(files, front, g);
      }
    }
  }

  /** One builder for all edits saves the same files as one per edit, in particular if no number is used twice. */
  lemma ReplayIsStepwise(files: seq<File>, es: seq<LevelEdit>)
    requires WeaklyOrdered(files) && NeverReused(files, es)
    ensures Saved(AppliedAll(files, es)) == SavedEach(files, es)
  {
    hide WeaklyOrdered, Saved, AppliedAll, SavedEach, Held, TiedWith, Additions, NeverReused;
    forall g | g in Held(files, es)
      ensures Gone(es, g.number) || Kept(files, es, g)
    {
      var d := LastDrop(es, g.number);
      AdditionsSplit(es, d, g);
      AddedOnce(files, es, g);
      if d > 0 && TiedWith(files, g) + Additions(es[..d], g) != [] {
        if g.number !in Numbers(Held(files, es[..d])) { PlaceHeld(files, es[..d], g); }
        forall i | d <= i < |es|
          ensures g.number !in Numbers(es[i].added)
        {
          NotAddedAgain(files, es, d, i, g.number);
        }
      }
    }
    ReplayIsStepwiseIff(files, es);
  }

  lemma Few(f: File, g: File)
    ensures WithFiles([], [f]) == [f] && WithFiles([], []) == []
    ensures WithFiles([f], [g]) == if Precedes(f, g) then [f, g] else if Precedes(g, f) then [g, f] else [f]
    ensures Merge([f], [g]) == if Precedes(g, f) then [g, f] else [f, g]
    ensures Undeleted([f, g], {}) == [f, g] && Undeleted([f], {}) == [f] && Undeleted([f], {f.number}) == []
    ensures Numbers([f]) == {f.number} && Numbers([]) == {}
  {
    assert [f][..0] == [] && [f][1..] == [] && [g][..0] == [] && [g][1..] == [] && [f, g][1..] == [g];
    assert WithFiles([], [f]) == WithFile(WithFiles([], []), f);
    assert WithFiles([f], [g]) == WithFile(WithFiles([f], []), g);
    assert WithFile([], g) == [g];
    assert Merge([], [g]) == [g] && Merge([f], []) == [f];
    assert Undeleted([g], {}) == [g] + Undeleted([], {});
    assert Undeleted([f], {}) == [f] + Undeleted([], {});
  }

  lemma TwoEdits(files: seq<File>, e1: LevelEdit, e2: LevelEdit)
    ensures AppliedAll(files, [e1, e2]) == Applied(Applied(Start(files), e1), e2)
    ensures SavedEach(files, [e1, e2]) == Saved(Applied(Start(Saved(Applied(Start(files), e1))), e2))
  {
    hide Saved, Applied;
    var es := [e1, e2];
    assert es[..1] == [e1] && [e1][..0] == [];
    assert AppliedAll(files, []) == Start(files) && SavedEach(files, []) == files;
    assert AppliedAll(files, [e1]) == Applied(Start(files), e1) && SavedEach(files, [e1]) == Saved(Applied(Start(files), e1));
  }

  /** When a number comes back, a single builder brings the old file back with it. */
  lemma ReuseResurrects(f: File, g: File)
    requires f.number == g.number
    ensures var es := [LevelEdit({f.number}, []), LevelEdit({}, [g])];
            && SavedEach([f], es) == [g]
            && Saved(AppliedAll([f], es)) == if Precedes(g, f) then [g, f] else [f, g]
  {
    hide WithFiles, Undeleted, Numbers, Precedes;
    TwoEdits([f], LevelEdit({f.number}, []), LevelEdit({}, [g]));
    Few(f, g);
    Few(g, f);
    var none: set<nat> := {};
    assert none + {f.number} - none == {f.number} && none + none - {f.number} == none && {f.number} + none - {f.number} == none;
    assert Merge([f], []) == [f] && Merge([], [g]) == [g];
  }

  /** A second file tied with the first is lost by a single builder, and kept by a save per edit. */
  lemma SecondIgnored(f: File, g: File)
    requires Tied(f, g)
    ensures var es := [LevelEdit({}, [f]), LevelEdit({}, [g])];
            && SavedEach([], es) == [f, g]
            && Saved(AppliedAll([], es)) == [f]
  {
    hide WithFiles, Undeleted, Numbers, Precedes;
    TwoEdits([], LevelEdit({}, [f]), LevelEdit({}, [g]));
    Few(f, g);
    Few(g, f);
    var none: set<nat> := {};
    assert none + none - {f.number} == none && none + none - {g.number} == none;
    assert Merge([], [f]) == [f] && Merge([], []) == [];
  }

  // ---- The builder ----

  /** std::set::insert, in the order of the set. */
  method Insert(files: seq<File>, f: File) returns (r: seq<File>)
    requires InOrder(files)
    ensures r == WithFile(files, f) && InOrder(r)
    ensures if exists g :: g in files && Tied(f, g) then r == files else multiset(r) == multiset(files) + multiset{f}
  {
    hide InOrder, Precedes, Tied, WithFile;
    var i := 0;
    while i < |files| && CompareFiles(files[i], f)
      invariant i <= |files| && forall k :: 0 <= k < i ==> Precedes(files[k], f)
    {
      i := i + 1;
    }
    WithFileIs(files, f, f);
    WithFileAt(files, f, i);
    if i < |files| && !CompareFiles(f, files[i]) {
      AmongThem(files, f, i);
      r := files;
    } else {
      NoneAmong(files, f, i);
      r := files[..i] + [f] + files[i..];
    }
  }

  lemma AmongThem(files: seq<File>, f: File, i: nat)
    requires i < |files| && !Precedes(f, files[i]) && !Precedes(files[i], f)
    ensures exists g :: g in files && Tied(f, g)
  {
    assert files[i] in files;
  }

  lemma {:induction false} WithFileAt(files: seq<File>, f: File, i: nat)
    requires i <= |files| && (forall k :: 0 <= k < i ==> Precedes(files[k], f)) && (i < |files| ==> !Precedes(files[i], f))
    ensures WithFile(files, f) == if i < |files| && !Precedes(f, files[i]) then files else files[..i] + [f] + files[i..]
  {
    hide Precedes;
    if i > 0 {
      WithFileAt(files[1..], f, i - 1);
      assert files == [files[0]] + files[1..] && files[..i] == [files[0]] + files[1..][..i - 1] && files[1..][i - 1..] == files[i..];
    }
  }

  /** Between what comes before `f` and what comes after there is nothing tied with it. */
  lemma NoneAmong(files: seq<File>, f: File, i: nat)
    requires InOrder(files) && i <= |files| && forall k :: 0 <= k < i ==> Precedes(files[k], f)
    requires i < |files| ==> Precedes(f, files[i])
    ensures !exists g :: g in files && Tied(f, g)
    ensures multiset(files[..i] + [f] + files[i..]) == multiset(files) + multiset{f}
  {
    hide Precedes;
    assert files == files[..i] + files[i..];
    forall k | 0 <= k < |files|
      ensures !Tied(f, files[k])
    {
      if k > i { Transitive(f, files[i], files[k]); }
    }
  }

  /** The merge of SaveTo for one level: base files and added files by smallest key, without the deleted. */
  method SaveLevel(base: seq<File>, deleted: set<nat>, added: seq<File>) returns (r: seq<File>)
    requires WeaklyOrdered(base) && InOrder(added)
    ensures r == Saved(LevelState(base, deleted, added)) && WeaklyOrdered(r)
    ensures forall g :: TiedWith(r, g) == if g.number in deleted then [] else TiedWith(base, g) + TiedWith(added, g)
  {
    hide Saved, Precedes, WeaklyOrdered, InOrder, TiedWith, MaybeAddFile;
    ghost var s := LevelState(base, deleted, added);
    r := [];
    var b: nat, a: nat := 0, 0;
    assert base[0..] == base && added[0..] == added;
    while a < |added|
      invariant a <= |added| && b <= |base| && Saved(s) == r + Saved(LevelState(base[b..], deleted, added[a..]))
    {
      while b < |base| && !CompareFiles(added[a], base[b])
        invariant b <= |base| && Saved(s) == r + Saved(LevelState(base[b..], deleted, added[a..]))
      {
        MergeStep(base, deleted, added, b, a, r);
        r := MaybeAddFile(r, base[b], deleted);
        b := b + 1;
      }
      MergeStep(base, deleted, added, b, a, r);
      r := MaybeAddFile(r, added[a], deleted);
      a := a + 1;
    }
    while b < |base|
      invariant b <= |base| && Saved(s) == r + Saved(LevelState(base[b..], deleted, added[|added|..]))
    {
      MergeStep(base, deleted, added, b, |added|, r);
      r := MaybeAddFile(r, base[b], deleted);
      b := b + 1;
    }
    NothingLeft(deleted);
    assert base[|base|..] == [] && added[|added|..] == [] && r + [] == r;
    SavedOrdered(s);
    forall g
      ensures TiedWith(r, g) == if g.number in deleted then [] else TiedWith(base, g) + TiedWith(added, g)
    {
      SavedIs(s, g);
    }
  }

  function MaybeAddFile(files: seq<File>, f: File, deleted: set<nat>): seq<File> {
    if f.number in deleted then files else files + [f]
  }

  lemma MergeStep(base: seq<File>, deleted: set<nat>, added: seq<File>, b: nat, a: nat, r: seq<File>)
    requires b <= |base| && a <= |added| && (b < |base| || a < |added|)
    ensures var now := r + Saved(LevelState(base[b..], deleted, added[a..]));
            if a < |added| && (b < |base| ==> Precedes(added[a], base[b])) then
              now == MaybeAddFile(r, added[a], deleted) + Saved(LevelState(base[b..], deleted, added[a + 1..]))
            else
              now == MaybeAddFile(r, base[b], deleted) + Saved(LevelState(base[b + 1..], deleted, added[a..]))
  {
    hide Precedes;
    var bs, more := base[b..], added[a..];
    assert b < |base| ==> bs[0] == base[b] && bs[1..] == base[b + 1..];
    assert a < |added| ==> more[0] == added[a] && more[1..] == added[a + 1..];
    if a < |added| && (b < |base| ==> Precedes(added[a], base[b])) {
      FirstKept(added[a], Merge(bs, more[1..]), deleted, r);
    } else {
      FirstKept(base[b], Merge(bs[1..], more), deleted, r);
    }
  }

  lemma FirstKept(f: File, rest: seq<File>, deleted: set<nat>, r: seq<File>)
    ensures r + Undeleted([f] + rest, deleted) == MaybeAddFile(r, f, deleted) + Undeleted(rest, deleted)
  {
    assert ([f] + rest)[1..] == rest;
  }

  lemma NothingLeft(deleted: set<nat>)
    ensures Saved(LevelState([], deleted, [])) == []
  {
  }

  // ---- All levels ----

  /** The files that the first additions of an edit put in a level, in order. */
  function FilesAt(ns: seq<NewFile>, level: nat): seq<File> {
    if ns == [] then []
    else FilesAt(ns[..|ns| - 1], level) + if ns[|ns| - 1].level == level then [ns[|ns| - 1].file] else []
  }

  function DeletedAt(ds: seq<Deleted>, level: nat): set<nat> {
    set d | d in ds && d.level == level :: d.number
  }

  function AtLevel(e: Edit, level: nat): LevelEdit {
    LevelEdit(DeletedAt(e.deleted, level), FilesAt(e.added, level))
  }

  ghost predicate InRange(e: Edit) {
    && (forall i :: 0 <= i < |e.deleted| ==> e.deleted[i].level < LEVELS)
    && (forall i :: 0 <= i < |e.added| ==> e.added[i].level < LEVELS)
  }

  class Builder {
    const base: seq<seq<File>>
    var deleted: seq<set<nat>>
    /** Each level's std::set of added files, in its order. */
    var added: seq<seq<File>>

    ghost predicate Valid()
      reads this
    {
      && |base| == |deleted| == |added| == LEVELS
      && (forall l :: 0 <= l < LEVELS ==> WeaklyOrdered(base[l]) && InOrder(added[l]))
    }

    ghost function At(l: nat): LevelState
      requires Valid() && l < LEVELS
      reads this
    {
      LevelState(base[l], deleted[l], added[l])
    }

    constructor (base: seq<seq<File>>)
      requires |base| == LEVELS && forall l :: 0 <= l < LEVELS ==> WeaklyOrdered(base[l])
      ensures Valid() && this.base == base
      ensures forall l :: 0 <= l < LEVELS ==> At(l) == Start(base[l])
    {
      this.base := base;
      deleted, added := seq(LEVELS, i => {}), seq(LEVELS, i => []);
    }

    /** Apply: the deletions, then the additions. */
    method Apply(e: Edit)
      requires Valid() && InRange(e)
      modifies this
      ensures Valid() && forall l :: 0 <= l < LEVELS ==> At(l) == Applied(old(At(l)), AtLevel(e, l))
    {
      hide Numbers, InOrder, WeaklyOrdered, WithFile, WithFiles, FilesAt, DeletedAt;
      ghost var deleted0, added0 := deleted, added;
      NoneYet();
      for i := 0 to |e.deleted|
        invariant Valid() && added == added0
        invariant forall l :: 0 <= l < LEVELS ==> deleted[l] == deleted0[l] + DeletedAt(e.deleted[..i], l)
      {
        var d := e.deleted[i];
        MoreDeleted(e.deleted, i);
        deleted := deleted[d.level := deleted[d.level] + {d.number}];
      }
      assert e.deleted[..|e.deleted|] == e.deleted;
      for i := 0 to |e.added|
        invariant Valid()
        invariant forall l :: 0 <= l < LEVELS ==>
                    deleted[l] == deleted0[l] + DeletedAt(e.deleted, l) - Numbers(FilesAt(e.added[..i], l))
        invariant forall l :: 0 <= l < LEVELS ==> added[l] == WithFiles(added0[l], FilesAt(e.added[..i], l))
      {
        var n := e.added[i];
        MoreFiles(e.added, i, n.level);
        MoreAdded(added0[n.level], FilesAt(e.added[..i], n.level), n.file);
        deleted := deleted[n.level := deleted[n.level] - {n.file.number}];
        var files := Insert(added[n.level], n.file);
        added := added[n.level := files];
      }
      assert e.added[..|e.added|] == e.added;
    }

    /** SaveTo. */
    method SaveTo() returns (levels: seq<seq<File>>)
      requires Valid()
      ensures |levels| == LEVELS && forall l :: 0 <= l < LEVELS ==> levels[l] == Saved(At(l)) && WeaklyOrdered(levels[l])
    {
      hide InOrder, WeaklyOrdered, Saved;
      levels := [];
      for l := 0 to LEVELS
        invariant |levels| == l && forall k :: 0 <= k < l ==> levels[k] == Saved(At(k)) && WeaklyOrdered(levels[k])
      {
        var files := SaveLevel(base[l], deleted[l], added[l]);
        levels := levels + [files];
      }
    }
  }

  lemma NoneYet()
    ensures (forall l :: DeletedAt([], l) == {} && FilesAt([], l) == []) && Numbers([]) == {}
    ensures forall files :: WithFiles(files, []) == files
  {
  }

  lemma MoreDeleted(ds: seq<Deleted>, i: nat)
    requires i < |ds|
    ensures forall l :: DeletedAt(ds[..i + 1], l) == DeletedAt(ds[..i], l) + if ds[i].level == l then {ds[i].number} else {}
  {
    assert ds[..i + 1] == ds[..i] + [ds[i]];
  }

  lemma MoreFiles(ns: seq<NewFile>, i: nat, level: nat)
    requires i < |ns| && level == ns[i].level
    ensures forall l :: FilesAt(ns[..i + 1], l) == if l == level then FilesAt(ns[..i], l) + [ns[i].file] else FilesAt(ns[..i], l)
  {
    assert ns[..i + 1][..i] == ns[..i];
    assert forall l :: l != level ==> FilesAt(ns[..i + 1], l) == FilesAt(ns[..i], l) + [];
  }

  lemma MoreAdded(files: seq<File>, fs: seq<File>, f: File)
    ensures WithFiles(files, fs + [f]) == WithFile(WithFiles(files, fs), f) && Numbers(fs + [f]) == Numbers(fs) + {f.number}
  {
    assert (fs + [f])[..|fs|] == fs;
    forall n
      ensures n in Numbers(fs + [f]) <==> n in Numbers(fs) + {f.number}
    {
      if n in Numbers(fs) {
        var g :| g in fs && g.number == n;
        assert g in fs + [f];
      }
      if n == f.number { assert f in fs + [f]; }
    }
  }

  // ---- Recovery ----

  function LevelEdits(es: seq<Edit>, level: nat): seq<LevelEdit> {
    seq(|es|, i requires 0 <= i < |es| => AtLevel(es[i], level))
  }

  /** What a record of the MANIFEST is, if it is well-formed and written under the same comparator. */
  function EditOf(record: Bytes, comparator: Bytes): Option<Edit> {
    match DecodeFields(record, EMPTY)
    case None => None
    case Some(e) => if e.comparator.Some? && e.comparator.value != comparator then None else Some(e)
  }

  function EditsOf(records: seq<Bytes>, comparator: Bytes): Option<seq<Edit>> {
    if records == [] then Some([])
    else
      match (EditsOf(records[..|records| - 1], comparator), EditOf(records[|records| - 1], comparator))
      case (Some(es), Some(e)) => Some(es + [e])
      case _ => None
  }

  /** The counters of a version set. */
  datatype Counters = Counters(log: Option<nat>, prevLog: Option<nat>, nextFile: Option<nat>, lastSequence: Option<nat>)
  {
    predicate Complete() {
      log.Some? && nextFile.Some? && lastSequence.Some?
    }
  }

  function Later(n: Option<nat>, was: Option<nat>): Option<nat> {
    if n.Some? then n else was
  }

  /** Of each counter the last value that an edit sets. */
  function CountersOf(es: seq<Edit>): Counters {
    if es == [] then Counters(None, None, None, None)
    else
      var c, e := CountersOf(es[..|es| - 1]), es[|es| - 1];
      Counters(Later(e.logNumber, c.log), Later(e.prevLogNumber, c.prevLog), Later(e.nextFileNumber, c.nextFile), Later(e.lastSequence, c.lastSequence))
  }

  datatype Recovered = Recovered(levels: seq<seq<File>>, log: nat, prevLog: nat, nextFile: nat, lastSequence: nat)

  /** Records are taken exactly when each decodes to an edit that names no other comparator. */
  lemma {:induction false} EditsOfIff(records: seq<Bytes>, comparator: Bytes)
    ensures EditsOf(records, comparator).Some? <==>
            forall i :: 0 <= i < |records| ==>
              && DecodeFields(records[i], EMPTY).Some?
              && (DecodeFields(records[i], EMPTY).value.comparator.Some? ==> DecodeFields(records[i], EMPTY).value.comparator.value == comparator)
    ensures EditsOf(records, comparator).Some? ==>
              && |EditsOf(records, comparator).value| == |records|
              && forall i :: 0 <= i < |records| ==> DecodeFields(records[i], EMPTY) == Some(EditsOf(records, comparator).value[i])
  {
    hide DecodeFields;
    if records != [] {
      var n := |records| - 1;
      EditsOfIff(records[..n], comparator);
      assert forall i :: 0 <= i < n ==> records[..n][i] == records[i];
      assert EditOf(records[n], comparator).Some? <==>
          && DecodeFields(records[n], EMPTY).Some?
          && (DecodeFields(records[n], EMPTY).value.comparator.Some? ==> DecodeFields(records[n], EMPTY).value.comparator.value == comparator);
    }
  }

  /** Each counter is that of the last edit that sets it. */
  lemma {:induction false} CountersAre(es: seq<Edit>, i: nat)
    requires i < |es|
    ensures es[i].logNumber.Some? && (forall j :: i < j < |es| ==> es[j].logNumber.None?) ==> CountersOf(es).log == es[i].logNumber
    ensures es[i].prevLogNumber.Some? && (forall j :: i < j < |es| ==> es[j].prevLogNumber.None?) ==> CountersOf(es).prevLog == es[i].prevLogNumber
    ensures es[i].nextFileNumber.Some? && (forall j :: i < j < |es| ==> es[j].nextFileNumber.None?) ==> CountersOf(es).nextFile == es[i].nextFileNumber
    ensures es[i].lastSequence.Some? && (forall j :: i < j < |es| ==> es[j].lastSequence.None?) ==> CountersOf(es).lastSequence == es[i].lastSequence
  {
    var n := |es| - 1;
    if i < n {
      CountersAre(es[..n], i);
      assert forall j :: i < j < n ==> es[..n][j] == es[j];
    }
  }

  /**
   Recover: decodes the MANIFEST's records one after another into fresh edits, applies them to one
   builder and saves once. It fails on a record that is malformed or of another comparator, or
   when a counter was never set.
   */
  method Recover(records: seq<Bytes>, comparator: Bytes) returns (r: Option<Recovered>)
    ensures r.Some? <==> EditsOf(records, comparator).Some? && CountersOf(EditsOf(records, comparator).value).Complete()
    ensures r.Some? ==>
              var es, c := EditsOf(records, comparator).value, CountersOf(EditsOf(records, comparator).value);
              && r.value.log == c.log.value && r.value.prevLog == (if c.prevLog.Some? then c.prevLog.value else 0)
              && r.value.nextFile == c.nextFile.value + 1 && r.value.lastSequence == c.lastSequence.value
              && |r.value.levels| == LEVELS
              && forall l :: 0 <= l < LEVELS ==>
                   && WeaklyOrdered(r.value.levels[l])
                   && r.value.levels[l] == Saved(AppliedAll([], LevelEdits(es, l)))
                   && (r.value.levels[l] == SavedEach([], LevelEdits(es, l))
                       <==> forall g :: g in Held([], LevelEdits(es, l)) ==> Gone(LevelEdits(es, l), g.number) || Kept([], LevelEdits(es, l), g))
  {
    hide DecodeFields, Saved, Applied, AppliedAll, SavedEach, Held, Gone, Kept, InRange, WeaklyOrdered, InOrder, LevelEdits;
    EmptyOrdered();
    var builder := new Builder(seq(LEVELS, i => []));
    var c := CountersOf([]);
    EmptyInRange();
    ghost var es: seq<Edit> := [];
    NoEdits();
    for i := 0 to |records|
      invariant fresh(builder) && builder.Valid()
      invariant EditsOf(records[..i], comparator) == Some(es) && c == CountersOf(es)
      invariant forall l :: 0 <= l < LEVELS ==> builder.At(l) == AppliedAll([], LevelEdits(es, l))
    {
      var edit := new VersionEdit();
      var decoded := edit.DecodeFrom(records[i]);
      assert records[..i + 1][..i] == records[..i];
      if !decoded || (edit.edit.comparator.Some? && edit.edit.comparator.value != comparator) {
        StaysMalformed(records, comparator, i + 1);
        return None;
      }
      DecodedInRange(records[i], EMPTY);
      builder.Apply(edit.edit);
      OneMoreEdit(es, edit.edit);
      es := es + [edit.edit];
      c := Counters(Later(edit.edit.logNumber, c.log), Later(edit.edit.prevLogNumber, c.prevLog),
                    Later(edit.edit.nextFileNumber, c.nextFile), Later(edit.edit.lastSequence, c.lastSequence));
    }
    assert records[..|records|] == records;
    if !c.Complete() {
      return None;
    }
    var levels := builder.SaveTo();
    forall l | 0 <= l < LEVELS
      ensures levels[l] == SavedEach([], LevelEdits(es, l))
        <==> forall g :: g in Held([], LevelEdits(es, l)) ==> Gone(LevelEdits(es, l), g.number) || Kept([], LevelEdits(es, l), g)
    {
      ReplayIsStepwiseIff([], LevelEdits(es, l));
    }
    return Some(Recovered(levels, c.log.value, if c.prevLog.Some? then c.prevLog.value else 0, c.nextFile.value + 1, c.lastSequence.value));
  }

  lemma EmptyInRange()
    ensures InRange(EMPTY)
  {
  }

  lemma EmptyOrdered()
    ensures WeaklyOrdered([])
  {
  }

  lemma NoEdits()
    ensures forall l :: AppliedAll([], LevelEdits([], l)) == Start([])
  {
  }

  lemma OneMoreEdit(es: seq<Edit>, e: Edit)
    ensures CountersOf(es + [e]).log == Later(e.logNumber, CountersOf(es).log) && CountersOf(es + [e]).prevLog == Later(e.prevLogNumber, CountersOf(es).prevLog)
    ensures CountersOf(es + [e]).nextFile == Later(e.nextFileNumber, CountersOf(es).nextFile) && CountersOf(es + [e]).lastSequence == Later(e.lastSequence, CountersOf(es).lastSequence)
    ensures forall l :: AppliedAll([], LevelEdits(es + [e], l)) == Applied(AppliedAll([], LevelEdits(es, l)), AtLevel(e, l))
  {
    hide Applied, AtLevel;
    assert (es + [e])[..|es|] == es;
    forall l
      ensures AppliedAll([], LevelEdits(es + [e], l)) == Applied(AppliedAll([], LevelEdits(es, l)), AtLevel(e, l))
    {
      var all := LevelEdits(es + [e], l);
      assert all[..|es|] == LevelEdits(es, l) && all[|es|] == AtLevel(e, l);
    }
  }

  lemma {:induction false} StaysMalformed(records: seq<Bytes>, comparator: Bytes, i: nat)
    requires i <= |records| && EditsOf(records[..i], comparator) == None
    ensures EditsOf(records, comparator) == None
  {
    hide EditOf;
    if i < |records| {
      assert records[..|records| - 1][..i] == records[..i];
      StaysMalformed(records[..|records| - 1], comparator, i);
    } else {
      assert records[..i] == records;
    }
  }

  /** The decoder lets no other level through. */
  lemma {:induction false} DecodedInRange(s: Bytes, e: Edit)
    requires InRange(e)
    ensures DecodeFields(s, e).Some? ==> InRange(DecodeFields(s, e).value)
    decreases |s|
  {
    hide InRange, DecodeField;
    match GetVarint32(s)
    case None =>
    case Some((tag, rest)) =>
      match DecodeField(tag, rest, e)
      case None =>
      case Some((e', rest')) =>
        FieldInRange(tag, rest, e);
        DecodedInRange(rest', e');
  }

  lemma FieldInRange(tag: nat, s: Bytes, e: Edit)
    requires InRange(e)
    ensures DecodeField(tag, s, e).Some? ==> InRange(DecodeField(tag, s, e).value.0)
  {
    hide Inserted, GetVarint64, TakePrefixed, GetFile;
    if tag == DELETED_FILE && GetLevel(s).Some? {
      var level, rest := GetLevel(s).value.0, GetLevel(s).value.1;
      if GetVarint64(rest).Some? {
        var d := Deleted(level, GetVarint64(rest).value.0);
        InsertedMembers(e.deleted, d);
        var ds := Inserted(e.deleted, d);
        assert forall i :: 0 <= i < |ds| ==> ds[i] in ds;
      }
    }
  }

  lemma {:induction false} InsertedMembers(ds: seq<Deleted>, d: Deleted)
    ensures forall x :: x in Inserted(ds, d) ==> x in ds || x == d
  {
    if ds != [] { InsertedMembers(ds[1..], d); }
  }

  /** A MANIFEST of encoded edits is read as those edits. */
  lemma {:induction false} EncodedEdits(es: seq<Edit>, comparator: Bytes)
    requires forall i :: 0 <= i < |es| ==> ValidEdit(es[i]) && (es[i].comparator.Some? ==> es[i].comparator.value == comparator)
    ensures EditsOf(seq(|es|, i requires 0 <= i < |es| => Encode(es[i])), comparator) == Some(es)
  {
    hide ValidEdit, Encode, DecodeFields;
    if es != [] {
      var front, e := es[..|es| - 1], es[|es| - 1];
      EncodedEdits(front, comparator);
      EditRoundTrip(e, EMPTY);
      assert [] + e.pointers == e.pointers;
      var records := seq(|es|, i requires 0 <= i < |es| => Encode(es[i]));
      assert records[..|es| - 1] == seq(|front|, i requires 0 <= i < |front| => Encode(front[i]));
      assert front + [e] == es;
    }
  }

  /** WriteSnapshot: a level written as one edit comes back exactly if no two of its files are tied. */
  lemma SnapshotIff(files: seq<File>)
    requires WeaklyOrdered(files)
    ensures SavedEach([], [LevelEdit({}, files)]) == files <==> InOrder(files)
  {
    hide Saved, Applied, InOrder, WeaklyOrdered, Tied;
    var es := [LevelEdit({}, files)];
    assert es[..0] == [] && SavedEach([], es) == Saved(Applied(Start([]), es[0]));
    EmptyOrdered();
    forall g
      ensures TiedWith(SavedEach([], es), g) == Head(TiedWith(files, g)) && WeaklyOrdered(SavedEach([], es))
    {
      SavedOnce([], es[0], g);
      assert TiedWith([], g) == [];
    }
    SavedEachIs([], es, File(0, 0, [], []));
    if InOrder(files) {
      forall g
        ensures TiedWith(files, g) == Head(TiedWith(files, g))
      {
        AtMostOne(files, g);
      }
      OrderDetermines(SavedEach([], es), files);
    } else if SavedEach([], es) == files {
      NotInOrder(files);
    }
  }

  lemma {:induction false} AtMostOne(files: seq<File>, g: File)
    requires InOrder(files)
    ensures |TiedWith(files, g)| <= 1
  {
    hide Tied, Precedes;
    if files != [] {
      OrderIsWeak(files);
      AtMostOne(files[1..], g);
      if Tied(files[0], g) && files[1..] != [] {
        assert Precedes(files[0], files[1]) && files[1] == files[1..][0];
        NoneTied(files[1..], files[0], g);
      }
    }
  }

  lemma {:induction false} NotInOrder(files: seq<File>)
    requires WeaklyOrdered(files) && forall g :: |TiedWith(files, g)| <= 1
    ensures InOrder(files)
  {
    hide Precedes, Tied;
    forall i, j | 0 <= i < j < |files|
      ensures Precedes(files[i], files[j])
    {
      if !Precedes(files[i], files[j]) {
        BothWays(files[i], files[j]);
        TwoTied(files, i, j);
      }
    }
  }

  lemma {:induction false} TwoTied(files: seq<File>, i: nat, j: nat)
    requires i < j < |files| && Tied(files[i], files[j])
    ensures |TiedWith(files, files[j])| >= 2
  {
    hide Tied;
    SelfTied(files[j]);
    TiedJoin(files[..j], files[j..], files[j]);
    assert files == files[..j] + files[j..];
    TiedMembers(files[..j], files[j]);
    assert files[i] in files[..j];
    assert files[j..][0] == files[j];
  }

  /** A snapshot of a level followed by later edits comes to the level with those edits saved one by one. */
  lemma {:induction false} SnapshotThenEdits(files: seq<File>, es: seq<LevelEdit>)
    requires InOrder(files)
    ensures SavedEach([], [LevelEdit({}, files)] + es) == SavedEach(files, es)
  {
    hide Saved, Applied, InOrder;
    var all := [LevelEdit({}, files)] + es;
    if es == [] {
      assert all == [LevelEdit({}, files)];
      OrderIsWeak(files);
      SnapshotIff(files);
    } else {
      SnapshotThenEdits(files, es[..|es| - 1]);
      assert all[..|all| - 1] == [LevelEdit({}, files)] + es[..|es| - 1];
    }
  }
}
