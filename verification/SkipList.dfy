/**
 The memtable's skip list (db/skiplist.h): one writer, any number of readers, no locks for
 reading. Nodes live in an arena and are never removed. The writer's stores are single steps;
 between any two of them a reader may take steps of its own.
 */
module SkipList {
  import opened Keys
  import opened Store

  const MAX_HEIGHT: nat := 12

  /** `next` has one pointer per level of the node. */
  datatype Node = Node(key: InternalKey, next: seq<Option<nat>>)

  const HEAD: nat := 0

  type Arena = seq<Node>

  /** `list` spells out the nodes linked at `level`, the head first, keys strictly ascending. */
  ghost predicate Level(arena: Arena, list: seq<nat>, level: nat) {
    && list != [] && list[0] == HEAD && HEAD !in list[1..]
    && (forall p :: 0 <= p < |list| ==> list[p] < |arena| && level < |arena[list[p]].next|)
    && (forall p :: 0 <= p < |list| ==> arena[list[p]].next[level] == if p + 1 < |list| then Some(list[p + 1]) else None)
    && Ascends(arena, list)
  }

  ghost predicate Ascends(arena: Arena, list: seq<nat>) {
    && (forall p :: 0 <= p < |list| ==> list[p] < |arena|)
    && (forall p, q :: 1 <= p < q < |list| ==> Before(arena[list[p]].key, arena[list[q]].key))
  }

  ghost predicate Within(upper: seq<nat>, lower: seq<nat>) {
    forall n :: n in upper ==> n in lower
  }

  type Lists = ls: seq<seq<nat>> | |ls| == MAX_HEIGHT witness seq(MAX_HEIGHT, i => [])

  /** Every level is a sorted sublist of the level below. */
  ghost predicate Good(arena: Arena, lists: Lists) {
    && (forall l :: 0 <= l < MAX_HEIGHT ==> Level(arena, lists[l], l))
    && (forall l :: 0 < l < MAX_HEIGHT ==> Within(lists[l], lists[l - 1]))
  }

  /** Keys never change, and no level ever loses a node. */
  ghost predicate Grows(arena: Arena, lists: Lists, arena': Arena, lists': Lists) {
    && |arena| <= |arena'| && (forall n :: 0 <= n < |arena| ==> arena'[n].key == arena[n].key)
    && (forall l :: 0 <= l < MAX_HEIGHT ==> Within(lists[l], lists'[l]))
  }

  /** Node `n` is the head or comes before `key`. */
  ghost predicate IsBefore(arena: Arena, n: nat, key: InternalKey)
    requires n < |arena|
  {
    n == HEAD || Before(arena[n].key, key)
  }

  /** A pointer to nothing, or to a node at or after `key`. */
  ghost predicate NotBefore(arena: Arena, n: Option<nat>, key: InternalKey) {
    n.Some? ==> n.value < |arena| && NotAfter(key, arena[n.value].key)
  }

  /** `p` is the place after which a node with `key` belongs. */
  ghost predicate Place(arena: Arena, list: seq<nat>, level: nat, p: nat, key: InternalKey)
    requires Level(arena, list, level)
  {
    && p < |list| && IsBefore(arena, list[p], key)
    && NotBefore(arena, if p + 1 < |list| then Some(list[p + 1]) else None, key)
  }

  /** From the place on, every node is at or after the key; up to it, every node is before. */
  lemma PlaceSplits(arena: Arena, list: seq<nat>, level: nat, p: nat, key: InternalKey, q: nat)
    requires Level(arena, list, level) && Place(arena, list, level, p, key) && 1 <= q < |list|
    ensures q <= p ==> Before(arena[list[q]].key, key)
    ensures q > p ==> NotAfter(key, arena[list[q]].key)
  {
    assert p >= 1 ==> list[1..][p - 1] == list[p];
    assert q < p ==> Before(arena[list[q]].key, arena[list[p]].key);
    assert q > p + 1 ==> Before(arena[list[p + 1]].key, arena[list[q]].key);
  }

  /** No node is linked twice at a level. */
  lemma Unique(arena: Arena, list: seq<nat>, level: nat)
    requires Level(arena, list, level)
    ensures forall p, q :: 0 <= p < q < |list| ==> list[p] != list[q]
  {
    forall p, q | 0 <= p < q < |list|
      ensures list[p] != list[q]
    {
      assert list[1..][q - 1] == list[q];
    }
  }

  /** No linked key compares equal to `key`. */
  ghost predicate Absent(arena: Arena, list: seq<nat>, key: InternalKey)
  {
    forall n :: n in list && n != HEAD && n < |arena| ==> Before(arena[n].key, key) || Before(key, arena[n].key)
  }

  // ---- Single stores of the writer ----

  /** One pointer store. */
  function SetNext(arena: Arena, n: nat, l: nat, target: Option<nat>): (arena': Arena)
    requires n < |arena| && l < |arena[n].next|
    ensures |arena'| == |arena|
    ensures forall m :: 0 <= m < |arena| ==> arena'[m].key == arena[m].key && |arena'[m].next| == |arena[m].next|
  {
    arena[n := arena[n].(next := arena[n].next[l := target])]
  }

  /** A store to a pointer at another level, or of a node not linked at this one, is not seen here. */
  lemma StoreElsewhere(arena: Arena, list: seq<nat>, level: nat, n: nat, l: nat, target: Option<nat>)
    requires Level(arena, list, level) && n < |arena| && l < |arena[n].next|
    requires l != level || n !in list
    ensures Level(SetNext(arena, n, l, target), list, level)
  {
    var arena' := SetNext(arena, n, l, target);
    forall p | 0 <= p < |list|
      ensures arena'[list[p]].next[level] == arena[list[p]].next[level]
    {
      assert list[p] in list;
    }
  }

  /** A freshly created node is not seen anywhere. */
  lemma AllocateElsewhere(arena: Arena, list: seq<nat>, level: nat, node: Node)
    requires Level(arena, list, level)
    ensures Level(arena + [node], list, level) && |arena| !in list
  {
  }

  function Splice(list: seq<nat>, p: nat, x: nat): seq<nat>
    requires p < |list|
  {
    list[..p + 1] + [x] + list[p + 1..]
  }

  lemma SpliceAt(list: seq<nat>, p: nat, x: nat, i: nat)
    requires p < |list| && i <= |list|
    ensures |Splice(list, p, x)| == |list| + 1
    ensures Splice(list, p, x)[i] == if i <= p then list[i] else if i == p + 1 then x else list[i - 1]
  {
  }

  lemma SpliceMembers(list: seq<nat>, p: nat, x: nat)
    requires p < |list|
    ensures forall n :: n in Splice(list, p, x) <==> n in list || n == x
  {
    assert list == list[..p + 1] + list[p + 1..];
  }

  /** What one node's pointer at a level says. */
  lemma At(arena: Arena, list: seq<nat>, level: nat, p: nat)
    requires Level(arena, list, level) && p < |list|
    ensures list[p] in list && list[p] < |arena| && level < |arena[list[p]].next|
    ensures arena[list[p]].next[level] == if p + 1 < |list| then Some(list[p + 1]) else None
    ensures p + 1 < |list| ==> list[p + 1] in list && list[p + 1] < |arena| && list[p + 1] != HEAD
  {
    if p + 1 < |list| { NotHead(arena, list, level, p + 1); }
  }

  lemma Down(arena: Arena, lists: Lists, level: nat, p: nat) returns (q: nat)
    requires Good(arena, lists) && 0 < level < MAX_HEIGHT && p < |lists[level]|
    ensures q < |lists[level - 1]| && lists[level - 1][q] == lists[level][p]
  {
    assert Within(lists[level], lists[level - 1]) && lists[level][p] in lists[level];
    q :| 0 <= q < |lists[level - 1]| && lists[level - 1][q] == lists[level][p];
  }

  lemma LevelOf(arena: Arena, lists: Lists, level: nat)
    requires Good(arena, lists) && level < MAX_HEIGHT
    ensures Level(arena, lists[level], level) && |lists[level]| > 0 && lists[level][0] == HEAD < |arena|
  {
  }

  lemma NotHead(arena: Arena, list: seq<nat>, level: nat, q: nat)
    requires Level(arena, list, level) && 1 <= q < |list|
    ensures list[q] in list && list[q] != HEAD
  {
    assert list[1..][q - 1] == list[q];
  }

  lemma SpliceAscends(arena: Arena, list: seq<nat>, level: nat, p: nat, x: nat)
    requires Level(arena, list, level) && x < |arena| && Place(arena, list, level, p, arena[x].key)
    requires Absent(arena, list, arena[x].key)
    ensures Ascends(arena, Splice(list, p, x))
  {
    var list' := Splice(list, p, x);
    forall i | 0 <= i < |list'|
      ensures list'[i] < |arena|
    {
      SpliceAt(list, p, x, i);
    }
    forall i, j | 1 <= i < j < |list'|
      ensures Before(arena[list'[i]].key, arena[list'[j]].key)
    {
      SpliceAt(list, p, x, i);
      SpliceAt(list, p, x, j);
      if i == p + 1 {
        PlaceSplits(arena, list, level, p, arena[x].key, j - 1);
        NotHead(arena, list, level, j - 1);
      }
      if j == p + 1 { PlaceSplits(arena, list, level, p, arena[x].key, i); }
    }
  }

  lemma SpliceLinks(arena: Arena, list: seq<nat>, level: nat, p: nat, x: nat, i: nat)
    requires Level(arena, list, level) && x < |arena| && p < |list| && i <= |list|
    requires x != HEAD && level < |arena[x].next| && x !in list
    requires list[p] < |arena| && level < |arena[list[p]].next| && arena[x].next[level] == arena[list[p]].next[level]
    ensures var arena', list' := SetNext(arena, list[p], level, Some(x)), Splice(list, p, x);
            && |list'| == |list| + 1 && list'[i] < |arena'| && level < |arena'[list'[i]].next| && (i > 0 <==> list'[i] != HEAD)
            && arena'[list'[i]].next[level] == if i + 1 < |list'| then Some(list'[i + 1]) else None
  {
    hide Level, Splice;
    Unique(arena, list, level);
    At(arena, list, level, p);
    SpliceAt(list, p, x, i);
    if i < |list| { SpliceAt(list, p, x, i + 1); }
    Starts(arena, list, level);
    if i <= p {
      At(arena, list, level, i);
      if i > 0 { NotHead(arena, list, level, i); }
    } else if i > p + 1 {
      At(arena, list, level, i - 1);
      NotHead(arena, list, level, i - 1);
    }
  }

  lemma Starts(arena: Arena, list: seq<nat>, level: nat)
    requires Level(arena, list, level)
    ensures list != [] && list[0] == HEAD && HEAD in list
  {
  }

  /** Linking a prepared node after its place inserts it into the level. */
  lemma StoreLinks(arena: Arena, list: seq<nat>, level: nat, p: nat, x: nat)
    requires Level(arena, list, level) && x < |arena| && Place(arena, list, level, p, arena[x].key)
    requires level < |arena[x].next| && x !in list && Absent(arena, list, arena[x].key)
    requires arena[x].next[level] == arena[list[p]].next[level]
    ensures Level(SetNext(arena, list[p], level, Some(x)), Splice(list, p, x), level)
  {
    hide Splice, Absent, SetNext, Ascends, Level;
    At(arena, list, level, p);
    var arena', list' := SetNext(arena, list[p], level, Some(x)), Splice(list, p, x);
    SpliceAscends(arena, list, level, p, x);
    AscendsKept(arena, arena', list');
    Starts(arena, list, level);
    SpliceAt(list, p, x, 0);
    forall i | 0 <= i < |list'|
      ensures list'[i] < |arena'| && level < |arena'[list'[i]].next| && (i > 0 ==> list'[i] != HEAD)
      ensures arena'[list'[i]].next[level] == if i + 1 < |list'| then Some(list'[i + 1]) else None
    {
      SpliceLinks(arena, list, level, p, x, i);
    }
    IsLevel(arena', list', level);
  }

  lemma IsLevel(arena: Arena, list: seq<nat>, level: nat)
    requires Ascends(arena, list) && list != [] && list[0] == HEAD
    requires forall i :: 0 <= i < |list| ==> list[i] < |arena| && level < |arena[list[i]].next| && (i > 0 ==> list[i] != HEAD)
    requires forall i :: 0 <= i < |list| ==> arena[list[i]].next[level] == if i + 1 < |list| then Some(list[i + 1]) else None
    ensures Level(arena, list, level)
  {
    hide Ascends;
    forall i | 0 <= i < |list[1..]|
      ensures list[1..][i] != HEAD
    {
      assert list[1..][i] == list[i + 1];
    }
  }

  lemma AscendsKept(arena: Arena, arena': Arena, list: seq<nat>)
    requires Ascends(arena, list) && |arena| == |arena'|
    requires forall n :: 0 <= n < |arena| ==> arena'[n].key == arena[n].key
    ensures Ascends(arena', list)
  {
  }

  // ---- All levels together ----

  /** `prev` is the node after which `key` belongs at a level. */
  ghost predicate PrevAt(arena: Arena, list: seq<nat>, level: nat, prev: nat, key: InternalKey) {
    Level(arena, list, level) &&
    exists p :: 0 <= p < |list| && list[p] == prev && Place(arena, list, level, p, key)
  }

  /** A place stays a place when the level's nodes and their keys stay. */
  lemma PrevKept(arena: Arena, arena': Arena, list: seq<nat>, level: nat, prev: nat, key: InternalKey)
    requires PrevAt(arena, list, level, prev, key) && Level(arena', list, level)
    requires |arena| <= |arena'| && forall n :: 0 <= n < |arena| ==> arena'[n].key == arena[n].key
    ensures PrevAt(arena', list, level, prev, key)
  {
    var p :| 0 <= p < |list| && list[p] == prev && Place(arena, list, level, p, key);
    assert Place(arena', list, level, p, key);
  }

  /** Every node linked at a level is linked at level 0. */
  lemma {:induction false} WithinBottom(arena: Arena, lists: Lists, l: nat)
    requires Good(arena, lists) && l < MAX_HEIGHT
    ensures Within(lists[l], lists[0])
  {
    if l > 0 {
      WithinBottom(arena, lists, l - 1);
      assert Within(lists[l], lists[l - 1]);
    }
  }

  lemma PrepareKeeps(arena: Arena, lists: Lists, x: nat, level: nat, target: Option<nat>)
    requires Good(arena, lists) && level < MAX_HEIGHT && x < |arena| && level < |arena[x].next| && x !in lists[level]
    ensures Good(SetNext(arena, x, level, target), lists)
    ensures Grows(arena, lists, SetNext(arena, x, level, target), lists)
  {
    forall l | 0 <= l < MAX_HEIGHT
      ensures Level(SetNext(arena, x, level, target), lists[l], l)
    {
      StoreElsewhere(arena, lists[l], l, x, level, target);
    }
  }

  lemma AllocateKeeps(arena: Arena, lists: Lists, node: Node)
    requires Good(arena, lists)
    ensures Good(arena + [node], lists) && Grows(arena, lists, arena + [node], lists)
    ensures forall l :: 0 <= l < MAX_HEIGHT ==> |arena| !in lists[l]
  {
    forall l | 0 <= l < MAX_HEIGHT
      ensures Level(arena + [node], lists[l], l) && |arena| !in lists[l]
    {
      AllocateElsewhere(arena, lists[l], l, node);
    }
  }

  /** The store that publishes a node at one level: that level gains it, no other changes. */
  lemma LinkKeeps(arena: Arena, lists: Lists, prev: nat, level: nat, p: nat, x: nat)
    requires Good(arena, lists) && level < MAX_HEIGHT && x < |arena| && p < |lists[level]|
    requires Level(arena, lists[level], level) && lists[level][p] == prev && Place(arena, lists[level], level, p, arena[x].key)
    requires level < |arena[x].next| && x !in lists[level] && Absent(arena, lists[level], arena[x].key)
    requires prev < |arena| && level < |arena[prev].next| && arena[x].next[level] == arena[prev].next[level]
    requires level > 0 ==> x in lists[level - 1]
    ensures Good(SetNext(arena, prev, level, Some(x)), lists[level := Splice(lists[level], p, x)])
    ensures Grows(arena, lists, SetNext(arena, prev, level, Some(x)), lists[level := Splice(lists[level], p, x)])
  {
    hide Level, SetNext, Splice, Place, Absent;
    var arena', lists' := SetNext(arena, prev, level, Some(x)), lists[level := Splice(lists[level], p, x)];
    SpliceMembers(lists[level], p, x);
    StoreLinks(arena, lists[level], level, p, x);
    forall l | 0 <= l < MAX_HEIGHT
      ensures Level(arena', lists'[l], l)
    {
      if l != level {
        LevelOf(arena, lists, l);
        StoreElsewhere(arena, lists[l], l, prev, level, Some(x));
      }
    }
    forall l | 0 < l < MAX_HEIGHT
      ensures Within(lists'[l], lists'[l - 1])
    {
      assert Within(lists[l], lists[l - 1]);
    }
  }

  // ---- The list, its writer and its readers ----

  class SkipList {
    var arena: Arena
    var maxHeight: nat
    ghost var lists: Lists

    ghost predicate Valid()
      reads this
    {
      && Good(arena, lists) && 1 <= maxHeight <= MAX_HEIGHT
      && (forall l :: maxHeight <= l < MAX_HEIGHT ==> lists[l] == [HEAD])
    }

    constructor ()
      ensures Valid() && lists == seq(12, i => [HEAD]) && |arena| == 1 && |arena[0].next| == 12
    {
      arena := [Node(InternalKey([], 0, 0), seq(MAX_HEIGHT, i => None))];
      maxHeight := 1;
      lists := seq(MAX_HEIGHT, i => [HEAD]);
    }

    /** KeyIsAfterNode: nothing counts as infinite. */
    predicate KeyIsAfterNode(key: InternalKey, n: Option<nat>)
      requires n.Some? ==> n.value < |arena|
      reads this
    {
      n.Some? && CompareInternal(arena[n.value].key, key) < 0
    }

    /** FindGreaterOrEqual, with no writer at work: the first node at or after `key`, and its places. */
    method FindGreaterOrEqual(key: InternalKey) returns (result: Option<nat>, prev: seq<nat>)
      requires Valid()
      ensures |prev| == maxHeight
      ensures forall l :: 0 <= l < maxHeight ==> PrevAt(arena, lists[l], l, prev[l], key)
      ensures IsFirst(arena, lists[0], key, result)
    {
      hide Level, Good;
      var x: nat, level: nat := HEAD, maxHeight - 1;
      prev := seq(maxHeight, i => HEAD);
      ghost var p: nat := 0;
      LevelOf(arena, lists, level);
      while true
        invariant level < maxHeight == |prev|
        invariant p < |lists[level]| && lists[level][p] == x < |arena| && IsBefore(arena, x, key)
        invariant forall l :: level < l < maxHeight ==> PrevAt(arena, lists[l], l, prev[l], key)
        decreases level, |lists[level]| - p
      {
        LevelOf(arena, lists, level);
        At(arena, lists[level], level, p);
        var next := arena[x].next[level];
        if KeyIsAfterNode(key, next) {
          x := next.value;
          p := p + 1;
        } else {
          prev := prev[level := x];
          assert Place(arena, lists[level], level, p, key);
          if level == 0 {
            FirstAfterPlace(arena, lists[0], 0, p, key);
            return next, prev;
          }
          p := Down(arena, lists, level, p);
          level := level - 1;
        }
      }
    }

    /** FindLessThan: the last node before `key`, or the head. */
    method FindLessThan(key: InternalKey) returns (x: nat)
      requires Valid()
      ensures x < |arena| && IsLast(arena, lists[0], x, Some(key))
    {
      hide Level, Good;
      var level: nat := maxHeight - 1;
      x := HEAD;
      ghost var p: nat := 0;
      LevelOf(arena, lists, level);
      while true
        invariant level < maxHeight
        invariant p < |lists[level]| && lists[level][p] == x < |arena| && IsBefore(arena, x, key)
        decreases level, |lists[level]| - p
      {
        LevelOf(arena, lists, level);
        At(arena, lists[level], level, p);
        var next := arena[x].next[level];
        if next.None? || CompareInternal(arena[next.value].key, key) >= 0 {
          if level == 0 {
            assert Place(arena, lists[0], 0, p, key);
            LastUpTo(arena, lists[0], 0, p, Some(key));
            return;
          }
          p := Down(arena, lists, level, p);
          level := level - 1;
        } else {
          x := next.value;
          p := p + 1;
        }
      }
    }

    /** FindLast: the node with the largest key, or the head of an empty list. */
    method FindLast() returns (x: nat)
      requires Valid()
      ensures x < |arena| && IsLast(arena, lists[0], x, None)
    {
      hide Level, Good;
      var level: nat := maxHeight - 1;
      x := HEAD;
      ghost var p: nat := 0;
      LevelOf(arena, lists, level);
      while true
        invariant level < maxHeight
        invariant p < |lists[level]| && lists[level][p] == x < |arena|
        decreases level, |lists[level]| - p
      {
        LevelOf(arena, lists, level);
        At(arena, lists[level], level, p);
        var next := arena[x].next[level];
        if next.None? {
          if level == 0 {
            LastUpTo(arena, lists[0], 0, p, None);
            return;
          }
          p := Down(arena, lists, level, p);
          level := level - 1;
        } else {
          x := next.value;
          p := p + 1;
        }
      }
    }

    /** Insert with nobody else at work: level 0 gains exactly one new node, holding `key`. */
    method Insert(key: InternalKey, height: nat) returns (x: nat)
      requires Valid() && 1 <= height <= MAX_HEIGHT && Absent(arena, lists[0], key)
      modifies this
      ensures Valid() && Grows(old(arena), old(lists), arena, lists)
      ensures x == old(|arena|) < |arena| && arena[x].key == key
      ensures forall l, n :: 0 <= l < MAX_HEIGHT ==> (n in lists[l] <==> n in old(lists[l]) || (n == x && l < height))
    {
      var w := new Inserter(this, key, height);
      while !w.Done()
        invariant Valid() && fresh(w) && w.Ok(arena, maxHeight, lists)
        invariant w.key == key && w.height == height && w.before == old(lists)
        invariant w.x == old(|arena|) && Grows(old(arena), old(lists), arena, lists)
        decreases w.Left(maxHeight)
      {
        ghost var arena0, lists0 := arena, lists;
        w.Step(this);
        GrowsTwice(old(arena), old(lists), arena0, lists0, arena, lists);
      }
      x := w.x;
    }
  }

  lemma GrowsTwice(a: Arena, ls: Lists, a': Arena, ls': Lists, a'': Arena, ls'': Lists)
    requires Grows(a, ls, a', ls') && Grows(a', ls', a'', ls'')
    ensures Grows(a, ls, a'', ls'')
  {
    forall l | 0 <= l < MAX_HEIGHT
      ensures Within(ls[l], ls''[l])
    {
      assert Within(ls[l], ls'[l]) && Within(ls'[l], ls''[l]);
    }
  }

  /** `n` is the first linked node at or after `key`; nothing when there is none. */
  ghost predicate IsFirst(arena: Arena, list: seq<nat>, key: InternalKey, n: Option<nat>) {
    && (n.Some? ==> n.value in list && n.value != HEAD && n.value < |arena| && NotAfter(key, arena[n.value].key))
    && (forall m :: m in list && m != HEAD && m < |arena| && NotAfter(key, arena[m].key) ==>
          n.Some? && n.value < |arena| && NotAfter(arena[n.value].key, arena[m].key))
  }

  /** `n` is the last linked node before `bound` (any node, without a bound); the head when there is none. */
  ghost predicate IsLast(arena: Arena, list: seq<nat>, n: nat, bound: Option<InternalKey>) {
    && n in list && n < |arena| && (bound.Some? ==> IsBefore(arena, n, bound.value))
    && (forall m :: m in list && m != HEAD && m < |arena| && (bound.Some? ==> Before(arena[m].key, bound.value)) ==>
          n != HEAD && NotAfter(arena[m].key, arena[n].key))
  }

  lemma FirstAfterPlace(arena: Arena, list: seq<nat>, level: nat, p: nat, key: InternalKey)
    requires Level(arena, list, level) && Place(arena, list, level, p, key)
    ensures IsFirst(arena, list, key, if p + 1 < |list| then Some(list[p + 1]) else None)
  {
    if p + 1 < |list| { NotHead(arena, list, level, p + 1); }
    forall m | m in list && m != HEAD && NotAfter(key, arena[m].key)
      ensures p + 1 < |list| && NotAfter(arena[list[p + 1]].key, arena[m].key)
    {
      var q: nat :| 0 <= q < |list| && list[q] == m;
      PlaceSplits(arena, list, level, p, key, q);
      assert q > p + 1 ==> Before(arena[list[p + 1]].key, arena[list[q]].key);
    }
  }

  lemma LastUpTo(arena: Arena, list: seq<nat>, level: nat, p: nat, bound: Option<InternalKey>)
    requires Level(arena, list, level) && p < |list|
    requires match bound case Some(key) => Place(arena, list, level, p, key) case None => p + 1 == |list|
    ensures IsLast(arena, list, list[p], bound)
  {
    forall m | m in list && m != HEAD && (bound.Some? ==> Before(arena[m].key, bound.value))
      ensures list[p] != HEAD && NotAfter(arena[m].key, arena[list[p]].key)
    {
      var q: nat :| 0 <= q < |list| && list[q] == m;
      if bound.Some? { PlaceSplits(arena, list, level, p, bound.value, q); }
      NotHead(arena, list, level, p);
      assert q < p ==> Before(arena[list[q]].key, arena[list[p]].key);
    }
  }

  /** An insertion in progress: each `Step` is at most one store that a reader can see. */
  class Inserter {
    const key: InternalKey
    const height: nat
    const prev: seq<nat>
    /** The new node, once allocated. */
    const x: nat
    /** The next level to link, and whether x's own pointer there is already set. */
    var level: nat
    var created: bool
    var prepared: bool
    ghost const before: Lists

    ghost predicate Ok(arena: Arena, maxHeight: nat, lists: Lists)
      reads this
    {
      level <= height && Underway(arena, maxHeight, lists, before, key, height, prev, x, level, created, prepared)
    }

    predicate Done()
      reads this
    {
      created && level == height
    }

    /** Steps still to take. */
    function Left(maxHeight: nat): nat
      requires level <= height
      reads this
    {
      (if created then 0 else if height > maxHeight then 2 else 1) + 2 * (height - level) - (if prepared && level < height then 1 else 0)
    }

    /** The search for the places, before any store. */
    constructor (list: SkipList, key: InternalKey, height: nat)
      requires list.Valid() && 1 <= height <= MAX_HEIGHT && Absent(list.arena, list.lists[0], key)
      ensures Ok(list.arena, list.maxHeight, list.lists) && !Done()
      ensures this.key == key && this.height == height && before == list.lists && x == |list.arena|
    {
      var _, found := list.FindGreaterOrEqual(key);
      this.key, this.height, this.level, this.created, this.prepared := key, height, 0, false, false;
      this.x := |list.arena|;
      this.prev := found + seq(MAX_HEIGHT - list.maxHeight, i => HEAD);
      this.before := list.lists;
      new;
      forall l | 0 <= l < MAX_HEIGHT
        ensures PrevAt(list.arena, list.lists[l], l, prev[l], key)
        ensures x !in list.lists[l] && Absent(list.arena, list.lists[l], key)
      {
        WithinBottom(list.arena, list.lists, l);
        LevelOf(list.arena, list.lists, l);
        if l >= list.maxHeight {
          assert Place(list.arena, list.lists[l], l, 0, key);
        }
      }
    }

    /** Raise max_height_, or allocate the node, or set its own pointer, or publish it at one level. */
    method Step(list: SkipList)
      requires list.Valid() && Ok(list.arena, list.maxHeight, list.lists) && !Done()
      modifies this, list
      ensures list.Valid() && Ok(list.arena, list.maxHeight, list.lists)
      ensures Grows(old(list.arena), old(list.lists), list.arena, list.lists)
      ensures Left(list.maxHeight) < old(Left(list.maxHeight))
    {
      hide Good, Underway, Level, PrevAt, Grows, SetNext, Splice;
      UnderwayBounds(list.arena, list.maxHeight, list.lists, before, key, height, prev, x, level, created, prepared);
      ghost var arena0, lists0 := list.arena, list.lists;
      if !created {
        if height > list.maxHeight {
          Raised(arena0, list.maxHeight, lists0, before, key, height, prev, x);
          list.maxHeight := height;
        } else {
          var node := Node(key, seq(height, i => None));
          Created(arena0, list.maxHeight, lists0, before, key, height, prev, x);
          list.arena := list.arena + [node];
          created := true;
        }
      } else if !prepared {
        Prepared(arena0, list.maxHeight, lists0, before, key, height, prev, x, level);
        list.arena := SetNext(list.arena, x, level, list.arena[prev[level]].next[level]);
        prepared := true;
      } else {
        ghost var p := Linked(arena0, list.maxHeight, lists0, before, key, height, prev, x, level);
        list.arena := SetNext(list.arena, prev[level], level, Some(x));
        list.lists := lists0[level := Splice(lists0[level], p, x)];
        level, prepared := level + 1, false;
      }
    }
  }

  /** How far an insertion has come: below `level` the node is linked, from there on it has its places. */
  ghost predicate Underway(arena: Arena, maxHeight: nat, lists: Lists, before: Lists, key: InternalKey, height: nat,
                           prev: seq<nat>, x: nat, level: nat, created: bool, prepared: bool) {
    && 1 <= height <= MAX_HEIGHT && level <= height <= |prev|
    && (forall l, n :: 0 <= l < MAX_HEIGHT ==> (n in lists[l] <==> n in before[l] || (n == x && l < level)))
    && (forall l :: 0 <= l < MAX_HEIGHT ==> x !in before[l] && Absent(arena, before[l], key))
    && (forall l :: level <= l < height ==> PrevAt(arena, lists[l], l, prev[l], key))
    && (created ==>
          && height <= maxHeight && x < |arena| && arena[x].key == key && |arena[x].next| == height)
    && (prepared ==>
          && created && level < height && prev[level] < |arena| && level < |arena[prev[level]].next|
          && arena[x].next[level] == arena[prev[level]].next[level])
    && (!created ==> level == 0 && x == |arena|)
  }

  lemma UnderwayBounds(arena: Arena, maxHeight: nat, lists: Lists, before: Lists, key: InternalKey, height: nat,
                       prev: seq<nat>, x: nat, level: nat, created: bool, prepared: bool)
    requires Good(arena, lists) && Underway(arena, maxHeight, lists, before, key, height, prev, x, level, created, prepared)
    ensures 1 <= height <= MAX_HEIGHT && level <= height <= |prev|
    ensures created ==> x < |arena| && |arena[x].next| == height <= maxHeight
    ensures prepared ==> created
    ensures !created ==> level == 0 && x == |arena|
    ensures created && level < height ==> prev[level] < |arena| && level < |arena[prev[level]].next|
  {
    if created && level < height {
      var p: nat :| p < |lists[level]| && lists[level][p] == prev[level] && Place(arena, lists[level], level, p, key);
      At(arena, lists[level], level, p);
    }
  }

  lemma Raised(arena: Arena, maxHeight: nat, lists: Lists, before: Lists, key: InternalKey, height: nat, prev: seq<nat>, x: nat)
    requires Underway(arena, maxHeight, lists, before, key, height, prev, x, 0, false, false)
    ensures Underway(arena, height, lists, before, key, height, prev, x, 0, false, false)
    ensures Grows(arena, lists, arena, lists)
  {
  }

  lemma Created(arena: Arena, maxHeight: nat, lists: Lists, before: Lists, key: InternalKey, height: nat, prev: seq<nat>, x: nat)
    requires Good(arena, lists) && Underway(arena, maxHeight, lists, before, key, height, prev, x, 0, false, false) && height <= maxHeight
    ensures var arena' := arena + [Node(key, seq(height, i => None))];
            && Good(arena', lists) && Grows(arena, lists, arena', lists)
            && Underway(arena', maxHeight, lists, before, key, height, prev, x, 0, true, false)
  {
    hide Good, PrevAt, Level;
    var node := Node(key, seq(height, i => None));
    AllocateKeeps(arena, lists, node);
    PrevsKept(arena, arena + [node], lists, prev, 0, height, key);
    forall l | 0 <= l < MAX_HEIGHT
      ensures Absent(arena + [node], before[l], key)
    {
      assert Absent(arena, before[l], key) && x !in before[l];
    }
  }

  lemma Prepared(arena: Arena, maxHeight: nat, lists: Lists, before: Lists, key: InternalKey, height: nat, prev: seq<nat>, x: nat, level: nat)
    requires Good(arena, lists) && Underway(arena, maxHeight, lists, before, key, height, prev, x, level, true, false) && level < height
    requires prev[level] < |arena| && level < |arena[prev[level]].next|
    ensures var arena' := SetNext(arena, x, level, arena[prev[level]].next[level]);
            && Good(arena', lists) && Grows(arena, lists, arena', lists)
            && Underway(arena', maxHeight, lists, before, key, height, prev, x, level, true, true)
  {
    hide Good, PrevAt, Level;
    var arena' := SetNext(arena, x, level, arena[prev[level]].next[level]);
    assert x !in lists[level];
    PrepareKeeps(arena, lists, x, level, arena[prev[level]].next[level]);
    PrevsKept(arena, arena', lists, prev, level, height, key);
    PlacesDiffer(arena, lists, level, prev[level], key, x);
    forall l | 0 <= l < MAX_HEIGHT
      ensures Absent(arena', before[l], key)
    {
      assert Absent(arena, before[l], key);
    }
  }

  /** The new node is not its own predecessor. */
  lemma PlacesDiffer(arena: Arena, lists: Lists, level: nat, prev: nat, key: InternalKey, x: nat)
    requires level < MAX_HEIGHT && PrevAt(arena, lists[level], level, prev, key) && x !in lists[level]
    ensures prev != x
  {
  }

  lemma Linked(arena: Arena, maxHeight: nat, lists: Lists, before: Lists, key: InternalKey, height: nat, prev: seq<nat>, x: nat, level: nat)
    returns (p: nat)
    requires Good(arena, lists) && Underway(arena, maxHeight, lists, before, key, height, prev, x, level, true, true)
    ensures p < |lists[level]| && prev[level] < |arena| && level < |arena[prev[level]].next|
    ensures var arena' := SetNext(arena, prev[level], level, Some(x));
            var lists' := lists[level := Splice(lists[level], p, x)];
            && Good(arena', lists') && Grows(arena, lists, arena', lists')
            && Underway(arena', maxHeight, lists', before, key, height, prev, x, level + 1, true, false)
  {
    hide Good, Level, Place, Splice, Grows;
    assert PrevAt(arena, lists[level], level, prev[level], key);
    p :| 0 <= p < |lists[level]| && lists[level][p] == prev[level] && Place(arena, lists[level], level, p, key);
    var arena' := SetNext(arena, prev[level], level, Some(x));
    var lists' := lists[level := Splice(lists[level], p, x)];
    assert level > 0 ==> x in lists[level - 1];
    assert x !in lists[level];
    assert Absent(arena, lists[level], key) by { assert Absent(arena, before[level], key); }
    LinkKeeps(arena, lists, prev[level], level, p, x);
    SpliceMembers(lists[level], p, x);
    PrevsKept(arena, arena', lists', prev, level + 1, height, key);
    forall l | 0 <= l < MAX_HEIGHT
      ensures Absent(arena', before[l], key)
    {
      assert Absent(arena, before[l], key);
    }
  }

  lemma PrevsKept(arena: Arena, arena': Arena, lists: Lists, prev: seq<nat>, from: nat, height: nat, key: InternalKey)
    requires from <= height <= |prev| && height <= MAX_HEIGHT && Good(arena', lists)
    requires |arena| <= |arena'| && forall n :: 0 <= n < |arena| ==> arena'[n].key == arena[n].key
    requires forall l :: from <= l < height ==> PrevAt(arena, lists[l], l, prev[l], key)
    ensures forall l :: from <= l < height ==> PrevAt(arena', lists[l], l, prev[l], key)
  {
    forall l | from <= l < height
      ensures PrevAt(arena', lists[l], l, prev[l], key)
    {
      PrevKept(arena, arena', lists[l], l, prev[l], key);
    }
  }

  /** A search in progress: nothing it relies on is ever taken back by the writer. */
  class Reader {
    const target: InternalKey
    var x: nat
    var level: nat
    var done: bool
    var result: Option<nat>

    ghost predicate Ok(arena: Arena, lists: Lists)
      reads this
    {
      level < MAX_HEIGHT && x < |arena| && x in lists[level] && IsBefore(arena, x, target)
    }

    constructor (list: SkipList, target: InternalKey)
      requires list.Valid()
      ensures Ok(list.arena, list.lists) && !done && this.target == target
    {
      this.target := target;
      x, level, done, result := HEAD, list.maxHeight - 1, false, None;
      new;
      LevelOf(list.arena, list.lists, level);
    }

    /** One pointer load and what follows from it. */
    method Step(list: SkipList)
      requires list.Valid() && Ok(list.arena, list.lists) && !done
      modifies this
      ensures Ok(list.arena, list.lists)
      ensures !done ==> level < old(level) || (level == old(level) && Remaining(list.lists[level], x) < old(Remaining(list.lists[level], x)))
      ensures done ==> IsFirst(list.arena, list.lists[0], target, result)
    {
      hide Level, Good, Remaining;
      ghost var p: nat :| 0 <= p < |list.lists[level]| && list.lists[level][p] == x;
      LevelOf(list.arena, list.lists, level);
      At(list.arena, list.lists[level], level, p);
      Unique(list.arena, list.lists[level], level);
      var next := list.arena[x].next[level];
      if list.KeyIsAfterNode(target, next) {
        x := next.value;
        assert list.lists[level][p + 1] == x;
        RemainingAt(list.lists[level], p);
        RemainingAt(list.lists[level], p + 1);
      } else if level == 0 {
        FirstAfterPlace(list.arena, list.lists[0], 0, p, target);
        result, done := next, true;
      } else {
        ghost var _ := Down(list.arena, list.lists, level, p);
        level := level - 1;
      }
    }
  }

  /** How many nodes of a level are not before `x`. */
  ghost function Remaining(list: seq<nat>, x: nat): nat
  {
    if list == [] || list[0] == x then |list| else Remaining(list[1..], x)
  }

  lemma {:induction false} RemainingAt(list: seq<nat>, p: nat)
    requires forall i, j :: 0 <= i < j < |list| ==> list[i] != list[j]
    requires p < |list|
    ensures Remaining(list, list[p]) == |list| - p
  {
    if p > 0 { RemainingAt(list[1..], p - 1); }
  }

  /** A growing list keeps a search in progress on track. */
  lemma StillOk(arena: Arena, lists: Lists, arena': Arena, lists': Lists, r: Reader)
    requires r.Ok(arena, lists) && Grows(arena, lists, arena', lists')
    ensures r.Ok(arena', lists')
  {
    assert Within(lists[r.level], lists'[r.level]);
  }

  /** What a finished search owes: a linked node at or after the target, and no known node was overlooked. */
  ghost predicate Found(arena: Arena, list: seq<nat>, known: seq<nat>, target: InternalKey, result: Option<nat>) {
    && (result.Some? ==> result.value in list && result.value != HEAD && result.value < |arena| && NotAfter(target, arena[result.value].key))
    && (forall n :: n in known && n != HEAD && n < |arena| && NotAfter(target, arena[n].key) ==>
          result.Some? && result.value < |arena| && NotAfter(arena[result.value].key, arena[n].key))
  }

  lemma FirstIsFound(arena: Arena, list: seq<nat>, known: seq<nat>, target: InternalKey, result: Option<nat>)
    requires IsFirst(arena, list, target, result) && Within(known, list)
    ensures Found(arena, list, known, target, result)
  {
  }

  lemma Finished(arena: Arena, maxHeight: nat, lists: Lists, w: Inserter, todo: seq<(InternalKey, nat)>)
    requires w.Ok(arena, maxHeight, lists) && w.Done()
    requires Insertable(arena, w.before[0], [(w.key, w.height)] + todo)
    ensures Insertable(arena, lists[0], todo)
  {
    hide Insertable, PrevAt, Absent;
    AfterInsert(arena, w.before[0], lists[0], w.key, w.height, w.x, todo);
  }

  lemma AfterInsert(arena: Arena, before: seq<nat>, list: seq<nat>, key: InternalKey, height: nat, x: nat, todo: seq<(InternalKey, nat)>)
    requires Insertable(arena, before, [(key, height)] + todo)
    requires x < |arena| && arena[x].key == key && forall n :: n in list ==> n in before || n == x
    ensures Insertable(arena, list, todo)
  {
    var all := [(key, height)] + todo;
    forall i | 0 <= i < |todo|
      ensures 1 <= todo[i].1 <= MAX_HEIGHT && Absent(arena, list, todo[i].0)
    {
      assert all[i + 1] == todo[i] && all[0] == (key, height);
      assert Absent(arena, before, todo[i].0);
    }
    forall i, j | 0 <= i < j < |todo|
      ensures Before(todo[i].0, todo[j].0) || Before(todo[j].0, todo[i].0)
    {
      assert all[i + 1] == todo[i] && all[j + 1] == todo[j];
    }
  }

  lemma InsertableGrows(arena: Arena, arena': Arena, list: seq<nat>, todo: seq<(InternalKey, nat)>)
    requires Insertable(arena, list, todo) && |arena| <= |arena'|
    requires forall n :: 0 <= n < |arena| ==> arena'[n].key == arena[n].key
    requires forall n :: n in list ==> n < |arena|
    ensures Insertable(arena', list, todo)
  {
    forall i | 0 <= i < |todo|
      ensures Absent(arena', list, todo[i].0)
    {
      assert Absent(arena, list, todo[i].0);
    }
  }

  /** Keys still to insert: pairwise different and not in the list. */
  ghost predicate Insertable(arena: Arena, list: seq<nat>, todo: seq<(InternalKey, nat)>) {
    && (forall i :: 0 <= i < |todo| ==> 1 <= todo[i].1 <= MAX_HEIGHT && Absent(arena, list, todo[i].0))
    && (forall i, j :: 0 <= i < j < |todo| ==> Before(todo[i].0, todo[j].0) || Before(todo[j].0, todo[i].0))
  }

  /** A search runs against any number of insertions, interleaved store by load in any way. */
  method SearchDuringInserts(list: SkipList, target: InternalKey, inserts: seq<(InternalKey, nat)>) returns (result: Option<nat>)
    requires list.Valid() && Insertable(list.arena, list.lists[0], inserts)
    modifies list
    ensures list.Valid() && Grows(old(list.arena), old(list.lists), list.arena, list.lists)
    ensures Found(list.arena, list.lists[0], old(list.lists[0]), target, result)
  {
    hide Good, Level, Grows, Underway, Insertable, Found, IsFirst;
    var reader := new Reader(list, target);
    var todo := inserts;
    var writer: Inserter? := null;
    ghost var known := list.lists[0];
    GrowsAtOnce(list.arena, list.lists);
    while !reader.done
      invariant fresh(reader) && (writer != null ==> fresh(writer))
      invariant list.Valid() && reader.Ok(list.arena, list.lists) && reader.target == target
      invariant Grows(old(list.arena), old(list.lists), list.arena, list.lists)
      invariant reader.done ==> Found(list.arena, list.lists[0], known, target, reader.result)
      invariant writer == null ==> Insertable(list.arena, list.lists[0], todo)
      invariant writer != null ==> writer.Ok(list.arena, list.maxHeight, list.lists) && !writer.Done()
      invariant writer != null ==> Insertable(list.arena, writer.before[0], [(writer.key, writer.height)] + todo)
      decreases |todo|, if writer == null then 0 else 1, if writer == null then 0 else writer.Left(list.maxHeight),
        !reader.done, reader.level, Remaining(list.lists[reader.level], reader.x)
    {
      var writes: bool := *;
      ghost var arena0, lists0 := list.arena, list.lists;
      if writes && writer != null {
        BeforeWithin(list.arena, list.maxHeight, list.lists, writer);
        writer.Step(list);
        GrowsTwice(old(list.arena), old(list.lists), arena0, lists0, list.arena, list.lists);
        StillOk(arena0, lists0, list.arena, list.lists, reader);
        StillInsertable(arena0, lists0, list.arena, list.lists, writer, [(writer.key, writer.height)] + todo);
        if writer.Done() {
          Finished(list.arena, list.maxHeight, list.lists, writer, todo);
          writer := null;
        }
      } else if writes && writer == null && todo != [] {
        Next(list.arena, list.lists[0], todo);
        writer := new Inserter(list, todo[0].0, todo[0].1);
        assert [(writer.key, writer.height)] + todo[1..] == todo;
        todo := todo[1..];
      } else {
        reader.Step(list);
        if reader.done {
          KnownWithin(old(list.arena), old(list.lists), list.arena, list.lists);
          FirstIsFound(list.arena, list.lists[0], known, target, reader.result);
        }
      }
    }
    result := reader.result;
  }

  lemma KnownWithin(arena: Arena, lists: Lists, arena': Arena, lists': Lists)
    requires Grows(arena, lists, arena', lists')
    ensures Within(lists[0], lists'[0])
  {
  }

  lemma GrowsAtOnce(arena: Arena, lists: Lists)
    ensures Grows(arena, lists, arena, lists)
  {
  }

  lemma Next(arena: Arena, list: seq<nat>, todo: seq<(InternalKey, nat)>)
    requires Insertable(arena, list, todo) && todo != []
    ensures 1 <= todo[0].1 <= MAX_HEIGHT && Absent(arena, list, todo[0].0)
  {
  }

  lemma BeforeWithin(arena: Arena, maxHeight: nat, lists: Lists, w: Inserter)
    requires w.Ok(arena, maxHeight, lists)
    ensures Within(w.before[0], lists[0])
  {
  }

  lemma StillInsertable(arena: Arena, lists: Lists, arena': Arena, lists': Lists, w: Inserter, todo: seq<(InternalKey, nat)>)
    requires Insertable(arena, w.before[0], todo) && Grows(arena, lists, arena', lists') && Good(arena, lists)
    requires Within(w.before[0], lists[0])
    ensures Insertable(arena', w.before[0], todo)
  {
    LevelOf(arena, lists, 0);
    forall n | n in w.before[0]
      ensures n < |arena|
    {
      assert n in lists[0];
    }
    InsertableGrows(arena, arena', w.before[0], todo);
  }
}
