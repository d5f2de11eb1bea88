/**
 The circular doubly linked list with a head that libuv's queues (src/queue.h) and the list of
 snapshots (db/snapshot.h) share. A ring spells out the links, the head first.
 */
module IntrusiveQueue {

  class Link {
    var next: Link
    var prev: Link
    /** A snapshot's sequence number. */
    const value: nat

    /** QUEUE_INIT. */
    constructor (value: nat)
      ensures next == prev == this && this.value == value
    {
      next, prev := this, this;
      this.value := value;
    }
  }

  function Succ(i: nat, n: nat): (k: nat)
    requires i < n
    ensures k < n
  {
    if i + 1 < n then i + 1 else 0
  }

  predicate Distinct(ring: seq<Link>) {
    forall i, j :: 0 <= i < j < |ring| ==> ring[i] != ring[j]
  }

  /** Link `i` and the one after it point at each other. */
  ghost predicate Joined(ring: seq<Link>, i: nat)
    requires i < |ring|
    reads ring`next, ring`prev
  {
    ring[i].next == ring[Succ(i, |ring|)] && ring[Succ(i, |ring|)].prev == ring[i]
  }

  ghost predicate Ring(ring: seq<Link>)
    reads ring`next, ring`prev
  {
    ring != [] && Distinct(ring) && forall i :: 0 <= i < |ring| ==> Joined(ring, i)
  }

  lemma Unequal(ring: seq<Link>, i: nat, j: nat)
    requires Distinct(ring) && i < |ring| && j < |ring|
    ensures ring[i] == ring[j] <==> i == j
  {
  }

  /** A ring is all of the links that can be reached from its head, so it is determined by its head and length. */
  lemma {:induction false} OneRing(a: seq<Link>, b: seq<Link>, k: nat)
    requires Ring(a) && Ring(b) && a[0] == b[0] && k <= |a| && k <= |b|
    ensures a[..k] == b[..k]
  {
    if k > 1 {
      OneRing(a, b, k - 1);
      assert Joined(a, k - 2) && Joined(b, k - 2);
      assert a[..k - 1][k - 2] == b[..k - 1][k - 2];
    }
  }

  /** QUEUE_EMPTY and QUEUE_HEAD. */
  method Head(h: Link, ghost ring: seq<Link>) returns (empty: bool, first: Link)
    requires Ring(ring) && ring[0] == h
    ensures empty <==> |ring| == 1
    ensures first == ring[if empty then 0 else 1]
  {
    assert Joined(ring, 0);
    Unequal(ring, 0, Succ(0, |ring|));
    empty, first := h == h.next, h.next;
  }

  /** QUEUE_INSERT_TAIL; the new last link may have any links before. */
  method InsertTail(h: Link, q: Link, ghost ring: seq<Link>)
    requires Ring(ring) && ring[0] == h && q !in ring
    modifies q`next, q`prev, h`prev, {ring[|ring| - 1]}`next
    ensures Ring(ring + [q])
  {
    hide Distinct;
    ghost var n, now := |ring|, ring + [q];
    assert Joined(ring, n - 1);
    q.next := h;
    q.prev := h.prev;
    q.prev.next := q;
    h.prev := q;
    AppendDistinct(ring, q);
    forall i | 0 <= i < |now|
      ensures Joined(now, i)
    {
      if i < n - 1 {
        assert old(Joined(ring, i));
        Unequal(ring, i, n - 1);
        Unequal(ring, i + 1, 0);
      }
    }
  }

  lemma AppendDistinct(ring: seq<Link>, q: Link)
    requires Distinct(ring) && q !in ring
    ensures Distinct(ring + [q])
  {
  }

  /** QUEUE_REMOVE of any link but the head; its own pointers stay as they are. */
  method Remove(q: Link, ghost ring: seq<Link>, ghost k: nat)
    requires Ring(ring) && 0 < k < |ring| && ring[k] == q
    modifies {ring[k - 1]}`next, {ring[Succ(k, |ring|)]}`prev
    ensures Ring(ring[..k] + ring[k + 1..])
    ensures q.next == old(q.next) && q.prev == old(q.prev)
  {
    hide Distinct;
    ghost var n, now := |ring|, ring[..k] + ring[k + 1..];
    assert Joined(ring, k - 1) && Joined(ring, k);
    Unequal(ring, k, k - 1);
    Unequal(ring, k, Succ(k, n));
    q.prev.next := q.next;
    q.next.prev := q.prev;
    RemoveDistinct(ring, k);
    forall i | 0 <= i < |now|
      ensures Joined(now, i)
    {
      var j := if i < k then i else i + 1;
      if j != k - 1 {
        assert old(Joined(ring, j));
        Unequal(ring, j, k - 1);
        Unequal(ring, Succ(j, n), Succ(k, n));
      }
    }
  }

  lemma RemoveDistinct(ring: seq<Link>, k: nat)
    requires Distinct(ring) && k < |ring|
    ensures Distinct(ring[..k] + ring[k + 1..])
  {
  }

  /** QUEUE_MOVE: everything goes over to the head `n`, whatever its links were. */
  method Move(h: Link, n: Link, ghost ring: seq<Link>)
    requires Ring(ring) && ring[0] == h && n !in ring
    modifies h, n, {ring[|ring| - 1]}`next, {ring[Succ(0, |ring|)]}`prev
    ensures Ring([h]) && Ring([n] + ring[1..])
  {
    hide Distinct;
    ghost var last, now := |ring| - 1, [n] + ring[1..];
    SplitDistinct(ring, n);
    assert Joined(ring, last) && Joined(ring, 0);
    Unequal(ring, 0, last);
    if h == h.next {
      n.next := n;
      n.prev := n;
      return;
    }
    var q := h.next;
    // QUEUE_SPLIT
    n.prev := h.prev;
    n.prev.next := n;
    n.next := q;
    h.prev := q.prev;
    h.prev.next := h;
    q.prev := n;
    forall i | 0 <= i < |now|
      ensures Joined(now, i)
    {
      if 0 < i < last {
        assert old(Joined(ring, i));
        Unequal(ring, i, 0);
        Unequal(ring, i, last);
        Unequal(ring, i + 1, 0);
        Unequal(ring, i + 1, 1);
      }
    }
  }

  lemma SplitDistinct(ring: seq<Link>, n: Link)
    requires ring != [] && Distinct(ring) && n !in ring
    ensures Distinct([ring[0]]) && Distinct([n] + ring[1..])
  {
  }

  /** The live snapshots, oldest first. */
  class SnapshotList {
    const head: Link
    ghost var ring: seq<Link>

    ghost predicate Valid()
      reads this, ring`next, ring`prev
    {
      && ring != [] && Ring(ring) && ring[0] == head
      && forall i, j :: 0 < i < j < |ring| ==> ring[i].value <= ring[j].value
    }

    constructor ()
      ensures Valid() && ring == [head] && fresh(head)
    {
      var h := new Link(0);
      head, ring := h, [h];
    }

    /** New: sequence numbers never decrease, so the list stays in order. */
    method New(sequence: nat) returns (snapshot: Link)
      requires Valid() && forall i :: 0 < i < |ring| ==> ring[i].value <= sequence
      modifies `ring, head`prev, {ring[|ring| - 1]}`next
      ensures Valid() && fresh(snapshot) && snapshot.value == sequence && ring == old(ring) + [snapshot]
    {
      hide Ring;
      snapshot := new Link(sequence);
      InsertTail(head, snapshot, ring);
      ring := ring + [snapshot];
    }

    /** Delete: any snapshot may be the first to go. */
    method Delete(snapshot: Link, ghost k: nat)
      requires Valid() && 0 < k < |ring| && ring[k] == snapshot
      modifies `ring, ring`next, ring`prev
      ensures Valid() && ring == old(ring)[..k] + old(ring)[k + 1..]
    {
      hide Ring;
      Remove(snapshot, ring, k);
      ring := ring[..k] + ring[k + 1..];
    }

    /** The compaction's smallest snapshot: no live snapshot, and no reader to come, is older. */
    method SmallestSnapshot(lastSequence: nat) returns (smallest: nat)
      requires Valid() && forall i :: 0 < i < |ring| ==> ring[i].value <= lastSequence
      ensures smallest <= lastSequence && forall i :: 0 < i < |ring| ==> smallest <= ring[i].value
      ensures smallest == lastSequence || exists i :: 0 < i < |ring| && smallest == ring[i].value
    {
      hide Ring;
      var empty, oldest := Head(head, ring);
      smallest := if empty then lastSequence else oldest.value;
    }
  }
}
