/**
 One shard of the block cache (LRUCache, util/cache.cc): reference-counted handles in a hash
 table and two lists. Handles are numbered in the order of their allocation.
 */
module LruCache {
  import opened Keys
  import opened Store

  type Id = nat

  datatype Handle = Handle(key: UserKey, charge: nat, refs: nat, inCache: bool)

  /** `pins` counts the references clients hold; `deleted` lists the handles whose deleter has run. */
  datatype State = State(
    handles: map<Id, Handle>, table: map<UserKey, Id>, lru: seq<Id>, inUse: seq<Id>, usage: int,
    deleted: seq<Id>, pins: map<Id, nat>, next: Id)

  function Without(q: seq<Id>, x: Id): (r: seq<Id>) {
    if q == [] then [] else if q[0] == x then Without(q[1..], x) else [q[0]] + Without(q[1..], x)
  }

  lemma {:induction false} WithoutMembers(q: seq<Id>, x: Id)
    ensures forall y :: y in Without(q, x) <==> y in q && y != x
    ensures NoDuplicates(q) ==> NoDuplicates(Without(q, x))
    ensures x !in q ==> Without(q, x) == q
  {
    if q != [] {
      var rest := q[1..];
      assert q == [q[0]] + rest;
      WithoutMembers(rest, x);
      if NoDuplicates(q) {
        forall i, j | 0 <= i < j < |rest|
          ensures rest[i] != rest[j]
        {
          assert q[i + 1] != q[j + 1];
        }
        assert q[0] !in rest by { assert forall i :: 0 <= i < |rest| ==> rest[i] == q[i + 1]; }
        if q[0] != x { Prepends(q[0], Without(rest, x)); }
      }
    }
  }

  lemma Prepends(x: Id, q: seq<Id>)
    requires NoDuplicates(q) && x !in q
    ensures NoDuplicates([x] + q)
  {
  }

  ghost predicate NoDuplicates(q: seq<Id>) {
    forall i, j :: 0 <= i < j < |q| ==> q[i] != q[j]
  }

  ghost function Charges(handles: map<Id, Handle>, q: seq<Id>): nat {
    if q == [] then 0
    else Charges(handles, q[..|q| - 1]) + if q[|q| - 1] in handles then handles[q[|q| - 1]].charge else 0
  }

  lemma {:induction false} ChargesSame(a: map<Id, Handle>, b: map<Id, Handle>, q: seq<Id>)
    requires forall x :: x in q ==> x in a && x in b && a[x].charge == b[x].charge
    ensures Charges(a, q) == Charges(b, q)
  {
    if q != [] { ChargesSame(a, b, q[..|q| - 1]); }
  }

  lemma {:induction false} ChargesJoin(handles: map<Id, Handle>, a: seq<Id>, b: seq<Id>)
    ensures Charges(handles, a + b) == Charges(handles, a) + Charges(handles, b)
  {
    if b == [] {
      assert a + b == a;
    } else {
      ChargesJoin(handles, a, b[..|b| - 1]);
      assert (a + b)[..|a + b| - 1] == a + b[..|b| - 1];
    }
  }

  lemma {:induction false} ChargesWithout(handles: map<Id, Handle>, q: seq<Id>, x: Id)
    requires NoDuplicates(q) && x in q && x in handles
    ensures Charges(handles, Without(q, x)) == Charges(handles, q) - handles[x].charge
  {
    var rest := q[1..];
    assert q == [q[0]] + rest;
    ChargesJoin(handles, [q[0]], rest);
    assert [q[0]][..0] == [];
    assert forall i :: 0 <= i < |rest| ==> rest[i] == q[i + 1];
    WithoutMembers(rest, x);
    if q[0] != x {
      ChargesWithout(handles, rest, x);
      ChargesJoin(handles, [q[0]], Without(rest, x));
    }
  }

  /** What holds of one handle: its list, its table entry and its references. */
  ghost predicate Sound(s: State, id: Id)
    requires id in s.handles
  {
    var h := s.handles[id];
    && h.refs >= 1 && id in s.pins && h.refs == s.pins[id] + (if h.inCache then 1 else 0)
    && (id in s.lru <==> h.inCache && h.refs == 1)
    && (id in s.inUse <==> h.inCache && h.refs >= 2)
    && (h.inCache <==> h.key in s.table && s.table[h.key] == id)
    && id < s.next
  }

  /** A handle is alive, or its deleter ran, once. */
  ghost predicate Lives(s: State) {
    && NoDuplicates(s.deleted)
    && (forall id: Id :: id < s.next <==> id in s.handles || id in s.deleted)
    && (forall id :: id in s.handles ==> id !in s.deleted)
  }

  ghost predicate Valid(s: State) {
    && (forall id :: id in s.handles ==> Sound(s, id))
    && (forall id :: id in s.lru || id in s.inUse ==> id in s.handles)
    && (forall k :: k in s.table ==> s.table[k] in s.handles && s.handles[s.table[k]].key == k)
    && NoDuplicates(s.lru) && NoDuplicates(s.inUse)
    && s.usage == Charges(s.handles, s.lru) + Charges(s.handles, s.inUse)
    && Lives(s)
  }

  // ---- What validity means ----

  /** The two lists partition the cached handles; the unused ones are exactly those only the cache refers to. */
  lemma ListsPartition(s: State, k: UserKey)
    requires Valid(s) && k in s.table
    ensures var id := s.table[k];
            && (id in s.lru) != (id in s.inUse)
            && (id in s.lru <==> s.pins[id] == 0) && s.handles[id].inCache
  {
    assert Sound(s, s.table[k]);
  }

  /** No deleter runs while a client or the cache still refers to the handle, and none runs twice. */
  lemma DeletedOnce(s: State, id: Id)
    requires Valid(s) && id < s.next
    ensures id in s.deleted <==> id !in s.handles
    ensures id in s.handles ==> s.handles[id].refs > 0
    ensures multiset(s.deleted)[id] <= 1
  {
    if id in s.handles { assert Sound(s, id); }
    NoDuplicatesCount(s.deleted, id);
  }

  lemma {:induction false} NoDuplicatesCount(q: seq<Id>, x: Id)
    requires NoDuplicates(q)
    ensures multiset(q)[x] <= 1
  {
    if q != [] {
      var n := |q| - 1;
      assert q == q[..n] + [q[n]];
      NoDuplicatesCount(q[..n], x);
      assert q[n] !in q[..n];
    }
  }

  // ---- The steps on the state ----

  /** Ref: a handle only the cache referred to moves to the in-use list. */
  function Referenced(s: State, id: Id): State
    requires id in s.handles && id in s.pins
  {
    var h := s.handles[id];
    var moves := h.refs == 1 && h.inCache;
    s.(lru := if moves then Without(s.lru, id) else s.lru,
       inUse := if moves then Without(s.inUse, id) + [id] else s.inUse,
       handles := s.handles[id := h.(refs := h.refs + 1)], pins := s.pins[id := s.pins[id] + 1])
  }

  /** The last reference runs the deleter and frees the handle. */
  function Freed(s: State, id: Id): State {
    s.(handles := s.handles - {id}, pins := s.pins - {id}, deleted := s.deleted + [id])
  }

  /** Unref: the last reference frees; a cached handle only the cache refers to becomes the newest unused one. */
  function Unreferenced(s: State, id: Id): State
    requires id in s.handles && s.handles[id].refs >= 1
  {
    var h := s.handles[id];
    var t := s.(handles := s.handles[id := h.(refs := h.refs - 1)]);
    if h.refs == 1 then Freed(t, id)
    else if h.inCache && h.refs == 2 then t.(lru := Without(s.lru, id) + [id], inUse := Without(s.inUse, id))
    else t
  }

  /** Release by a client. */
  function Released(s: State, id: Id): State
    requires id in s.handles && id in s.pins && s.handles[id].refs >= 1 && s.pins[id] >= 1
  {
    Unreferenced(s.(pins := s.pins[id := s.pins[id] - 1]), id)
  }

  /** FinishErase: the cache lets go of a handle that is no longer in the table. */
  function Erased(s: State, id: Id): State
    requires id in s.handles && s.handles[id].refs >= 1
  {
    var h := s.handles[id];
    Unreferenced(s.(lru := Without(s.lru, id), inUse := Without(s.inUse, id), usage := s.usage - h.charge,
                    handles := s.handles[id := h.(inCache := false)]), id)
  }

  /** Table removal and FinishErase of whatever is under a key. */
  function Dropped(s: State, key: UserKey): State
    requires key in s.table ==> s.table[key] in s.handles && s.handles[s.table[key]].refs >= 1
  {
    if key in s.table then Erased(s.(table := s.table - {key}), s.table[key]) else s
  }

  /** The `k` oldest unused handles are gone from the cache and have been deleted, in this order; nothing else is touched. */
  ghost function Shed(s: State, k: nat): State
    requires k <= |s.lru| && forall id :: id in s.lru ==> id in s.handles
  {
    var unused := set id | id in s.lru[..k];
    s.(handles := s.handles - unused, table := map key | key in s.table && s.table[key] !in s.lru[..k] :: s.table[key],
       lru := s.lru[k..], usage := s.usage - Charges(s.handles, s.lru[..k]), deleted := s.deleted + s.lru[..k], pins := s.pins - unused)
  }

  /** The new handle before the displaced one is erased. */
  function Added(s: State, key: UserKey, charge: nat): State {
    s.(handles := s.handles[s.next := Handle(key, charge, 2, true)], pins := s.pins[s.next := 1], inUse := s.inUse + [s.next],
       usage := s.usage + charge, table := s.table[key := s.next], next := s.next + 1)
  }

  lemma ReferencedKeeps(s: State, id: Id)
    requires Valid(s) && id in s.handles
    ensures id in s.pins && Valid(Referenced(s, id))
  {
    hide Charges, NoDuplicates;
    assert Sound(s, id);
    var t := Referenced(s, id);
    WithoutMembers(s.lru, id);
    WithoutMembers(s.inUse, id);
    forall x | x in t.handles
      ensures Sound(t, x)
    {
      assert Sound(s, x);
    }
    UsageOf(s, t, id);
  }

  /** Moving a handle from one list to the other changes neither the sum nor the lists' tidiness. */
  lemma UsageOf(s: State, t: State, id: Id)
    requires Valid(s) && id in s.handles && id in t.handles && t.usage == s.usage
    requires t.handles == s.handles[id := t.handles[id]] && t.handles[id].charge == s.handles[id].charge
    requires || (t.lru == s.lru && t.inUse == s.inUse)
             || (id in s.lru && id !in s.inUse && t.lru == Without(s.lru, id) && t.inUse == Without(s.inUse, id) + [id])
             || (id in s.inUse && id !in s.lru && t.inUse == Without(s.inUse, id) && t.lru == Without(s.lru, id) + [id])
    ensures t.usage == Charges(t.handles, t.lru) + Charges(t.handles, t.inUse)
    ensures NoDuplicates(t.lru) && NoDuplicates(t.inUse)
  {
    hide Sound, Lives;
    WithoutMembers(s.lru, id);
    WithoutMembers(s.inUse, id);
    ChargesSame(s.handles, t.handles, s.lru);
    ChargesSame(s.handles, t.handles, s.inUse);
    if t.lru != s.lru || t.inUse != s.inUse {
      if id in s.lru {
        ChargesWithout(t.handles, s.lru, id);
        ChargesJoin(t.handles, Without(s.inUse, id), [id]);
      } else {
        ChargesWithout(t.handles, s.inUse, id);
        ChargesJoin(t.handles, Without(s.lru, id), [id]);
      }
      assert [id][..0] == [];
      Appends(Without(s.inUse, id), id);
      Appends(Without(s.lru, id), id);
    }
  }

  lemma Appends(q: seq<Id>, x: Id)
    requires NoDuplicates(q) && x !in q
    ensures NoDuplicates(q + [x])
  {
  }

  lemma ReleasedSound(s: State, id: Id, x: Id)
    requires id in s.handles && Sound(s, id) && s.pins[id] >= 1 && x in s.handles && Sound(s, x)
    requires x in Released(s, id).handles
    ensures Sound(Released(s, id), x)
  {
    WithoutMembers(s.lru, id);
    WithoutMembers(s.inUse, id);
  }

  lemma ReleasedKeeps(s: State, id: Id)
    requires Valid(s) && id in s.handles && id in s.pins && s.pins[id] >= 1
    ensures s.handles[id].refs >= 1 && Valid(Released(s, id))
  {
    hide Charges, NoDuplicates, Sound, Without;
    SoundParts(s, id);
    var h, t := s.handles[id], Released(s, id);
    WithoutMembers(s.lru, id);
    WithoutMembers(s.inUse, id);
    forall x | x in t.handles
      ensures Sound(t, x)
    {
      ReleasedSound(s, id, x);
    }
    if h.refs == 1 {
      ChargesSame(s.handles, t.handles, s.lru);
      ChargesSame(s.handles, t.handles, s.inUse);
      Appends(s.deleted, id);
    } else {
      UsageOf(s, t, id);
    }
  }

  lemma SoundParts(s: State, id: Id)
    requires id in s.handles && Sound(s, id)
    ensures var h := s.handles[id];
            && h.refs >= 1 && id in s.pins && h.refs == s.pins[id] + (if h.inCache then 1 else 0)
            && (id in s.lru <==> h.inCache && h.refs == 1) && (id in s.inUse <==> h.inCache && h.refs >= 2)
            && (h.inCache <==> h.key in s.table && s.table[h.key] == id) && id < s.next
  {
  }

  lemma ErasedSound(s: State, id: Id, x: Id)
    requires id in s.handles && Sound(s, id) && s.handles[id].inCache && x in s.handles && Sound(s, x)
    requires x in Erased(s.(table := s.table - {s.handles[id].key}), id).handles
    ensures Sound(Erased(s.(table := s.table - {s.handles[id].key}), id), x)
  {
    WithoutMembers(s.lru, id);
    WithoutMembers(s.inUse, id);
  }

  /** Erasing a handle just taken out of the table. */
  lemma ErasedKeeps(s: State, id: Id)
    requires Valid(s) && id in s.handles && s.handles[id].inCache
    ensures s.handles[id].refs >= 1 && Valid(Erased(s.(table := s.table - {s.handles[id].key}), id))
  {
    hide Charges, NoDuplicates, Sound;
    SoundParts(s, id);
    var h, t := s.handles[id], Erased(s.(table := s.table - {s.handles[id].key}), id);
    WithoutMembers(s.lru, id);
    WithoutMembers(s.inUse, id);
    forall x | x in t.handles
      ensures Sound(t, x)
    {
      ErasedSound(s, id, x);
    }
    forall k | k in t.table
      ensures t.table[k] in t.handles && t.handles[t.table[k]].key == k
    {
      assert k in s.table && s.handles[s.table[k]].key == k;
    }
    ErasedUsage(s, t, id);
    if h.refs == 1 { Appends(s.deleted, id); }
  }

  lemma ErasedUsage(s: State, t: State, id: Id)
    requires Valid(s) && id in s.handles && (id in s.lru) != (id in s.inUse)
    requires t.usage == s.usage - s.handles[id].charge && t.lru == Without(s.lru, id) && t.inUse == Without(s.inUse, id)
    requires forall x :: x in s.handles && x != id ==> x in t.handles && t.handles[x] == s.handles[x]
    ensures t.usage == Charges(t.handles, t.lru) + Charges(t.handles, t.inUse)
    ensures NoDuplicates(t.lru) && NoDuplicates(t.inUse)
  {
    hide Sound, Lives;
    WithoutMembers(s.lru, id);
    WithoutMembers(s.inUse, id);
    if id in s.lru { ChargesWithout(s.handles, s.lru, id); } else { ChargesWithout(s.handles, s.inUse, id); }
    ChargesSame(s.handles, t.handles, t.lru);
    ChargesSame(s.handles, t.handles, t.inUse);
  }

  /** Inserting under a new key. */
  lemma AddedKeeps(s: State, key: UserKey, charge: nat)
    requires Valid(s) && key !in s.table
    ensures Valid(Added(s, key, charge))
  {
    hide Charges, NoDuplicates;
    var t := Added(s, key, charge);
    forall x | x in t.handles
      ensures Sound(t, x)
    {
      if x in s.handles { assert Sound(s, x); }
    }
    ChargesSame(s.handles, t.handles, s.lru);
    ChargesSame(s.handles, t.handles, s.inUse);
    ChargesJoin(t.handles, s.inUse, [s.next]);
    assert [s.next][..0] == [];
    assert Charges(t.handles, [s.next]) == charge by { One(t.handles, s.next); }
    Appends(s.inUse, s.next);
  }

  lemma One(handles: map<Id, Handle>, id: Id)
    requires id in handles
    ensures Charges(handles, [id]) == handles[id].charge
  {
    assert [id][..0] == [];
  }

  lemma DroppedKeeps(s: State, key: UserKey)
    requires Valid(s)
    ensures key in s.table ==> s.table[key] in s.handles && s.handles[s.table[key]].refs >= 1
    ensures Valid(Dropped(s, key)) && key !in Dropped(s, key).table && Dropped(s, key).next == s.next
  {
    hide Charges, NoDuplicates, Sound, Lives, Erased;
    if key in s.table {
      var id := s.table[key];
      SoundParts(s, id);
      ErasedKeeps(s, id);
      ErasedFrame(s.(table := s.table - {key}), id);
    }
  }

  lemma ErasedFrame(s: State, id: Id)
    requires id in s.handles && s.handles[id].refs >= 1
    ensures Erased(s, id).table == s.table && Erased(s, id).next == s.next
    ensures Erased(s, id).lru == Without(s.lru, id)
    ensures forall x :: x != id ==> (x in Erased(s, id).handles <==> x in s.handles)
    ensures forall x :: x != id && x in s.handles ==> Erased(s, id).handles[x] == s.handles[x]
  {
    WithoutMembers(s.lru, id);
  }

  /** Insert under a key that is taken: erasing the displaced handle last or first comes to the same. */
  lemma DisplacedLast(s: State, key: UserKey, charge: nat)
    requires Valid(s) && key in s.table
    ensures s.table[key] in s.handles && s.handles[s.table[key]].refs >= 1 && s.table[key] < s.next
    ensures Erased(Added(s, key, charge), s.table[key]) == Added(Dropped(s, key), key, charge)
  {
    hide Charges, NoDuplicates, Lives, Sound, Without;
    var id := s.table[key];
    SoundParts(s, id);
    WithoutLast(s.inUse, id, s.next);
    assert s.table[key := s.next] == (s.table - {key})[key := s.next];
    Commutes(s, key, charge, id);
  }

  lemma Commutes(s: State, key: UserKey, charge: nat, id: Id)
    requires key in s.table && s.table[key] == id && id in s.handles && id in s.pins && s.handles[id].refs >= 1 && id != s.next
    requires Without(s.inUse + [s.next], id) == Without(s.inUse, id) + [s.next]
    requires s.table[key := s.next] == (s.table - {key})[key := s.next]
    ensures Erased(Added(s, key, charge), id) == Added(Dropped(s, key), key, charge)
  {
    hide Without;
    var h, fresh' := s.handles[id], Handle(key, charge, 2, true);
    var less := h.(inCache := false, refs := h.refs - 1);
    assert s.handles[s.next := fresh'][id := h.(inCache := false)][id := less] == s.handles[id := h.(inCache := false)][id := less][s.next := fresh'];
    assert s.handles[s.next := fresh'][id := h.(inCache := false)][id := less] - {id}
      == (s.handles[id := h.(inCache := false)][id := less] - {id})[s.next := fresh'];
    assert s.pins[s.next := 1] - {id} == (s.pins - {id})[s.next := 1];
  }

  lemma {:induction false} WithoutLast(q: seq<Id>, x: Id, y: Id)
    requires x != y
    ensures Without(q + [y], x) == Without(q, x) + [y]
  {
    if q == [] {
      assert [] + [y] == [y] && [y][1..] == [];
    } else {
      WithoutLast(q[1..], x, y);
      assert (q + [y])[1..] == q[1..] + [y];
    }
  }

  /** The oldest unused handles go until the charges fit. */
  function Evicted(s: State, capacity: nat): State
    requires Valid(s)
    decreases |s.lru|
  {
    if s.usage > capacity && s.lru != [] then
      OldestGoes(s);
      Evicted(Dropped(s, s.handles[s.lru[0]].key), capacity)
    else s
  }

  lemma OldestGoes(s: State)
    requires Valid(s) && s.lru != []
    ensures var id := s.lru[0];
            && id in s.handles && s.handles[id].key in s.table && s.table[s.handles[id].key] == id && s.handles[id].refs == 1
            && Valid(Dropped(s, s.handles[id].key))
            && Dropped(s, s.handles[id].key).lru == s.lru[1..]
  {
    hide Charges, Lives, Erased, Sound;
    var id := s.lru[0];
    SoundParts(s, id);
    DroppedKeeps(s, s.handles[id].key);
    ErasedFrame(s.(table := s.table - {s.handles[id].key}), id);
    assert id !in s.lru[1..] by { assert forall i :: 0 <= i < |s.lru| - 1 ==> s.lru[1..][i] == s.lru[i + 1]; }
    WithoutMembers(s.lru[1..], id);
  }

  /** Eviction keeps the state valid and gets below the capacity, unless everything left is in use. */
  lemma {:induction false} EvictedKeeps(s: State, capacity: nat)
    requires Valid(s)
    ensures var t := Evicted(s, capacity);
            && Valid(t) && (t.usage <= capacity || t.lru == []) && t.next == s.next
            && (forall id :: id in s.inUse ==> id in s.handles && id in t.handles && t.handles[id] == s.handles[id])
            && (exists k :: 0 <= k <= |s.lru| && t.lru == s.lru[k..])
    decreases |s.lru|
  {
    hide Charges, Lives, Erased, Sound, Dropped;
    if s.usage > capacity && s.lru != [] {
      OldestGoes(s);
      var id := s.lru[0];
      var u := Dropped(s, s.handles[id].key);
      InUseStays(s);
      EvictedKeeps(u, capacity);
      var t := Evicted(s, capacity);
      assert t == Evicted(u, capacity);
      var k :| 0 <= k <= |u.lru| && t.lru == u.lru[k..];
      assert t.lru == s.lru[k + 1..];
    } else {
      assert s.lru[0..] == s.lru;
    }
  }

  lemma InUseStays(s: State)
    requires Valid(s) && s.lru != [] && s.lru[0] in s.handles && s.handles[s.lru[0]].key in s.table
    requires s.table[s.handles[s.lru[0]].key] == s.lru[0] && s.handles[s.lru[0]].refs == 1
    ensures var u := Dropped(s, s.handles[s.lru[0]].key);
            && u.inUse == s.inUse && u.next == s.next
            && forall id :: id in s.inUse ==> id in s.handles && id in u.handles && u.handles[id] == s.handles[id]
  {
    hide Charges, Lives, Erased;
    var id := s.lru[0];
    SoundParts(s, id);
    WithoutMembers(s.inUse, id);
    ErasedFrame(s.(table := s.table - {s.handles[id].key}), id);
    ErasedInUse(s.(table := s.table - {s.handles[id].key}), id);
  }

  lemma ErasedInUse(s: State, id: Id)
    requires id in s.handles && s.handles[id].refs >= 1
    ensures Erased(s, id).inUse == Without(s.inUse, id)
  {
  }

  /** The state in which Insert starts to evict. */
  ghost function Inserted(s: State, key: UserKey, charge: nat, capacity: nat): State
    requires Valid(s)
  {
    if capacity > 0 then
      DroppedKeeps(s, key);
      Added(Dropped(s, key), key, charge)
    else s.(handles := s.handles[s.next := Handle(key, charge, 1, false)], pins := s.pins[s.next := 1], next := s.next + 1)
  }

  lemma InsertedKeeps(s: State, key: UserKey, charge: nat, capacity: nat)
    requires Valid(s)
    ensures Valid(Inserted(s, key, charge, capacity)) && Inserted(s, key, charge, capacity).next == s.next + 1
    ensures capacity > 0 ==> s.next in Inserted(s, key, charge, capacity).inUse
  {
    hide Charges, NoDuplicates;
    if capacity > 0 {
      DroppedKeeps(s, key);
      AddedKeeps(Dropped(s, key), key, charge);
    } else {
      var t := Inserted(s, key, charge, capacity);
      forall x | x in t.handles
        ensures Sound(t, x)
      {
        if x in s.handles { assert Sound(s, x); }
      }
      ChargesSame(s.handles, t.handles, s.lru);
      ChargesSame(s.handles, t.handles, s.inUse);
    }
  }

  // ---- The cache ----

  class LRUCache {
    const capacity: nat
    var handles: map<Id, Handle>
    var table: map<UserKey, Id>
    /** Oldest first. */
    var lru: seq<Id>
    var inUse: seq<Id>
    var usage: int
    var next: Id
    ghost var deleted: seq<Id>
    ghost var pins: map<Id, nat>

    ghost function S(): State
      reads this
    {
      State(handles, table, lru, inUse, usage, deleted, pins, next)
    }

    constructor (capacity: nat)
      ensures Valid(S()) && table == map[] && usage == 0 && this.capacity == capacity
    {
      this.capacity := capacity;
      handles, table, lru, inUse, usage, next := map[], map[], [], [], 0, 0;
      deleted, pins := [], map[];
    }

    /** Ref, for a client. */
    method Ref(e: Id)
      requires e in handles && e in pins
      modifies this
      ensures S() == Referenced(old(S()), e)
    {
      var h := handles[e];
      if h.refs == 1 && h.inCache {
        lru := Without(lru, e);
        inUse := Without(inUse, e) + [e];
      }
      handles := handles[e := h.(refs := h.refs + 1)];
      pins := pins[e := pins[e] + 1];
    }

    method Unref(e: Id)
      requires e in handles && handles[e].refs >= 1
      modifies this
      ensures S() == Unreferenced(old(S()), e)
    {
      var h := handles[e];
      handles := handles[e := h.(refs := h.refs - 1)];
      if h.refs == 1 {
        handles := handles - {e};
        deleted := deleted + [e];
        pins := pins - {e};
      } else if h.inCache && h.refs == 2 {
        inUse := Without(inUse, e);
        lru := Without(lru, e) + [e];
      }
    }

    method FinishErase(e: Id)
      requires e in handles && handles[e].refs >= 1
      modifies this
      ensures S() == Erased(old(S()), e)
    {
      lru, inUse := Without(lru, e), Without(inUse, e);
      usage := usage - handles[e].charge;
      handles := handles[e := handles[e].(inCache := false)];
      Unref(e);
    }

    /** A hit takes a reference for the caller. */
    method Lookup(key: UserKey) returns (e: Option<Id>)
      requires Valid(S())
      modifies this
      ensures Valid(S()) && (e.Some? <==> key in old(table))
      ensures e.None? ==> S() == old(S())
      ensures e.Some? ==>
                && e.value == old(table)[key] && e.value in old(handles) && e.value in old(pins)
                && S() == Referenced(old(S()), e.value) && e.value in handles && handles[e.value].key == key
      ensures e.Some? ==>
                && table == old(table) && usage == old(usage) && next == old(next) && deleted == old(deleted)
                && handles == old(handles)[e.value := old(handles)[e.value].(refs := old(handles)[e.value].refs + 1)]
                && pins == old(pins)[e.value := old(pins)[e.value] + 1]
                && e.value in inUse && e.value !in lru
                && forall x :: x != e.value ==> (x in inUse <==> x in old(inUse)) && (x in lru <==> x in old(lru))
    {
      hide Charges, NoDuplicates, Lives, Sound, Without;
      if key in table {
        e := Some(table[key]);
        SoundParts(S(), e.value);
        WithoutMembers(lru, e.value);
        WithoutMembers(inUse, e.value);
        ReferencedKeeps(S(), e.value);
        Ref(e.value);
      } else {
        e := None;
      }
    }

    /** Each reference a client got is to be released once. */
    method Release(e: Id)
      requires Valid(S()) && e in pins && pins[e] >= 1 && e in handles
      modifies this
      ensures Valid(S()) && old(handles[e].refs >= 1) && S() == Released(old(S()), e)
      ensures table == old(table) && usage == old(usage) && next == old(next)
      ensures if old(pins[e]) > 1 then
                && lru == old(lru) && inUse == old(inUse) && deleted == old(deleted)
                && handles == old(handles)[e := old(handles[e]).(refs := old(handles[e].refs) - 1)] && pins == old(pins)[e := old(pins[e]) - 1]
              else if old(handles[e].inCache) then
                && lru == old(lru) + [e] && e !in inUse && (forall x :: x != e ==> (x in inUse <==> x in old(inUse))) && deleted == old(deleted)
                && handles == old(handles)[e := old(handles[e]).(refs := 1)] && pins == old(pins)[e := 0]
              else
                && lru == old(lru) && inUse == old(inUse) && deleted == old(deleted) + [e]
                && handles == old(handles) - {e} && pins == old(pins) - {e}
    {
      hide Charges, NoDuplicates, Lives, Sound;
      SoundParts(S(), e);
      ReleasedKeeps(S(), e);
      WithoutMembers(lru, e);
      WithoutMembers(inUse, e);
      pins := pins[e := pins[e] - 1];
      Unref(e);
    }

    /** Insert: the new handle is the caller's; old unused ones make room. */
    method Insert(key: UserKey, charge: nat) returns (e: Id)
      requires Valid(S())
      modifies this
      ensures Valid(S()) && e == old(next) && e in handles && handles[e] == Handle(key, charge, if capacity > 0 then 2 else 1, capacity > 0)
      ensures Valid(Inserted(old(S()), key, charge, capacity)) && S() == Evicted(Inserted(old(S()), key, charge, capacity), capacity)
      ensures usage <= capacity || lru == []
      ensures capacity > 0 ==> key in table && table[key] == e
      ensures var t := Inserted(old(S()), key, charge, capacity);
              exists k: nat :: k <= |t.lru| && S() == Shed(t, k) && (k > 0 ==> t.usage - Charges(t.handles, t.lru[..k - 1]) > capacity)
    {
      hide Charges, NoDuplicates, Lives, Sound, Erased, Dropped, Evicted, Shed;
      ghost var s := S();
      InsertedKeeps(s, key, charge, capacity);
      ghost var t := Inserted(s, key, charge, capacity);
      e := next;
      next := next + 1;
      pins := pins[e := 1];
      if capacity > 0 {
        handles := handles[e := Handle(key, charge, 2, true)];
        inUse := inUse + [e];
        usage := usage + charge;
        var displaced := if key in table then Some(table[key]) else None;
        table := table[key := e];
        if key !in s.table { NoDisplacement(s, key); }
        if displaced.Some? {
          DisplacedLast(s, key, charge);
          FinishErase(displaced.value);
        }
      } else {
        handles := handles[e := Handle(key, charge, 1, false)];
      }
      assert S() == t;
      EvictedKeeps(t, capacity);
      NewHandle(t, key, charge, e, capacity);
      MakeRoom();
      ghost var k := EvictedSheds(t, capacity);
    }

    /** The end of Insert: the oldest unused handles go as long as the charges exceed the capacity. */
    method MakeRoom()
      requires Valid(S())
      modifies this
      ensures Valid(S()) && S() == Evicted(old(S()), capacity)
      ensures usage <= capacity || lru == []
    {
      hide Charges, NoDuplicates, Lives, Sound, Erased, Dropped, Evicted;
      while usage > capacity && lru != []
        invariant Valid(S()) && Evicted(S(), capacity) == Evicted(old(S()), capacity)
        decreases |lru|
      {
        ghost var u := S();
        OldestGoes(u);
        EvictStep(u, capacity);
        var oldest := lru[0];
        ghost var k := handles[oldest].key;
        DropIs(u, k);
        table := table - {handles[oldest].key};
        FinishErase(oldest);
      }
      EvictEnd(S(), capacity);
    }

    /** The new handle is in use, so it is not evicted. */
    lemma NewHandle(t: State, key: UserKey, charge: nat, e: Id, capacity: nat)
      requires Valid(t) && e in t.handles && t.handles[e] == Handle(key, charge, if capacity > 0 then 2 else 1, capacity > 0)
      ensures var u := Evicted(t, capacity);
              && e in u.handles && u.handles[e] == t.handles[e]
              && (capacity > 0 ==> key in u.table && u.table[key] == e)
    {
      hide Charges, NoDuplicates, Lives, Dropped;
      SoundParts(t, e);
      EvictedKeeps(t, capacity);
      StaysAlive(t, e, capacity);
      SoundParts(Evicted(t, capacity), e);
    }

    method Erase(key: UserKey)
      requires Valid(S())
      modifies this
      ensures Valid(S()) && key !in table
      ensures (key in old(table) ==> old(table)[key] in old(handles) && old(handles)[old(table)[key]].refs >= 1)
      ensures S() == Dropped(old(S()), key)
      ensures key !in old(table) ==> S() == old(S())
      ensures key in old(table) ==>
                var id := old(table)[key];
                var h := old(handles)[id];
                && table == old(table) - {key} && usage == old(usage) - h.charge && next == old(next)
                && id !in lru && id !in inUse
                && (forall x :: x != id ==> (x in inUse <==> x in old(inUse)) && (x in lru <==> x in old(lru)))
                && if h.refs == 1 then
                     handles == old(handles) - {id} && pins == old(pins) - {id} && deleted == old(deleted) + [id]
                   else
                     && handles == old(handles)[id := h.(refs := h.refs - 1, inCache := false)]
                     && pins == old(pins) && deleted == old(deleted)
    {
      hide Charges, NoDuplicates, Lives, Sound, Erased;
      DroppedKeeps(S(), key);
      if key in table {
        var e := table[key];
        ErasedIs(S().(table := table - {key}), e);
        table := table - {key};
        FinishErase(e);
      }
    }

    /** Drops every handle nobody uses. */
    method Prune()
      requires Valid(S())
      modifies this
      ensures Valid(S()) && S() == Shed(old(S()), old(|lru|)) && lru == [] && usage == Charges(handles, inUse)
    {
      hide Charges, NoDuplicates, Lives, Sound, Erased, Dropped, Shed;
      while lru != []
        invariant Valid(S()) && Shed(S(), |lru|) == Shed(old(S()), old(|lru|))
        decreases |lru|
      {
        ghost var u := S();
        OldestGoes(u);
        ShedStep(u, |lru| - 1);
        var oldest := lru[0];
        ghost var k := handles[oldest].key;
        DropIs(u, k);
        table := table - {handles[oldest].key};
        FinishErase(oldest);
      }
      NothingShed(S());
    }
  }

  lemma NothingShed(s: State)
    requires Valid(s)
    ensures Shed(s, 0) == s && (s.lru == [] ==> s.usage == Charges(s.handles, s.inUse))
  {
    hide Lives, Sound, NoDuplicates;
    assert s.lru[..0] == [] && s.lru[0..] == s.lru;
    var unused := set id | id in s.lru[..0];
    assert unused == {};
    assert s.handles - unused == s.handles && s.pins - unused == s.pins && s.deleted + [] == s.deleted;
    assert (map key | key in s.table && s.table[key] !in s.lru[..0] :: s.table[key]) == s.table;
  }

  /** Eviction takes no more than it must: without the last of them the charges would not fit. */
  lemma {:induction false} EvictedSheds(s: State, capacity: nat) returns (k: nat)
    requires Valid(s)
    ensures k <= |s.lru| && Evicted(s, capacity) == Shed(s, k)
    ensures k < |s.lru| ==> s.usage - Charges(s.handles, s.lru[..k]) <= capacity
    ensures k > 0 ==> s.usage - Charges(s.handles, s.lru[..k - 1]) > capacity
    decreases |s.lru|
  {
    hide Lives, Sound, NoDuplicates, Dropped, Evicted, Shed;
    if s.usage > capacity && s.lru != [] {
      OldestGoes(s);
      EvictStep(s, capacity);
      OldestDropped(s);
      var id := s.lru[0];
      var u := Dropped(s, s.handles[id].key);
      var m := EvictedSheds(u, capacity);
      k := m + 1;
      ShedStep(s, m);
      PrefixCharges(s.handles, s.lru, m);
      if m > 0 { PrefixCharges(s.handles, s.lru, m - 1); }
    } else {
      k := 0;
      EvictEnd(s, capacity);
      NothingShed(s);
      assert s.lru[..0] == [];
    }
  }

  lemma PrefixCharges(handles: map<Id, Handle>, lru: seq<Id>, m: nat)
    requires m < |lru| && NoDuplicates(lru) && forall x :: x in lru ==> x in handles
    ensures Charges(handles, lru[..m + 1]) == handles[lru[0]].charge + Charges(handles - {lru[0]}, lru[1..][..m])
  {
    var q := lru[..m + 1];
    assert q[1..] == lru[1..][..m];
    UnusedCharges(handles, q);
  }

  lemma OldestDropped(s: State)
    requires Valid(s) && s.lru != []
    requires s.lru[0] in s.handles && s.handles[s.lru[0]].key in s.table && s.table[s.handles[s.lru[0]].key] == s.lru[0] && s.handles[s.lru[0]].refs == 1
    ensures var id, h := s.lru[0], s.handles[s.lru[0]];
            Dropped(s, h.key) == s.(handles := s.handles - {id}, table := s.table - {h.key}, lru := s.lru[1..],
                                    usage := s.usage - h.charge, deleted := s.deleted + [id], pins := s.pins - {id})
  {
    hide Charges, Lives, NoDuplicates;
    var id := s.lru[0];
    assert Sound(s, id);
    OnlyFirst(s.lru);
    WithoutMembers(s.inUse, id);
    WithoutMembers(s.lru[1..], id);
    OldestErased(s.(table := s.table - {s.handles[id].key}), id);
  }

  /** The oldest unused handle is the first of those that go. */
  lemma ShedStep(s: State, k: nat)
    requires Valid(s) && k < |s.lru|
    requires s.lru[0] in s.handles && s.handles[s.lru[0]].key in s.table && s.table[s.handles[s.lru[0]].key] == s.lru[0] && s.handles[s.lru[0]].refs == 1
    requires Valid(Dropped(s, s.handles[s.lru[0]].key))
    ensures k <= |Dropped(s, s.handles[s.lru[0]].key).lru|
    ensures Shed(Dropped(s, s.handles[s.lru[0]].key), k) == Shed(s, k + 1)
  {
    hide Charges, Lives, Sound, NoDuplicates, Dropped;
    var id := s.lru[0];
    var u := Dropped(s, s.handles[id].key);
    OldestDropped(s);
    OnlyFirst(s.lru);
    assert s.lru[..k + 1] == [id] + u.lru[..k];
    PrefixCharges(s.handles, s.lru, k);
    var first, others := s.lru[..k + 1], u.lru[..k];
    var unused, rest := set x | x in first, set x | x in others;
    assert unused == rest + {id};
    assert u.handles - rest == s.handles - unused && u.pins - rest == s.pins - unused;
    assert u.deleted + u.lru[..k] == s.deleted + s.lru[..k + 1];
    TableWithout(s, k);
  }

  lemma UnusedCharges(handles: map<Id, Handle>, lru: seq<Id>)
    requires lru != [] && NoDuplicates(lru) && forall x :: x in lru ==> x in handles
    ensures Charges(handles, lru) == handles[lru[0]].charge + Charges(handles - {lru[0]}, lru[1..])
  {
    OnlyFirst(lru);
    assert lru == [lru[0]] + lru[1..];
    ChargesJoin(handles, [lru[0]], lru[1..]);
    OneCharge(handles, lru[0]);
    ChargesSame(handles, handles - {lru[0]}, lru[1..]);
  }

  lemma TableWithout(s: State, k: nat)
    requires Valid(s) && k < |s.lru|
    requires s.lru[0] in s.handles && s.handles[s.lru[0]].key in s.table && s.table[s.handles[s.lru[0]].key] == s.lru[0]
    ensures var table := s.table - {s.handles[s.lru[0]].key};
            (map key | key in table && table[key] !in s.lru[1..][..k] :: table[key])
            == map key | key in s.table && s.table[key] !in s.lru[..k + 1] :: s.table[key]
  {
    hide Charges, Lives, Sound, NoDuplicates;
    var id := s.lru[0];
    assert s.lru[..k + 1] == [id] + s.lru[1..][..k];
    assert forall key :: key in s.table && s.table[key] == id ==> key == s.handles[id].key;
  }

  lemma OneCharge(handles: map<Id, Handle>, id: Id)
    requires id in handles
    ensures Charges(handles, [id]) == handles[id].charge
  {
    assert [id][..0] == [];
  }

  lemma OnlyFirst(q: seq<Id>)
    requires NoDuplicates(q) && q != []
    ensures q[0] !in q[1..]
  {
    assert forall i :: 0 <= i < |q| - 1 ==> q[1..][i] == q[i + 1];
  }

  lemma OldestErased(s: State, id: Id)
    requires id in s.handles && s.handles[id].refs == 1
    ensures Erased(s, id) == s.(lru := Without(s.lru, id), inUse := Without(s.inUse, id), usage := s.usage - s.handles[id].charge,
                                handles := s.handles - {id}, pins := s.pins - {id}, deleted := s.deleted + [id])
  {
    var h := s.handles[id];
    assert s.handles[id := h.(inCache := false)][id := h.(inCache := false, refs := 0)] - {id} == s.handles - {id};
  }

  /** Eviction touches no handle that is outside of the unused list. */
  lemma {:induction false} StaysAlive(s: State, e: Id, capacity: nat)
    requires Valid(s) && e in s.handles && e !in s.lru
    ensures e in Evicted(s, capacity).handles && Evicted(s, capacity).handles[e] == s.handles[e]
    decreases |s.lru|
  {
    hide Charges, NoDuplicates, Lives, Sound, Erased;
    if s.usage > capacity && s.lru != [] {
      OldestGoes(s);
      var id := s.lru[0];
      ErasedFrame(s.(table := s.table - {s.handles[id].key}), id);
      StaysAlive(Dropped(s, s.handles[id].key), e, capacity);
    }
  }

  /** A handle erased from the cache is gone, unless clients still refer to it. */
  lemma ErasedIs(s: State, id: Id)
    requires id in s.handles && s.handles[id].refs >= 1
    ensures var t, h := Erased(s, id), s.handles[id];
            && t.table == s.table && t.usage == s.usage - h.charge && t.next == s.next
            && t.lru == Without(s.lru, id) && t.inUse == Without(s.inUse, id)
            && id !in t.lru && id !in t.inUse
            && (forall x :: x != id ==> (x in t.inUse <==> x in s.inUse) && (x in t.lru <==> x in s.lru))
            && if h.refs == 1 then
                 t.handles == s.handles - {id} && t.pins == s.pins - {id} && t.deleted == s.deleted + [id]
               else
                 t.handles == s.handles[id := h.(refs := h.refs - 1, inCache := false)] && t.pins == s.pins && t.deleted == s.deleted
  {
    hide Without, NoDuplicates;
    var h := s.handles[id];
    var less := h.(inCache := false, refs := h.refs - 1);
    WithoutMembers(s.lru, id);
    WithoutMembers(s.inUse, id);
    assert s.handles[id := h.(inCache := false)][id := less] == s.handles[id := less];
    assert s.handles[id := less] - {id} == s.handles - {id};
  }

  lemma NoDisplacement(s: State, key: UserKey)
    requires key !in s.table
    ensures Dropped(s, key) == s
  {
  }

  lemma DropIs(s: State, key: UserKey)
    requires key in s.table && s.table[key] in s.handles && s.handles[s.table[key]].refs >= 1
    ensures Dropped(s, key) == Erased(s.(table := s.table - {key}), s.table[key])
  {
  }

  lemma EvictStep(s: State, capacity: nat)
    requires Valid(s) && s.usage > capacity && s.lru != []
    ensures s.lru[0] in s.handles && s.handles[s.lru[0]].key in s.table
    ensures Valid(Dropped(s, s.handles[s.lru[0]].key)) && Evicted(s, capacity) == Evicted(Dropped(s, s.handles[s.lru[0]].key), capacity)
  {
    OldestGoes(s);
  }

  lemma EvictEnd(s: State, capacity: nat)
    requires Valid(s) && (s.usage <= capacity || s.lru == [])
    ensures Evicted(s, capacity) == s
  {
  }

  // ---- The order of eviction ----

  datatype Op = Inserts(key: UserKey, charge: nat) | LooksUp(key: UserKey) | Releases(id: Id) | Erases(key: UserKey) | Prunes

  /** One call of the cache's interface, as its methods promise it. */
  ghost predicate Step(s: State, op: Op, t: State, capacity: nat)
    requires Valid(s)
  {
    match op
    case Inserts(key, charge) =>
      InsertedKeeps(s, key, charge, capacity);
      t == Evicted(Inserted(s, key, charge, capacity), capacity)
    case LooksUp(key) =>
      if key !in s.table then t == s
      else s.table[key] in s.handles && s.table[key] in s.pins && t == Referenced(s, s.table[key])
    case Releases(id) =>
      id in s.handles && id in s.pins && s.handles[id].refs >= 1 && s.pins[id] >= 1 && t == Released(s, id)
    case Erases(key) =>
      DroppedKeeps(s, key);
      t == Dropped(s, key)
    case Prunes => t == Shed(s, |s.lru|)
  }

  /** Any run of the cache: each state follows from the one before by a call. */
  ghost predicate Run(states: seq<State>, ops: seq<Op>, capacity: nat) {
    && |states| == |ops| + 1
    && (forall i :: 0 <= i < |states| ==> Valid(states[i]))
    && forall i :: 0 <= i < |ops| ==> Step(states[i], ops[i], states[i + 1], capacity)
  }

  /** The call is not about the entry under `key`. */
  predicate Spares(op: Op, key: UserKey) {
    op.Inserts? || op.LooksUp? || op.Erases? ==> op.key != key
  }

  /** `a` stands in the list, and `b` somewhere behind it. */
  predicate Ahead(q: seq<Id>, a: Id, b: Id) {
    q != [] && if q[0] == a then b in q[1..] else Ahead(q[1..], a, b)
  }

  lemma {:induction false} AheadIn(q: seq<Id>, a: Id, b: Id)
    requires Ahead(q, a, b)
    ensures a in q && b in q
  {
    if q[0] != a { AheadIn(q[1..], a, b); }
  }

  lemma {:induction false} AheadWithout(q: seq<Id>, x: Id, a: Id, b: Id)
    requires Ahead(q, a, b) && x != a && x != b
    ensures Ahead(Without(q, x), a, b)
  {
    if q[0] == a {
      WithoutMembers(q[1..], x);
      assert Without(q, x)[1..] == Without(q[1..], x);
    } else {
      AheadWithout(q[1..], x, a, b);
      if q[0] != x { assert Without(q, x)[1..] == Without(q[1..], x); }
    }
  }

  lemma {:induction false} AheadLonger(q: seq<Id>, x: Id, a: Id, b: Id)
    requires q != [] && (Ahead(q, a, b) || (a in q && b == x))
    ensures Ahead(q + [x], a, b)
  {
    assert (q + [x])[1..] == q[1..] + [x] && q == [q[0]] + q[1..];
    if q[0] != a { AheadLonger(q[1..], x, a, b); }
  }

  /** `a` under `ka` goes before `b` under `kb`: they wait in this order, or `a` is gone for good. */
  ghost predicate Waits(s: State, a: Id, ka: UserKey, b: Id, kb: UserKey) {
    && a < s.next && a != b
    && (a in s.handles ==> s.handles[a].key == ka && b in s.handles && s.handles[b].key == kb && Ahead(s.lru, a, b))
  }

  lemma EvictionInOrder(s: State, capacity: nat, a: Id, ka: UserKey, b: Id, kb: UserKey)
    requires Valid(s) && Waits(s, a, ka, b, kb)
    ensures Waits(Evicted(s, capacity), a, ka, b, kb)
    decreases |s.lru|
  {
    hide Charges, NoDuplicates, Lives, Sound, Dropped;
    if s.usage > capacity && s.lru != [] {
      OldestGoes(s);
      OldestDropped(s);
      OnlyFirst(s.lru);
      if a in s.handles && a != s.lru[0] { AheadIn(s.lru[1..], a, b); }
      EvictionInOrder(Dropped(s, s.handles[s.lru[0]].key), capacity, a, ka, b, kb);
    }
  }

  lemma ReferencedInOrder(s: State, id: Id, a: Id, ka: UserKey, b: Id, kb: UserKey)
    requires Valid(s) && Waits(s, a, ka, b, kb) && id in s.handles && id in s.pins
    requires s.handles[id].key != ka && s.handles[id].key != kb
    ensures Waits(Referenced(s, id), a, ka, b, kb)
  {
    if a in s.handles { AheadWithout(s.lru, id, a, b); }
  }

  lemma ReleasedInOrder(s: State, id: Id, a: Id, ka: UserKey, b: Id, kb: UserKey)
    requires Valid(s) && Waits(s, a, ka, b, kb)
    requires id in s.handles && id in s.pins && s.handles[id].refs >= 1 && s.pins[id] >= 1
    ensures Waits(Released(s, id), a, ka, b, kb)
  {
    hide Charges, NoDuplicates, Lives, Sound, Released;
    ReleasedFrame(s, id);
    if a in s.handles {
      AheadIn(s.lru, a, b);
      SoundParts(s, a);
      SoundParts(s, b);
      AheadWithout(s.lru, id, a, b);
      AheadIn(Without(s.lru, id), a, b);
      AheadLonger(Without(s.lru, id), id, a, b);
    }
  }

  lemma ReleasedFrame(s: State, id: Id)
    requires id in s.handles && id in s.pins && s.handles[id].refs >= 1 && s.pins[id] >= 1
    ensures var t := Released(s, id);
            && (t.lru == s.lru || t.lru == Without(s.lru, id) + [id]) && t.next == s.next
            && forall x :: x != id ==> (x in t.handles <==> x in s.handles) && (x in s.handles ==> t.handles[x] == s.handles[x])
  {
  }

  lemma AddedInOrder(s: State, key: UserKey, charge: nat, capacity: nat, a: Id, ka: UserKey, b: Id, kb: UserKey)
    requires Valid(s) && Waits(s, a, ka, b, kb) && (capacity > 0 ==> key != ka && key != kb)
    ensures Waits(Inserted(s, key, charge, capacity), a, ka, b, kb)
  {
    hide Charges, NoDuplicates, Lives, Sound, Dropped;
    DroppedKeeps(s, key);
    if capacity > 0 { DroppedInOrder(s, key, a, ka, b, kb); }
    var u := if capacity > 0 then Dropped(s, key) else s;
    if a in u.handles { SoundParts(u, b); }
  }

  lemma DroppedInOrder(s: State, key: UserKey, a: Id, ka: UserKey, b: Id, kb: UserKey)
    requires Valid(s) && Waits(s, a, ka, b, kb) && key != ka && key != kb
    requires key in s.table ==> s.table[key] in s.handles && s.handles[s.table[key]].refs >= 1
    ensures Waits(Dropped(s, key), a, ka, b, kb)
  {
    hide Charges, NoDuplicates, Lives, Sound, Erased;
    if key in s.table {
      var id := s.table[key];
      ErasedIs(s.(table := s.table - {key}), id);
      if a in s.handles { AheadWithout(s.lru, id, a, b); }
    }
  }

  /** One step keeps the order. */
  lemma StepInOrder(s: State, op: Op, t: State, capacity: nat, a: Id, ka: UserKey, b: Id, kb: UserKey)
    requires Valid(s) && Step(s, op, t, capacity) && Waits(s, a, ka, b, kb) && Spares(op, ka) && Spares(op, kb)
    ensures Waits(t, a, ka, b, kb)
  {
    hide Charges, NoDuplicates, Lives, Sound, Evicted, Dropped, Referenced, Released;
    match op
    case Inserts(key, charge) =>
      AddedInOrder(s, key, charge, capacity, a, ka, b, kb);
      InsertedKeeps(s, key, charge, capacity);
      EvictionInOrder(Inserted(s, key, charge, capacity), capacity, a, ka, b, kb);
    case LooksUp(key) =>
      if key in s.table { ReferencedInOrder(s, s.table[key], a, ka, b, kb); }
    case Releases(id) => ReleasedInOrder(s, id, a, ka, b, kb);
    case Erases(key) =>
      DroppedKeeps(s, key);
      DroppedInOrder(s, key, a, ka, b, kb);
    case Prunes =>
      if a in s.handles { AheadIn(s.lru, a, b); }
      assert s.lru[..|s.lru|] == s.lru;
  }

  /**
   The cache evicts by last use. Let `a` wait unused when the last reference to the cached `b` is
   given back. In any run from there on that does not ask for either key, `b` goes only after `a`.
   */
  lemma {:induction false} LeastRecentlyUsed(states: seq<State>, ops: seq<Op>, capacity: nat, a: Id, b: Id)
    requires Run(states, ops, capacity) && ops != [] && ops[0] == Releases(b)
    requires a in states[0].lru && a in states[0].handles
    requires b in states[0].handles && states[0].handles[b].inCache && states[0].handles[b].refs == 2
    requires forall i :: 0 < i < |ops| ==> Spares(ops[i], states[0].handles[a].key) && Spares(ops[i], states[0].handles[b].key)
    ensures b !in states[|ops|].handles ==> a !in states[|ops|].handles
    ensures b !in states[|ops|].lru ==> a !in states[|ops|].lru
  {
    hide Charges, NoDuplicates, Lives;
    var s, ka, kb := states[0], states[0].handles[a].key, states[0].handles[b].key;
    assert Step(states[0], ops[0], states[1], capacity);
    assert Sound(s, a) && Sound(s, b);
    WithoutMembers(s.lru, b);
    AheadLonger(s.lru, b, a, b);
    assert Waits(states[1], a, ka, b, kb);
    var i := 1;
    while i < |ops|
      invariant 1 <= i <= |ops| && Waits(states[i], a, ka, b, kb)
    {
      assert Step(states[i], ops[i], states[i + 1], capacity);
      StepInOrder(states[i], ops[i], states[i + 1], capacity, a, ka, b, kb);
      i := i + 1;
    }
    var t := states[|ops|];
    if a in t.handles { AheadIn(t.lru, a, b); }
  }
}
