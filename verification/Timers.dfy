/**
 libuv timers (src/timer.c) on top of the pointer heap: start, stop, again, the poll
 timeout, and the loop that fires every due timer.
 */
module Timers {
  import opened PointerHeap

  const MAX_UINT64: nat := 0xffff_ffff_ffff_ffff
  const INT_MAX: nat := 0x7fff_ffff

  datatype Status = Done | InvalidArgument

  /** The due time of a timer started at `now`: wraps in 64 bits, then clamps. */
  function DueTime(now: nat, timeout: nat): (due: nat)
    requires now <= MAX_UINT64 && timeout <= MAX_UINT64
    ensures due == if now + timeout <= 0xffff_ffff_ffff_ffff then now + timeout else 0xffff_ffff_ffff_ffff
  {
    var sum := (now + timeout) % (MAX_UINT64 + 1);
    if sum < timeout then MAX_UINT64 else sum
  }

  class Loop {
    var time: nat
    var timerCounter: nat
    const heap: Heap

    ghost predicate Valid()
      reads this, heap, heap.members
    {
      && heap.Valid() && time <= MAX_UINT64
      && (forall n :: n in heap.members ==>
            n.active && n.hasCallback && !n.closing && n.repeat <= MAX_UINT64 && n.key.startId < timerCounter)
      && (forall m, n :: m in heap.members && n in heap.members && m != n ==> m.key.startId != n.key.startId)
    }

    /** An arbitrary handle is active exactly while the heap holds it. */
    ghost predicate Knows(n: Node)
      reads this, heap, n
    {
      n.active <==> n in heap.members
    }

    constructor ()
      ensures Valid() && fresh(heap) && heap.members == {}
    {
      time, timerCounter := 0, 0;
      heap := new Heap();
    }

    /** uv_timer_stop */
    method Stop(handle: Node)
      requires Valid() && Knows(handle)
      modifies heap, heap.members`left, heap.members`right, heap.members`parent, handle`active
      ensures Valid() && Knows(handle) && !handle.active
      ensures heap.members == old(heap.members) - {handle} && heap.nelts <= old(heap.nelts)
      ensures handle in old(heap.members) ==> heap.nelts == old(heap.nelts) - 1
    {
      hide Heap.Valid;
      if !handle.active {
        return;
      }
      heap.CountsMembers();
      heap.Remove(handle);
      handle.active := false;
    }

    /** uv_timer_start */
    method Start(handle: Node, hasCallback: bool, timeout: nat, repeat: nat) returns (status: Status)
      requires Valid() && Knows(handle) && timeout <= MAX_UINT64 && repeat <= MAX_UINT64
      requires heap.nelts + 1 < 0x1_0000_0000
      modifies this`timerCounter, heap, heap.members`left, heap.members`right, heap.members`parent, handle
      ensures Valid() && Knows(handle)
      ensures status == InvalidArgument <==> old(handle.closing) || !hasCallback
      ensures status == InvalidArgument ==> unchanged(this) && unchanged(handle) && unchanged(heap)
      ensures status == Done ==>
        && heap.members == old(heap.members) + {handle}
        && heap.nelts == (if handle in old(heap.members) then old(heap.nelts) else old(heap.nelts) + 1)
        && timerCounter == old(timerCounter) + 1
        && handle.key == Key(DueTime(time, timeout), old(timerCounter)) && handle.repeat == repeat
        && handle.closing == old(handle.closing) && handle.hasCallback
    {
      hide Heap.Valid, DueTime;
      if handle.closing || !hasCallback {
        return InvalidArgument;
      }
      if handle.active {
        Stop(handle);
      }
      assert handle !in heap.members;
      handle.hasCallback := hasCallback;
      handle.key := Key(DueTime(time, timeout), timerCounter);
      handle.repeat := repeat;
      timerCounter := timerCounter + 1;
      heap.Insert(handle);
      handle.active := true;
      return Done;
    }

    /** uv_timer_again: restarts a repeating timer with its repeat interval. */
    method Again(handle: Node) returns (status: Status)
      requires Valid() && Knows(handle) && handle.repeat <= MAX_UINT64
      requires heap.nelts + 1 < 0x1_0000_0000
      modifies this`timerCounter, heap, heap.members`left, heap.members`right, heap.members`parent, handle
      ensures Valid() && Knows(handle)
      ensures status == InvalidArgument <==> !old(handle.hasCallback)
      ensures handle.repeat == old(handle.repeat) && handle.closing == old(handle.closing) && handle.hasCallback == old(handle.hasCallback)
      ensures if old(handle.hasCallback) && handle.repeat > 0 && !old(handle.closing)
              then heap.members == old(heap.members) + {handle} && handle.key == Key(DueTime(time, handle.repeat), old(timerCounter))
              else heap.members == (if old(handle.hasCallback) && handle.repeat > 0 then old(heap.members) - {handle} else old(heap.members))
                   && handle.key == old(handle.key)
      ensures heap.nelts <= old(heap.nelts) + (if handle in old(heap.members) then 0 else 1)
      ensures timerCounter >= old(timerCounter)
    {
      hide Heap.Valid;
      if !handle.hasCallback {
        return InvalidArgument;
      }
      if handle.repeat > 0 {
        Stop(handle);
        var _ := Start(handle, handle.hasCallback, handle.repeat, handle.repeat);
      }
      return Done;
    }

    /** uv__next_timeout: how long the loop may sleep; -1 without timers. */
    method NextTimeout() returns (ms: int)
      requires Valid()
      ensures ms == -1 <==> heap.members == {}
      ensures heap.members != {} ==> 0 <= ms <= 0x7fff_ffff
      ensures ms == 0 ==> exists n :: n in heap.members && n.key.timeout <= time
      ensures 0 < ms ==> forall n :: n in heap.members ==> time + ms <= n.key.timeout
      ensures 0 < ms < 0x7fff_ffff ==> exists n :: n in heap.members && n.key.timeout == time + ms
    {
      var n := heap.Min();
      if n == null {
        return -1;
      }
      if n.key.timeout <= time {
        return 0;
      }
      var diff := n.key.timeout - time;
      if diff > INT_MAX {
        diff := INT_MAX;
      }
      return diff;
    }

    /** The members due at the loop's time. */
    ghost function Due(): set<Node>
      reads this, heap, heap.members
    {
      set n | n in heap.members && n.key.timeout <= time
    }

    /** The members' keys. */
    ghost function Keys(): map<Node, Key>
      reads this, heap, heap.members
    {
      map n | n in heap.members :: n.key
    }

    /** A timer known at the start of the round: untouched, or fired and then gone or re-armed. */
    ghost predicate Settled(n: Node, key: Key, repeat: nat, fired: bool)
      reads this, heap, n
    {
      && n.repeat == repeat && (n in heap.members <==> !fired || repeat > 0)
      && (!fired ==> n.key == key)
      && (fired && repeat > 0 ==> repeat <= MAX_UINT64 && time <= MAX_UINT64 && n.key.timeout == DueTime(time, repeat))
    }

    ghost predicate AllSettled(was: map<Node, Key>, repeats: map<Node, nat>, fired: seq<Node>)
      requires was.Keys == repeats.Keys
      reads this, heap, was.Keys
    {
      heap.members <= was.Keys && forall n :: n in was ==> Settled(n, was[n], repeats[n], n in fired)
    }

    /** One round of the loop: the least due timer is stopped, and armed again if it repeats. */
    method Fire(handle: Node, ghost was: map<Node, Key>, ghost repeats: map<Node, nat>, ghost fired: seq<Node>)
      requires Valid() && time < MAX_UINT64 && heap.nelts + 1 < 0x1_0000_0000
      requires was.Keys == repeats.Keys && AllSettled(was, repeats, fired)
      requires handle in heap.members && handle.key.timeout <= time
      modifies this`timerCounter, heap, heap.members`left, heap.members`right, heap.members`parent, handle
      ensures Valid() && heap.nelts + 1 < 0x1_0000_0000
      ensures AllSettled(was, repeats, fired + [handle])
    {
      hide Heap.Valid;
      assert Settled(handle, was[handle], repeats[handle], handle in fired);
      Stop(handle);
      var _ := Again(handle);
      forall n | n in was
        ensures Settled(n, was[n], repeats[n], n in fired + [handle])
      {
        assert old(Settled(n, was[n], repeats[n], n in fired));
      }
    }

    /** The least due member goes on the end of the list of fired timers. */
    lemma NextToFire(handle: Node, was: map<Node, Key>, repeats: map<Node, nat>, fired: seq<Node>)
      requires Valid() && time < MAX_UINT64
      requires was.Keys == repeats.Keys && AllSettled(was, repeats, fired) && FiredInOrder(was, fired, time)
      requires handle in heap.members && handle.key.timeout <= time
      requires forall m :: m in heap.members ==> !KeyLess(m.key, handle.key)
      ensures handle !in fired && was[handle] == handle.key
      ensures FiredInOrder(was, fired + [handle], time)
    {
      hide Heap.Valid;
      assert Settled(handle, was[handle], repeats[handle], handle in fired);
      forall n | n in was && n !in fired && n != handle
        ensures KeyLess(was[handle], was[n])
      {
        assert Settled(n, was[n], repeats[n], false);
        assert n in heap.members && n.key.startId != handle.key.startId;
      }
    }

    /**
     uv__run_timers, for callbacks that leave the timers alone: every due timer fires exactly
     once, in (timeout, start order), and repeating ones are armed again for later.
     */
    method RunTimers() returns (ghost fired: seq<Node>)
      requires Valid() && time < MAX_UINT64 && heap.nelts + 1 < 0x1_0000_0000
      modifies this`timerCounter, heap, heap.members
      ensures Valid() && Due() == {}
      ensures FiredInOrder(old(Keys()), fired, time)
      ensures forall n :: n in fired <==> n in old(Due())
      ensures forall n :: n in old(heap.members) ==> n.repeat == old(n.repeat) && (n in heap.members <==> n !in fired || n.repeat > 0)
      ensures heap.members <= old(heap.members)
      ensures forall n :: n in fired && n in heap.members ==> n.repeat <= MAX_UINT64 && n.key.timeout == DueTime(time, n.repeat)
      ensures forall n :: n in old(heap.members) && n !in fired ==> n.key == old(n.key)
    {
      hide Heap.Valid, FiredInOrder, Settled, DueTime;
      ghost var was, due := Keys(), Due();
      ghost var repeats := map n | n in heap.members :: n.repeat;
      fired := [];
      NoneFired(was, time);
      NoneSettled(was, repeats);
      ghost var left := due;
      while true
        invariant Valid() && heap.nelts + 1 < 0x1_0000_0000
        invariant AllSettled(was, repeats, fired) && FiredInOrder(was, fired, time)
        invariant forall n :: n in fired ==> n in due
        invariant forall n :: n in left <==> n in due && n !in fired
        decreases left
      {
        var handle := heap.Min();
        if handle == null {
          break;
        }
        if handle.key.timeout > time {
          break;
        }
        NextToFire(handle, was, repeats, fired);
        Fire(handle, was, repeats, fired);
        fired, left := fired + [handle], left - {handle};
      }
      Over(was, repeats, fired);
    }

    lemma NoneSettled(was: map<Node, Key>, repeats: map<Node, nat>)
      requires was == Keys() && repeats.Keys == was.Keys && forall n :: n in was ==> repeats[n] == n.repeat
      ensures AllSettled(was, repeats, [])
    {
      hide Heap.Valid, DueTime;
    }

    /** Once no member is due, every timer that was has fired. */
    lemma Over(was: map<Node, Key>, repeats: map<Node, nat>, fired: seq<Node>)
      requires Valid() && was.Keys == repeats.Keys && AllSettled(was, repeats, fired)
      requires forall m :: m in heap.members ==> m.key.timeout > time
      ensures forall n :: n in was && was[n].timeout <= time ==> n in fired
      ensures forall n :: n in was ==> n.repeat == repeats[n] && (n in heap.members <==> n !in fired || n.repeat > 0)
      ensures forall n :: n in was && n !in fired ==> n.key == was[n]
      ensures forall n :: n in fired && n in heap.members ==> n.repeat <= MAX_UINT64 && n.key.timeout == DueTime(time, n.repeat)
    {
      hide Heap.Valid, DueTime;
      forall n | n in was
        ensures was[n].timeout <= time ==> n in fired
        ensures n.repeat == repeats[n] && (n in heap.members <==> n !in fired || n.repeat > 0)
        ensures n !in fired ==> n.key == was[n]
        ensures n in fired && n in heap.members ==> n.repeat <= MAX_UINT64 && n.key.timeout == DueTime(time, n.repeat)
      {
        assert Settled(n, was[n], repeats[n], n in fired);
      }
    }
  }

  /** `fired` lists due timers once each, by increasing key, before all others in `was`. */
  ghost predicate FiredInOrder(was: map<Node, Key>, fired: seq<Node>, time: nat) {
    && (forall i :: 0 <= i < |fired| ==> fired[i] in was && was[fired[i]].timeout <= time)
    && (forall i, j :: 0 <= i < j < |fired| ==> InOrder(was[fired[i]], was[fired[j]]))
    && (forall i, n :: 0 <= i < |fired| && n in was && n !in fired ==> InOrder(was[fired[i]], was[n]))
  }

  /** Due earlier, or due at the same time and started earlier. */
  ghost predicate InOrder(a: Key, b: Key) {
    if a.timeout != b.timeout then a.timeout < b.timeout else a.startId < b.startId
  }

  lemma NoneFired(was: map<Node, Key>, time: nat)
    ensures FiredInOrder(was, [], time)
  {
  }
}
