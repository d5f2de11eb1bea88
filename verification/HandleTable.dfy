/**
 The block cache's hash table (HandleTable, util/cache.cc): chained buckets that double when
 the chains grow. It is a map from keys to handles, through every resize.
 */
module HandleTables {
  import opened BitOps
  import opened Keys
  import opened Store

  datatype Handle = Handle(key: UserKey, hash: nat, id: nat)

  type Chain = seq<Handle>

  datatype Slot = Slot(key: UserKey, hash: nat)

  type Contents = map<Slot, Handle>

  predicate Matches(h: Handle, key: UserKey, hash: nat) {
    h.hash == hash && h.key == key
  }

  /** Every handle sits in its own bucket, and the buckets together are the map. */
  ghost predicate Represents(list: seq<Chain>, contents: Contents) {
    && |list| > 0
    && (forall b, i :: 0 <= b < |list| && 0 <= i < |list[b]| ==>
          var h := list[b][i]; h.hash % |list| == b && Slot(h.key, h.hash) in contents && contents[Slot(h.key, h.hash)] == h)
    && (forall k :: k in contents ==> contents[k].key == k.key && contents[k].hash == k.hash && contents[k] in list[k.hash % |list|])
    && (forall b, i, j :: 0 <= b < |list| && 0 <= i < j < |list[b]| ==> list[b][i] != list[b][j])
  }

  predicate PowerOfTwo(n: nat) {
    n == 1 || (n > 0 && n % 2 == 0 && PowerOfTwo(n / 2))
  }

  /** `hash & (length - 1)` is what picks the bucket. */
  lemma {:induction false} MaskIsModulo(hash: nat, length: nat, i: nat)
    requires PowerOfTwo(length)
    ensures HasBit(hash % length, i) <==> HasBit(hash, i) && HasBit(length - 1, i)
  {
    if length == 1 {
      ZeroHasNone(i);
    } else {
      var m := length / 2;
      assert hash % length / 2 == hash / 2 % m && hash % length % 2 == hash % 2 by { HalfModulo(hash, m, length); }
      assert (length - 1) / 2 == m - 1 && (length - 1) % 2 == 1;
      if i > 0 { MaskIsModulo(hash / 2, m, i - 1); }
    }
  }

  lemma HalfModulo(h: nat, m: nat, k: nat)
    requires m > 0 && k == 2 * m
    ensures h % k / 2 == h / 2 % m && h % k % 2 == h % 2
  {
    var q, r := Euclid(h, k);
    var p, t := Euclid(h / 2, m);
    Halved(h, m, k, q, r, p, t);
  }

  lemma Euclid(x: nat, k: nat) returns (q: nat, r: nat)
    requires k > 0
    ensures x == k * q + r && r < k && r == x % k
  {
    q, r := x / k, x % k;
  }

  lemma Halved(h: nat, m: nat, k: nat, q: nat, r: nat, p: nat, t: nat)
    requires k == 2 * m && h == k * q + r && r < k && h / 2 == m * p + t && t < m
    ensures r / 2 == t && r % 2 == h % 2
  {
    Doubles(m, q);
    var mq := m * q;
    assert h == 2 * mq + r;
    OneRemainder(m, q, r / 2, p, t);
  }

  lemma Doubles(m: nat, q: nat)
    ensures (2 * m) * q == 2 * (m * q)
  {
  }

  lemma AtLeastOne(m: nat, d: nat)
    requires d > 0
    ensures m * d >= m
  {
  }

  lemma Apart(m: nat, q: nat, d: nat)
    ensures m * (q + d) == m * q + m * d
  {
  }

  lemma OneRemainder(m: nat, q: nat, r: nat, p: nat, t: nat)
    requires r < m && t < m && m * q + r == m * p + t
    ensures r == t
  {
    if q < p {
      Apart(m, q, p - q);
      AtLeastOne(m, p - q);
    } else if q > p {
      Apart(m, p, q - p);
      AtLeastOne(m, q - p);
    }
  }

  function Total(list: seq<Chain>): nat {
    if list == [] then 0 else Total(list[..|list| - 1]) + |list[|list| - 1]|
  }

  lemma {:induction false} TotalUpdate(list: seq<Chain>, b: nat, chain: Chain)
    requires b < |list|
    ensures Total(list[b := chain]) == Total(list) - |list[b]| + |chain|
  {
    var n := |list| - 1;
    if b < n {
      TotalUpdate(list[..n], b, chain);
      assert list[b := chain][..n] == list[..n][b := chain];
    } else {
      assert list[b := chain][..n] == list[..n];
    }
  }

  /** Replacing one chain by one that differs in a single key. */
  lemma ChainChanges(list: seq<Chain>, contents: Contents, b: nat, chain: Chain, key: UserKey, hash: nat, contents': Contents)
    requires Represents(list, contents) && b < |list| && b == hash % |list|
    requires forall k :: k != Slot(key, hash) ==> (k in contents' <==> k in contents) && (k in contents ==> contents'[k] == contents[k])
    requires Slot(key, hash) in contents' ==> Matches(contents'[Slot(key, hash)], key, hash) && contents'[Slot(key, hash)] in chain
    requires forall i :: 0 <= i < |chain| ==>
               if Matches(chain[i], key, hash) then Slot(key, hash) in contents' && contents'[Slot(key, hash)] == chain[i] else chain[i] in list[b]
    requires forall h :: h in list[b] && !Matches(h, key, hash) ==> h in chain
    requires forall i, j :: 0 <= i < j < |chain| ==> chain[i] != chain[j]
    ensures Represents(list[b := chain], contents')
  {
    var list': seq<Chain> := list[b := chain];
    forall c, i | 0 <= c < |list'| && 0 <= i < |list'[c]|
      ensures var h: Handle := list'[c][i]; h.hash % |list'| == c && Slot(h.key, h.hash) in contents' && contents'[Slot(h.key, h.hash)] == h
    {
      var h := list'[c][i];
      if c == b && !Matches(h, key, hash) {
        var j :| 0 <= j < |list[b]| && list[b][j] == h;
        assert list[b][j].hash % |list| == b;
      }
    }
    forall k | k in contents'
      ensures contents'[k].key == k.key && contents'[k].hash == k.hash && contents'[k] in list'[k.hash % |list'|]
    {
      if k != Slot(key, hash) { assert contents[k] in list[k.hash % |list|]; }
    }
  }

  class HandleTable {
    var length: nat
    var elems: nat
    var list: seq<Chain>
    ghost var contents: Contents

    ghost predicate Valid()
      reads this
    {
      && |list| == length >= 4 && PowerOfTwo(length) && elems == Total(list) <= length
      && Represents(list, contents)
    }

    constructor ()
      ensures Valid() && contents == map[]
    {
      length, elems, contents := 4, 0, map[];
      list := [[], [], [], []];
      new;
      Zero(list);
    }

    /** FindPointer: where in its chain a handle is, or where it would be appended. */
    method FindPointer(key: UserKey, hash: nat) returns (b: nat, p: nat)
      requires Valid()
      ensures b == hash % length && b < |list| && p <= |list[b]|
      ensures p < |list[b]| <==> Slot(key, hash) in contents
      ensures p < |list[b]| ==> Matches(list[b][p], key, hash) && contents[Slot(key, hash)] == list[b][p]
      ensures forall i :: 0 <= i < |list[b]| && Matches(list[b][i], key, hash) ==> i == p
    {
      b, p := hash % length, 0;
      while p < |list[b]| && !Matches(list[b][p], key, hash)
        invariant p <= |list[b]| && forall i :: 0 <= i < p ==> !Matches(list[b][i], key, hash)
      {
        p := p + 1;
      }
      if Slot(key, hash) in contents {
        var j :| 0 <= j < |list[b]| && list[b][j] == contents[Slot(key, hash)];
      }
      if p < |list[b]| {
        forall i | p < i < |list[b]|
          ensures !Matches(list[b][i], key, hash)
        {
          assert list[b][p] != list[b][i];
          assert contents[Slot(list[b][i].key, list[b][i].hash)] == list[b][i];
        }
      }
    }

    method Lookup(key: UserKey, hash: nat) returns (h: Option<Handle>)
      requires Valid()
      ensures h == if Slot(key, hash) in contents then Some(contents[Slot(key, hash)]) else None
    {
      var b, p := FindPointer(key, hash);
      h := if p < |list[b]| then Some(list[b][p]) else None;
    }

    /** Insert returns the handle it displaced. */
    method Insert(h: Handle) returns (was: Option<Handle>)
      requires Valid() && forall k :: k in contents ==> contents[k].id != h.id
      modifies this
      ensures Valid() && contents == old(contents)[Slot(h.key, h.hash) := h]
      ensures was == if Slot(h.key, h.hash) in old(contents) then Some(old(contents)[Slot(h.key, h.hash)]) else None
      ensures elems == old(elems) + if was.None? then 1 else 0
    {
      hide PowerOfTwo, Total;
      var b, p := FindPointer(h.key, h.hash);
      var chain := list[b];
      ghost var contents' := contents[Slot(h.key, h.hash) := h];
      if p < |chain| {
        was := Some(chain[p]);
        NewInChain(list, contents, b, h);
        assert chain[p := h][p] == h;
        forall x | x in chain && !Matches(x, h.key, h.hash)
          ensures x in chain[p := h]
        {
          var i :| 0 <= i < |chain| && chain[i] == x;
          assert chain[p := h][i] == x;
        }
        ChainChanges(list, contents, b, chain[p := h], h.key, h.hash, contents');
        TotalUpdate(list, b, chain[p := h]);
        list := list[b := chain[p := h]];
        contents := contents';
      } else {
        was := None;
        NewInChain(list, contents, b, h);
        assert (chain + [h])[|chain|] == h;
        ChainChanges(list, contents, b, chain + [h], h.key, h.hash, contents');
        TotalUpdate(list, b, chain + [h]);
        list := list[b := chain + [h]];
        contents := contents';
        elems := elems + 1;
        if elems > length {
          Resize();
        }
      }
    }

    method Remove(key: UserKey, hash: nat) returns (was: Option<Handle>)
      requires Valid()
      modifies this
      ensures Valid() && contents == old(contents) - {Slot(key, hash)}
      ensures was == if Slot(key, hash) in old(contents) then Some(old(contents)[Slot(key, hash)]) else None
    {
      var b, p := FindPointer(key, hash);
      var chain := list[b];
      if p < |chain| {
        was := Some(chain[p]);
        var rest := chain[..p] + chain[p + 1..];
        Unlinked(list, contents, b, p, key, hash);
        TotalUpdate(list, b, rest);
        list := list[b := rest];
        contents := contents - {Slot(key, hash)};
        elems := elems - 1;
      } else {
        was := None;
        assert contents - {Slot(key, hash)} == contents;
      }
    }

    /** Resize: moves every handle into a list twice as long until there is a bucket for each. */
    method Resize()
      requires |list| == length && elems == Total(list) && Represents(list, contents)
      modifies this
      ensures Valid() && contents == old(contents) && elems == old(elems) && (length == 4 || length / 2 < elems)
    {
      var newLength: nat := 4;
      while newLength < elems
        invariant newLength >= 4 && PowerOfTwo(newLength) && (newLength == 4 || newLength / 2 < elems)
        decreases elems - newLength
      {
        newLength := newLength * 2;
      }
      var newList, count := MoveAll(list, newLength, contents);
      assert count == elems;
      list, length := newList, newLength;
    }
  }

  /** The double loop of Resize: every chain, from its front, goes to the fronts of the new chains. */
  method MoveAll(list: seq<Chain>, newLength: nat, ghost contents: Contents) returns (newList: seq<Chain>, count: nat)
    requires Represents(list, contents) && newLength > 0
    ensures |newList| == newLength && Represents(newList, contents) && Total(newList) == count == Total(list)
  {
    hide Represents, Total;
    newList, count := seq(newLength, i => []), 0;
    ghost var moved: Contents := map[];
    Empty(newList);
    SomeBuckets(list, contents);
    assert list[..0] == [];
    Zero(list[..0]);
    for b := 0 to |list|
      invariant |list| > 0 && |newList| == newLength && Represents(newList, moved) && Total(newList) == count == Total(list[..b])
      invariant MovedBefore(list, contents, moved, b)
    {
      newList, moved := MoveChain(list, b, newList, contents, moved);
      count := count + |list[b]|;
      TotalStep(list, b);
    }
    assert list[..|list|] == list;
    AllMoved(list, contents, moved);
  }

  ghost predicate MovedBefore(list: seq<Chain>, contents: Contents, moved: Contents, b: nat)
    requires |list| > 0
  {
    && (forall k :: k in moved <==> k in contents && k.hash % |list| < b)
    && (forall k :: k in moved ==> moved[k] == contents[k])
  }

  ghost predicate MovedUpTo(list: seq<Chain>, contents: Contents, moved: Contents, b: nat, i: nat)
    requires b < |list| && i <= |list[b]|
  {
    && (forall k :: k in moved <==> k in contents && (k.hash % |list| < b || (k.hash % |list| == b && contents[k] in list[b][..i])))
    && (forall k :: k in moved ==> moved[k] == contents[k])
  }

  method MoveChain(list: seq<Chain>, b: nat, into: seq<Chain>, ghost contents: Contents, ghost before: Contents)
    returns (newList: seq<Chain>, ghost moved: Contents)
    requires Represents(list, contents) && b < |list| && |into| > 0 && Represents(into, before) && MovedBefore(list, contents, before, b)
    ensures |newList| == |into| && Represents(newList, moved) && Total(newList) == Total(into) + |list[b]|
    ensures MovedBefore(list, contents, moved, b + 1)
  {
    hide Represents, Total;
    newList, moved := into, before;
    for i := 0 to |list[b]|
      invariant |newList| == |into| && Represents(newList, moved) && Total(newList) == Total(into) + i
      invariant MovedUpTo(list, contents, moved, b, i)
    {
      var h := list[b][i];
      var c := h.hash % |newList|;
      Fresh(list, contents, b, i, moved);
      Pushed(newList, moved, c, h);
      TotalUpdate(newList, c, [h] + newList[c]);
      MovedOne(list, contents, b, i, moved, moved[Slot(h.key, h.hash) := h]);
      newList := newList[c := [h] + newList[c]];
      moved := moved[Slot(h.key, h.hash) := h];
    }
    assert list[b][..|list[b]|] == list[b];
    AllOf(list, contents, b);
  }

  lemma Empty(list: seq<Chain>)
    requires |list| > 0 && forall b :: 0 <= b < |list| ==> list[b] == []
    ensures Represents(list, map[]) && Total(list) == 0
  {
    Zero(list);
  }

  lemma SomeBuckets(list: seq<Chain>, contents: Contents)
    requires Represents(list, contents)
    ensures |list| > 0
  {
  }

  lemma TotalStep(list: seq<Chain>, b: nat)
    requires b < |list|
    ensures Total(list[..b + 1]) == Total(list[..b]) + |list[b]|
  {
    assert list[..b + 1][..b] == list[..b];
  }

  lemma AllMoved(list: seq<Chain>, contents: Contents, moved: Contents)
    requires |list| > 0 && MovedBefore(list, contents, moved, |list|)
    ensures moved == contents
  {
  }

  lemma {:induction false} Zero(list: seq<Chain>)
    requires forall b :: 0 <= b < |list| ==> list[b] == []
    ensures Total(list) == 0
  {
    if list != [] { Zero(list[..|list| - 1]); }
  }

  /** A handle with a new number is in no chain yet. */
  lemma NewInChain(list: seq<Chain>, contents: Contents, b: nat, h: Handle)
    requires Represents(list, contents) && b < |list| && forall k :: k in contents ==> contents[k].id != h.id
    ensures h !in list[b]
  {
  }

  /** Taking the handle at `p` out of its chain. */
  lemma Unlinked(list: seq<Chain>, contents: Contents, b: nat, p: nat, key: UserKey, hash: nat)
    requires Represents(list, contents) && b < |list| && b == hash % |list| && p < |list[b]| && Matches(list[b][p], key, hash)
    requires forall i :: 0 <= i < |list[b]| && Matches(list[b][i], key, hash) ==> i == p
    ensures Represents(list[b := list[b][..p] + list[b][p + 1..]], contents - {Slot(key, hash)})
  {
    hide Represents, Matches;
    Distinct(list, contents, b);
    Spliced(list[b], p, key, hash);
    ChainChanges(list, contents, b, list[b][..p] + list[b][p + 1..], key, hash, contents - {Slot(key, hash)});
  }

  lemma Spliced(chain: Chain, p: nat, key: UserKey, hash: nat)
    requires p < |chain| && Matches(chain[p], key, hash)
    requires forall i :: 0 <= i < |chain| && Matches(chain[i], key, hash) ==> i == p
    requires forall i, j :: 0 <= i < j < |chain| ==> chain[i] != chain[j]
    ensures var rest := chain[..p] + chain[p + 1..];
            && (forall i :: 0 <= i < |rest| ==> !Matches(rest[i], key, hash) && rest[i] in chain)
            && (forall x :: x in chain && !Matches(x, key, hash) ==> x in rest)
            && (forall i, j :: 0 <= i < j < |rest| ==> rest[i] != rest[j])
  {
    hide Matches;
    var rest := chain[..p] + chain[p + 1..];
    assert forall i :: 0 <= i < |rest| ==> rest[i] == chain[if i < p then i else i + 1];
    forall x | x in chain && !Matches(x, key, hash)
      ensures x in rest
    {
      var i :| 0 <= i < |chain| && chain[i] == x;
      assert rest[if i < p then i else i - 1] == x;
    }
  }

  lemma Distinct(list: seq<Chain>, contents: Contents, b: nat)
    requires Represents(list, contents) && b < |list|
    ensures forall i, j :: 0 <= i < j < |list[b]| ==> list[b][i] != list[b][j]
  {
  }

  lemma Fresh(list: seq<Chain>, contents: Contents, b: nat, i: nat, moved: Contents)
    requires Represents(list, contents) && b < |list| && i < |list[b]|
    requires MovedUpTo(list, contents, moved, b, i)
    ensures Slot(list[b][i].key, list[b][i].hash) !in moved && Slot(list[b][i].key, list[b][i].hash) in contents
    ensures contents[Slot(list[b][i].key, list[b][i].hash)] == list[b][i] && list[b][i].hash % |list| == b
  {
    var h := list[b][i];
    assert h !in list[b][..i];
  }

  lemma Pushed(list: seq<Chain>, contents: Contents, c: nat, h: Handle)
    requires Represents(list, contents) && c < |list| && c == h.hash % |list| && Slot(h.key, h.hash) !in contents
    ensures Represents(list[c := [h] + list[c]], contents[Slot(h.key, h.hash) := h])
  {
    var chain := [h] + list[c];
    assert chain[0] == h;
    assert forall i :: 0 <= i < |list[c]| ==> !Matches(list[c][i], h.key, h.hash) && list[c][i] != h;
    forall x | x in list[c]
      ensures x in chain
    {
      var i :| 0 <= i < |list[c]| && list[c][i] == x;
      assert chain[i + 1] == x;
    }
    ChainChanges(list, contents, c, chain, h.key, h.hash, contents[Slot(h.key, h.hash) := h]);
  }

  lemma MovedOne(list: seq<Chain>, contents: Contents, b: nat, i: nat, moved: Contents, moved': Contents)
    requires Represents(list, contents) && b < |list| && i < |list[b]|
    requires MovedUpTo(list, contents, moved, b, i)
    requires moved' == moved[Slot(list[b][i].key, list[b][i].hash) := list[b][i]]
    ensures MovedUpTo(list, contents, moved', b, i + 1)
  {
    var h := list[b][i];
    assert list[b][..i + 1] == list[b][..i] + [h];
    assert contents[Slot(h.key, h.hash)] == h;
    forall k | k in contents && contents[k] == h
      ensures k == Slot(h.key, h.hash)
    {
      assert contents[k].key == k.key && contents[k].hash == k.hash;
    }
  }

  lemma AllOf(list: seq<Chain>, contents: Contents, b: nat)
    requires Represents(list, contents) && b < |list|
    ensures forall k :: k in contents && k.hash % |list| == b ==> contents[k] in list[b]
  {
  }
}
