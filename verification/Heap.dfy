/**
 The pointer-linked binary min-heap of libuv (src/heap-inl.h). The ghost field `nodes` lists
 the members in breadth-first order; the links always spell out that complete tree.
 */
module PointerHeap {

  /** What timer_less_than compares (src/timer.c): the due time, then the start order. */
  datatype Key = Key(timeout: nat, startId: nat)

  predicate KeyLess(a: Key, b: Key) {
    a.timeout < b.timeout || (a.timeout == b.timeout && a.startId < b.startId)
  }

  /** A heap node together with the timer handle it is embedded in. */
  class Node {
    var left: Node?
    var right: Node?
    var parent: Node?
    var key: Key
    var repeat: nat
    var active: bool
    var hasCallback: bool
    var closing: bool

    /** uv_timer_init */
    constructor ()
      ensures !active && !hasCallback && !closing && repeat == 0
    {
      left, right, parent := null, null, null;
      key := Key(0, 0);
      repeat, active, hasCallback, closing := 0, false, false, false;
    }
  }

  /** The index of the parent in breadth-first order. */
  function Parent(i: nat): (p: nat)
    requires i > 0
    ensures p < i && (i == 2 * p + 1 || i == 2 * p + 2)
  {
    (i - 1) / 2
  }

  function At(nodes: seq<Node>, i: nat): Node? {
    if i < |nodes| then nodes[i] else null
  }

  predicate Distinct(nodes: seq<Node>) {
    forall i, j :: 0 <= i < j < |nodes| ==> nodes[i] != nodes[j]
  }

  /** The links of the node at index `i` are those of the complete tree. */
  ghost predicate Linked(nodes: seq<Node>, i: nat)
    requires i < |nodes|
    reads nodes`left, nodes`right, nodes`parent
  {
    && nodes[i].left == At(nodes, 2 * i + 1)
    && nodes[i].right == At(nodes, 2 * i + 2)
    && nodes[i].parent == if i == 0 then null else nodes[Parent(i)]
  }

  lemma Differ(nodes: seq<Node>, i: nat, j: nat)
    requires Distinct(nodes) && i < |nodes| && i != j
    ensures nodes[i] != At(nodes, j)
  {
  }

  lemma AtIn(nodes: seq<Node>, members: set<Node>, i: nat)
    requires Lists(nodes, members)
    ensures At(nodes, i) != null ==> At(nodes, i) in members
  {
  }

  lemma Unequal(nodes: seq<Node>, i: nat, j: nat)
    requires Distinct(nodes) && i < |nodes| && j < |nodes|
    ensures nodes[i] == nodes[j] <==> i == j
  {
  }

  /** A node without children that knows its parent belongs on the end. */
  lemma LeafLinked(nodes: seq<Node>, n: Node)
    requires n.left == n.right == null && n.parent == if nodes == [] then null else nodes[Parent(|nodes|)]
    ensures Linked(nodes + [n], |nodes|)
  {
  }

  lemma StillLinked(nodes: seq<Node>, n: Node, i: nat)
    requires i < |nodes| && nodes[i].parent == if i == 0 then null else nodes[Parent(i)]
    requires nodes[i].left == if 2 * i + 1 == |nodes| then n else At(nodes, 2 * i + 1)
    requires nodes[i].right == if 2 * i + 2 == |nodes| then n else At(nodes, 2 * i + 2)
    ensures Linked(nodes + [n], i)
  {
  }

  /** Which of the nodes around `p` and `c` the node at another index `i` is. */
  lemma Elsewhere(nodes: seq<Node>, p: nat, c: nat, s: nat, i: nat)
    requires Distinct(nodes) && p < |nodes| && c < |nodes| && i < |nodes| && i != p && i != c
    ensures nodes[i] != nodes[p] && nodes[i] != nodes[c]
    ensures p > 0 ==> (nodes[i] == nodes[Parent(p)] <==> i == Parent(p))
    ensures nodes[i] == At(nodes, s) <==> i == s
    ensures nodes[i] == At(nodes, 2 * c + 1) <==> i == 2 * c + 1
    ensures nodes[i] == At(nodes, 2 * c + 2) <==> i == 2 * c + 2
  {
  }

  /** The nodes around `p` and its child `c`, whose other child would be at `s`, are all different. */
  lemma Around(nodes: seq<Node>, p: nat, c: nat, s: nat)
    requires Distinct(nodes) && p < c < |nodes| && Parent(c) == p && s == if c == 2 * p + 1 then c + 1 else c - 1
    ensures var up, sibling := if p == 0 then null else nodes[Parent(p)], At(nodes, s);
      var l, r := At(nodes, 2 * c + 1), At(nodes, 2 * c + 2);
      && nodes[p] != nodes[c] && {sibling, up, l, r} !! {nodes[p], nodes[c]}
      && (sibling != null ==> sibling !in {up, l, r}) && (up != null ==> up !in {l, r}) && (l != null ==> l != r)
  {
  }

  lemma AppendDistinct(nodes: seq<Node>, members: set<Node>, n: Node)
    requires Distinct(nodes) && Lists(nodes, members) && n !in nodes
    ensures Distinct(nodes + [n]) && Lists(nodes + [n], members + {n})
  {
  }

  lemma AppendedAt(nodes: seq<Node>, n: Node, k: nat)
    ensures At(nodes + [n], k) == if k == |nodes| then n else At(nodes, k)
  {
  }

  /** `nodes` lists exactly the members. */
  ghost predicate Lists(nodes: seq<Node>, members: set<Node>) {
    (forall n :: n in nodes ==> n in members) && (forall n :: n in members ==> n in nodes)
  }

  lemma DropLists(nodes: seq<Node>, members: set<Node>)
    requires Distinct(nodes) && Lists(nodes, members) && |nodes| > 0
    ensures Distinct(nodes[..|nodes| - 1]) && Lists(nodes[..|nodes| - 1], members - {nodes[|nodes| - 1]})
  {
    var last := nodes[|nodes| - 1];
    forall n | n in members && n != last ensures n in nodes[..|nodes| - 1] {
      var k :| 0 <= k < |nodes| && nodes[k] == n;
      assert nodes[..|nodes| - 1][k] == n;
    }
  }

  lemma DroppedAt(nodes: seq<Node>, k: nat)
    requires |nodes| > 0
    ensures At(nodes[..|nodes| - 1], k) == if k == |nodes| - 1 then null else At(nodes, k)
  {
  }

  lemma ReplaceLists(nodes: seq<Node>, members: set<Node>, r: nat, n: Node)
    requires Distinct(nodes) && Lists(nodes, members) && r < |nodes| && n !in nodes
    ensures Distinct(nodes[r := n]) && Lists(nodes[r := n], members - {nodes[r]} + {n})
  {
    var now := nodes[r := n];
    forall m | m in members && m != nodes[r] ensures m in now {
      var k :| 0 <= k < |nodes| && nodes[k] == m;
      assert now[k] == m;
    }
    assert now[r] == n;
    forall k | 0 <= k < |nodes| ensures now[k] in members - {nodes[r]} + {n} {
      assert k != r ==> nodes[k] in nodes && nodes[k] != nodes[r];
    }
  }

  lemma {:induction false} SizeOf(nodes: seq<Node>, members: set<Node>)
    requires Distinct(nodes) && Lists(nodes, members)
    ensures |nodes| == |members|
  {
    if |nodes| > 0 {
      DropLists(nodes, members);
      SizeOf(nodes[..|nodes| - 1], members - {nodes[|nodes| - 1]});
    } else {
      assert members == {};
    }
  }

  /** Which neighbours index `i` should have once `n` replaces the node at `r`. */
  lemma ReplacedAt(nodes: seq<Node>, r: nat, n: Node, i: nat)
    requires r < |nodes| && i < |nodes|
    ensures var now := nodes[r := n];
      && At(now, 0) == (if r == 0 then n else At(nodes, 0))
      && At(now, 2 * i + 1) == (if r == 2 * i + 1 then n else At(nodes, 2 * i + 1))
      && At(now, 2 * i + 2) == (if r == 2 * i + 2 then n else At(nodes, 2 * i + 2))
      && (i > 0 ==> now[Parent(i)] == if Parent(i) == r then n else nodes[Parent(i)])
  {
  }

  lemma ElsewhereOne(nodes: seq<Node>, r: nat, i: nat, n: Node)
    requires Distinct(nodes) && r < |nodes| && i < |nodes| && i != r && n !in nodes
    ensures nodes[i] != nodes[r] && nodes[i] != n
    ensures r > 0 ==> (nodes[i] == nodes[Parent(r)] <==> i == Parent(r))
    ensures nodes[i] == At(nodes, 2 * r + 1) <==> i == 2 * r + 1
    ensures nodes[i] == At(nodes, 2 * r + 2) <==> i == 2 * r + 2
  {
  }

  lemma AroundOne(nodes: seq<Node>, members: set<Node>, r: nat, n: Node)
    requires Distinct(nodes) && Lists(nodes, members) && r < |nodes| && n !in nodes
    ensures var up := if r == 0 then null else nodes[Parent(r)];
      var left, right := At(nodes, 2 * r + 1), At(nodes, 2 * r + 2);
      && nodes[r] != n && {up, left, right} !! {nodes[r], n}
      && (up != null ==> up !in {left, right}) && (left != null ==> left != right)
      && (left != null ==> left in members) && (right != null ==> right in members) && (up != null ==> up in members)
  {
  }

  lemma SwapDistinct(was: seq<Node>, p: nat, c: nat)
    requires Distinct(was) && p < c < |was|
    ensures Distinct(was[p := was[c]][c := was[p]])
  {
  }

  lemma SwapLists(was: seq<Node>, members: set<Node>, p: nat, c: nat)
    requires Lists(was, members) && p < c < |was|
    ensures Lists(was[p := was[c]][c := was[p]], members)
  {
    var now := was[p := was[c]][c := was[p]];
    forall k | 0 <= k < |was|
      ensures was[k] in now && now[k] in was
    {
      assert now[p] == was[c] && now[c] == was[p];
      assert k != p && k != c ==> now[k] == was[k];
    }
  }

  /** A slot holding a child pointer: the heap's root, or a side of a node. */
  datatype Slot = Root | Left(node: Node) | Right(node: Node)

  /** `n` with its `k` low bits cut off. */
  function Shift(n: nat, k: nat): (r: nat)
    ensures r <= n && (k > 0 && n > 0 ==> r < n)
  {
    if k == 0 then n else Shift(n, k - 1) / 2
  }

  /** The `k` low bits of `n` in reverse order. */
  function LowBitsReversed(n: nat, k: nat): nat {
    if k == 0 then 0 else 2 * LowBitsReversed(n, k - 1) + Shift(n, k - 1) % 2
  }

  /** The path bits from the root to the n-th node (n >= 1), and how many there are. */
  method PathTo(target: nat) returns (path: nat, k: nat)
    requires 1 <= target < 0x1_0000_0000
    ensures path == LowBitsReversed(target, k) && Shift(target, k) == 1
  {
    path, k := 0, 0;
    var n := target;
    while n >= 2
      invariant n == Shift(target, k) && n >= 1
      invariant path == LowBitsReversed(target, k)
    {
      path := 2 * path + n % 2;
      k, n := k + 1, n / 2;
    }
  }

  class Heap {
    var min: Node?
    var nelts: nat
    ghost var nodes: seq<Node>
    ghost var members: set<Node>

    /** A complete tree of exactly `nelts` nodes with consistent links. */
    ghost predicate Tree()
      reads this, members`left, members`right, members`parent, members`key
    {
      && nelts == |nodes| < 0x1_0000_0000
      && min == At(nodes, 0)
      && Distinct(nodes) && Lists(nodes, members)
      && forall i :: 0 <= i < |nodes| ==> Linked(nodes, i)
    }

    ghost predicate Valid()
      reads this, members`left, members`right, members`parent, members`key
    {
      Tree() && HeapOrder(KeysOf(nodes))
    }

    /** heap_init */
    constructor ()
      ensures Valid() && members == {} && nelts == 0
    {
      min, nelts, nodes, members := null, 0, [], {};
    }

    /** heap_min: a member no other member is smaller than. */
    method Min() returns (n: Node?)
      requires Valid()
      ensures n == null <==> members == {}
      ensures n != null ==> n in members && forall m :: m in members ==> !KeyLess(m.key, n.key)
    {
      n := min;
      if n != null {
        forall m | m in members ensures !KeyLess(m.key, n.key) {
          var i :| 0 <= i < |nodes| && nodes[i] == m;
          RootIsLeast(KeysOf(nodes), i);
        }
      } else {
        assert forall m :: m in members ==> m in nodes;
      }
    }

    /** The element count is the number of members. */
    lemma CountsMembers()
      requires Valid()
      ensures nelts == |members|
    {
      SizeOf(nodes, members);
    }

    /**
     The pointer surgery of heap_node_swap, stated on the nodes around `parent` and `child`:
     the grandparent, the sibling of `child` and the children of `child`.
     */
    method SwapLinks(parent: Node, child: Node, ghost up: Node?, ghost sibling: Node?, ghost l: Node?, ghost r: Node?)
      requires child.parent == parent && parent.parent == up && child.left == l && child.right == r
      requires (parent.left == child && parent.right == sibling) || (parent.right == child && parent.left == sibling)
      requires parent != child && {sibling, up, l, r} !! {parent, child}
      requires (sibling != null ==> sibling !in {up, l, r}) && (up != null ==> up !in {l, r}) && (l != null ==> l != r)
      requires up != null ==> up.left == parent || up.right == parent
      modifies this`min
      modifies {parent, child, up}`left, {parent, child, up}`right, {parent, child, sibling, l, r}`parent
      ensures parent.left == l && parent.right == r && parent.parent == child && child.parent == up
      ensures if old(parent.left) == child then child.left == parent && child.right == sibling
              else child.right == parent && child.left == sibling
      ensures min == if up == null then child else old(min)
      ensures up != null ==> up.left == if old(up.left) == parent then child else old(up.left)
      ensures up != null ==> up.right == if old(up.left) == parent then old(up.right) else child
      ensures sibling != null ==> sibling.parent == child
      ensures l != null ==> l.parent == parent
      ensures r != null ==> r.parent == parent
    {
      // Exchange the contents of the two nodes.
      var left, right, above := parent.left, parent.right, parent.parent;
      parent.left, parent.right, parent.parent := child.left, child.right, child.parent;
      child.left, child.right, child.parent := left, right, above;

      parent.parent := child;
      var other;
      if child.left == child {
        child.left := parent;
        other := child.right;
      } else {
        child.right := parent;
        other := child.left;
      }
      if other != null {
        other.parent := child;
      }
      if parent.left != null {
        parent.left.parent := parent;
      }
      if parent.right != null {
        parent.right.parent := parent;
      }
      if child.parent == null {
        min := child;
      } else if child.parent.left == parent {
        child.parent.left := child;
      } else {
        child.parent.right := child;
      }
    }

    /** The same surgery, with the changed child pointers told by index. */
    method SwapSides(parent: Node, child: Node, ghost p: nat, ghost c: nat, ghost s: nat,
                     ghost up: Node?, ghost sibling: Node?, ghost l: Node?, ghost r: Node?)
      requires Tree() && p < c < |nodes| && Parent(c) == p && nodes[p] == parent && nodes[c] == child
      requires s == if c == 2 * p + 1 then c + 1 else c - 1
      requires up == (if p == 0 then null else nodes[Parent(p)]) && sibling == At(nodes, s)
      requires l == At(nodes, 2 * c + 1) && r == At(nodes, 2 * c + 2)
      modifies this`min
      modifies {parent, child, up}`left, {parent, child, up}`right, {parent, child, sibling, l, r}`parent
      ensures min == if p == 0 then child else old(min)
      ensures parent.left == l && parent.right == r && parent.parent == child && child.parent == up
      ensures child.left == if c == 2 * p + 1 then parent else At(nodes, 2 * p + 1)
      ensures child.right == if c == 2 * p + 2 then parent else At(nodes, 2 * p + 2)
      ensures sibling != null ==> sibling.parent == child
      ensures l != null ==> l.parent == parent
      ensures r != null ==> r.parent == parent
      ensures forall i :: 0 <= i < |nodes| && i != p && i != c ==>
        && nodes[i].left == (if p == 2 * i + 1 then child else At(nodes, 2 * i + 1))
        && nodes[i].right == (if p == 2 * i + 2 then child else At(nodes, 2 * i + 2))
    {
      hide Distinct, Lists, At, Tree, Parent;
      TreeFacts(p, c);
      Around(nodes, p, c, s);
      if p > 0 { Differ(nodes, p, if p % 2 == 1 then p + 1 else p - 1); }
      SwapLinks(parent, child, up, sibling, l, r);
      forall i | 0 <= i < |nodes| && i != p && i != c
        ensures nodes[i].left == if p == 2 * i + 1 then child else At(nodes, 2 * i + 1)
        ensures nodes[i].right == if p == 2 * i + 2 then child else At(nodes, 2 * i + 2)
      {
        assert old(Linked(nodes, i));
        Elsewhere(nodes, p, c, s, i);
      }
    }

    /** The same surgery, told by index: which links change, and to what. */
    method SwapAt(parent: Node, child: Node, ghost p: nat, ghost c: nat)
      requires Tree() && p < c < |nodes| && Parent(c) == p && nodes[p] == parent && nodes[c] == child
      modifies this`min, members`left, members`right, members`parent
      ensures min == if p == 0 then child else old(min)
      ensures parent.left == At(nodes, 2 * c + 1) && parent.right == At(nodes, 2 * c + 2) && parent.parent == child
      ensures child.parent == if p == 0 then null else nodes[Parent(p)]
      ensures child.left == if c == 2 * p + 1 then parent else At(nodes, 2 * p + 1)
      ensures child.right == if c == 2 * p + 2 then parent else At(nodes, 2 * p + 2)
      ensures forall i :: 0 <= i < |nodes| && i != p && i != c ==>
        && nodes[i].left == (if p == 2 * i + 1 then child else At(nodes, 2 * i + 1))
        && nodes[i].right == (if p == 2 * i + 2 then child else At(nodes, 2 * i + 2))
      ensures forall i :: 0 <= i < |nodes| && i != p && i != c ==>
        nodes[i].parent == if i == 0 then null else if Parent(i) == p then child else if Parent(i) == c then parent else nodes[Parent(i)]
    {
      hide Distinct, Lists, At, Tree, Parent;
      ghost var s := if c == 2 * p + 1 then c + 1 else c - 1;
      ghost var up, sibling := if p == 0 then null else nodes[Parent(p)], At(nodes, s);
      ghost var l, r := At(nodes, 2 * c + 1), At(nodes, 2 * c + 2);
      TreeFacts(p, c);
      AtIn(nodes, members, s);
      AtIn(nodes, members, 2 * c + 1);
      AtIn(nodes, members, 2 * c + 2);
      SwapSides(parent, child, p, c, s, up, sibling, l, r);
      forall i | 0 <= i < |nodes| && i != p && i != c
        ensures nodes[i].parent == if i == 0 then null else if Parent(i) == p then child else if Parent(i) == c then parent else nodes[Parent(i)]
      {
        assert old(Linked(nodes, i));
        Elsewhere(nodes, p, c, s, i);
      }
    }

    lemma TreeFacts(p: nat, c: nat)
      requires Tree() && p < |nodes| && c < |nodes|
      ensures nelts == |nodes| < 0x1_0000_0000 && Distinct(nodes) && Lists(nodes, members) && min == At(nodes, 0)
      ensures forall i :: 0 <= i < |nodes| ==> nodes[i] in members
      ensures forall i :: 0 <= i < |nodes| ==> Linked(nodes, i)
      ensures Linked(nodes, p) && Linked(nodes, c) && (p > 0 ==> Linked(nodes, Parent(p)))
      ensures At(nodes, p) == nodes[p] && At(nodes, c) == nodes[c]
    {
    }

    /** heap_node_swap: parent and child trade places in the tree. */
    method Swap(parent: Node, child: Node, ghost p: nat, ghost c: nat)
      requires Tree() && p < c < |nodes| && Parent(c) == p && nodes[p] == parent && nodes[c] == child
      modifies this`min, this`nodes, members`left, members`right, members`parent
      ensures Tree() && nodes == Exchange(old(nodes), p, c)
    {
      hide Distinct, Lists, At, Parent;
      ghost var now := nodes[p := child][c := parent];
      SwapAt(parent, child, p, c);
      forall i | 0 <= i < |now|
        ensures Linked(now, i)
      {
        Relinked(nodes, p, c, i);
      }
      SwapDistinct(nodes, p, c);
      SwapLists(nodes, members, p, c);
      Relinked(nodes, p, c, 0);
      nodes := now;
    }

    // ---- Insertion and removal ----

    /** The pointer stored in a slot. */
    function Load(slot: Slot): Node?
      reads this, if slot.Root? then {} else {slot.node}
    {
      match slot
      case Root => min
      case Left(n) => n.left
      case Right(n) => n.right
    }

    method Store(slot: Slot, n: Node?)
      modifies this`min, (if slot.Root? then {} else {slot.node})`left, (if slot.Root? then {} else {slot.node})`right
      ensures Load(slot) == n
      ensures !slot.Root? ==> min == old(min)
      ensures slot.Left? ==> slot.node.right == old(slot.node.right)
      ensures slot.Right? ==> slot.node.left == old(slot.node.left)
    {
      match slot
      case Root => min := n;
      case Left(m) => m.left := n;
      case Right(m) => m.right := n;
    }

    lemma SlotHolds(t: nat)
      requires Tree() && t <= |nodes|
      ensures Load(SlotOf(nodes, t)) == At(nodes, t)
    {
      if t > 0 { assert Linked(nodes, Parent(t)); }
    }

    /** Follows the path bits from the root: the slot of the target, and the slot above it. */
    method Walk(path0: nat, k0: nat, ghost target: nat) returns (parent: Slot, child: Slot)
      requires Tree() && 1 <= target <= nelts + 1
      requires path0 == LowBitsReversed(target, k0) && Shift(target, k0) == 1
      ensures child == SlotOf(nodes, target - 1)
      ensures parent == if target == 1 then Root else SlotOf(nodes, Parent(target - 1))
    {
      hide LowBitsReversed, Shift, SlotOf, Parent;
      var path, k := path0, k0;
      parent, child := Root, Root;
      RootSlot(nodes);
      while k > 0
        invariant path == LowBitsReversed(target, k)
        invariant 1 <= Shift(target, k) <= target
        invariant child == SlotOf(nodes, Shift(target, k) - 1)
        invariant parent == if Shift(target, k) == 1 then Root else SlotOf(nodes, Parent(Shift(target, k) - 1))
      {
        ghost var here := Shift(target, k);
        PathBit(target, k);
        SlotHolds(here - 1);
        SlotBelow(nodes, here, path % 2);
        parent := child;
        if path % 2 == 1 {
          child := Right(Load(child));
        } else {
          child := Left(Load(child));
        }
        path := path / 2;
        k := k - 1;
      }
      ShiftNone(target);
    }

    /** Hangs a prepared node in the first free slot of the bottom row. */
    method Hang(newnode: Node, slot: Slot)
      requires Tree() && newnode !in nodes && nelts + 1 < 0x1_0000_0000 && slot == SlotOf(nodes, nelts)
      requires newnode.left == newnode.right == null
      requires newnode.parent == if nelts == 0 then null else nodes[Parent(nelts)]
      modifies this, members`left, members`right
      ensures Tree() && nodes == old(nodes) + [newnode] && members == old(members) + {newnode}
    {
      hide Distinct, Lists, Tree, At, Parent;
      ghost var now := nodes + [newnode];
      Facts();
      AppendDistinct(nodes, members, newnode);
      if nelts > 0 { AtIn(nodes, members, Parent(nelts)); }
      Store(slot, newnode);
      forall i | 0 <= i < |nodes|
        ensures Linked(now, i)
      {
        assert old(Linked(nodes, i));
        if nelts > 0 { Unequal(nodes, i, Parent(nelts)); }
        assert nodes[i].parent == old(nodes[i].parent);
        assert nodes[i].left == if 2 * i + 1 == nelts then newnode else old(nodes[i].left);
        assert nodes[i].right == if 2 * i + 2 == nelts then newnode else old(nodes[i].right);
        StillLinked(nodes, newnode, i);
      }
      AppendedAt(nodes, newnode, 0);
      LeafLinked(nodes, newnode);
      nelts := nelts + 1;
      nodes := now;
      members := members + {newnode};
      StillTree();
    }

    /** Adds a new node at the end of the bottom row. */
    method Append(newnode: Node)
      requires Tree() && newnode !in nodes && nelts + 1 < 0x1_0000_0000
      modifies this, members`left, members`right, newnode`left, newnode`right, newnode`parent
      ensures Tree() && nodes == old(nodes) + [newnode] && members == old(members) + {newnode}
    {
      hide SlotOf, Parent, Distinct;
      newnode.left, newnode.right, newnode.parent := null, null, null;
      assert forall i :: 0 <= i < |nodes| ==> old(Linked(nodes, i));
      var path, k := PathTo(1 + nelts);
      var parent, child := Walk(path, k, 1 + nelts);
      if nelts > 0 { SlotHolds(Parent(nelts)); }
      RootSlot(nodes);
      newnode.parent := Load(parent);
      Hang(newnode, child);
    }

    lemma Facts()
      requires Tree()
      ensures nelts == |nodes| < 0x1_0000_0000 && Distinct(nodes) && Lists(nodes, members) && min == At(nodes, 0)
      ensures forall i :: 0 <= i < |nodes| ==> Linked(nodes, i)
    {
    }

    lemma StillTree()
      requires nelts == |nodes| < 0x1_0000_0000 && min == At(nodes, 0) && Distinct(nodes) && Lists(nodes, members)
      requires forall i :: 0 <= i < |nodes| ==> Linked(nodes, i)
      ensures Tree()
    {
    }

    lemma Itself(i: nat, m: nat)
      requires Tree() && i < |nodes| && m < |nodes| && nodes[i] == nodes[m]
      ensures i == m
    {
    }

    lemma LinksOf(i: nat)
      requires Tree() && i < |nodes|
      ensures nodes[i].parent == if i == 0 then null else nodes[Parent(i)]
      ensures nodes[i].left == At(nodes, 2 * i + 1) && nodes[i].right == At(nodes, 2 * i + 2)
    {
      assert Linked(nodes, i);
    }

    /** Swap, with its effect on the keys and on the set of members. */
    method SwapKeys(parent: Node, child: Node, ghost p: nat, ghost c: nat)
      requires Tree() && p < c < |nodes| && Parent(c) == p && nodes[p] == parent && nodes[c] == child
      modifies this`min, this`nodes, members`left, members`right, members`parent
      ensures Tree() && |nodes| == old(|nodes|)
      ensures nodes[p] == child && nodes[c] == parent
      ensures KeysOf(nodes) == Exchange(old(KeysOf(nodes)), p, c)
    {
      hide Tree, Parent;
      ghost var was, ks := nodes, KeysOf(nodes);
      Swap(parent, child, p, c);
      ExchangeAt(was, p, c);
      ExchangeAt(ks, p, c);
    }

    /** Moves the node at index `i` up while it is smaller than its parent. */
    method SiftUp(node: Node, ghost i0: nat)
      requires Tree() && i0 < |nodes| && nodes[i0] == node
      requires OrderAround(KeysOf(nodes), i0) && ChildrenOk(KeysOf(nodes), i0)
      modifies this`min, this`nodes, members`left, members`right, members`parent
      ensures Valid() && |nodes| == old(|nodes|)
    {
      hide OrderAround, ChildrenOk, HeapOrder, Distinct, Lists, At, Linked, Parent, Exchange;
      ghost var i: nat := i0;
      LinksOf(i);
      while node.parent != null && KeyLess(node.key, node.parent.key)
        invariant Tree() && i < |nodes| && nodes[i] == node
        invariant |nodes| == old(|nodes|)
        invariant OrderAround(KeysOf(nodes), i) && ChildrenOk(KeysOf(nodes), i)
        invariant node.parent == if i == 0 then null else nodes[Parent(i)]
        decreases i
      {
        UpStep(KeysOf(nodes), i);
        SwapKeys(node.parent, node, Parent(i), i);
        i := Parent(i);
        LinksOf(i);
      }
      OrderComplete(KeysOf(nodes), i);
    }

    /** heap_insert */
    method Insert(newnode: Node)
      requires Valid() && newnode !in members && nelts + 1 < 0x1_0000_0000
      modifies this, members`left, members`right, members`parent, newnode`left, newnode`right, newnode`parent
      ensures Valid() && members == old(members) + {newnode} && nelts == old(nelts) + 1
    {
      hide HeapOrder, OrderAround, ChildrenOk;
      ghost var ks := KeysOf(nodes);
      Append(newnode);
      assert KeysOf(nodes) == ks + [newnode.key];
      AppendOrder(ks, newnode.key);
      SiftUp(newnode, nelts - 1);
    }

    /** Clears the slot of the last node of the bottom row. */
    method Unhang(slot: Slot)
      requires Tree() && nelts == |nodes| > 0 && slot == SlotOf(nodes, nelts - 1)
      modifies this, members`left, members`right
      ensures Tree() && nodes == old(nodes)[..old(nelts) - 1]
      ensures members == old(members) - {old(nodes)[old(nelts) - 1]}
    {
      hide Distinct, Lists, Tree, At, Parent;
      ghost var now := nodes[..nelts - 1];
      ghost var last := nodes[nelts - 1];
      TreeFacts(0, nelts - 1);
      DropLists(nodes, members);
      if nelts > 1 { AtIn(nodes, members, Parent(nelts - 1)); }
      Store(slot, null);
      forall i | 0 <= i < |now|
        ensures Linked(now, i)
      {
        assert old(Linked(nodes, i));
        assert nodes[i].parent == old(nodes[i].parent);
        if nelts > 1 { Unequal(nodes, i, Parent(nelts - 1)); }
        DroppedAt(nodes, 2 * i + 1);
        DroppedAt(nodes, 2 * i + 2);
      }
      DroppedAt(nodes, 0);
      nelts := nelts - 1;
      nodes := now;
      members := members - {last};
      StillTree();
    }

    /** Unlinks the last node of the bottom row. */
    method DetachLast() returns (last: Node)
      requires Tree() && nelts > 0
      modifies this, members`left, members`right
      ensures Tree() && last == old(nodes)[old(nelts) - 1]
      ensures nodes == old(nodes)[..old(nelts) - 1] && members == old(members) - {last}
    {
      hide Distinct, Lists, Linked, SlotOf;
      var path, k := PathTo(nelts);
      var _, max := Walk(path, k, nelts);
      SlotHolds(nelts - 1);
      last := Load(max);
      Unhang(max);
    }

    /** `child` takes over the links of `node`, whose parent is `up` and whose children are `l` and `r`. */
    method TakeOver(node: Node, child: Node, ghost up: Node?, ghost l: Node?, ghost r: Node?)
      requires node.parent == up && node.left == l && node.right == r
      requires node != child && {up, l, r} !! {node, child}
      requires (up != null ==> up !in {l, r}) && (l != null ==> l != r)
      requires up != null ==> up.left == node || up.right == node
      modifies this`min, {child, up}`left, {child, up}`right, {child, l, r}`parent
      ensures child.left == l && child.right == r && child.parent == up
      ensures min == if up == null then child else old(min)
      ensures up != null ==> up.left == if old(up.left) == node then child else old(up.left)
      ensures up != null ==> up.right == if old(up.left) == node then old(up.right) else child
      ensures l != null ==> l.parent == child
      ensures r != null ==> r.parent == child
    {
      child.left := node.left;
      child.right := node.right;
      child.parent := node.parent;
      if child.left != null {
        child.left.parent := child;
      }
      if child.right != null {
        child.right.parent := child;
      }
      if node.parent == null {
        min := child;
      } else if node.parent.left == node {
        node.parent.left := child;
      } else {
        node.parent.right := child;
      }
    }

    /** `child` takes the place of the node at index `r`. */
    method Replace(node: Node, child: Node, ghost r: nat)
      requires Tree() && r < |nodes| && nodes[r] == node && child !in nodes
      modifies this, members`left, members`right, members`parent, child`left, child`right, child`parent
      ensures Tree() && nodes == old(nodes)[r := child] && members == old(members) - {node} + {child}
    {
      hide Distinct, Lists, At, Tree, Parent;
      TreeFacts(r, r);
      ghost var up := if r == 0 then null else nodes[Parent(r)];
      ghost var left, right := At(nodes, 2 * r + 1), At(nodes, 2 * r + 2);
      AroundOne(nodes, members, r, child);
      if r > 0 { Differ(nodes, r, if r % 2 == 1 then r + 1 else r - 1); }
      TakeOver(node, child, up, left, right);
      ghost var now := nodes[r := child];
      ReplaceLists(nodes, members, r, child);
      forall i | 0 <= i < |now|
        ensures Linked(now, i)
      {
        assert old(Linked(nodes, i));
        if i != r { ElsewhereOne(nodes, r, i, child); }
        ReplacedAt(nodes, r, child, i);
      }
      ReplacedAt(nodes, r, child, 0);
      nodes := now;
      members := members - {node} + {child};
      StillTree();
    }

    /** The least of a node and its children. */
    method LeastAround(node: Node, ghost i: nat) returns (smallest: Node, ghost m: nat)
      requires Tree() && i < |nodes| && nodes[i] == node
      ensures m < |nodes| && nodes[m] == smallest
      ensures m == i ==> ChildrenOk(KeysOf(nodes), i)
      ensures m != i ==> m > i && Parent(m) == i && KeyLess(smallest.key, node.key)
      ensures forall j :: 0 < j < |nodes| && Parent(j) == i ==> !KeyLess(KeysOf(nodes)[j], KeysOf(nodes)[m])
    {
      hide ChildrenOk, Distinct, Lists, Linked, Parent;
      LinksOf(i);
      smallest, m := node, i;
      if node.left != null && KeyLess(node.left.key, smallest.key) {
        smallest, m := node.left, 2 * i + 1;
      }
      if node.right != null && KeyLess(node.right.key, smallest.key) {
        smallest, m := node.right, 2 * i + 2;
      }
      ChildrenOf(KeysOf(nodes), i, m);
    }

    /** Moves the node at index `i` down while a child is smaller. */
    method SiftDown(child: Node, ghost i0: nat) returns (ghost i: nat)
      requires Tree() && i0 < |nodes| && nodes[i0] == child && OrderAround(KeysOf(nodes), i0)
      modifies this`min, this`nodes, members`left, members`right, members`parent
      ensures Tree() && |nodes| == old(|nodes|) && i < |nodes| && nodes[i] == child
      ensures OrderAround(KeysOf(nodes), i) && ChildrenOk(KeysOf(nodes), i)
    {
      hide OrderAround, ChildrenOk, HeapOrder, Distinct, Lists, Linked, Parent, Exchange, Tree, KeyLess;
      i := i0;
      while true
        invariant Tree() && i < |nodes| && nodes[i] == child && |nodes| == old(|nodes|)
        invariant OrderAround(KeysOf(nodes), i)
        decreases |nodes| - i
      {
        var smallest, m := LeastAround(child, i);
        if smallest == child {
          Itself(i, m);
          return;
        }
        DownStep(KeysOf(nodes), i, m);
        SwapKeys(child, smallest, i, m);
        i := m;
      }
    }

    /** heap_remove: any member can be removed. */
    method Remove(node: Node)
      requires Valid() && (nelts > 0 ==> node in members)
      modifies this, members`left, members`right, members`parent
      ensures Valid() && members == old(members) - {node}
      ensures nelts == if old(nelts) == 0 then 0 else old(nelts) - 1
    {
      hide HeapOrder, OrderAround, ChildrenOk;
      if nelts == 0 {
        return;
      }
      ghost var ks := KeysOf(nodes);
      var child := DetachLast();
      assert KeysOf(nodes) == ks[..|ks| - 1];
      DropOrder(ks);
      if child == node {
        min := if child == min then null else min;
        return;
      }
      PutInPlace(node, child);
    }

    /** Puts the detached `child` where `node` is, then restores the order. */
    method PutInPlace(node: Node, child: Node)
      requires Valid() && node in nodes && child !in nodes
      modifies this, members`left, members`right, members`parent, child`left, child`right, child`parent
      ensures Valid() && members == old(members) - {node} + {child} && |nodes| == old(|nodes|)
    {
      hide HeapOrder, OrderAround, ChildrenOk, Distinct, Lists, Linked, At, Parent;
      ghost var r :| 0 <= r < |nodes| && nodes[r] == node;
      ghost var ks := KeysOf(nodes);
      ReplaceOrder(ks, r, child.key);
      Replace(node, child, r);
      assert KeysOf(nodes) == ks[r := child.key];
      ghost var i := SiftDown(child, r);
      SiftUp(child, i);
    }
  }

  // ---- The order, on the keys in breadth-first order ----

  ghost function KeysOf(nodes: seq<Node>): (ks: seq<Key>)
    reads nodes`key
    ensures |ks| == |nodes| && forall i :: 0 <= i < |nodes| ==> ks[i] == nodes[i].key
  {
    if nodes == [] then [] else KeysOf(nodes[..|nodes| - 1]) + [nodes[|nodes| - 1].key]
  }

  /** Key `i` is not smaller than its parent's. */
  ghost predicate Ok(ks: seq<Key>, i: nat)
    requires 0 < i < |ks|
  {
    !KeyLess(ks[i], ks[Parent(i)])
  }

  ghost predicate HeapOrder(ks: seq<Key>) {
    forall i :: 0 < i < |ks| ==> Ok(ks, i)
  }

  /** The order holds away from index `i`, whose children are at least its parent. */
  ghost predicate OrderAround(ks: seq<Key>, i: nat) {
    && (forall j :: 0 < j < |ks| && j != i && Parent(j) != i ==> Ok(ks, j))
    && (forall j :: 0 < j < |ks| && Parent(j) == i > 0 ==> i < |ks| && !KeyLess(ks[j], ks[Parent(i)]))
  }

  ghost predicate ChildrenOk(ks: seq<Key>, i: nat) {
    forall j :: 0 < j < |ks| && Parent(j) == i ==> Ok(ks, j)
  }

  ghost function Exchange<T>(s: seq<T>, i: nat, j: nat): seq<T>
    requires i < |s| && j < |s|
  {
    s[i := s[j]][j := s[i]]
  }

  /** The order around `i` and at `i` is the whole order. */
  lemma OrderComplete(ks: seq<Key>, i: nat)
    requires i < |ks| && OrderAround(ks, i) && ChildrenOk(ks, i) && (i > 0 ==> Ok(ks, i))
    ensures HeapOrder(ks)
  {
  }

  lemma ExchangeAt<T>(s: seq<T>, i: nat, j: nat)
    requires i < |s| && j < |s|
    ensures |Exchange(s, i, j)| == |s|
    ensures forall k :: 0 <= k < |s| ==> Exchange(s, i, j)[k] == if k == i then s[j] else if k == j then s[i] else s[k]
  {
  }

  lemma AppendOrder(ks: seq<Key>, k: Key)
    requires HeapOrder(ks)
    ensures OrderAround(ks + [k], |ks|) && ChildrenOk(ks + [k], |ks|)
  {
    forall j | 0 < j < |ks| ensures Ok(ks + [k], j) {
      assert Ok(ks, j);
    }
  }

  lemma DropOrder(ks: seq<Key>)
    requires HeapOrder(ks) && |ks| > 0
    ensures HeapOrder(ks[..|ks| - 1])
  {
    var front := ks[..|ks| - 1];
    forall j | 0 < j < |front| ensures Ok(front, j) {
      assert Ok(ks, j);
    }
  }

  lemma ReplaceOrder(ks: seq<Key>, r: nat, k: Key)
    requires HeapOrder(ks) && r < |ks|
    ensures OrderAround(ks[r := k], r)
  {
    forall j | 0 < j < |ks| && j != r && Parent(j) != r ensures Ok(ks[r := k], j) {
      assert Ok(ks, j);
    }
    forall j | 0 < j < |ks| && Parent(j) == r > 0
      ensures !KeyLess(ks[r := k][j], ks[r := k][Parent(r)])
    {
      assert Ok(ks, j) && Ok(ks, r);
    }
  }

  /** `m` is the smallest of index `i` and its children. */
  lemma ChildrenOf(ks: seq<Key>, i: nat, m: nat)
    requires i < |ks| && m < |ks| && m in {i, 2 * i + 1, 2 * i + 2}
    requires 2 * i + 1 < |ks| ==> !KeyLess(ks[2 * i + 1], ks[m])
    requires 2 * i + 2 < |ks| ==> !KeyLess(ks[2 * i + 2], ks[m])
    ensures forall j :: 0 < j < |ks| && Parent(j) == i ==> !KeyLess(ks[j], ks[m])
    ensures m == i ==> ChildrenOk(ks, i)
    ensures m != i ==> m > i && Parent(m) == i
  {
  }

  lemma UpStep(ks: seq<Key>, i: nat)
    requires 0 < i < |ks| && OrderAround(ks, i) && ChildrenOk(ks, i)
    requires KeyLess(ks[i], ks[Parent(i)])
    ensures OrderAround(Exchange(ks, Parent(i), i), Parent(i)) && ChildrenOk(Exchange(ks, Parent(i), i), Parent(i))
  {
    var p, now := Parent(i), Exchange(ks, Parent(i), i);
    assert p > 0 ==> Ok(ks, p);
    forall j | 0 < j < |ks| && j != p && Parent(j) != p
      ensures Ok(now, j)
    {
      assert Parent(j) != i ==> Ok(ks, j);
    }
    forall j | 0 < j < |ks| && Parent(j) == p
      ensures Ok(now, j) && (p > 0 ==> !KeyLess(now[j], now[Parent(p)]))
    {
      assert j != i ==> Ok(ks, j);
    }
  }

  lemma DownStep(ks: seq<Key>, i: nat, m: nat)
    requires OrderAround(ks, i) && i < m < |ks| && Parent(m) == i
    requires KeyLess(ks[m], ks[i])
    requires forall j :: 0 < j < |ks| && Parent(j) == i ==> !KeyLess(ks[j], ks[m])
    ensures OrderAround(Exchange(ks, i, m), m)
  {
    var now := Exchange(ks, i, m);
    forall j | 0 < j < |ks| && j != m && Parent(j) != m
      ensures Ok(now, j)
    {
      assert j != i && Parent(j) != i ==> Ok(ks, j);
    }
    forall j | 0 < j < |ks| && Parent(j) == m
      ensures !KeyLess(now[j], now[i])
    {
      assert Ok(ks, j);
    }
  }

  lemma {:induction false} RootIsLeast(ks: seq<Key>, i: nat)
    requires HeapOrder(ks) && i < |ks|
    ensures !KeyLess(ks[i], ks[0])
  {
    if i > 0 {
      RootIsLeast(ks, Parent(i));
      assert Ok(ks, i);
    }
  }

  // ---- Paths ----

  /** The slot that holds the node at index `t`, or will hold it. */
  ghost function SlotOf(nodes: seq<Node>, t: nat): Slot
    requires t <= |nodes|
  {
    if t == 0 then Root else if t % 2 == 1 then Left(nodes[Parent(t)]) else Right(nodes[Parent(t)])
  }

  lemma RootSlot(nodes: seq<Node>)
    ensures SlotOf(nodes, 0) == Root
    ensures At(nodes, 0) == if nodes == [] then null else nodes[0]
  {
  }

  /** One step down from the here-th node (counted from 1) by a path bit. */
  lemma SlotBelow(nodes: seq<Node>, here: nat, bit: nat)
    requires 1 <= here <= |nodes| && bit < 2 && 2 * here + bit <= |nodes| + 1
    ensures SlotOf(nodes, 2 * here + bit - 1) == if bit == 1 then Right(nodes[here - 1]) else Left(nodes[here - 1])
    ensures Parent(2 * here + bit - 1) == here - 1
    ensures At(nodes, here - 1) == nodes[here - 1]
  {
  }

  lemma PathBit(target: nat, k: nat)
    requires k > 0
    ensures LowBitsReversed(target, k) % 2 == Shift(target, k - 1) % 2
    ensures LowBitsReversed(target, k) / 2 == LowBitsReversed(target, k - 1)
    ensures Shift(target, k - 1) == 2 * Shift(target, k) + Shift(target, k - 1) % 2
  {
  }

  lemma ShiftNone(target: nat)
    ensures Shift(target, 0) == target
  {
  }

  /** How exchanging `p` with its child `c` changes the neighbours that index `i` should have. */
  lemma Relinked(was: seq<Node>, p: nat, c: nat, i: nat)
    requires p < c < |was| && Parent(c) == p && i < |was|
    ensures var now := was[p := was[c]][c := was[p]];
      && At(now, 0) == (if p == 0 then was[c] else At(was, 0))
      && At(now, 2 * i + 1) == (if p == 2 * i + 1 then was[c] else if c == 2 * i + 1 then was[p] else At(was, 2 * i + 1))
      && At(now, 2 * i + 2) == (if p == 2 * i + 2 then was[c] else if c == 2 * i + 2 then was[p] else At(was, 2 * i + 2))
      && (i > 0 ==> now[Parent(i)] == if Parent(i) == p then was[c] else if Parent(i) == c then was[p] else was[Parent(i)])
  {
  }
}
