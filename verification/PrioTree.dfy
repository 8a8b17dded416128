/**
  The radix priority search tree as mem_leak/rmap/rmap.c finds it in memory: the node and
  VMA records behind the pointers, the shape they form, and the two orders the search uses.
 */
module PrioTree {
  import opened Sequences
  import opened Words

  type Ptr = nat

  const NULL: Ptr := 0
  const PAGE_SIZE := 4096

  /** An empty child is a link to the node itself; the parent of the root is the root. */
  datatype Node = Node(left: Ptr, right: Ptr, parent: Ptr, start: Ulong, last: Ulong)

  /** `setParent`, `setHead` and `listNext` are the members of `shared.vm_set`. */
  datatype Vma = Vma(pgoff: Ulong, vmStart: Ulong, vmEnd: Ulong, setParent: Ptr, setHead: Ptr, listNext: Ptr)

  datatype Root = Root(node: Ptr, indexBits: nat, raw: bool)

  datatype Query = Query(r: Ulong, h: Ulong)

  /** The part of memory the walk reads. A VMA and the tree node inside it share one pointer. */
  datatype Space = Space(nodes: map<Ptr, Node>, vmas: map<Ptr, Vma>, root: Root) {
    predicate HasNode(p: Ptr) {
      p != NULL && p in nodes && (root.raw ==> p in vmas)
    }

    /** RADIX_INDEX_USER of a VMA, or the stored start of a plain node. */
    function Radix(p: Ptr): Ulong
      requires HasNode(p)
    {
      if root.raw then vmas[p].pgoff else nodes[p].start
    }

    /** HEAP_INDEX_USER of a VMA, the last page offset it maps, or the stored end. */
    function Heap(p: Ptr): Ulong
      requires HasNode(p)
    {
      if root.raw then
        Add(vmas[p].pgoff, Minus(Minus(vmas[p].vmEnd, vmas[p].vmStart) / PAGE_SIZE, 1))
      else
        nodes[p].last
    }

    predicate Overlaps(p: Ptr, q: Query) {
      HasNode(p) && Radix(p) <= q.h && q.r <= Heap(p)
    }
  }

  /** The shape of the tree, without the keys. */
  datatype Tree = Empty | Branch(ptr: Ptr, left: Tree, right: Tree)

  ghost function Ptrs(t: Tree): set<Ptr> {
    if t.Empty? then {} else {t.ptr} + Ptrs(t.left) + Ptrs(t.right)
  }

  ghost function Preorder(t: Tree): seq<Ptr> {
    if t.Empty? then [] else [t.ptr] + Preorder(t.left) + Preorder(t.right)
  }

  function LinkTo(t: Tree, self: Ptr): Ptr {
    if t.Empty? then self else t.ptr
  }

  /** The records linked from `t`'s root spell out exactly `t`. */
  ghost predicate Linked(s: Space, t: Tree, parent: Ptr) {
    t.Branch? ==>
      && s.HasNode(t.ptr)
      && s.nodes[t.ptr].parent == parent
      && s.nodes[t.ptr].left == LinkTo(t.left, t.ptr)
      && s.nodes[t.ptr].right == LinkTo(t.right, t.ptr)
      && Linked(s, t.left, t.ptr)
      && Linked(s, t.right, t.ptr)
  }

  /** No child ends after its parent. */
  ghost predicate HeapOrder(s: Space, t: Tree) {
    t.Branch? ==>
      && s.HasNode(t.ptr)
      && HeapOrder(s, t.left)
      && HeapOrder(s, t.right)
      && (t.left.Branch? ==> s.Heap(t.left.ptr) <= s.Heap(t.ptr))
      && (t.right.Branch? ==> s.Heap(t.right.ptr) <= s.Heap(t.ptr))
  }

  /*
    A node has room for `room` more moves down. While room > 64, a move branches on the highest
    of room - 64 open bits of the radix index. Further down the radix index is used up: the node
    belongs to an overflow subtree, and a move branches on one of `room` bits of the interval
    size. A node with no room is a leaf.
   */

  /** How many low bits of the radix index are not yet fixed. */
  ghost function Open(room: nat): nat {
    if room > BITS_PER_LONG then room - BITS_PER_LONG else 0
  }

  /** What a right move adds to the radix prefix: the highest open bit, if there is one. */
  ghost function BranchBit(room: nat): nat {
    if room > BITS_PER_LONG then Pow2(room - BITS_PER_LONG - 1) else 0
  }

  /** Every radix index starts with the prefix that the place of its node stands for. */
  ghost predicate RadixOrder(s: Space, t: Tree, room: nat, v: nat) {
    t.Branch? ==>
      && s.HasNode(t.ptr)
      && v <= s.Radix(t.ptr) < v + Pow2(Open(room))
      && if room == 0 then t.left.Empty? && t.right.Empty?
         else RadixOrder(s, t.left, room - 1, v) && RadixOrder(s, t.right, room - 1, v + BranchBit(room))
  }

  ghost predicate WellFormed(s: Space, t: Tree) {
    && 1 <= s.root.indexBits <= BITS_PER_LONG
    && s.root.node == LinkTo(t, NULL)
    && Linked(s, t, s.root.node)
    && Distinct(Preorder(t))
    && HeapOrder(s, t)
    && RadixOrder(s, t, s.root.indexBits + BITS_PER_LONG, 0)
  }

  // Selecting the overlapping nodes out of a sequence of nodes

  ghost function Select(s: Space, ps: seq<Ptr>, q: Query): seq<Ptr> {
    if ps == [] then [] else (if s.Overlaps(ps[0], q) then [ps[0]] else []) + Select(s, ps[1..], q)
  }

  lemma {:induction false} SelectConcat(s: Space, a: seq<Ptr>, b: seq<Ptr>, q: Query)
    ensures Select(s, a + b, q) == Select(s, a, q) + Select(s, b, q)
  {
    hide Space.Overlaps;
    if a == [] {
      assert a + b == b;
    } else {
      SelectConcat(s, a[1..], b, q);
      assert (a + b)[1..] == a[1..] + b;
    }
  }

  lemma SelectNone(s: Space, ps: seq<Ptr>, q: Query)
    requires forall p :: p in ps ==> !s.Overlaps(p, q)
    ensures Select(s, ps, q) == []
  {
  }

  lemma SelectMembers(s: Space, ps: seq<Ptr>, q: Query)
    ensures forall p :: p in Select(s, ps, q) <==> p in ps && s.Overlaps(p, q)
  {
  }

  lemma {:induction false} SelectDistinct(s: Space, ps: seq<Ptr>, q: Query)
    requires Distinct(ps)
    ensures Distinct(Select(s, ps, q))
  {
    if ps == [] {
    } else {
      SelectDistinct(s, ps[1..], q);
      SelectMembers(s, ps[1..], q);
    }
  }

  lemma PreorderMembers(t: Tree)
    ensures forall p :: p in Preorder(t) <==> p in Ptrs(t)
  {
  }

  // Pruning

  /** Heap order: nothing in a tree ends after its root. */
  lemma {:induction false} HeapBound(s: Space, t: Tree, p: Ptr)
    requires HeapOrder(s, t) && p in Ptrs(t)
    ensures s.HasNode(p) && s.Heap(p) <= s.Heap(t.ptr)
  {
    if p in Ptrs(t.left) {
      HeapBound(s, t.left, p);
    } else if p in Ptrs(t.right) {
      HeapBound(s, t.right, p);
    }
  }

  /** Radix order: every key of a subtree lies in the interval its prefix leaves open. */
  lemma {:induction false} RadixBound(s: Space, t: Tree, room: nat, v: nat, p: Ptr)
    requires RadixOrder(s, t, room, v) && p in Ptrs(t)
    ensures s.HasNode(p) && v <= s.Radix(p) < v + Pow2(Open(room))
  {
    if p != t.ptr {
      if p in Ptrs(t.left) {
        RadixBound(s, t.left, room - 1, v, p);
      } else {
        RadixBound(s, t.right, room - 1, v + BranchBit(room), p);
      }
    }
  }

  /** A root that ends before the query hides no overlap below it. */
  lemma HeapPrunes(s: Space, t: Tree, q: Query)
    requires t.Branch? && HeapOrder(s, t)
    requires s.Heap(t.ptr) < q.r
    ensures forall p :: p in Ptrs(t) ==> !s.Overlaps(p, q)
  {
    forall p | p in Ptrs(t)
      ensures !s.Overlaps(p, q)
    {
      HeapBound(s, t, p);
    }
  }

  /** A prefix beyond the query hides no overlap below it. */
  lemma RadixPrunes(s: Space, t: Tree, room: nat, v: nat, q: Query)
    requires RadixOrder(s, t, room, v)
    requires q.h < v
    ensures forall p :: p in Ptrs(t) ==> !s.Overlaps(p, q)
  {
    forall p | p in Ptrs(t)
      ensures !s.Overlaps(p, q)
    {
      RadixBound(s, t, room, v, p);
    }
  }

  /** A left child that starts after the query leaves no overlap in its right sibling's subtree. */
  lemma LeftStartPrunesRight(s: Space, t: Tree, room: nat, v: nat, q: Query)
    requires t.Branch? && t.left.Branch? && s.HasNode(t.left.ptr)
    requires RadixOrder(s, t, room, v)
    requires q.h < s.Radix(t.left.ptr)
    ensures forall p :: p in Ptrs(t.right) ==> !s.Overlaps(p, q)
  {
    forall p | p in Ptrs(t.right)
      ensures !s.Overlaps(p, q)
    {
      RadixBound(s, t.right, room - 1, v + BranchBit(room), p);
      assert Pow2(Open(room - 1)) <= BranchBit(room) + 1;
    }
  }

  /** A place in the tree: the moves that lead to it from the root. */
  datatype Path = Top | Step(up: Path, right: bool)

  ghost function Depth(p: Path): nat {
    if p.Top? then 0 else Depth(p.up) + 1
  }

  ghost function Child(t: Tree, right: bool): Tree {
    if t.Empty? then Empty else if right then t.right else t.left
  }

  ghost function Sub(t: Tree, p: Path): Tree {
    if p.Top? then t else Child(Sub(t, p.up), p.right)
  }

  /** The room of a node `depth` moves below the root. */
  ghost function RoomAt(indexBits: nat, depth: nat): (room: nat)
    requires depth <= indexBits + BITS_PER_LONG
  {
    indexBits + BITS_PER_LONG - depth
  }

  /** The radix prefix a path stands for. */
  ghost function ValueAt(indexBits: nat, p: Path): nat
    requires Depth(p) <= indexBits + BITS_PER_LONG
  {
    if p.Top? then 0 else
      ValueAt(indexBits, p.up) + if p.right then BranchBit(RoomAt(indexBits, Depth(p.up))) else 0
  }

  ghost function ParentAt(t: Tree, p: Path): Ptr {
    LinkTo(Sub(t, if p.Top? then p else p.up), NULL)
  }

  /** Links and heap order of the subtree at a path. */
  lemma {:induction false} SubLinked(s: Space, t: Tree, p: Path)
    requires Linked(s, t, LinkTo(t, NULL)) && HeapOrder(s, t)
    ensures Linked(s, Sub(t, p), ParentAt(t, p)) && HeapOrder(s, Sub(t, p))
  {
    if p.Top? {
    } else {
      SubLinked(s, t, p.up);
    }
  }

  /** Radix order of the subtree at a path: depth and path fix its room and its prefix. */
  lemma {:induction false} SubRadix(s: Space, t: Tree, p: Path)
    requires RadixOrder(s, t, s.root.indexBits + BITS_PER_LONG, 0) && Sub(t, p).Branch?
    ensures Depth(p) <= s.root.indexBits + BITS_PER_LONG
    ensures RadixOrder(s, Sub(t, p), RoomAt(s.root.indexBits, Depth(p)), ValueAt(s.root.indexBits, p))
  {
    if p.Top? {
    } else {
      SubRadix(s, t, p.up);
    }
  }

  lemma {:induction false} ValueClear(indexBits: nat, p: Path)
    requires Depth(p) <= indexBits + BITS_PER_LONG
    ensures Clear(ValueAt(indexBits, p), Open(RoomAt(indexBits, Depth(p))))
  {
    if p.Top? {
      ClearZero(indexBits);
    } else {
      ValueClear(indexBits, p.up);
      var open := Open(RoomAt(indexBits, Depth(p.up)));
      if open > 0 {
        ClearFewer(ValueAt(indexBits, p.up), open - 1);
      }
    }
  }

  lemma {:induction false} ValueFits(indexBits: nat, p: Path)
    requires Depth(p) <= indexBits + BITS_PER_LONG
    ensures ValueAt(indexBits, p) + Pow2(Open(RoomAt(indexBits, Depth(p)))) <= Pow2(indexBits)
  {
    if p.Top? {
    } else {
      ValueFits(indexBits, p.up);
    }
  }

  /** The nodes after the whole subtree at `p`, in preorder. */
  ghost function Beyond(t: Tree, p: Path): seq<Ptr> {
    if p.Top? then []
    else if p.right then Beyond(t, p.up)
    else Preorder(Child(Sub(t, p.up), true)) + Beyond(t, p.up)
  }

  /** The nodes after the one at `p`, in preorder. */
  ghost function After(t: Tree, p: Path): seq<Ptr> {
    Preorder(Child(Sub(t, p), false)) + Preorder(Child(Sub(t, p), true)) + Beyond(t, p)
  }

  lemma {:induction false} SubPtrs(t: Tree, p: Path)
    ensures Ptrs(Sub(t, p)) <= Ptrs(t)
  {
    if p.Top? {
    } else {
      SubPtrs(t, p.up);
    }
  }

  /** The nodes between a parent and its child in preorder. */
  ghost function Skipped(t: Tree, p: Path): seq<Ptr>
    requires p.Step?
  {
    if p.right then Preorder(Child(Sub(t, p.up), false)) else []
  }

  lemma Regroup(a: seq<Ptr>, c: seq<Ptr>, l: seq<Ptr>, r: seq<Ptr>, b: seq<Ptr>, rest: seq<Ptr>)
    ensures a + (c + l + r) + rest == a + c + (l + r + rest)
    ensures (c + l + r) + b + rest == [] + c + (l + r + (b + rest))
  {
  }

  lemma AfterParent(t: Tree, p: Path)
    requires p.Step? && Sub(t, p).Branch?
    ensures After(t, p.up) == Skipped(t, p) + [Sub(t, p).ptr] + After(t, p)
  {
    var c, u := Sub(t, p), Sub(t, p.up);
    Regroup(Preorder(u.left), [c.ptr], Preorder(c.left), Preorder(c.right), Preorder(u.right), Beyond(t, p.up));
  }

  /** `After` is where the preorder of the whole tree continues. */
  lemma {:induction false} PreorderSplitsAt(t: Tree, p: Path) returns (before: seq<Ptr>)
    requires Sub(t, p).Branch?
    ensures Preorder(t) == before + [Sub(t, p).ptr] + After(t, p)
  {
    if p.Top? {
      before := [];
      assert After(t, p) == Preorder(t.left) + Preorder(t.right);
    } else {
      var x := PreorderSplitsAt(t, p.up);
      AfterParent(t, p);
      var u, c, skipped, after := Sub(t, p.up).ptr, Sub(t, p).ptr, Skipped(t, p), After(t, p);
      before := x + [u] + skipped;
      assert x + [u] + (skipped + [c] + after) == before + [c] + after;
    }
  }

  /** A node and its children are three different nodes. */
  lemma ChildrenDistinct(t: Tree, p: Path)
    requires Distinct(Preorder(t)) && Sub(t, p).Branch?
    ensures var c := Sub(t, p);
      && (c.left.Branch? ==> c.left.ptr != c.ptr)
      && (c.right.Branch? ==> c.right.ptr != c.ptr)
      && (c.left.Branch? && c.right.Branch? ==> c.left.ptr != c.right.ptr)
  {
    var c := Sub(t, p);
    var before := PreorderSplitsAt(t, p);
    var all, k := Preorder(t), |before|;
    var l := Preorder(c.left);
    assert all[k] == c.ptr;
    assert c.left.Branch? ==> all[k + 1] == l[0] == c.left.ptr;
    assert c.right.Branch? ==> all[k + 1 + |l|] == Preorder(c.right)[0] == c.right.ptr;
  }

  /** The answer to a query: each overlapping node of the tree, and each exactly once. */
  lemma SelectedExactlyOnce(s: Space, t: Tree, q: Query)
    requires WellFormed(s, t)
    ensures forall p :: p in Select(s, Preorder(t), q) <==> p in Ptrs(t) && s.Overlaps(p, q)
    ensures Distinct(Select(s, Preorder(t), q))
  {
    PreorderMembers(t);
    SelectMembers(s, Preorder(t), q);
    SelectDistinct(s, Preorder(t), q);
  }

  /** The smallest and the largest number of radix bits both go with a tree. */
  lemma EmptyTree(indexBits: nat, raw: bool)
    requires 1 <= indexBits <= 64
    ensures WellFormed(Space(map[], map[], Root(NULL, indexBits, raw)), Empty)
  {
  }

  /**
    A well-formed tree with the corner cases: children that end where their parent ends, keys at both
    ends of their intervals, and an overflow node, below the last bit of the radix index.
   */
  lemma CornerCases() returns (s: Space, t: Tree)
    ensures WellFormed(s, t) && s.root.indexBits == 1 && Preorder(t) == [1, 2, 3, 4]
    ensures s.nodes.Keys == {1, 2, 3, 4}
    ensures s.nodes[1].last == s.nodes[2].last == s.nodes[4].last == 1
    ensures s.nodes[1].start == s.nodes[4].start == 1 && s.nodes[2].start == s.nodes[3].start == 0
    ensures Sub(t, Step(Step(Top, false), false)).Branch?
  {
    var nodes := map[1 := Node(2, 4, 1, 1, 1), 2 := Node(3, 2, 1, 0, 1), 3 := Node(3, 3, 2, 0, 0),
                     4 := Node(4, 4, 1, 1, 1)];
    s := Space(nodes, map[], Root(1, 1, false));
    var third, fourth := Branch(3, Empty, Empty), Branch(4, Empty, Empty);
    var second := Branch(2, third, Empty);
    t := Branch(1, second, fourth);
    assert Pow2(0) == 1 && Pow2(1) == 2;
    assert Linked(s, third, 2) && Linked(s, second, 1) && Linked(s, fourth, 1);
    assert HeapOrder(s, third) && HeapOrder(s, second) && HeapOrder(s, fourth);
    assert RadixOrder(s, third, 63, 0) && RadixOrder(s, second, 64, 0) && RadixOrder(s, fourth, 64, 1);
    assert Preorder(second) == [2, 3] && Preorder(fourth) == [4];
    assert Sub(t, Step(Top, false)) == second;
  }
}
