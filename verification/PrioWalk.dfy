/**
  The walk of mem_leak/rmap/rmap.c: which tests prune what, and `prio_tree_first_user` and
  `prio_tree_next_user` as methods on the iterator.
 */
module PrioWalk {
  import opened Sequences
  import opened Words
  import opened PrioTree
  import opened PrioIter

  /** The nodes that overlap the query, in preorder. */
  ghost function Hits(s: Space, t: Tree, q: Query): seq<Ptr> {
    Select(s, Preorder(t), q)
  }

  ghost function HitsBeyond(s: Space, t: Tree, p: Path, q: Query): seq<Ptr> {
    Select(s, Beyond(t, p), q)
  }

  /** The nodes after the place `p` that overlap the query, in preorder. */
  ghost function HitsAfter(s: Space, t: Tree, p: Path, q: Query): seq<Ptr> {
    Select(s, After(t, p), q)
  }

  /** The overlapping nodes in the subtree at `p` and beyond it, in preorder. */
  ghost function HitsFrom(s: Space, t: Tree, p: Path, q: Query): seq<Ptr> {
    Hits(s, Sub(t, p), q) + HitsBeyond(s, t, p, q)
  }

  /** How many nodes there are in the subtree at `p` and beyond it. */
  ghost function Remaining(t: Tree, p: Path): nat {
    |Preorder(Sub(t, p))| + |Beyond(t, p)|
  }

  lemma HitsSplit(s: Space, t: Tree, q: Query)
    requires t.Branch?
    ensures Hits(s, t, q) == (if s.Overlaps(t.ptr, q) then [t.ptr] else []) + (Hits(s, t.left, q) + Hits(s, t.right, q))
  {
    var l, r := Preorder(t.left), Preorder(t.right);
    SelectConcat(s, [t.ptr] + l, r, q);
    SelectConcat(s, [t.ptr], l, q);
  }

  lemma AfterSplits(s: Space, t: Tree, p: Path, q: Query)
    ensures HitsAfter(s, t, p, q)
         == Hits(s, Sub(t, Step(p, false)), q) + Hits(s, Sub(t, Step(p, true)), q) + HitsBeyond(s, t, p, q)
  {
    var l, r := Preorder(Sub(t, Step(p, false))), Preorder(Sub(t, Step(p, true)));
    SelectConcat(s, l + r, Beyond(t, p), q);
    SelectConcat(s, l, r, q);
  }

  lemma BeyondLeft(s: Space, t: Tree, p: Path, q: Query)
    ensures HitsBeyond(s, t, Step(p, false), q) == Hits(s, Sub(t, Step(p, true)), q) + HitsBeyond(s, t, p, q)
    ensures |Beyond(t, Step(p, false))| == |Preorder(Sub(t, Step(p, true)))| + |Beyond(t, p)|
  {
    var r, b := Preorder(Sub(t, Step(p, true))), Beyond(t, p);
    assert Beyond(t, Step(p, false)) == r + b;
    SelectConcat(s, r, b, q);
  }

  lemma BeyondRight(s: Space, t: Tree, p: Path, q: Query)
    ensures HitsBeyond(s, t, Step(p, true), q) == HitsBeyond(s, t, p, q)
    ensures Beyond(t, Step(p, true)) == Beyond(t, p)
  {
  }

  /** The walk from a node is the node itself, if it overlaps, and then the walk after it. */
  lemma FromHere(s: Space, t: Tree, p: Path, q: Query)
    requires Sub(t, p).Branch?
    ensures HitsFrom(s, t, p, q)
         == (if s.Overlaps(Sub(t, p).ptr, q) then [Sub(t, p).ptr] else []) + HitsAfter(s, t, p, q)
    ensures Remaining(t, p) == 1 + |After(t, p)|
  {
    HitsSplit(s, Sub(t, p), q);
    AfterSplits(s, t, p, q);
    var l, r := Hits(s, Sub(t, Step(p, false)), q), Hits(s, Sub(t, Step(p, true)), q);
    Associate(if s.Overlaps(Sub(t, p).ptr, q) then [Sub(t, p).ptr] else [], l + r, HitsBeyond(s, t, p, q));
  }

  lemma FromTop(s: Space, t: Tree, q: Query)
    ensures HitsFrom(s, t, Top, q) == Hits(s, t, q) && HitsBeyond(s, t, Top, q) == []
  {
  }

  /** The walk to the right of a node is its right subtree and then what lies beyond. */
  lemma FromRight(s: Space, t: Tree, p: Path, q: Query)
    ensures HitsFrom(s, t, Step(p, true), q) == Hits(s, Sub(t, Step(p, true)), q) + HitsBeyond(s, t, p, q)
    ensures HitsFrom(s, t, Step(p, true), q) == HitsBeyond(s, t, Step(p, false), q)
    ensures Remaining(t, Step(p, true)) == |Beyond(t, Step(p, false))| >= |Beyond(t, p)|
  {
    BeyondLeft(s, t, p, q);
    BeyondRight(s, t, p, q);
  }

  lemma Associate(a: seq<Ptr>, b: seq<Ptr>, c: seq<Ptr>)
    ensures (a + b) + c == a + (b + c)
  {
  }

  /** The walk after a node is its left subtree and then the walk to the right. */
  lemma AfterHere(s: Space, t: Tree, p: Path, q: Query)
    ensures HitsAfter(s, t, p, q) == HitsFrom(s, t, Step(p, false), q)
    ensures HitsAfter(s, t, p, q) == Hits(s, Sub(t, Step(p, false)), q) + HitsFrom(s, t, Step(p, true), q)
    ensures |After(t, p)| == Remaining(t, Step(p, false)) >= Remaining(t, Step(p, true))
  {
    AfterSplits(s, t, p, q);
    FromRight(s, t, p, q);
    BeyondLeft(s, t, p, q);
    var l, r, b := Hits(s, Sub(t, Step(p, false)), q), Hits(s, Sub(t, Step(p, true)), q), HitsBeyond(s, t, p, q);
    Associate(l, r, b);
  }

  lemma NoHits(s: Space, t: Tree, q: Query)
    requires forall p :: p in Ptrs(t) ==> !s.Overlaps(p, q)
    ensures Hits(s, t, q) == []
  {
    PreorderMembers(t);
    SelectNone(s, Preorder(t), q);
  }

  /** What the records say at a place of the tree. */
  lemma PlaceLinks(s: Space, t: Tree, p: Path)
    requires WellFormed(s, t) && Sub(t, p).Branch?
    ensures var c := Sub(t, p);
      && s.HasNode(c.ptr)
      && s.nodes[c.ptr].left == LinkTo(c.left, c.ptr) && s.nodes[c.ptr].right == LinkTo(c.right, c.ptr)
      && (c.left.Branch? ==> s.HasNode(c.left.ptr) && c.left.ptr != c.ptr)
      && (c.right.Branch? ==> s.HasNode(c.right.ptr) && c.right.ptr != c.ptr)
      && (c.left.Branch? && c.right.Branch? ==> c.left.ptr != c.right.ptr)
      && s.nodes[c.ptr].parent == ParentAt(t, p)
  {
    SubLinked(s, t, p);
    ChildrenDistinct(t, p);
  }

  /** The tests of the code for the root and for a right child are exact. */
  lemma PlaceIsRight(s: Space, t: Tree, p: Path)
    requires WellFormed(s, t) && Sub(t, p).Branch?
    ensures var c := Sub(t, p).ptr;
      && s.HasNode(c) && s.HasNode(s.nodes[c].parent)
      && (s.nodes[c].parent == c <==> p.Top?)
      && (p.Step? ==> (s.nodes[s.nodes[c].parent].right == c <==> p.right))
  {
    PlaceLinks(s, t, p);
    if p.Step? {
      PlaceLinks(s, t, p.up);
    }
  }

  /** At a place, the room bounds the moves that can follow. */
  lemma PlaceRoom(s: Space, t: Tree, p: Path)
    requires WellFormed(s, t) && Sub(t, p).Branch?
    ensures Depth(p) <= s.root.indexBits + BITS_PER_LONG
    ensures RoomAt(s.root.indexBits, Depth(p)) == 0 ==> Sub(t, p).left.Empty? && Sub(t, p).right.Empty?
  {
    SubRadix(s, t, p);
  }

  /** The heap test of both moves down: a refused child hides nothing. */
  lemma HeapTestIsExact(s: Space, t: Tree, p: Path, q: Query)
    requires WellFormed(s, t) && Sub(t, p).Branch?
    ensures s.HasNode(Sub(t, p).ptr)
    ensures s.Heap(Sub(t, p).ptr) < q.r ==> Hits(s, Sub(t, p), q) == []
  {
    SubLinked(s, t, p);
    if s.Heap(Sub(t, p).ptr) < q.r {
      HeapPrunes(s, Sub(t, p), q);
      NoHits(s, Sub(t, p), q);
    }
  }

  /** The prefix test of the move to the right: a refused child hides nothing. */
  lemma PrefixTestIsExact(s: Space, t: Tree, p: Path, q: Query)
    requires WellFormed(s, t) && Sub(t, p).Branch?
    ensures Depth(p) <= s.root.indexBits + BITS_PER_LONG
    ensures q.h < ValueAt(s.root.indexBits, p) ==> Hits(s, Sub(t, p), q) == []
  {
    SubRadix(s, t, p);
    var v := ValueAt(s.root.indexBits, p);
    if q.h < v {
      RadixPrunes(s, Sub(t, p), RoomAt(s.root.indexBits, Depth(p)), v, q);
      NoHits(s, Sub(t, p), q);
    }
  }

  /** Once the search stands on a left child that starts after the query, its sibling hides nothing. */
  lemma NoBacktracking(s: Space, t: Tree, p: Path, q: Query)
    requires WellFormed(s, t) && Sub(t, Step(p, false)).Branch?
    ensures s.HasNode(Sub(t, Step(p, false)).ptr)
    ensures q.h < s.Radix(Sub(t, Step(p, false)).ptr) ==> Hits(s, Sub(t, Step(p, true)), q) == []
  {
    PlaceLinks(s, t, p);
    SubRadix(s, t, p);
    if q.h < s.Radix(Sub(t, p).left.ptr) {
      LeftStartPrunesRight(s, Sub(t, p), RoomAt(s.root.indexBits, Depth(p)), ValueAt(s.root.indexBits, p), q);
      NoHits(s, Sub(t, p).right, q);
    }
  }

  /** `struct prio_tree_iter`. The tree and the path to `cur` are ghosts: the code has neither. */
  class Iter {
    const space: Space
    const query: Query
    ghost const tree: Tree
    var cur: Ptr
    var mask: Ulong
    var value: Ulong
    var sizeLevel: nat
    ghost var path: Path

    /** `cur` is the node at `path`, and the other fields are the ones that path stands for. */
    ghost predicate Placed()
      reads this
    {
      && Sub(tree, path).Branch?
      && cur == Sub(tree, path).ptr
      && CursorAt(Cursor(mask, value, sizeLevel), space.root.indexBits, path)
    }

    ghost predicate Valid()
      reads this
    {
      WellFormed(space, tree) && (cur != NULL ==> Placed())
    }

    /** The overlapping nodes that calls of `Next` have still to return. */
    ghost function Rest(): seq<Ptr>
      reads this
    {
      if cur == NULL then Hits(space, tree, query) else HitsAfter(space, tree, path, query)
    }

    /** The overlapping nodes from `cur` on, from its right child on, and beyond its subtree. */
    ghost function From(): seq<Ptr>
      reads this
    {
      HitsFrom(space, tree, path, query)
    }

    ghost function ToTheRight(): seq<Ptr>
      reads this
    {
      HitsFrom(space, tree, Step(path, true), query)
    }

    ghost function Past(): seq<Ptr>
      reads this
    {
      HitsBeyond(space, tree, path, query)
    }

    constructor (space: Space, query: Query, ghost tree: Tree)
      requires WellFormed(space, tree)
      ensures Valid() && this.space == space && this.query == query && this.tree == tree
      ensures cur == NULL && Rest() == Hits(space, tree, query)
    {
      this.space, this.query, this.tree := space, query, tree;
      cur, mask, value, sizeLevel, path := NULL, 0, 0, 0, Top;
    }

    /** The last index read, as the code passes it on in two local variables, is that of `cur`. */
    ghost predicate Indexed(radix: Ulong, heap: Ulong)
      reads this
    {
      && cur != NULL
      && space.HasNode(cur)
      && radix == space.Radix(cur)
      && heap == space.Heap(cur)
    }

    predicate Overlap(radix: Ulong, heap: Ulong) {
      query.h >= radix && query.r <= heap
    }

    /** The part both moves down share: step to a child and shift the mask. */
    method Enter(child: Ptr, v: Ulong, ghost right: bool)
      requires Valid() && cur != NULL
      requires Sub(tree, Step(path, right)).Branch? && child == Sub(tree, Step(path, right)).ptr
      requires v == if right then RightValue(Cursor(mask, value, sizeLevel)) else value
      modifies `cur, `mask, `value, `sizeLevel, `path
      ensures Valid() && cur == child != NULL && path == Step(old(path), right)
    {
      PlaceRoom(space, tree, path);
      PlaceLinks(space, tree, path);
      PlaceLinks(space, tree, Step(path, right));
      PlaceRoom(space, tree, Step(path, right));
      DescendAt(Cursor(mask, value, sizeLevel), space.root.indexBits, path, right);
      cur := child;
      path := Step(path, right);
      mask := mask / 2;
      value := v;
      if mask != 0 {
        if sizeLevel != 0 {
          sizeLevel := sizeLevel + 1;
        }
      } else if sizeLevel != 0 {
        // the two BUG_ONs: a node at the bottom level has no children
        assert space.nodes[cur].left == cur;
        assert space.nodes[cur].right == cur;
        sizeLevel := sizeLevel + 1;
        mask := ULONG_MAX;
      } else {
        sizeLevel := 1;
        mask := TOP_BIT;
      }
    }

    /** Moves to the left child, unless there is none or its subtree ends before the query. */
    method Left(radixIn: Ulong, heapIn: Ulong) returns (ok: bool, radix: Ulong, heap: Ulong)
      requires Valid() && cur != NULL
      modifies `cur, `mask, `value, `sizeLevel, `path
      ensures Valid() && cur != NULL
      ensures !ok ==> unchanged(this) && old(Rest()) == ToTheRight()
      ensures ok ==> Indexed(radix, heap) && query.r <= heap && path == Step(old(path), false)
      ensures ok ==> old(Rest()) == From() && Past() == old(ToTheRight())
      ensures ok && query.h < radix ==> Past() == old(Past())
    {
      PlaceLinks(space, tree, path);
      AfterHere(space, tree, path, query);
      FromRight(space, tree, path, query);
      radix, heap := radixIn, heapIn;
      if space.nodes[cur].left == cur {
        return false, radix, heap;
      }
      HeapTestIsExact(space, tree, Step(path, false), query);
      NoBacktracking(space, tree, path, query);
      var left := space.nodes[cur].left;
      radix, heap := space.Radix(left), space.Heap(left);
      if query.r <= heap {
        Enter(left, value, false);
        return true, radix, heap;
      }
      return false, radix, heap;
    }

    /** Moves to the right child, unless there is none or its subtree cannot meet the query. */
    method Right(radixIn: Ulong, heapIn: Ulong) returns (ok: bool, radix: Ulong, heap: Ulong)
      requires Valid() && cur != NULL
      modifies `cur, `mask, `value, `sizeLevel, `path
      ensures Valid() && cur != NULL
      ensures !ok ==> unchanged(this) && old(ToTheRight()) == Past()
      ensures ok ==> Indexed(radix, heap) && query.r <= heap && path == Step(old(path), true)
      ensures ok ==> old(ToTheRight()) == From() && Past() == old(Past())
    {
      PlaceLinks(space, tree, path);
      FromRight(space, tree, path, query);
      BeyondRight(space, tree, path, query);
      radix, heap := radixIn, heapIn;
      if space.nodes[cur].right == cur {
        return false, radix, heap;
      }
      PlaceRoom(space, tree, path);
      PlaceRoom(space, tree, Step(path, true));
      DescendAt(Cursor(mask, value, sizeLevel), space.root.indexBits, path, true);
      var v := if sizeLevel != 0 then value else Or(value, mask);
      PrefixTestIsExact(space, tree, Step(path, true), query);
      if query.h < v {
        return false, radix, heap;
      }
      HeapTestIsExact(space, tree, Step(path, true), query);
      var right := space.nodes[cur].right;
      radix, heap := space.Radix(right), space.Heap(right);
      if query.r <= heap {
        Enter(right, v, true);
        return true, radix, heap;
      }
      return false, radix, heap;
    }

    /** Moves to the parent and undoes what the move down did to the other fields. */
    method Parent()
      requires Valid() && cur != NULL && path.Step?
      modifies `cur, `mask, `value, `sizeLevel, `path
      ensures Valid() && cur != NULL && path == old(path).up
      ensures old(Past()) == if old(path).right then Past() else ToTheRight()
    {
      BeyondRight(space, tree, path.up, query);
      FromRight(space, tree, path.up, query);
      PlaceLinks(space, tree, path);
      PlaceLinks(space, tree, path.up);
      AscendAt(Cursor(mask, value, sizeLevel), space.root.indexBits, path);
      cur := space.nodes[cur].parent;
      path := path.up;
      if mask == ULONG_MAX {
        mask := 1;
      } else if sizeLevel == 1 {
        mask := 1;
      } else {
        mask := mask * 2 % WORD;
      }
      if sizeLevel != 0 {
        sizeLevel := sizeLevel - 1;
      }
      if sizeLevel == 0 && And(value, mask) != 0 {
        value := Xor(value, mask);
      }
    }

    /** Climbs for as long as `cur` is a right child: there is nothing new beyond its parent. */
    method Climb()
      requires Valid() && cur != NULL
      modifies `cur, `mask, `value, `sizeLevel, `path
      ensures Valid() && cur != NULL
      ensures path.Top? || !path.right
      ensures space.HasNode(cur) && (space.nodes[cur].parent == cur <==> path.Top?)
      ensures Past() == old(Past()) && Beyond(tree, path) == old(Beyond(tree, path)) && Depth(path) <= old(Depth(path))
    {
      PlaceIsRight(space, tree, path);
      while space.nodes[cur].parent != cur && space.nodes[space.nodes[cur].parent].right == cur
        invariant Valid() && cur != NULL
        invariant space.HasNode(cur) && space.HasNode(space.nodes[cur].parent)
        invariant space.nodes[cur].parent == cur <==> path.Top?
        invariant path.Step? ==> (space.nodes[space.nodes[cur].parent].right == cur <==> path.right)
        invariant Past() == old(Past()) && Beyond(tree, path) == old(Beyond(tree, path))
        invariant Depth(path) <= old(Depth(path))
        decreases Depth(path)
      {
        BeyondRight(space, tree, path.up, query);
        Parent();
        PlaceIsRight(space, tree, path);
      }
    }

    /** The walk from `cur` starts with `cur` itself exactly if it overlaps. */
    lemma HereThenRest(radix: Ulong, heap: Ulong)
      requires Valid() && Indexed(radix, heap)
      ensures From() == if Overlap(radix, heap) then [cur] + Rest() else Rest()
      ensures Remaining(tree, path) == 1 + |After(tree, path)|
    {
      FromHere(space, tree, path, query);
    }

    /** Places the iterator on the root, unless the whole tree ends before the query. */
    method Start() returns (ok: bool, radix: Ulong, heap: Ulong)
      requires WellFormed(space, tree)
      modifies `cur, `mask, `value, `sizeLevel, `path
      ensures Valid()
      ensures !ok ==> cur == NULL && Hits(space, tree, query) == []
      ensures ok ==> Indexed(radix, heap) && query.r <= heap
      ensures ok ==> Hits(space, tree, query) == From() && Past() == []
    {
      hide Hits, HitsBeyond, HitsFrom, HeapOrder, RadixOrder, Preorder;
      cur, mask, value, sizeLevel, path := NULL, 0, 0, 0, Top;
      if space.root.node == NULL {
        NoHits(space, tree, query);
        return false, 0, 0;
      }
      PlaceLinks(space, tree, Top);
      HeapTestIsExact(space, tree, Top, query);
      FromTop(space, tree, query);
      radix, heap := space.Radix(space.root.node), space.Heap(space.root.node);
      if query.r > heap {
        return false, radix, heap;
      }
      Pow2Fits(space.root.indexBits - 1);
      mask := Pow2(space.root.indexBits - 1);
      cur := space.root.node;
      ok := true;
    }

    /**
      Finds the first overlapping node in preorder. It never turns back, and still misses none:
      when it gives up, no node of the whole tree overlaps.
     */
    method First() returns (res: Ptr)
      requires WellFormed(space, tree)
      modifies `cur, `mask, `value, `sizeLevel, `path
      ensures Valid()
      ensures res == NULL <==> Hits(space, tree, query) == []
      ensures res != NULL ==> cur == res && Hits(space, tree, query) == [res] + Rest()
    {
      var ok, radix, heap := Start();
      if !ok {
        return NULL;
      }
      while true
        invariant Valid() && Indexed(radix, heap) && query.r <= heap
        invariant Hits(space, tree, query) == From()
        invariant !Overlap(radix, heap) ==> Past() == []
        decreases Sub(tree, path)
      {
        HereThenRest(radix, heap);
        if Overlap(radix, heap) {
          return cur;
        }
        ok, radix, heap := Left(radix, heap);
        if !ok {
          ok, radix, heap := Right(radix, heap);
          if !ok {
            break;
          }
        }
      }
      return NULL;
    }

    /** The loop that goes left: to an overlapping node, or as far as the tests allow. */
    method GoLeft() returns (found: bool, radix: Ulong, heap: Ulong)
      requires Valid() && cur != NULL
      modifies `cur, `mask, `value, `sizeLevel, `path
      ensures Valid() && cur != NULL
      ensures found ==> old(Rest()) == [cur] + Rest()
      ensures !found ==> old(Rest()) == ToTheRight() && Remaining(tree, Step(path, true)) <= old(|After(tree, path)|)
    {
      AfterHere(space, tree, path, query);
      var ok;
      ok, radix, heap := Left(0, 0);
      while ok
        invariant Valid() && cur != NULL
        invariant ok ==> Indexed(radix, heap) && query.r <= heap && old(Rest()) == From()
        invariant ok ==> Remaining(tree, path) <= old(|After(tree, path)|)
        invariant !ok ==> old(Rest()) == ToTheRight()
        invariant !ok ==> Remaining(tree, Step(path, true)) <= old(|After(tree, path)|)
        decreases ok, Sub(tree, path)
      {
        HereThenRest(radix, heap);
        if Overlap(radix, heap) {
          return true, radix, heap;
        }
        AfterHere(space, tree, path, query);
        ok, radix, heap := Left(radix, heap);
      }
      return false, radix, heap;
    }

    /** The loop that goes right, climbing as long as there is nothing to the right. */
    method GoRight(radixIn: Ulong, heapIn: Ulong) returns (ok: bool, radix: Ulong, heap: Ulong)
      requires Valid() && cur != NULL
      modifies `cur, `mask, `value, `sizeLevel, `path
      ensures Valid() && cur != NULL
      ensures !ok ==> old(ToTheRight()) == [] && path == Top
      ensures ok ==> Indexed(radix, heap) && query.r <= heap && old(ToTheRight()) == From()
      ensures ok ==> Remaining(tree, path) <= old(Remaining(tree, Step(path, true)))
    {
      FromRight(space, tree, path, query);
      ok, radix, heap := Right(radixIn, heapIn);
      while !ok
        invariant Valid() && cur != NULL
        invariant ok ==> Indexed(radix, heap) && query.r <= heap && old(ToTheRight()) == From()
        invariant ok ==> Remaining(tree, path) <= old(Remaining(tree, Step(path, true)))
        invariant !ok ==> old(ToTheRight()) == Past()
        invariant !ok ==> |Beyond(tree, path)| <= old(Remaining(tree, Step(path, true)))
        decreases !ok, Depth(path)
      {
        Climb();
        if space.nodes[cur].parent == cur {
          return;
        }
        FromRight(space, tree, path.up, query);
        Parent();
        ok, radix, heap := Right(radix, heap);
      }
    }

    /**
      Moves to the next overlapping node in preorder. When there is none left, the iterator stays
      on the root: yet another call would start over below it.
     */
    method Next() returns (res: Ptr)
      requires Valid()
      modifies `cur, `mask, `value, `sizeLevel, `path
      ensures Valid()
      ensures res == NULL <==> old(Rest()) == []
      ensures res != NULL ==> cur == res && old(Rest()) == [res] + Rest()
      ensures res == NULL && old(cur) != NULL ==> path == Top
    {
      if cur == NULL {
        res := First();
        return;
      }
      while true
        invariant Valid() && cur != NULL && Rest() == old(Rest())
        decreases |After(tree, path)|
      {
        var found, radix, heap := GoLeft();
        if found {
          return cur;
        }
        var ok;
        ok, radix, heap := GoRight(radix, heap);
        if !ok {
          return NULL;
        }
        HereThenRest(radix, heap);
        if Overlap(radix, heap) {
          return cur;
        }
      }
    }
  }

  /** Repeated calls from a fresh iterator, for any kind of tree: all overlapping nodes, and then NULL. */
  method AllHits(space: Space, query: Query, ghost tree: Tree) returns (nodes: seq<Ptr>)
    requires WellFormed(space, tree)
    ensures nodes == Hits(space, tree, query)
  {
    var iter := new Iter(space, query, tree);
    nodes := [];
    ghost var todo := iter.Rest();
    var node := iter.Next();
    while node != NULL
      invariant iter.Valid() && fresh(iter) && iter.space == space && iter.tree == tree
      invariant node == NULL ==> todo == []
      invariant node != NULL ==> todo == [node] + iter.Rest()
      invariant nodes + todo == Hits(space, tree, query)
      decreases |todo|
    {
      Associate(nodes, [node], iter.Rest());
      nodes := nodes + [node];
      todo := iter.Rest();
      node := iter.Next();
    }
  }

  predicate Within(lo: int, x: int, hi: int) {
    lo <= x <= hi
  }

  /** For plain nodes: listed exactly if the interval of the node and that of the query have a number in common. */
  lemma PlainHits(s: Space, t: Tree, q: Query)
    requires WellFormed(s, t) && !s.root.raw && q.r <= q.h
    requires forall p :: p in Ptrs(t) ==> s.HasNode(p) && s.nodes[p].start <= s.nodes[p].last
    ensures forall p :: p in Hits(s, t, q) <==>
      && p in Ptrs(t) && s.HasNode(p)
      && exists x :: Within(s.nodes[p].start, x, s.nodes[p].last) && Within(q.r, x, q.h)
    ensures Distinct(Hits(s, t, q))
  {
    hide WellFormed, Hits;
    HitsMembers(s, t, q);
    forall p | p in Ptrs(t)
      ensures s.Overlaps(p, q) <==> exists x :: Within(s.nodes[p].start, x, s.nodes[p].last) && Within(q.r, x, q.h)
    {
      if s.Overlaps(p, q) {
        var x := if q.r <= s.nodes[p].start then s.nodes[p].start else q.r;
        assert Within(s.nodes[p].start, x, s.nodes[p].last) && Within(q.r, x, q.h);
      }
    }
  }

  lemma HitsMembers(s: Space, t: Tree, q: Query)
    requires WellFormed(s, t)
    ensures forall p :: p in Hits(s, t, q) <==> p in Ptrs(t) && s.Overlaps(p, q)
    ensures Distinct(Hits(s, t, q))
  {
    SelectedExactlyOnce(s, t, q);
  }
}
