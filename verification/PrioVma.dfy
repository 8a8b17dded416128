/**
  The VMAs that map one page (mem_leak/rmap/rmap.c): every node of the priority search tree
  stands for itself and for the ring of VMAs with the same interval that hangs off it.
 */
module PrioVma {
  import opened Sequences
  import opened Words
  import opened PrioTree
  import opened PrioWalk

  /** The rings by tree node, in list order from the head. */
  type Rings = map<Ptr, seq<Ptr>>

  /** The node points to the head, the head back to the node, and the members around the ring. */
  ghost predicate RingLinked(s: Space, node: Ptr, ring: seq<Ptr>) {
    && node in s.vmas
    && s.vmas[node].setParent != NULL
    && s.vmas[node].setHead == (if ring == [] then NULL else ring[0])
    && NULL !in ring
    && (forall i :: 0 <= i < |ring| ==>
          && ring[i] in s.vmas
          && s.vmas[ring[i]].setParent == NULL
          && s.vmas[ring[i]].setHead == (if i == 0 then node else NULL)
          && s.vmas[ring[i]].listNext == ring[if i + 1 == |ring| then 0 else i + 1])
  }

  /** Two VMAs cover the same pages of the file. */
  ghost predicate SameInterval(s: Space, a: Ptr, b: Ptr) {
    && a in s.vmas && b in s.vmas
    && s.vmas[a].pgoff == s.vmas[b].pgoff
    && Minus(s.vmas[a].vmEnd, s.vmas[a].vmStart) / PAGE_SIZE == Minus(s.vmas[b].vmEnd, s.vmas[b].vmStart) / PAGE_SIZE
  }

  ghost function RingOf(rings: Rings, node: Ptr): seq<Ptr> {
    if node in rings then rings[node] else []
  }

  ghost predicate RingsLinked(s: Space, t: Tree, rings: Rings) {
    forall n :: n in Ptrs(t) ==> RingLinked(s, n, RingOf(rings, n))
  }

  /** A sequence of nodes, each followed by its ring. */
  ghost function WithRings(rings: Rings, nodes: seq<Ptr>): seq<Ptr> {
    if nodes == [] then [] else [nodes[0]] + RingOf(rings, nodes[0]) + WithRings(rings, nodes[1..])
  }

  lemma WithRingsStep(rings: Rings, node: Ptr, rest: seq<Ptr>)
    ensures WithRings(rings, [node] + rest) == [node] + (RingOf(rings, node)[0..] + WithRings(rings, rest))
  {
    assert ([node] + rest)[1..] == rest;
    assert RingOf(rings, node)[0..] == RingOf(rings, node);
  }

  /** `vma` is the node of the iterator itself, or the `i`-th member of its ring. */
  ghost predicate At(node: Ptr, rings: Rings, vma: Ptr, i: nat) {
    node != NULL && i <= |RingOf(rings, node)| && vma == if i == 0 then node else RingOf(rings, node)[i - 1]
  }

  /** The VMAs still to come after `vma`: the rest of its ring and everything after its node. */
  ghost function VmasAfter(iter: Iter, rings: Rings, vma: Ptr, i: nat): seq<Ptr>
    reads iter
  {
    (if vma == NULL || i > |RingOf(rings, iter.cur)| then [] else RingOf(rings, iter.cur)[i..])
    + WithRings(rings, iter.Rest())
  }

  /** The next VMA around the ring, or NULL where the ring closes. */
  method RingNext(s: Space, vma: Ptr, ghost node: Ptr, ghost rings: Rings, ghost i: nat) returns (next: Ptr)
    requires At(node, rings, vma, i) && RingLinked(s, node, RingOf(rings, node))
    ensures next == if i == |RingOf(rings, node)| then NULL else RingOf(rings, node)[i]
  {
    ghost var ring := RingOf(rings, node);
    if s.vmas[vma].setParent != NULL {
      next := s.vmas[vma].setHead;
    } else {
      assert vma == ring[i - 1];
      assert s.vmas[vma].listNext == ring[if i == |ring| then 0 else i];
      next := s.vmas[vma].listNext;
      if s.vmas[next].setHead != NULL {
        next := NULL;
      }
    }
  }

  lemma CurrentRing(iter: Iter, rings: Rings)
    requires iter.Valid() && iter.cur != NULL && RingsLinked(iter.space, iter.tree, rings)
    ensures RingLinked(iter.space, iter.cur, RingOf(rings, iter.cur))
  {
    SubPtrs(iter.tree, iter.path);
    assert iter.cur in Ptrs(Sub(iter.tree, iter.path));
  }

  /** Moves on to the next node of the tree; its ring is still to come. */
  method NextNode(iter: Iter, ghost rings: Rings) returns (next: Ptr)
    requires iter.Valid()
    modifies iter`cur, iter`mask, iter`value, iter`sizeLevel, iter`path
    ensures iter.Valid()
    ensures next == NULL <==> old(WithRings(rings, iter.Rest())) == []
    ensures next != NULL ==> At(iter.cur, rings, next, 0)
    ensures next != NULL ==> old(WithRings(rings, iter.Rest())) == [next] + VmasAfter(iter, rings, next, 0)
  {
    next := iter.Next();
    if next != NULL {
      WithRingsStep(rings, next, iter.Rest());
    }
  }

  /** The next VMA: along the ring of the current node, and then on to the next node. */
  method VmaNext(vma: Ptr, iter: Iter, ghost rings: Rings, ghost i: nat) returns (next: Ptr, ghost j: nat)
    requires iter.Valid() && RingsLinked(iter.space, iter.tree, rings)
    requires vma != NULL ==> At(iter.cur, rings, vma, i)
    modifies iter`cur, iter`mask, iter`value, iter`sizeLevel, iter`path
    ensures iter.Valid()
    ensures next == NULL <==> old(VmasAfter(iter, rings, vma, i)) == []
    ensures next != NULL ==> At(iter.cur, rings, next, j)
    ensures next != NULL ==> old(VmasAfter(iter, rings, vma, i)) == [next] + VmasAfter(iter, rings, next, j)
  {
    if vma != NULL {
      CurrentRing(iter, rings);
      next := RingNext(iter.space, vma, iter.cur, rings, i);
      if next != NULL {
        j := i + 1;
        ghost var ring := RingOf(rings, iter.cur);
        assert ring[i..] == [next] + ring[j..];
        Associate([next], ring[j..], WithRings(rings, iter.Rest()));
        return;
      }
    }
    j := 0;
    next := NextNode(iter, rings);
  }

  /** Members of a ring occur in no other place. */
  ghost predicate RingsSeparate(nodes: set<Ptr>, rings: Rings) {
    && (forall n :: n in nodes ==> Distinct(RingOf(rings, n)))
    && (forall n, v :: n in nodes && v in RingOf(rings, n) ==> v !in nodes)
    && (forall n, m :: n in nodes && m in nodes && n != m ==> Separate(RingOf(rings, n), RingOf(rings, m)))
  }

  /** Members of a ring cover the same pages as their node. */
  ghost predicate RingsAlike(s: Space, nodes: set<Ptr>, rings: Rings) {
    forall n, v :: n in nodes && v in RingOf(rings, n) ==> SameInterval(s, v, n)
  }

  /** All VMAs of the mapping: the tree nodes and the members of their rings. */
  ghost predicate InMapping(t: Tree, rings: Rings, v: Ptr) {
    v in Ptrs(t) || exists n :: n in Ptrs(t) && v in RingOf(rings, n)
  }

  /** A VMA that maps a page offset from `q.r` to `q.h`. */
  ghost predicate MapsPage(s: Space, v: Ptr, q: Query) {
    && v in s.vmas
    && s.vmas[v].pgoff <= q.h
    && q.r <= Add(s.vmas[v].pgoff, Minus(Minus(s.vmas[v].vmEnd, s.vmas[v].vmStart) / PAGE_SIZE, 1))
  }

  lemma {:induction false} WithRingsMembers(rings: Rings, nodes: seq<Ptr>, v: Ptr)
    ensures v in WithRings(rings, nodes) <==> v in nodes || exists n :: n in nodes && v in RingOf(rings, n)
  {
    if nodes == [] {
    } else {
      WithRingsMembers(rings, nodes[1..], v);
    }
  }

  lemma ListedElsewhere(all: set<Ptr>, rings: Rings, n: Ptr, nodes: seq<Ptr>, v: Ptr)
    requires RingsSeparate(all, rings) && n in all && forall m :: m in nodes ==> m in all
    requires v == n || v in RingOf(rings, n)
    requires v in WithRings(rings, nodes)
    ensures n in nodes
  {
    WithRingsMembers(rings, nodes, v);
    if v !in nodes {
      var m :| m in nodes && v in RingOf(rings, m);
      assert v !in all;
      assert n != m ==> Separate(RingOf(rings, n), RingOf(rings, m));
    }
  }

  /** A node with its ring shares no VMA with other nodes and their rings. */
  lemma RingApart(all: set<Ptr>, rings: Rings, n: Ptr, nodes: seq<Ptr>)
    requires RingsSeparate(all, rings) && n in all && n !in nodes && forall m :: m in nodes ==> m in all
    ensures Distinct([n] + RingOf(rings, n))
    ensures Separate([n] + RingOf(rings, n), WithRings(rings, nodes))
  {
    DistinctConcat([n], RingOf(rings, n));
    forall v | v in [n] + RingOf(rings, n)
      ensures v !in WithRings(rings, nodes)
    {
      if v in WithRings(rings, nodes) {
        ListedElsewhere(all, rings, n, nodes, v);
      }
    }
  }

  lemma {:induction false} WithRingsDistinct(all: set<Ptr>, rings: Rings, nodes: seq<Ptr>)
    requires RingsSeparate(all, rings) && Distinct(nodes) && forall n :: n in nodes ==> n in all
    ensures Distinct(WithRings(rings, nodes))
  {
    if nodes == [] {
    } else {
      var n, rest := nodes[0], nodes[1..];
      RingApart(all, rings, n, rest);
      WithRingsDistinct(all, rings, rest);
      DistinctConcat([n] + RingOf(rings, n), WithRings(rings, rest));
    }
  }

  lemma VmaListed(s: Space, t: Tree, rings: Rings, q: Query, v: Ptr)
    requires WellFormed(s, t) && s.root.raw && RingsSeparate(Ptrs(t), rings) && RingsAlike(s, Ptrs(t), rings)
    ensures v in WithRings(rings, Hits(s, t, q)) <==> InMapping(t, rings, v) && MapsPage(s, v, q)
  {
    SelectedExactlyOnce(s, t, q);
    NodesPresent(s, t);
    WithRingsMembers(rings, Hits(s, t, q), v);
  }

  /** The walk over a mapping reaches each VMA that maps the page, and each exactly once. */
  lemma VmasExactlyOnce(s: Space, t: Tree, rings: Rings, q: Query)
    requires WellFormed(s, t) && s.root.raw && RingsSeparate(Ptrs(t), rings) && RingsAlike(s, Ptrs(t), rings)
    ensures forall v :: v in WithRings(rings, Hits(s, t, q)) <==> InMapping(t, rings, v) && MapsPage(s, v, q)
    ensures Distinct(WithRings(rings, Hits(s, t, q)))
  {
    SelectedExactlyOnce(s, t, q);
    WithRingsDistinct(Ptrs(t), rings, Hits(s, t, q));
    forall v
      ensures v in WithRings(rings, Hits(s, t, q)) <==> InMapping(t, rings, v) && MapsPage(s, v, q)
    {
      VmaListed(s, t, rings, q, v);
    }
  }

  lemma NodesPresent(s: Space, t: Tree)
    requires HeapOrder(s, t)
    ensures forall n :: n in Ptrs(t) ==> s.HasNode(n)
  {
    forall n | n in Ptrs(t)
      ensures s.HasNode(n)
    {
      HeapBound(s, t, n);
    }
  }

  // In terms of addresses

  /** The page offset of the file that an address of the VMA shows. */
  function OffsetAt(vma: Vma, a: int): int {
    vma.pgoff + (a - vma.vmStart) / 0x1000
  }

  /** Some address of the VMA shows one of the queried pages. */
  ghost predicate Shows(vma: Vma, q: Query) {
    exists a :: vma.vmStart <= a < vma.vmEnd && q.r <= OffsetAt(vma, a) <= q.h
  }

  /** At least one page, whole pages, and page offsets that do not wrap around. */
  predicate WholePages(vma: Vma) {
    && vma.vmStart < vma.vmEnd && vma.vmStart % 0x1000 == 0 && vma.vmEnd % 0x1000 == 0
    && vma.pgoff + (vma.vmEnd - vma.vmStart) / 0x1000 <= 0x1_0000_0000_0000_0000
  }

  lemma ShowsByEnds(vma: Vma, q: Query)
    requires WholePages(vma) && q.r <= q.h
    ensures Shows(vma, q) <==> vma.pgoff <= q.h && q.r <= vma.pgoff + (vma.vmEnd - vma.vmStart) / 0x1000 - 1
  {
    var n := (vma.vmEnd - vma.vmStart) / 0x1000;
    assert vma.vmEnd == vma.vmStart + n * 0x1000;
    if vma.pgoff <= q.h && q.r <= vma.pgoff + n - 1 {
      var x := if q.r <= vma.pgoff then vma.pgoff else q.r;
      var a := vma.vmStart + (x - vma.pgoff) * 0x1000;
      assert OffsetAt(vma, a) == x;
    }
    if a :| vma.vmStart <= a < vma.vmEnd && q.r <= OffsetAt(vma, a) <= q.h {
      assert 0 <= a - vma.vmStart < n * 0x1000;
    }
  }

  lemma MapsPageMeans(s: Space, v: Ptr, q: Query)
    requires v in s.vmas && WholePages(s.vmas[v]) && q.r <= q.h
    ensures MapsPage(s, v, q) <==> Shows(s.vmas[v], q)
  {
    ShowsByEnds(s.vmas[v], q);
  }

  /** A mapping as the kernel keeps it: a sound tree and rings of VMAs of whole pages. */
  ghost predicate Mapping(s: Space, t: Tree, rings: Rings) {
    && WellFormed(s, t) && s.root.raw && RingsSeparate(Ptrs(t), rings) && RingsAlike(s, Ptrs(t), rings)
    && forall v :: InMapping(t, rings, v) ==> v in s.vmas && WholePages(s.vmas[v])
  }

  /** Each VMA of the mapping is listed exactly if one of its addresses shows a queried page, and none twice. */
  ghost predicate ListsShowing(vmas: seq<Ptr>, s: Space, t: Tree, rings: Rings, q: Query) {
    && Distinct(vmas)
    && forall v :: v in vmas <==> InMapping(t, rings, v) && v in s.vmas && Shows(s.vmas[v], q)
  }

  lemma VmasByAddress(s: Space, t: Tree, rings: Rings, q: Query)
    requires Mapping(s, t, rings) && q.r <= q.h
    ensures ListsShowing(WithRings(rings, Hits(s, t, q)), s, t, rings, q)
  {
    hide WellFormed, RingsSeparate, RingsAlike, MapsPage, Shows;
    VmasExactlyOnce(s, t, rings, q);
    forall v | InMapping(t, rings, v)
      ensures MapsPage(s, v, q) <==> Shows(s.vmas[v], q)
    {
      MapsPageMeans(s, v, q);
    }
  }

  /** The loop of `page_locate_file`: all VMAs that map the pages of the query. */
  method PageVmas(space: Space, query: Query, ghost tree: Tree, ghost rings: Rings) returns (vmas: seq<Ptr>)
    requires WellFormed(space, tree) && RingsLinked(space, tree, rings)
    ensures vmas == WithRings(rings, Hits(space, tree, query))
    ensures Mapping(space, tree, rings) && query.r <= query.h ==> ListsShowing(vmas, space, tree, rings, query)
  {
    var iter := new Iter(space, query, tree);
    vmas := [];
    ghost var i, todo := 0, WithRings(rings, iter.Rest());
    var vma := NULL;
    vma, i := VmaNext(vma, iter, rings, i);
    while vma != NULL
      invariant iter.Valid() && fresh(iter) && iter.space == space && iter.tree == tree
      invariant vma != NULL ==> At(iter.cur, rings, vma, i)
      invariant todo == if vma == NULL then [] else [vma] + VmasAfter(iter, rings, vma, i)
      invariant vmas + todo == WithRings(rings, Hits(space, tree, query))
      decreases |todo|
    {
      ghost var after := VmasAfter(iter, rings, vma, i);
      Associate(vmas, [vma], after);
      vmas := vmas + [vma];
      todo := after;
      vma, i := VmaNext(vma, iter, rings, i);
    }
    if Mapping(space, tree, rings) && query.r <= query.h {
      VmasByAddress(space, tree, rings, query);
    }
  }
}
