/**
  The operations of mem_leak/kerspace/huawei_log_page.c on the shared log. Each handler body is
  one atomic step here; the source takes its locks for parts of a handler only.
 */
module PageLogger {
  import opened Words
  import opened PageLog
  import opened RecordTree
  import opened LogPage
  import opened CallStack
  import opened RecordReuse

  class Logger {
    const pool: array<Record>
    /** What rebalancing does to the tree, which may differ from step to step. */
    const rebalance: (nat, Tree) -> Tree
    var step: nat
    var free: nat
    var root: Tree
    ghost var chain: seq<nat>
    ghost var held: set<nat>

    ghost predicate Valid()
      reads this, pool
    {
      && (forall n, t :: InOrder(rebalance(n, t)) == InOrder(t))
      && Ok(pool[..], free, InOrder(root), chain, held)
    }

    ghost function Log(): Log
      reads this, pool
    {
      Spans(pool[..], InOrder(root))
    }

    lemma InPool(lp: nat)
      requires Valid() && lp in InOrder(root)
      ensures lp < pool.Length
    {
    }

    /** `find_lp` finds no record only for a page that nobody owns. */
    lemma FoundNone(p: Link, start: Page)
      requires Valid() && Reaches(root, p) && At(root, p).Leaf?
      requires Below(Spans(pool[..], Before(root, p)), start) && Above(Spans(pool[..], After(root, p)), start + 1)
      ensures Owner(Log(), start) == None
    {
      WalkEnds(pool[..], root, p, start, start + 1);
    }

    /** Pages without an owner need not be forgotten. */
    lemma NothingThere(start: Page, done: Page, upTo: Page)
      requires Valid() && Owner(Log(), start) == None && start <= done
      requires upTo == if done == start then start + 1 else done
      ensures Freed(Log(), Log(), done, upTo)
    {
      hide Owner, Chained, Partition, InOrder;
    }

    /** What `find_lp` finds owns the page it was asked for. */
    lemma FoundOwner(lp: nat, p: Link, start: Page, done: Page)
      requires Valid() && Reaches(root, p) && At(root, p).Node? && lp == At(root, p).lp && lp < pool.Length
      requires pool[lp].start <= start < pool[lp].end && Unowned(Log(), start, done)
      ensures done <= start
    {
      hide Chained, Partition, InOrder, Reaches;
      OwnedByRecord(pool[..], root, p);
      assert Owner(Log(), start).Some?;
    }

    lemma Spare(lp: nat, p: Link)
      requires Valid() && Reaches(root, p) && At(root, p).Node? && lp == At(root, p).lp && lp < pool.Length
      requires pool[lp].start + 3 <= pool[lp].end && |Covered(Log())| + |held| <= pool.Length + 1
      ensures chain != []
    {
      hide Chained, Partition, InOrder, Reaches;
      RecordToSpare(pool[..], root, p, chain, held);
    }

    /** `init_lp_pool`: every record of the fresh pool goes onto the free list. */
    constructor (n: nat, rebalance: (nat, Tree) -> Tree)
      requires forall k, t :: InOrder(rebalance(k, t)) == InOrder(t)
      ensures Valid() && fresh(pool) && pool.Length == n && Log() == [] && held == {}
    {
      pool := new Record[n];
      this.rebalance := rebalance;
      step, free, root, chain, held := 0, 0, Leaf, [], Range(n);
      new;
      for i := 0 to n
        invariant Valid() && Log() == [] && root == Leaf
        invariant forall lp: nat :: lp in held <==> i <= lp < n
      {
        FreeLp(i);
      }
    }

    /** `alloc_lp`: takes a zeroed record from the free list. */
    method AllocLp() returns (lp: nat)
      requires Valid() && chain != []
      modifies pool, `free, `chain, `held
      ensures Valid() && Log() == old(Log())
      ensures lp < pool.Length && lp !in old(held) && held == old(held) + {lp}
      ensures lp == old(chain)[0] && chain == old(chain)[1..]
      ensures pool[..] == old(pool[..])[lp := ZEROED] && SameRecords(old(pool[..]), pool[..], old(held))
      ensures pool[lp].link == pool[lp].start == pool[lp].end == 0
      ensures forall a :: a in pool[lp].trace.entries ==> a == 0
      ensures forall m :: m in pool[lp].trace.modules ==> m == None
    {
      TakeFree(pool[..], free, InOrder(root), chain, held);
      lp := free - 1;
      free := pool[lp].link;
      pool[lp] := ZEROED;
      chain, held := chain[1..], held + {lp};
      assert pool[..] == old(pool[..])[lp := ZEROED];
    }

    /** `free_lp`: only the union word of the record is overwritten, and no other record. */
    method FreeLp(lp: nat)
      requires Valid() && lp in held
      modifies pool, `free, `chain, `held
      ensures Valid() && Log() == old(Log())
      ensures held == old(held) - {lp} && chain == [lp] + old(chain) && lp < pool.Length
      ensures pool[..] == old(pool[..])[lp := old(pool[lp]).(link := old(free))]
      ensures SameRecords(old(pool[..]), pool[..], held)
    {
      GiveBack(pool[..], free, InOrder(root), chain, held, lp);
      var r := pool[lp].(link := free);
      pool[lp] := r;
      free := Pointer(lp);
      chain, held := [lp] + chain, held - {lp};
      assert pool[..] == old(pool[..])[lp := r];
    }

    /** The descent of `log_page_insert` to the empty link where [s, end) belongs. */
    method FindLink(s: Page, end: Page) returns (p: Link)
      requires Valid() && s < end && Unowned(Log(), s, end)
      ensures Reaches(root, p) && At(root, p).Leaf?
      ensures Below(Spans(pool[..], Before(root, p)), s)
      ensures Above(Spans(pool[..], After(root, p)), end)
    {
      hide Chained, Partition, InOrder, Spans, Sorted, Owner;
      var node := root;
      p := Root;
      UnownedIsAvoided(Log(), s, end);
      while node.Node?
        invariant Reaches(root, p) && At(root, p) == node
        invariant Below(Spans(pool[..], Before(root, p)), s)
        invariant Above(Spans(pool[..], After(root, p)), end)
        decreases node
      {
        WalkDown(pool[..], root, p);
        InPool(node.lp);
        PassesBy(pool[..], InOrder(root), node.lp, s, end);
        if end <= pool[node.lp].start {
          p, node := Down(p, false), node.left;
        } else {
          p, node := Down(p, true), node.right;
        }
      }
    }

    /** `log_page_insert`: hangs a record into the tree, at the place its end page leads to. */
    method Insert(lp: nat)
      requires Valid() && lp in held && lp < pool.Length && pool[lp].start < pool[lp].end
      requires Unowned(Log(), pool[lp].start, pool[lp].end)
      modifies `root, `step, `held
      ensures Valid() && held == old(held) - {lp}
      ensures Inserted(old(Log()), Log(), SpanOf(pool[..], lp))
    {
      var p := FindLink(pool[lp].start, pool[lp].end);
      InsertAt(pool[..], free, root, p, lp, chain, held);
      root := rebalance(step, Set(root, p, Node(Leaf, lp, Leaf)));
      step := step + 1;
      held := held - {lp};
    }

    /** `find_lp`: the record that holds a page, with its place in the tree. */
    method Find(start: Page) returns (found: bool, lp: nat, p: Link)
      requires Valid()
      ensures !found ==> Owner(Log(), start) == None
      ensures found ==> Reaches(root, p) && At(root, p).Node? && lp == At(root, p).lp && lp < pool.Length
      ensures found ==> pool[lp].start <= start < pool[lp].end
    {
      hide Chained, Partition, InOrder, Spans, Sorted, Owner;
      lp, p := 0, Root;
      var node := root;
      while node.Node?
        invariant Reaches(root, p) && At(root, p) == node
        invariant Below(Spans(pool[..], Before(root, p)), start)
        invariant Above(Spans(pool[..], After(root, p)), start + 1)
        decreases node
      {
        WalkDown(pool[..], root, p);
        InPool(node.lp);
        lp := node.lp;
        if start < pool[lp].start {
          p, node := Down(p, false), node.left;
        } else if start >= pool[lp].end {
          p, node := Down(p, true), node.right;
        } else {
          return true, lp, p;
        }
      }
      FoundNone(p, start);
      return false, lp, p;
    }

    /** `rb_erase`: the record leaves the tree; its span is forgotten. */
    method Erase(lp: nat, p: Link)
      requires Valid() && Reaches(root, p) && At(root, p).Node? && lp == At(root, p).lp
      modifies `root, `step, `held
      ensures Valid() && held == old(held) + {lp} && lp < pool.Length
      ensures Freed(old(Log()), Log(), pool[lp].start, pool[lp].end)
    {
      EraseAt(pool[..], free, root, p, chain, held);
      root := rebalance(step, Unlink(root, p));
      step := step + 1;
      held := held + {lp};
    }

    /** Cuts [s, e) off one end of a record in the tree. */
    method Trim(lp: nat, ghost p: Link, start: Page, end: Page, ghost s: Page, ghost e: Page)
      requires Valid() && Reaches(root, p) && At(root, p).Node? && lp == At(root, p).lp && lp < pool.Length
      requires start < end
      requires (start == e && s == pool[lp].start && end == pool[lp].end && s <= e)
            || (end == s && e == pool[lp].end && start == pool[lp].start && s <= e)
      modifies pool
      ensures Valid() && Freed(old(Log()), Log(), s, e)
      ensures pool[..] == old(pool[..])[lp := old(pool[lp]).(start := start, end := end)]
      ensures SameRecords(old(pool[..]), pool[..], held)
    {
      var r := pool[lp].(start := start, end := end);
      UsedNotHeld(pool.Length, root, p, chain, held);
      TrimAt(pool[..], free, root, p, chain, held, r, s, e);
      pool[lp] := r;
      assert pool[..] == old(pool[..])[lp := r];
    }

    /** Case 3.1: the middle of a record goes, and what is behind it becomes a record of its own. */
    method Split(lp: nat, ghost p: Link, start: Page, end: Page)
      requires Valid() && Reaches(root, p) && At(root, p).Node? && lp == At(root, p).lp && lp < pool.Length
      requires pool[lp].start < start < end < pool[lp].end
      requires chain != []
      modifies pool, `free, `chain, `held, `root, `step
      ensures Valid() && held == old(held) && Freed(old(Log()), Log(), start, end)
      ensures SameRecords(old(pool[..]), pool[..], held)
    {
      hide Chained, InOrder, Spans, Sorted, Reaches;
      ghost var log, t := Log(), root;
      var last := pool[lp].end;
      OwnedByRecord(pool[..], root, p);
      var newLp := AllocLp();
      assert lp in InOrder(root) && newLp in held;
      WriteHeld(pool[..], free, InOrder(root), chain, held, newLp, pool[lp].(start := end));
      pool[newLp] := pool[lp].(start := end);
      Trim(lp, p, pool[lp].start, start, start, last);
      ghost var cut := Log();
      Insert(newLp);
      SplitFrees(log, cut, Log(), start, Span(end, last, pool[newLp].trace));
    }

    /** The record leaves the tree and goes back onto the free list; its fields can still be read. */
    method EraseAndFree(lp: nat, p: Link)
      requires Valid() && Reaches(root, p) && At(root, p).Node? && lp == At(root, p).lp && lp < pool.Length
      modifies pool, `free, `chain, `held, `root, `step
      ensures Valid() && held == old(held) && SameRecords(old(pool[..]), pool[..], held)
      ensures pool[lp].end == old(pool[lp].end)
      ensures Freed(old(Log()), Log(), old(pool[lp].start), old(pool[lp].end))
    {
      hide Chained, InOrder, Spans, Sorted, Reaches, Freed;
      UsedNotHeld(pool.Length, root, p, chain, held);
      Erase(lp, p);
      FreeLp(lp);
    }

    /** One round of the loop: the part of [start, end) that `find_lp` finds a record for, or one page. */
    method FreeSome(start: Page, end: Page, ghost done: Page) returns (next: Page, ghost upTo: Page)
      requires Valid() && start <= done <= end && start < end && Unowned(Log(), start, done)
      requires |Covered(Log())| + |held| <= pool.Length + 1
      modifies pool, `free, `chain, `held, `root, `step
      ensures Valid() && held == old(held)
      ensures start <= next <= upTo <= end && done <= upTo
      ensures next == start ==> done == start && upTo == end
      ensures Freed(old(Log()), Log(), done, upTo)
      ensures SameRecords(old(pool[..]), pool[..], held)
    {
      hide *;
      var found, lp, p := Find(start);
      if !found {
        next := start + 1;
        upTo := if done == start then start + 1 else done;
        NothingThere(start, done, upTo);
        Unchanged(pool[..], held);
        return;
      }
      FoundOwner(lp, p, start, done);
      upTo := end;
      if start == pool[lp].start {
        if end < pool[lp].end {
          Trim(lp, p, end, pool[lp].end, start, end);
          next := end;
        } else if end == pool[lp].end {
          EraseAndFree(lp, p);
          next := end;
        } else {
          EraseAndFree(lp, p);
          next := pool[lp].end;
          upTo := next;
        }
      } else if end < pool[lp].end {
        Spare(lp, p);
        Split(lp, p, start, end);
        next := start;
      } else if end == pool[lp].end {
        Trim(lp, p, pool[lp].start, start, start, end);
        next := end;
      } else {
        next := pool[lp].end;
        upTo := next;
        Trim(lp, p, pool[lp].start, start, start, next);
      }
    }

    /**
      `do_log_page_free`: forgets exactly the pages of the block, and stops exactly at its end. The
      records that probes hold are not touched.
     */
    method Free(page: Page, order: nat)
      requires Valid()
      requires |Covered(Log())| + |held| <= pool.Length + 1
      modifies pool, `free, `chain, `held, `root, `step
      ensures Valid() && held == old(held)
      ensures Freed(old(Log()), Log(), page, page + Pow2(order))
      ensures SameRecords(old(pool[..]), pool[..], held)
    {
      var start, end := page, page + Pow2(order);
      ghost var done := start;
      while true
        invariant Valid() && held == old(held)
        invariant page <= start <= done <= end && start < end
        invariant Freed(old(Log()), Log(), page, done)
        invariant SameRecords(old(pool[..]), pool[..], held)
        decreases end - start, end - done
      {
        FreedShrinks(old(Log()), Log(), page, done);
        ghost var before := pool[..];
        start, done := FreeSome(start, end, done);
        SameOnward(old(pool[..]), before, pool[..], held, held);
        if start == end {
          break;
        }
      }
    }

    /** The entry handler of the allocator's probe takes a record before the allocator runs. */
    method EntryHandler(si: nat, dump: seq<Ulong>, moduleOf: Ulong -> Option<nat>) returns (lp: nat)
      requires Valid() && |Log()| + |held| < pool.Length
      modifies pool, `free, `chain, `held
      ensures Valid() && Log() == old(Log())
      ensures lp !in old(held) && held == old(held) + {lp} && lp < pool.Length
      ensures old(chain) != [] && chain == old(chain)[1..]
      ensures pool[lp].link == si && pool[lp].trace == TraceOf(dump, moduleOf)
      ensures Keeps(pool[lp].trace, dump, moduleOf)
      ensures SameRecords(old(pool[..]), pool[..], old(held))
    {
      hide Chained, Sorted, Fit, ModuleTable, InOrder, Keeps;
      TraceKept(dump, moduleOf);
      FreeRecordLeft(pool.Length, InOrder(root), chain, held);
      lp := AllocLp();
      var entries := SaveStack(dump);
      var modules := SaveModules(entries, moduleOf);
      var r := pool[lp].(link := si, trace := Trace(entries, modules));
      WriteHeld(pool[..], free, InOrder(root), chain, held, lp, r);
      pool[lp] := r;
      assert pool[..] == old(pool[..])[lp := r];
    }

    /** The return handler logs the block under the record of its probe, or gives the record back. */
    method ReturnHandler(page: Option<Page>, lp: nat)
      requires Valid() && lp in held && lp < pool.Length
      requires page.Some? ==> Unowned(Log(), page.value, page.value + Pow2(pool[lp].link))
      modifies pool, `free, `chain, `held, `root, `step
      ensures Valid() && held == old(held) - {lp}
      ensures SameRecords(old(pool[..]), pool[..], held)
      ensures page == None ==> Log() == old(Log())
      ensures page.Some? ==> chain == old(chain)
      ensures page.Some? ==> Inserted(old(Log()), Log(),
                Span(page.value, page.value + Pow2(old(pool[lp].link)), old(pool[lp].trace)))
      ensures page.Some? ==> |Covered(Log())| == |old(Covered(Log()))| + Pow2(old(pool[lp].link))
    {
      if page == None {
        FreeLp(lp);
        return;
      }
      var r := pool[lp].(start := page.value, end := page.value + Pow2(pool[lp].link));
      WriteHeld(pool[..], free, InOrder(root), chain, held, lp, r);
      pool[lp] := r;
      assert pool[..] == old(pool[..])[lp := r];
      Insert(lp);
      InsertedCounts(old(Log()), Log(), Span(r.start, r.end, r.trace));
    }

    /** Another handler writes the pages of a record it holds, before it takes the lock of the tree. */
    method WritePages(lp: nat, start: Page, end: Page)
      requires Valid() && lp in held
      modifies pool
      ensures Valid() && Log() == old(Log()) && lp < pool.Length
      ensures pool[..] == old(pool[..])[lp := old(pool[lp]).(start := start, end := end)]
    {
      hide Chained, Partition, InOrder, Sorted, Spans;
      HeldInPool(lp);
      var r := pool[lp].(start := start, end := end);
      WriteHeld(pool[..], free, InOrder(root), chain, held, lp, r);
      pool[lp] := r;
      assert pool[..] == old(pool[..])[lp := r];
    }

    lemma HeldInPool(lp: nat)
      requires Valid() && lp in held
      ensures lp < pool.Length && lp !in chain
    {
    }

    lemma FreeTellsChain()
      requires Valid()
      ensures free == 0 <==> chain == []
    {
    }

    /**
      Case 2.3 reads the end page of a record after putting it back, while other handlers may run:
      what it reads is what `EndRead` says, the old end page unless the record is handed on.
     */
    method EndAfterFree(lp: nat, others: seq<Other>, owned: set<nat>) returns (end: Page)
      requires Valid() && lp in held && lp < pool.Length && owned <= held && lp !in owned
      modifies pool, `free, `chain, `held
      ensures Valid() && Log() == old(Log())
      ensures end == EndRead([lp] + old(chain), owned, lp, others, old(pool[lp].end))
      ensures !HandedOn([lp] + old(chain), owned, lp, others) ==> end == old(pool[lp].end)
    {
      hide *;
      var mine := owned;
      ghost var right := EndRead([lp] + chain, owned, lp, others, pool[lp].end);
      if !HandedOn([lp] + chain, owned, lp, others) {
        NotHandedOn([lp] + chain, owned, lp, others, pool[lp].end);
      }
      FreeLp(lp);
      assert others[0..] == others;
      for i := 0 to |others|
        invariant Valid() && Log() == old(Log()) && mine <= held && lp < pool.Length
        invariant right == EndRead(chain, mine, lp, others[i..], pool[lp].end)
      {
        FreeTellsChain();
        EndStep(chain, mine, lp, others[i..], pool[lp].end);
        assert others[i..][1..] == others[i + 1..];
        match others[i]
        case Takes(s, e) =>
          if free != 0 {
            var x := AllocLp();
            WritePages(x, s, e);
            mine := mine + {x};
          }
        case PutsBack(x) =>
          if x in mine {
            FreeLp(x);
            mine := mine - {x};
          }
      }
      end := pool[lp].end;
      EndStep(chain, mine, lp, others[|others|..], pool[lp].end);
    }
  }

  /** A record that is split has at least three pages: with it, the tree leaves two records to spare. */
  lemma RecordToSpare(pool: seq<Record>, t: Tree, p: Link, chain: seq<nat>, held: set<nat>)
    requires Partition(|pool|, InOrder(t), chain, held) && Sorted(Spans(pool, InOrder(t)))
    requires Reaches(t, p) && At(t, p).Node? && SpanOf(pool, At(t, p).lp).start + 3 <= SpanOf(pool, At(t, p).lp).end
    ensures |Covered(Spans(pool, InOrder(t)))| + |held| + |chain| >= |pool| + 2
  {
    hide Chained, Reaches, Covered;
    SplitsAround(t, p);
    var log := Spans(pool, InOrder(t));
    assert log[|Left(t, p)|] == SpanOf(pool, At(t, p).lp);
    RecordsPerPage(log);
    PartitionAddsUp(|pool|, InOrder(t), chain, held);
  }

  /** The pages of a record in the tree are owned by its trace. */
  lemma OwnedByRecord(pool: seq<Record>, t: Tree, p: Link)
    requires Sorted(Spans(pool, InOrder(t))) && Reaches(t, p) && At(t, p).Node?
    ensures At(t, p).lp in InOrder(t)
    ensures var x := SpanOf(pool, At(t, p).lp);
      forall q: Page :: x.start <= q < x.end ==> Owner(Spans(pool, InOrder(t)), q) == Some(x.trace)
  {
    var a, lp, b := Left(t, p), At(t, p).lp, Right(t, p);
    SplitsAround(t, p);
    var log := Spans(pool, InOrder(t));
    assert log[|a|] == SpanOf(pool, lp);
    forall q: Page | log[|a|].start <= q < log[|a|].end
      ensures Owner(log, q) == Some(log[|a|].trace)
    {
      InsideHasOwner(log, |a|, q);
    }
  }

  lemma Unchanged(pool: seq<Record>, ids: set<nat>)
    ensures SameRecords(pool, pool, ids)
  {
  }

  /** A record in the tree is held by no probe. */
  lemma UsedNotHeld(n: nat, t: Tree, p: Link, chain: seq<nat>, held: set<nat>)
    requires Partition(n, InOrder(t), chain, held) && Reaches(t, p) && At(t, p).Node?
    ensures At(t, p).lp !in held
  {
    SplitsAround(t, p);
    assert At(t, p).lp in InOrder(t);
  }

  lemma SplitFrees(before: Log, cut: Log, after: Log, s: Page, rest: Span)
    requires Freed(before, cut, s, rest.end) && Inserted(cut, after, rest) && s <= rest.start < rest.end
    requires forall q: Page :: rest.start <= q < rest.end ==> Owner(before, q) == Some(rest.trace)
    ensures Freed(before, after, s, rest.start)
  {
  }

  lemma EraseAt(pool: seq<Record>, free: nat, t: Tree, p: Link, chain: seq<nat>, held: set<nat>)
    requires Ok(pool, free, InOrder(t), chain, held) && Reaches(t, p) && At(t, p).Node?
    ensures var lp := At(t, p).lp;
      && lp < |pool|
      && Ok(pool, free, InOrder(Unlink(t, p)), chain, held + {lp})
      && Freed(Spans(pool, InOrder(t)), Spans(pool, InOrder(Unlink(t, p))), pool[lp].start, pool[lp].end)
  {
    var lp, a, b := At(t, p).lp, Left(t, p), Right(t, p);
    SplitsAround(t, p);
    UnlinkInOrder(t, p);
    assert lp in a + [lp] + b;
    TakeOut(pool, free, a, lp, b, chain, held);
    SpansAround(pool, a, lp, b);
    FreeAll(Spans(pool, a), SpanOf(pool, lp), Spans(pool, b));
  }

  lemma TrimAt(pool: seq<Record>, free: nat, t: Tree, p: Link, chain: seq<nat>, held: set<nat>,
               r: Record, s: Page, e: Page)
    requires Ok(pool, free, InOrder(t), chain, held) && Reaches(t, p) && At(t, p).Node? && At(t, p).lp < |pool|
    requires var x := pool[At(t, p).lp];
      && r.start < r.end && r.trace == x.trace && s <= e
      && ((r.start == e && s == x.start && r.end == x.end) || (r.end == s && e == x.end && r.start == x.start))
    ensures Ok(pool[At(t, p).lp := r], free, InOrder(t), chain, held)
    ensures Freed(Spans(pool, InOrder(t)), Spans(pool[At(t, p).lp := r], InOrder(t)), s, e)
  {
    hide Chained, Partition, InOrder, Freed, Reaches;
    var lp, a, b := At(t, p).lp, Left(t, p), Right(t, p);
    SplitsAround(t, p);
    WriteUsed(pool, free, a, lp, b, chain, held, r);
    SpansAround(pool, a, lp, b);
    FreeInside(Spans(pool, a), SpanOf(pool, lp), [Span(r.start, r.end, r.trace)], Spans(pool, b), s, e);
  }

  lemma PassesBy(pool: seq<Record>, ids: seq<nat>, lp: nat, s: Page, e: Page)
    requires Avoids(Spans(pool, ids), s, e) && lp in ids
    ensures SpanOf(pool, lp).end <= s || e <= SpanOf(pool, lp).start
  {
    var i :| 0 <= i < |ids| && ids[i] == lp;
    assert Spans(pool, ids)[i] == SpanOf(pool, lp);
  }

  lemma InsertAt(pool: seq<Record>, free: nat, t: Tree, p: Link, lp: nat, chain: seq<nat>, held: set<nat>)
    requires Ok(pool, free, InOrder(t), chain, held) && lp in held && lp < |pool| && pool[lp].start < pool[lp].end
    requires Reaches(t, p) && At(t, p).Leaf?
    requires Below(Spans(pool, Before(t, p)), pool[lp].start) && Above(Spans(pool, After(t, p)), pool[lp].end)
    ensures var t' := Set(t, p, Node(Leaf, lp, Leaf));
      && Ok(pool, free, InOrder(t'), chain, held - {lp})
      && Inserted(Spans(pool, InOrder(t)), Spans(pool, InOrder(t')), SpanOf(pool, lp))
  {
    hide Chained, Partition, Inserted;
    var a, b := Before(t, p), After(t, p);
    WalkEnds(pool, t, p, pool[lp].start, pool[lp].end);
    SpansConcat(pool, a, b);
    FitsBetween(Spans(pool, a), SpanOf(pool, lp), Spans(pool, b));
    PutIn(pool, free, a, lp, b, chain, held);
    SetInOrder(t, p, Node(Leaf, lp, Leaf));
    assert InOrder(Node(Leaf, lp, Leaf)) == [lp];
  }
}
