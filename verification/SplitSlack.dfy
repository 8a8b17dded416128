/**
  When a free that splits a record (mem_leak/kerspace/huawei_log_page.c, lines 603-607) can find the
  pool empty: one page more may be missing than for the entry handler.
 */
module SplitSlack {
  import opened Words
  import opened PageLog
  import opened LogProtocol

  /** The unreserved pages from `from` to `k`, each logged on its own. */
  ghost function Singles(c: Config, from: nat, k: nat): Log {
    if k <= from then []
    else Singles(c, from, k - 1) + if k - 1 in c.reserved then [] else [Span(k - 1, k, NO_TRACE)]
  }

  lemma {:induction false} SinglesSorted(c: Config, from: nat, k: nat)
    ensures var log := Singles(c, from, k);
      Sorted(log) && forall i :: 0 <= i < |log| ==> from <= log[i].start && log[i].end <= k
  {
    if k <= from {
    } else {
      SinglesSorted(c, from, k - 1);
    }
  }

  lemma {:induction false} SinglesLength(c: Config, from: nat, k: nat)
    requires from <= k
    ensures |LogAt(c, k)| == |LogAt(c, from)| + |Singles(c, from, k)|
  {
    if k == from {
    } else {
      SinglesLength(c, from, k - 1);
    }
  }

  /** All pages below `k` are in use and logged: up to `from` as `base` says, and then one by one. */
  ghost function Filling(c: Config, base: Log, from: nat, k: nat): State {
    State(BOTH, true, StatusAt(c, k), map[], base + Singles(c, from, k))
  }

  ghost predicate Base(base: Log, from: nat) {
    Sorted(base) && forall i :: 0 <= i < |base| ==> base[i].end <= from
  }

  lemma FillInserted(c: Config, base: Log, from: nat, k: nat)
    requires Base(base, from) && from <= k && k !in c.reserved
    ensures Inserted(base + Singles(c, from, k), base + Singles(c, from, k + 1), Span(k, k + 1, NO_TRACE))
  {
    var log, x := base + Singles(c, from, k), Span(k, k + 1, NO_TRACE);
    SinglesSorted(c, from, k);
    assert Sorted(log + [x] + []);
    InsertBetween(log, x, []);
    assert log + [] == log && log + [x] + [] == base + Singles(c, from, k + 1);
  }

  lemma FillNext(c: Config, base: Log, from: nat, k: nat)
    requires Leads(c, BOTH, Filling(c, base, from, k)) && Base(base, from)
    requires from <= k < c.pages && c.maxActive > 0
    ensures Leads(c, BOTH, Filling(c, base, from, k + 1))
  {
    var s, next := Filling(c, base, from, k), Filling(c, base, from, k + 1);
    if k in c.reserved {
      assert next.log == s.log && next.status == s.status;
    } else {
      hide Leads, Base, Inserted, Singles;
      FillInserted(c, base, from, k);
      var done := AllocateOne(c, BOTH, s, k, next.log);
      assert done.status == next.status;
    }
  }

  lemma {:induction false} FillAll(c: Config, base: Log, from: nat, k: nat)
    requires Leads(c, BOTH, Filling(c, base, from, from)) && Base(base, from)
    requires from <= k <= c.pages && c.maxActive > 0
    ensures Leads(c, BOTH, Filling(c, base, from, k))
    decreases k
  {
    hide Leads;
    if k == from {
    } else {
      FillAll(c, base, from, k - 1);
      FillNext(c, base, from, k - 1);
    }
  }

  /** A block of four pages is allocated by a traced call and logged. */
  lemma AllocateFour(c: Config, s: State, p: Page, log: Log) returns (done: State)
    requires Leads(c, BOTH, s) && s.calls == map[] && s.allocProbe && c.maxActive > 0
    requires Are(s.status, p, p + 4, Available) && Inserted(s.log, log, Span(p, p + 4, NO_TRACE))
    ensures Leads(c, BOTH, done) && done == s.(status := Move(s.status, p, p + 4, InUse), log := log)
  {
    hide Leads, Inserted;
    NoCallsTraced();
    assert Pow2(2) == 4;
    var span := Span(p, p + 4, NO_TRACE);
    var entered := s.(calls := map[0 := Entered(2, true, NO_TRACE)]);
    assert Enter(c, s, entered, 0, 2, NO_TRACE);
    Extend(c, BOTH, s, entered, DoEnter(0, 2, NO_TRACE));
    var got := s.(status := Move(s.status, p, p + 4, InFlight(0)), calls := map[0 := Got(span, true)]);
    assert got.calls == entered.calls[0 := Got(span, true)];
    assert Allocate(entered, got, 0, p);
    Extend(c, BOTH, entered, got, DoAllocate(0, p));
    done := s.(status := Move(s.status, p, p + 4, InUse), log := log);
    assert done.status == Move(got.status, p, p + 4, InUse) && done.calls == got.calls - {0};
    assert Return(got, done, 0);
    Extend(c, BOTH, got, done, DoReturn(0));
  }

  /** One page is freed and released. */
  lemma FreeOne(c: Config, s: State, p: Page, log: Log) returns (done: State)
    requires Leads(c, BOTH, s) && s.freeProbes == BOTH && p in s.status && s.status[p] == InUse
    requires forall q :: q in s.status ==> s.status[q] != Leaving(0)
    requires Freed(s.log, log, p, p + 1)
    ensures Leads(c, BOTH, done) && done == s.(status := s.status[p := Available], log := log)
  {
    hide Leads, Freed;
    assert Pow2(0) == 1;
    var leaving := s.(status := s.status[p := Leaving(0)], log := log);
    assert leaving.status == Move(s.status, p, p + 1, Leaving(0));
    assert LogProtocol.Free(s, leaving, 0, FreePagesOk, p, 0, 0);
    Extend(c, BOTH, s, leaving, DoFree(0, FreePagesOk, p, 0, 0));
    done := s.(status := s.status[p := Available], log := log);
    assert Release(leaving, done, 0);
    Extend(c, BOTH, leaving, done, DoRelease(0));
  }

  /** Four unreserved pages in a row. */
  ghost predicate FourPages(c: Config, p: Page) {
    p + 4 <= c.pages && p !in c.reserved && p + 1 !in c.reserved && p + 2 !in c.reserved && p + 3 !in c.reserved
  }

  /** The pages below `p`, and then a record of three pages, left over from a block of four. */
  ghost function WithThree(c: Config, p: Page): Log {
    LogAt(c, p) + [Span(p, p + 3, NO_TRACE)]
  }

  lemma ThreeLogs(c: Config, p: Page)
    ensures var four := LogAt(c, p) + [Span(p, p + 4, NO_TRACE)];
      Inserted(LogAt(c, p), four, Span(p, p + 4, NO_TRACE)) && Freed(four, WithThree(c, p), p + 3, p + 4)
    ensures Base(WithThree(c, p), p + 3)
  {
    var a, x, y := LogAt(c, p), Span(p, p + 4, NO_TRACE), Span(p, p + 3, NO_TRACE);
    LogAtSorted(c, p);
    assert Sorted(a + [x] + []);
    InsertBetween(a, x, []);
    FreeInside(a, x, [y], [], p + 3, p + 4);
    assert a + [] == a && a + [x] + [] == a + [x] && a + [y] + [] == a + [y];
  }

  lemma ReachThree(c: Config, p: Page)
    requires Possible(c) && FourPages(c, p) && c.maxActive > 0
    ensures Leads(c, BOTH, Filling(c, WithThree(c, p), p + 3, p + 3))
  {
    hide Leads, Inserted, Freed, LogAt, Base;
    AllocateAll(c, BOTH, p);
    ThreeLogs(c, p);
    var s, four := Idle(c, BOTH, true, p), LogAt(c, p) + [Span(p, p + 4, NO_TRACE)];
    var used := AllocateFour(c, s, p, four);
    assert used.status == StatusAt(c, p + 4);
    var done := FreeOne(c, used, p + 3, WithThree(c, p));
    assert done.status == StatusAt(c, p + 3);
    assert WithThree(c, p) + Singles(c, p + 3, p + 3) == WithThree(c, p);
  }

  lemma ThreeCounts(c: Config, p: Page)
    requires Possible(c) && FourPages(c, p)
    ensures |WithThree(c, p) + Singles(c, p + 3, c.pages)| + |c.reserved| + 2 == c.pages
  {
    SinglesLength(c, p + 3, c.pages);
    assert |LogAt(c, p + 1)| == |LogAt(c, p)| + 1 && |LogAt(c, p + 2)| == |LogAt(c, p)| + 2;
    LogAtLength(c, c.pages);
    assert ReservedBelow(c, c.pages) == c.reserved;
  }

  /** The record of three pages may have to be split, and no record is left. */
  lemma NoRecordToSplit(c: Config, p: Page) returns (last: State)
    requires Possible(c) && FourPages(c, p) && c.maxActive >= |c.reserved| + 2
    ensures Leads(c, BOTH, last) && !SplitRecordLeft(c, last)
  {
    hide Leads, Singles, LogAt, StatusAt;
    ReachThree(c, p);
    ThreeLogs(c, p);
    FillAll(c, WithThree(c, p), p + 3, c.pages);
    var s := Filling(c, WithThree(c, p), p + 3, c.pages);
    EnterMany(c, s, |c.reserved| + 2);
    ThreeCounts(c, p);
    last := s.(calls := Calls(|c.reserved| + 2));
    assert last.log[|LogAt(c, p)|] == Span(p, p + 3, NO_TRACE);
  }

  /**
    "cannot be NULL" for a split: over all runs a record is left exactly if at most one more traced
    call can run than there are pages in use for good. It takes a block of four pages to need one.
   */
  lemma SplitRecordLeftExactly(c: Config, p: Page)
    requires Possible(c) && FourPages(c, p)
    ensures (forall s :: Leads(c, BOTH, s) ==> SplitRecordLeft(c, s)) <==> c.maxActive <= |c.reserved| + 1
  {
    if c.maxActive <= |c.reserved| + 1 {
      forall s | Leads(c, BOTH, s)
        ensures SplitRecordLeft(c, s)
      {
        var states, steps :| Run(c, BOTH, states, steps) && states[|states| - 1] == s;
        RunInv(c, states, steps, |states| - 1);
        InvHasRoom(c, s);
      }
    } else {
      var last := NoRecordToSplit(c, p);
    }
  }
}
