/**
  The page-ownership log of mem_leak/kerspace/huawei_log_page.c as a value: disjoint half-open
  runs of pages in ascending order, and the page-to-owner map they stand for.
 */
module PageLog {
  import opened Words

  type Page = nat

  datatype Option<T> = None | Some(value: T)

  /** What a record tells about an allocation: the call stack and the modules found on it. */
  datatype Trace = Trace(entries: seq<Ulong>, modules: seq<Option<nat>>)

  /** The pages [start, end) of one allocation. */
  datatype Span = Span(start: Page, end: Page, trace: Trace)

  type Log = seq<Span>

  ghost predicate Sorted(log: Log) {
    && (forall i :: 0 <= i < |log| ==> log[i].start < log[i].end)
    && (forall i, j :: 0 <= i < j < |log| ==> log[i].end <= log[j].start)
  }

  /** Who owns a page, if anybody does. */
  ghost function Owner(log: Log, p: Page): Option<Trace> {
    if log == [] then None
    else if log[0].start <= p < log[0].end then Some(log[0].trace)
    else Owner(log[1..], p)
  }

  /** `after` is `before` with exactly the pages [s, e) forgotten. */
  ghost predicate Freed(before: Log, after: Log, s: Page, e: Page) {
    && Sorted(after)
    && forall p: Page :: Owner(after, p) == if s <= p < e then None else Owner(before, p)
  }

  /** `after` is `before` with exactly the pages of `span` owned by its trace. */
  ghost predicate Inserted(before: Log, after: Log, span: Span) {
    && Sorted(after)
    && forall p: Page :: Owner(after, p) == if span.start <= p < span.end then Some(span.trace) else Owner(before, p)
  }

  ghost predicate Unowned(log: Log, s: Page, e: Page) {
    forall p: Page :: s <= p < e ==> Owner(log, p) == None
  }

  lemma {:induction false} OwnerConcat(a: Log, b: Log, p: Page)
    ensures Owner(a + b, p) == if Owner(a, p).Some? then Owner(a, p) else Owner(b, p)
  {
    if a == [] {
      assert a + b == b;
    } else {
      assert (a + b)[1..] == a[1..] + b;
      OwnerConcat(a[1..], b, p);
    }
  }

  lemma {:induction false} OwnerIsInside(log: Log, p: Page) returns (i: nat)
    requires Owner(log, p).Some?
    ensures i < |log| && log[i].start <= p < log[i].end && Owner(log, p) == Some(log[i].trace)
  {
    if log[0].start <= p < log[0].end {
      i := 0;
    } else {
      i := OwnerIsInside(log[1..], p);
      i := i + 1;
    }
  }

  lemma {:induction false} InsideHasOwner(log: Log, i: nat, p: Page)
    requires i < |log| && log[i].start <= p < log[i].end
    ensures Owner(log, p).Some?
    ensures Sorted(log) ==> Owner(log, p) == Some(log[i].trace)
  {
    if i == 0 {
    } else {
      InsideHasOwner(log[1..], i - 1, p);
    }
  }

  /** All of `log` lies before `s` or from `e` on. */
  ghost predicate Avoids(log: Log, s: Page, e: Page) {
    forall i :: 0 <= i < |log| ==> log[i].end <= s || e <= log[i].start
  }

  lemma AvoidedIsUnowned(log: Log, s: Page, e: Page)
    requires Avoids(log, s, e)
    ensures Unowned(log, s, e)
  {
    forall p: Page | s <= p < e
      ensures Owner(log, p) == None
    {
      if Owner(log, p).Some? {
        var i := OwnerIsInside(log, p);
      }
    }
  }

  lemma UnownedIsAvoided(log: Log, s: Page, e: Page)
    requires Sorted(log) && Unowned(log, s, e) && s < e
    ensures Avoids(log, s, e)
  {
    forall i | 0 <= i < |log|
      ensures log[i].end <= s || e <= log[i].start
    {
      var p := if log[i].start < s then s else log[i].start;
      if log[i].start <= p < log[i].end && s <= p < e {
        InsideHasOwner(log, i, p);
      }
    }
  }

  ghost predicate Within(log: Log, x: Span) {
    forall i :: 0 <= i < |log| ==> x.start <= log[i].start && log[i].end <= x.end
  }

  ghost predicate Precedes(a: Log, b: Log) {
    forall i, j :: 0 <= i < |a| && 0 <= j < |b| ==> a[i].end <= b[j].start
  }

  lemma SortedSplits(a: Log, b: Log)
    requires Sorted(a + b)
    ensures Sorted(a) && Sorted(b) && Precedes(a, b)
  {
    assert forall i :: 0 <= i < |a| ==> (a + b)[i] == a[i];
    assert forall i :: 0 <= i < |b| ==> (a + b)[|a| + i] == b[i];
  }

  lemma SortedJoins(a: Log, b: Log)
    requires Sorted(a) && Sorted(b) && Precedes(a, b)
    ensures Sorted(a + b)
  {
  }

  lemma SortedReplace(a: Log, x: Span, m: Log, b: Log)
    requires Sorted(a + [x] + b) && Sorted(m) && Within(m, x)
    ensures Sorted(a + m + b) && Avoids(a, x.start, x.end) && Avoids(b, x.start, x.end)
  {
    SortedSplits(a + [x], b);
    SortedSplits(a, [x]);
    assert (a + [x])[|a|] == x;
    assert [x][0] == x;
    SortedJoins(a, m);
    assert forall i :: 0 <= i < |a| ==> (a + [x])[i] == a[i];
    SortedJoins(a + m, b);
  }

  /**
    Every case of the free routine: the record `x` gives way to the records `m`, which own what
    `x` owned outside [s, e).
   */
  lemma FreeInside(a: Log, x: Span, m: Log, b: Log, s: Page, e: Page)
    requires Sorted(a + [x] + b) && Sorted(m) && Within(m, x) && x.start <= s <= e <= x.end
    requires forall p: Page :: Owner(m, p) == if s <= p < e then None else Owner([x], p)
    ensures Freed(a + [x] + b, a + m + b, s, e)
  {
    SortedReplace(a, x, m, b);
    AvoidedIsUnowned(a, x.start, x.end);
    AvoidedIsUnowned(b, x.start, x.end);
    forall p: Page
      ensures Owner(a + m + b, p) == if s <= p < e then None else Owner(a + [x] + b, p)
    {
      OwnerConcat(a, b, p);
      OwnerConcat(a + m, b, p);
      OwnerConcat(a, m, p);
      OwnerConcat(a + [x], b, p);
      OwnerConcat(a, [x], p);
    }
  }

  lemma FreeAll(a: Log, x: Span, b: Log)
    requires Sorted(a + [x] + b)
    ensures Freed(a + [x] + b, a + [] + b, x.start, x.end)
  {
    assert (a + [x] + b)[|a|] == x;
    FreeInside(a, x, [], b, x.start, x.end);
  }

  lemma InsertBetween(a: Log, x: Span, b: Log)
    requires Sorted(a + [x] + b)
    ensures Inserted(a + b, a + [x] + b, x)
  {
    SortedReplace(a, x, [], b);
    AvoidedIsUnowned(a, x.start, x.end);
    AvoidedIsUnowned(b, x.start, x.end);
    forall p: Page
      ensures Owner(a + [x] + b, p) == if x.start <= p < x.end then Some(x.trace) else Owner(a + b, p)
    {
      OwnerConcat(a, b, p);
      OwnerConcat(a + [x], b, p);
      OwnerConcat(a, [x], p);
    }
  }

  // Counting: disjoint non-empty runs of pages are no more than the pages they cover

  ghost function Pages(s: Page, e: Page): (ps: set<Page>)
    ensures forall p: Page :: p in ps <==> s <= p < e
    ensures s <= e ==> |ps| == e - s
  {
    if s >= e then {} else Pages(s, e - 1) + {e - 1}
  }

  ghost function Covered(log: Log): set<Page> {
    if log == [] then {} else Pages(log[0].start, log[0].end) + Covered(log[1..])
  }

  lemma {:induction false} CoveredIsOwned(log: Log, p: Page)
    ensures p in Covered(log) <==> Owner(log, p).Some?
  {
    if log == [] {
    } else {
      CoveredIsOwned(log[1..], p);
    }
  }

  /** One record a page at most; and a record of n pages leaves n - 1 records to spare. */
  lemma {:induction false} RecordsPerPage(log: Log)
    requires Sorted(log)
    ensures |log| <= |Covered(log)|
    ensures forall i :: 0 <= i < |log| ==> |log| + (log[i].end - log[i].start) - 1 <= |Covered(log)|
  {
    if log == [] {
    } else {
      var x, rest := log[0], log[1..];
      RecordsPerPage(rest);
      forall p | p in Covered(rest)
        ensures p !in Pages(x.start, x.end)
      {
        CoveredIsOwned(rest, p);
        var i := OwnerIsInside(rest, p);
      }
      assert |Covered(log)| == |Pages(x.start, x.end)| + |Covered(rest)|;
      forall i | 0 <= i < |log|
        ensures |log| + (log[i].end - log[i].start) - 1 <= |Covered(log)|
      {
        assert i > 0 ==> log[i] == rest[i - 1];
      }
    }
  }

  lemma FreedShrinks(before: Log, after: Log, s: Page, e: Page)
    requires Freed(before, after, s, e)
    ensures Covered(after) == Covered(before) - Pages(s, e)
  {
    forall p: Page
      ensures p in Covered(after) <==> p in Covered(before) && !(s <= p < e)
    {
      CoveredIsOwned(before, p);
      CoveredIsOwned(after, p);
    }
  }

  lemma InsertedGrows(before: Log, after: Log, span: Span)
    requires Inserted(before, after, span)
    ensures Covered(after) == Covered(before) + Pages(span.start, span.end)
  {
    forall p: Page
      ensures p in Covered(after) <==> p in Covered(before) || span.start <= p < span.end
    {
      CoveredIsOwned(before, p);
      CoveredIsOwned(after, p);
    }
  }

  /** Logging a block counts each of its pages once more. */
  lemma InsertedCounts(before: Log, after: Log, span: Span)
    requires Inserted(before, after, span) && Unowned(before, span.start, span.end) && span.start <= span.end
    ensures |Covered(after)| == |Covered(before)| + (span.end - span.start)
  {
    InsertedGrows(before, after, span);
    forall p: Page | span.start <= p < span.end
      ensures p !in Covered(before)
    {
      CoveredIsOwned(before, p);
    }
    assert Covered(before) !! Pages(span.start, span.end);
  }
}
