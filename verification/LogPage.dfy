/**
  The log of mem_leak/kerspace/huawei_log_page.c in memory: a fixed pool of records, an intrusive
  list of the free ones, a search tree of those in use, and the probe handlers' operations.
 */
module LogPage {
  import opened PageLog
  import opened RecordTree
  import opened Sequences

  const MODULE_MAX := 4
  const TRACE_LEVEL := 26

  /** `link` is the union of the next free record (as a pointer) and the order of a used one. */
  datatype Record = Record(link: nat, start: Page, end: Page, trace: Trace)

  function Fill<T>(n: nat, x: T): (s: seq<T>)
    ensures |s| == n && forall i :: 0 <= i < n ==> s[i] == x
  {
    if n == 0 then [] else Fill(n - 1, x) + [x]
  }

  /** A record after `memset(lp, 0, ...)`. */
  const ZEROED := Record(0, 0, 0, Trace(Fill(TRACE_LEVEL, 0), Fill(MODULE_MAX, None)))

  /** The pointer to a record of the pool; 0 is NULL. */
  function Pointer(lp: nat): nat { lp + 1 }

  ghost function SpanOf(pool: seq<Record>, lp: nat): Span {
    if lp < |pool| then Span(pool[lp].start, pool[lp].end, pool[lp].trace) else Span(0, 0, ZEROED.trace)
  }

  ghost function Spans(pool: seq<Record>, ids: seq<nat>): (log: Log)
    ensures |log| == |ids| && forall i :: 0 <= i < |ids| ==> log[i] == SpanOf(pool, ids[i])
  {
    if ids == [] then [] else [SpanOf(pool, ids[0])] + Spans(pool, ids[1..])
  }

  /** `chain` lists the free records in the order in which `__alloc_lp` hands them out. */
  ghost predicate Chained(pool: seq<Record>, free: nat, chain: seq<nat>)
    decreases chain
  {
    if chain == [] then free == 0
    else free == Pointer(chain[0]) && chain[0] < |pool| && Chained(pool, pool[chain[0]].link, chain[1..])
  }

  lemma {:induction false} ChainElsewhere(pool: seq<Record>, free: nat, chain: seq<nat>, lp: nat, r: Record)
    requires Chained(pool, free, chain) && lp < |pool| && lp !in chain
    ensures Chained(pool[lp := r], free, chain)
    decreases chain
  {
    if chain == [] {
    } else {
      ChainElsewhere(pool, pool[chain[0]].link, chain[1..], lp, r);
    }
  }

  /** Every record of the pool is in the tree, on the free list or held by a probe; in one of them only. */
  ghost predicate Partition(n: nat, ids: seq<nat>, chain: seq<nat>, held: set<nat>) {
    && Distinct(ids) && Distinct(chain)
    && (forall lp :: lp in ids ==> lp < n && lp !in chain && lp !in held)
    && (forall lp :: lp in chain ==> lp < n && lp !in held)
    && (forall lp :: lp in held ==> lp < n)
    && (forall lp: nat :: lp < n ==> lp in ids || lp in chain || lp in held)
  }

  /** The records `ids` are the same in both pools. */
  ghost predicate SameRecords(before: seq<Record>, after: seq<Record>, ids: set<nat>) {
    forall lp :: lp in ids && lp < |before| && lp < |after| ==> after[lp] == before[lp]
  }

  lemma SameOnward(a: seq<Record>, b: seq<Record>, c: seq<Record>, ids: set<nat>, fewer: set<nat>)
    requires SameRecords(a, b, ids) && SameRecords(b, c, fewer) && fewer <= ids && |a| == |b| == |c|
    ensures SameRecords(a, c, fewer)
  {
  }

  lemma SpansConcat(pool: seq<Record>, a: seq<nat>, b: seq<nat>)
    ensures Spans(pool, a + b) == Spans(pool, a) + Spans(pool, b)
  {
  }

  lemma SpansAround(pool: seq<Record>, a: seq<nat>, lp: nat, b: seq<nat>)
    ensures Spans(pool, a + [lp] + b) == Spans(pool, a) + [SpanOf(pool, lp)] + Spans(pool, b)
  {
  }

  lemma SpansElsewhere(pool: seq<Record>, ids: seq<nat>, lp: nat, r: Record)
    requires lp < |pool| && lp !in ids
    ensures Spans(pool[lp := r], ids) == Spans(pool, ids)
  {
  }

  lemma DistinctAround(a: seq<nat>, lp: nat, b: seq<nat>)
    requires Distinct(a + [lp] + b)
    ensures lp !in a && lp !in b && Distinct(a + b)
    ensures forall x :: x in a + b <==> x in a + [lp] + b && x != lp
  {
    var c := a + [lp] + b;
    assert c[|a|] == lp;
    assert forall i :: 0 <= i < |a| ==> c[i] == a[i];
    assert forall i :: 0 <= i < |b| ==> b[i] == c[|a| + 1 + i];
  }

  lemma DistinctInsert(a: seq<nat>, lp: nat, b: seq<nat>)
    requires Distinct(a + b) && lp !in a + b
    ensures Distinct(a + [lp] + b)
    ensures forall x :: x in a + [lp] + b <==> x in a + b || x == lp
  {
    var c, d := a + [lp] + b, a + b;
    assert forall i :: 0 <= i < |a| ==> c[i] == d[i];
    assert d[|a|..] == b && c[|a| + 1..] == b;
  }

  ghost function Range(n: nat): (r: set<nat>)
    ensures |r| == n && forall i: nat :: i in r <==> i < n
  {
    if n == 0 then {} else Range(n - 1) + {n - 1}
  }

  ghost function Elements(ids: seq<nat>): (r: set<nat>)
    ensures |r| <= |ids| && forall i :: i in r <==> i in ids
  {
    if ids == [] then {} else {ids[0]} + Elements(ids[1..])
  }

  lemma {:induction false} ElementsOfDistinct(ids: seq<nat>)
    requires Distinct(ids)
    ensures |Elements(ids)| == |ids|
  {
    if ids == [] {
    } else {
      ElementsOfDistinct(ids[1..]);
      assert ids[0] !in ids[1..];
    }
  }

  /** The three parts add up to the whole pool. */
  lemma PartitionAddsUp(n: nat, ids: seq<nat>, chain: seq<nat>, held: set<nat>)
    requires Partition(n, ids, chain, held)
    ensures |ids| + |chain| + |held| == n
  {
    ElementsOfDistinct(ids);
    ElementsOfDistinct(chain);
    var used := Elements(ids) + Elements(chain);
    assert Elements(ids) !! Elements(chain) && used !! held;
    assert Range(n) == used + held;
  }

  /** `__alloc_lp` finds a record exactly as long as tree and probes together hold fewer than all. */
  lemma FreeRecordLeft(n: nat, ids: seq<nat>, chain: seq<nat>, held: set<nat>)
    requires Partition(n, ids, chain, held)
    ensures chain != [] <==> |ids| + |held| < n
  {
    PartitionAddsUp(n, ids, chain, held);
  }

  // The steps of the operations, on the contents of the pool

  ghost predicate Ok(pool: seq<Record>, free: nat, ids: seq<nat>, chain: seq<nat>, held: set<nat>) {
    && Chained(pool, free, chain)
    && Partition(|pool|, ids, chain, held)
    && Sorted(Spans(pool, ids))
  }

  lemma PartitionTake(n: nat, ids: seq<nat>, chain: seq<nat>, held: set<nat>)
    requires Partition(n, ids, chain, held) && chain != []
    ensures Partition(n, ids, chain[1..], held + {chain[0]}) && chain[0] !in chain[1..]
  {
    assert forall x :: x in chain <==> x == chain[0] || x in chain[1..];
  }

  lemma PartitionGive(n: nat, ids: seq<nat>, chain: seq<nat>, held: set<nat>, lp: nat)
    requires Partition(n, ids, chain, held) && lp in held
    ensures Partition(n, ids, [lp] + chain, held - {lp})
  {
    assert forall x :: x in [lp] + chain <==> x == lp || x in chain;
  }

  lemma PartitionOut(n: nat, a: seq<nat>, lp: nat, b: seq<nat>, chain: seq<nat>, held: set<nat>)
    requires Partition(n, a + [lp] + b, chain, held)
    ensures Partition(n, a + b, chain, held + {lp})
  {
    DistinctAround(a, lp, b);
    assert lp in a + [lp] + b;
  }

  lemma PartitionIn(n: nat, a: seq<nat>, lp: nat, b: seq<nat>, chain: seq<nat>, held: set<nat>)
    requires Partition(n, a + b, chain, held) && lp in held
    ensures Partition(n, a + [lp] + b, chain, held - {lp})
  {
    DistinctInsert(a, lp, b);
  }

  lemma TakeFree(pool: seq<Record>, free: nat, ids: seq<nat>, chain: seq<nat>, held: set<nat>)
    requires Ok(pool, free, ids, chain, held) && chain != []
    ensures var lp := chain[0];
      && lp < |pool| && free == Pointer(lp) && lp !in held
      && Ok(pool[lp := ZEROED], pool[lp].link, ids, chain[1..], held + {lp})
      && Spans(pool[lp := ZEROED], ids) == Spans(pool, ids)
  {
    var lp := chain[0];
    PartitionTake(|pool|, ids, chain, held);
    SpansElsewhere(pool, ids, lp, ZEROED);
    ChainElsewhere(pool, pool[lp].link, chain[1..], lp, ZEROED);
  }

  lemma GiveBack(pool: seq<Record>, free: nat, ids: seq<nat>, chain: seq<nat>, held: set<nat>, lp: nat)
    requires Ok(pool, free, ids, chain, held) && lp in held
    ensures lp < |pool|
    ensures Ok(pool[lp := pool[lp].(link := free)], Pointer(lp), ids, [lp] + chain, held - {lp})
    ensures Spans(pool[lp := pool[lp].(link := free)], ids) == Spans(pool, ids)
  {
    var r := pool[lp].(link := free);
    PartitionGive(|pool|, ids, chain, held, lp);
    SpansElsewhere(pool, ids, lp, r);
    ChainElsewhere(pool, free, chain, lp, r);
    assert ([lp] + chain)[1..] == chain;
  }

  lemma WriteHeld(pool: seq<Record>, free: nat, ids: seq<nat>, chain: seq<nat>, held: set<nat>, lp: nat, r: Record)
    requires Ok(pool, free, ids, chain, held) && lp in held
    ensures lp < |pool| && Ok(pool[lp := r], free, ids, chain, held)
    ensures Spans(pool[lp := r], ids) == Spans(pool, ids)
  {
    SpansElsewhere(pool, ids, lp, r);
    ChainElsewhere(pool, free, chain, lp, r);
  }

  /** A record `lp` in the tree changes its span, within the span it had. */
  lemma WriteUsed(pool: seq<Record>, free: nat, a: seq<nat>, lp: nat, b: seq<nat>,
                  chain: seq<nat>, held: set<nat>, r: Record)
    requires Ok(pool, free, a + [lp] + b, chain, held)
    requires lp < |pool| && pool[lp].start <= r.start < r.end <= pool[lp].end
    ensures Ok(pool[lp := r], free, a + [lp] + b, chain, held)
    ensures Spans(pool[lp := r], a + [lp] + b) == Spans(pool, a) + [Span(r.start, r.end, r.trace)] + Spans(pool, b)
  {
    DistinctAround(a, lp, b);
    SpansElsewhere(pool, a, lp, r);
    SpansElsewhere(pool, b, lp, r);
    SpansAround(pool, a, lp, b);
    SpansAround(pool[lp := r], a, lp, b);
    SortedReplace(Spans(pool, a), SpanOf(pool, lp), [Span(r.start, r.end, r.trace)], Spans(pool, b));
    assert lp in a + [lp] + b;
    ChainElsewhere(pool, free, chain, lp, r);
  }

  lemma TakeOut(pool: seq<Record>, free: nat, a: seq<nat>, lp: nat, b: seq<nat>, chain: seq<nat>, held: set<nat>)
    requires Ok(pool, free, a + [lp] + b, chain, held)
    ensures Ok(pool, free, a + b, chain, held + {lp})
    ensures Spans(pool, a + b) == Spans(pool, a) + [] + Spans(pool, b)
  {
    PartitionOut(|pool|, a, lp, b, chain, held);
    SpansAround(pool, a, lp, b);
    SpansConcat(pool, a, b);
    SortedReplace(Spans(pool, a), SpanOf(pool, lp), [], Spans(pool, b));
    assert Spans(pool, a) + [] == Spans(pool, a);
  }

  lemma PutIn(pool: seq<Record>, free: nat, a: seq<nat>, lp: nat, b: seq<nat>, chain: seq<nat>, held: set<nat>)
    requires Ok(pool, free, a + b, chain, held) && lp in held
    requires Sorted(Spans(pool, a) + [SpanOf(pool, lp)] + Spans(pool, b))
    ensures Ok(pool, free, a + [lp] + b, chain, held - {lp})
    ensures Inserted(Spans(pool, a + b), Spans(pool, a + [lp] + b), SpanOf(pool, lp))
  {
    PartitionIn(|pool|, a, lp, b, chain, held);
    SpansConcat(pool, a, b);
    SpansAround(pool, a, lp, b);
    InsertBetween(Spans(pool, a), SpanOf(pool, lp), Spans(pool, b));
  }

  // Walking down the tree: what lies beside the path

  ghost predicate Below(log: Log, s: Page) {
    forall i :: 0 <= i < |log| ==> log[i].end <= s
  }

  ghost predicate Above(log: Log, e: Page) {
    forall i :: 0 <= i < |log| ==> e <= log[i].start
  }

  lemma SidesOfRecord(pool: seq<Record>, a: seq<nat>, lp: nat, b: seq<nat>)
    requires Sorted(Spans(pool, a + [lp] + b))
    ensures Below(Spans(pool, a + [lp]), SpanOf(pool, lp).end)
    ensures Above(Spans(pool, [lp] + b), SpanOf(pool, lp).start)
  {
    var log := Spans(pool, a + [lp] + b);
    assert log[|a|] == SpanOf(pool, lp);
    var l, r := Spans(pool, a + [lp]), Spans(pool, [lp] + b);
    assert forall i :: 0 <= i < |l| ==> l[i] == log[i];
    assert forall i :: 0 <= i < |r| ==> r[i] == log[|a| + i];
  }

  lemma WalkDown(pool: seq<Record>, t: Tree, p: Link)
    requires Sorted(Spans(pool, InOrder(t))) && Reaches(t, p) && At(t, p).Node?
    ensures At(t, p).lp in InOrder(t)
    ensures Below(Spans(pool, Before(t, Down(p, true))), SpanOf(pool, At(t, p).lp).end)
    ensures Above(Spans(pool, After(t, Down(p, false))), SpanOf(pool, At(t, p).lp).start)
  {
    SplitsAround(t, p);
    DownSides(t, p);
    SidesOfRecord(pool, Left(t, p), At(t, p).lp, Right(t, p));
  }

  /** A walk that ends at an empty link has passed everything on one side or the other. */
  lemma WalkEnds(pool: seq<Record>, t: Tree, p: Link, s: Page, e: Page)
    requires Sorted(Spans(pool, InOrder(t))) && Reaches(t, p) && At(t, p).Leaf? && s < e
    requires Below(Spans(pool, Before(t, p)), s) && Above(Spans(pool, After(t, p)), e)
    ensures InOrder(t) == Before(t, p) + After(t, p)
    ensures Unowned(Spans(pool, InOrder(t)), s, e)
  {
    var a, b := Before(t, p), After(t, p);
    Splits(t, p);
    assert a + [] + b == a + b;
    SpansConcat(pool, a, b);
    AvoidedIsUnowned(Spans(pool, a) + Spans(pool, b), s, e);
  }

  lemma FitsBetween(a: Log, x: Span, b: Log)
    requires Sorted(a + b) && x.start < x.end && Below(a, x.start) && Above(b, x.end)
    ensures Sorted(a + [x] + b)
  {
    SortedSplits(a, b);
    SortedJoins(a, [x]);
    SortedJoins(a + [x], b);
  }
}
