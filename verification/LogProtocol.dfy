/**
  The probes of mem_leak/kerspace/huawei_log_page.c as a state machine: allocator calls with
  their entry and return handlers, frees with their probe, and the registration of the probes,
  interleaved in any way. `ProbedLogger.Probed` shows that the handlers on the real log are these steps.
 */
module LogProtocol {
  import opened Words
  import opened PageLog

  type Task = nat

  datatype FreeFunction = FreePagesOk | FreeHotColdPage

  const BOTH: set<FreeFunction> := {FreePagesOk, FreeHotColdPage}

  /**
    Where a page is: with the allocator; handed out to a call that has not returned; in use; past
    the free probe but not yet released; or in use since before the probes and for good.
   */
  datatype Status = Available | InFlight(t: Task) | InUse | Leaving(t: Task) | Reserved

  /** A call of the allocator; `traced` if its entry handler ran and holds a record. */
  datatype Call =
    | Entered(order: nat, traced: bool, trace: Trace)
    | Got(span: Span, traced: bool)

  /**
    `pages` is the number of page frames and of records in the pool, `maxActive` that of traced
    calls at a time; the pages in `reserved` were in use before and stay in use for good.
   */
  datatype Config = Config(pages: nat, maxActive: nat, reserved: set<Page>)

  datatype State = State(
    freeProbes: set<FreeFunction>,
    allocProbe: bool,
    status: map<Page, Status>,
    calls: map<Task, Call>,
    log: Log)

  ghost function Traced(calls: map<Task, Call>): set<Task> {
    set t | t in calls && calls[t].traced
  }

  /** All pages of [first, end) are in the state `st`. */
  ghost predicate Are(status: map<Page, Status>, first: Page, end: Page, st: Status) {
    forall p: Page :: first <= p < end ==> p in status && status[p] == st
  }

  ghost function Move(status: map<Page, Status>, first: Page, end: Page, st: Status): map<Page, Status> {
    map p | p in status :: if first <= p < end then st else status[p]
  }

  ghost predicate Init(c: Config, s: State) {
    && s.freeProbes == {} && !s.allocProbe && s.calls == map[] && s.log == []
    && (forall p: Page :: p in s.status <==> p < c.pages)
    && c.reserved <= s.status.Keys
    && forall p :: p in s.status ==>
         !s.status[p].InFlight? && !s.status[p].Leaving? && (s.status[p] == Reserved <==> p in c.reserved)
  }

  // The steps

  ghost predicate RegisterFree(s: State, s': State, f: FreeFunction) {
    s' == s.(freeProbes := s.freeProbes + {f})
  }

  /** The allocator's probe is planted once the probes of `first` are; in `register_probes`, both. */
  ghost predicate RegisterAlloc(s: State, s': State, first: set<FreeFunction>) {
    && first <= s.freeProbes
    && s' == s.(allocProbe := true)
  }

  ghost predicate Enter(c: Config, s: State, s': State, t: Task, order: nat, trace: Trace) {
    && t !in s.calls
    && s' == s.(calls := s.calls[t := Entered(order, s.allocProbe && |Traced(s.calls)| < c.maxActive, trace)])
  }

  ghost predicate Allocate(s: State, s': State, t: Task, page: Page) {
    && t in s.calls && s.calls[t].Entered?
    && var call, end := s.calls[t], page + Pow2(s.calls[t].order);
      && Are(s.status, page, end, Available)
      && s' == s.(status := Move(s.status, page, end, InFlight(t)),
                  calls := s.calls[t := Got(Span(page, end, call.trace), call.traced)])
  }

  /** The allocator failed: the return handler gives the record back. */
  ghost predicate ReturnNull(s: State, s': State, t: Task) {
    && t in s.calls && s.calls[t].Entered?
    && s' == s.(calls := s.calls - {t})
  }

  ghost predicate Return(s: State, s': State, t: Task) {
    && t in s.calls && s.calls[t].Got?
    && var span := s.calls[t].span;
      && s' == s.(status := Move(s.status, span.start, span.end, InUse), calls := s.calls - {t}, log := s'.log)
      && if s.calls[t].traced then Inserted(s.log, s'.log, span) else s'.log == s.log
  }

  /**
    A block on its way back. The probe of `free_hot_cold_page`, which frees one page, takes its
    second argument for an order; it may forget more pages than are freed, never fewer.
   */
  ghost predicate Free(s: State, s': State, t: Task, f: FreeFunction, page: Page, order: nat, argument: nat) {
    && (if f == FreePagesOk then argument == order else order == 0)
    && Are(s.status, page, page + Pow2(order), InUse)
    && s' == s.(status := Move(s.status, page, page + Pow2(order), Leaving(t)), log := s'.log)
    && if f in s.freeProbes then Freed(s.log, s'.log, page, page + Pow2(argument)) else s'.log == s.log
  }

  ghost predicate Release(s: State, s': State, t: Task) {
    s' == s.(status := map p | p in s.status :: if s.status[p] == Leaving(t) then Available else s.status[p])
  }

  datatype Step =
    | DoRegisterFree(f: FreeFunction)
    | DoRegisterAlloc
    | DoEnter(t: Task, order: nat, trace: Trace)
    | DoAllocate(t: Task, page: Page)
    | DoReturnNull(t: Task)
    | DoReturn(t: Task)
    | DoFree(t: Task, f: FreeFunction, page: Page, order: nat, argument: nat)
    | DoRelease(t: Task)

  ghost predicate Next(c: Config, first: set<FreeFunction>, s: State, s': State, step: Step) {
    match step
    case DoRegisterFree(f) => RegisterFree(s, s', f)
    case DoRegisterAlloc => RegisterAlloc(s, s', first)
    case DoEnter(t, order, trace) => Enter(c, s, s', t, order, trace)
    case DoAllocate(t, page) => Allocate(s, s', t, page)
    case DoReturnNull(t) => ReturnNull(s, s', t)
    case DoReturn(t) => Return(s, s', t)
    case DoFree(t, f, page, order, argument) => Free(s, s', t, f, page, order, argument)
    case DoRelease(t) => Release(s, s', t)
  }

  ghost predicate Run(c: Config, first: set<FreeFunction>, states: seq<State>, steps: seq<Step>) {
    && |states| == |steps| + 1
    && Init(c, states[0])
    && forall i :: 0 <= i < |steps| ==> Next(c, first, states[i], states[i + 1], steps[i])
  }

  // The invariant

  ghost predicate PagesOk(c: Config, s: State) {
    && (forall p: Page :: p in s.status <==> p < c.pages)
    && c.reserved <= s.status.Keys
    && (forall p :: p in s.status ==> (s.status[p] == Reserved <==> p in c.reserved))
    && (forall p: Page :: Owner(s.log, p).Some? ==> p in s.status && s.status[p] == InUse)
    && (forall t :: t in s.calls && s.calls[t].Got? ==>
          Are(s.status, s.calls[t].span.start, s.calls[t].span.end, InFlight(t)))
  }

  ghost predicate ProbesOk(c: Config, s: State) {
    && (s.allocProbe ==> s.freeProbes == BOTH)
    && (!s.allocProbe ==> s.log == [] && Traced(s.calls) == {})
    && Sorted(s.log)
    && |Traced(s.calls)| <= c.maxActive
  }

  ghost predicate Inv(c: Config, s: State) {
    PagesOk(c, s) && ProbesOk(c, s)
  }

  /** Logged pages are allocated, and no page of a block in flight or on its way back is logged. */
  ghost predicate LoggedInUse(s: State) {
    forall p: Page :: Owner(s.log, p).Some? ==> p in s.status && s.status[p] == InUse
  }

  /** The next entry handler, if one may still run, finds a record. */
  ghost predicate RecordLeft(c: Config, s: State) {
    |Traced(s.calls)| < c.maxActive ==> |s.log| + |Traced(s.calls)| < c.pages
  }

  /** There is room enough for a split, which needs a record. */
  ghost predicate RoomToSplit(c: Config, s: State) {
    |Covered(s.log)| + |Traced(s.calls)| <= c.pages + 1
  }

  /** A record long enough to be split leaves one on the free list. */
  ghost predicate SplitRecordLeft(c: Config, s: State) {
    forall i :: 0 <= i < |s.log| && s.log[i].start + 3 <= s.log[i].end ==> |s.log| + |Traced(s.calls)| < c.pages
  }

  /** What the handlers rely on: `ProbedLogger.RoomFor` and `NotLogged` derive their preconditions from it. */
  ghost predicate Safe(c: Config, s: State) {
    && LoggedInUse(s)
    && (forall t :: t in s.calls && s.calls[t].Got? ==> Unowned(s.log, s.calls[t].span.start, s.calls[t].span.end))
    && |Covered(s.log)| + |Traced(s.calls)| <= c.pages
    && RecordLeft(c, s)
  }

  lemma InvHasRoom(c: Config, s: State)
    requires Inv(c, s) && c.maxActive <= |c.reserved| + 1
    ensures RoomToSplit(c, s) && SplitRecordLeft(c, s)
  {
    RecordsPerPage(s.log);
    PagesToSpare(c, s);
  }

  lemma InvIsSafe(c: Config, s: State)
    requires Inv(c, s) && c.maxActive <= |c.reserved|
    ensures Safe(c, s)
  {
    RecordsPerPage(s.log);
    PagesToSpare(c, s);
  }

  /** Logged pages and reserved pages are different pages. */
  lemma PagesToSpare(c: Config, s: State)
    requires PagesOk(c, s)
    ensures |Covered(s.log)| + |c.reserved| <= c.pages
  {
    var logged, all := Covered(s.log), Pages(0, c.pages);
    forall p | p in logged
      ensures p in all && p !in c.reserved
    {
      CoveredIsOwned(s.log, p);
    }
    assert |logged + c.reserved| == |logged| + |c.reserved|;
    Subset(logged + c.reserved, all);
  }

  lemma {:induction false} Subset<T>(a: set<T>, b: set<T>)
    requires a <= b
    ensures |a| <= |b|
  {
    if a == {} {
    } else {
      var x :| x in a;
      Subset(a - {x}, b - {x});
    }
  }

  lemma InitInv(c: Config, s: State)
    requires Init(c, s)
    ensures Inv(c, s)
  {
    assert Traced(s.calls) == {};
  }

  lemma StepPages(c: Config, s: State, s': State, step: Step)
    requires PagesOk(c, s) && ProbesOk(c, s) && Next(c, BOTH, s, s', step)
    ensures PagesOk(c, s')
  {
    match step
    case DoRegisterFree(f) =>
    case DoRegisterAlloc =>
    case DoEnter(t, order, trace) =>
    case DoAllocate(t, page) => AllocatePages(c, s, s', t, page);
    case DoReturnNull(t) =>
    case DoReturn(t) => ReturnPages(c, s, s', t);
    case DoFree(t, f, page, order, argument) => FreePages(c, s, s', t, f, page, order, argument);
    case DoRelease(t) =>
  }

  lemma AllocatePages(c: Config, s: State, s': State, t: Task, page: Page)
    requires PagesOk(c, s) && Allocate(s, s', t, page)
    ensures PagesOk(c, s')
  {
  }

  lemma ReturnPages(c: Config, s: State, s': State, t: Task)
    requires PagesOk(c, s) && Return(s, s', t)
    ensures PagesOk(c, s')
  {
  }

  lemma FreePages(c: Config, s: State, s': State, t: Task, f: FreeFunction, page: Page, order: nat, argument: nat)
    requires Inv(c, s) && Free(s, s', t, f, page, order, argument)
    ensures PagesOk(c, s')
  {
    Pow2Monotone(order, if argument < order then order else argument);
  }

  /** There are no other free probes. */
  lemma BothAreAll(fs: set<FreeFunction>)
    ensures fs == BOTH <==> FreePagesOk in fs && FreeHotColdPage in fs
  {
    forall f | f in fs
      ensures f in BOTH
    {
      assert f.FreePagesOk? || f.FreeHotColdPage?;
    }
  }

  lemma StepProbes(c: Config, s: State, s': State, step: Step)
    requires Inv(c, s) && Next(c, BOTH, s, s', step)
    ensures ProbesOk(c, s')
  {
    TracedStep(c, s, s', step);
    BothAreAll(s.freeProbes);
    match step
    case DoRegisterFree(f) =>
      assert f == FreePagesOk || f == FreeHotColdPage;
    case DoReturn(t) =>
      assert s.calls[t].traced ==> t in Traced(s.calls);
    case DoFree(t, f, page, order, argument) =>
      if s.log == [] && s'.log != [] {
        InsideHasOwner(s'.log, 0, s'.log[0].start);
      }
    case _ =>
  }

  /** Only an entry handler adds a traced call, and only where there is room for one. */
  lemma TracedStep(c: Config, s: State, s': State, step: Step)
    requires Inv(c, s) && Next(c, BOTH, s, s', step)
    ensures |Traced(s'.calls)| <= c.maxActive
    ensures !s.allocProbe ==> Traced(s'.calls) == {}
  {
    match step
    case DoEnter(t, order, trace) =>
      TracedPut(s.calls, t, s'.calls[t]);
    case DoAllocate(t, page) =>
      TracedPut(s.calls, t, s'.calls[t]);
    case DoReturnNull(t) =>
      TracedDrop(s.calls, t);
    case DoReturn(t) =>
      TracedDrop(s.calls, t);
    case _ =>
  }

  lemma TracedPut(calls: map<Task, Call>, t: Task, call: Call)
    ensures Traced(calls[t := call]) == if call.traced then Traced(calls) + {t} else Traced(calls) - {t}
    ensures t in Traced(calls) && call.traced ==> Traced(calls[t := call]) == Traced(calls)
  {
  }

  lemma TracedDrop(calls: map<Task, Call>, t: Task)
    ensures Traced(calls - {t}) <= Traced(calls) && |Traced(calls - {t})| <= |Traced(calls)|
  {
    Subset(Traced(calls - {t}), Traced(calls));
  }

  lemma {:induction false} RunInv(c: Config, states: seq<State>, steps: seq<Step>, i: nat)
    requires Run(c, BOTH, states, steps) && i < |states|
    ensures Inv(c, states[i])
  {
    if i == 0 {
      InitInv(c, states[0]);
    } else {
      RunInv(c, states, steps, i - 1);
      StepPages(c, states[i - 1], states[i], steps[i - 1]);
      StepProbes(c, states[i - 1], states[i], steps[i - 1]);
    }
  }

  /** A finite run up to the state `s`. */
  ghost predicate Leads(c: Config, first: set<FreeFunction>, s: State) {
    exists states, steps :: Run(c, first, states, steps) && states[|states| - 1] == s
  }

  /** In every state that any interleaving reaches, every handler finds what it relies on. */
  lemma EveryReachableStateSafe(c: Config, s: State)
    requires Leads(c, BOTH, s) && c.maxActive <= |c.reserved|
    ensures Safe(c, s)
  {
    var states, steps :| Run(c, BOTH, states, steps) && states[|states| - 1] == s;
    RunInv(c, states, steps, |states| - 1);
    InvIsSafe(c, s);
  }

  // Runs that show what the order of registration and the reserved pages are for

  const NO_TRACE := Trace([], [])

  ghost predicate Possible(c: Config) {
    forall p: Page :: p in c.reserved ==> p < c.pages
  }

  lemma Start(c: Config, first: set<FreeFunction>, s: State)
    requires Init(c, s)
    ensures Leads(c, first, s)
  {
    assert Run(c, first, [s], []);
  }

  lemma Extend(c: Config, first: set<FreeFunction>, s: State, s': State, step: Step)
    requires Leads(c, first, s) && Next(c, first, s, s', step)
    ensures Leads(c, first, s')
  {
    var states, steps :| Run(c, first, states, steps) && states[|states| - 1] == s;
    assert Run(c, first, states + [s'], steps + [step]);
  }

  /** The unreserved pages below `k` are in use, each logged on its own; no call is under way. */
  ghost function StatusAt(c: Config, k: nat): map<Page, Status> {
    map p: Page | 0 <= p < c.pages :: if p in c.reserved then Reserved else if p < k then InUse else Available
  }

  ghost function LogAt(c: Config, k: nat): Log {
    if k == 0 then [] else LogAt(c, k - 1) + if k - 1 in c.reserved then [] else [Span(k - 1, k, NO_TRACE)]
  }

  ghost function Idle(c: Config, probes: set<FreeFunction>, alloc: bool, k: nat): State {
    State(probes, alloc, StatusAt(c, k), map[], LogAt(c, k))
  }

  lemma {:induction false} LogAtSorted(c: Config, k: nat)
    ensures Sorted(LogAt(c, k)) && forall i :: 0 <= i < |LogAt(c, k)| ==> LogAt(c, k)[i].end <= k
  {
    if k == 0 {
    } else {
      LogAtSorted(c, k - 1);
    }
  }

  ghost function ReservedBelow(c: Config, k: nat): set<Page> {
    set p | p in c.reserved && p < k
  }

  lemma {:induction false} LogAtLength(c: Config, k: nat)
    ensures |LogAt(c, k)| + |ReservedBelow(c, k)| == k
  {
    if k == 0 {
      assert ReservedBelow(c, 0) == {};
    } else {
      LogAtLength(c, k - 1);
      assert ReservedBelow(c, k) == ReservedBelow(c, k - 1) + if k - 1 in c.reserved then {k - 1} else {};
    }
  }

  lemma NoCallsTraced()
    ensures Traced(map[]) == {}
  {
  }

  /** Page `p` is allocated by a traced call: entered, handed out, logged. */
  lemma AllocateOne(c: Config, first: set<FreeFunction>, s: State, p: Page, log: Log) returns (done: State)
    requires Leads(c, first, s) && s.calls == map[] && s.allocProbe && c.maxActive > 0
    requires p in s.status && s.status[p] == Available && Inserted(s.log, log, Span(p, p + 1, NO_TRACE))
    ensures Leads(c, first, done) && done == s.(status := s.status[p := InUse], log := log)
  {
    NoCallsTraced();
    var span := Span(p, p + 1, NO_TRACE);
    var entered := s.(calls := map[0 := Entered(0, true, NO_TRACE)]);
    assert Enter(c, s, entered, 0, 0, NO_TRACE);
    Extend(c, first, s, entered, DoEnter(0, 0, NO_TRACE));
    var got := s.(status := s.status[p := InFlight(0)], calls := map[0 := Got(span, true)]);
    assert got.status == Move(s.status, p, p + 1, InFlight(0)) && got.calls == entered.calls[0 := Got(span, true)];
    assert Allocate(entered, got, 0, p);
    Extend(c, first, entered, got, DoAllocate(0, p));
    done := s.(status := s.status[p := InUse], log := log);
    assert done.status == Move(got.status, p, p + 1, InUse) && done.calls == got.calls - {0};
    assert Return(got, done, 0);
    Extend(c, first, got, done, DoReturn(0));
  }

  lemma LogAtGrows(c: Config, k: nat)
    requires k !in c.reserved
    ensures Inserted(LogAt(c, k), LogAt(c, k + 1), Span(k, k + 1, NO_TRACE))
  {
    var x := Span(k, k + 1, NO_TRACE);
    LogAtSorted(c, k + 1);
    assert LogAt(c, k) + [x] + [] == LogAt(c, k + 1) && LogAt(c, k) + [] == LogAt(c, k);
    InsertBetween(LogAt(c, k), x, []);
  }

  /** One page more is in use and logged. */
  lemma AllocateNext(c: Config, first: set<FreeFunction>, k: nat)
    requires Leads(c, first, Idle(c, first, true, k)) && k < c.pages && c.maxActive > 0
    ensures Leads(c, first, Idle(c, first, true, k + 1))
  {
    var s, next := Idle(c, first, true, k), Idle(c, first, true, k + 1);
    if k in c.reserved {
      assert next.log == s.log + [] && next == s;
    } else {
      hide Leads, LogAt;
      LogAtGrows(c, k);
      var done := AllocateOne(c, first, s, k, next.log);
      assert done.status == next.status;
    }
  }

  /** The free probes of `first` can be registered, in any number. */
  lemma RegisterFirst(c: Config, first: set<FreeFunction>, probes: set<FreeFunction>)
    requires Possible(c) && probes <= first
    ensures Leads(c, first, Idle(c, probes, false, 0))
  {
    var none := Idle(c, {}, false, 0);
    Start(c, first, none);
    if f :| f in probes {
      Extend(c, first, none, Idle(c, {f}, false, 0), DoRegisterFree(f));
      if g :| g in probes && g != f {
        assert probes == {f, g};
        assert {f} + {g} == {f, g};
        Extend(c, first, Idle(c, {f}, false, 0), Idle(c, probes, false, 0), DoRegisterFree(g));
      } else {
        assert probes == {f};
      }
    }
  }

  lemma {:induction false} AllocateAll(c: Config, first: set<FreeFunction>, k: nat)
    requires Possible(c) && k <= c.pages && c.maxActive > 0
    ensures Leads(c, first, Idle(c, first, true, k))
  {
    if k == 0 {
      RegisterFirst(c, first, first);
      Extend(c, first, Idle(c, first, false, 0), Idle(c, first, true, 0), DoRegisterAlloc);
    } else {
      AllocateAll(c, first, k - 1);
      AllocateNext(c, first, k - 1);
    }
  }

  /** `n` calls have been entered, each with its record. */
  ghost function Calls(n: nat): (calls: map<Task, Call>)
    ensures forall t: Task :: t in calls ==> t < n
  {
    if n == 0 then map[] else Calls(n - 1)[n - 1 := Entered(0, true, NO_TRACE)]
  }

  lemma {:induction false} EnterMany(c: Config, s: State, n: nat)
    requires Leads(c, BOTH, s) && s.calls == map[] && s.allocProbe && n <= c.maxActive
    ensures Leads(c, BOTH, s.(calls := Calls(n))) && |Traced(Calls(n))| == n
  {
    if n == 0 {
      assert Calls(0) == map[] && Traced(map[]) == {};
    } else {
      EnterMany(c, s, n - 1);
      assert Traced(Calls(n)) == Traced(Calls(n - 1)) + {n - 1};
      Extend(c, BOTH, s.(calls := Calls(n - 1)), s.(calls := Calls(n)), DoEnter(n - 1, 0, NO_TRACE));
    }
  }

  /** With too few reserved pages: all others logged one by one, and a call for every reserved page. */
  lemma NoSlackNoRecord(c: Config) returns (last: State)
    requires Possible(c) && |c.reserved| < c.maxActive
    ensures Leads(c, BOTH, last) && !RecordLeft(c, last)
  {
    var s := Idle(c, BOTH, true, c.pages);
    AllocateAll(c, BOTH, c.pages);
    EnterMany(c, s, |c.reserved|);
    LogAtLength(c, c.pages);
    assert ReservedBelow(c, c.pages) == c.reserved;
    last := s.(calls := Calls(|c.reserved|));
  }

  /**
    The comment at `__alloc_lp` says that a record is always left. Over all runs this is so for the
    entry handler exactly if at least as many pages are in use for good as there can be traced calls
    at a time.
   */
  lemma RecordLeftExactly(c: Config)
    requires Possible(c)
    ensures (forall s :: Leads(c, BOTH, s) ==> RecordLeft(c, s)) <==> c.maxActive <= |c.reserved|
  {
    if c.maxActive <= |c.reserved| {
      forall s | Leads(c, BOTH, s)
        ensures RecordLeft(c, s)
      {
        EveryReachableStateSafe(c, s);
      }
    } else {
      var last := NoSlackNoRecord(c);
    }
  }

  /** A page is freed and released through a function without a probe: its log entry stays. */
  lemma ReleaseOne(c: Config, first: set<FreeFunction>, s: State, f: FreeFunction, p: Page) returns (last: State)
    requires Leads(c, first, s) && f !in s.freeProbes && p in s.status && s.status[p] == InUse
    requires forall q :: q in s.status ==> s.status[q] != Leaving(0)
    ensures Leads(c, first, last) && last == s.(status := s.status[p := Available])
  {
    var leaving := s.(status := s.status[p := Leaving(0)]);
    assert leaving.status == Move(s.status, p, p + 1, Leaving(0));
    assert Free(s, leaving, 0, f, p, 0, 0);
    Extend(c, first, s, leaving, DoFree(0, f, p, 0, 0));
    last := s.(status := s.status[p := Available]);
    assert Release(leaving, last, 0);
    Extend(c, first, leaving, last, DoRelease(0));
  }

  /**
    With a free probe missing when the allocator's probe is registered, any page can be back with the
    allocator while it is still logged.
   */
  lemma WrongOrderBreaks(c: Config, first: set<FreeFunction>, f: FreeFunction, p: Page) returns (last: State)
    requires Possible(c) && p < c.pages && p !in c.reserved && c.maxActive > 0 && f !in first
    ensures Leads(c, first, last) && p in last.status && last.status[p] == Available && Owner(last.log, p).Some?
  {
    AllocateAll(c, first, p + 1);
    last := ReleaseOne(c, first, Idle(c, first, true, p + 1), f, p);
    var log := LogAt(c, p + 1);
    assert log[|log| - 1] == Span(p, p + 1, NO_TRACE);
    InsideHasOwner(log, |log| - 1, p);
  }

  /** Logged pages stay in use in all runs exactly if both free probes are registered before the allocator's. */
  lemma OrderMattersExactly(c: Config, first: set<FreeFunction>, p: Page)
    requires Possible(c) && p < c.pages && p !in c.reserved && c.maxActive > 0
    ensures (forall s :: Leads(c, first, s) ==> LoggedInUse(s)) <==> first == BOTH
  {
    if first == BOTH {
      forall s | Leads(c, BOTH, s)
        ensures LoggedInUse(s)
      {
        var states, steps :| Run(c, BOTH, states, steps) && states[|states| - 1] == s;
        RunInv(c, states, steps, |states| - 1);
      }
    } else {
      BothAreAll(first);
      var f := if FreePagesOk !in first then FreePagesOk else FreeHotColdPage;
      var last := WrongOrderBreaks(c, first, f, p);
    }
  }
}
