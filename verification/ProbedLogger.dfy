/**
  The probe handlers of mem_leak/kerspace/huawei_log_page.c at work: the shared log together with
  the calls that hold its records. Every method is a step of `LogProtocol`, and what the handlers
  rely on is derived from its invariant.
 */
module ProbedLogger {
  import opened Words
  import opened PageLog
  import opened RecordTree
  import opened LogPage
  import opened CallStack
  import opened PageLogger
  import opened LogProtocol

  /** Every traced call holds one record, every held record belongs to one call. */
  ghost predicate Holds(data: map<Task, nat>, calls: map<Task, Call>, held: set<nat>) {
    && data.Keys == Traced(calls)
    && data.Values == held
    && forall t, u :: t in data && u in data && t != u ==> data[t] != data[u]
  }

  /** The record of a call has its order and the stack saved at its entry. */
  ghost predicate Tells(r: Record, call: Call) {
    match call
    case Entered(order, _, trace) => r.link == order && r.trace == trace
    case Got(span, _) => r.trace == span.trace && span.end == span.start + Pow2(r.link)
  }

  ghost predicate AllTell(pool: seq<Record>, data: map<Task, nat>, calls: map<Task, Call>) {
    forall t :: t in data && t in calls ==> data[t] < |pool| && Tells(pool[data[t]], calls[t])
  }

  lemma {:induction false} AsManyRecords(data: map<Task, nat>)
    requires forall t, u :: t in data && u in data && t != u ==> data[t] != data[u]
    ensures |data.Values| == |data.Keys| == |data|
  {
    if data == map[] {
      assert data.Values == {};
    } else {
      var t :| t in data;
      AsManyRecords(data - {t});
      assert data.Keys == (data - {t}).Keys + {t};
      assert data.Values == (data - {t}).Values + {data[t]};
    }
  }

  /** A call gets a record that nobody held. */
  lemma HoldsMore(data: map<Task, nat>, calls: map<Task, Call>, held: set<nat>, t: Task, call: Call, lp: nat)
    requires Holds(data, calls, held) && t !in calls && call.traced && lp !in held
    ensures Holds(data[t := lp], calls[t := call], held + {lp})
  {
    TracedPut(calls, t, call);
    var more := data[t := lp];
    assert more[t] == lp;
    forall x | x in data.Values
      ensures x in more.Values
    {
      var u :| u in data && data[u] == x;
      assert more[u] == x;
    }
    assert more.Values == held + {lp};
  }

  /** A call that is done gives its record back. */
  lemma HoldsLess(data: map<Task, nat>, calls: map<Task, Call>, held: set<nat>, t: Task)
    requires Holds(data, calls, held) && t in data
    ensures data[t] in held && Holds(data - {t}, calls - {t}, held - {data[t]})
  {
    var fewer := data - {t};
    forall x | x in held && x != data[t]
      ensures x in fewer.Values
    {
      var u :| u in data && data[u] == x;
      assert fewer[u] == x;
    }
    assert fewer.Values == held - {data[t]};
    assert Traced(calls - {t}) == Traced(calls) - {t};
  }

  /** An untraced call comes or goes; or a call gets its block. */
  lemma HoldsSame(data: map<Task, nat>, calls: map<Task, Call>, held: set<nat>, t: Task, call: Call)
    requires Holds(data, calls, held) && (if t in data then t in calls && call.traced else !call.traced)
    ensures Holds(data, calls[t := call], held)
    ensures t !in data ==> Holds(data, calls - {t}, held)
  {
    TracedPut(calls, t, call);
    assert t !in data ==> Traced(calls - {t}) == Traced(calls) - {t};
  }

  /** Handlers leave the records that calls hold alone: they keep telling about their calls. */
  lemma StillTell(before: seq<Record>, after: seq<Record>, data: map<Task, nat>, calls: map<Task, Call>,
                  held: set<nat>, t: Task, call: Call)
    requires Holds(data, calls, held) && AllTell(before, data, calls)
    requires |before| == |after| && SameRecords(before, after, held)
    ensures AllTell(after, data, calls)
    ensures t !in data ==> AllTell(after, data, calls[t := call]) && AllTell(after, data, calls - {t})
  {
    assert forall u :: u in data ==> data[u] in data.Values;
  }

  lemma TellMore(before: seq<Record>, after: seq<Record>, data: map<Task, nat>, calls: map<Task, Call>,
                 held: set<nat>, t: Task, call: Call, lp: nat)
    requires Holds(data, calls, held) && AllTell(before, data, calls)
    requires |before| == |after| && SameRecords(before, after, held)
    requires t !in calls && lp < |after| && Tells(after[lp], call)
    ensures AllTell(after, data[t := lp], calls[t := call])
  {
    assert forall u :: u in data ==> data[u] in data.Values;
  }

  lemma TellLess(before: seq<Record>, after: seq<Record>, data: map<Task, nat>, calls: map<Task, Call>,
                 held: set<nat>, t: Task)
    requires Holds(data, calls, held) && AllTell(before, data, calls) && t in data
    requires |before| == |after| && SameRecords(before, after, held - {data[t]})
    ensures AllTell(after, data - {t}, calls - {t})
  {
    assert forall u :: u in data ==> data[u] in data.Values;
  }

  lemma StepInv(c: Config, s: State, s': State, step: Step)
    requires Inv(c, s) && Next(c, BOTH, s, s', step)
    ensures Inv(c, s')
  {
    StepPages(c, s, s', step);
    StepProbes(c, s, s', step);
  }

  // What the methods below do, as steps of the protocol

  lemma EnterStep(c: Config, s: State, s': State, t: Task, order: nat, trace: Trace)
    requires Inv(c, s) && t !in s.calls
    requires s' == s.(calls := s.calls[t := Entered(order, s.allocProbe && |Traced(s.calls)| < c.maxActive, trace)])
    ensures Inv(c, s') && Next(c, BOTH, s, s', DoEnter(t, order, trace))
  {
    StepInv(c, s, s', DoEnter(t, order, trace));
  }

  lemma AllocateStep(c: Config, s: State, s': State, t: Task, page: Page)
    requires Inv(c, s) && t in s.calls && s.calls[t].Entered?
    requires var call, end := s.calls[t], page + Pow2(s.calls[t].order);
      && Are(s.status, page, end, Available)
      && s' == s.(status := Move(s.status, page, end, InFlight(t)),
                  calls := s.calls[t := Got(Span(page, end, call.trace), call.traced)])
    ensures Inv(c, s') && Next(c, BOTH, s, s', DoAllocate(t, page))
  {
    StepInv(c, s, s', DoAllocate(t, page));
  }

  ghost function ReturnStep(t: Task, page: Option<Page>): Step {
    if page == None then DoReturnNull(t) else DoReturn(t)
  }

  lemma ReturnsStep(c: Config, s: State, s': State, t: Task, page: Option<Page>)
    requires Inv(c, s) && t in s.calls
    requires page == None ==> s.calls[t].Entered? && s' == s.(calls := s.calls - {t})
    requires page.Some? ==> LogProtocol.Return(s, s', t)
    ensures Inv(c, s') && Next(c, BOTH, s, s', ReturnStep(t, page))
  {
    StepInv(c, s, s', ReturnStep(t, page));
  }

  lemma FreeStep(c: Config, s: State, s': State, t: Task, f: FreeFunction, page: Page, order: nat, argument: nat)
    requires Inv(c, s) && (if f == FreePagesOk then argument == order else order == 0)
    requires Are(s.status, page, page + Pow2(order), InUse)
    requires s'.freeProbes == s.freeProbes && s'.allocProbe == s.allocProbe && s'.calls == s.calls
    requires s'.status == Move(s.status, page, page + Pow2(order), Leaving(t))
    requires f in s.freeProbes ==> Freed(s.log, s'.log, page, page + Pow2(argument))
    requires f !in s.freeProbes ==> s'.log == s.log
    ensures Inv(c, s') && Next(c, BOTH, s, s', DoFree(t, f, page, order, argument))
  {
    StepInv(c, s, s', DoFree(t, f, page, order, argument));
  }

  /** A block about to be logged is not in the tree. */
  lemma NotLogged(c: Config, s: State, t: Task)
    requires Inv(c, s) && t in s.calls && s.calls[t].Got?
    ensures Unowned(s.log, s.calls[t].span.start, s.calls[t].span.end)
  {
  }

  /** What the handlers ask for, from what the protocol keeps. */
  lemma RoomFor(c: Config, s: State, data: map<Task, nat>, held: set<nat>)
    requires Holds(data, s.calls, held)
    ensures |held| == |data| == |Traced(s.calls)|
    ensures RoomToSplit(c, s) ==> |Covered(s.log)| + |held| <= c.pages + 1
    ensures RecordLeft(c, s) && |data| < c.maxActive ==> |s.log| + |held| < c.pages
  {
    AsManyRecords(data);
  }

  class Probed {
    const config: Config
    const logger: Logger
    var freeProbes: set<FreeFunction>
    var allocProbe: bool
    /** `data->lp` of the calls whose entry handler ran. */
    var data: map<Task, nat>
    /** What the allocator knows: the state of the pages, and the calls under way. */
    ghost var status: map<Page, Status>
    ghost var calls: map<Task, Call>

    ghost function Abstract(): State
      reads this, logger, logger.pool
    {
      State(freeProbes, allocProbe, status, calls, logger.Log())
    }

    /** Exactly the traced ones of `calls` hold a record, and it tells about them. */
    ghost predicate Tracks(calls: map<Task, Call>)
      reads this`data, logger, logger.pool
    {
      && logger.Valid() && logger.pool.Length == config.pages
      && Holds(data, calls, logger.held) && AllTell(logger.pool[..], data, calls)
    }

    ghost predicate Valid()
      reads this, logger, logger.pool
    {
      Tracks(calls) && Inv(config, Abstract())
    }

    /** What the two definitions say. */
    lemma Parts()
      ensures Abstract() == State(freeProbes, allocProbe, status, calls, logger.Log())
      ensures Valid() <==> Tracks(calls) && Inv(config, Abstract())
    {
    }

    constructor (config: Config, rebalance: (nat, Tree) -> Tree, ghost status: map<Page, Status>)
      requires forall k, t :: InOrder(rebalance(k, t)) == InOrder(t)
      requires Init(config, State({}, false, status, map[], []))
      ensures Valid() && Init(config, Abstract()) && fresh(logger) && fresh(logger.pool)
      ensures this.config == config && this.status == status
    {
      this.config, this.status := config, status;
      logger := new Logger(config.pages, rebalance);
      freeProbes, allocProbe, data, calls := {}, false, map[], map[];
      new;
      NoCallsTraced();
      InitInv(config, Abstract());
    }

    method RegisterFree(f: FreeFunction)
      requires Valid()
      modifies `freeProbes
      ensures Valid() && Next(config, BOTH, old(Abstract()), Abstract(), DoRegisterFree(f))
      ensures freeProbes == old(freeProbes) + {f}
    {
      hide Inv, Holds, AllTell;
      freeProbes := freeProbes + {f};
      StepInv(config, old(Abstract()), Abstract(), DoRegisterFree(f));
    }

    /** Registered last. */
    method RegisterAlloc()
      requires Valid() && BOTH <= freeProbes
      modifies `allocProbe
      ensures Valid() && Next(config, BOTH, old(Abstract()), Abstract(), DoRegisterAlloc) && allocProbe
    {
      hide Inv, Holds, AllTell;
      allocProbe := true;
      StepInv(config, old(Abstract()), Abstract(), DoRegisterAlloc);
    }

    /** A free probe may need a record for a split; there is one left. */
    lemma RoomToFree()
      requires Tracks(calls)
      ensures RoomToSplit(config, Abstract()) ==> |Covered(logger.Log())| + |logger.held| <= config.pages + 1
    {
      RoomFor(config, Abstract(), data, logger.held);
    }

    /** An entry handler needs a record; there is one left. */
    lemma RoomToEnter()
      requires Tracks(calls)
      ensures |data| == |Traced(calls)|
      ensures RecordLeft(config, Abstract()) && |data| < config.maxActive ==>
                |logger.Log()| + |logger.held| < config.pages
    {
      RoomFor(config, Abstract(), data, logger.held);
    }

    lemma InData(t: Task)
      requires Tracks(calls)
      ensures t in data <==> t in calls && calls[t].traced
    {
    }

    /** An untraced call comes or goes. */
    lemma Untraced(t: Task, call: Call)
      requires Tracks(calls) && t !in data && !call.traced
      ensures Tracks(calls[t := call]) && Tracks(calls - {t})
    {
      HoldsSame(data, calls, logger.held, t, call);
      StillTell(logger.pool[..], logger.pool[..], data, calls, logger.held, t, call);
    }

    /** A call gets its block. */
    lemma Block(t: Task, got: Call)
      requires Tracks(calls) && t in calls && calls[t].Entered? && got.Got? && got.traced == calls[t].traced
      requires got.span.trace == calls[t].trace && got.span.end == got.span.start + Pow2(calls[t].order)
      ensures Tracks(calls[t := got])
    {
      HoldsSame(data, calls, logger.held, t, got);
    }

    /** Runs the entry handler for a call and keeps its record with the call. */
    method RunEntryHandler(t: Task, order: nat, dump: seq<Ulong>, moduleOf: Ulong -> Option<nat>)
      requires Tracks(calls) && t !in calls && |logger.Log()| + |logger.held| < config.pages
      modifies `data, logger, logger.pool
      ensures Tracks(calls[t := Entered(order, true, TraceOf(dump, moduleOf))]) && logger.Log() == old(logger.Log())
      ensures |logger.chain| == |old(logger.chain)| - 1
    {
      hide TraceOf, Logger.Valid, Logger.Log, Holds, AllTell, SameRecords;
      ghost var call, pool, held := Entered(order, true, TraceOf(dump, moduleOf)), logger.pool[..], logger.held;
      var lp := logger.EntryHandler(order, dump, moduleOf);
      HoldsMore(data, calls, held, t, call, lp);
      TellMore(pool, logger.pool[..], data, calls, held, t, call, lp);
      data := data[t := lp];
    }

    /** The allocator is called; the entry handler runs if it is registered and an instance is free. */
    method Enter(t: Task, order: nat, dump: seq<Ulong>, moduleOf: Ulong -> Option<nat>)
      requires Valid() && t !in calls && RecordLeft(config, Abstract())
      modifies `data, `calls, logger, logger.pool
      ensures Valid() && Next(config, BOTH, old(Abstract()), Abstract(), DoEnter(t, order, TraceOf(dump, moduleOf)))
      ensures |logger.chain| == |old(logger.chain)| - if old(allocProbe && |data| < config.maxActive) then 1 else 0
    {
      hide *;
      ghost var s := Abstract();
      Parts();
      RoomToEnter();
      InData(t);
      var traced := allocProbe && |data| < config.maxActive;
      ghost var call := Entered(order, traced, TraceOf(dump, moduleOf));
      if traced {
        RunEntryHandler(t, order, dump, moduleOf);
      } else {
        Untraced(t, call);
      }
      calls := calls[t := call];
      Parts();
      EnterStep(config, s, Abstract(), t, order, TraceOf(dump, moduleOf));
    }

    /** The allocator hands out a block to a call: free pages only. */
    ghost method Allocate(t: Task, page: Page)
      requires Valid() && t in calls && calls[t].Entered?
      requires Are(status, page, page + Pow2(calls[t].order), Available)
      modifies `status, `calls
      ensures Valid() && Next(config, BOTH, old(Abstract()), Abstract(), DoAllocate(t, page))
    {
      hide *;
      Parts();
      ghost var s, call, end := Abstract(), calls[t], page + Pow2(calls[t].order);
      ghost var got := Got(Span(page, end, call.trace), call.traced);
      Block(t, got);
      status, calls := Move(status, page, end, InFlight(t)), calls[t := got];
      Parts();
      AllocateStep(config, s, Abstract(), t, page);
    }

    /** Runs the return handler for a call that has a record. */
    method RunReturnHandler(t: Task, page: Option<Page>)
      requires Tracks(calls) && t in data && t in calls
      requires page == None ==> calls[t].Entered?
      requires page.Some? ==> calls[t].Got? && page.value == calls[t].span.start
                              && Unowned(logger.Log(), calls[t].span.start, calls[t].span.end)
      modifies `data, logger, logger.pool
      ensures Tracks(calls - {t})
      ensures page == None ==> logger.Log() == old(logger.Log())
      ensures page.Some? ==> logger.chain == old(logger.chain)
      ensures page.Some? ==> Inserted(old(logger.Log()), logger.Log(), calls[t].span)
    {
      hide Logger.Valid, Logger.Log, Holds, SameRecords, Inserted, Unowned;
      ghost var pool, held := logger.pool[..], logger.held;
      HoldsLess(data, calls, held, t);
      logger.ReturnHandler(page, data[t]);
      TellLess(pool, logger.pool[..], data, calls, held, t);
      data := data - {t};
    }

    /** The allocator returns: with its block, or with none. */
    method Return(t: Task, page: Option<Page>)
      requires Valid() && t in calls
      requires page == None ==> calls[t].Entered?
      requires page.Some? ==> calls[t].Got? && page.value == calls[t].span.start
      modifies `data, `status, `calls, logger, logger.pool
      ensures Valid() && (page.Some? ==> logger.chain == old(logger.chain))
      ensures Next(config, BOTH, old(Abstract()), Abstract(), ReturnStep(t, page))
    {
      hide Inv, Next, Logger.Log, Tracks, Move, Inserted, Unowned;
      ghost var s, span := Abstract(), if calls[t].Got? then calls[t].span else Span(0, 0, NO_TRACE);
      if calls[t].Got? {
        NotLogged(config, s, t);
      }
      InData(t);
      if t in data {
        RunReturnHandler(t, page);
      } else {
        Untraced(t, calls[t]);
      }
      if page.Some? {
        status := Move(status, span.start, span.end, InUse);
      }
      calls := calls - {t};
      ReturnsStep(config, s, Abstract(), t, page);
    }

    /** Runs the probe of a free function, if there is one. */
    method RunFreeProbe(f: FreeFunction, page: Page, argument: nat)
      requires Tracks(calls) && |Covered(logger.Log())| + |logger.held| <= config.pages + 1
      modifies logger, logger.pool
      ensures Tracks(calls) && (f !in freeProbes ==> logger.Log() == old(logger.Log()))
      ensures f in freeProbes ==> Freed(old(logger.Log()), logger.Log(), page, page + Pow2(argument))
    {
      hide Logger.Valid, Logger.Log, Holds, AllTell, SameRecords, Freed;
      ghost var pool := logger.pool[..];
      if f in freeProbes {
        logger.Free(page, argument);
        StillTell(pool, logger.pool[..], data, calls, logger.held, 0, Entered(0, false, NO_TRACE));
      }
    }

    /** A free function is called for a block in use; its probe runs if it is registered. */
    method Free(t: Task, f: FreeFunction, page: Page, order: nat, argument: nat)
      requires Valid() && RoomToSplit(config, Abstract())
      requires Are(status, page, page + Pow2(order), InUse)
      requires if f == FreePagesOk then argument == order else order == 0
      modifies `status, logger, logger.pool
      ensures Valid() && Next(config, BOTH, old(Abstract()), Abstract(), DoFree(t, f, page, order, argument))
    {
      hide *;
      ghost var s := Abstract();
      Parts();
      RoomToFree();
      RunFreeProbe(f, page, argument);
      status := Move(status, page, page + Pow2(order), Leaving(t));
      Parts();
      FreeStep(config, s, Abstract(), t, f, page, order, argument);
    }

    /** The pages a free function was called for are free again. */
    ghost method Release(t: Task)
      requires Valid()
      modifies `status
      ensures Valid() && Next(config, BOTH, old(Abstract()), Abstract(), DoRelease(t))
    {
      hide Inv, Holds, AllTell, Logger.Valid, Logger.Log;
      status := map p | p in status :: if status[p] == Leaving(t) then Available else status[p];
      StepInv(config, old(Abstract()), Abstract(), DoRelease(t));
    }

    /** With enough pages in use for good, every handler may run in every state the module can be in. */
    lemma HandlersMayRun()
      requires Valid() && config.maxActive <= |config.reserved|
      ensures Safe(config, Abstract()) && RecordLeft(config, Abstract()) && RoomToSplit(config, Abstract())
      ensures |data| < config.maxActive ==> logger.chain != []
    {
      InvIsSafe(config, Abstract());
      RecordLeftIsOnList();
    }

    /** The protocol's count of records left is the real list of free records. */
    lemma RecordLeftIsOnList()
      requires Valid()
      ensures |logger.Log()| + |data| + |logger.chain| == config.pages
      ensures RecordLeft(config, Abstract()) <==> (|data| < config.maxActive ==> logger.chain != [])
    {
      RoomFor(config, Abstract(), data, logger.held);
      PartitionAddsUp(config.pages, InOrder(logger.root), logger.chain, logger.held);
    }
  }

  // The module driven to the end of its records

  lemma AfterEnter(c: Config, s: State, s': State, t: Task, trace: Trace)
    requires Next(c, BOTH, s, s', DoEnter(t, 0, trace))
    ensures s'.allocProbe == s.allocProbe && s'.status == s.status && s'.log == s.log
    ensures s'.calls == s.calls[t := Entered(0, s.allocProbe && |Traced(s.calls)| < c.maxActive, trace)]
  {
  }

  lemma AfterAllocate(c: Config, s: State, s': State, page: Page, trace: Trace)
    requires Next(c, BOTH, s, s', DoAllocate(0, page)) && s.calls == map[0 := Entered(0, true, trace)]
    requires page in s.status
    ensures s'.allocProbe == s.allocProbe && s'.status == s.status[page := InFlight(0)]
    ensures s'.calls == map[0 := Got(Span(page, page + 1, trace), true)]
  {
  }

  lemma AfterReturn(c: Config, s: State, s': State, page: Page, trace: Trace)
    requires Next(c, BOTH, s, s', ReturnStep(0, Some(page)))
    requires s.calls == map[0 := Got(Span(page, page + 1, trace), true)]
    requires page in s.status
    ensures s'.allocProbe == s.allocProbe && s'.status == s.status[page := InUse] && s'.calls == map[]
  {
  }

  lemma OnePage(status: map<Page, Status>, page: Page)
    requires page in status && status[page] == Available
    ensures Are(status, page, page + Pow2(0), Available)
  {
  }

  function NoModule(a: Ulong): Option<nat> {
    None
  }

  lemma NoData(m: Probed)
    requires m.Valid() && m.calls == map[]
    ensures m.data == map[]
  {
    NoCallsTraced();
  }

  /** One page is allocated by a traced call and logged. */
  method LogOnePage(m: Probed, page: Page)
    requires m.Valid() && m.allocProbe && m.calls == map[] && m.config.maxActive > 0 && m.logger.chain != []
    requires page in m.status && m.status[page] == Available
    modifies m`data, m`status, m`calls, m.logger, m.logger.pool
    ensures m.Valid() && m.calls == map[] && |m.logger.chain| == |old(m.logger.chain)| - 1
    ensures m.status == old(m.status)[page := InUse] && m.data == map[]
  {
    hide *;
    m.Parts();
    m.RecordLeftIsOnList();
    m.RoomToEnter();
    NoCallsTraced();
    ghost var s0, trace := m.Abstract(), TraceOf([], NoModule);
    m.Enter(0, 0, [], NoModule);
    m.Parts();
    AfterEnter(m.config, s0, m.Abstract(), 0, trace);
    OnePage(m.status, page);
    ghost var s1 := m.Abstract();
    m.Allocate(0, page);
    m.Parts();
    AfterAllocate(m.config, s1, m.Abstract(), page, trace);
    ghost var s2 := m.Abstract();
    m.Return(0, Some(page));
    m.Parts();
    AfterReturn(m.config, s2, m.Abstract(), page, trace);
    NoData(m);
  }

  lemma FirstState(c: Config)
    requires Possible(c)
    ensures Init(c, State({}, false, StatusAt(c, 0), map[], []))
  {
  }

  lemma FirstCounts(m: Probed)
    requires m.Valid() && Init(m.config, m.Abstract())
    ensures m.calls == map[] && m.data == map[] && |m.logger.chain| == m.config.pages
  {
    m.RecordLeftIsOnList();
    NoCallsTraced();
  }

  lemma FirstCount(c: Config)
    ensures LogAt(c, 0) == []
  {
  }

  lemma FreeIsHead(m: Probed)
    requires m.Valid()
    ensures m.logger.free == 0 <==> m.logger.chain == []
  {
  }

  lemma BothRegistered(fs: set<FreeFunction>)
    ensures BOTH <= fs + {FreePagesOk} + {FreeHotColdPage}
  {
  }

  lemma NextPage(c: Config, k: nat)
    requires k < c.pages
    ensures |LogAt(c, k)| <= k
    ensures k in c.reserved ==> StatusAt(c, k + 1) == StatusAt(c, k) && |LogAt(c, k + 1)| == |LogAt(c, k)|
    ensures k !in c.reserved ==>
      && k in StatusAt(c, k) && StatusAt(c, k)[k] == Available
      && StatusAt(c, k + 1) == StatusAt(c, k)[k := InUse] && |LogAt(c, k + 1)| == |LogAt(c, k)| + 1
  {
    LogAtLength(c, k);
  }

  lemma LastPage(c: Config)
    requires Possible(c)
    ensures |LogAt(c, c.pages)| + |c.reserved| == c.pages
  {
    LogAtLength(c, c.pages);
    assert ReservedBelow(c, c.pages) == c.reserved;
  }

  /** Another call is entered and takes a record. */
  method EnterOne(m: Probed, t: Task)
    requires m.Valid() && m.allocProbe && t !in m.calls && |m.data| < m.config.maxActive && m.logger.chain != []
    modifies m`data, m`calls, m.logger, m.logger.pool
    ensures m.Valid() && m.calls.Keys == old(m.calls.Keys) + {t}
    ensures |m.data| == old(|m.data|) + 1 && |m.logger.chain| == |old(m.logger.chain)| - 1
  {
    hide *;
    m.Parts();
    m.RecordLeftIsOnList();
    ghost var s := m.Abstract();
    m.Enter(t, 0, [], NoModule);
    m.Parts();
    AfterEnter(m.config, s, m.Abstract(), t, TraceOf([], NoModule));
    m.RecordLeftIsOnList();
  }

  /** The module is loaded: all records are free and the probes are registered in the right order. */
  method Boot(config: Config, rebalance: (nat, Tree) -> Tree) returns (m: Probed)
    requires Possible(config) && forall k, t :: InOrder(rebalance(k, t)) == InOrder(t)
    ensures m.Valid() && m.config == config && fresh(m) && fresh(m.logger) && fresh(m.logger.pool)
    ensures m.allocProbe && m.calls == map[] && m.data == map[] && m.status == StatusAt(config, 0)
    ensures |m.logger.chain| == config.pages
  {
    hide *;
    FirstState(config);
    m := new Probed(config, rebalance, StatusAt(config, 0));
    FirstCounts(m);
    BothRegistered(m.freeProbes);
    m.RegisterFree(FreePagesOk);
    m.RegisterFree(FreeHotColdPage);
    m.RegisterAlloc();
  }

  /** All unreserved pages are allocated and logged, one by one. */
  method LogAllPages(m: Probed)
    requires m.Valid() && m.allocProbe && m.calls == map[] && m.status == StatusAt(m.config, 0)
    requires Possible(m.config) && m.config.maxActive > 0 && |m.logger.chain| == m.config.pages
    modifies m`data, m`status, m`calls, m.logger, m.logger.pool
    ensures m.Valid() && m.calls == map[] && m.data == map[] && |m.logger.chain| == |m.config.reserved|
  {
    hide *;
    NoData(m);
    FirstCount(m.config);
    for k := 0 to m.config.pages
      invariant m.Valid() && m.calls == map[] && m.data == map[] && m.status == StatusAt(m.config, k)
      invariant |m.logger.chain| == m.config.pages - |LogAt(m.config, k)|
    {
      NextPage(m.config, k);
      if k !in m.config.reserved {
        LogOnePage(m, k);
      }
    }
    LastPage(m.config);
  }

  /** As many calls are entered as there are free records. */
  method EnterAll(m: Probed)
    requires m.Valid() && m.allocProbe && m.calls == map[] && m.data == map[]
    requires |m.logger.chain| < m.config.maxActive
    modifies m`data, m`calls, m.logger, m.logger.pool
    ensures m.Valid() && m.logger.chain == [] && |m.data| < m.config.maxActive
  {
    hide *;
    ghost var n := |m.logger.chain|;
    var j := 0;
    while m.logger.free != 0
      invariant m.Valid() && (forall t :: t in m.calls ==> t < j)
      invariant |m.data| == j && |m.logger.chain| == n - j
      decreases |m.logger.chain|
    {
      FreeIsHead(m);
      EnterOne(m, j);
      j := j + 1;
    }
    FreeIsHead(m);
  }

  /**
    Too few pages are in use for good: all others are allocated and logged one by one, and then a
    call is entered for each page that is in use for good. An entry handler may still run, and the
    free list is empty.
   */
  method RunOut(config: Config, rebalance: (nat, Tree) -> Tree) returns (m: Probed)
    requires Possible(config) && |config.reserved| < config.maxActive
    requires forall k, t :: InOrder(rebalance(k, t)) == InOrder(t)
    ensures m.Valid() && m.config == config && m.allocProbe
    ensures |m.data| < config.maxActive && m.logger.chain == []
  {
    hide *;
    m := Boot(config, rebalance);
    LogAllPages(m);
    EnterAll(m);
  }
}
