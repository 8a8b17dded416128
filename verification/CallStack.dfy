/**
  The call stack and the modules a record keeps (mem_leak/kerspace/huawei_log_page.c).
 */
module CallStack {
  import opened Words
  import opened PageLog
  import opened LogPage

  const KPROBES_SKIP_NUM := 8

  function Take<T>(s: seq<T>, n: nat): seq<T> {
    if n < |s| then s[..n] else s
  }

  function Skip<T>(s: seq<T>, n: nat): seq<T> {
    if n < |s| then s[n..] else []
  }

  /** `s` cut or filled up to `n` elements. */
  function Fit<T>(s: seq<T>, n: nat, filler: T): seq<T> {
    Take(s, n) + Fill(n - |Take(s, n)|, filler)
  }

  /** The modules of a sequence of addresses, in order, addresses outside all modules left out. */
  function ModulesOf(entries: seq<Ulong>, moduleOf: Ulong -> Option<nat>): seq<nat> {
    if entries == [] then [] else
      var ms := ModulesOf(entries[..|entries| - 1], moduleOf);
      match moduleOf(entries[|entries| - 1]) { case None => ms case Some(m) => ms + [m] }
  }

  /** A run of equal elements counts once. */
  function Runs(ms: seq<nat>): seq<nat> {
    if |ms| <= 1 then ms
    else if ms[|ms| - 1] == ms[|ms| - 2] then Runs(ms[..|ms| - 1])
    else Runs(ms[..|ms| - 1]) + [ms[|ms| - 1]]
  }

  function Somes(ms: seq<nat>): (r: seq<Option<nat>>)
    ensures |r| == |ms| && forall i :: 0 <= i < |ms| ==> r[i] == Some(ms[i])
  {
    if ms == [] then [] else Somes(ms[..|ms| - 1]) + [Some(ms[|ms| - 1])]
  }

  /** The first modules among the entries, a run of equal modules counting once. */
  function ModuleTable(entries: seq<Ulong>, moduleOf: Ulong -> Option<nat>): seq<Option<nat>> {
    Fit(Somes(Take(Runs(ModulesOf(entries, moduleOf)), MODULE_MAX)), MODULE_MAX, None)
  }

  /** What a record keeps of a stack dump. */
  function TraceOf(dump: seq<Ulong>, moduleOf: Ulong -> Option<nat>): Trace {
    var entries := Fit(Skip(dump, KPROBES_SKIP_NUM), TRACE_LEVEL, 0);
    Trace(entries, ModuleTable(entries, moduleOf))
  }

  /** `hw_save_stack_address`, called for each address of the dump: skips some, keeps what fits. */
  method SaveStack(dump: seq<Ulong>) returns (entries: seq<Ulong>)
    ensures |entries| == TRACE_LEVEL && entries == Fit(Skip(dump, KPROBES_SKIP_NUM), TRACE_LEVEL, 0)
  {
    var nrEntries, skip := 0, KPROBES_SKIP_NUM;
    entries := Fill(TRACE_LEVEL, 0);
    for i := 0 to |dump|
      invariant |entries| == TRACE_LEVEL && 0 <= skip <= KPROBES_SKIP_NUM
      invariant skip > 0 ==> i == KPROBES_SKIP_NUM - skip && nrEntries == 0
      invariant skip == 0 ==> i >= KPROBES_SKIP_NUM
      invariant skip == 0 ==>
        nrEntries == if i - KPROBES_SKIP_NUM <= TRACE_LEVEL then i - KPROBES_SKIP_NUM else TRACE_LEVEL
      invariant forall j :: 0 <= j < TRACE_LEVEL ==>
        entries[j] == if j < nrEntries then dump[KPROBES_SKIP_NUM + j] else 0
    {
      if skip > 0 {
        skip := skip - 1;
      } else if nrEntries < TRACE_LEVEL {
        entries := entries[nrEntries := dump[i]];
        nrEntries := nrEntries + 1;
      }
    }
  }

  lemma RunsNext(ms: seq<nat>, m: nat)
    ensures Runs(ms + [m]) == if ms != [] && ms[|ms| - 1] == m then Runs(ms) else Runs(ms) + [m]
  {
    assert (ms + [m])[..|ms|] == ms;
  }

  lemma ModulesNext(entries: seq<Ulong>, moduleOf: Ulong -> Option<nat>, i: nat)
    requires i < |entries|
    ensures var ms := ModulesOf(entries[..i], moduleOf);
      ModulesOf(entries[..i + 1], moduleOf) == match moduleOf(entries[i]) { case None => ms case Some(m) => ms + [m] }
  {
    assert entries[..i + 1][..i] == entries[..i];
  }

  ghost predicate Table(modules: seq<Option<nat>>, runs: seq<nat>) {
    && |runs| <= |modules| == MODULE_MAX
    && forall j :: 0 <= j < MODULE_MAX ==> modules[j] == if j < |runs| then Some(runs[j]) else None
  }

  lemma TableComplete(modules: seq<Option<nat>>, entries: seq<Ulong>, moduleOf: Ulong -> Option<nat>, seen: nat)
    requires seen <= |entries| && Table(modules, Runs(ModulesOf(entries[..seen], moduleOf)))
    requires seen == |entries| || modules[MODULE_MAX - 1].Some?
    ensures modules == ModuleTable(entries, moduleOf)
  {
    RunsGrow(entries, moduleOf, seen);
    assert entries[..|entries|] == entries;
    var runs := Runs(ModulesOf(entries[..seen], moduleOf));
    assert Take(Runs(ModulesOf(entries, moduleOf)), MODULE_MAX) == runs;
  }

  /** The variables of the loop after the first `i` entries. */
  ghost predicate Recorded(entries: seq<Ulong>, moduleOf: Ulong -> Option<nat>, i: nat,
                           modules: seq<Option<nat>>, moduleIndex: nat, lastMod: Option<nat>) {
    i <= |entries| &&
    var ms := ModulesOf(entries[..i], moduleOf);
    && Table(modules, Runs(ms)) && moduleIndex == |Runs(ms)|
    && lastMod == if ms == [] then None else Some(ms[|ms| - 1])
  }

  /** One entry more: it starts a new run, or it changes nothing. */
  lemma RecordNext(entries: seq<Ulong>, moduleOf: Ulong -> Option<nat>, i: nat,
                   modules: seq<Option<nat>>, moduleIndex: nat, lastMod: Option<nat>)
    requires Recorded(entries, moduleOf, i, modules, moduleIndex, lastMod)
    requires i < |entries| && moduleIndex < MODULE_MAX == |modules|
    ensures var mod := moduleOf(entries[i]);
      if mod == None || mod == lastMod then Recorded(entries, moduleOf, i + 1, modules, moduleIndex, lastMod)
      else Recorded(entries, moduleOf, i + 1, modules[moduleIndex := mod], moduleIndex + 1, mod)
  {
    hide Runs, ModulesOf, Table;
    ModulesNext(entries, moduleOf, i);
    var ms, mod := ModulesOf(entries[..i], moduleOf), moduleOf(entries[i]);
    if mod.Some? {
      RunsNext(ms, mod.value);
      TableNext(modules, Runs(ms), mod.value);
    }
  }

  lemma TableNext(modules: seq<Option<nat>>, runs: seq<nat>, m: nat)
    requires Table(modules, runs)
    ensures |runs| < MODULE_MAX ==> Table(modules[|runs| := Some(m)], runs + [m])
  {
  }

  /** The loop of `get_lp_call_stack`: consecutive entries of one module are recorded once, four at most. */
  method SaveModules(entries: seq<Ulong>, moduleOf: Ulong -> Option<nat>) returns (modules: seq<Option<nat>>)
    requires |entries| == TRACE_LEVEL
    ensures modules == ModuleTable(entries, moduleOf)
  {
    var i, moduleIndex, lastMod := 0, 0, None;
    modules := Fill(MODULE_MAX, None);
    while i < TRACE_LEVEL && moduleIndex < MODULE_MAX
      invariant i <= TRACE_LEVEL && Recorded(entries, moduleOf, i, modules, moduleIndex, lastMod)
    {
      RecordNext(entries, moduleOf, i, modules, moduleIndex, lastMod);
      var mod := moduleOf(entries[i]);
      if mod != None && mod != lastMod {
        lastMod := mod;
        modules := modules[moduleIndex := mod];
        moduleIndex := moduleIndex + 1;
      }
      i := i + 1;
    }
    TableComplete(modules, entries, moduleOf, i);
  }

  /** Later entries only add to the runs found so far. */
  lemma {:induction false} RunsGrow(entries: seq<Ulong>, moduleOf: Ulong -> Option<nat>, i: nat)
    requires i <= |entries|
    ensures Runs(ModulesOf(entries[..i], moduleOf)) <= Runs(ModulesOf(entries, moduleOf))
    decreases |entries|
  {
    if i < |entries| {
      var shorter := entries[..|entries| - 1];
      RunsGrow(shorter, moduleOf, i);
      assert shorter[..i] == entries[..i];
      var ms := ModulesOf(shorter, moduleOf);
      match moduleOf(entries[|entries| - 1]) {
        case None =>
        case Some(m) =>
          RunsNext(ms, m);
      }
    } else {
      assert entries[..i] == entries;
    }
  }

  // What is kept of a dump, by positions

  /** The addresses kept: from the ninth of the dump on, as far as there are any, 26 at most; zeros behind them. */
  ghost predicate AddressesKept(entries: seq<Ulong>, dump: seq<Ulong>) {
    |entries| == 26 && forall j :: 0 <= j < 26 ==> entries[j] == if 8 + j < |dump| then dump[8 + j] else 0
  }

  /** The modules of the entries, one by one. */
  ghost function Mods(entries: seq<Ulong>, moduleOf: Ulong -> Option<nat>): (mods: seq<Option<nat>>)
    ensures |mods| == |entries| && forall i :: 0 <= i < |entries| ==> mods[i] == moduleOf(entries[i])
  {
    if entries == [] then [] else
      Mods(entries[..|entries| - 1], moduleOf) + [moduleOf(entries[|entries| - 1])]
  }

  /** The `k`-th run begins at `picks[k]`; there its module is met first, and not the one of the run before. */
  ghost predicate Begins(runs: seq<nat>, mods: seq<Option<nat>>, picks: seq<nat>) {
    && |picks| == |runs|
    && (forall k :: 0 <= k < |picks| ==> picks[k] < |mods| && mods[picks[k]] == Some(runs[k]))
    && (forall k :: 0 < k < |picks| ==> picks[k - 1] < picks[k] && runs[k - 1] != runs[k])
  }

  /** Entry `i` lies in front of all runs. */
  ghost predicate InFront(picks: seq<nat>, i: int) {
    picks == [] || i < picks[0]
  }

  /** Entry `i` lies between the begin of the `k`-th run and that of the next one. */
  ghost predicate InRun(picks: seq<nat>, k: int, i: int) {
    0 <= k < |picks| && picks[k] <= i && (k + 1 < |picks| ==> i < picks[k + 1])
  }

  /** No entry has a module in front of the first run, or another module than its run. */
  ghost predicate Covers(runs: seq<nat>, mods: seq<Option<nat>>, picks: seq<nat>) {
    && |picks| == |runs|
    && (forall i :: 0 <= i < |mods| && InFront(picks, i) ==> mods[i] == None)
    && (forall k, i :: 0 <= i < |mods| && InRun(picks, k, i) ==> mods[i] == None || mods[i] == Some(runs[k]))
  }

  /**
    The table lists the runs of equal modules in the entries up to some position, without those that
    have none; and this is the last position, or else the table is full.
   */
  ghost predicate ModulesKept(modules: seq<Option<nat>>, entries: seq<Ulong>, moduleOf: Ulong -> Option<nat>) {
    && |modules| == 4
    && exists runs, picks, upTo ::
      && Lists(runs, picks, upTo, Mods(entries, moduleOf))
      && forall k :: 0 <= k < 4 ==> modules[k] == if k < |runs| then Some(runs[k]) else None
  }

  ghost predicate Lists(runs: seq<nat>, picks: seq<nat>, upTo: nat, mods: seq<Option<nat>>) {
    && |runs| <= 4 && upTo <= |mods| && (|runs| < 4 ==> upTo == |mods|)
    && Begins(runs, mods[..upTo], picks) && Covers(runs, mods[..upTo], picks)
  }

  lemma LastRun(ms: seq<nat>)
    ensures Runs(ms) == [] <==> ms == []
    ensures ms != [] ==> Runs(ms)[|Runs(ms)| - 1] == ms[|ms| - 1]
  {
  }

  /** One entry more goes on with the last run, or has no module. */
  lemma GoesOn(runs: seq<nat>, mods: seq<Option<nat>>, picks: seq<nat>, mod: Option<nat>)
    requires Begins(runs, mods, picks) && Covers(runs, mods, picks)
    requires mod == None || (runs != [] && mod == Some(runs[|runs| - 1]))
    ensures Begins(runs, mods + [mod], picks) && Covers(runs, mods + [mod], picks)
  {
    var more := mods + [mod];
    forall k, i | 0 <= i < |more| && InRun(picks, k, i)
      ensures more[i] == None || more[i] == Some(runs[k])
    {
      if i < |mods| {
        assert mods[i] == more[i];
      } else if k + 1 < |picks| {
        assert picks[k + 1] < |mods|;
      }
    }
  }

  /** One entry more begins a new run. */
  lemma BeginsNew(runs: seq<nat>, mods: seq<Option<nat>>, picks: seq<nat>, m: nat)
    requires Begins(runs, mods, picks) && Covers(runs, mods, picks)
    requires runs == [] || m != runs[|runs| - 1]
    ensures Begins(runs + [m], mods + [Some(m)], picks + [|mods|])
    ensures Covers(runs + [m], mods + [Some(m)], picks + [|mods|])
  {
    var more, all, at := mods + [Some(m)], runs + [m], picks + [|mods|];
    forall k, i | 0 <= i < |more| && InRun(at, k, i)
      ensures more[i] == None || more[i] == Some(all[k])
    {
      if i < |mods| {
        assert k < |picks| && InRun(picks, k, i);
      }
    }
    assert forall i :: 0 <= i < |more| && InFront(at, i) ==> InFront(picks, i);
  }

  /** Where the runs begin. */
  lemma {:induction false} RunsBegin(entries: seq<Ulong>, moduleOf: Ulong -> Option<nat>) returns (picks: seq<nat>)
    ensures Begins(Runs(ModulesOf(entries, moduleOf)), Mods(entries, moduleOf), picks)
    ensures Covers(Runs(ModulesOf(entries, moduleOf)), Mods(entries, moduleOf), picks)
  {
    hide Begins, Covers, Runs;
    if entries == [] {
      picks := [];
      NoRuns();
    } else {
      var n := |entries| - 1;
      picks := RunsBegin(entries[..n], moduleOf);
      var ms, mod := ModulesOf(entries[..n], moduleOf), moduleOf(entries[n]);
      LastRun(ms);
      if mod.Some? {
        RunsNext(ms, mod.value);
      }
      if mod == None || (ms != [] && mod == Some(ms[|ms| - 1])) {
        GoesOn(Runs(ms), Mods(entries[..n], moduleOf), picks, mod);
      } else {
        BeginsNew(Runs(ms), Mods(entries[..n], moduleOf), picks, mod.value);
        picks := picks + [n];
      }
    }
  }

  lemma NoRuns()
    ensures Runs([]) == [] && Begins([], [], []) && Covers([], [], [])
  {
  }

  /** The first four of many runs. */
  lemma FirstFour(runs: seq<nat>, mods: seq<Option<nat>>, picks: seq<nat>)
    requires Begins(runs, mods, picks) && Covers(runs, mods, picks) && |runs| > 4
    ensures Lists(runs[..4], picks[..4], picks[4], mods)
  {
    var first := mods[..picks[4]];
    assert picks[0] < picks[1] < picks[2] < picks[3] < picks[4];
    forall k, i | 0 <= i < |first| && InRun(picks[..4], k, i)
      ensures first[i] == None || first[i] == Some(runs[k])
    {
      assert InRun(picks, k, i);
    }
    assert forall i :: 0 <= i < |first| && InFront(picks[..4], i) ==> InFront(picks, i);
  }

  lemma TableLists(entries: seq<Ulong>, moduleOf: Ulong -> Option<nat>)
    ensures ModulesKept(ModuleTable(entries, moduleOf), entries, moduleOf)
  {
    hide Runs, ModulesOf, Somes, Begins, Covers, Mods;
    var runs, mods := Runs(ModulesOf(entries, moduleOf)), Mods(entries, moduleOf);
    var picks := RunsBegin(entries, moduleOf);
    var upTo := |mods|;
    BeginsLength(runs, mods, picks);
    if |runs| > 4 {
      FirstFour(runs, mods, picks);
      runs, picks, upTo := runs[..4], picks[..4], picks[4];
    } else {
      assert mods[..|mods|] == mods;
    }
    assert Lists(runs, picks, upTo, mods);
    var table := ModuleTable(entries, moduleOf);
    assert |table| == 4 && forall k :: 0 <= k < 4 ==> table[k] == if k < |runs| then Some(runs[k]) else None;
  }

  lemma BeginsLength(runs: seq<nat>, mods: seq<Option<nat>>, picks: seq<nat>)
    requires Begins(runs, mods, picks)
    ensures |picks| == |runs|
  {
  }

  ghost predicate Keeps(trace: Trace, dump: seq<Ulong>, moduleOf: Ulong -> Option<nat>) {
    AddressesKept(trace.entries, dump) && ModulesKept(trace.modules, trace.entries, moduleOf)
  }

  /** What a record keeps of a stack dump, by positions. */
  lemma TraceKept(dump: seq<Ulong>, moduleOf: Ulong -> Option<nat>)
    ensures Keeps(TraceOf(dump, moduleOf), dump, moduleOf)
  {
    hide ModuleTable, ModulesKept;
    TableLists(TraceOf(dump, moduleOf).entries, moduleOf);
  }
}
