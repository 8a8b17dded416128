/**
  Whole runs of the guard-zone modules: allocations, frees, writes and scans in any order. What an
  operation does to blocks and memory is what `GuardList.Guard` ensures.
 */
module GuardRuns {
  import opened Sequences
  import opened Words
  import opened GuardZones

  /** A line of output, with the zone it is about. */
  datatype Report = Report(serial: nat, trailing: bool, caller: string)

  datatype State = State(blocks: seq<Block>, mem: Memory, next: nat, reported: seq<Report>)

  ghost predicate Init(s: State) {
    s.blocks == [] && s.reported == []
  }

  ghost predicate Alloc(v: Variant, s: State, s': State, b: Block) {
    && b.serial == s.next && !b.trail && !b.lead
    && (forall i :: 0 <= i < |s.blocks| ==> Apart(v, b, s.blocks[i]))
    && s'.blocks == [b] + s.blocks && s'.next == s.next + 1 && s'.reported == s.reported
    && forall a: Addr :: Read(s'.mem, a) == if b.InTrail(v, a) || b.InLead(v, a) then FILLER else Read(s.mem, a)
  }

  ghost predicate Free(s: State, s': State, k: nat) {
    && k < |s.blocks|
    && s' == s.(blocks := s.blocks[..k] + s.blocks[k + 1..])
  }

  ghost predicate Write(s: State, s': State, a: Addr, x: Byte) {
    s' == s.(mem := s.mem[a := x])
  }

  ghost function TrailReport(v: Variant, mem: Memory, b: Block): seq<Report> {
    if !b.trail && Dirty(mem, b.TrailStart(v), TrailSize(v, b.kind, b.n)) then [Report(b.serial, true, b.caller)]
    else []
  }

  ghost function LeadReport(v: Variant, mem: Memory, b: Block): seq<Report> {
    if !b.lead && Dirty(mem, b.base, LeadSize(v, b.kind, b.n)) then [Report(b.serial, false, b.caller)] else []
  }

  ghost function BlockReports(v: Variant, mem: Memory, blocks: seq<Block>): seq<Report> {
    if blocks == [] then []
    else TrailReport(v, mem, blocks[0]) + LeadReport(v, mem, blocks[0]) + BlockReports(v, mem, blocks[1..])
  }

  ghost predicate Scan(v: Variant, s: State, s': State) {
    s' == s.(blocks := ScanBlocks(v, s.mem, s.blocks), reported := s.reported + BlockReports(v, s.mem, s.blocks))
  }

  datatype Step = DoAlloc(b: Block) | DoFree(k: nat) | DoWrite(a: Addr, x: Byte) | DoScan

  ghost predicate Next(v: Variant, s: State, s': State, step: Step) {
    match step
    case DoAlloc(b) => Alloc(v, s, s', b)
    case DoFree(k) => Free(s, s', k)
    case DoWrite(a, x) => Write(s, s', a, x)
    case DoScan => Scan(v, s, s')
  }

  ghost predicate Run(v: Variant, states: seq<State>, steps: seq<Step>) {
    && |states| == |steps| + 1
    && Init(states[0])
    && forall i :: 0 <= i < |steps| ==> Next(v, states[i], states[i + 1], steps[i])
  }

  // The lines of a scan are those of `check_iso`

  ghost function Callers(rs: seq<Report>): seq<string> {
    if rs == [] then [] else [rs[0].caller] + Callers(rs[1..])
  }

  lemma {:induction false} CallersConcat(a: seq<Report>, b: seq<Report>)
    ensures Callers(a + b) == Callers(a) + Callers(b)
  {
    if a == [] {
      assert a + b == b;
    } else {
      assert (a + b)[1..] == a[1..] + b;
      CallersConcat(a[1..], b);
    }
  }

  lemma OneBlockReports(v: Variant, mem: Memory, b: Block)
    ensures Callers(TrailReport(v, mem, b) + LeadReport(v, mem, b)) == Reports(mem, Zones(v, b))
  {
    CallersConcat(TrailReport(v, mem, b), LeadReport(v, mem, b));
    var zones := Zones(v, b);
    ReportsConcat(mem, [zones[0]], zones[1..]);
    assert zones == [zones[0]] + zones[1..];
    if v.TwoZones? {
      assert zones[1..] == [zones[1]];
    }
  }

  /** `check_iso`, walking the list, prints the lines of the blocks behind it. */
  lemma {:induction false} ScanPrintsBlockReports(v: Variant, mem: Memory, blocks: seq<Block>)
    ensures Callers(BlockReports(v, mem, blocks)) == Reports(mem, AllZones(v, blocks))
  {
    if blocks == [] {
    } else {
      var b, rest := blocks[0], blocks[1..];
      OneBlockReports(v, mem, b);
      ScanPrintsBlockReports(v, mem, rest);
      CallersConcat(TrailReport(v, mem, b) + LeadReport(v, mem, b), BlockReports(v, mem, rest));
      ReportsConcat(mem, Zones(v, b), AllZones(v, rest));
    }
  }

  // Every zone is reported at most once

  ghost predicate Serials(blocks: seq<Block>, next: nat) {
    && (forall i :: 0 <= i < |blocks| ==> blocks[i].serial < next)
    && forall i, j :: 0 <= i < j < |blocks| ==> blocks[i].serial != blocks[j].serial
  }

  /** A flag is set exactly if its zone has been reported. */
  ghost predicate FlagsTell(b: Block, rs: seq<Report>) {
    && (b.trail <==> Report(b.serial, true, b.caller) in rs)
    && (b.lead <==> Report(b.serial, false, b.caller) in rs)
  }

  ghost predicate Inv(v: Variant, s: State) {
    && AllApart(v, s.blocks)
    && Serials(s.blocks, s.next)
    && Distinct(s.reported)
    && (forall r :: r in s.reported ==> r.serial < s.next)
    && (forall i :: 0 <= i < |s.blocks| ==> FlagsTell(s.blocks[i], s.reported))
  }

  ghost predicate About(v: Variant, mem: Memory, b: Block, r: Report) {
    r in TrailReport(v, mem, b) || r in LeadReport(v, mem, b)
  }

  lemma AboutSerial(v: Variant, mem: Memory, b: Block, r: Report)
    requires About(v, mem, b, r)
    ensures r.serial == b.serial && r.caller == b.caller && !(if r.trailing then b.trail else b.lead)
  {
  }

  /** A report about no zone of `blocks` has another serial number than all of them. */
  lemma ReportSerial(v: Variant, mem: Memory, blocks: seq<Block>, r: Report) returns (k: nat)
    requires r in BlockReports(v, mem, blocks)
    ensures k < |blocks| && About(v, mem, blocks[k], r) && r.serial == blocks[k].serial
  {
    ReportsAbout(v, mem, blocks, r);
    k :| 0 <= k < |blocks| && About(v, mem, blocks[k], r);
    AboutSerial(v, mem, blocks[k], r);
  }

  lemma {:induction false} ReportsAbout(v: Variant, mem: Memory, blocks: seq<Block>, r: Report)
    ensures r in BlockReports(v, mem, blocks) <==> exists k :: 0 <= k < |blocks| && About(v, mem, blocks[k], r)
  {
    if blocks == [] {
    } else {
      var rest := blocks[1..];
      ReportsAbout(v, mem, rest, r);
      if r in BlockReports(v, mem, rest) {
        var k :| 0 <= k < |rest| && About(v, mem, rest[k], r);
        assert About(v, mem, blocks[k + 1], r);
      }
      if k :| 0 <= k < |blocks| && About(v, mem, blocks[k], r) {
        if k > 0 {
          assert About(v, mem, rest[k - 1], r);
        }
      }
    }
  }

  lemma {:induction false} ReportsOnce(v: Variant, mem: Memory, blocks: seq<Block>, next: nat)
    requires Serials(blocks, next)
    ensures Distinct(BlockReports(v, mem, blocks))
  {
    if blocks == [] {
    } else {
      var here := TrailReport(v, mem, blocks[0]) + LeadReport(v, mem, blocks[0]);
      var rest := BlockReports(v, mem, blocks[1..]);
      ReportsOnce(v, mem, blocks[1..], next);
      forall r | r in here
        ensures r !in rest
      {
        AboutSerial(v, mem, blocks[0], r);
        if r in rest {
          var k := ReportSerial(v, mem, blocks[1..], r);
        }
      }
      DistinctConcat(here, rest);
    }
  }

  /** The scanned blocks' own reports are exactly the ones their flags now tell of. */
  lemma ScanTells(v: Variant, s: State, k: nat)
    requires Inv(v, s) && k < |s.blocks|
    ensures FlagsTell(ScanBlock(v, s.mem, s.blocks[k]), s.reported + BlockReports(v, s.mem, s.blocks))
  {
    var b := s.blocks[k];
    assert FlagsTell(b, s.reported);
    OwnReport(v, s, k, true);
    OwnReport(v, s, k, false);
  }

  lemma OwnReport(v: Variant, s: State, k: nat, trailing: bool)
    requires Inv(v, s) && k < |s.blocks|
    ensures var r := Report(s.blocks[k].serial, trailing, s.blocks[k].caller);
      r in BlockReports(v, s.mem, s.blocks) <==> About(v, s.mem, s.blocks[k], r)
  {
    var r := Report(s.blocks[k].serial, trailing, s.blocks[k].caller);
    if r in BlockReports(v, s.mem, s.blocks) {
      var m := ReportSerial(v, s.mem, s.blocks, r);
      assert m == k;
    } else {
      ReportsAbout(v, s.mem, s.blocks, r);
    }
  }

  lemma ScanInv(v: Variant, s: State, s': State)
    requires Inv(v, s) && Scan(v, s, s')
    ensures Inv(v, s')
  {
    var found := BlockReports(v, s.mem, s.blocks);
    ScanApart(v, s.mem, s.blocks);
    ReportsOnce(v, s.mem, s.blocks, s.next);
    forall r | r in found
      ensures r !in s.reported && r.serial < s.next
    {
      var k := ReportSerial(v, s.mem, s.blocks, r);
      AboutSerial(v, s.mem, s.blocks[k], r);
      assert FlagsTell(s.blocks[k], s.reported);
    }
    DistinctConcat(s.reported, found);
    forall k | 0 <= k < |s.blocks|
      ensures FlagsTell(s'.blocks[k], s'.reported)
    {
      ScanTells(v, s, k);
    }
  }

  lemma AllocInv(v: Variant, s: State, s': State, b: Block)
    requires Inv(v, s) && Alloc(v, s, s', b)
    ensures Inv(v, s')
  {
    forall k | 0 <= k < |s'.blocks|
      ensures FlagsTell(s'.blocks[k], s'.reported)
    {
      if k > 0 {
        assert FlagsTell(s.blocks[k - 1], s.reported);
      }
    }
  }

  lemma FreeInv(v: Variant, s: State, s': State, k: nat)
    requires Inv(v, s) && Free(s, s', k)
    ensures Inv(v, s')
  {
    assert forall i :: 0 <= i < |s'.blocks| ==> s'.blocks[i] == s.blocks[if i < k then i else i + 1];
  }

  lemma {:induction false} RunInv(v: Variant, states: seq<State>, steps: seq<Step>, i: nat)
    requires Run(v, states, steps) && i < |states|
    ensures Inv(v, states[i])
  {
    if i == 0 {
    } else {
      RunInv(v, states, steps, i - 1);
      var s, s' := states[i - 1], states[i];
      match steps[i - 1]
      case DoAlloc(b) => AllocInv(v, s, s', b);
      case DoFree(k) => FreeInv(v, s, s', k);
      case DoWrite(a, x) =>
      case DoScan => ScanInv(v, s, s');
    }
  }

  /** Over a whole run no zone is reported twice. */
  lemma ReportedAtMostOnce(v: Variant, states: seq<State>, steps: seq<Step>, i: nat)
    requires Run(v, states, steps) && i < |states|
    ensures Distinct(states[i].reported)
  {
    RunInv(v, states, steps, i);
  }

  /** A scan leaves no live zone with a foreign byte unreported. */
  lemma ScanMissesNothing(v: Variant, states: seq<State>, steps: seq<Step>, i: nat, k: nat)
    requires Run(v, states, steps) && i < |steps| && steps[i] == DoScan && k < |states[i].blocks|
    ensures var b := states[i].blocks[k];
      && (Dirty(states[i].mem, b.TrailStart(v), TrailSize(v, b.kind, b.n)) ==>
            Report(b.serial, true, b.caller) in states[i + 1].reported)
      && (Dirty(states[i].mem, b.base, LeadSize(v, b.kind, b.n)) ==>
            Report(b.serial, false, b.caller) in states[i + 1].reported)
  {
    RunInv(v, states, steps, i);
    ScanTells(v, states[i], k);
  }

  /** The scan at step `j` found the zone that `r` is about live, as a zone of the `k`-th block, and dirty. */
  ghost predicate FoundDirty(v: Variant, states: seq<State>, steps: seq<Step>, j: nat, k: nat, r: Report) {
    && j < |steps| && j < |states| && steps[j] == DoScan && k < |states[j].blocks|
    && var b, mem := states[j].blocks[k], states[j].mem;
      && r.serial == b.serial && r.caller == b.caller
      && if r.trailing then Dirty(mem, b.TrailStart(v), TrailSize(v, b.kind, b.n))
         else Dirty(mem, b.base, LeadSize(v, b.kind, b.n))
  }

  /** Over every run, what has been reported is exactly what some scan so far found live and dirty. */
  lemma {:induction false} ReportedExactly(v: Variant, states: seq<State>, steps: seq<Step>, i: nat, r: Report)
    requires Run(v, states, steps) && i < |states|
    ensures r in states[i].reported <==> exists j: nat, k: nat :: j < i && FoundDirty(v, states, steps, j, k, r)
  {
    if i == 0 {
    } else {
      ReportedExactly(v, states, steps, i - 1, r);
      ReportsGrow(v, states, steps, i - 1);
      hide FoundDirty, Run;
      if r in states[i].reported && r !in states[i - 1].reported {
        var k := NewReport(v, states, steps, i - 1, r);
        assert FoundDirty(v, states, steps, i - 1, k, r);
      }
      if j: nat, k: nat :| j < i && FoundDirty(v, states, steps, j, k, r) {
        if j == i - 1 {
          FoundIsReported(v, states, steps, j, k, r);
        }
      }
    }
  }

  lemma FoundIsReported(v: Variant, states: seq<State>, steps: seq<Step>, j: nat, k: nat, r: Report)
    requires Run(v, states, steps) && FoundDirty(v, states, steps, j, k, r)
    ensures r in states[j + 1].reported
  {
    ScanMissesNothing(v, states, steps, j, k);
  }

  lemma ReportsGrow(v: Variant, states: seq<State>, steps: seq<Step>, i: nat)
    requires Run(v, states, steps) && i < |steps|
    ensures states[i].reported <= states[i + 1].reported
  {
    assert Next(v, states[i], states[i + 1], steps[i]);
  }

  lemma NewReport(v: Variant, states: seq<State>, steps: seq<Step>, i: nat, r: Report) returns (k: nat)
    requires Run(v, states, steps) && i < |steps| && r in states[i + 1].reported && r !in states[i].reported
    ensures FoundDirty(v, states, steps, i, k, r)
  {
    assert Next(v, states[i], states[i + 1], steps[i]);
    var s := states[i];
    k := ReportSerial(v, s.mem, s.blocks, r);
    AboutSerial(v, s.mem, s.blocks[k], r);
  }

  // Nothing is reported without a write into a zone

  /** An address outside all zones of live blocks. */
  ghost predicate Harmless(v: Variant, blocks: seq<Block>, a: Addr) {
    forall i :: 0 <= i < |blocks| ==> !blocks[i].InTrail(v, a) && !blocks[i].InLead(v, a)
  }

  ghost predicate Clean(v: Variant, mem: Memory, b: Block) {
    && !b.trail && !b.lead
    && forall a: Addr :: b.InTrail(v, a) || b.InLead(v, a) ==> Read(mem, a) == FILLER
  }

  ghost predicate Quiet(v: Variant, s: State) {
    s.reported == [] && forall i :: 0 <= i < |s.blocks| ==> Clean(v, s.mem, s.blocks[i])
  }

  lemma AllocQuiet(v: Variant, s: State, s': State, b: Block)
    requires Quiet(v, s) && Alloc(v, s, s', b)
    ensures Quiet(v, s')
  {
    forall i | 0 <= i < |s'.blocks|
      ensures Clean(v, s'.mem, s'.blocks[i])
    {
      if i > 0 {
        assert s'.blocks[i] == s.blocks[i - 1] && Clean(v, s.mem, s.blocks[i - 1]);
      }
    }
  }

  lemma {:induction false} CleanBlocksUnreported(v: Variant, mem: Memory, blocks: seq<Block>)
    requires forall i :: 0 <= i < |blocks| ==> Clean(v, mem, blocks[i])
    ensures BlockReports(v, mem, blocks) == []
  {
    if blocks == [] {
    } else {
      assert Clean(v, mem, blocks[0]);
      CleanBlocksUnreported(v, mem, blocks[1..]);
    }
  }

  lemma CleanScan(v: Variant, mem: Memory, b: Block)
    requires Clean(v, mem, b)
    ensures ScanBlock(v, mem, b) == b
  {
  }

  lemma ScanQuiet(v: Variant, s: State, s': State)
    requires Quiet(v, s) && Scan(v, s, s')
    ensures Quiet(v, s')
  {
    CleanBlocksUnreported(v, s.mem, s.blocks);
    forall i | 0 <= i < |s.blocks|
      ensures Clean(v, s'.mem, s'.blocks[i])
    {
      CleanScan(v, s.mem, s.blocks[i]);
    }
  }

  /** If all writes of a run stay out of the zones, the run reports nothing. */
  lemma {:induction false} HarmlessRunIsQuiet(v: Variant, states: seq<State>, steps: seq<Step>, i: nat)
    requires Run(v, states, steps) && i < |states|
    requires forall j :: 0 <= j < i && steps[j].DoWrite? ==> Harmless(v, states[j].blocks, steps[j].a)
    ensures Quiet(v, states[i])
  {
    if i == 0 {
    } else {
      HarmlessRunIsQuiet(v, states, steps, i - 1);
      var s, s' := states[i - 1], states[i];
      match steps[i - 1]
      case DoAlloc(b) => AllocQuiet(v, s, s', b);
      case DoFree(k) =>
        assert forall i :: 0 <= i < |s'.blocks| ==> s'.blocks[i] == s.blocks[if i < k then i else i + 1];
      case DoWrite(a, x) => WriteQuiet(v, s, s', a, x);
      case DoScan => ScanQuiet(v, s, s');
    }
  }

  lemma WriteQuiet(v: Variant, s: State, s': State, a: Addr, x: Byte)
    requires Quiet(v, s) && Write(s, s', a, x) && Harmless(v, s.blocks, a)
    ensures Quiet(v, s')
  {
    forall i | 0 <= i < |s.blocks|
      ensures Clean(v, s'.mem, s'.blocks[i])
    {
      assert Clean(v, s.mem, s.blocks[i]);
    }
  }

  /** The area given out for a block is harmless, and so is everything outside all blocks. */
  lemma UserAreaIsHarmless(v: Variant, blocks: seq<Block>, k: nat, off: nat)
    requires AllApart(v, blocks) && k < |blocks| && off < Usable(v, blocks[k].kind, blocks[k].n)
    ensures Harmless(v, blocks, blocks[k].User(v) + off)
  {
    var a := blocks[k].User(v) + off;
    LayoutFillsBlock(v, blocks[k].kind, blocks[k].n);
    forall i | 0 <= i < |blocks|
      ensures !blocks[i].InTrail(v, a) && !blocks[i].InLead(v, a)
    {
      LayoutFillsBlock(v, blocks[i].kind, blocks[i].n);
      if i != k {
        assert Apart(v, blocks[if i < k then i else k], blocks[if i < k then k else i]);
      }
    }
  }

  /**
    A foreign byte behind the user's area shows in the trailing zone exactly if it is no farther
    away than the zone is long. The block of `__nget_free_pages` has an area 40 bytes shorter than
    the order says: of the last 40 bytes of those pages, the first 20 raise a false alarm, and the
    last 20 lie behind the block, where no alarm is raised.
   */
  lemma OverrunShowsExactly(v: Variant, mem: Memory, b: Block, off: nat, x: Byte)
    requires Clean(v, mem, b) && x != FILLER
    ensures Dirty(mem[b.User(v) + off := x], b.TrailStart(v), TrailSize(v, b.kind, b.n))
       <==> Usable(v, b.kind, b.n) <= off < Usable(v, b.kind, b.n) + TrailSize(v, b.kind, b.n)
    ensures b.kind.PlainPages? && v.TwoZones? ==> Usable(v, b.kind, b.n) == Requested(b.kind, b.n) - 40
  {
    LayoutFillsBlock(v, b.kind, b.n);
    var after := mem[b.User(v) + off := x];
    assert Read(after, b.User(v) + off) == x;
    forall a: Addr | a != b.User(v) + off
      ensures Read(after, a) == Read(mem, a)
    {
    }
    if Dirty(after, b.TrailStart(v), TrailSize(v, b.kind, b.n)) {
      var a: Addr :| b.TrailStart(v) <= a < b.TrailStart(v) + TrailSize(v, b.kind, b.n) && Read(after, a) != FILLER;
      assert b.InTrail(v, a);
      assert a == b.User(v) + off;
    }
  }

  /** A foreign byte `off` bytes behind the user's pointer makes the trailing zone dirty. */
  ghost predicate WriteShows(v: Variant, mem: Memory, b: Block, off: nat, x: Byte) {
    Dirty(mem[b.User(v) + off := x], b.TrailStart(v), TrailSize(v, b.kind, b.n))
  }

  /** Using all of what was requested raises no alarm, exactly for the wrappers that enlarge the block. */
  lemma LegalUseQuietExactly(v: Variant, mem: Memory, b: Block, x: Byte)
    requires Clean(v, mem, b) && x != FILLER
    ensures (forall off: nat :: off < Requested(b.kind, b.n) ==> !WriteShows(v, mem, b, off, x))
       <==> !b.kind.PlainPages?
  {
    LayoutFillsBlock(v, b.kind, b.n);
    forall off: nat | off < Requested(b.kind, b.n)
      ensures WriteShows(v, mem, b, off, x) ==> b.kind.PlainPages?
    {
      OverrunShowsExactly(v, mem, b, off, x);
    }
    if b.kind.PlainPages? {
      OverrunShowsExactly(v, mem, b, Usable(v, b.kind, b.n), x);
      assert WriteShows(v, mem, b, Usable(v, b.kind, b.n), x);
    }
  }

  /** `a` lies in the area given out for the `k`-th block. */
  ghost predicate InUserArea(v: Variant, blocks: seq<Block>, k: nat, a: Addr) {
    k < |blocks| && blocks[k].User(v) <= a < blocks[k].User(v) + Usable(v, blocks[k].kind, blocks[k].n)
  }

  /** If all writes of a run stay in the areas given out, the run reports nothing. */
  lemma UserWritesAreQuiet(v: Variant, states: seq<State>, steps: seq<Step>, i: nat)
    requires Run(v, states, steps) && i < |states|
    requires forall j :: 0 <= j < i && steps[j].DoWrite? ==>
               exists k: nat :: InUserArea(v, states[j].blocks, k, steps[j].a)
    ensures states[i].reported == []
  {
    forall j | 0 <= j < i && steps[j].DoWrite?
      ensures Harmless(v, states[j].blocks, steps[j].a)
    {
      var k: nat :| InUserArea(v, states[j].blocks, k, steps[j].a);
      RunInv(v, states, steps, j);
      UserAreaIsHarmless(v, states[j].blocks, k, steps[j].a - states[j].blocks[k].User(v));
    }
    HarmlessRunIsQuiet(v, states, steps, i);
  }

  ghost function Filled(mem: Memory, start: Addr, size: nat): Memory {
    if size == 0 then mem else Filled(mem, start, size - 1)[start + size - 1 := FILLER]
  }

  lemma {:induction false} FilledReads(mem: Memory, start: Addr, size: nat)
    ensures forall a: Addr ::
      Read(Filled(mem, start, size), a) == if start <= a < start + size then FILLER else Read(mem, a)
  {
    if size == 0 {
    } else {
      FilledReads(mem, start, size - 1);
    }
  }

  /** Memory can be as an allocation leaves it. */
  lemma FilledZones(v: Variant, b: Block) returns (mem: Memory)
    ensures forall a: Addr ::
      Read(mem, a) == if b.InTrail(v, a) || b.InLead(v, a) then FILLER else Read(map[], a)
  {
    var lead := Filled(map[], b.base, LeadSize(v, b.kind, b.n));
    FilledReads(map[], b.base, LeadSize(v, b.kind, b.n));
    mem := Filled(lead, b.TrailStart(v), TrailSize(v, b.kind, b.n));
    FilledReads(lead, b.TrailStart(v), TrailSize(v, b.kind, b.n));
  }

  /**
    A block of `__nget_free_pages`, one write within the pages that were asked for, and a scan: an
    overflow is reported.
   */
  lemma FalseAlarm(v: Variant, n: nat, base: Addr, caller: string)
    returns (states: seq<State>, steps: seq<Step>, off: nat)
    ensures Run(v, states, steps) && |steps| == 3 && off < Requested(PlainPages, n)
    ensures steps[0].DoAlloc? && steps[0].b.kind == PlainPages && steps[0].b.n == n
    ensures steps[1] == DoWrite(steps[0].b.User(v) + off, 0) && steps[2] == DoScan
    ensures states[2].reported == [] && states[3].reported == [Report(0, true, caller)]
  {
    var b := Block(0, base, PlainPages, n, caller, false, false);
    LayoutFillsBlock(v, b.kind, b.n);
    off := Usable(v, PlainPages, n);
    var mem := FilledZones(v, b);
    assert Clean(v, mem, b);
    OverrunShowsExactly(v, mem, b, off, 0);
    var mem' := mem[b.User(v) + off := 0];
    var s0, s1, s2 := State([], map[], 0, []), State([b], mem, 1, []), State([b], mem', 1, []);
    LeadStaysClean(v, mem, b, off, 0);
    var s3 := s2.(blocks := ScanBlocks(v, mem', [b]), reported := [Report(0, true, caller)]);
    assert BlockReports(v, mem', [b]) == [Report(0, true, caller)];
    states, steps := [s0, s1, s2, s3], [DoAlloc(b), DoWrite(b.User(v) + off, 0), DoScan];
  }

  lemma LeadStaysClean(v: Variant, mem: Memory, b: Block, off: nat, x: Byte)
    requires Clean(v, mem, b)
    ensures LeadReport(v, mem[b.User(v) + off := x], b) == []
  {
    var after := mem[b.User(v) + off := x];
    if Dirty(after, b.base, LeadSize(v, b.kind, b.n)) {
      var a: Addr :| b.base <= a < b.base + LeadSize(v, b.kind, b.n) && Read(after, a) != FILLER;
      assert b.InLead(v, a) && a != b.User(v) + off;
    }
  }

  /** `a` lies in the bytes that were requested for the `k`-th block. */
  ghost predicate InRequest(v: Variant, blocks: seq<Block>, k: nat, a: Addr) {
    k < |blocks| && blocks[k].User(v) <= a < blocks[k].User(v) + Requested(blocks[k].kind, blocks[k].n)
  }

  /** A run with wrappers of `kinds` only, and with writes only into the bytes that were requested. */
  ghost predicate LegalRun(v: Variant, kinds: set<Kind>, states: seq<State>, steps: seq<Step>) {
    && Run(v, states, steps)
    && (forall j :: 0 <= j < |steps| && steps[j].DoAlloc? ==> steps[j].b.kind in kinds)
    && (forall j :: 0 <= j < |steps| && steps[j].DoWrite? ==>
          exists k: nat :: InRequest(v, states[j].blocks, k, steps[j].a))
  }

  /** A block after a step is the one just allocated, or it was there before. */
  lemma StepKind(v: Variant, s: State, s': State, step: Step, k: nat) returns (before: bool, j: nat)
    requires Next(v, s, s', step) && k < |s'.blocks|
    ensures before ==> j < |s.blocks| && s'.blocks[k].kind == s.blocks[j].kind
    ensures !before ==> step.DoAlloc? && s'.blocks[k].kind == step.b.kind
  {
    match step
    case DoAlloc(b) => before, j := k > 0, if k > 0 then k - 1 else 0;
    case DoFree(i) => before, j := true, if k < i then k else k + 1;
    case _ => before, j := true, k;
  }

  lemma {:induction false} KindsOfRun(v: Variant, kinds: set<Kind>, states: seq<State>, steps: seq<Step>,
                                      i: nat, k: nat)
    requires LegalRun(v, kinds, states, steps) && i < |states| && k < |states[i].blocks|
    ensures states[i].blocks[k].kind in kinds
  {
    if i == 0 {
    } else {
      hide Next;
      var before, j := StepKind(v, states[i - 1], states[i], steps[i - 1], k);
      if before {
        KindsOfRun(v, kinds, states, steps, i - 1, j);
      }
    }
  }

  lemma LegalRunQuiet(v: Variant, kinds: set<Kind>, states: seq<State>, steps: seq<Step>, i: nat)
    requires LegalRun(v, kinds, states, steps) && PlainPages !in kinds && i < |states|
    ensures states[i].reported == []
  {
    forall j | 0 <= j < i && steps[j].DoWrite?
      ensures exists k: nat :: InUserArea(v, states[j].blocks, k, steps[j].a)
    {
      var k: nat :| InRequest(v, states[j].blocks, k, steps[j].a);
      KindsOfRun(v, kinds, states, steps, j, k);
      LayoutFillsBlock(v, states[j].blocks[k].kind, states[j].blocks[k].n);
      assert InUserArea(v, states[j].blocks, k, steps[j].a);
    }
    UserWritesAreQuiet(v, states, steps, i);
  }

  /** Programs that use what they asked for are never reported, exactly if they keep off `__nget_free_pages`. */
  lemma LegalRunsQuietExactly(v: Variant, kinds: set<Kind>)
    ensures (forall states: seq<State>, steps, i: nat ::
               LegalRun(v, kinds, states, steps) && i < |states| ==> states[i].reported == [])
       <==> PlainPages !in kinds
  {
    if PlainPages in kinds {
      var states, steps, off := FalseAlarm(v, 0, 0, "");
      assert InRequest(v, states[1].blocks, 0, steps[1].a);
      assert LegalRun(v, kinds, states, steps);
      assert states[3].reported != [];
    } else {
      forall states: seq<State>, steps, i: nat | LegalRun(v, kinds, states, steps) && i < |states|
        ensures states[i].reported == []
      {
        LegalRunQuiet(v, kinds, states, steps, i);
      }
    }
  }
}
