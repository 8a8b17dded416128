/**
  The wrappers and the scan as operations on the list `iso_head` and on memory. One object models
  either module, by its variant; each operation runs under the module's list lock.
 */
module GuardList {
  import opened GuardZones
  import GuardRuns

  class Guard {
    const variant: Variant
    var isoHead: seq<Zone>
    var mem: Memory
    /** The live blocks, the newest first; how many there have been; what has been printed. */
    ghost var blocks: seq<Block>
    ghost var next: nat
    ghost var reported: seq<GuardRuns.Report>

    /** The state of a run that the lists and the memory of the module stand for. */
    ghost function Abstract(): GuardRuns.State
      reads this
    {
      GuardRuns.State(blocks, mem, next, reported)
    }

    ghost predicate Valid()
      reads this
    {
      isoHead == AllZones(variant, blocks) && AllApart(variant, blocks)
    }

    constructor (variant: Variant, mem: Memory)
      ensures Valid() && GuardRuns.Init(Abstract()) && this.variant == variant && this.mem == mem
      ensures next == 0 && isoHead == []
    {
      this.variant, this.mem := variant, mem;
      isoHead, blocks, next, reported := [], [], 0, [];
    }

    /** Fills a zone with the filler byte, one byte after the other, and touches nothing else. */
    method Fill(start: Addr, size: nat)
      modifies `mem
      ensures forall a: Addr :: Read(mem, a) == if start <= a < start + size then FILLER else Read(old(mem), a)
    {
      for i := 0 to size
        invariant forall a: Addr :: Read(mem, a) == if start <= a < start + i then FILLER else Read(old(mem), a)
      {
        ghost var before := mem;
        mem := mem[start + i := FILLER];
        assert forall a: Addr :: Read(mem, a) == if a == start + i then FILLER else Read(before, a);
      }
    }

    /**
      An allocation wrapper, given the block and the bus address the kernel returned: fills the
      zones, puts the trailing zone in front of the leading one at the head of the list, and
      passes on the addresses behind the leading zone.
     */
    method Alloc(kind: Kind, n: nat, caller: string, base: Addr, rawBus: int)
        returns (user: Addr, bus: int)
      requires Valid()
      requires forall b :: b in blocks ==> Apart(variant, Block(next, base, kind, n, caller, false, false), b)
      modifies this
      ensures Valid()
      ensures var block := Block(old(next), base, kind, n, caller, false, false);
        GuardRuns.Alloc(variant, old(Abstract()), Abstract(), block)
      ensures user == blocks[0].User(variant) && bus - rawBus == user - base
      ensures var at, zones := isoHead[0].addr - base, |isoHead| - |old(isoHead)|;
        && zones == (if variant.TwoZones? then 2 else 1) && isoHead[zones..] == old(isoHead)
        && Layout(variant, kind, n, user - base, at, isoHead[0].size, RawSize(variant, kind, n))
        && (zones == 2 ==> isoHead[1].addr == base && isoHead[1].size == user - base)
      ensures forall a: Addr :: base <= a < user || isoHead[0].addr <= a < isoHead[0].addr + isoHead[0].size ==>
        Read(mem, a) == 'a' as int
    {
      hide Layout, RawSize, TrailSize, TrailOffset, Apart;
      LayoutIs(variant, kind, n);
      ghost var block := Block(next, base, kind, n, caller, false, false);
      user := base + LeadSize(variant, kind, n);
      bus := rawBus + LeadSize(variant, kind, n);
      var trailStart := base + TrailOffset(variant, kind, n);
      Fill(base, LeadSize(variant, kind, n));
      Fill(trailStart, TrailSize(variant, kind, n));
      if variant.TwoZones? {
        isoHead := [Zone(base, LeadSize(variant, kind, n), 0, caller, false)] + isoHead;
        isoHead := [Zone(trailStart, TrailSize(variant, kind, n), 0, caller, false)] + isoHead;
      } else {
        isoHead := [Zone(trailStart, TrailSize(variant, kind, n), user, caller, false)] + isoHead;
      }
      blocks, next := [block] + blocks, next + 1;
      assert isoHead == Zones(variant, block) + old(isoHead);
    }

    /** The search of the free wrappers: the one zone of the list with the wanted address. */
    method FindZone(rawBase: Addr, user: Addr, ghost target: nat) returns (pos: nat)
      requires Valid() && target < |isoHead|
      requires if variant.TwoZones? then isoHead[target].addr == rawBase else isoHead[target].memAddr == user
      ensures pos == target
    {
      pos := 0;
      while if variant.TwoZones? then isoHead[pos].addr != rawBase else isoHead[pos].memAddr != user
        invariant pos <= target
        decreases target - pos
      {
        pos := pos + 1;
      }
      if pos < target {
        ZonesDistinct(variant, blocks, pos, target);
      }
    }

    /**
      A free wrapper: finds the leading zone by its address, or the zone by the user's address,
      takes it and its predecessor off the list, and names the raw block to free.
     */
    method Free(kind: Kind, n: nat, user: Addr, bus: int, ghost k: nat)
        returns (rawBase: Addr, rawSize: nat, rawBus: int)
      requires Valid() && k < |blocks| && blocks[k].kind == kind && blocks[k].n == n && user == blocks[k].User(variant)
      modifies `isoHead, `blocks
      ensures Valid() && GuardRuns.Free(old(Abstract()), Abstract(), k)
      ensures rawBase == old(blocks)[k].base && bus - rawBus == user - rawBase
      ensures var zone := Zones(variant, old(blocks)[k])[0];
        Layout(variant, kind, n, user - rawBase, zone.addr - rawBase, zone.size, rawSize)
    {
      hide Layout;
      LayoutIs(variant, kind, n);
      rawBase := user - LeadSize(variant, kind, n);
      rawSize := RawSize(variant, kind, n);
      rawBus := bus - LeadSize(variant, kind, n);
      ghost var target := ZonePlace(variant, blocks, k);
      var pos := FindZone(rawBase, user, target);
      var first := if variant.TwoZones? then pos - 1 else pos;
      isoHead := isoHead[..first] + isoHead[pos + 1..];
      blocks := blocks[..k] + blocks[k + 1..];
    }

    /** The inner loop of `check_iso`. */
    method ZoneDirty(start: Addr, size: nat) returns (dirty: bool)
      ensures dirty == Dirty(mem, start, size)
    {
      var checkPtr, isoSize := start, size;
      while isoSize > 0
        invariant checkPtr + isoSize == start + size && start <= checkPtr
        invariant forall a: Addr :: start <= a < checkPtr ==> Read(mem, a) == FILLER
      {
        isoSize := isoSize - 1;
        if Read(mem, checkPtr) != FILLER {
          return true;
        }
        checkPtr := checkPtr + 1;
      }
      return false;
    }

    /** The outer loop of `check_iso`: reports and flags every unflagged zone with a foreign byte. */
    method ScanList() returns (reports: seq<string>, ghost places: seq<nat>)
      modifies `isoHead
      ensures reports == Reports(mem, old(isoHead)) && isoHead == Flag(mem, old(isoHead))
      ensures LinesFor(reports, places, mem, old(isoHead)) && FlagsFor(isoHead, mem, old(isoHead))
    {
      hide LinesFor, FlagsFor, Foreign, Reports, Dirty;
      ghost var list := isoHead;
      reports, places := [], [];
      NoLines(mem, list);
      var i := 0;
      while i < |isoHead|
        invariant i <= |isoHead| == |list|
        invariant forall j :: 0 <= j < |list| ==> isoHead[j] == if j < i then FlagZone(mem, list[j]) else list[j]
        invariant reports + Reports(mem, list[i..]) == Reports(mem, list)
        invariant LinesFor(reports, places, mem, list[..i])
      {
        ghost var zones := list[..i];
        assert list[..i + 1] == zones + [list[i]];
        NoLine(reports, places, mem, zones, list[i]);
        ForeignIsDirty(mem, list[i]);
        var ops := isoHead[i];
        ReportsNext(mem, list, i, reports);
        if !ops.flag {
          var dirty := ZoneDirty(ops.addr, ops.size);
          if dirty {
            isoHead := isoHead[i := ops.(flag := true)];
            OneLine(reports, places, mem, zones, ops);
            reports, places := reports + [ops.caller], places + [i];
          }
        }
        i := i + 1;
      }
      assert list[..i] == list;
      EveryLine(mem, list);
    }

    /** `check_iso`: a scan of the blocks, printing one line for each report. */
    method CheckIso() returns (reports: seq<string>, ghost places: seq<nat>)
      requires Valid()
      modifies `isoHead, `blocks, `reported
      ensures Valid() && GuardRuns.Scan(variant, old(Abstract()), Abstract())
      ensures reports == GuardRuns.Callers(reported[old(|reported|)..])
      ensures LinesFor(reports, places, mem, old(isoHead)) && FlagsFor(isoHead, mem, old(isoHead))
    {
      hide LinesFor, FlagsFor;
      reports, places := ScanList();
      GuardRuns.ScanPrintsBlockReports(variant, mem, blocks);
      reported := reported + GuardRuns.BlockReports(variant, mem, blocks);
      FlagIsScan(variant, mem, blocks);
      ScanApart(variant, mem, blocks);
      blocks := ScanBlocks(variant, mem, blocks);
    }
  }

  /** Some byte of the zone is not an 'a' any more. */
  ghost predicate Foreign(mem: Memory, z: Zone) {
    exists a: Addr :: z.addr <= a < z.addr + z.size && Read(mem, a) != 'a' as int
  }

  /** The lines name the callers at `places`: where in the list there is an unflagged zone with a foreign byte. */
  ghost predicate LinesFor(lines: seq<string>, places: seq<nat>, mem: Memory, list: seq<Zone>) {
    && |lines| == |places|
    && (forall k :: 0 <= k < |places| ==> places[k] < |list| && lines[k] == list[places[k]].caller)
    && (forall k, m :: 0 <= k < m < |places| ==> places[k] < places[m])
    && forall i :: 0 <= i < |list| ==> (i in places <==> !list[i].flag && Foreign(mem, list[i]))
  }

  /** After a scan exactly the zones with a foreign byte are flagged, and those that were; nothing else changes. */
  ghost predicate FlagsFor(after: seq<Zone>, mem: Memory, list: seq<Zone>) {
    && |after| == |list|
    && forall i :: 0 <= i < |list| ==>
      && after[i] == list[i].(flag := after[i].flag)
      && (after[i].flag <==> list[i].flag || Foreign(mem, list[i]))
  }

  lemma ForeignIsDirty(mem: Memory, z: Zone)
    ensures Foreign(mem, z) <==> Dirty(mem, z.addr, z.size)
  {
    if Foreign(mem, z) {
      var a: Addr :| z.addr <= a < z.addr + z.size && Read(mem, a) != 'a' as int;
      assert Read(mem, a) != FILLER;
    }
  }

  lemma NoLines(mem: Memory, list: seq<Zone>)
    ensures LinesFor([], [], mem, list[..0]) && Reports(mem, list[0..]) == Reports(mem, list)
  {
    assert list[0..] == list;
  }

  lemma EveryLine(mem: Memory, list: seq<Zone>)
    ensures FlagsFor(Flag(mem, list), mem, list) && Reports(mem, list[|list|..]) == []
  {
    hide Foreign, Dirty;
    forall i | 0 <= i < |list|
      ensures Flag(mem, list)[i].flag <==> list[i].flag || Foreign(mem, list[i])
    {
      ForeignIsDirty(mem, list[i]);
    }
  }

  lemma NoLine(lines: seq<string>, places: seq<nat>, mem: Memory, list: seq<Zone>, z: Zone)
    requires LinesFor(lines, places, mem, list)
    ensures z.flag || !Foreign(mem, z) ==> LinesFor(lines, places, mem, list + [z])
  {
    hide Foreign;
  }

  lemma OneLine(lines: seq<string>, places: seq<nat>, mem: Memory, list: seq<Zone>, z: Zone)
    requires LinesFor(lines, places, mem, list) && !z.flag && Foreign(mem, z)
    ensures LinesFor(lines + [z.caller], places + [|list|], mem, list + [z])
  {
    hide Foreign;
    assert forall i :: i in places + [|list|] <==> i in places || i == |list|;
  }

  lemma ReportsNext(mem: Memory, list: seq<Zone>, i: nat, reports: seq<string>)
    requires i < |list|
    ensures reports + Reports(mem, list[i..])
         == (if Hits(mem, list[i]) then reports + [list[i].caller] else reports) + Reports(mem, list[i + 1..])
  {
    assert list[i..][0] == list[i] && list[i..][1..] == list[i + 1..];
  }

  /** Where the zone stands that a free wrapper looks for, and what is left without its block's zones. */
  lemma ZonePlace(v: Variant, blocks: seq<Block>, k: nat) returns (place: nat)
    requires k < |blocks|
    ensures var zones := AllZones(v, blocks);
      && place < |zones| && (v.TwoZones? ==> 0 < place)
      && (if v.TwoZones? then zones[place].addr == blocks[k].base else zones[place].memAddr == blocks[k].User(v))
      && zones[..if v.TwoZones? then place - 1 else place] + zones[place + 1..]
           == AllZones(v, blocks[..k] + blocks[k + 1..])
  {
    var a, b, c := blocks[..k], blocks[k], blocks[k + 1..];
    assert blocks == a + [b] + c;
    ZonesAround(v, a, b, c);
    ZonesConcat(v, a, c);
    place := |AllZones(v, a)| + Width(v) - 1;
    CutMiddle(AllZones(v, a), Zones(v, b), AllZones(v, c));
  }

  lemma CutMiddle(a: seq<Zone>, m: seq<Zone>, c: seq<Zone>)
    requires |m| > 0
    ensures var all := a + m + c;
      all[|a| + |m| - 1] == m[|m| - 1] && all[..|a|] == a && all[|a| + |m|..] == c
  {
  }
}
