/**
  Guard zones around allocated blocks: the layouts of the allocation wrappers in the two-zone
  module (mem_overflow/code/mem_overflow_check.c) and in the one-zone module
  (mem_overflow_del_firstiso/code/mem_overflow_check.c), and what a scan of the zones sees.
 */
module GuardZones {
  import opened Words

  const PAGE_SIZE := 4096
  const ISOSIZE := 20
  const FILLER: Byte := 97

  type Addr = nat

  datatype Variant = TwoZones | OneZone

  /**
    The wrapper pairs: skmalloc, svmalloc, sdma_alloc_coherent, __sget_free_pages (which doubles
    the block), __nget_free_pages (which does not) and __get_free_pages_ex. The argument is an
    order for the two in the middle and a size for the others.
   */
  datatype Kind = Kmalloc | Vmalloc | Dma | DoubledPages | PlainPages | ExactPages

  function Requested(kind: Kind, n: nat): nat {
    if kind.DoubledPages? || kind.PlainPages? then Pow2(n) * PAGE_SIZE else n
  }

  /** The size of the block the wrapper asks the kernel for. */
  function RawSize(v: Variant, kind: Kind, n: nat): nat {
    match kind
    case DoubledPages => Pow2(n + 1) * PAGE_SIZE
    case PlainPages => Pow2(n) * PAGE_SIZE
    case _ => n + if v.TwoZones? then 2 * ISOSIZE else ISOSIZE
  }

  /** The leading zone starts the block; the user's pointer comes right behind it. */
  function LeadSize(v: Variant, kind: Kind, n: nat): nat {
    if v.OneZone? then 0 else if kind.DoubledPages? then Pow2(n) * PAGE_SIZE / 2 else ISOSIZE
  }

  function TrailSize(v: Variant, kind: Kind, n: nat): nat {
    if kind.DoubledPages? then (if v.TwoZones? then Pow2(n) * PAGE_SIZE / 2 else Pow2(n) * PAGE_SIZE)
    else ISOSIZE
  }

  /** Where the trailing zone starts in the block, as the wrappers compute it. */
  function TrailOffset(v: Variant, kind: Kind, n: nat): nat {
    match kind
    case DoubledPages => Pow2(n) * PAGE_SIZE + LeadSize(v, kind, n)
    case PlainPages => Pow2(n) * PAGE_SIZE - ISOSIZE
    case _ => LeadSize(v, kind, n) + n
  }

  /** The user's area lies between the zones. */
  function Usable(v: Variant, kind: Kind, n: nat): int {
    TrailOffset(v, kind, n) - LeadSize(v, kind, n)
  }

  /**
    Leading zone, user's area and trailing zone fill the block exactly. The user gets what was
    requested, except from the wrapper that does not enlarge the block.
   */
  lemma LayoutFillsBlock(v: Variant, kind: Kind, n: nat)
    ensures LeadSize(v, kind, n) + Usable(v, kind, n) + TrailSize(v, kind, n) == RawSize(v, kind, n)
    ensures Usable(v, kind, n) >= 0
    ensures !kind.PlainPages? ==> Usable(v, kind, n) == Requested(kind, n)
    ensures kind.PlainPages? ==> Usable(v, kind, n) == Requested(kind, n) - if v.TwoZones? then 40 else 20
  {
    assert Pow2(n + 1) == 2 * Pow2(n);
  }

  /**
    A block in bytes: `lead` of them before the user's pointer, the trailing zone of `trail` bytes
    behind `at` of them, `raw` in all.
   */
  ghost predicate Layout(v: Variant, kind: Kind, n: nat, lead: int, at: int, trail: nat, raw: nat) {
    var bytes := 0x1000 * Pow2(n);
    match kind
    case DoubledPages =>
      raw == 2 * bytes && at == lead + bytes
      && if v.TwoZones? then 2 * lead == 2 * trail == bytes else lead == 0 && trail == bytes
    case PlainPages =>
      raw == bytes && at == raw - 20 && trail == 20 && lead == if v.TwoZones? then 20 else 0
    case _ =>
      raw == lead + n + 20 && at == lead + n && trail == 20 && lead == if v.TwoZones? then 20 else 0
  }

  lemma LayoutIs(v: Variant, kind: Kind, n: nat)
    ensures Layout(v, kind, n, LeadSize(v, kind, n), TrailOffset(v, kind, n), TrailSize(v, kind, n),
                   RawSize(v, kind, n))
  {
    Pow2Step(n);
    assert Pow2(n) * PAGE_SIZE == 2 * (Pow2(n) * 0x800);
  }

  /**
    `serial` tells blocks apart over a whole run, also when the kernel reuses their memory;
    `trail` and `lead` are the scan flags of the two zones.
   */
  datatype Block = Block(serial: nat, base: Addr, kind: Kind, n: nat, caller: string, trail: bool, lead: bool) {
    function User(v: Variant): Addr {
      base + LeadSize(v, kind, n)
    }

    function TrailStart(v: Variant): Addr {
      base + TrailOffset(v, kind, n)
    }

    function End(v: Variant): Addr {
      base + RawSize(v, kind, n)
    }

    ghost predicate InTrail(v: Variant, a: Addr) {
      TrailStart(v) <= a < TrailStart(v) + TrailSize(v, kind, n)
    }

    ghost predicate InLead(v: Variant, a: Addr) {
      base <= a < base + LeadSize(v, kind, n)
    }
  }

  /** A list node. `memAddr` is used by the one-zone module only. */
  datatype Zone = Zone(addr: Addr, size: nat, memAddr: Addr, caller: string, flag: bool)

  function Zones(v: Variant, b: Block): seq<Zone> {
    var trail := Zone(b.TrailStart(v), TrailSize(v, b.kind, b.n), b.User(v), b.caller, b.trail);
    if v.OneZone? then [trail]
    else [trail.(memAddr := 0), Zone(b.base, LeadSize(v, b.kind, b.n), 0, b.caller, b.lead)]
  }

  /** The list of zones: for each block its trailing and then its leading zone, newest block first. */
  function AllZones(v: Variant, blocks: seq<Block>): seq<Zone> {
    if blocks == [] then [] else Zones(v, blocks[0]) + AllZones(v, blocks[1..])
  }

  /** The kernel hands out disjoint blocks. */
  ghost predicate Apart(v: Variant, a: Block, b: Block) {
    a.End(v) <= b.base || b.End(v) <= a.base
  }

  ghost predicate Inside(v: Variant, b: Block, a: Addr) {
    b.base <= a < b.End(v)
  }

  /** Two blocks are apart exactly if no address lies in both. */
  lemma ApartMeans(v: Variant, a: Block, b: Block)
    ensures Apart(v, a, b) <==> forall x: Addr :: !Inside(v, a, x) || !Inside(v, b, x)
  {
    var x := if a.base <= b.base then b.base else a.base;
    assert Apart(v, a, b) || (Inside(v, a, x) && Inside(v, b, x));
  }

  ghost predicate AllApart(v: Variant, blocks: seq<Block>) {
    forall i, j :: 0 <= i < j < |blocks| ==> Apart(v, blocks[i], blocks[j])
  }

  // Scanning

  type Memory = map<Addr, Byte>

  function Read(mem: Memory, a: Addr): Byte {
    if a in mem then mem[a] else 0
  }

  ghost predicate Dirty(mem: Memory, start: Addr, size: nat) {
    exists a: Addr :: start <= a < start + size && Read(mem, a) != FILLER
  }

  ghost predicate Hits(mem: Memory, z: Zone) {
    !z.flag && Dirty(mem, z.addr, z.size)
  }

  /** The callers a scan reports, in list order, and the list it leaves. */
  ghost function Reports(mem: Memory, zones: seq<Zone>): seq<string> {
    if zones == [] then [] else (if Hits(mem, zones[0]) then [zones[0].caller] else []) + Reports(mem, zones[1..])
  }

  ghost function FlagZone(mem: Memory, z: Zone): Zone {
    z.(flag := z.flag || Hits(mem, z))
  }

  ghost function Flag(mem: Memory, zones: seq<Zone>): (r: seq<Zone>)
    ensures |r| == |zones| && forall i :: 0 <= i < |zones| ==> r[i] == FlagZone(mem, zones[i])
  {
    if zones == [] then [] else [FlagZone(mem, zones[0])] + Flag(mem, zones[1..])
  }

  lemma {:induction false} ReportsConcat(mem: Memory, a: seq<Zone>, b: seq<Zone>)
    ensures Reports(mem, a + b) == Reports(mem, a) + Reports(mem, b)
  {
    if a == [] {
      assert a + b == b;
    } else {
      assert (a + b)[1..] == a[1..] + b;
      ReportsConcat(mem, a[1..], b);
      var here := if Hits(mem, a[0]) then [a[0].caller] else [];
      assert here + (Reports(mem, a[1..]) + Reports(mem, b)) == (here + Reports(mem, a[1..])) + Reports(mem, b);
    }
  }

  // The list as pairs

  function Width(v: Variant): nat { if v.TwoZones? then 2 else 1 }

  lemma {:induction false} ZonesConcat(v: Variant, a: seq<Block>, b: seq<Block>)
    ensures AllZones(v, a + b) == AllZones(v, a) + AllZones(v, b)
    ensures |AllZones(v, a)| == Width(v) * |a|
  {
    if a == [] {
      assert a + b == b;
    } else {
      assert (a + b)[1..] == a[1..] + b;
      ZonesConcat(v, a[1..], b);
    }
  }

  /** Where the zones of a block stand in the list. */
  lemma ZonesAround(v: Variant, a: seq<Block>, b: Block, c: seq<Block>)
    ensures AllZones(v, a + [b] + c) == AllZones(v, a) + Zones(v, b) + AllZones(v, c)
    ensures |AllZones(v, a)| == Width(v) * |a|
  {
    ZonesConcat(v, a + [b], c);
    ZonesConcat(v, a, [b]);
    assert AllZones(v, [b]) == Zones(v, b);
  }

  /** A zone of the list belongs to a block. */
  lemma {:induction false} ZoneOwner(v: Variant, blocks: seq<Block>, i: nat) returns (k: nat)
    requires i < |AllZones(v, blocks)|
    ensures k < |blocks| && Width(v) * k <= i < Width(v) * (k + 1)
    ensures AllZones(v, blocks)[i] == Zones(v, blocks[k])[i - Width(v) * k]
  {
    if i < Width(v) {
      k := 0;
    } else {
      k := ZoneOwner(v, blocks[1..], i - Width(v));
      k := k + 1;
    }
  }

  /** No two zones of the list start at one address, and no two blocks give out one pointer. */
  lemma ZonesDistinct(v: Variant, blocks: seq<Block>, i: nat, j: nat)
    requires AllApart(v, blocks) && i < j < |AllZones(v, blocks)|
    ensures AllZones(v, blocks)[i].addr != AllZones(v, blocks)[j].addr
    ensures v.OneZone? ==> AllZones(v, blocks)[i].memAddr != AllZones(v, blocks)[j].memAddr
  {
    var k := ZoneOwner(v, blocks, i);
    var m := ZoneOwner(v, blocks, j);
    LayoutFillsBlock(v, blocks[k].kind, blocks[k].n);
    LayoutFillsBlock(v, blocks[m].kind, blocks[m].n);
    if k < m {
      assert Apart(v, blocks[k], blocks[m]);
    }
  }

  /** What a scan does to the blocks. */
  ghost function ScanBlock(v: Variant, mem: Memory, b: Block): Block {
    b.(trail := b.trail || Dirty(mem, b.TrailStart(v), TrailSize(v, b.kind, b.n)),
       lead := b.lead || Dirty(mem, b.base, LeadSize(v, b.kind, b.n)))
  }

  ghost function ScanBlocks(v: Variant, mem: Memory, blocks: seq<Block>): (r: seq<Block>)
    ensures |r| == |blocks| && forall i :: 0 <= i < |blocks| ==> r[i] == ScanBlock(v, mem, blocks[i])
  {
    if blocks == [] then [] else [ScanBlock(v, mem, blocks[0])] + ScanBlocks(v, mem, blocks[1..])
  }

  /** Flagging the zones of the list is scanning the blocks behind them. */
  lemma {:induction false} FlagIsScan(v: Variant, mem: Memory, blocks: seq<Block>)
    ensures Flag(mem, AllZones(v, blocks)) == AllZones(v, ScanBlocks(v, mem, blocks))
  {
    if blocks == [] {
    } else {
      FlagIsScan(v, mem, blocks[1..]);
      FlagConcat(mem, Zones(v, blocks[0]), AllZones(v, blocks[1..]));
      FlagZones(v, mem, blocks[0]);
      assert ScanBlocks(v, mem, blocks)[1..] == ScanBlocks(v, mem, blocks[1..]);
    }
  }

  lemma {:induction false} FlagConcat(mem: Memory, a: seq<Zone>, b: seq<Zone>)
    ensures Flag(mem, a + b) == Flag(mem, a) + Flag(mem, b)
  {
    if a == [] {
      assert a + b == b;
    } else {
      assert (a + b)[1..] == a[1..] + b;
      FlagConcat(mem, a[1..], b);
    }
  }

  lemma FlagZones(v: Variant, mem: Memory, b: Block)
    ensures Flag(mem, Zones(v, b)) == Zones(v, ScanBlock(v, mem, b))
  {
  }

  lemma ScanApart(v: Variant, mem: Memory, blocks: seq<Block>)
    requires AllApart(v, blocks)
    ensures AllApart(v, ScanBlocks(v, mem, blocks))
  {
    var scanned := ScanBlocks(v, mem, blocks);
    forall i, j | 0 <= i < j < |scanned|
      ensures Apart(v, scanned[i], scanned[j])
    {
      assert Apart(v, blocks[i], blocks[j]);
    }
  }
}
