/**
  The one-zone module against the two-zone module: driven by the same calls, with overruns no
  longer than the shorter trailing zone, the two print the same lines.
 */
module GuardSim {
  import opened Words
  import opened GuardZones
  import opened GuardRuns

  /** A call or write as the user makes it; `off` counts from the pointer the user was given. */
  datatype Call =
    | CallAlloc(kind: Kind, n: nat, caller: string)
    | CallFree(k: nat)
    | CallWrite(k: nat, off: nat, x: Byte)
    | CallScan

  /** No use of the wrapper that leaves less than was asked for, and no overrun past the shorter zone. */
  ghost predicate Comparable(blocks: seq<Block>, call: Call) {
    match call
    case CallAlloc(kind, n, caller) => !kind.PlainPages?
    case CallWrite(k, off, x) =>
      k < |blocks| && off < Requested(blocks[k].kind, blocks[k].n) + TrailSize(TwoZones, blocks[k].kind, blocks[k].n)
    case _ => true
  }

  /** What a call is in one of the modules; the kernel chooses the block. */
  ghost predicate Does(v: Variant, s: State, s': State, call: Call) {
    match call
    case CallAlloc(kind, n, caller) =>
      exists base :: Alloc(v, s, s', Block(s.next, base, kind, n, caller, false, false))
    case CallFree(k) => Free(s, s', k)
    case CallWrite(k, off, x) => k < |s.blocks| && Write(s, s', s.blocks[k].User(v) + off, x)
    case CallScan => Scan(v, s, s')
  }

  /** The `j`-th byte of a zone. */
  ghost function ByteAt(mem: Memory, start: Addr, j: nat): Byte {
    Read(mem, start + j)
  }

  lemma DirtyTrail(v: Variant, mem: Memory, b: Block)
    ensures Dirty(mem, b.TrailStart(v), TrailSize(v, b.kind, b.n))
       <==> exists j: nat :: j < TrailSize(v, b.kind, b.n) && ByteAt(mem, b.TrailStart(v), j) != FILLER
  {
    var s, size := b.TrailStart(v), TrailSize(v, b.kind, b.n);
    if a: Addr :| s <= a < s + size && Read(mem, a) != FILLER {
      assert ByteAt(mem, b.TrailStart(v), a - s) != FILLER;
    }
    if j: nat :| j < size && ByteAt(mem, b.TrailStart(v), j) != FILLER {
      assert Read(mem, s + j) != FILLER;
    }
  }

  /** The same block in both modules. */
  ghost predicate Twins(two: Block, twoMem: Memory, one: Block, oneMem: Memory) {
    && two.(base := one.base) == one
    && !two.kind.PlainPages? && !two.lead
    && (forall a: Addr :: two.InLead(TwoZones, a) ==> Read(twoMem, a) == FILLER)
    && (forall j: nat :: j < TrailSize(TwoZones, two.kind, two.n) ==>
          ByteAt(twoMem, two.TrailStart(TwoZones), j) == ByteAt(oneMem, one.TrailStart(OneZone), j))
    && (forall j: nat :: TrailSize(TwoZones, two.kind, two.n) <= j < TrailSize(OneZone, one.kind, one.n) ==>
          ByteAt(oneMem, one.TrailStart(OneZone), j) == FILLER)
  }

  ghost predicate Simulates(two: State, one: State) {
    && AllApart(TwoZones, two.blocks) && AllApart(OneZone, one.blocks)
    && two.next == one.next && two.reported == one.reported
    && |two.blocks| == |one.blocks|
    && forall i :: 0 <= i < |two.blocks| ==> Twins(two.blocks[i], two.mem, one.blocks[i], one.mem)
  }

  /** The two trailing zones of a block look the same to a scan. */
  lemma TwinsDirty(two: Block, twoMem: Memory, one: Block, oneMem: Memory)
    requires Twins(two, twoMem, one, oneMem)
    ensures Dirty(twoMem, two.TrailStart(TwoZones), TrailSize(TwoZones, two.kind, two.n))
       <==> Dirty(oneMem, one.TrailStart(OneZone), TrailSize(OneZone, one.kind, one.n))
    ensures !Dirty(twoMem, two.base, LeadSize(TwoZones, two.kind, two.n))
  {
    DirtyTrail(TwoZones, twoMem, two);
    DirtyTrail(OneZone, oneMem, one);
    if j: nat :| j < TrailSize(TwoZones, two.kind, two.n) && ByteAt(twoMem, two.TrailStart(TwoZones), j) != FILLER {
      assert ByteAt(oneMem, one.TrailStart(OneZone), j) != FILLER;
    }
    if j: nat :| j < TrailSize(OneZone, one.kind, one.n) && ByteAt(oneMem, one.TrailStart(OneZone), j) != FILLER {
      assert ByteAt(twoMem, two.TrailStart(TwoZones), j) != FILLER;
    }
  }

  lemma TwinsScan(two: Block, twoMem: Memory, one: Block, oneMem: Memory)
    requires Twins(two, twoMem, one, oneMem)
    ensures Twins(ScanBlock(TwoZones, twoMem, two), twoMem, ScanBlock(OneZone, oneMem, one), oneMem)
    ensures TrailReport(TwoZones, twoMem, two) == TrailReport(OneZone, oneMem, one)
    ensures LeadReport(TwoZones, twoMem, two) == [] == LeadReport(OneZone, oneMem, one)
  {
    TwinsDirty(two, twoMem, one, oneMem);
  }

  lemma {:induction false} SameReports(two: seq<Block>, twoMem: Memory, one: seq<Block>, oneMem: Memory)
    requires |two| == |one| && forall i :: 0 <= i < |two| ==> Twins(two[i], twoMem, one[i], oneMem)
    ensures BlockReports(TwoZones, twoMem, two) == BlockReports(OneZone, oneMem, one)
  {
    if two == [] {
    } else {
      TwinsScan(two[0], twoMem, one[0], oneMem);
      SameReports(two[1..], twoMem, one[1..], oneMem);
    }
  }

  lemma ScanSimulates(two: State, two': State, one: State, one': State)
    requires Simulates(two, one) && Scan(TwoZones, two, two') && Scan(OneZone, one, one')
    ensures Simulates(two', one')
  {
    ScanApart(TwoZones, two.mem, two.blocks);
    ScanApart(OneZone, one.mem, one.blocks);
    SameReports(two.blocks, two.mem, one.blocks, one.mem);
    forall i | 0 <= i < |two.blocks|
      ensures Twins(two'.blocks[i], two'.mem, one'.blocks[i], one'.mem)
    {
      TwinsScan(two.blocks[i], two.mem, one.blocks[i], one.mem);
    }
  }

  /** Memory of a block that neither side touches. */
  lemma TwinsElsewhere(two: Block, twoMem: Memory, twoMem': Memory, one: Block, oneMem: Memory, oneMem': Memory)
    requires Twins(two, twoMem, one, oneMem)
    requires forall a: Addr :: two.base <= a < two.End(TwoZones) ==> Read(twoMem', a) == Read(twoMem, a)
    requires forall a: Addr :: one.base <= a < one.End(OneZone) ==> Read(oneMem', a) == Read(oneMem, a)
    ensures Twins(two, twoMem', one, oneMem')
  {
    LayoutFillsBlock(TwoZones, two.kind, two.n);
    LayoutFillsBlock(OneZone, one.kind, one.n);
    var s, t := two.TrailStart(TwoZones), one.TrailStart(OneZone);
    forall j: nat | j < TrailSize(TwoZones, two.kind, two.n)
      ensures ByteAt(twoMem', s, j) == ByteAt(twoMem, s, j)
    {
    }
    forall j: nat | j < TrailSize(OneZone, one.kind, one.n)
      ensures ByteAt(oneMem', t, j) == ByteAt(oneMem, t, j)
    {
    }
  }

  /** The block the kernel has just handed out. */
  lemma NewTwins(two: State, two': State, b2: Block, one: State, one': State, b1: Block)
    requires Alloc(TwoZones, two, two', b2) && Alloc(OneZone, one, one', b1)
    requires b2.(base := b1.base) == b1 && !b2.kind.PlainPages?
    ensures Twins(b2, two'.mem, b1, one'.mem)
  {
    var s, t := b2.TrailStart(TwoZones), b1.TrailStart(OneZone);
    forall j: nat | j < TrailSize(TwoZones, b2.kind, b2.n)
      ensures ByteAt(two'.mem, s, j) == FILLER
    {
      assert b2.InTrail(TwoZones, s + j);
    }
    forall j: nat | j < TrailSize(OneZone, b1.kind, b1.n)
      ensures ByteAt(one'.mem, t, j) == FILLER
    {
      assert b1.InTrail(OneZone, t + j);
    }
    assert TrailSize(TwoZones, b2.kind, b2.n) <= TrailSize(OneZone, b1.kind, b1.n);
  }

  /** An older block, which the new one does not touch. */
  lemma OldTwins(two: State, two': State, b2: Block, one: State, one': State, b1: Block, i: nat)
    requires Simulates(two, one) && Alloc(TwoZones, two, two', b2) && Alloc(OneZone, one, one', b1)
    requires i < |two.blocks|
    ensures Twins(two.blocks[i], two'.mem, one.blocks[i], one'.mem)
  {
    LayoutFillsBlock(TwoZones, b2.kind, b2.n);
    LayoutFillsBlock(OneZone, b1.kind, b1.n);
    assert Apart(TwoZones, b2, two.blocks[i]) && Apart(OneZone, b1, one.blocks[i]);
    TwinsElsewhere(two.blocks[i], two.mem, two'.mem, one.blocks[i], one.mem, one'.mem);
  }

  lemma AllocSimulates(two: State, two': State, b2: Block, one: State, one': State, b1: Block)
    requires Simulates(two, one) && Alloc(TwoZones, two, two', b2) && Alloc(OneZone, one, one', b1)
    requires b2.(base := b1.base) == b1 && !b2.kind.PlainPages?
    ensures Simulates(two', one')
  {
    forall i | 0 <= i < |two'.blocks|
      ensures Twins(two'.blocks[i], two'.mem, one'.blocks[i], one'.mem)
    {
      if i == 0 {
        NewTwins(two, two', b2, one, one', b1);
      } else {
        OldTwins(two, two', b2, one, one', b1, i - 1);
      }
    }
  }

  lemma WriteSimulates(two: State, two': State, one: State, one': State, k: nat, off: nat, x: Byte)
    requires Simulates(two, one) && Comparable(two.blocks, CallWrite(k, off, x))
    requires Does(TwoZones, two, two', CallWrite(k, off, x)) && Does(OneZone, one, one', CallWrite(k, off, x))
    ensures Simulates(two', one')
  {
    forall i | 0 <= i < |two.blocks|
      ensures Twins(two'.blocks[i], two'.mem, one'.blocks[i], one'.mem)
    {
      if i == k {
        TwinsWrite(two.blocks[k], two.mem, one.blocks[k], one.mem, off, x);
      } else {
        OtherBlock(TwoZones, two.blocks, i, k, off);
        OtherBlock(OneZone, one.blocks, i, k, off);
        TwinsElsewhere(two.blocks[i], two.mem, two'.mem, one.blocks[i], one.mem, one'.mem);
      }
    }
  }

  lemma TwinsWrite(two: Block, twoMem: Memory, one: Block, oneMem: Memory, off: nat, x: Byte)
    requires Twins(two, twoMem, one, oneMem)
    requires off < Requested(two.kind, two.n) + TrailSize(TwoZones, two.kind, two.n)
    ensures Twins(two, twoMem[two.User(TwoZones) + off := x], one, oneMem[one.User(OneZone) + off := x])
  {
    LayoutFillsBlock(TwoZones, two.kind, two.n);
    LayoutFillsBlock(OneZone, one.kind, one.n);
    TrailAfterWrite(twoMem, two.User(TwoZones), oneMem, one.User(OneZone), Requested(two.kind, two.n), off, x,
                    two.TrailStart(TwoZones), TrailSize(TwoZones, two.kind, two.n),
                    one.TrailStart(OneZone), TrailSize(OneZone, one.kind, one.n));
    assert forall a: Addr :: two.InLead(TwoZones, a) ==> a != two.User(TwoZones) + off;
  }

  /** Two zones, `s` and `t`, that agree behind areas of one size, after the same write to both. */
  lemma TrailAfterWrite(twoMem: Memory, u2: Addr, oneMem: Memory, u1: Addr, area: nat, off: nat, x: Byte,
                        s: Addr, m: nat, t: Addr, n: nat)
    requires s == u2 + area && t == u1 + area && off < area + m
    requires forall j: nat :: j < m ==> ByteAt(twoMem, s, j) == ByteAt(oneMem, t, j)
    requires forall j: nat :: m <= j < n ==> ByteAt(oneMem, t, j) == FILLER
    ensures var m2, m1 := twoMem[u2 + off := x], oneMem[u1 + off := x];
      && (forall j: nat :: j < m ==> ByteAt(m2, s, j) == ByteAt(m1, t, j))
      && (forall j: nat :: m <= j < n ==> ByteAt(m1, t, j) == FILLER)
  {
    var m2, m1 := twoMem[u2 + off := x], oneMem[u1 + off := x];
    forall j: nat | j < m
      ensures ByteAt(m2, s, j) == ByteAt(m1, t, j)
    {
      assert ByteAt(twoMem, s, j) == ByteAt(oneMem, t, j);
    }
    forall j: nat | m <= j < n
      ensures ByteAt(m1, t, j) == FILLER
    {
      assert ByteAt(oneMem, t, j) == FILLER;
    }
  }

  /** A write to one block does not reach another. */
  lemma OtherBlock(v: Variant, blocks: seq<Block>, i: nat, k: nat, off: nat)
    requires AllApart(v, blocks) && i < |blocks| && k < |blocks| && i != k && !blocks[k].kind.PlainPages?
    requires off < Requested(blocks[k].kind, blocks[k].n) + TrailSize(TwoZones, blocks[k].kind, blocks[k].n)
    ensures var a := blocks[k].User(v) + off; a < blocks[i].base || blocks[i].End(v) <= a
  {
    LayoutFillsBlock(v, blocks[k].kind, blocks[k].n);
    assert Apart(v, blocks[if i < k then i else k], blocks[if i < k then k else i]);
  }

  lemma FreeSimulates(two: State, two': State, one: State, one': State, k: nat)
    requires Simulates(two, one) && Free(two, two', k) && Free(one, one', k)
    ensures Simulates(two', one')
  {
    forall i | 0 <= i < |two'.blocks|
      ensures Twins(two'.blocks[i], two'.mem, one'.blocks[i], one'.mem)
    {
      var j := if i < k then i else i + 1;
      assert two'.blocks[i] == two.blocks[j] && one'.blocks[i] == one.blocks[j];
    }
    FreeApart(TwoZones, two.blocks, k);
    FreeApart(OneZone, one.blocks, k);
  }

  lemma FreeApart(v: Variant, blocks: seq<Block>, k: nat)
    requires AllApart(v, blocks) && k < |blocks|
    ensures AllApart(v, blocks[..k] + blocks[k + 1..])
  {
    var rest := blocks[..k] + blocks[k + 1..];
    assert forall i :: 0 <= i < |rest| ==> rest[i] == blocks[if i < k then i else i + 1];
  }

  lemma StepSimulates(two: State, two': State, one: State, one': State, call: Call)
    requires Simulates(two, one) && Comparable(two.blocks, call)
    requires Does(TwoZones, two, two', call) && Does(OneZone, one, one', call)
    ensures Simulates(two', one')
  {
    match call
    case CallAlloc(kind, n, caller) =>
      var base2 :| Alloc(TwoZones, two, two', Block(two.next, base2, kind, n, caller, false, false));
      var base1 :| Alloc(OneZone, one, one', Block(one.next, base1, kind, n, caller, false, false));
      AllocSimulates(two, two', Block(two.next, base2, kind, n, caller, false, false),
                     one, one', Block(one.next, base1, kind, n, caller, false, false));
    case CallFree(k) => FreeSimulates(two, two', one, one', k);
    case CallWrite(k, off, x) => WriteSimulates(two, two', one, one', k, off, x);
    case CallScan => ScanSimulates(two, two', one, one');
  }

  /** Both modules, driven by the same calls, wherever their kernels place the blocks. */
  ghost predicate Driven(v: Variant, states: seq<State>, calls: seq<Call>) {
    && |states| == |calls| + 1
    && Init(states[0]) && states[0].next == 0
    && forall i :: 0 <= i < |calls| ==> Does(v, states[i], states[i + 1], calls[i])
  }

  lemma {:induction false} SameOutput(two: seq<State>, one: seq<State>, calls: seq<Call>, i: nat)
    requires Driven(TwoZones, two, calls) && Driven(OneZone, one, calls) && i < |two|
    requires forall j :: 0 <= j < i ==> Comparable(two[j].blocks, calls[j])
    ensures Simulates(two[i], one[i]) && two[i].reported == one[i].reported
  {
    if i == 0 {
    } else {
      SameOutput(two, one, calls, i - 1);
      StepSimulates(two[i - 1], two[i], one[i - 1], one[i], calls[i - 1]);
    }
  }
}
