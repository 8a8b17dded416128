/**
  The reverse page-table walk (mem_leak/userspace/huawei_user_space_mem.c): from a physical address
  to the user addresses mapped to it, over the four levels of 64-bit x86 paging (section 4.5 of the
  Intel SDM, volume 3A) with pages of 4K, 2M and 1G.
 */
module PageWalk {
  const PTRS := 512
  const USER_TOP := 0x8000_0000_0000

  /** `frame` is the page-frame number in the entry, with whatever a large page leaves in its low bits. */
  datatype Entry = Entry(present: bool, large: bool, frame: nat)

  type Table = t: seq<Entry> | |t| == PTRS witness seq(PTRS, _ => Entry(false, false, 0))
  type Memory = map<nat, Table>

  function TableAt(mem: Memory, frame: nat): Table {
    if frame in mem then mem[frame] else seq(PTRS, _ => Entry(false, false, 0))
  }

  datatype Size = Page4K | Page2M | Page1G

  function Bytes(size: Size): nat {
    match size
    case Page4K => 0x1000
    case Page2M => 0x20_0000
    case Page1G => 0x4000_0000
  }

  /** Where an address leads: into the `frame`-th page of its size, `offset` bytes behind its start. */
  datatype Found = Fault | Maps(size: Size, frame: nat, offset: nat)

  /** The forward translation, by the four index fields of the address. */
  function Translate(mem: Memory, cr3: Table, va: nat): Found {
    var e4 := cr3[va / 0x80_0000_0000 % PTRS];
    if !e4.present then Fault else
    var e3 := TableAt(mem, e4.frame)[va / 0x4000_0000 % PTRS];
    if !e3.present then Fault else if e3.large then Maps(Page1G, e3.frame / 0x4_0000, va % 0x4000_0000) else
    var e2 := TableAt(mem, e3.frame)[va / 0x20_0000 % PTRS];
    if !e2.present then Fault else if e2.large then Maps(Page2M, e2.frame / 0x200, va % 0x20_0000) else
    var e1 := TableAt(mem, e2.frame)[va / 0x1000 % PTRS];
    if !e1.present then Fault else Maps(Page4K, e1.frame, va % 0x1000)
  }

  /** What one entry covers, from the last level (1) to the first (4). */
  function Unit(level: nat): (u: nat)
    ensures u > 0
  {
    if level <= 1 then 0x1000 else if level == 2 then 0x20_0000 else if level == 3 then 0x4000_0000 else 0x80_0000_0000
  }

  /** The translation level by level, for an address relative to what a table or an entry covers. */
  function Look(mem: Memory, level: nat, t: Table, x: nat): Found
    decreases level, 1
  {
    var i := x / Unit(level);
    if i < PTRS then LookEntry(mem, level, t[i], x % Unit(level)) else Fault
  }

  function LookEntry(mem: Memory, level: nat, e: Entry, x: nat): Found
    decreases level, 0
  {
    if !e.present then Fault
    else if level <= 1 then Maps(Page4K, e.frame, x)
    else if level == 2 && e.large then Maps(Page2M, e.frame / 0x200, x)
    else if level == 3 && e.large then Maps(Page1G, e.frame / 0x4_0000, x)
    else Look(mem, level - 1, TableAt(mem, e.frame), x)
  }

  lemma Times(a: nat, b: nat, d: nat)
    requires a <= b
    ensures a * d <= b * d
  {
  }

  lemma DivMod(x: nat, d: nat, q: nat, r: nat)
    requires d > 0 && x == q * d + r && r < d
    ensures x / d == q && x % d == r
  {
    var p := x / d;
    assert x == p * d + x % d;
    if p < q {
      Times(p + 1, q, d);
    } else if q < p {
      Times(q + 1, p, d);
    }
  }

  lemma Divide(x: nat, d: nat) returns (q: nat, r: nat)
    requires d > 0
    ensures q == x / d && r == x % d && x == q * d + r && r < d
  {
    q, r := x / d, x % d;
  }

  lemma Distribute(q: nat, n: nat, i: nat, unit: nat)
    ensures (q * n + i) * unit == q * (n * unit) + i * unit
  {
  }

  /** An index field read from the whole address or from what is left of it. */
  lemma Field(va: nat, unit: nat, all: nat)
    requires unit > 0 && all == PTRS * unit
    ensures va % all / unit == va / unit % PTRS && va % all % unit == va % unit
  {
    var q, rest := Divide(va, all);
    var i, y := Divide(rest, unit);
    if i >= PTRS {
      Times(PTRS, i, unit);
    }
    Distribute(q, PTRS, i, unit);
    DivMod(va, unit, q * PTRS + i, y);
    DivMod(q * PTRS + i, PTRS, q, i);
  }

  /** Both ways to translate agree. */
  lemma LookIsTranslate(mem: Memory, cr3: Table, va: nat)
    requires va < 2 * USER_TOP
    ensures Look(mem, 4, cr3, va) == Translate(mem, cr3, va)
  {
    Field(va, 0x4000_0000, 0x80_0000_0000);
    Field(va, 0x20_0000, 0x4000_0000);
    Field(va, 0x1000, 0x20_0000);
  }

  /** One printed line: a page of some size at a virtual address. */
  datatype Report = Report(size: Size, va: nat)

  ghost predicate Ascending(r: seq<Report>, lo: nat, hi: nat) {
    && (forall i :: 0 <= i < |r| ==> lo <= r[i].va < hi)
    && (forall i, j :: 0 <= i < j < |r| ==> r[i].va < r[j].va)
  }

  /** `found` is the very start of a page that holds `paddr`. */
  predicate Starts(found: Found, size: Size, paddr: nat) {
    found == Maps(size, paddr / Bytes(size), 0)
  }

  /** The lines for the first `len` bytes under a table that covers the addresses from `base` on. */
  ghost predicate Exact(r: seq<Report>, mem: Memory, level: nat, t: Table, base: nat, len: nat, paddr: nat) {
    && Ascending(r, base, base + len)
    && (forall size, va :: base <= va < base + len ==>
        (Report(size, va) in r <==> Starts(Look(mem, level, t, va - base), size, paddr)))
  }

  ghost predicate ExactEntry(r: seq<Report>, mem: Memory, level: nat, e: Entry, base: nat, paddr: nat) {
    && Ascending(r, base, base + Unit(level))
    && (forall size, va :: base <= va < base + Unit(level) ==>
        (Report(size, va) in r <==> Starts(LookEntry(mem, level, e, va - base), size, paddr)))
  }

  /** The lines for one more entry. */
  lemma Extend(r: seq<Report>, more: seq<Report>, mem: Memory, level: nat, t: Table, base: nat, i: nat, paddr: nat)
    requires i < PTRS && Exact(r, mem, level, t, base, i * Unit(level), paddr)
    requires ExactEntry(more, mem, level, t[i], base + i * Unit(level), paddr)
    ensures Exact(r + more, mem, level, t, base, (i + 1) * Unit(level), paddr)
  {
    hide LookEntry, Unit, Starts;
    var u := Unit(level);
    var split := base + i * u;
    assert (i + 1) * u == i * u + u;
    forall size, va | base <= va < split + u
      ensures Report(size, va) in r + more <==> Starts(Look(mem, level, t, va - base), size, paddr)
    {
      if va >= split {
        DivMod(va - base, u, i, va - split);
      }
    }
  }

  /** A table of the next level is the entry that points to it. */
  lemma Below(r: seq<Report>, mem: Memory, level: nat, e: Entry, base: nat, paddr: nat)
    requires 2 <= level <= 4 && e.present && (level == 4 || !e.large)
    requires Exact(r, mem, level - 1, TableAt(mem, e.frame), base, Unit(level), paddr)
    ensures ExactEntry(r, mem, level, e, base, paddr)
  {
    hide Look, Starts;
  }

  /** A page is reported by its first address. */
  lemma AtPage(r: seq<Report>, mem: Memory, level: nat, e: Entry, base: nat, size: Size, frame: nat, paddr: nat)
    requires e.present && 1 <= level <= 3 && LookEntry(mem, level, e, 0) == Maps(size, frame, 0)
    requires level == 1 || e.large
    requires r == if frame == paddr / Bytes(size) then [Report(size, base)] else []
    ensures ExactEntry(r, mem, level, e, base, paddr)
  {
    hide Look;
  }

  lemma Absent(mem: Memory, level: nat, t: Table, e: Entry, base: nat, paddr: nat)
    ensures Exact([], mem, level, t, base, 0, paddr)
    ensures !e.present ==> ExactEntry([], mem, level, e, base, paddr)
  {
    hide Look;
  }

  method Handle4K(pte: Entry, paddr: nat, pgd: nat, pud: nat, pmd: nat, offset: nat) returns (r: seq<Report>)
    ensures var vaddr := pgd * 0x80_0000_0000 + pud * 0x4000_0000 + pmd * 0x20_0000 + offset * 0x1000;
      r == if pte.frame == paddr / 0x1000 then [Report(Page4K, vaddr)] else []
  {
    if pte.frame == paddr / 0x1000 {
      var vaddr := pgd * 0x80_0000_0000 + pud * 0x4000_0000 + pmd * 0x20_0000 + offset * 0x1000;
      return [Report(Page4K, vaddr)];
    }
    return [];
  }

  /** `walk_pte` */
  method WalkPte(mem: Memory, base: Table, paddr: nat, pgd: nat, pud: nat, pmd: nat) returns (r: seq<Report>)
    ensures Exact(r, mem, 1, base, pgd * 0x80_0000_0000 + pud * 0x4000_0000 + pmd * 0x20_0000, 0x20_0000, paddr)
  {
    hide Exact, ExactEntry;
    ghost var va := pgd * 0x80_0000_0000 + pud * 0x4000_0000 + pmd * 0x20_0000;
    r := [];
    Absent(mem, 1, base, base[0], va, paddr);
    for i := 0 to PTRS
      invariant Exact(r, mem, 1, base, va, i * 0x1000, paddr)
    {
      var pte, lines := base[i], [];
      Absent(mem, 1, base, pte, va + i * 0x1000, paddr);
      if pte.present {
        lines := Handle4K(pte, paddr, pgd, pud, pmd, i);
        AtPage(lines, mem, 1, pte, va + i * 0x1000, Page4K, pte.frame, paddr);
      }
      Extend(r, lines, mem, 1, base, va, i, paddr);
      r := r + lines;
    }
  }

  method Handle2M(pmd: Entry, paddr: nat, pgd: nat, pud: nat, offset: nat) returns (r: seq<Report>)
    ensures r == if pmd.frame / 0x200 == paddr / 0x20_0000
                 then [Report(Page2M, pgd * 0x80_0000_0000 + pud * 0x4000_0000 + offset * 0x20_0000)] else []
  {
    if pmd.frame / 0x200 == paddr / 0x20_0000 {
      var vaddr := pgd * 0x80_0000_0000 + pud * 0x4000_0000 + offset * 0x20_0000;
      return [Report(Page2M, vaddr)];
    }
    return [];
  }

  /** `walk_pmd` */
  method WalkPmd(mem: Memory, base: Table, paddr: nat, pgd: nat, pud: nat) returns (r: seq<Report>)
    ensures Exact(r, mem, 2, base, pgd * 0x80_0000_0000 + pud * 0x4000_0000, 0x4000_0000, paddr)
  {
    hide Exact, ExactEntry;
    ghost var va := pgd * 0x80_0000_0000 + pud * 0x4000_0000;
    r := [];
    Absent(mem, 2, base, base[0], va, paddr);
    for i := 0 to PTRS
      invariant Exact(r, mem, 2, base, va, i * 0x20_0000, paddr)
    {
      var pmd, lines := base[i], [];
      Absent(mem, 2, base, pmd, va + i * 0x20_0000, paddr);
      if pmd.present {
        if pmd.large {
          lines := Handle2M(pmd, paddr, pgd, pud, i);
          AtPage(lines, mem, 2, pmd, va + i * 0x20_0000, Page2M, pmd.frame / 0x200, paddr);
        } else {
          lines := WalkPte(mem, TableAt(mem, pmd.frame), paddr, pgd, pud, i);
          Below(lines, mem, 2, pmd, va + i * 0x20_0000, paddr);
        }
      }
      Extend(r, lines, mem, 2, base, va, i, paddr);
      r := r + lines;
    }
  }

  method Handle1G(pud: Entry, paddr: nat, pgd: nat, offset: nat) returns (r: seq<Report>)
    ensures r == if pud.frame / 0x4_0000 == paddr / 0x4000_0000
                 then [Report(Page1G, pgd * 0x80_0000_0000 + offset * 0x4000_0000)] else []
  {
    if pud.frame / 0x4_0000 == paddr / 0x4000_0000 {
      var vaddr := pgd * 0x80_0000_0000 + offset * 0x4000_0000;
      return [Report(Page1G, vaddr)];
    }
    return [];
  }

  /** `walk_pud` */
  method WalkPud(mem: Memory, base: Table, paddr: nat, pgd: nat) returns (r: seq<Report>)
    ensures Exact(r, mem, 3, base, pgd * 0x80_0000_0000, 0x80_0000_0000, paddr)
  {
    hide Exact, ExactEntry;
    ghost var va := pgd * 0x80_0000_0000;
    r := [];
    Absent(mem, 3, base, base[0], va, paddr);
    for i := 0 to PTRS
      invariant Exact(r, mem, 3, base, va, i * 0x4000_0000, paddr)
    {
      var pud, lines := base[i], [];
      Absent(mem, 3, base, pud, va + i * 0x4000_0000, paddr);
      if pud.present {
        if pud.large {
          lines := Handle1G(pud, paddr, pgd, i);
          AtPage(lines, mem, 3, pud, va + i * 0x4000_0000, Page1G, pud.frame / 0x4_0000, paddr);
        } else {
          lines := WalkPmd(mem, TableAt(mem, pud.frame), paddr, pgd, i);
          Below(lines, mem, 3, pud, va + i * 0x4000_0000, paddr);
        }
      }
      Extend(r, lines, mem, 3, base, va, i, paddr);
      r := r + lines;
    }
  }

  /** `walk_pgd`: the lower half of the top table, which maps user space. */
  method WalkPgd(mem: Memory, base: Table, paddr: nat) returns (r: seq<Report>)
    ensures Exact(r, mem, 4, base, 0, USER_TOP, paddr)
  {
    hide Exact, ExactEntry;
    r := [];
    Absent(mem, 4, base, base[0], 0, paddr);
    for i := 0 to PTRS / 2
      invariant Exact(r, mem, 4, base, 0, i * 0x80_0000_0000, paddr)
    {
      var pgd, lines := base[i], [];
      Absent(mem, 4, base, pgd, i * 0x80_0000_0000, paddr);
      if pgd.present {
        lines := WalkPud(mem, TableAt(mem, pgd.frame), paddr, i);
        Below(lines, mem, 4, pgd, i * 0x80_0000_0000, paddr);
      }
      Extend(r, lines, mem, 4, base, 0, i, paddr);
      r := r + lines;
    }
  }

  lemma InTable(mem: Memory, level: nat, t: Table, x: nat)
    requires Look(mem, level, t, x).Maps?
    ensures x < PTRS * Unit(level)
  {
    hide LookEntry, Unit;
    var i, y := Divide(x, Unit(level));
    Times(i + 1, PTRS, Unit(level));
  }

  lemma AtEntry(mem: Memory, level: nat, t: Table, i: nat, y: nat)
    requires i < PTRS && y < Unit(level)
    ensures Look(mem, level, t, i * Unit(level) + y) == LookEntry(mem, level, t[i], y)
  {
    hide LookEntry, Unit;
    DivMod(i * Unit(level) + y, Unit(level), i, y);
  }

  /** The other bytes of a page lie around it. */
  lemma {:induction false} SamePage(mem: Memory, level: nat, t: Table, x: nat, offset: nat)
    requires 1 <= level <= 4 && Look(mem, level, t, x).Maps? && offset < Bytes(Look(mem, level, t, x).size)
    ensures var found := Look(mem, level, t, x);
      && found.offset < Bytes(found.size) && found.offset <= x
      && Look(mem, level, t, x - found.offset + offset) == found.(offset := offset)
    decreases level, 1
  {
    hide LookEntry, Unit;
    var i, y := Divide(x, Unit(level));
    SameEntry(mem, level, t[i], y, offset);
    AtEntry(mem, level, t, i, y - Look(mem, level, t, x).offset + offset);
  }

  lemma {:induction false} SameEntry(mem: Memory, level: nat, e: Entry, y: nat, offset: nat)
    requires 1 <= level <= 4 && LookEntry(mem, level, e, y).Maps? && y < Unit(level)
    requires offset < Bytes(LookEntry(mem, level, e, y).size)
    ensures var found := LookEntry(mem, level, e, y);
      && found.offset < Bytes(found.size) && found.offset <= y && y - found.offset + offset < Unit(level)
      && LookEntry(mem, level, e, y - found.offset + offset) == found.(offset := offset)
    decreases level, 0
  {
    hide Look;
    if level > 1 && (level == 4 || !e.large) {
      var next := TableAt(mem, e.frame);
      SamePage(mem, level - 1, next, y, offset);
      InTable(mem, level - 1, next, y - LookEntry(mem, level, e, y).offset + offset);
    }
  }

  /** The physical address an address leads to. */
  predicate LeadsTo(found: Found, paddr: nat) {
    found.Maps? && found.frame * Bytes(found.size) + found.offset == paddr
  }

  /** The reverse walk inverts the forward translation: an address leads to `paddr` just when its page is reported. */
  lemma ReversesTranslation(r: seq<Report>, mem: Memory, cr3: Table, paddr: nat, va: nat)
    requires Exact(r, mem, 4, cr3, 0, USER_TOP, paddr) && va < USER_TOP
    ensures LeadsTo(Translate(mem, cr3, va), paddr)
       <==> exists line :: line in r && va == line.va + paddr % Bytes(line.size)
  {
    hide LookEntry;
    LookIsTranslate(mem, cr3, va);
    var found := Look(mem, 4, cr3, va);
    if LeadsTo(found, paddr) {
      SamePage(mem, 4, cr3, va, 0);
      DivMod(paddr, Bytes(found.size), found.frame, found.offset);
      assert Report(found.size, va - found.offset) in r;
    }
    forall line | line in r && va == line.va + paddr % Bytes(line.size)
      ensures LeadsTo(found, paddr)
    {
      assert Starts(Look(mem, 4, cr3, line.va), line.size, paddr);
      SamePage(mem, 4, cr3, line.va, paddr % Bytes(line.size));
      var q, rest := Divide(paddr, Bytes(line.size));
    }
  }

  /** `get_paddr` of the test module: it follows the four levels whatever the entries say. */
  function GetPaddr(mem: Memory, cr3: Table, va: nat): nat {
    var e4 := cr3[va / 0x80_0000_0000 % PTRS];
    var e3 := TableAt(mem, e4.frame)[va / 0x4000_0000 % PTRS];
    var e2 := TableAt(mem, e3.frame)[va / 0x20_0000 % PTRS];
    TableAt(mem, e2.frame)[va / 0x1000 % PTRS].frame * 0x1000
  }

  /** On 4K pages the walk and `get_paddr` undo each other, both ways. */
  lemma GetPaddrUndone(r: seq<Report>, mem: Memory, cr3: Table, paddr: nat, va: nat)
    requires Exact(r, mem, 4, cr3, 0, USER_TOP, paddr) && va < USER_TOP && va % 0x1000 == 0
    requires Translate(mem, cr3, va).Maps? && Translate(mem, cr3, va).size == Page4K
    ensures Report(Page4K, va) in r <==> GetPaddr(mem, cr3, va) == paddr / 0x1000 * 0x1000
  {
    hide LookEntry;
    LookIsTranslate(mem, cr3, va);
  }

  datatype Mm = NoMm | Mm(cr3: Table)
  datatype Task = Task(pid: int, mm: Mm)
  datatype Line = Line(pid: int, report: Report)

  function Tagged(pid: int, r: seq<Report>): (lines: seq<Line>)
    ensures |lines| == |r|
  {
    seq(|r|, i requires 0 <= i < |r| => Line(pid, r[i]))
  }

  ghost predicate PrintedForOne(lines: seq<Line>, mem: Memory, task: Task, paddr: nat, r: seq<Report>) {
    && lines == Tagged(task.pid, r)
    && if task.mm.NoMm? then r == [] else Exact(r, mem, 4, task.mm.cr3, 0, USER_TOP, paddr)
  }

  function Last(tasks: seq<Task>): Task
    requires tasks != []
  {
    tasks[|tasks| - 1]
  }

  /** What a walk over `tasks` prints, one task after the other. */
  ghost predicate PrintedFor(lines: seq<Line>, mem: Memory, tasks: seq<Task>, paddr: nat)
    decreases tasks
  {
    if tasks == [] then lines == [] else
      exists k: nat, r ::
        && k <= |lines| && PrintedForOne(lines[k..], mem, Last(tasks), paddr, r)
        && PrintedFor(lines[..k], mem, tasks[..|tasks| - 1], paddr)
  }

  /** A line is right for a task: its address is the start of a page of the task that holds `paddr`. */
  predicate Right(line: Line, mem: Memory, task: Task, paddr: nat) {
    && line.pid == task.pid && task.mm.Mm? && line.report.va < USER_TOP
    && Starts(Translate(mem, task.mm.cr3, line.report.va), line.report.size, paddr)
  }

  lemma OneExactly(lines: seq<Line>, mem: Memory, task: Task, paddr: nat, r: seq<Report>, line: Line)
    requires PrintedForOne(lines, mem, task, paddr, r)
    ensures line in lines <==> Right(line, mem, task, paddr)
  {
    hide Look, Translate, Starts;
    if task.mm.Mm? && line.report.va < USER_TOP {
      LookIsTranslate(mem, task.mm.cr3, line.report.va);
    }
    if line.report in r && line.pid == task.pid {
      var i :| 0 <= i < |r| && r[i] == line.report;
      assert lines[i] == line;
    }
  }

  /** Exactly the right lines are printed. */
  lemma {:induction false} PrintedExactly(lines: seq<Line>, mem: Memory, tasks: seq<Task>, paddr: nat, line: Line)
    requires PrintedFor(lines, mem, tasks, paddr)
    ensures line in lines <==> exists task :: task in tasks && Right(line, mem, task, paddr)
    decreases tasks
  {
    hide Right, PrintedForOne;
    if tasks == [] {
    } else {
      var n := |tasks| - 1;
      var k: nat, r :| k <= |lines| && PrintedForOne(lines[k..], mem, Last(tasks), paddr, r)
        && PrintedFor(lines[..k], mem, tasks[..n], paddr);
      PrintedExactly(lines[..k], mem, tasks[..n], paddr, line);
      OneExactly(lines[k..], mem, tasks[n], paddr, r, line);
      assert lines == lines[..k] + lines[k..] && tasks == tasks[..n] + [tasks[n]];
    }
  }

  /** All right lines of one task, with ascending addresses. */
  ghost predicate LinesOf(part: seq<Line>, mem: Memory, task: Task, paddr: nat) {
    && (forall j, k :: 0 <= j < k < |part| ==> part[j].report.va < part[k].report.va)
    && forall line :: line in part <==> Right(line, mem, task, paddr)
  }

  /** The lines of a task are the ones from `lo` to `hi`. */
  ghost predicate PartOf(lines: seq<Line>, mem: Memory, task: Task, paddr: nat, lo: nat, hi: nat) {
    lo <= hi <= |lines| && LinesOf(lines[lo..hi], mem, task, paddr)
  }

  /** The lines of the tasks stand one behind the other, in the order of the tasks; `cuts` are the places in between. */
  ghost predicate OneByOne(lines: seq<Line>, mem: Memory, tasks: seq<Task>, paddr: nat, cuts: seq<nat>) {
    && |cuts| == |tasks| + 1 && cuts[0] == 0 && cuts[|tasks|] == |lines|
    && forall i :: 0 <= i < |tasks| ==> PartOf(lines, mem, tasks[i], paddr, cuts[i], cuts[i + 1])
  }

  lemma OneInOrder(lines: seq<Line>, mem: Memory, task: Task, paddr: nat, r: seq<Report>)
    requires PrintedForOne(lines, mem, task, paddr, r)
    ensures LinesOf(lines, mem, task, paddr)
  {
    hide Look, Translate, Starts, Right;
    forall line
      ensures line in lines <==> Right(line, mem, task, paddr)
    {
      OneExactly(lines, mem, task, paddr, r, line);
    }
  }

  /** The lines of one more task. */
  lemma OneMore(lines: seq<Line>, mem: Memory, tasks: seq<Task>, paddr: nat, cuts: seq<nat>, k: nat)
    requires tasks != [] && k <= |lines| && LinesOf(lines[k..], mem, Last(tasks), paddr)
    requires OneByOne(lines[..k], mem, tasks[..|tasks| - 1], paddr, cuts)
    ensures OneByOne(lines, mem, tasks, paddr, cuts + [|lines|])
  {
    hide PartOf;
    var n, all := |tasks| - 1, cuts + [|lines|];
    PartAdded(lines, mem, Last(tasks), paddr, k);
    forall i | 0 <= i < n
      ensures PartOf(lines, mem, tasks[i], paddr, all[i], all[i + 1])
    {
      assert PartOf(lines[..k], mem, tasks[..n][i], paddr, cuts[i], cuts[i + 1]);
      PartKept(lines, mem, tasks[i], paddr, cuts[i], cuts[i + 1], k);
    }
  }

  lemma PartKept(lines: seq<Line>, mem: Memory, task: Task, paddr: nat, lo: nat, hi: nat, k: nat)
    requires k <= |lines| && PartOf(lines[..k], mem, task, paddr, lo, hi)
    ensures PartOf(lines, mem, task, paddr, lo, hi)
  {
    hide LinesOf;
    assert lines[..k][lo..hi] == lines[lo..hi];
  }

  lemma PartAdded(lines: seq<Line>, mem: Memory, task: Task, paddr: nat, k: nat)
    requires k <= |lines| && LinesOf(lines[k..], mem, task, paddr)
    ensures PartOf(lines, mem, task, paddr, k, |lines|)
  {
    hide LinesOf;
    assert lines[k..|lines|] == lines[k..];
  }

  /** What is printed keeps the order of the tasks and, for each of them, that of the addresses. */
  lemma {:induction false} PrintedInOrder(lines: seq<Line>, mem: Memory, tasks: seq<Task>, paddr: nat)
    returns (cuts: seq<nat>)
    requires PrintedFor(lines, mem, tasks, paddr)
    ensures OneByOne(lines, mem, tasks, paddr, cuts)
    decreases tasks
  {
    hide PrintedForOne, LinesOf;
    if tasks == [] {
      cuts := [0];
    } else {
      var n := |tasks| - 1;
      var k: nat, r :| k <= |lines| && PrintedForOne(lines[k..], mem, Last(tasks), paddr, r)
        && PrintedFor(lines[..k], mem, tasks[..n], paddr);
      cuts := PrintedInOrder(lines[..k], mem, tasks[..n], paddr);
      OneInOrder(lines[k..], mem, Last(tasks), paddr, r);
      OneMore(lines, mem, tasks, paddr, cuts, k);
      cuts := cuts + [|lines|];
    }
  }

  lemma PrintOne(lines: seq<Line>, more: seq<Line>, mem: Memory, tasks: seq<Task>, task: Task, paddr: nat,
                 r: seq<Report>)
    requires PrintedFor(lines, mem, tasks, paddr) && PrintedForOne(more, mem, task, paddr, r)
    ensures PrintedFor(lines + more, mem, tasks + [task], paddr)
  {
    hide PrintedForOne;
    var all, k := lines + more, |lines|;
    var now := tasks + [task];
    assert all[..k] == lines && all[k..] == more && now[..|now| - 1] == tasks && Last(now) == task;
    assert PrintedForOne(all[k..], mem, Last(now), paddr, r);
  }

  lemma PrintedNone(mem: Memory, tasks: seq<Task>, paddr: nat)
    requires tasks == []
    ensures PrintedFor([], mem, tasks, paddr)
  {
  }

  lemma NoLines(mem: Memory, task: Task, paddr: nat)
    ensures task.mm.NoMm? ==> PrintedForOne([], mem, task, paddr, [])
  {
  }

  datatype NowTask = Nobody | Now(task: Task)

  class Printer {
    var nowTask: NowTask
    var lines: seq<Line>

    constructor ()
      ensures nowTask == Nobody && lines == []
    {
      nowTask, lines := Nobody, [];
    }

    /** `walk_mm_struct`, whose lines name `now_task`. */
    method WalkMm(mem: Memory, cr3: Table, paddr: nat) returns (ghost r: seq<Report>)
      requires nowTask.Now? && nowTask.task.mm == Mm(cr3)
      modifies `lines
      ensures lines == old(lines) + Tagged(nowTask.task.pid, r)
      ensures PrintedForOne(Tagged(nowTask.task.pid, r), mem, nowTask.task, paddr, r)
    {
      hide Exact, Tagged;
      var reports := WalkPgd(mem, cr3, paddr);
      lines := lines + Tagged(nowTask.task.pid, reports);
      r := reports;
    }

    /**
      `print_vaddr_of_paddr`: goes once around the ring of tasks, which starts at the calling task.
      The caller is the head of the ring, so its own addresses are not printed.
     */
    method PrintVaddrOfPaddr(mem: Memory, ring: seq<Task>, paddr: nat)
      returns (ghost printed: seq<Line>, ghost cuts: seq<nat>)
      requires ring != []
      modifies this
      ensures lines == old(lines) + printed && nowTask == Nobody
      ensures PrintedFor(printed, mem, ring[1..], paddr)
      ensures OneByOne(printed, mem, ring[1..], paddr, cuts)
    {
      hide PrintedFor, PrintedForOne, OneByOne, Tagged, Exact;
      ghost var tasks := ring[1..];
      printed := [];
      nowTask := Nobody;
      PrintedNone(mem, tasks[..0], paddr);
      for i := 1 to |ring|
        invariant lines == old(lines) + printed && nowTask == Nobody
        invariant PrintedFor(printed, mem, tasks[..i - 1], paddr)
      {
        var p := ring[i];
        ghost var r: seq<Report>, some: seq<Line> := [], [];
        NoLines(mem, p, paddr);
        if p.mm.Mm? {
          nowTask := Now(p);
          r := WalkMm(mem, p.mm.cr3, paddr);
          some := Tagged(p.pid, r);
          nowTask := Nobody;
        }
        PrintOne(printed, some, mem, tasks[..i - 1], p, paddr, r);
        assert tasks[..i] == tasks[..i - 1] + [p];
        printed := printed + some;
      }
      assert tasks[..|ring| - 1] == tasks;
      cuts := PrintedInOrder(printed, mem, tasks, paddr);
    }
  }

  // What is left out by not visiting the calling task

  /** Some user address of the task leads to `paddr`. */
  ghost predicate MapsAddress(mem: Memory, task: Task, paddr: nat) {
    task.mm.Mm? && exists va: nat :: va < USER_TOP && LeadsTo(Translate(mem, task.mm.cr3, va), paddr)
  }

  /** What starts at a boundary of a level starts a page. */
  lemma {:induction false} AtBoundary(mem: Memory, level: nat, e: Entry)
    ensures LookEntry(mem, level, e, 0).Maps? ==> LookEntry(mem, level, e, 0).offset == 0
    decreases level
  {
    if e.present && level > 1 && !(level <= 3 && e.large) {
      var t := TableAt(mem, e.frame);
      AtEntry(mem, level - 1, t, 0, 0);
      AtBoundary(mem, level - 1, t[0]);
    }
  }

  /** No page straddles the end of user space. */
  lemma InUserSpace(mem: Memory, cr3: Table, va: nat, offset: nat)
    requires va < USER_TOP && Look(mem, 4, cr3, va).Maps? && Look(mem, 4, cr3, va).offset == 0
    requires offset < Bytes(Look(mem, 4, cr3, va).size)
    ensures va + offset < USER_TOP
  {
    hide LookEntry, Look;
    if va + offset >= USER_TOP {
      SamePage(mem, 4, cr3, va, USER_TOP - va);
      AtEntry(mem, 4, cr3, 256, 0);
      AtBoundary(mem, 4, cr3[256]);
    }
  }

  lemma RightLineMaps(line: Line, mem: Memory, task: Task, paddr: nat)
    requires Right(line, mem, task, paddr)
    ensures MapsAddress(mem, task, paddr)
  {
    hide LookEntry, Look, Translate;
    var cr3, size, va := task.mm.cr3, line.report.size, line.report.va;
    var q, rest := Divide(paddr, Bytes(size));
    LookIsTranslate(mem, cr3, va);
    SamePage(mem, 4, cr3, va, rest);
    InUserSpace(mem, cr3, va, rest);
    LookIsTranslate(mem, cr3, va + rest);
  }

  lemma MappedHasRightLine(mem: Memory, task: Task, paddr: nat) returns (line: Line)
    requires MapsAddress(mem, task, paddr)
    ensures Right(line, mem, task, paddr)
  {
    hide LookEntry, Look, Translate;
    var cr3 := task.mm.cr3;
    var va: nat :| va < USER_TOP && LeadsTo(Translate(mem, cr3, va), paddr);
    LookIsTranslate(mem, cr3, va);
    var found := Look(mem, 4, cr3, va);
    SamePage(mem, 4, cr3, va, 0);
    DivMod(paddr, Bytes(found.size), found.frame, found.offset);
    LookIsTranslate(mem, cr3, va - found.offset);
    line := Line(task.pid, Report(found.size, va - found.offset));
  }

  /**
    The output for a ring of tasks with different pids names every page that holds `paddr` exactly
    if the calling task, the first of the ring, does not map it.
   */
  lemma CompleteExactly(lines: seq<Line>, mem: Memory, ring: seq<Task>, paddr: nat)
    requires ring != [] && PrintedFor(lines, mem, ring[1..], paddr)
    requires forall task :: task in ring[1..] ==> task.pid != ring[0].pid
    ensures (forall line, task :: task in ring && Right(line, mem, task, paddr) ==> line in lines)
       <==> !MapsAddress(mem, ring[0], paddr)
  {
    hide MapsAddress, PrintedFor;
    if MapsAddress(mem, ring[0], paddr) {
      var line := MappedHasRightLine(mem, ring[0], paddr);
      CallerNotPrinted(lines, mem, ring, paddr, line);
    } else {
      forall line, task | task in ring && Right(line, mem, task, paddr)
        ensures line in lines
      {
        OthersPrinted(lines, mem, ring, paddr, line, task);
      }
    }
  }

  lemma CallerNotPrinted(lines: seq<Line>, mem: Memory, ring: seq<Task>, paddr: nat, line: Line)
    requires ring != [] && PrintedFor(lines, mem, ring[1..], paddr) && line.pid == ring[0].pid
    requires forall task :: task in ring[1..] ==> task.pid != ring[0].pid
    ensures line !in lines
  {
    PrintedExactly(lines, mem, ring[1..], paddr, line);
  }

  lemma OthersPrinted(lines: seq<Line>, mem: Memory, ring: seq<Task>, paddr: nat, line: Line, task: Task)
    requires ring != [] && PrintedFor(lines, mem, ring[1..], paddr)
    ensures task in ring && Right(line, mem, task, paddr) ==> MapsAddress(mem, ring[0], paddr) || line in lines
  {
    hide Right, MapsAddress, PrintedFor;
    assert ring == [ring[0]] + ring[1..];
    PrintedExactly(lines, mem, ring[1..], paddr, line);
    if Right(line, mem, ring[0], paddr) {
      RightLineMaps(line, mem, ring[0], paddr);
    }
  }

  lemma NothingPrinted(lines: seq<Line>, mem: Memory, task: Task, paddr: nat)
    requires PrintedFor(lines, mem, [task], paddr) && task.mm.NoMm?
    ensures lines == []
  {
    var k: nat, r :| k <= |lines| && PrintedForOne(lines[k..], mem, Last([task]), paddr, r)
      && PrintedFor(lines[..k], mem, [task][..0], paddr);
    assert lines == lines[..k] + lines[k..];
  }

  /** A calling task that maps a page alone, beside the first task of the system: nothing is printed. */
  lemma CallerMissed() returns (mem: Memory, ring: seq<Task>, line: Line)
    ensures |ring| == 2 && ring[1] == Task(0, NoMm) && Right(line, mem, ring[0], 0)
    ensures forall lines :: PrintedFor(lines, mem, ring[1..], 0) ==> lines == []
  {
    var upper: Table := seq(PTRS, _ => Entry(true, true, 0));
    var cr3: Table := seq(PTRS, _ => Entry(true, false, 1));
    mem, ring, line := map[1 := upper], [Task(7, Mm(cr3)), Task(0, NoMm)], Line(7, Report(Page1G, 0));
    assert Translate(mem, cr3, 0) == Maps(Page1G, 0, 0);
    assert ring[1..] == [Task(0, NoMm)];
    forall lines | PrintedFor(lines, mem, ring[1..], 0)
      ensures lines == []
    {
      NothingPrinted(lines, mem, Task(0, NoMm), 0);
    }
  }
}
