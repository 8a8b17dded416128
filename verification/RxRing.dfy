/**
  The receive side of the test driver (mem_overflow/test/8139too.c): the chip lays frames out in a
  ring buffer, each behind a four-byte header, and the driver walks over them.
 */
module RxRing {
  import opened Words

  const RX_BUF_LEN := 32768
  const RX_BUF_TOT_LEN := RX_BUF_LEN + 16 + 2048
  const MAX_ETH_FRAME_SIZE := 1536
  const COPYING := 0xfff0
  const U32 := 0x1_0000_0000

  type Half = x: int | 0 <= x < 0x1_0000
  type Uint = x: int | 0 <= x < U32

  /** What the chip has put behind one header: a frame with its CRC, or the sign that it is still at work. */
  datatype Entry = Frame(status: Half, data: seq<Byte>) | Copying(status: Half)

  function SizeField(e: Entry): nat {
    match e
    case Frame(_, data) => |data|
    case Copying(_) => COPYING
  }

  function Header(status: Half, size: Half): (r: seq<Byte>)
    ensures |r| == 4
  {
    [status % 256, status / 256, size % 256, size / 256]
  }

  /** The bytes of an entry in the ring. */
  function Image(e: Entry): seq<Byte> {
    if SizeField(e) >= 0x1_0000 then []
    else Header(e.status, SizeField(e)) + if e.Frame? then e.data else []
  }

  /** Entries start at multiples of four. */
  function Stride(e: Entry): nat {
    if e.Frame? then (|e.data| + 4 + 3) / 4 * 4 else 4
  }

  function End(at: nat, es: seq<Entry>): (r: nat)
    ensures r >= at
    decreases es
  {
    if es == [] then at else End(at + Stride(es[0]), es[1..])
  }

  /** `e` lies at position `at`, running on into the padding instead of wrapping around. */
  ghost predicate LiesAt(ring: seq<Byte>, at: nat, e: Entry) {
    var o := at % RX_BUF_LEN;
    |Image(e)| >= 4 && o + |Image(e)| <= |ring| && ring[o..o + |Image(e)|] == Image(e)
  }

  /** The entries lie one behind the other from position `at` on. */
  ghost predicate Laid(ring: seq<Byte>, at: nat, es: seq<Entry>)
    decreases es
  {
    es == [] || (LiesAt(ring, at, es[0]) && Laid(ring, at + Stride(es[0]), es[1..]))
  }

  /** Fits behind what is unread: inside the buffer, and not over the oldest unread entry at `rd`. */
  predicate Fits(rd: nat, wr: nat, e: Entry) {
    |Image(e)| >= 4 && wr % RX_BUF_LEN + |Image(e)| <= RX_BUF_TOT_LEN && wr + Stride(e) <= rd + RX_BUF_LEN
  }

  /** In numbers, for a frame and for the sign of a copy in progress, which is a header alone. */
  lemma FitsInNumbers(rd: nat, wr: nat, e: Entry)
    ensures var n := if e.Frame? then |e.data| else 0;
      Fits(rd, wr, e) <==> n < 0x1_0000 && wr % 32768 + 4 + n <= 34832 && wr + (n + 7) / 4 * 4 <= rd + 32768
  {
  }

  /** Where 1544 bytes are left behind the unread entries, any good frame fits. */
  lemma GoodFits(rd: nat, wr: nat, e: Entry)
    requires Good(e) && wr % 4 == 0 && wr + 1544 <= rd + 32768
    ensures Fits(rd, wr, e)
  {
    FitsInNumbers(rd, wr, e);
    hide Fits, Image, Stride;
    AlignedOffset(wr);
  }

  lemma AlignedOffset(wr: nat)
    requires wr % 4 == 0
    ensures wr % 32768 <= 32764
  {
    assert wr == wr / 32768 * 8192 * 4 + wr % 32768;
    assert wr % 32768 % 4 == 0;
  }

  function Write(ring: seq<Byte>, o: nat, image: seq<Byte>): (r: seq<Byte>)
    requires o + |image| <= |ring|
    ensures |r| == |ring|
  {
    ring[..o] + image + ring[o + |image|..]
  }

  lemma StrideCovers(e: Entry)
    requires |Image(e)| >= 4
    ensures |Image(e)| <= Stride(e) <= |Image(e)| + 3 && Stride(e) % 4 == 0
  {
  }

  /** Positions less than one ring apart are different bytes, although the end of a frame may lie in the padding. */
  lemma Apart(at: nat, len: nat, wr: nat, wlen: nat)
    requires at + len <= wr && wr + wlen <= at + RX_BUF_LEN && wlen > 0
    ensures at % RX_BUF_LEN + len <= wr % RX_BUF_LEN || wr % RX_BUF_LEN + wlen <= at % RX_BUF_LEN
  {
    var q, r := at / RX_BUF_LEN, wr / RX_BUF_LEN;
    assert at == q * RX_BUF_LEN + at % RX_BUF_LEN && wr == r * RX_BUF_LEN + wr % RX_BUF_LEN;
    assert r == q || r == q + 1;
  }

  lemma WriteHere(ring: seq<Byte>, wr: nat, e: Entry)
    requires |ring| == RX_BUF_TOT_LEN && |Image(e)| >= 4 && wr % RX_BUF_LEN + |Image(e)| <= |ring|
    ensures LiesAt(Write(ring, wr % RX_BUF_LEN, Image(e)), wr, e)
  {
    var o, image := wr % RX_BUF_LEN, Image(e);
    assert (ring[..o] + image + ring[o + |image|..])[o..o + |image|] == image;
  }

  lemma WriteElsewhere(ring: seq<Byte>, at: nat, e: Entry, rd: nat, wr: nat, f: Entry)
    requires |ring| == RX_BUF_TOT_LEN && LiesAt(ring, at, e)
    requires rd <= at && at + Stride(e) <= wr && Fits(rd, wr, f)
    ensures LiesAt(Write(ring, wr % RX_BUF_LEN, Image(f)), at, e)
  {
    StrideCovers(e);
    StrideCovers(f);
    Apart(at, |Image(e)|, wr, |Image(f)|);
    var o, len, image := at % RX_BUF_LEN, |Image(e)|, Image(f);
    var after := Write(ring, wr % RX_BUF_LEN, image);
    assert forall i :: o <= i < o + len ==> after[i] == ring[i];
    assert after[o..o + len] == ring[o..o + len];
  }

  /** A new entry behind the unread ones disturbs none of them. */
  lemma {:induction false} LaidPush(ring: seq<Byte>, at: nat, es: seq<Entry>, rd: nat, wr: nat, e: Entry)
    requires |ring| == RX_BUF_TOT_LEN && Laid(ring, at, es) && rd <= at && wr == End(at, es) && Fits(rd, wr, e)
    ensures Laid(Write(ring, wr % RX_BUF_LEN, Image(e)), at, es + [e])
    ensures End(at, es + [e]) == wr + Stride(e)
    decreases es
  {
    hide LiesAt, Image, Stride, Write;
    if es == [] {
      WriteHere(ring, wr, e);
      assert es + [e] == [e];
      assert ([e])[1..] == [];
    } else {
      LaidPush(ring, at + Stride(es[0]), es[1..], rd, wr, e);
      WriteElsewhere(ring, at, es[0], rd, wr, e);
      assert (es + [e])[1..] == es[1..] + [e];
    }
  }

  /** What the driver reads as a little-endian word at `o`. */
  function Le32(ring: seq<Byte>, o: nat): Uint
    requires o + 4 <= |ring|
  {
    var lo: int, hi: int := ring[o + 1], ring[o + 3];
    var status: int, size: int := ring[o] + 0x100 * lo, ring[o + 2] + 0x100 * hi;
    status + 0x1_0000 * size
  }

  lemma HeaderRoundTrip(ring: seq<Byte>, o: nat, status: Half, size: Half)
    requires o + 4 <= |ring| && ring[o..o + 4] == Header(status, size)
    ensures Le32(ring, o) == status + 0x1_0000 * size
  {
    var h := ring[o..o + 4];
    assert ring[o] == h[0] && ring[o + 1] == h[1] && ring[o + 2] == h[2] && ring[o + 3] == h[3];
    assert status % 256 + 256 * (status / 256) == status && size % 256 + 256 * (size / 256) == size;
  }

  lemma Parts(s: seq<Byte>, o: nat, a: seq<Byte>, b: seq<Byte>)
    requires o + |a| + |b| <= |s| && s[o..o + |a| + |b|] == a + b
    ensures s[o..o + |a|] == a && s[o + |a|..o + |a| + |b|] == b
  {
    var t := s[o..o + |a| + |b|];
    assert s[o..o + |a|] == t[..|a|] == a;
    assert s[o + |a|..o + |a| + |b|] == t[|a|..] == b;
  }

  /** The driver finds the oldest entry where its counter points, and all it copies lies in the buffer. */
  lemma ReadsHead(ring: seq<Byte>, at: nat, e: Entry)
    requires LiesAt(ring, at, e)
    ensures SizeField(e) < 0x1_0000 && at % RX_BUF_LEN + 4 <= |ring|
    ensures Le32(ring, at % RX_BUF_LEN) == e.status + 0x1_0000 * SizeField(e)
    ensures e.Frame? ==>
      at % RX_BUF_LEN + 4 + |e.data| <= |ring|
      && ring[at % RX_BUF_LEN + 4..at % RX_BUF_LEN + 4 + |e.data|] == e.data
  {
    hide Le32;
    Parts(ring, at % RX_BUF_LEN, Header(e.status, SizeField(e)), if e.Frame? then e.data else []);
    HeaderRoundTrip(ring, at % RX_BUF_LEN, e.status, SizeField(e));
  }

  /** What the driver accepts: its size and the receiver's verdict are in order. */
  predicate Good(e: Entry) {
    e.Frame? && 8 <= |e.data| <= MAX_ETH_FRAME_SIZE + 4 && e.status % 2 == 1
  }

  predicate AllGood(es: seq<Entry>) {
    forall i :: 0 <= i < |es| ==> Good(es[i])
  }

  /** How many of the oldest entries one call takes. */
  function Accepted(es: seq<Entry>, budget: nat): (k: nat)
    ensures k <= |es| && k <= budget
    decreases budget
  {
    if budget == 0 || es == [] || !Good(es[0]) then 0 else 1 + Accepted(es[1..], budget - 1)
  }

  lemma {:induction false} AcceptedMeans(es: seq<Entry>, budget: nat)
    ensures var k := Accepted(es, budget);
      && k <= |es| && k <= budget && AllGood(es[..k])
      && (forall i :: 0 <= i < k ==> Good(es[i]))
      && (k == budget || k == |es| || !Good(es[k]))
    decreases budget
  {
    if budget == 0 || es == [] || !Good(es[0]) {
    } else {
      AcceptedMeans(es[1..], budget - 1);
    }
  }

  /** The frame without its CRC. */
  function Payload(e: Entry): seq<Byte> {
    if Good(e) then e.data[..|e.data| - 4] else []
  }

  /** Whether the `i`-th buffer allocation of a call succeeds. */
  predicate Succeeds(alloc: seq<bool>, i: nat) {
    i < |alloc| && alloc[i]
  }

  /** What reaches the network stack. */
  function Delivered(es: seq<Entry>, alloc: seq<bool>): (r: seq<seq<Byte>>)
    ensures |r| <= |es|
  {
    if es == [] then [] else
      var n := |es| - 1;
      Delivered(es[..n], alloc) + if Succeeds(alloc, n) then [Payload(es[n])] else []
  }

  function Payloads(es: seq<Entry>): (r: seq<seq<Byte>>)
    ensures |r| == |es|
  {
    seq(|es|, i requires 0 <= i < |es| => Payload(es[i]))
  }

  /** Nothing is lost or reordered unless an allocation fails. */
  lemma {:induction false} AllDelivered(es: seq<Entry>, alloc: seq<bool>)
    ensures |Delivered(es, alloc)| == |es| ==> Delivered(es, alloc) == Payloads(es)
    ensures (forall i: nat :: i < |es| ==> Succeeds(alloc, i)) ==> |Delivered(es, alloc)| == |es|
  {
    if es == [] {
    } else {
      AllDelivered(es[..|es| - 1], alloc);
    }
  }

  datatype RxStats = RxStats(packets: nat, bytes: nat, dropped: nat, errors: nat, frameErrors: nat,
                             lengthErrors: nat, crcErrors: nat, lostInRing: nat, earlyRx: nat)

  const NO_STATS := RxStats(0, 0, 0, 0, 0, 0, 0, 0, 0)

  /** `rtl8139_rx_err`: what a bad status word counts as. */
  function CountError(st: RxStats, status: nat): RxStats {
    if status % 2 == 1 then st.(errors := st.errors + 1, lostInRing := st.lostInRing + 1)
    else
      st.(errors := st.errors + 1,
          frameErrors := st.frameErrors + if And(status, 0x22) != 0 then 1 else 0,
          lengthErrors := st.lengthErrors + if And(status, 0x18) != 0 then 1 else 0,
          crcErrors := st.crcErrors + if And(status, 0x04) != 0 then 1 else 0)
  }

  /**
    What the statistics tell about a frame the driver could not take. It is one error; and if the
    chip had found it in order (bit 0), the driver has lost its place in the ring. Otherwise it counts
    under its kinds: bad alignment (1) or a bad symbol (5), too long (3) or too short (4), bad CRC (2).
   */
  ghost predicate Told(before: RxStats, after: RxStats, status: nat) {
    && after.errors == before.errors + 1
    && (if Bit(status, 0) then
          after == before.(errors := after.errors, lostInRing := before.lostInRing + 1)
        else
          && after.lostInRing == before.lostInRing
          && after.frameErrors == before.frameErrors + (if Bit(status, 1) || Bit(status, 5) then 1 else 0)
          && after.lengthErrors == before.lengthErrors + (if Bit(status, 3) || Bit(status, 4) then 1 else 0)
          && after.crcErrors == before.crcErrors + if Bit(status, 2) then 1 else 0)
    && after.packets == before.packets && after.bytes == before.bytes && after.dropped == before.dropped
    && after.earlyRx == before.earlyRx
  }

  /** The masks of the driver and the bits in them. */
  lemma MaskBits(k: nat)
    ensures Bit(0x22, k) <==> k == 1 || k == 5
    ensures Bit(0x18, k) <==> k == 3 || k == 4
    ensures Bit(0x04, k) <==> k == 2
  {
    assert !Bit(0x22, 0) && Bit(0x22, 1) && !Bit(0x22, 2) && !Bit(0x22, 3) && !Bit(0x22, 4) && Bit(0x22, 5);
    assert !Bit(0x18, 0) && !Bit(0x18, 1) && !Bit(0x18, 2) && Bit(0x18, 3) && Bit(0x18, 4) && !Bit(0x18, 5);
    assert !Bit(0x04, 0) && !Bit(0x04, 1) && Bit(0x04, 2) && !Bit(0x04, 3) && !Bit(0x04, 4) && !Bit(0x04, 5);
    if k > 5 {
      HighBits(0x22, k);
      HighBits(0x18, k);
      HighBits(0x04, k);
    }
  }

  lemma HighBits(mask: nat, k: nat)
    requires mask < 64 && k > 5
    ensures !Bit(mask, k)
  {
    assert mask / 2 / 2 / 2 / 2 / 2 / 2 == 0;
    NoBit(k - 6);
    assert Bit(mask, k) == Bit(mask / 2, k - 1) == Bit(mask / 2 / 2, k - 2) == Bit(mask / 2 / 2 / 2, k - 3);
    assert Bit(mask / 2 / 2 / 2, k - 3) == Bit(mask / 2 / 2 / 2 / 2, k - 4) == Bit(mask / 2 / 2 / 2 / 2 / 2, k - 5);
  }

  lemma Masks(status: nat)
    ensures And(status, 0x22) != 0 <==> Bit(status, 1) || Bit(status, 5)
    ensures And(status, 0x18) != 0 <==> Bit(status, 3) || Bit(status, 4)
    ensures And(status, 0x04) != 0 <==> Bit(status, 2)
  {
    hide And, Bit;
    forall k: nat
      ensures (Bit(0x22, k) <==> k == 1 || k == 5) && (Bit(0x18, k) <==> k == 3 || k == 4) && (Bit(0x04, k) <==> k == 2)
    {
      MaskBits(k);
    }
    CommonBit(status, 0x22);
    CommonBit(status, 0x18);
    CommonBit(status, 0x04);
  }

  /** The error counters tell exactly what the status word says. */
  lemma ErrorsTold(st: RxStats, status: nat)
    ensures Told(st, CountError(st, status), status)
  {
    hide And;
    Masks(status);
  }

  /** Why the loop over the frames ends: nothing to take, a frame in copy, or a frame to reset for. */
  datatype Stop = Through | Early | Bad

  function StopAt(rest: seq<Entry>, running: bool, k: nat, budget: nat, timeout: nat, now: nat): Stop {
    if !running || k >= budget || rest == [] then Through
    else if rest[0].Copying? && (timeout == 0 || now <= timeout) then Early
    else Bad
  }

  /** The word the driver reads for an entry. */
  function StatusWord(e: Entry): nat {
    e.status + 0x1_0000 * SizeField(e)
  }

  /** How taking entries counts. */
  function Tally(st: RxStats, es: seq<Entry>, alloc: seq<bool>): RxStats {
    if es == [] then st else
      var n := |es| - 1;
      var before := Tally(st, es[..n], alloc);
      if Succeeds(alloc, n) then before.(packets := before.packets + 1, bytes := before.bytes + |Payload(es[n])|)
      else before.(dropped := before.dropped + 1)
  }

  /** Every entry taken is either delivered or counted as dropped. */
  lemma {:induction false} TallyAddsUp(st: RxStats, es: seq<Entry>, alloc: seq<bool>)
    ensures var t := Tally(st, es, alloc);
      t.packets == st.packets + |Delivered(es, alloc)| && t.packets + t.dropped == st.packets + st.dropped + |es|
  {
    if es == [] {
    } else {
      TallyAddsUp(st, es[..|es| - 1], alloc);
    }
  }

  lemma TakenNone(st: RxStats, es: seq<Entry>, alloc: seq<bool>)
    ensures Delivered(es[..0], alloc) == [] && Tally(st, es[..0], alloc) == st && es[0..] == es
  {
  }

  lemma OneMore(st: RxStats, es: seq<Entry>, k: nat, alloc: seq<bool>)
    requires k < |es|
    ensures Delivered(es[..k + 1], alloc)
         == Delivered(es[..k], alloc) + if Succeeds(alloc, k) then [Payload(es[k])] else []
    ensures var before, bytes := Tally(st, es[..k], alloc), |Payload(es[k])|;
      Tally(st, es[..k + 1], alloc)
        == if Succeeds(alloc, k) then before.(packets := before.packets + 1, bytes := before.bytes + bytes)
           else before.(dropped := before.dropped + 1)
  {
    assert es[..k + 1][..k] == es[..k];
  }

  /** What one call does to the queue of unread entries, whatever their places in the ring. */
  datatype Outcome = Outcome(received: int, delivered: seq<seq<Byte>>, timeout: nat, unread: seq<Entry>, stats: RxStats)

  /**
    Takes the good entries from the oldest on, as many as the budget allows. It stops at an entry
    still being copied, asking for another poll by using up the budget, and starts over at a bad one
    or at one that has been in copy for too long.
   */
  function Poll(es: seq<Entry>, st: RxStats, timeout: nat,
                running: bool, budget: nat, alloc: seq<bool>, now: nat): Outcome {
    var k := Accepted(es, if running then budget else 0);
    var left := if k > 0 then 0 else timeout;
    var taken, counted := Delivered(es[..k], alloc), Tally(st, es[..k], alloc);
    match StopAt(es[k..], running, k, budget, left, now)
    case Bad => Outcome(-1, taken, 0, [], CountError(counted, StatusWord(es[k])))
    case Early =>
      Outcome(budget, taken, if left == 0 then now + 2 else left, es[k..], counted.(earlyRx := counted.earlyRx + 1))
    case Through => Outcome(if left == 0 then k else budget, taken, left, es[k..], counted)
  }

  /** What every step keeps: the counter is the position of the oldest unread entry, modulo 2^32. */
  ghost predicate Walk(ring: seq<Byte>, cur: Uint, rd: nat, unread: seq<Entry>) {
    && |ring| == RX_BUF_TOT_LEN
    && rd % 4 == 0 && cur == rd % U32
    && Laid(ring, rd, unread) && End(rd, unread) <= rd + RX_BUF_LEN
  }

  /** One round of the loop: the counter follows the stride across its 32-bit wrap. */
  lemma WalkOn(ring: seq<Byte>, cur: Uint, rd: nat, unread: seq<Entry>)
    requires Walk(ring, cur, rd, unread) && unread != [] && Good(unread[0])
    ensures var next := (cur + SizeField(unread[0]) + 4 + 3) % U32;
      Walk(ring, next - next % 4, rd + Stride(unread[0]), unread[1..])
  {
    NextCounter(cur, rd, |unread[0].data|);
  }

  lemma Remainder(a: nat, q: int, r: Uint)
    requires a == q * U32 + r
    ensures a % U32 == r
  {
  }

  lemma RoundUp(x: nat)
    ensures x / 4 * 4 == x - x % 4
  {
  }

  lemma FourDivides(cur: nat, x: nat)
    requires cur % 4 == 0
    ensures (cur + x) % 4 == x % 4
  {
  }

  /** The counter is a multiple of four where the position is. */
  lemma CounterAligned(cur: Uint, rd: nat)
    requires rd % 4 == 0 && cur == rd % U32
    ensures cur % 4 == 0 && rd == rd / U32 * U32 + cur
  {
  }

  lemma NextPlace(cur: Uint, rd: nat, q: int, x: nat)
    requires rd == q * U32 + cur && x < U32 && cur % 4 == 0
    ensures var next := (cur + x) % U32; next - next % 4 == (rd + x / 4 * 4) % U32
  {
    FourDivides(cur, x);
    RoundUp(x);
    if cur + x < U32 {
      Remainder(cur + x, 0, cur + x);
      Remainder(rd + x / 4 * 4, q, cur + x - x % 4);
    } else {
      Remainder(cur + x, 1, cur + x - U32);
      assert (cur + x - U32) % 4 == x % 4;
      Remainder(rd + x / 4 * 4, q + 1, cur + x - U32 - x % 4);
    }
  }

  lemma NextCounter(cur: Uint, rd: nat, size: nat)
    requires rd % 4 == 0 && cur == rd % U32 && size < 0x1_0000
    ensures var next := (cur + size + 4 + 3) % U32;
      next - next % 4 == (rd + (size + 4 + 3) / 4 * 4) % U32 && (rd + (size + 4 + 3) / 4 * 4) % 4 == 0
  {
    CounterAligned(cur, rd);
    NextPlace(cur, rd, rd / U32, size + 4 + 3);
    FourDivides(rd, (size + 4 + 3) / 4 * 4);
  }

  lemma {:induction false} LaidPrefix(ring: seq<Byte>, at: nat, es: seq<Entry>)
    requires es != [] && Laid(ring, at, es)
    ensures Laid(ring, at, es[..|es| - 1]) && End(at, es[..|es| - 1]) <= End(at, es)
    decreases es
  {
    hide LiesAt, Stride;
    if |es| > 1 {
      LaidPrefix(ring, at + Stride(es[0]), es[1..]);
      assert es[..|es| - 1][1..] == es[1..][..|es| - 2];
    }
  }

  /** A newly written entry follows `Kept`: it takes the place of one still being copied. */
  function Kept(unread: seq<Entry>): seq<Entry> {
    if unread != [] && unread[|unread| - 1].Copying? then unread[..|unread| - 1] else unread
  }

  lemma WalkWrite(ring: seq<Byte>, cur: Uint, rd: nat, unread: seq<Entry>, wr: nat, e: Entry)
    requires Walk(ring, cur, rd, unread) && wr == End(rd, Kept(unread)) && Fits(rd, wr, e)
    ensures wr % RX_BUF_LEN + |Image(e)| <= |ring|
    ensures Walk(Write(ring, wr % RX_BUF_LEN, Image(e)), cur, rd, Kept(unread) + [e])
  {
    hide LiesAt, Stride, Image;
    if Kept(unread) != unread {
      LaidPrefix(ring, rd, unread);
    }
    LaidPush(ring, rd, Kept(unread), rd, wr, e);
  }

  lemma SameOffset(cur: Uint, at: nat)
    requires cur == at % U32
    ensures cur % RX_BUF_LEN == at % RX_BUF_LEN
  {
    var q := at / U32;
    assert at == cur + 131072 * q * RX_BUF_LEN;
  }

  lemma Halves(status: Half, size: nat)
    ensures (status + 0x1_0000 * size) / 0x1_0000 == size && (status + 0x1_0000 * size) % 2 == status % 2
  {
  }

  /** A frame in the buffer is never so long that its size could be taken for the sign of a copy in progress. */
  lemma SizeFits(ring: seq<Byte>, at: nat, e: Entry)
    requires |ring| == RX_BUF_TOT_LEN && LiesAt(ring, at, e)
    ensures SizeField(e) == COPYING <==> e.Copying?
    ensures StatusWord(e) / 0x1_0000 == SizeField(e) && StatusWord(e) % 2 == e.status % 2
  {
    Halves(e.status, SizeField(e));
    hide Stride, Header;
  }

  /** What the driver reads where its counter points is the oldest unread entry. */
  lemma ReadsOldest(ring: seq<Byte>, cur: Uint, at: nat, es: seq<Entry>)
    requires Walk(ring, cur, at, es) && es != []
    ensures var o, e := cur % RX_BUF_LEN, es[0];
      && |ring| == RX_BUF_TOT_LEN && o + 4 <= |ring| && Le32(ring, o) == StatusWord(e)
      && StatusWord(e) / 0x1_0000 == SizeField(e) && StatusWord(e) % 2 == e.status % 2
      && (SizeField(e) == COPYING <==> e.Copying?)
      && (Good(e) <==> 8 <= SizeField(e) <= MAX_ETH_FRAME_SIZE + 4 && e.status % 2 == 1)
      && (Good(e) ==> |Payload(e)| == SizeField(e) - 4 && o + 4 + |Payload(e)| <= RX_BUF_TOT_LEN
                      && ring[o + 4..o + 4 + |Payload(e)|] == Payload(e))
  {
    hide Le32, Image, Stride;
    var o, e := cur % RX_BUF_LEN, es[0];
    SameOffset(cur, at);
    ReadsHead(ring, at, e);
    SizeFits(ring, at, e);
    if Good(e) {
      Parts(ring, o + 4, Payload(e), e.data[|e.data| - 4..]);
    }
  }

  // The driver on any contents of the ring

  /** The memory of the ring. */
  type Ring = r: seq<Byte> | |r| == RX_BUF_TOT_LEN witness Zeros(RX_BUF_TOT_LEN)

  type Aligned = c: int | 0 <= c < U32 && c % 4 == 0

  /** What the driver keeps from one round to the next. */
  datatype Soft = Soft(cur: Aligned, timeout: nat, stats: RxStats)

  /**
    Whatever the ring contains: a size that the driver accepts keeps all it reads and copies inside
    the ring, wherever the counter stands.
   */
  lemma AcceptedSizeInBounds(cur: Aligned, size: nat)
    requires size <= MAX_ETH_FRAME_SIZE + 4
    ensures cur % RX_BUF_LEN + 4 <= RX_BUF_LEN
    ensures cur % RX_BUF_LEN + size <= RX_BUF_TOT_LEN
  {
    var o := cur % RX_BUF_LEN;
    assert o % 4 == 0;
  }

  /** The counter behind a frame of `size` bytes and its header, rounded up. */
  function NextCur(cur: Aligned, size: nat): (next: Aligned) {
    var to := (cur + size + 4 + 3) % U32;
    RoundsDown(to);
    to - to % 4
  }

  lemma RoundsDown(x: nat)
    ensures 0 <= x - x % 4 && (x - x % 4) % 4 == 0
  {
  }

  datatype Verdict = Took | Ends(stop: Stop)

  /** One round of the driver's loop, on whatever the ring contains. */
  function Round(ring: Ring, s: Soft, ok: bool, now: nat): (Verdict, Soft, seq<seq<Byte>>) {
    AcceptedSizeInBounds(s.cur, 0);
    var o := s.cur % RX_BUF_LEN;
    var status := Le32(ring, o);
    var inCopy := status / 0x1_0000 == COPYING;
    if inCopy && (s.timeout == 0 || now <= s.timeout) then
      var timeout := if s.timeout == 0 then now + 2 else s.timeout;
      (Ends(Early), s.(timeout := timeout, stats := s.stats.(earlyRx := s.stats.earlyRx + 1)), [])
    else
      var size := if inCopy then 0 else status / 0x1_0000;
      if size > MAX_ETH_FRAME_SIZE + 4 || size < 8 || status % 2 == 0 then
        (Ends(Bad), Soft(0, 0, CountError(s.stats, status)), [])
      else
        AcceptedSizeInBounds(s.cur, size);
        var stats := if ok then s.stats.(packets := s.stats.packets + 1, bytes := s.stats.bytes + (size - 4))
                     else s.stats.(dropped := s.stats.dropped + 1);
        (Took, Soft(NextCur(s.cur, size), 0, stats), if ok then [ring[o + 4..o + size]] else [])
  }

  /** Only the number of frames in copy has changed. */
  predicate Waited(before: RxStats, after: RxStats) {
    after.earlyRx == before.earlyRx + 1 && after == before.(earlyRx := after.earlyRx)
  }

  /** A frame of `n` bytes was handed on, or dropped for want of a buffer. */
  predicate Handed(before: RxStats, after: RxStats, n: int, ok: bool) {
    if ok then
      && after.packets == before.packets + 1 && after.bytes == before.bytes + n
      && after == before.(packets := after.packets, bytes := after.bytes)
    else after.dropped == before.dropped + 1 && after == before.(dropped := after.dropped)
  }

  /** `next` lies behind `len` bytes from `cur` on, at a multiple of four, modulo 2^32. */
  predicate Onward(cur: int, next: int, len: int) {
    next == cur + (len + 3) / 4 * 4 || next == cur + (len + 3) / 4 * 4 - 0x1_0000_0000
  }

  /**
    A round in terms of the bytes at the counter: two of status, two of size, lower byte first, and the
    frame with its CRC behind them. A frame of 8 to 1540 bytes with the lowest status bit set is taken;
    0xfff0 as the size means that the chip is still copying, which the driver awaits for two ticks.
   */
  ghost predicate RoundSays(ring: Ring, s: Soft, ok: bool, now: nat,
                            verdict: Verdict, next: Soft, skb: seq<seq<Byte>>) {
    var o := s.cur % 32768;
    var size: int := ring[o + 2] as int + 256 * ring[o + 3] as int;
    var hung := size == 0xfff0 && s.timeout != 0 && now > s.timeout;
    if size == 0xfff0 && !hung then
      && verdict == Ends(Early) && skb == [] && next.cur == s.cur && Waited(s.stats, next.stats)
      && next.timeout == if s.timeout == 0 then now + 2 else s.timeout
    else if 8 <= size <= 1540 && ring[o] % 2 == 1 then
      && verdict == Took && next.timeout == 0
      && Onward(s.cur, next.cur, size + 4) && Handed(s.stats, next.stats, size - 4, ok)
      && (if !ok then skb == [] else
            && |skb| == 1 && |skb[0]| == size - 4 && o + size <= |ring|
            && forall j :: 0 <= j < size - 4 ==> skb[0][j] == ring[o + 4 + j])
    else
      && verdict == Ends(Bad) && skb == [] && next.cur == 0 && next.timeout == 0
      && Told(s.stats, next.stats, ring[o] as int + 256 * ring[o + 1] as int + 0x1_0000 * size)
  }

  /** Byte `k` of the word read is the `k`-th byte in the ring. */
  lemma WordBytes(ring: seq<Byte>, o: nat)
    requires o + 4 <= |ring|
    ensures var w, size: int := Le32(ring, o), ring[o + 2] as int + 256 * ring[o + 3] as int;
      && w == ring[o] as int + 256 * ring[o + 1] as int + 0x1_0000 * size
      && w / 0x1_0000 == size && w % 2 == ring[o] % 2
      && w % 256 == ring[o] && w / 0x100 % 256 == ring[o + 1]
      && w / 0x1_0000 % 256 == ring[o + 2] && w / 0x100_0000 == ring[o + 3]
  {
  }

  lemma GoesOnward(cur: Aligned, size: nat)
    requires size < 0x1_0000
    ensures Onward(cur, NextCur(cur, size), size + 4)
  {
  }

  /** What a round does, on whatever the ring contains. */
  lemma RoundMeans(ring: Ring, s: Soft, ok: bool, now: nat)
    ensures var (verdict, next, skb) := Round(ring, s, ok, now); RoundSays(ring, s, ok, now, verdict, next, skb)
  {
    hide Le32, NextCur, Told, CountError, Onward;
    AcceptedSizeInBounds(s.cur, 0);
    var o := s.cur % RX_BUF_LEN;
    WordBytes(ring, o);
    var size: int := ring[o + 2] as int + 256 * ring[o + 3] as int;
    GoesOnward(s.cur, size);
    ErrorsTold(s.stats, Le32(ring, o));
    if size <= 1540 {
      AcceptedSizeInBounds(s.cur, size);
    }
  }

  /** What the driver sees when it tests the empty bit: the bit, and the ring as the chip has left it. */
  datatype View = View(ring: Ring, more: bool)

  datatype LoopOut = LoopOut(received: nat, delivered: seq<seq<Byte>>, soft: Soft, stop: Stop, ring: Ring)

  /** The loop from its `i`-th round on; `views` are what its tests of the empty bit see. */
  function Loop(ring: Ring, views: seq<View>, i: nat, s: Soft, budget: nat, alloc: seq<bool>, now: nat): LoopOut
    decreases views
  {
    if i >= budget || views == [] then LoopOut(i, [], s, Through, ring)
    else if !views[0].more then LoopOut(i, [], s, Through, views[0].ring)
    else
      var (verdict, next, skb) := Round(views[0].ring, s, Succeeds(alloc, i), now);
      match verdict
      case Took => var rest := Loop(views[0].ring, views[1..], i + 1, next, budget, alloc, now);
        rest.(delivered := skb + rest.delivered)
      case Ends(stop) => LoopOut(i, [], next, stop, views[0].ring)
  }

  /** The result of a call: a nonzero timeout asks for another poll by using up the budget. */
  function Received(out: LoopOut, budget: nat): int {
    if out.stop == Bad then -1 else if out.soft.timeout != 0 then budget else out.received
  }
}
