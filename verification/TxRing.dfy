/**
  The transmit side of the test driver (mem_overflow/test/8139too.c): four bounce buffers used in
  turn, counted by two unsigned longs that wrap around.
 */
module TxRing {
  import opened TxStats
  import opened Words

  const NUM_TX_DESC := 4
  const TX_BUF_SIZE := 1536
  const ETH_ZLEN := 60
  const TX_FIFO_THRESH := 256

  /** What goes onto the wire: the chip does not pad. */
  function Frame(packet: seq<Byte>): seq<Byte> {
    if |packet| < ETH_ZLEN then packet + Zeros(ETH_ZLEN - |packet|) else packet
  }

  /** A buffer after a frame has been copied to its start. */
  function Overwrite(buf: seq<Byte>, frame: seq<Byte>): (r: seq<Byte>)
    requires |frame| <= |buf|
    ensures |r| == |buf| && frame <= r
  {
    frame + buf[|frame|..]
  }

  /** The slot of the `i`-th pending frame. */
  function Slot(dirty: Ulong, i: nat): nat {
    (dirty + i) % NUM_TX_DESC
  }

  /** Slots follow the counter also where it wraps around. */
  lemma SlotAfterWrap(dirty: Ulong, i: Ulong)
    ensures Slot(Add(dirty, i), 0) == Slot(dirty, i)
  {
    assert (dirty + i - 0x1_0000_0000_0000_0000) % 4 == (dirty + i) % 4;
  }

  /** Small distances between the counters, whether or not one of them has wrapped around. */
  lemma Distances(d: Ulong, k: nat, n: nat)
    requires k <= n <= NUM_TX_DESC
    ensures Minus(Add(d, n), Add(d, k)) == n - k
    ensures Minus(Add(d, n), d) == n
    ensures Add(Add(d, k), 1) == Add(d, k + 1) && Add(Add(d, k), n - k) == Add(d, n)
    ensures Add(d, k) == d <==> k == 0
    ensures Minus(Add(d, n), NUM_TX_DESC) == d <==> n == NUM_TX_DESC
  {
  }

  lemma SlotsDistinct(dirty: Ulong, i: nat, j: nat)
    requires i < j < i + NUM_TX_DESC
    ensures Slot(dirty, i) != Slot(dirty, j)
  {
  }

  /** The buffers hold the pending frames, the first one in the slot of `at`, and on around the ring. */
  ghost predicate Held(bufs: seq<seq<Byte>>, at: nat, pending: seq<seq<Byte>>)
    decreases pending
  {
    pending == [] || (|bufs| == NUM_TX_DESC && pending[0] <= bufs[at % NUM_TX_DESC] && Held(bufs, at + 1, pending[1..]))
  }

  /** Only the slot matters, so a counter may wrap around. */
  lemma {:induction false} HeldBySlot(bufs: seq<seq<Byte>>, at: nat, to: nat, pending: seq<seq<Byte>>)
    requires Held(bufs, at, pending) && at % NUM_TX_DESC == to % NUM_TX_DESC
    ensures Held(bufs, to, pending)
    decreases pending
  {
    if pending == [] {
    } else {
      assert (at + 1) % NUM_TX_DESC == (to + 1) % NUM_TX_DESC;
      HeldBySlot(bufs, at + 1, to + 1, pending[1..]);
    }
  }

  lemma {:induction false} HeldDrop(bufs: seq<seq<Byte>>, at: nat, pending: seq<seq<Byte>>, k: nat)
    requires Held(bufs, at, pending) && k <= |pending|
    ensures Held(bufs, at + k, pending[k..])
    decreases k
  {
    if k == 0 {
      assert pending[0..] == pending;
    } else {
      HeldDrop(bufs, at + 1, pending[1..], k - 1);
      assert pending[1..][k - 1..] == pending[k..];
    }
  }

  /** A frame put into the slot behind the last pending one leaves the pending frames alone. */
  lemma {:induction false} HeldPush(bufs: seq<seq<Byte>>, at: nat, pending: seq<seq<Byte>>, s: nat,
                                    frame: seq<Byte>, buf: seq<Byte>)
    requires |bufs| == NUM_TX_DESC && Held(bufs, at, pending) && |pending| < NUM_TX_DESC
    requires s == (at + |pending|) % NUM_TX_DESC && frame <= buf
    ensures Held(bufs[s := buf], at, pending + [frame])
    decreases pending
  {
    if pending == [] {
      assert ([frame])[1..] == [];
    } else {
      HeldPush(bufs, at + 1, pending[1..], s, frame, buf);
      assert (pending + [frame])[1..] == pending[1..] + [frame];
      assert s != at % NUM_TX_DESC;
    }
  }

  lemma {:induction false} HeldAt(bufs: seq<seq<Byte>>, at: nat, pending: seq<seq<Byte>>, i: nat)
    requires Held(bufs, at, pending) && i < |pending|
    ensures |bufs| == 4 && pending[i] <= bufs[(at + i) % 4]
    decreases pending
  {
    if i == 0 {
    } else {
      HeldAt(bufs, at + 1, pending[1..], i - 1);
    }
  }

  /** What every step keeps: the buffers, the counters, the queue state and the pending frames fit. */
  ghost predicate Ring(bufs: seq<seq<Byte>>, cur: Ulong, dirty: Ulong, stopped: bool, pending: seq<seq<Byte>>) {
    && |bufs| == NUM_TX_DESC && |bufs[0]| == |bufs[1]| == |bufs[2]| == |bufs[3]| == TX_BUF_SIZE
    && |pending| <= NUM_TX_DESC && cur == Add(dirty, |pending|)
    && (|pending| == NUM_TX_DESC ==> stopped)
    && Held(bufs, dirty, pending)
  }

  /** The slot of `cur` is used by no pending frame, and taking it stops the queue when it was the last. */
  lemma RingPush(bufs: seq<seq<Byte>>, cur: Ulong, dirty: Ulong, pending: seq<seq<Byte>>,
                 frame: seq<Byte>, buf: seq<Byte>)
    requires Ring(bufs, cur, dirty, false, pending) && frame <= buf && |buf| == TX_BUF_SIZE
    ensures Slot(cur, 0) == Slot(dirty, |pending|)
    ensures forall i: nat :: i < |pending| ==> Slot(dirty, i) != Slot(cur, 0)
    ensures Minus(Add(cur, 1), NUM_TX_DESC) == dirty <==> |pending| + 1 == NUM_TX_DESC
    ensures Ring(bufs[Slot(cur, 0) := buf], Add(cur, 1), dirty, |pending| + 1 == NUM_TX_DESC, pending + [frame])
  {
    SlotAfterWrap(dirty, |pending|);
    Distances(dirty, |pending|, |pending| + 1);
    HeldPush(bufs, dirty, pending, Slot(cur, 0), frame, buf);
    forall i: nat | i < |pending|
      ensures Slot(dirty, i) != Slot(cur, 0)
    {
      SlotsDistinct(dirty, i, |pending|);
    }
  }

  /** Giving up the `k` oldest frames; the counters then are at most four apart. */
  lemma RingPop(bufs: seq<seq<Byte>>, cur: Ulong, dirty: Ulong, stopped: bool, pending: seq<seq<Byte>>, k: nat)
    requires Ring(bufs, cur, dirty, stopped, pending) && k <= |pending|
    ensures Minus(cur, Add(dirty, k)) <= NUM_TX_DESC
    ensures Add(dirty, k) == dirty <==> k == 0
    ensures Ring(bufs, cur, Add(dirty, k), stopped && k == 0, pending[k..])
  {
    Distances(dirty, k, |pending|);
    HeldDrop(bufs, dirty, pending, k);
    SlotAfterWrap(dirty, k);
    HeldBySlot(bufs, dirty + k, Add(dirty, k), pending[k..]);
  }

  /** The four registers in ring order, from the slot of the oldest frame on. */
  function RingOrder(regs: seq<TxStatus>, dirty: nat): (turn: seq<TxStatus>)
    requires |regs| == 4
    ensures |turn| == 4
  {
    [regs[dirty % 4], regs[(dirty + 1) % 4], regs[(dirty + 2) % 4], regs[(dirty + 3) % 4]]
  }

  /** A register says that the chip is through: sent (15), underrun (14) or aborted (30). */
  predicate Through(w: TxStatus) {
    Bit(w, 15) || Bit(w, 14) || Bit(w, 30)
  }

  /** Of `n` frames the first `k` are finished, and the next one, if there is one, is not. */
  ghost predicate FirstFinished(turn: seq<TxStatus>, n: nat, k: nat) {
    && k <= n <= |turn|
    && (forall i :: 0 <= i < k ==> Through(turn[i]))
    && (k < n ==> !Through(turn[k]))
  }

  /** The register read is the next one in ring order. */
  lemma NextInTurn(regs: seq<TxStatus>, d: Ulong, k: nat)
    requires |regs| == 4 && k < 4
    ensures regs[Slot(Add(d, k), 0)] == RingOrder(regs, d)[k]
  {
    hide Add;
    SlotAfterWrap(d, k);
    assert k == 0 || k == 1 || k == 2 || k == 3;
  }

  lemma DoneIsThrough(w: TxStatus)
    ensures Done(w) <==> Through(w)
  {
    hide Bit, Done;
    Bits(w);
  }

  lemma OneMore(st: Stats, turn: seq<TxStatus>, k: nat)
    requires k < |turn|
    ensures AccountAll(st, turn[..k + 1]) == Account(AccountAll(st, turn[..k]), turn[k])
  {
    hide Account;
    assert turn[..k + 1][..k] == turn[..k];
  }

  /** One round of the loop over the pending frames. */
  lemma CollectStep(regs: seq<TxStatus>, d: Ulong, k: nat, n: nat, st: Stats)
    requires |regs| == NUM_TX_DESC && k < n <= NUM_TX_DESC
    ensures var turn, w := RingOrder(regs, d), regs[Slot(Add(d, k), 0)];
      && w == turn[k] && Add(Add(d, k), 1) == Add(d, k + 1)
      && (Done(w) <==> Through(w))
      && AccountAll(st, turn[..k + 1]) == Account(AccountAll(st, turn[..k]), w)
  {
    hide Account, AccountAll, RingOrder, Slot, Add, Done, Through;
    NextInTurn(regs, d, k);
    Distances(d, k, n);
    DoneIsThrough(RingOrder(regs, d)[k]);
    OneMore(st, RingOrder(regs, d), k);
  }

  lemma Thirteen()
    ensures Pow2(13) == 0x2000
  {
    Pow2Plus7(6);
    Pow2Plus7(0);
  }

  /** The chip finds the length of the frame in the low 13 bits of the command, and the threshold above. */
  lemma LengthInCommand(txFlag: nat, len: nat)
    requires FlagOk(txFlag) && len < 0x2000
    ensures Or(txFlag, len) % 0x2000 == len && Or(txFlag, len) - len == txFlag
  {
    hide Or, Clear;
    Thirteen();
    var m := txFlag / 0x2000;
    ClearMultiple(m, 13);
    assert txFlag == m * 0x2000;
    OrBelow(txFlag, len, 13);
  }

  lemma NoneCounted(st: Stats, turn: seq<TxStatus>)
    ensures AccountAll(st, turn[..0]) == st
  {
  }

  lemma SumsOf(before: Stats, after: Stats, ws: seq<TxStatus>)
    requires Counted(before, after, ws) && Sum(ws, ErrorIn) + Sum(ws, PacketIn) == |ws|
    ensures after.packets + after.errors == before.packets + before.errors + |ws|
  {
  }

  /** What goes onto the wire for a packet: at least 60 bytes, the packet first and zeros behind it. */
  ghost predicate OnWire(frame: seq<Byte>, packet: seq<Byte>) {
    && |frame| == (if |packet| < 60 then 60 else |packet|)
    && (forall i :: 0 <= i < |packet| ==> frame[i] == packet[i])
    && forall i :: |packet| <= i < |frame| ==> frame[i] == 0
  }

  lemma FrameOnWire(packet: seq<Byte>)
    ensures OnWire(Frame(packet), packet)
  {
  }

  class Transmitter {
    const txBuf: array<seq<Byte>>
    var curTx: Ulong
    var dirtyTx: Ulong
    var stopped: bool
    var stats: Stats
    /** The frames handed to the chip and not yet reclaimed, oldest first. */
    ghost var pending: seq<seq<Byte>>
    ghost var queued: nat
    ghost var abandoned: nat

    ghost predicate Valid()
      reads this, txBuf
    {
      && Ring(txBuf[..], curTx, dirtyTx, stopped, pending)
      && FlagOk(stats.txFlag)
      && queued == stats.packets + stats.errors + abandoned + |pending|
    }

    /** Every pending frame is in its buffer, counted from `dirty_tx` around the ring of four. */
    lemma PendingInBuffers(i: nat)
      requires Valid() && i < |pending|
      ensures txBuf.Length == 4 && pending[i] <= txBuf[(dirtyTx + i) % 4] && curTx == Add(dirtyTx, |pending|)
    {
      HeldAt(txBuf[..], dirtyTx, pending, i);
    }

    /** Every frame ever queued is a packet, an error, abandoned or still pending. */
    lemma AllAccountedFor()
      requires Valid()
      ensures queued == stats.packets + stats.errors + abandoned + |pending| && |pending| <= 4
    {
    }

    /** `rtl8139_init_ring` and `netif_start_queue`. */
    constructor ()
      ensures Valid() && curTx == dirtyTx == 0 && pending == [] && !stopped && queued == abandoned == 0
      ensures stats == Stats(0, 0, 0, 0, 0, 0, 0, 0, 0x8_0000)
      ensures txBuf.Length == 4 && forall i :: 0 <= i < 4 ==> |txBuf[i]| == 1536
    {
      txBuf := new seq<Byte>[NUM_TX_DESC](_ => Zeros(TX_BUF_SIZE));
      curTx, dirtyTx, stopped := 0, 0, false;
      stats := Stats(0, 0, 0, 0, 0, 0, 0, 0, TX_FIFO_THRESH * 2048);
      pending, queued, abandoned := [], 0, 0;
      new;
    }

    /** `rtl8139_start_xmit`: the frame goes into the slot of `cur_tx`, which no pending frame uses. */
    method StartXmit(packet: seq<Byte>) returns (entry: nat, command: nat)
      requires Valid() && !stopped && |packet| < TX_BUF_SIZE
      modifies txBuf, `curTx, `stopped, `pending, `queued
      ensures Valid() && |pending| == |old(pending)| + 1 && queued == old(queued) + 1
      ensures pending[..|old(pending)|] == old(pending) && OnWire(pending[|old(pending)|], packet)
      ensures dirtyTx == old(dirtyTx) && stopped == (|pending| == 4)
      ensures entry == old(curTx) % 4 == Slot(dirtyTx, |old(pending)|) && pending[|old(pending)|] <= txBuf[entry]
      ensures forall i: nat :: i < |old(pending)| ==> Slot(dirtyTx, i) != entry
      ensures command % 0x2000 == |pending[|old(pending)|]| && command - command % 0x2000 == stats.txFlag
    {
      FrameOnWire(packet);
      entry := Slot(curTx, 0);
      var buf := Overwrite(txBuf[entry], Frame(packet));
      RingPush(txBuf[..], curTx, dirtyTx, pending, Frame(packet), buf);
      txBuf[entry] := buf;
      assert txBuf[..] == old(txBuf[..])[entry := buf];
      LengthInCommand(stats.txFlag, |Frame(packet)|);
      command := Or(stats.txFlag, if |packet| < ETH_ZLEN then ETH_ZLEN else |packet|);
      curTx := Add(curTx, 1);
      pending := pending + [Frame(packet)];
      queued := queued + 1;
      if Minus(curTx, NUM_TX_DESC) == dirtyTx {
        stopped := true;
      }
    }

    /** The loop of `rtl8139_tx_interrupt` over the pending frames, up to the first unfinished one. */
    method Collect(regs: seq<TxStatus>) returns (dirty: Ulong, ghost k: nat)
      requires |regs| == NUM_TX_DESC && |pending| <= NUM_TX_DESC && curTx == Add(dirtyTx, |pending|)
      modifies `stats
      ensures FirstFinished(RingOrder(regs, dirtyTx), |pending|, k) && dirty == Add(dirtyTx, k)
      ensures Counted(old(stats), stats, RingOrder(regs, dirtyTx)[..k])
      ensures stats.packets + stats.errors == old(stats.packets + stats.errors) + k
      ensures FlagOk(old(stats.txFlag)) ==> FlagOk(stats.txFlag)
    {
      hide Account, AccountAll, Counted, Through, Done, RingOrder, FlagOk;
      ghost var d, n, turn := dirtyTx, |pending|, RingOrder(regs, dirtyTx);
      dirty := dirtyTx;
      var txLeft := Minus(curTx, dirtyTx);
      k := 0;
      Distances(d, 0, n);
      NoneCounted(stats, turn);
      while txLeft > 0
        invariant k <= n && txLeft == n - k && dirty == Add(d, k)
        invariant forall i :: 0 <= i < k ==> Through(turn[i])
        invariant stats == AccountAll(old(stats), turn[..k])
      {
        CollectStep(regs, d, k, n, old(stats));
        var entry := Slot(dirty, 0);
        var txStatus := regs[entry];
        if !Done(txStatus) {
          break;
        }
        stats := Account(stats, txStatus);
        dirty := Add(dirty, 1);
        txLeft := txLeft - 1;
        k := k + 1;
      }
      AllCounted(old(stats), turn[..k]);
      SumsOf(old(stats), stats, turn[..k]);
    }

    /**
      `rtl8139_tx_interrupt`: reclaims the finished frames from the oldest on, counts what each of
      their registers says, and wakes the queue if there were any. The counters never get out of step.
     */
    method TxInterrupt(regs: seq<TxStatus>) returns (ghost k: nat)
      requires Valid() && |regs| == NUM_TX_DESC
      modifies `dirtyTx, `stopped, `stats, `pending
      ensures Valid()
      ensures FirstFinished(RingOrder(regs, old(dirtyTx)), |old(pending)|, k)
      ensures pending == old(pending)[k..] && stopped == (old(stopped) && k == 0)
      ensures Counted(old(stats), stats, RingOrder(regs, old(dirtyTx))[..k])
    {
      hide Held, Counted, Through, RingOrder, FlagOk;
      var dirty;
      dirty, k := Collect(regs);
      RingPop(txBuf[..], curTx, dirtyTx, stopped, pending, k);
      if Minus(curTx, dirty) > NUM_TX_DESC {
        // the "Out-of-sync dirty pointer" branch
        assert false;
      }
      pending := pending[k..];
      if dirtyTx != dirty {
        dirtyTx := dirty;
        stopped := false;
      }
      assert txBuf[..] == old(txBuf[..]);
    }

    /** `rtl8139_tx_timeout_task`: everything pending is given up; nobody accounts for it. */
    method TxTimeout(running: bool)
      requires Valid()
      modifies `curTx, `dirtyTx, `stopped, `pending, `abandoned
      ensures Valid() && curTx == dirtyTx == 0 && pending == [] && abandoned == old(abandoned) + |old(pending)|
      ensures stopped == (old(stopped) && !running)
    {
      abandoned := abandoned + |pending|;
      curTx, dirtyTx, pending := 0, 0, [];
      if running {
        stopped := false;
      }
    }
  }
}
