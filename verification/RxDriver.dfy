/**
  `rtl8139_rx` (mem_overflow/test/8139too.c) on the ring in memory. Nothing is assumed about what the
  chip writes, nor about when it writes it.
 */
module RxDriver {
  import opened Words
  import opened RxRing
  import RxRuns

  class Receiver {
    const ring: array<Byte>
    var curRx: Aligned
    var fifoCopyTimeout: nat
    var stats: RxStats

    predicate Sound() {
      ring.Length == RX_BUF_TOT_LEN
    }

    function State(): Soft
      reads this
    {
      Soft(curRx, fifoCopyTimeout, stats)
    }

    /** `rtl8139_init_ring` and the start of the receiver. */
    constructor ()
      ensures Sound() && State() == Soft(0, 0, NO_STATS) && fresh(ring) && ring.Length == 32768 + 16 + 2048
      ensures stats == RxStats(0, 0, 0, 0, 0, 0, 0, 0, 0)
      ensures RxRuns.Init(RxRuns.State(ring[..], State(), 0, [], [], [], []))
    {
      ring := new Byte[RX_BUF_TOT_LEN](_ => 0);
      curRx, fifoCopyTimeout, stats := 0, 0, NO_STATS;
    }

    /** The chip writes to the ring. */
    method Dma(bytes: Ring)
      requires Sound()
      modifies ring
      ensures ring[..] == bytes
    {
      forall i | 0 <= i < ring.Length {
        ring[i] := bytes[i];
      }
    }

    /** `rtl8139_rx_err`: the statistics tell what the status word says, and the receiver starts over. */
    method RxErr(rxStatus: nat)
      modifies `curRx, `stats
      ensures curRx == 0 && stats == CountError(old(stats), rxStatus) && Told(old(stats), stats, rxStatus)
    {
      ErrorsTold(stats, rxStatus);
      stats := CountError(stats, rxStatus);
      curRx := 0;
    }

    /** Reads a header; a frame still being copied makes the call stop, unless it takes too long. */
    method ReadHeader(offset: nat, now: nat) returns (rxStatus: nat, rxSize: nat, early: bool)
      requires offset + 4 <= ring.Length
      modifies `fifoCopyTimeout, `stats
      ensures rxStatus == Le32(ring[..], offset)
      ensures var copying := rxStatus / 0x1_0000 == COPYING;
        && early == (copying && (old(fifoCopyTimeout) == 0 || now <= old(fifoCopyTimeout)))
        && rxSize == (if copying && !early then 0 else rxStatus / 0x1_0000)
        && fifoCopyTimeout
             == (if !early then 0 else if old(fifoCopyTimeout) == 0 then now + 2 else old(fifoCopyTimeout))
        && stats == if early then old(stats).(earlyRx := old(stats.earlyRx) + 1) else old(stats)
    {
      rxStatus := Le32(ring[..], offset);
      rxSize, early := rxStatus / 0x1_0000, false;
      if rxSize == COPYING {
        if fifoCopyTimeout == 0 {
          fifoCopyTimeout, early := now + 2, true;
        } else if now > fifoCopyTimeout {
          rxSize := 0;
        } else {
          early := true;
        }
      }
      if early {
        stats := stats.(earlyRx := stats.earlyRx + 1);
      } else {
        fifoCopyTimeout := 0;
      }
    }

    /** One good frame: copied out of the ring into a new buffer if there is one. */
    method TakeFrame(offset: nat, size: nat, ok: bool) returns (skb: seq<seq<Byte>>)
      requires offset + size <= ring.Length
      modifies `stats
      ensures skb == if ok then [ring[offset..offset + size]] else []
      ensures stats == if ok then old(stats).(packets := old(stats.packets) + 1, bytes := old(stats.bytes) + size)
                       else old(stats).(dropped := old(stats.dropped) + 1)
    {
      if ok {
        skb := [ring[offset..offset + size]];
        stats := stats.(packets := stats.packets + 1, bytes := stats.bytes + size);
      } else {
        skb := [];
        stats := stats.(dropped := stats.dropped + 1);
      }
    }

    /** One round of the loop; the counter is a local variable of the caller. */
    method RunRound(cur: Aligned, ok: bool, now: nat) returns (verdict: Verdict, next: Aligned, skb: seq<seq<Byte>>)
      requires Sound()
      modifies `curRx, `fifoCopyTimeout, `stats
      ensures (verdict, Soft(next, fifoCopyTimeout, stats), skb)
           == Round(ring[..], Soft(cur, old(fifoCopyTimeout), old(stats)), ok, now)
      ensures if verdict == Ends(Bad) then curRx == next == 0 else curRx == old(curRx)
      ensures RoundSays(ring[..], Soft(cur, old(fifoCopyTimeout), old(stats)), ok, now,
                        verdict, Soft(next, fifoCopyTimeout, stats), skb)
    {
      hide RoundSays;
      RoundMeans(ring[..], Soft(cur, fifoCopyTimeout, stats), ok, now);
      AcceptedSizeInBounds(cur, 0);
      var ringOffset := cur % RX_BUF_LEN;
      var rxStatus, rxSize, early := ReadHeader(ringOffset, now);
      if early {
        return Ends(Early), cur, [];
      }
      if rxSize > MAX_ETH_FRAME_SIZE + 4 || rxSize < 8 || rxStatus % 2 == 0 {
        RxErr(rxStatus);
        return Ends(Bad), 0, [];
      }
      AcceptedSizeInBounds(cur, rxSize);
      skb := TakeFrame(ringOffset + 4, rxSize - 4, ok);
      verdict, next := Took, NextCur(cur, rxSize);
    }

    /**
      `rtl8139_rx`. `views` says what its tests of the empty bit see: the bit, and the ring as the chip
      has left it by then. Whatever that is, all reads and copies stay inside the ring and the counter
      stays a multiple of four.
     */
    method Rx(running: bool, budget: nat, alloc: seq<bool>, now: nat, views: seq<View>)
      returns (result: int, delivered: seq<seq<Byte>>)
      requires Sound()
      modifies ring, `curRx, `fifoCopyTimeout, `stats
      ensures Sound()
      ensures var out := Loop(old(ring[..]), views, 0, old(State()), if running then budget else 0, alloc, now);
        && result == Received(out, budget) && delivered == out.delivered
        && State() == out.soft && ring[..] == out.ring
    {
      hide Round, Loop, After;
      ghost var limit := if running then budget else 0;
      ghost var whole := Loop(ring[..], views, 0, State(), limit, alloc, now);
      var received, cur, stop := 0, curRx, Through;
      delivered := [];
      LoopStart(ring[..], views, State(), limit, alloc, now);
      while running && received < budget
        invariant received <= |views| && received <= limit && curRx == old(curRx) && stop == Through
        invariant whole == After(delivered, Loop(ring[..], views[received..], received,
                                                 Soft(cur, fifoCopyTimeout, stats), limit, alloc, now))
        decreases |views| - received
      {
        LoopStep(ring[..], views, received, Soft(cur, fifoCopyTimeout, stats), delivered, limit, alloc, now);
        if received == |views| {
          break;
        }
        Dma(views[received].ring);
        if !views[received].more {
          break;
        }
        var verdict, next, skb := RunRound(cur, Succeeds(alloc, received), now);
        cur := next;
        if verdict != Took {
          stop := verdict.stop;
          break;
        }
        delivered := delivered + skb;
        received := received + 1;
      }
      if received >= limit {
        ghost var soft := Soft(cur, fifoCopyTimeout, stats);
        LoopOver(ring[..], views[received..], received, soft, delivered, limit, alloc, now);
      }
      if stop == Bad {
        return -1, delivered;
      }
      curRx := cur;
      result := if fifoCopyTimeout != 0 then budget else received;
    }
  }

  function After(delivered: seq<seq<Byte>>, out: LoopOut): LoopOut {
    out.(delivered := delivered + out.delivered)
  }

  lemma LoopStep(ring: Ring, views: seq<View>, i: nat, s: Soft, delivered: seq<seq<Byte>>,
                 budget: nat, alloc: seq<bool>, now: nat)
    requires i <= |views| && i < budget
    ensures var out := After(delivered, Loop(ring, views[i..], i, s, budget, alloc, now));
      if i == |views| then out == LoopOut(i, delivered, s, Through, ring)
      else if !views[i].more then out == LoopOut(i, delivered, s, Through, views[i].ring)
      else
        var (verdict, next, skb) := Round(views[i].ring, s, Succeeds(alloc, i), now);
        match verdict
        case Took =>
          out == After(delivered + skb, Loop(views[i].ring, views[i + 1..], i + 1, next, budget, alloc, now))
        case Ends(stop) => out == LoopOut(i, delivered, next, stop, views[i].ring)
  {
    hide Round;
    if i < |views| {
      var rest := views[i..];
      assert rest[0] == views[i] && rest[1..] == views[i + 1..];
      var (verdict, next, skb) := Round(views[i].ring, s, Succeeds(alloc, i), now);
      var more := Loop(views[i].ring, views[i + 1..], i + 1, next, budget, alloc, now).delivered;
      assert delivered + (skb + more) == (delivered + skb) + more;
    }
  }

  lemma LoopStart(ring: Ring, views: seq<View>, s: Soft, budget: nat, alloc: seq<bool>, now: nat)
    ensures Loop(ring, views, 0, s, budget, alloc, now) == After([], Loop(ring, views[0..], 0, s, budget, alloc, now))
  {
    assert views[0..] == views;
  }

  lemma LoopOver(ring: Ring, views: seq<View>, i: nat, s: Soft, delivered: seq<seq<Byte>>,
                 budget: nat, alloc: seq<bool>, now: nat)
    requires i >= budget
    ensures After(delivered, Loop(ring, views, i, s, budget, alloc, now)) == LoopOut(i, delivered, s, Through, ring)
  {
  }

  /**
    A call on a ring that the chip lays out, with whatever it writes meanwhile, is the call of the
    run: same result, same frames handed on, same state of driver and ring.
   */
  method RxInRun(receiver: Receiver, ghost s: RxRuns.State, ghost turns: seq<seq<Entry>>,
                 running: bool, budget: nat, alloc: seq<bool>, now: nat, views: seq<View>)
    returns (result: int, delivered: seq<seq<Byte>>)
    requires receiver.Sound() && RxRuns.Inv(s) && s.ring == receiver.ring[..] && s.soft == receiver.State()
    requires views == RxRuns.Call(s, turns, 0, if running then budget else 0, alloc, now).views
    modifies receiver.ring, receiver`curRx, receiver`fifoCopyTimeout, receiver`stats
    ensures receiver.Sound()
    ensures var call := RxRuns.Call(s, turns, 0, if running then budget else 0, alloc, now);
      && RxRuns.After(s, RxRuns.DoCall(running, budget, alloc, now, turns)) == call.state && RxRuns.Inv(call.state)
      && receiver.ring[..] == call.state.ring && receiver.State() == call.state.soft && delivered == call.delivered
      && result == if call.stop == Bad then -1 else if call.state.soft.timeout != 0 then budget else call.received
  {
    hide Loop, RxRuns.Call, RxRuns.Inv;
    RxRuns.CallIsLoop(s, turns, 0, if running then budget else 0, alloc, now);
    RxRuns.CallKeeps(s, turns, 0, if running then budget else 0, alloc, now);
    result, delivered := receiver.Rx(running, budget, alloc, now, views);
  }
}
