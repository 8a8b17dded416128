/**
  Whole runs of the receive ring of mem_overflow/test/8139too.c: a chip that lays frames out as the
  driver expects them, at any time, also while a call of the driver runs, and the driver's rounds.
 */
module RxRuns {
  import opened Words
  import opened RxRing

  /**
    Memory and driver; the chip's view of the ring; and, since the receiver last started over, what
    the chip has written, what the driver has taken, and what it has handed to the network stack.
   */
  datatype State = State(ring: Ring, soft: Soft, rd: nat, unread: seq<Entry>,
                         written: seq<Entry>, taken: seq<Entry>, handed: seq<seq<Byte>>)

  ghost predicate Inv(s: State) {
    && Walk(s.ring, s.soft.cur, s.rd, s.unread)
    && s.written == s.taken + s.unread
    && AllGood(s.taken)
    && |s.handed| <= |s.taken| && (|s.handed| == |s.taken| ==> s.handed == Payloads(s.taken))
  }

  ghost predicate Init(s: State) {
    s.soft == Soft(0, 0, NO_STATS) && s.rd == 0 && s.unread == s.written == s.taken == [] && s.handed == []
  }

  // The chip

  /**
    The chip writes an entry behind the unread ones, or in place of the one it is still copying, if
    there is room; otherwise it drops it.
   */
  ghost function Chip(s: State, e: Entry): State {
    var wr := End(s.rd, Kept(s.unread));
    if !Fits(s.rd, wr, e) then s else
      s.(ring := Write(s.ring, wr % RX_BUF_LEN, Image(e)),
         unread := Kept(s.unread) + [e], written := Kept(s.written) + [e])
  }

  ghost function ChipAll(s: State, es: seq<Entry>): State
    decreases es
  {
    if es == [] then s else ChipAll(Chip(s, es[0]), es[1..])
  }

  lemma KeptOfConcat(taken: seq<Entry>, unread: seq<Entry>)
    requires AllGood(taken)
    ensures Kept(taken + unread) == taken + Kept(unread)
  {
    if unread == [] {
      assert taken + unread == taken;
    } else {
      assert (taken + unread)[|taken + unread| - 1] == unread[|unread| - 1];
    }
  }

  lemma ChipKeeps(s: State, e: Entry)
    requires Inv(s)
    ensures Inv(Chip(s, e)) && Chip(s, e).soft == s.soft
    ensures Chip(s, e).taken == s.taken && Chip(s, e).handed == s.handed
  {
    hide Walk, Payloads, Image, Kept, Fits;
    var wr := End(s.rd, Kept(s.unread));
    if Fits(s.rd, wr, e) {
      WalkWrite(s.ring, s.soft.cur, s.rd, s.unread, wr, e);
      KeptOfConcat(s.taken, s.unread);
      assert s.taken + Kept(s.unread) + [e] == s.taken + (Kept(s.unread) + [e]);
    }
  }

  /** A good frame is written whenever 1544 bytes are left behind the unread entries. */
  lemma ChipWrites(s: State, e: Entry)
    requires Inv(s) && Good(e) && End(s.rd, Kept(s.unread)) + 1544 <= s.rd + 32768
    ensures Chip(s, e).unread == Kept(s.unread) + [e] && Chip(s, e).written == Kept(s.written) + [e]
  {
    hide Laid, Kept, Fits, Image, Good;
    EndAligned(s.rd, Kept(s.unread));
    GoodFits(s.rd, End(s.rd, Kept(s.unread)), e);
  }

  lemma {:induction false} EndAligned(at: nat, es: seq<Entry>)
    requires at % 4 == 0
    ensures End(at, es) % 4 == 0
    decreases es
  {
    if es == [] {
    } else {
      EndAligned(at + Stride(es[0]), es[1..]);
    }
  }

  lemma {:induction false} ChipAllKeeps(s: State, es: seq<Entry>)
    requires Inv(s)
    ensures Inv(ChipAll(s, es)) && ChipAll(s, es).soft == s.soft
    ensures ChipAll(s, es).taken == s.taken && ChipAll(s, es).handed == s.handed
    decreases es
  {
    hide Inv, Chip;
    if es == [] {
    } else {
      ChipKeeps(s, es[0]);
      ChipAllKeeps(Chip(s, es[0]), es[1..]);
    }
  }

  // A round of the driver

  /** What a round does to memory and driver is `Round`; the oldest unread entry is the one it deals with. */
  ghost function Step(s: State, ok: bool, now: nat): (Verdict, State) {
    var (verdict, soft, skb) := Round(s.ring, s.soft, ok, now);
    match verdict
    case Took =>
      (verdict, if s.unread == [] then s.(soft := soft)
                else s.(soft := soft, rd := s.rd + Stride(s.unread[0]), unread := s.unread[1..],
                        taken := s.taken + [s.unread[0]], handed := s.handed + skb))
    case Ends(Bad) => (verdict, State(s.ring, soft, 0, [], [], [], []))
    case Ends(_) => (verdict, s.(soft := soft))
  }

  /** What a round must do to the oldest unread entry, whatever its place in the ring. */
  ghost function Due(e: Entry, timeout: nat, now: nat): Verdict {
    if Good(e) then Took
    else if e.Copying? && (timeout == 0 || now <= timeout) then Ends(Early)
    else Ends(Bad)
  }

  /** How taking one entry counts. */
  function TallyOne(st: RxStats, e: Entry, ok: bool): RxStats {
    if ok then st.(packets := st.packets + 1, bytes := st.bytes + |Payload(e)|) else st.(dropped := st.dropped + 1)
  }

  /** On a ring the chip has laid out, the round finds the oldest unread entry and copies its payload. */
  lemma RoundReads(s: State, ok: bool, now: nat)
    requires Inv(s) && s.unread != []
    ensures var (verdict, soft, skb) := Round(s.ring, s.soft, ok, now);
      && verdict == Due(s.unread[0], s.soft.timeout, now)
      && (verdict == Took ==> soft.cur == NextCur(s.soft.cur, SizeField(s.unread[0]))
                              && skb == if ok then [Payload(s.unread[0])] else [])
      && (verdict == Took ==> soft.timeout == 0 && soft.stats == TallyOne(s.soft.stats, s.unread[0], ok))
      && (verdict == Ends(Early) ==>
            soft == s.soft.(timeout := if s.soft.timeout == 0 then now + 2 else s.soft.timeout,
                            stats := s.soft.stats.(earlyRx := s.soft.stats.earlyRx + 1)))
      && (verdict == Ends(Bad) ==> soft == Soft(0, 0, CountError(s.soft.stats, StatusWord(s.unread[0]))))
  {
    hide Walk, Le32, Payloads, Image, Payload, CountError, NextCur, Good;
    ReadsOldest(s.ring, s.soft.cur, s.rd, s.unread);
  }

  lemma TakenOne(handed: seq<seq<Byte>>, taken: seq<Entry>, e: Entry, ok: bool)
    requires |handed| <= |taken| && (|handed| == |taken| ==> handed == Payloads(taken)) && AllGood(taken) && Good(e)
    ensures var all, now := handed + (if ok then [Payload(e)] else []), taken + [e];
      && |all| <= |now| && (|all| == |now| ==> all == Payloads(now)) && AllGood(now)
  {
    assert Payloads(taken + [e]) == Payloads(taken) + [Payload(e)];
  }

  lemma RoundKeeps(s: State, ok: bool, now: nat)
    requires Inv(s) && s.unread != []
    ensures var (verdict, next) := Step(s, ok, now);
      && Inv(next) && verdict == Due(s.unread[0], s.soft.timeout, now)
      && (verdict != Ends(Bad) ==> next.written == s.written)
      && (verdict == Took ==> next.unread == s.unread[1..] && next.taken == s.taken + [s.unread[0]]
                              && next.handed == s.handed + if ok then [Payload(s.unread[0])] else [])
      && (verdict == Ends(Early) ==> next == s.(soft := next.soft))
      && (verdict == Ends(Bad) ==> next.unread == next.written == [])
      && next.soft == Round(s.ring, s.soft, ok, now).1
  {
    hide Round, Walk, Payloads, Payload, Good, Laid, AllGood;
    RoundReads(s, ok, now);
    var e := s.unread[0];
    match Due(e, s.soft.timeout, now)
    case Took =>
      WalkOn(s.ring, s.soft.cur, s.rd, s.unread);
      TakenOne(s.handed, s.taken, e, ok);
      assert s.taken + [e] + s.unread[1..] == s.taken + s.unread;
    case Ends(Bad) => StartsOver(s.ring);
    case _ =>
  }

  lemma StartsOver(ring: Ring)
    ensures Walk(ring, 0, 0, []) && AllGood([]) && Payloads([]) == []
  {
  }

  // A call of the driver, with the chip at work meanwhile

  function Turn(turns: seq<seq<Entry>>, i: nat): seq<Entry> {
    if i < |turns| then turns[i] else []
  }

  datatype CallOut = CallOut(received: nat, delivered: seq<seq<Byte>>, stop: Stop, views: seq<View>, state: State)

  /**
    The call from its `i`-th round on. The chip writes `turns[i]` before the driver tests the empty
    bit for the `i`-th time; the bit says whether anything is unread.
   */
  ghost function Call(s: State, turns: seq<seq<Entry>>, i: nat, budget: nat, alloc: seq<bool>, now: nat): CallOut
    decreases budget - i
  {
    if i >= budget then CallOut(i, [], Through, [], s) else
    var seen := ChipAll(s, Turn(turns, i));
    var views := [View(seen.ring, seen.unread != [])];
    if seen.unread == [] then CallOut(i, [], Through, views, seen) else
    var (verdict, next) := Step(seen, Succeeds(alloc, i), now);
    match verdict
    case Took =>
      var rest := Call(next, turns, i + 1, budget, alloc, now);
      rest.(delivered := (if Succeeds(alloc, i) then [Payload(seen.unread[0])] else []) + rest.delivered,
            views := views + rest.views)
    case Ends(stop) => CallOut(i, [], stop, views, next)
  }

  /** What the call does is what the driver's loop does on what it sees. */
  lemma {:induction false} CallIsLoop(s: State, turns: seq<seq<Entry>>, i: nat, budget: nat, alloc: seq<bool>, now: nat)
    requires Inv(s)
    ensures var call := Call(s, turns, i, budget, alloc, now);
      Loop(s.ring, call.views, i, s.soft, budget, alloc, now)
        == LoopOut(call.received, call.delivered, call.state.soft, call.stop, call.state.ring)
    decreases budget - i
  {
    hide Inv, Round, Payload, ChipAll;
    if i < budget {
      var seen := ChipAll(s, Turn(turns, i));
      ChipAllKeeps(s, Turn(turns, i));
      if seen.unread != [] {
        var ok := Succeeds(alloc, i);
        RoundReads(seen, ok, now);
        RoundKeeps(seen, ok, now);
        var (verdict, next) := Step(seen, ok, now);
        if verdict == Took {
          CallIsLoop(next, turns, i + 1, budget, alloc, now);
          var rest := Call(next, turns, i + 1, budget, alloc, now);
          assert ([View(seen.ring, true)] + rest.views)[1..] == rest.views;
        }
      }
    }
  }

  /**
    Whatever the chip writes meanwhile, a call takes good entries only, in order, and hands on the
    payloads of those it finds a buffer for. It ends because the budget is used up or nothing is
    unread, at an entry in copy, or by starting over.
   */
  lemma {:induction false} CallKeeps(s: State, turns: seq<seq<Entry>>, i: nat, budget: nat, alloc: seq<bool>, now: nat)
    requires Inv(s)
    ensures var call := Call(s, turns, i, budget, alloc, now);
      && Inv(call.state) && call.received >= i && |call.delivered| <= call.received - i
      && (call.stop == Through ==> call.received >= budget || call.state.unread == [])
      && (call.stop == Early ==> call.state.unread != [] && call.state.unread[0].Copying?)
      && (call.stop == Bad ==> call.state.unread == call.state.written == [])
      && (call.stop != Bad ==> s.taken <= call.state.taken && |call.state.taken| == |s.taken| + (call.received - i)
                               && call.state.handed == s.handed + call.delivered)
    decreases budget - i
  {
    hide Inv, Step, Payload, ChipAll, Turn, Succeeds, Good;
    if i < budget {
      var seen := ChipAll(s, Turn(turns, i));
      ChipAllKeeps(s, Turn(turns, i));
      if seen.unread != [] {
        var ok := Succeeds(alloc, i);
        RoundKeeps(seen, ok, now);
        var (verdict, next) := Step(seen, ok, now);
        if verdict == Took {
          CallKeeps(next, turns, i + 1, budget, alloc, now);
          var skb := if ok then [Payload(seen.unread[0])] else [];
          Associate(s.handed, skb, Call(next, turns, i + 1, budget, alloc, now).delivered);
        }
      }
    }
  }

  lemma Associate(a: seq<seq<Byte>>, b: seq<seq<Byte>>, c: seq<seq<Byte>>)
    ensures (a + b) + c == a + (b + c)
  {
  }

  /** A call that finds all its buffers drops nothing. */
  lemma {:induction false} CallDelivers(s: State, turns: seq<seq<Entry>>, i: nat, budget: nat,
                                        alloc: seq<bool>, now: nat)
    requires forall k: nat :: k < budget ==> Succeeds(alloc, k)
    ensures var call := Call(s, turns, i, budget, alloc, now);
      call.received >= i && |call.delivered| == call.received - i
    decreases budget - i
  {
    hide Step, Payload, ChipAll, Turn;
    if i < budget {
      var seen := ChipAll(s, Turn(turns, i));
      if seen.unread != [] {
        CallDelivers(Step(seen, Succeeds(alloc, i), now).1, turns, i + 1, budget, alloc, now);
      }
    }
  }

  // Runs

  datatype Event =
    | DoChip(e: Entry)
    | DoCall(running: bool, budget: nat, alloc: seq<bool>, now: nat, turns: seq<seq<Entry>>)

  ghost function After(s: State, event: Event): State {
    match event
    case DoChip(e) => Chip(s, e)
    case DoCall(running, budget, alloc, now, turns) =>
      Call(s, turns, 0, if running then budget else 0, alloc, now).state
  }

  ghost predicate Run(states: seq<State>, events: seq<Event>) {
    && |states| == |events| + 1
    && Init(states[0])
    && forall i :: 0 <= i < |events| ==> states[i + 1] == After(states[i], events[i])
  }

  lemma {:induction false} RunInv(states: seq<State>, events: seq<Event>, i: nat)
    requires Run(states, events) && i < |states|
    ensures Inv(states[i])
  {
    hide Call, Chip, Inv;
    if i == 0 {
      FirstInv(states[0]);
    } else {
      RunInv(states, events, i - 1);
      match events[i - 1]
      case DoChip(e) => ChipKeeps(states[i - 1], e);
      case DoCall(running, budget, alloc, now, turns) =>
        CallKeeps(states[i - 1], turns, 0, if running then budget else 0, alloc, now);
    }
  }

  lemma FirstInv(s: State)
    requires Init(s)
    ensures Inv(s)
  {
    StartsOver(s.ring);
  }

  /** No event so far failed to find a buffer. */
  ghost predicate BuffersFound(events: seq<Event>, i: nat) {
    forall j, k: nat :: 0 <= j < i && j < |events| && events[j].DoCall? && k < events[j].budget ==>
      Succeeds(events[j].alloc, k)
  }

  lemma AllFound(events: seq<Event>, i: nat, j: nat)
    requires BuffersFound(events, i) && j < i && j < |events| && events[j].DoCall?
    ensures forall k: nat :: k < (if events[j].running then events[j].budget else 0) ==> Succeeds(events[j].alloc, k)
  {
  }

  lemma {:induction false} NothingLost(states: seq<State>, events: seq<Event>, i: nat)
    requires Run(states, events) && i < |states| && BuffersFound(events, i)
    ensures |states[i].handed| == |states[i].taken|
  {
    hide Call, Chip, Inv, BuffersFound;
    if i == 0 {
    } else {
      FewerFound(events, i);
      NothingLost(states, events, i - 1);
      RunInv(states, events, i - 1);
      match events[i - 1]
      case DoChip(e) => ChipKeeps(states[i - 1], e);
      case DoCall(running, budget, alloc, now, turns) =>
        AllFound(events, i, i - 1);
        CallDelivers(states[i - 1], turns, 0, if running then budget else 0, alloc, now);
        CallKeeps(states[i - 1], turns, 0, if running then budget else 0, alloc, now);
        NoneTaken(states[i]);
    }
  }

  lemma FewerFound(events: seq<Event>, i: nat)
    requires BuffersFound(events, i) && i > 0
    ensures BuffersFound(events, i - 1)
  {
  }

  lemma NoneTaken(s: State)
    requires Inv(s)
    ensures s.written == [] ==> |s.handed| == |s.taken| == 0
  {
  }

  /**
    Over every run, with the chip writing at any time: since the receiver last started over, the
    entries taken are the first ones written, and all others are still unread; and if a buffer was
    found for each, exactly their payloads have been handed on, in the order of writing.
   */
  lemma DeliveredInOrder(states: seq<State>, events: seq<Event>, i: nat)
    requires Run(states, events) && i < |states|
    ensures var s := states[i];
      && s.written == s.taken + s.unread && AllGood(s.taken)
      && (BuffersFound(events, i) ==> s.handed == Payloads(s.written[..|s.taken|]))
  {
    hide Run, BuffersFound, Payloads, AllGood, Walk;
    RunInv(states, events, i);
    var s := states[i];
    assert s.written[..|s.taken|] == s.taken;
    if BuffersFound(events, i) {
      NothingLost(states, events, i);
    }
  }

  // A call while the chip is quiet, as an operation on the queue of unread entries

  lemma AcceptedAt(es: seq<Entry>, budget: nat, k: nat)
    requires k <= Accepted(es, budget) && k < budget && k < |es|
    ensures k < Accepted(es, budget) <==> Good(es[k])
  {
    AcceptedMeans(es, budget);
  }

  /** The next round of a call, if there is one, while the chip is quiet. */
  lemma QuietStep(s: State, k: nat, budget: nat, alloc: seq<bool>, now: nat)
    requires Inv(s)
    ensures var call := Call(s, [], k, budget, alloc, now);
      if k >= budget || s.unread == [] then
        call.received == k && call.delivered == [] && call.stop == Through && call.state == s
      else
        var e, ok := s.unread[0], Succeeds(alloc, k);
        var (verdict, next) := Step(s, ok, now);
        && verdict == Due(e, s.soft.timeout, now) && Inv(next)
        && (verdict == Took ==>
              var rest := Call(next, [], k + 1, budget, alloc, now);
              && next.unread == s.unread[1..] && next.soft.timeout == 0
              && next.soft.stats == TallyOne(s.soft.stats, e, ok)
              && call.received == rest.received && call.stop == rest.stop && call.state == rest.state
              && call.delivered == (if ok then [Payload(e)] else []) + rest.delivered)
        && (verdict.Ends? ==>
              && call.received == k && call.delivered == [] && Ends(call.stop) == verdict && call.state == next
              && (call.stop == Bad ==>
                    && next.unread == []
                    && next.soft == Soft(0, 0, CountError(s.soft.stats, StatusWord(e))))
              && (call.stop == Early ==>
                    && next.unread == s.unread
                    && next.soft.timeout == (if s.soft.timeout == 0 then now + 2 else s.soft.timeout)
                    && next.soft.stats == s.soft.stats.(earlyRx := s.soft.stats.earlyRx + 1)))
  {
    hide Inv, Step, Round, Payload, Good, Due, CountError, StatusWord, TallyOne;
    assert ChipAll(s, []) == s;
    if k < budget && s.unread != [] {
      RoundReads(s, Succeeds(alloc, k), now);
      RoundKeeps(s, Succeeds(alloc, k), now);
    }
  }

  /** The rounds after the `k`-th of a call that began with `es` unread. */
  lemma {:induction false} QuietFrom(s: State, es: seq<Entry>, st: RxStats, timeout: nat,
                                     k: nat, budget: nat, alloc: seq<bool>, now: nat)
    requires Inv(s) && k <= Accepted(es, budget) && s.unread == es[k..]
    requires s.soft.stats == Tally(st, es[..k], alloc) && s.soft.timeout == if k > 0 then 0 else timeout
    ensures var n, call := Accepted(es, budget), Call(s, [], k, budget, alloc, now);
      var left := if n > 0 then 0 else timeout;
      var stop, t := StopAt(es[n..], true, n, budget, left, now), Tally(st, es[..n], alloc);
      && call.received == n && call.stop == stop
      && Delivered(es[..k], alloc) + call.delivered == Delivered(es[..n], alloc)
      && (stop != Bad ==> call.state.unread == es[n..])
      && (stop == Bad ==> n < |es| && call.state.unread == []
                          && call.state.soft == Soft(0, 0, CountError(t, StatusWord(es[n]))))
      && (stop == Through ==> call.state.soft.timeout == left && call.state.soft.stats == t)
      && (stop == Early ==> call.state.soft.timeout == (if left == 0 then now + 2 else left)
                            && call.state.soft.stats == t.(earlyRx := t.earlyRx + 1))
    decreases budget - k
  {
    hide Inv, Call, Step, Accepted, Delivered, Tally, CountError, StatusWord, Good;
    QuietStep(s, k, budget, alloc, now);
    if k < budget && k < |es| {
      AcceptedAt(es, budget, k);
      if Good(es[k]) {
        OneMore(st, es, k, alloc);
        QuietFrom(Step(s, Succeeds(alloc, k), now).1, es, st, timeout, k + 1, budget, alloc, now);
      }
    }
  }

  /** While the chip is quiet, what a call does to the ring is what `Poll` does to the queue of unread entries. */
  lemma QuietCallIsPoll(s: State, running: bool, budget: nat, alloc: seq<bool>, now: nat)
    requires Inv(s)
    ensures var call := Call(s, [], 0, if running then budget else 0, alloc, now);
      var received := if call.stop == Bad then -1 else if call.state.soft.timeout != 0 then budget else call.received;
      Outcome(received, call.delivered, call.state.soft.timeout, call.state.unread, call.state.soft.stats)
        == Poll(s.unread, s.soft.stats, s.soft.timeout, running, budget, alloc, now)
  {
    hide Inv, Call, Accepted, CountError, StatusWord;
    var es, n := s.unread, Accepted(s.unread, if running then budget else 0);
    TakenNone(s.soft.stats, es, alloc);
    QuietFrom(s, es, s.soft.stats, s.soft.timeout, 0, if running then budget else 0, alloc, now);
    assert Delivered(es[..0], alloc) + Delivered(es[..n], alloc) == Delivered(es[..n], alloc);
  }
}
