/**
  The TxStatus registers of the chip and what the driver makes of them
  (mem_overflow/test/8139too.c).
 */
module TxStats {
  import opened Words

  const TX_UNDERRUN := 0x4000
  const TX_STAT_OK := 0x8000
  const TX_OUT_OF_WINDOW := 0x2000_0000
  const TX_ABORTED := 0x4000_0000
  const TX_CARRIER_LOST := 0x8000_0000

  type TxStatus = x: int | 0 <= x < 0x1_0000_0000

  predicate Has(w: TxStatus, mask: nat) {
    And(w, mask) != 0
  }

  predicate Done(w: TxStatus) {
    Has(w, Or(Or(TX_STAT_OK, TX_UNDERRUN), TX_ABORTED))
  }

  predicate Failed(w: TxStatus) {
    Has(w, Or(TX_OUT_OF_WINDOW, TX_ABORTED))
  }

  datatype Stats = Stats(packets: nat, bytes: nat, collisions: nat, errors: nat,
                         aborted: nat, carrier: nat, window: nat, fifo: nat, txFlag: nat)

  /** How a finished descriptor enters the statistics and the FIFO threshold. */
  function Account(st: Stats, w: TxStatus): Stats {
    if Failed(w) then
      st.(errors := st.errors + 1,
          aborted := st.aborted + if Has(w, TX_ABORTED) then 1 else 0,
          carrier := st.carrier + if Has(w, TX_CARRIER_LOST) then 1 else 0,
          window := st.window + if Has(w, TX_OUT_OF_WINDOW) then 1 else 0)
    else
      st.(packets := st.packets + 1,
          bytes := st.bytes + And(w, 0x7ff),
          collisions := st.collisions + And(w / 0x100_0000, 15),
          fifo := st.fifo + if Has(w, TX_UNDERRUN) then 1 else 0,
          txFlag := st.txFlag + if Has(w, TX_UNDERRUN) && st.txFlag < 0x300000 then 0x20000 else 0)
  }

  function AccountAll(st: Stats, ws: seq<TxStatus>): Stats {
    if ws == [] then st else Account(AccountAll(st, ws[..|ws| - 1]), ws[|ws| - 1])
  }

  // What the bits mean

  /** A mask of one bit, and one of several bits. */
  lemma HasBit(w: TxStatus, j: nat)
    ensures Has(w, Pow2(j)) <==> Bit(w, j)
  {
    hide And, Bit;
    CommonBit(w, Pow2(j));
    if Bit(w, j) {
      PowerBit(j, j);
    }
    if k: nat :| Bit(w, k) && Bit(Pow2(j), k) {
      PowerBit(j, k);
    }
  }

  lemma HasEither(w: TxStatus, a: nat, b: nat)
    ensures Has(w, Or(a, b)) <==> Has(w, a) || Has(w, b)
  {
    hide And, Bit, Or;
    CommonBit(w, Or(a, b));
    CommonBit(w, a);
    CommonBit(w, b);
    if k: nat :| Bit(w, k) && Bit(Or(a, b), k) {
      OrBit(a, b, k);
    }
    if k: nat :| Bit(w, k) && (Bit(a, k) || Bit(b, k)) {
      OrBit(a, b, k);
    }
  }

  lemma Powers()
    ensures Pow2(14) == 0x4000 && Pow2(15) == 0x8000
    ensures Pow2(29) == 0x2000_0000 && Pow2(30) == 0x4000_0000 && Pow2(31) == 0x8000_0000
  {
    Pow2Plus7(0);
    Pow2Plus7(7);
    Pow2Plus7(14);
    Pow2Plus7(21);
  }

  /** The masks of the driver, bit by bit. */
  lemma Bits(w: TxStatus)
    ensures Done(w) <==> Bit(w, 15) || Bit(w, 14) || Bit(w, 30)
    ensures Failed(w) <==> Bit(w, 29) || Bit(w, 30)
    ensures Has(w, TX_UNDERRUN) <==> Bit(w, 14)
    ensures Has(w, TX_ABORTED) <==> Bit(w, 30)
    ensures Has(w, TX_CARRIER_LOST) <==> Bit(w, 31)
    ensures Has(w, TX_OUT_OF_WINDOW) <==> Bit(w, 29)
  {
    hide Has, Bit, Pow2, Or;
    Powers();
    HasBit(w, 14);
    HasBit(w, 15);
    HasBit(w, 29);
    HasBit(w, 30);
    HasBit(w, 31);
    HasEither(w, Or(TX_STAT_OK, TX_UNDERRUN), TX_ABORTED);
    HasEither(w, TX_STAT_OK, TX_UNDERRUN);
    HasEither(w, TX_OUT_OF_WINDOW, TX_ABORTED);
  }

  // What the statistics tell

  function One(b: bool): nat { if b then 1 else 0 }

  function Sum(ws: seq<TxStatus>, f: TxStatus -> nat): nat {
    if ws == [] then 0 else Sum(ws[..|ws| - 1], f) + f(ws[|ws| - 1])
  }

  /** Out of window (29) or aborted (30). */
  predicate Error(w: TxStatus) { Bit(w, 29) || Bit(w, 30) }

  /** An underrun (14) of a frame that went out all the same. */
  predicate Late(w: TxStatus) { Bit(w, 14) && !Error(w) }

  function ErrorIn(w: TxStatus): nat { One(Error(w)) }

  function PacketIn(w: TxStatus): nat { One(!Error(w)) }

  function AbortedIn(w: TxStatus): nat { One(Bit(w, 30)) }

  function WindowIn(w: TxStatus): nat { One(Bit(w, 29)) }

  function CarrierIn(w: TxStatus): nat { One(Bit(w, 31) && Error(w)) }

  function LateIn(w: TxStatus): nat { One(Late(w)) }

  function BytesIn(w: TxStatus): nat { if Error(w) then 0 else w % 0x800 }

  function CollisionsIn(w: TxStatus): nat { if Error(w) then 0 else w / 0x100_0000 % 16 }

  /**
    What the statistics tell about the registers `ws` of the reclaimed frames: each is an error or a
    packet; errors count again under their kinds; bytes and collisions are those of the packets; and
    the threshold rises by 0x20000 for each late packet, up to 0x300000.
   */
  ghost predicate Counted(before: Stats, after: Stats, ws: seq<TxStatus>) {
    && after.errors == before.errors + Sum(ws, ErrorIn)
    && after.packets == before.packets + Sum(ws, PacketIn)
    && after.aborted == before.aborted + Sum(ws, AbortedIn)
    && after.window == before.window + Sum(ws, WindowIn)
    && after.carrier == before.carrier + Sum(ws, CarrierIn)
    && after.fifo == before.fifo + Sum(ws, LateIn)
    && after.bytes == before.bytes + Sum(ws, BytesIn)
    && after.collisions == before.collisions + Sum(ws, CollisionsIn)
    && (FlagOk(before.txFlag) ==> after.txFlag == Risen(before.txFlag, Sum(ws, LateIn)))
  }

  function Risen(txFlag: nat, late: nat): nat {
    if txFlag + 0x2_0000 * late > 0x30_0000 then 0x30_0000 else txFlag + 0x2_0000 * late
  }

  /** The threshold field keeps clear of the length field below it, and of the bits above. */
  predicate FlagOk(txFlag: nat) {
    txFlag % 0x2_0000 == 0 && txFlag <= 0x30_0000
  }

  lemma AccountMeans(st: Stats, w: TxStatus)
    ensures var after := Account(st, w);
      && after.errors == st.errors + ErrorIn(w) && after.packets == st.packets + PacketIn(w)
      && after.aborted == st.aborted + AbortedIn(w) && after.window == st.window + WindowIn(w)
      && after.carrier == st.carrier + CarrierIn(w) && after.fifo == st.fifo + LateIn(w)
      && after.bytes == st.bytes + BytesIn(w) && after.collisions == st.collisions + CollisionsIn(w)
      && after.txFlag == st.txFlag + if Late(w) && st.txFlag < 0x30_0000 then 0x2_0000 else 0
  {
    hide Has, And, Bit, Failed;
    Bits(w);
    assert Pow2(11) == 0x800 && Pow2(4) == 16;
    AndLow(w, 11);
    AndLow(w / 0x100_0000, 4);
  }

  lemma {:induction false} AllCounted(st: Stats, ws: seq<TxStatus>)
    ensures Counted(st, AccountAll(st, ws), ws)
    ensures FlagOk(st.txFlag) ==> FlagOk(AccountAll(st, ws).txFlag)
    ensures Sum(ws, ErrorIn) + Sum(ws, PacketIn) == |ws|
  {
    hide Account, Bit;
    if ws == [] {
    } else {
      var n := |ws| - 1;
      AllCounted(st, ws[..n]);
      AccountMeans(AccountAll(st, ws[..n]), ws[n]);
    }
  }
}
