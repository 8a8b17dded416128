/**
  The iterator of mem_leak/rmap/rmap.c over a radix priority search tree: how a move down or up
  changes `mask`, `value` and `sizeLevel` by bit arithmetic alone.
 */
module PrioIter {
  import opened Words
  import opened PrioTree

  const TOP_BIT: Ulong := 0x8000_0000_0000_0000

  /** The fields the moves compute. */
  datatype Cursor = Cursor(mask: Ulong, value: Ulong, sizeLevel: nat)

  ghost function MaskOf(room: nat): nat {
    if room == 0 then ULONG_MAX
    else if room > BITS_PER_LONG then Pow2(room - BITS_PER_LONG - 1)
    else Pow2(room - 1)
  }

  ghost function SizeLevelOf(room: nat): nat {
    if room > BITS_PER_LONG then 0 else BITS_PER_LONG + 1 - room
  }

  /** What the fields are at the end of a path, whatever moves led there. */
  ghost predicate CursorAt(c: Cursor, indexBits: nat, p: Path) {
    && Depth(p) <= indexBits + BITS_PER_LONG
    && c.mask == MaskOf(RoomAt(indexBits, Depth(p)))
    && c.value == ValueAt(indexBits, p)
    && c.sizeLevel == SizeLevelOf(RoomAt(indexBits, Depth(p)))
  }

  // The field updates of a move down

  function DownMask(mask: Ulong, sizeLevel: nat): Ulong {
    if mask / 2 != 0 then mask / 2 else if sizeLevel != 0 then ULONG_MAX else TOP_BIT
  }

  function DownLevel(mask: Ulong, sizeLevel: nat): nat {
    if sizeLevel != 0 then sizeLevel + 1 else if mask / 2 != 0 then 0 else 1
  }

  function RightValue(c: Cursor): nat {
    if c.sizeLevel != 0 then c.value else Or(c.value, c.mask)
  }

  function Descend(c: Cursor, right: bool): Cursor
    requires right ==> RightValue(c) < WORD
  {
    Cursor(DownMask(c.mask, c.sizeLevel), if right then RightValue(c) else c.value, DownLevel(c.mask, c.sizeLevel))
  }

  // The field updates of a move up

  function UpMask(mask: Ulong, sizeLevel: nat): Ulong {
    if mask == ULONG_MAX || sizeLevel == 1 then 1 else mask * 2 % WORD
  }

  function UpLevel(sizeLevel: nat): nat {
    if sizeLevel != 0 then sizeLevel - 1 else 0
  }

  function UpValue(value: Ulong, mask: Ulong, sizeLevel: nat): nat {
    if sizeLevel == 0 && And(value, mask) != 0 then Xor(value, mask) else value
  }

  function Ascend(c: Cursor): Cursor
    requires UpValue(c.value, UpMask(c.mask, c.sizeLevel), UpLevel(c.sizeLevel)) < WORD
  {
    var mask, sizeLevel := UpMask(c.mask, c.sizeLevel), UpLevel(c.sizeLevel);
    Cursor(mask, UpValue(c.value, mask, sizeLevel), sizeLevel)
  }

  /** Shifting the mask walks through the rooms, in both directions, past both special levels. */
  lemma MaskSteps(room: nat)
    requires 1 <= room <= 2 * BITS_PER_LONG
    ensures MaskOf(room) < WORD && MaskOf(room - 1) < WORD
    ensures DownMask(MaskOf(room), SizeLevelOf(room)) == MaskOf(room - 1)
    ensures DownLevel(MaskOf(room), SizeLevelOf(room)) == SizeLevelOf(room - 1)
    ensures UpMask(MaskOf(room - 1), SizeLevelOf(room - 1)) == MaskOf(room)
    ensures UpLevel(SizeLevelOf(room - 1)) == SizeLevelOf(room)
  {
    hide Pow2;
    Pow2Of63();
    Pow2Step(0);
    if room > BITS_PER_LONG + 1 {
      Pow2Step(room - BITS_PER_LONG - 2);
      Pow2Fits(room - BITS_PER_LONG - 1);
    } else if 1 < room <= BITS_PER_LONG {
      Pow2Step(room - 2);
      Pow2Fits(room - 1);
    }
  }

  /** The bit set by a right move is the one a later move up clears again. */
  lemma ValueSteps(c: Cursor, indexBits: nat, p: Path)
    requires CursorAt(c, indexBits, p) && RoomAt(indexBits, Depth(p)) > 0
    ensures RightValue(c) == ValueAt(indexBits, Step(p, true))
    ensures RightValue(c) < WORD ==> UpValue(RightValue(c), c.mask, c.sizeLevel) == c.value
    ensures UpValue(c.value, c.mask, c.sizeLevel) == c.value
  {
    var room := RoomAt(indexBits, Depth(p));
    if room > BITS_PER_LONG {
      ValueClear(indexBits, p);
      SingleBit(c.value, room - BITS_PER_LONG - 1);
    }
  }

  /** A move down turns the fields of a path into those of the longer path. */
  lemma DescendAt(c: Cursor, indexBits: nat, p: Path, right: bool)
    requires 1 <= indexBits <= BITS_PER_LONG && CursorAt(c, indexBits, p) && RoomAt(indexBits, Depth(p)) > 0
    ensures right ==> RightValue(c) == ValueAt(indexBits, Step(p, true)) < WORD
    ensures CursorAt(Descend(c, right), indexBits, Step(p, right))
  {
    MaskSteps(RoomAt(indexBits, Depth(p)));
    ValueSteps(c, indexBits, p);
    ValueFits(indexBits, Step(p, right));
    Pow2Fits(indexBits - 1);
  }

  /** A path fixes the fields. */
  lemma CursorExists(indexBits: nat, p: Path) returns (c: Cursor)
    requires 1 <= indexBits <= BITS_PER_LONG && Depth(p) <= indexBits + BITS_PER_LONG
    ensures CursorAt(c, indexBits, p)
  {
    var room := RoomAt(indexBits, Depth(p));
    if room > 0 {
      MaskSteps(room);
    }
    ValueFits(indexBits, p);
    Pow2Fits(indexBits - 1);
    c := Cursor(MaskOf(room), ValueAt(indexBits, p), SizeLevelOf(room));
  }

  /** A move up turns the fields of a path into those of the path without its last move. */
  lemma AscendAt(c: Cursor, indexBits: nat, p: Path)
    requires 1 <= indexBits <= BITS_PER_LONG && CursorAt(c, indexBits, p) && p.Step?
    ensures UpValue(c.value, UpMask(c.mask, c.sizeLevel), UpLevel(c.sizeLevel)) < WORD
    ensures CursorAt(Ascend(c), indexBits, p.up)
  {
    var up := CursorExists(indexBits, p.up);
    MaskSteps(RoomAt(indexBits, Depth(p.up)));
    ValueSteps(up, indexBits, p.up);
    DescendAt(up, indexBits, p.up, p.right);
  }

  /** Going up undoes going down, in every state a path can lead to. */
  lemma AscendUndoesDescend(c: Cursor, indexBits: nat, p: Path, right: bool)
    requires 1 <= indexBits <= BITS_PER_LONG && CursorAt(c, indexBits, p) && Depth(p) < indexBits + BITS_PER_LONG
    ensures right ==> RightValue(c) < WORD
    ensures UpValue(Descend(c, right).value, c.mask, c.sizeLevel) < WORD && Ascend(Descend(c, right)) == c
  {
    DescendAt(c, indexBits, p, right);
    MaskSteps(RoomAt(indexBits, Depth(p)));
    ValueSteps(c, indexBits, p);
  }
}
