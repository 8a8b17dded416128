/**
  Reading a record after putting it back (mem_leak/kerspace/huawei_log_page.c, lines 590-591): what
  other handlers can have done to it by then.
 */
module RecordReuse {
  import opened PageLog

  /** What other handlers do meanwhile: one takes a record and writes its pages, or puts a record back. */
  datatype Other = Takes(start: Page, end: Page) | PutsBack(lp: nat)

  /** The record `lp` is handed out again, as far as the free list and the records `mine` of the others tell. */
  predicate HandedOn(chain: seq<nat>, mine: set<nat>, lp: nat, others: seq<Other>)
    decreases others
  {
    others != [] &&
    match others[0]
    case Takes(_, _) =>
      if chain == [] then HandedOn(chain, mine, lp, others[1..])
      else chain[0] == lp || HandedOn(chain[1..], mine + {chain[0]}, lp, others[1..])
    case PutsBack(x) =>
      if x in mine then HandedOn([x] + chain, mine - {x}, lp, others[1..]) else HandedOn(chain, mine, lp, others[1..])
  }

  /** The end page in the record `lp` after all that: the one its last taker has written, if it has one. */
  function EndRead(chain: seq<nat>, mine: set<nat>, lp: nat, others: seq<Other>, end: Page): Page
    decreases others
  {
    if others == [] then end else
    match others[0]
    case Takes(_, e) =>
      if chain == [] then EndRead(chain, mine, lp, others[1..], end)
      else EndRead(chain[1..], mine + {chain[0]}, lp, others[1..], if chain[0] == lp then e else end)
    case PutsBack(x) =>
      if x in mine then EndRead([x] + chain, mine - {x}, lp, others[1..], end)
      else EndRead(chain, mine, lp, others[1..], end)
  }

  lemma {:induction false} NotHandedOn(chain: seq<nat>, mine: set<nat>, lp: nat, others: seq<Other>, end: Page)
    requires !HandedOn(chain, mine, lp, others)
    ensures EndRead(chain, mine, lp, others, end) == end
    decreases others
  {
    if others == [] {
    } else {
      var rest := others[1..];
      match others[0]
      case Takes(_, _) =>
        if chain == [] {
          NotHandedOn(chain, mine, lp, rest, end);
        } else {
          NotHandedOn(chain[1..], mine + {chain[0]}, lp, rest, end);
        }
      case PutsBack(x) =>
        if x in mine {
          NotHandedOn([x] + chain, mine - {x}, lp, rest, end);
        } else {
          NotHandedOn(chain, mine, lp, rest, end);
        }
    }
  }

  /** The same moves, in which every taker writes the end page `e`. */
  function Writing(others: seq<Other>, e: Page): (r: seq<Other>)
    ensures |r| == |others|
  {
    if others == [] then []
    else [if others[0].Takes? then others[0].(end := e) else others[0]] + Writing(others[1..], e)
  }

  /** The moves are the same; only what the takers write may differ. */
  ghost predicate SameMoves(a: seq<Other>, b: seq<Other>) {
    |a| == |b| && forall i :: 0 <= i < |a| ==> a[i] == b[i] || (a[i].Takes? && b[i].Takes?)
  }

  lemma {:induction false} WritingMoves(others: seq<Other>, e: Page)
    ensures SameMoves(others, Writing(others, e))
  {
    if others == [] {
    } else {
      WritingMoves(others[1..], e);
    }
  }

  lemma {:induction false} WrittenIsRead(chain: seq<nat>, mine: set<nat>, lp: nat, others: seq<Other>,
                                         end: Page, e: Page)
    requires HandedOn(chain, mine, lp, others) || end == e
    ensures EndRead(chain, mine, lp, Writing(others, e), end) == e
    decreases others
  {
    if others == [] {
    } else {
      var rest := others[1..];
      assert Writing(others, e)[1..] == Writing(rest, e);
      match others[0]
      case Takes(_, _) =>
        if chain == [] {
          WrittenIsRead(chain, mine, lp, rest, end, e);
        } else {
          WrittenIsRead(chain[1..], mine + {chain[0]}, lp, rest, if chain[0] == lp then e else end, e);
        }
      case PutsBack(x) =>
        if x in mine {
          WrittenIsRead([x] + chain, mine - {x}, lp, rest, end, e);
        } else {
          WrittenIsRead(chain, mine, lp, rest, end, e);
        }
    }
  }

  lemma {:induction false} SameHandedOn(chain: seq<nat>, mine: set<nat>, lp: nat, a: seq<Other>, b: seq<Other>)
    requires SameMoves(a, b)
    ensures HandedOn(chain, mine, lp, a) == HandedOn(chain, mine, lp, b)
    decreases a
  {
    if a == [] {
    } else {
      match a[0]
      case Takes(_, _) =>
        if chain == [] {
          SameHandedOn(chain, mine, lp, a[1..], b[1..]);
        } else {
          SameHandedOn(chain[1..], mine + {chain[0]}, lp, a[1..], b[1..]);
        }
      case PutsBack(x) =>
        if x in mine {
          SameHandedOn([x] + chain, mine - {x}, lp, a[1..], b[1..]);
        } else {
          SameHandedOn(chain, mine, lp, a[1..], b[1..]);
        }
    }
  }

  /** The read gives the old end page, whatever the takers write, exactly if the record is not handed on. */
  lemma ReadRightExactly(chain: seq<nat>, mine: set<nat>, lp: nat, others: seq<Other>, end: Page)
    ensures (forall written :: SameMoves(others, written) ==> EndRead(chain, mine, lp, written, end) == end)
       <==> !HandedOn(chain, mine, lp, others)
  {
    if HandedOn(chain, mine, lp, others) {
      WritingMoves(others, end + 1);
      WrittenIsRead(chain, mine, lp, others, end, end + 1);
    } else {
      forall written | SameMoves(others, written)
        ensures EndRead(chain, mine, lp, written, end) == end
      {
        SameHandedOn(chain, mine, lp, others, written);
        NotHandedOn(chain, mine, lp, written, end);
      }
    }
  }

  /** One handler that takes a record and writes its pages is enough to make the read wrong. */
  lemma WrongRead(chain: seq<nat>, mine: set<nat>, lp: nat, start: Page, end: Page, e: Page)
    requires e != end
    ensures EndRead([lp] + chain, mine, lp, [Takes(start, e)], end) == e != end
  {
    var others := [Takes(start, e)];
    assert others[1..] == [];
  }

  /** What `EndRead` says of the next move. */
  lemma EndStep(chain: seq<nat>, mine: set<nat>, lp: nat, others: seq<Other>, end: Page)
    ensures others == [] ==> EndRead(chain, mine, lp, others, end) == end
    ensures others != [] && others[0].Takes? ==>
      EndRead(chain, mine, lp, others, end)
        == if chain == [] then EndRead(chain, mine, lp, others[1..], end)
           else EndRead(chain[1..], mine + {chain[0]}, lp, others[1..], if chain[0] == lp then others[0].end else end)
    ensures others != [] && others[0].PutsBack? ==>
      EndRead(chain, mine, lp, others, end)
        == if others[0].lp in mine then EndRead([others[0].lp] + chain, mine - {others[0].lp}, lp, others[1..], end)
           else EndRead(chain, mine, lp, others[1..], end)
  {
  }
}
