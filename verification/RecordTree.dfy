/**
  The search tree of mem_leak/kerspace/huawei_log_page.c. `rb_link_node` hangs a record below an
  empty link and `rb_erase` takes one out; what rebalancing does is only known to keep the order.
 */
module RecordTree {
  datatype Tree = Leaf | Node(left: Tree, lp: nat, right: Tree)

  ghost function InOrder(t: Tree): seq<nat> {
    if t.Leaf? then [] else InOrder(t.left) + [t.lp] + InOrder(t.right)
  }

  /** A link of the tree, as the moves from the root that lead to it (`struct rb_node **`). */
  datatype Link = Root | Down(up: Link, right: bool)

  function At(t: Tree, p: Link): Tree {
    match p
    case Root => t
    case Down(up, right) =>
      var u := At(t, up);
      if u.Leaf? then Leaf else if right then u.right else u.left
  }

  /** `t` with the link at `p` set to `s`. */
  function Set(t: Tree, p: Link, s: Tree): Tree {
    match p
    case Root => s
    case Down(up, right) =>
      var u := At(t, up);
      if u.Leaf? then t
      else Set(t, up, if right then u.(right := s) else u.(left := s))
  }

  /** The records before and after everything at a link, in order. */
  ghost function Before(t: Tree, p: Link): seq<nat> {
    match p
    case Root => []
    case Down(up, right) =>
      var u := At(t, up);
      Before(t, up) + if u.Node? && right then InOrder(u.left) + [u.lp] else []
  }

  ghost function After(t: Tree, p: Link): seq<nat> {
    match p
    case Root => []
    case Down(up, right) =>
      var u := At(t, up);
      (if u.Node? && !right then [u.lp] + InOrder(u.right) else []) + After(t, up)
  }

  ghost predicate Reaches(t: Tree, p: Link) {
    match p
    case Root => true
    case Down(up, _) => Reaches(t, up) && At(t, up).Node?
  }

  lemma {:induction false} SetInOrder(t: Tree, p: Link, s: Tree)
    requires Reaches(t, p)
    ensures InOrder(Set(t, p, s)) == Before(t, p) + InOrder(s) + After(t, p)
  {
    if p.Root? {
    } else {
      var u := At(t, p.up);
      SetInOrder(t, p.up, if p.right then u.(right := s) else u.(left := s));
      Regroup(Before(t, p.up), InOrder(u.left), [u.lp], InOrder(s), After(t, p.up));
      Regroup(Before(t, p.up), InOrder(s), [u.lp], InOrder(u.right), After(t, p.up));
    }
  }

  lemma Regroup(a: seq<nat>, b: seq<nat>, c: seq<nat>, d: seq<nat>, e: seq<nat>)
    ensures a + (b + c + d) + e == (a + (b + c)) + d + ([] + e)
    ensures a + (b + c + d) + e == (a + []) + b + ((c + d) + e)
  {
  }

  lemma {:induction false} Splits(t: Tree, p: Link)
    requires Reaches(t, p)
    ensures InOrder(t) == Before(t, p) + InOrder(At(t, p)) + After(t, p)
  {
    SetInOrder(t, p, At(t, p));
    SetSame(t, p);
  }

  lemma {:induction false} SetSame(t: Tree, p: Link)
    requires Reaches(t, p)
    ensures Set(t, p, At(t, p)) == t
  {
    if p.Root? {
    } else {
      SetSame(t, p.up);
    }
  }

  /** The two subtrees of an erased node as one. */
  function Join(l: Tree, r: Tree): (t: Tree)
    ensures InOrder(t) == InOrder(l) + InOrder(r)
  {
    if l.Leaf? then r
    else
      var t := Node(l.left, l.lp, Join(l.right, r));
      assert InOrder(l.left) + [l.lp] + (InOrder(l.right) + InOrder(r)) == InOrder(l) + InOrder(r);
      t
  }

  /** The records before and after the one at `p`. */
  ghost function Left(t: Tree, p: Link): seq<nat> {
    Before(t, p) + if At(t, p).Node? then InOrder(At(t, p).left) else []
  }

  ghost function Right(t: Tree, p: Link): seq<nat> {
    (if At(t, p).Node? then InOrder(At(t, p).right) else []) + After(t, p)
  }

  lemma SplitsAround(t: Tree, p: Link)
    requires Reaches(t, p) && At(t, p).Node?
    ensures InOrder(t) == Left(t, p) + [At(t, p).lp] + Right(t, p)
  {
    Splits(t, p);
    var u := At(t, p);
    Associate(Before(t, p), InOrder(u.left), [u.lp], InOrder(u.right), After(t, p));
  }

  lemma DownSides(t: Tree, p: Link)
    requires At(t, p).Node?
    ensures Before(t, Down(p, true)) == Left(t, p) + [At(t, p).lp]
    ensures After(t, Down(p, false)) == [At(t, p).lp] + Right(t, p)
  {
  }

  lemma Associate(a: seq<nat>, b: seq<nat>, c: seq<nat>, d: seq<nat>, e: seq<nat>)
    ensures a + (b + c + d) + e == (a + b) + c + (d + e)
    ensures a + (b + d) + e == (a + b) + (d + e)
  {
  }

  /** `rb_erase` without rebalancing: the record at `p` gives way to its two subtrees. */
  function Unlink(t: Tree, p: Link): Tree {
    var u := At(t, p);
    if u.Leaf? then t else Set(t, p, Join(u.left, u.right))
  }

  lemma UnlinkInOrder(t: Tree, p: Link)
    requires Reaches(t, p) && At(t, p).Node?
    ensures InOrder(Unlink(t, p)) == Left(t, p) + Right(t, p)
  {
    var u := At(t, p);
    SetInOrder(t, p, Join(u.left, u.right));
    Associate(Before(t, p), InOrder(u.left), [], InOrder(u.right), After(t, p));
  }
}
