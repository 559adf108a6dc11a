/** What routing guarantees on a tree whose ranges are consistent: every value
    under a node lies in the node's range, routing picks the only child whose
    range can hold the value, and so the leaf that routing reaches holds the
    value exactly when the subtree does. */
module Routing {
  import opened SortedSeq
  import opened Arena

  /** A child's range lies inside its parent's. */
  lemma ChildRangeWithin(k: seq<int>, r: Range, j: nat, x: int)
    requires j <= |k| && forall y :: y in k ==> InRange(y, r)
    requires InRange(x, ChildRange(k, r, j))
    ensures InRange(x, r)
  {
    if 0 < j { assert k[j - 1] in k; }
    if j < |k| { assert k[j] in k; }
  }

  /** Over sorted keys, the only child whose range holds `x` is the one at the
      lower bound of `x`. */
  lemma ChildIndexUnique(k: seq<int>, r: Range, j: nat, x: int)
    requires j <= |k| && Sorted(k)
    requires InRange(x, ChildRange(k, r, j))
    ensures j == LowerBound(k, x)
  {
    forall i | 0 <= i < j ensures k[i] < x {
      assert k[i] <= k[j - 1];
    }
    LowerBoundUnique(k, x, j);
  }

  /** The lower-bound child's range holds `x` whenever its parent's does. */
  lemma LowerBoundChildRange(k: seq<int>, r: Range, x: int)
    requires InRange(x, r)
    ensures InRange(x, ChildRange(k, r, LowerBound(k, x)))
  {
  }

  lemma {:induction false} ElementsInRange(ns: seq<Node>, lv: seq<nat>, rg: seq<Range>, root: nat, i: nat, x: int)
    requires WellFormed(ns, lv) && Ordered(ns, rg, root) && i < |ns|
    requires x in Elements(ns, lv, i)
    ensures InRange(x, rg[i])
    decreases lv[i]
  {
    assert NodeWellFormed(ns, lv, i) && NodeOrdered(ns, rg, i);
    match ns[i]
    case Leaf(d, _) =>
    case Internal(k, c, _) =>
      var j :| 0 <= j < |c| && x in Elements(ns, lv, c[j]);
      ElementsInRange(ns, lv, rg, root, c[j], x);
      ChildRangeWithin(k, rg[i], j, x);
  }

  /** The range of the leaf that routing reaches lies inside the range of the
      node routing starts from. */
  lemma {:induction false} RouteWithin(ns: seq<Node>, lv: seq<nat>, rg: seq<Range>, root: nat, i: nat, d: int, x: int)
    requires WellFormed(ns, lv) && Ordered(ns, rg, root) && i < |ns|
    requires InRange(x, rg[Route(ns, lv, i, d)])
    ensures InRange(x, rg[i])
    decreases lv[i]
  {
    assert NodeWellFormed(ns, lv, i) && NodeOrdered(ns, rg, i);
    match ns[i]
    case Leaf(_, _) =>
    case Internal(k, c, _) =>
      var j := LowerBound(k, d);
      RouteWithin(ns, lv, rg, root, c[j], d, x);
      ChildRangeWithin(k, rg[i], j, x);
  }

  /** Routing keeps `d` inside the range of every node it passes. */
  lemma {:induction false} RouteKeepsRange(ns: seq<Node>, lv: seq<nat>, rg: seq<Range>, root: nat, i: nat, d: int)
    requires WellFormed(ns, lv) && Ordered(ns, rg, root) && i < |ns|
    requires InRange(d, rg[i])
    ensures InRange(d, rg[Route(ns, lv, i, d)])
    decreases lv[i]
  {
    assert NodeWellFormed(ns, lv, i) && NodeOrdered(ns, rg, i);
    match ns[i]
    case Leaf(_, _) =>
    case Internal(k, c, _) =>
      LowerBoundChildRange(k, rg[i], d);
      RouteKeepsRange(ns, lv, rg, root, c[LowerBound(k, d)], d);
  }

  /** Search is exact: the subtree under `i` holds `d` if and only if the leaf
      that routing reaches holds it (btree.h:112-122, 246-253). */
  lemma {:induction false} RouteFinds(ns: seq<Node>, lv: seq<nat>, rg: seq<Range>, root: nat, i: nat, d: int)
    requires WellFormed(ns, lv) && Ordered(ns, rg, root) && i < |ns|
    ensures d in Elements(ns, lv, i) <==> d in ns[Route(ns, lv, i, d)].data
    decreases lv[i]
  {
    assert NodeWellFormed(ns, lv, i) && NodeOrdered(ns, rg, i);
    match ns[i]
    case Leaf(_, _) =>
    case Internal(k, c, _) =>
      var b := LowerBound(k, d);
      RouteFinds(ns, lv, rg, root, c[b], d);
      if d in Elements(ns, lv, i) {
        var j :| 0 <= j < |c| && d in Elements(ns, lv, c[j]);
        ElementsInRange(ns, lv, rg, root, c[j], d);
        ChildIndexUnique(k, rg[i], j, d);
      }
  }
}
