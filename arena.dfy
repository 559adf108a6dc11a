/** The nodes of the tree, stored in an arena and addressed by index, and the
    invariants that make the arena a search tree: levels (every leaf at the
    bottom, one level per edge), parent links that agree with the child lists,
    and separator ranges that route every value to exactly one child. */
module Arena {
  import opened SortedSeq

  datatype Option<T> = None | Some(value: T)

  /** `leaf` (btree.h:174-291) and `internal` (btree.h:28-172); the `parent`
      pointer and the `children` pointers are arena indices. */
  datatype Node =
    | Leaf(data: seq<int>, parent: Option<nat>)
    | Internal(keys: seq<int>, children: seq<nat>, parent: Option<nat>)

  /** The count a split compares against `m`: `data.size()` or `keys.size()`. */
  function Size(n: Node): nat {
    if n.Leaf? then |n.data| else |n.keys|
  }

  /** Same values and same children; the parent may differ. */
  predicate SameShape(a: Node, b: Node) {
    match a
    case Leaf(d, _) => b.Leaf? && b.data == d
    case Internal(k, c, _) => b.Internal? && b.keys == k && b.children == c
  }

  // ---------------------------------------------------------------- levels

  /** Leaves sit at level 0; an internal node has one child more than it has
      keys, and its children sit one level below it. */
  ghost predicate NodeWellFormed(ns: seq<Node>, lv: seq<nat>, i: nat)
    requires |lv| == |ns| && i < |ns|
  {
    match ns[i]
    case Leaf(_, _) => lv[i] == 0
    case Internal(k, c, _) =>
      lv[i] > 0 && |c| == |k| + 1 &&
      forall j :: 0 <= j < |c| ==> c[j] < |ns| && lv[c[j]] + 1 == lv[i]
  }

  ghost predicate WellFormed(ns: seq<Node>, lv: seq<nat>) {
    |lv| == |ns| && forall i :: 0 <= i < |ns| ==> NodeWellFormed(ns, lv, i)
  }

  /** The values stored in the leaves below node `i`. */
  ghost function Elements(ns: seq<Node>, lv: seq<nat>, i: nat): set<int>
    requires WellFormed(ns, lv) && i < |ns|
    decreases lv[i]
  {
    assert NodeWellFormed(ns, lv, i);
    match ns[i]
    case Leaf(d, _) => Values(d)
    case Internal(_, c, _) =>
      set j, x | 0 <= j < |c| && x in Elements(ns, lv, c[j]) :: x
  }

  /** A value is under an internal node exactly when it is under one of its children. */
  lemma ElementsOfInternal(ns: seq<Node>, lv: seq<nat>, i: nat, x: int)
    requires WellFormed(ns, lv) && i < |ns| && ns[i].Internal?
    ensures forall j :: 0 <= j < |ns[i].children| ==> ns[i].children[j] < |ns|
    ensures x in Elements(ns, lv, i) <==>
              exists j :: 0 <= j < |ns[i].children| && x in Elements(ns, lv, ns[i].children[j])
  {
    assert NodeWellFormed(ns, lv, i);
  }

  // ---------------------------------------------------------- parent links

  /** Every child of `i` points back at `i`, and the parent of `i`, if any, is
      an internal node that lists `i` among its children. */
  ghost predicate NodeLinked(ns: seq<Node>, i: nat)
    requires i < |ns|
  {
    (ns[i].Internal? ==>
       forall j :: 0 <= j < |ns[i].children| ==>
         ns[i].children[j] < |ns| && ns[ns[i].children[j]].parent == Some(i)) &&
    (ns[i].parent.Some? ==>
       ns[i].parent.value < |ns| && ns[ns[i].parent.value].Internal? &&
       i in ns[ns[i].parent.value].children)
  }

  /** Only the root has no parent. */
  ghost predicate Linked(ns: seq<Node>, root: nat) {
    root < |ns| && ns[root].parent.None? &&
    forall i {:trigger NodeLinked(ns, i)} :: 0 <= i < |ns| ==> (i != root ==> ns[i].parent.Some?) && NodeLinked(ns, i)
  }

  // ---------------------------------------------------------------- ranges

  /** A half-open interval (lo, hi]; `None` stands for an unbounded end. */
  datatype Range = Range(lo: Option<int>, hi: Option<int>)

  predicate InRange(x: int, r: Range) {
    (r.lo.None? || r.lo.value < x) && (r.hi.None? || x <= r.hi.value)
  }

  /** The interval that routing assigns to child `j` of a node with keys `k`
      and interval `r`: a value equal to a separator goes to the LEFT child,
      because routing picks `children[lower_bound(keys, d)]`. */
  function ChildRange(k: seq<int>, r: Range, j: nat): Range
    requires j <= |k|
  {
    Range(if j == 0 then r.lo else Some(k[j - 1]), if j == |k| then r.hi else Some(k[j]))
  }

  /** Vectors strictly increase, hold values of the node's interval, and each
      child's interval is the one routing assigns to it. */
  ghost predicate NodeOrdered(ns: seq<Node>, rg: seq<Range>, i: nat)
    requires |rg| == |ns| && i < |ns|
  {
    match ns[i]
    case Leaf(d, _) =>
      StrictlySorted(d) && forall x :: x in d ==> InRange(x, rg[i])
    case Internal(k, c, _) =>
      StrictlySorted(k) && (forall x :: x in k ==> InRange(x, rg[i])) && |c| == |k| + 1 &&
      forall j :: 0 <= j < |c| ==> c[j] < |ns| && rg[c[j]] == ChildRange(k, rg[i], j)
  }

  ghost predicate Ordered(ns: seq<Node>, rg: seq<Range>, root: nat) {
    |rg| == |ns| && root < |ns| && rg[root] == Range(None, None) &&
    forall i :: 0 <= i < |ns| ==> NodeOrdered(ns, rg, i)
  }

  // ------------------------------------------------------------- the whole

  /** The root is the highest node. */
  ghost predicate RootOnTop(lv: seq<nat>, root: nat) {
    root < |lv| && forall i :: 0 <= i < |lv| ==> lv[i] <= lv[root]
  }

  ghost predicate TreeInv(ns: seq<Node>, lv: seq<nat>, rg: seq<Range>, root: nat) {
    WellFormed(ns, lv) && RootOnTop(lv, root) && Linked(ns, root) && Ordered(ns, rg, root)
  }

  /** No node holds more than `m` values, except `cur`, which may hold `m + 1`
      while it waits for its split. */
  ghost predicate FanOutExcept(ns: seq<Node>, m: nat, cur: nat) {
    forall i :: 0 <= i < |ns| ==> Size(ns[i]) <= (if i == cur then m + 1 else m)
  }

  ghost predicate FanOut(ns: seq<Node>, m: nat) {
    forall i :: 0 <= i < |ns| ==> Size(ns[i]) <= m
  }

  // --------------------------------------------------------------- routing

  /** The leaf that `insert`, `search` and `erase` reach from node `i`: an
      internal node descends into `children[lower_bound(keys, d)]`, which is
      the last child when no key is at least `d` (btree.h:89-104, 112-122). */
  ghost function Route(ns: seq<Node>, lv: seq<nat>, i: nat, d: int): (leaf: nat)
    requires WellFormed(ns, lv) && i < |ns|
    ensures leaf < |ns| && ns[leaf].Leaf?
    decreases lv[i]
  {
    assert NodeWellFormed(ns, lv, i);
    match ns[i]
    case Leaf(_, _) => i
    case Internal(k, c, _) => Route(ns, lv, c[LowerBound(k, d)], d)
  }
}
