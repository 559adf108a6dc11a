/** The split engine (btree.h:41-87, 189-228) as functions on the arena: a
    root without a parent first gets a fresh parent, then the overflowing node
    keeps its left half, a new sibling takes the right half, and the middle key
    is promoted into the parent at its lower bound, the sibling just after the
    node. The lemmas show that each step keeps the tree a search tree with the
    same contents, and that the overflow moves up to the parent. */
module Split {
  import opened SortedSeq
  import opened Arena
  import opened Routing

  // ------------------------------------------------------------ new root

  /** btree.h:60-68, 201-209: a fresh internal node with the old root as its
      only child, and no key yet, becomes the root; it sits at index `|ns|`. */
  function GrowRoot(ns: seq<Node>, root: nat): (ns': seq<Node>)
    requires root < |ns|
    ensures |ns'| == |ns| + 1
    ensures ns'[|ns|].Internal? && ns'[|ns|].keys == [] && ns'[|ns|].children == [root] && ns'[|ns|].parent.None?
    ensures SameShape(ns[root], ns'[root]) && ns'[root].parent == Some(|ns|)
    ensures forall q :: 0 <= q < |ns| && q != root ==> ns'[q] == ns[q]
  {
    ns[root := ns[root].(parent := Some(|ns|))] + [Internal([], [root], None)]
  }

  ghost function GrowLevels(lv: seq<nat>, root: nat): seq<nat>
    requires root < |lv|
  {
    lv + [lv[root] + 1]
  }

  ghost function GrowRanges(rg: seq<Range>): seq<Range> {
    rg + [Range(None, None)]
  }

  /** A node below level `top` keeps its contents when no old node below
      that level changes, except in its parent field. */
  lemma {:induction false} ElementsUnchanged(ns: seq<Node>, lv: seq<nat>, ns': seq<Node>, lv': seq<nat>, top: nat, c: nat)
    requires WellFormed(ns, lv) && WellFormed(ns', lv') && c < |ns| <= |ns'| && lv[c] < top
    requires forall i :: 0 <= i < |ns| && lv[i] < top ==> SameShape(ns[i], ns'[i]) && lv'[i] == lv[i]
    ensures Elements(ns', lv', c) == Elements(ns, lv, c)
    decreases lv[c]
  {
    assert NodeWellFormed(ns, lv, c);
    if ns[c].Internal? {
      var ch := ns[c].children;
      forall j | 0 <= j < |ch| ensures Elements(ns', lv', ch[j]) == Elements(ns, lv, ch[j]) {
        ElementsUnchanged(ns, lv, ns', lv', top, ch[j]);
      }
      forall x ensures x in Elements(ns', lv', c) <==> x in Elements(ns, lv, c) {
        ElementsOfInternal(ns, lv, c, x);
        ElementsOfInternal(ns', lv', c, x);
      }
    }
  }

  lemma GrowRootNode(ns: seq<Node>, lv: seq<nat>, rg: seq<Range>, root: nat, i: nat)
    requires TreeInv(ns, lv, rg, root) && i <= |ns|
    ensures var ns' := GrowRoot(ns, root);
            NodeWellFormed(ns', GrowLevels(lv, root), i) && NodeLinked(ns', i) &&
            NodeOrdered(ns', GrowRanges(rg), i) && (i != |ns| ==> ns'[i].parent.Some?)
  {
    if i < |ns| {
      assert NodeWellFormed(ns, lv, i) && NodeLinked(ns, i) && NodeOrdered(ns, rg, i);
      if i != root {
        assert ns[i].parent.Some?;
      }
    }
  }

  /** The tree grows by exactly one level, keeps its contents and stays a
      search tree; the node waiting for its split is unaffected. */
  lemma GrowRootKeepsInv(ns: seq<Node>, lv: seq<nat>, rg: seq<Range>, root: nat, m: nat, cur: nat)
    requires TreeInv(ns, lv, rg, root) && FanOutExcept(ns, m, cur)
    ensures TreeInv(GrowRoot(ns, root), GrowLevels(lv, root), GrowRanges(rg), |ns|)
    ensures FanOutExcept(GrowRoot(ns, root), m, cur)
    ensures GrowLevels(lv, root)[|ns|] == lv[root] + 1
    ensures Elements(GrowRoot(ns, root), GrowLevels(lv, root), |ns|) == Elements(ns, lv, root)
  {
    var ns', lv', rg', r := GrowRoot(ns, root), GrowLevels(lv, root), GrowRanges(rg), |ns|;
    forall i | 0 <= i < |ns'|
      ensures NodeWellFormed(ns', lv', i) && NodeLinked(ns', i) && NodeOrdered(ns', rg', i)
      ensures i != r ==> ns'[i].parent.Some?
    {
      GrowRootNode(ns, lv, rg, root, i);
    }
    assert WellFormed(ns', lv');
    GrowRootElements(ns, lv, rg, root);
  }

  lemma GrowRootElements(ns: seq<Node>, lv: seq<nat>, rg: seq<Range>, root: nat)
    requires WellFormed(ns, lv) && root < |ns|
    requires WellFormed(GrowRoot(ns, root), GrowLevels(lv, root))
    ensures Elements(GrowRoot(ns, root), GrowLevels(lv, root), |ns|) == Elements(ns, lv, root)
  {
    var ns', lv', r := GrowRoot(ns, root), GrowLevels(lv, root), |ns|;
    forall i | 0 <= i < |ns| ensures SameShape(ns[i], ns'[i]) && lv'[i] == lv[i] {
      if i == root {
        assert ns'[i] == ns[root].(parent := Some(r));
      } else {
        assert ns'[i] == ns[i];
      }
    }
    ElementsUnchanged(ns, lv, ns', lv', lv[root] + 1, root);
    SingleChildElements(ns', lv', r);
  }

  /** A node with a single child holds what that child holds. */
  lemma SingleChildElements(ns: seq<Node>, lv: seq<nat>, i: nat)
    requires WellFormed(ns, lv) && i < |ns| && ns[i].Internal? && |ns[i].children| == 1
    ensures ns[i].children[0] < |ns|
    ensures Elements(ns, lv, i) == Elements(ns, lv, ns[i].children[0])
  {
    assert NodeWellFormed(ns, lv, i);
    var c := ns[i].children;
    forall x ensures x in Elements(ns, lv, i) <==> x in Elements(ns, lv, c[0]) {
      ElementsOfInternal(ns, lv, i, x);
      if x in Elements(ns, lv, i) {
        var j :| 0 <= j < |c| && x in Elements(ns, lv, c[j]);
        assert j == 0;
      }
    }
  }

  // ---------------------------------------------------- promotion and split

  /** Over increasing keys inside `r`, distinct children get distinct ranges. */
  lemma ChildRangeInjective(k: seq<int>, r: Range, a: nat, b: nat)
    requires StrictlySorted(k) && a <= |k| && b <= |k| && forall y :: 0 <= y < |k| ==> InRange(k[y], r)
    requires ChildRange(k, r, a) == ChildRange(k, r, b)
    ensures a == b
  {
  }

  /** Inserting `mid` at position `b` of the keys (and a child at `b + 1`)
      splits the range of child `b` at `mid` and shifts the ranges after it. */
  lemma PromotedChildRanges(k: seq<int>, r: Range, b: nat, mid: int, j: nat)
    requires b <= |k| && j <= |k| + 1
    ensures ChildRange(InsertAt(k, b, mid), r, j) ==
              if j < b then ChildRange(k, r, j)
              else if j == b then Range(ChildRange(k, r, b).lo, Some(mid))
              else if j == b + 1 then Range(Some(mid), ChildRange(k, r, b).hi)
              else ChildRange(k, r, j - 1)
  {
  }

  /** btree.h:70-81, 211-222: the promoted key goes in at its lower bound in
      the parent's keys and the new sibling just after it in the children;
      when the lower bound is the end both are appended, which is the same. */
  function Promote(ns: seq<Node>, p: nat, mid: int, s: nat): (ns': seq<Node>)
    requires p < |ns| && ns[p].Internal? && |ns[p].children| == |ns[p].keys| + 1
    ensures |ns'| == |ns| && ns'[p].Internal? && ns'[p].parent == ns[p].parent
    ensures forall q :: 0 <= q < |ns| && q != p ==> ns'[q] == ns[q]
    ensures var b := LowerBound(ns[p].keys, mid);
            |ns'[p].keys| == |ns[p].keys| + 1 && |ns'[p].children| == |ns'[p].keys| + 1 &&
            ns'[p].keys[b] == mid && ns'[p].children[b] == ns[p].children[b] && ns'[p].children[b + 1] == s
  {
    var k, c := ns[p].keys, ns[p].children;
    var b := LowerBound(k, mid);
    ns[p := ns[p].(keys := InsertAt(k, b, mid), children := InsertAt(c, b + 1, s))]
  }

  /** Node `i` has an internal parent with one child more than keys. */
  ghost predicate HasParent(ns: seq<Node>, i: nat)
    requires i < |ns|
  {
    ns[i].parent.Some? && ns[i].parent.value < |ns| && ns[i].parent.value != i &&
    ns[ns[i].parent.value].Internal? &&
    |ns[ns[i].parent.value].children| == |ns[ns[i].parent.value].keys| + 1
  }

  /** A node that waits for its split: it holds `m + 1` values, every other
      node at most `m`, and it is not the root. */
  ghost predicate SplitReady(ns: seq<Node>, lv: seq<nat>, rg: seq<Range>, root: nat, m: nat, i: nat) {
    TreeInv(ns, lv, rg, root) && FanOutExcept(ns, m, i) && 1 <= m &&
    i < |ns| && i != root && Size(ns[i]) == m + 1 && HasParent(ns, i) &&
    (ns[i].Internal? ==> |ns[i].children| == |ns[i].keys| + 1)
  }

  /** In a search tree every node other than the root hangs below an
      internal node with one child more than keys; so once the root has been
      given a parent, an overflowing node is ready to split. */
  lemma NonRootHasParent(ns: seq<Node>, lv: seq<nat>, rg: seq<Range>, root: nat, i: nat)
    requires TreeInv(ns, lv, rg, root) && i < |ns| && i != root
    ensures HasParent(ns, i) && (ns[i].Internal? ==> |ns[i].children| == |ns[i].keys| + 1)
  {
    assert NodeLinked(ns, i) && NodeWellFormed(ns, lv, i) && ns[i].parent.Some?;
    var p := ns[i].parent.value;
    assert NodeWellFormed(ns, lv, p);
    var j :| 0 <= j < |ns[p].children| && ns[p].children[j] == i;
  }

  /** Where node `i` hangs: its parent `p`, its only position `b` among the
      parent's children, and the fact that any value of its range routes to `b`. */
  lemma PlaceInParent(ns: seq<Node>, lv: seq<nat>, rg: seq<Range>, root: nat, m: nat, i: nat)
    returns (p: nat, b: nat)
    requires SplitReady(ns, lv, rg, root, m, i)
    ensures ns[i].parent == Some(p) && p < |ns| && p != i && ns[p].Internal?
    ensures |ns[p].children| == |ns[p].keys| + 1 && lv[p] == lv[i] + 1
    ensures b < |ns[p].children| && ns[p].children[b] == i
    ensures forall j :: 0 <= j < |ns[p].children| && ns[p].children[j] == i ==> j == b
    ensures rg[i] == ChildRange(ns[p].keys, rg[p], b)
    ensures StrictlySorted(ns[p].keys) && forall y :: y in ns[p].keys ==> InRange(y, rg[p])
    ensures forall x :: InRange(x, rg[i]) ==> LowerBound(ns[p].keys, x) == b
    ensures forall q, j ::
              (0 <= q < |ns| && ns[q].Internal? && 0 <= j < |ns[q].children| && ns[q].children[j] == i) ==> q == p
  {
    assert NodeLinked(ns, i) && ns[i].parent.Some?;
    p := ns[i].parent.value;
    assert NodeLinked(ns, p) && NodeWellFormed(ns, lv, p) && NodeOrdered(ns, rg, p);
    var k, c := ns[p].keys, ns[p].children;
    b :| 0 <= b < |c| && c[b] == i;
    forall j | 0 <= j < |c| && c[j] == i ensures j == b {
      ChildRangeInjective(k, rg[p], j, b);
    }
    forall x | InRange(x, rg[i]) ensures LowerBound(k, x) == b {
      ChildIndexUnique(k, rg[p], b, x);
    }
    forall q, j | 0 <= q < |ns| && ns[q].Internal? && 0 <= j < |ns[q].children| && ns[q].children[j] == i
      ensures q == p
    {
      assert NodeLinked(ns, q);
    }
  }

  // ------------------------------------------------------------ leaf split

  /** btree.h:189-228 below an existing parent: the leaf keeps
      `data[0..m/2]`, both ends included, the new sibling at index `|ns|`
      takes the rest, and `data[m/2]` is promoted while staying in the leaf. */
  function SplitLeafNodes(ns: seq<Node>, i: nat, m: nat): (ns': seq<Node>)
    requires i < |ns| && ns[i].Leaf? && |ns[i].data| > m && HasParent(ns, i)
    ensures |ns'| == |ns| + 1
    ensures ns'[i].Leaf? && ns'[|ns|].Leaf? && ns'[i].data + ns'[|ns|].data == ns[i].data
    ensures |ns'[i].data| == m / 2 + 1 && ns'[i].parent == ns'[|ns|].parent == ns[i].parent
    ensures ns'[ns[i].parent.value].Internal? && ns[i].data[m / 2] in ns'[ns[i].parent.value].keys
  {
    var d, p, h := ns[i].data, ns[i].parent.value, m / 2;
    Promote(ns[i := Leaf(d[..h + 1], Some(p))] + [Leaf(d[h + 1..], Some(p))], p, d[h], |ns|)
  }

  ghost function SplitLevels(lv: seq<nat>, i: nat): seq<nat>
    requires i < |lv|
  {
    lv + [lv[i]]
  }

  /** The node keeps the part of its range up to `mid`; the sibling gets the rest. */
  ghost function SplitRanges(rg: seq<Range>, i: nat, mid: int): seq<Range>
    requires i < |rg|
  {
    rg[i := Range(rg[i].lo, Some(mid))] + [Range(Some(mid), rg[i].hi)]
  }

  /** The arena after a leaf split, node by node. */
  lemma SplitLeafFacts(ns: seq<Node>, lv: seq<nat>, rg: seq<Range>, root: nat, m: nat, i: nat)
    returns (p: nat, b: nat)
    requires SplitReady(ns, lv, rg, root, m, i) && ns[i].Leaf?
    ensures ns[i].parent == Some(p) && p < |ns| && p != i && ns[p].Internal?
    ensures |ns[p].children| == |ns[p].keys| + 1 && lv[p] == lv[i] + 1
    ensures b < |ns[p].children| && ns[p].children[b] == i
    ensures forall j :: 0 <= j < |ns[p].children| && ns[p].children[j] == i ==> j == b
    ensures rg[i] == ChildRange(ns[p].keys, rg[p], b)
    ensures StrictlySorted(ns[p].keys) && forall y :: y in ns[p].keys ==> InRange(y, rg[p])
    ensures forall q, j ::
              (0 <= q < |ns| && ns[q].Internal? && 0 <= j < |ns[q].children| && ns[q].children[j] == i) ==> q == p
    ensures var d, h := ns[i].data, m / 2;
            var ns' := SplitLeafNodes(ns, i, m);
            b == LowerBound(ns[p].keys, d[h]) &&
            ns'[i] == Leaf(d[..h + 1], Some(p)) &&
            ns'[|ns|] == Leaf(d[h + 1..], Some(p)) &&
            ns'[p] == Internal(InsertAt(ns[p].keys, b, d[h]), InsertAt(ns[p].children, b + 1, |ns|), ns[p].parent) &&
            forall q :: 0 <= q < |ns| && q != i && q != p ==> ns'[q] == ns[q]
  {
    p, b := PlaceInParent(ns, lv, rg, root, m, i);
    var d, h := ns[i].data, m / 2;
    assert NodeOrdered(ns, rg, i);
    assert d[h] in d;
  }

  /** The vector split of btree.h:194-199: the left part keeps positions
      `0..h` (both included), the right part the rest; together they are the
      old vector, the promoted `d[h]` is the left part's last value, and the
      parts fall on either side of it. */
  lemma SplitLeafData(d: seq<int>, h: nat, r: Range)
    requires StrictlySorted(d) && h + 1 < |d| && forall x :: x in d ==> InRange(x, r)
    ensures d[..h + 1] + d[h + 1..] == d && d[..h + 1][h] == d[h]
    ensures StrictlySorted(d[..h + 1]) && StrictlySorted(d[h + 1..])
    ensures forall x :: x in d[..h + 1] ==> InRange(x, Range(r.lo, Some(d[h])))
    ensures forall x :: x in d[h + 1..] ==> InRange(x, Range(Some(d[h]), r.hi))
  {
    forall x | x in d[..h + 1] ensures InRange(x, Range(r.lo, Some(d[h]))) {
      var t :| 0 <= t < h + 1 && d[t] == x;
      assert d[t] in d;
    }
    forall x | x in d[h + 1..] ensures InRange(x, Range(Some(d[h]), r.hi)) {
      var t :| h + 1 <= t < |d| && d[t] == x;
      assert d[t] in d;
    }
  }

  /** A leaf that sits at level 0, is listed by its internal parent, and holds
      increasing values of its range satisfies every per-node invariant. */
  lemma LeafNodeOk(ns: seq<Node>, lv: seq<nat>, rg: seq<Range>, x: nat, p: nat)
    requires |lv| == |ns| == |rg| && x < |ns| && p < |ns| && lv[x] == 0
    requires ns[x].Leaf? && ns[x].parent == Some(p) && ns[p].Internal? && x in ns[p].children
    requires StrictlySorted(ns[x].data) && forall y :: y in ns[x].data ==> InRange(y, rg[x])
    ensures NodeWellFormed(ns, lv, x) && NodeLinked(ns, x) && NodeOrdered(ns, rg, x)
  {
  }

  /** Both halves of a leaf split satisfy the per-node invariants. */
  lemma SplitLeafHalves(ns: seq<Node>, lv: seq<nat>, rg: seq<Range>, root: nat, m: nat, i: nat)
    requires SplitReady(ns, lv, rg, root, m, i) && ns[i].Leaf?
    ensures var ns', lv', rg' := SplitLeafNodes(ns, i, m), SplitLevels(lv, i), SplitRanges(rg, i, ns[i].data[m / 2]);
            NodeWellFormed(ns', lv', i) && NodeLinked(ns', i) && NodeOrdered(ns', rg', i) && ns'[i].parent.Some? &&
            NodeWellFormed(ns', lv', |ns|) && NodeLinked(ns', |ns|) && NodeOrdered(ns', rg', |ns|) &&
            ns'[|ns|].parent.Some?
  {
    var p, b := SplitLeafFacts(ns, lv, rg, root, m, i);
    var ns', lv', rg' := SplitLeafNodes(ns, i, m), SplitLevels(lv, i), SplitRanges(rg, i, ns[i].data[m / 2]);
    var d, h := ns[i].data, m / 2;
    assert NodeOrdered(ns, rg, i) && NodeWellFormed(ns, lv, i);
    SplitLeafData(d, h, rg[i]);
    assert ns'[p].children[b] == i && ns'[p].children[b + 1] == |ns|;
    LeafNodeOk(ns', lv', rg', i, p);
    LeafNodeOk(ns', lv', rg', |ns|, p);
  }

  /** The parent after a promotion: `mid` at position `b` of its keys, the new
      sibling `s` at position `b + 1` of its children, right after the split
      node `i`. Its keys stay increasing because `mid` lies in the range of
      child `b` and some value `above` of that range exceeds it. */
  lemma PromotedParentOk(ns: seq<Node>, lv: seq<nat>, rg: seq<Range>, p: nat, k: seq<int>, c: seq<nat>,
                         b: nat, mid: int, above: int, i: nat, s: nat)
    requires |lv| == |ns| == |rg| && p < |ns| && i < |ns| && s < |ns|
    requires |c| == |k| + 1 && b < |c| && c[b] == i
    requires ns[p].Internal? && ns[p].keys == InsertAt(k, b, mid) && ns[p].children == InsertAt(c, b + 1, s)
    requires StrictlySorted(k) && forall y :: y in k ==> InRange(y, rg[p])
    requires InRange(mid, ChildRange(k, rg[p], b)) && InRange(above, ChildRange(k, rg[p], b)) && mid < above
    requires forall j :: 0 <= j < |c| && j != b ==>
               c[j] < |ns| && rg[c[j]] == ChildRange(k, rg[p], j) &&
               lv[c[j]] + 1 == lv[p] && ns[c[j]].parent == Some(p)
    requires rg[i] == Range(ChildRange(k, rg[p], b).lo, Some(mid))
    requires rg[s] == Range(Some(mid), ChildRange(k, rg[p], b).hi)
    requires lv[i] + 1 == lv[p] && lv[s] + 1 == lv[p]
    requires ns[i].parent == Some(p) && ns[s].parent == Some(p)
    requires ns[p].parent.Some? ==>
               ns[p].parent.value < |ns| && ns[ns[p].parent.value].Internal? &&
               p in ns[ns[p].parent.value].children
    ensures NodeWellFormed(ns, lv, p) && NodeLinked(ns, p) && NodeOrdered(ns, rg, p)
  {
    var k', c' := ns[p].keys, ns[p].children;
    ChildRangeWithin(k, rg[p], b, mid);
    forall u, v | 0 <= u < v < |k'| ensures k'[u] < k'[v] {
      if v < b {
      } else if v == b {
        assert u < b && k[u] <= k[b - 1];
      } else if u < b {
        assert k[u] <= k[b - 1] < mid && k[v - 1] in k;
      } else if u == b {
        assert k[b] <= k[v - 1];
      } else {
      }
    }
    forall j | 0 <= j < |c'| ensures c'[j] < |ns| && rg[c'[j]] == ChildRange(k', rg[p], j) {
      PromotedChildRanges(k, rg[p], b, mid, j);
      if j > b + 1 { assert c'[j] == c[j - 1]; }
    }
  }

  /** A node that a split leaves as it was, apart from its parent field,
      keeps its per-node invariants when its children keep their parent,
      level and range and its parent lists it. */
  lemma UnchangedNodeOk(ns: seq<Node>, lv: seq<nat>, rg: seq<Range>, ns': seq<Node>, lv': seq<nat>, rg': seq<Range>, x: nat)
    requires |lv| == |ns| == |rg| && |lv'| == |ns'| == |rg'| && x < |ns| <= |ns'|
    requires NodeWellFormed(ns, lv, x) && NodeLinked(ns, x) && NodeOrdered(ns, rg, x)
    requires SameShape(ns[x], ns'[x]) && lv'[x] == lv[x] && rg'[x] == rg[x]
    requires ns[x].Internal? ==> forall j :: 0 <= j < |ns[x].children| ==>
               ns'[ns[x].children[j]].parent == ns[ns[x].children[j]].parent &&
               lv'[ns[x].children[j]] == lv[ns[x].children[j]] &&
               rg'[ns[x].children[j]] == rg[ns[x].children[j]]
    requires ns'[x].parent.Some? ==>
               ns'[x].parent.value < |ns'| && ns'[ns'[x].parent.value].Internal? &&
               x in ns'[ns'[x].parent.value].children
    ensures NodeWellFormed(ns', lv', x) && NodeLinked(ns', x) && NodeOrdered(ns', rg', x)
  {
  }

  /** The parent's children other than the split node keep the parent,
      level and range they had, so they still fit below the parent. */
  lemma KeptChildren(ns: seq<Node>, lv: seq<nat>, rg: seq<Range>, ns': seq<Node>, lv': seq<nat>, rg': seq<Range>,
                     p: nat, b: nat, i: nat)
    requires |lv| == |ns| == |rg| && |lv'| == |ns'| == |rg'| && p < |ns| <= |ns'|
    requires ns[p].Internal? && NodeWellFormed(ns, lv, p) && NodeLinked(ns, p) && NodeOrdered(ns, rg, p)
    requires b < |ns[p].children| && forall j :: 0 <= j < |ns[p].children| && ns[p].children[j] == i ==> j == b
    requires lv'[p] == lv[p] && rg'[p] == rg[p]
    requires forall x :: 0 <= x < |ns| && x != i && x != p && ns[x].parent == Some(p) ==>
               lv'[x] == lv[x] && rg'[x] == rg[x] && ns'[x].parent == Some(p)
    ensures forall j :: 0 <= j < |ns[p].children| && j != b ==>
              ns[p].children[j] < |ns'| &&
              rg'[ns[p].children[j]] == ChildRange(ns[p].keys, rg'[p], j) &&
              lv'[ns[p].children[j]] + 1 == lv'[p] && ns'[ns[p].children[j]].parent == Some(p)
  {
    var c := ns[p].children;
    forall j | 0 <= j < |c| && j != b
      ensures c[j] < |ns'| && rg'[c[j]] == ChildRange(ns[p].keys, rg'[p], j) &&
              lv'[c[j]] + 1 == lv'[p] && ns'[c[j]].parent == Some(p)
    {
      assert c[j] != i && lv[c[j]] + 1 == lv[p] && ns[c[j]].parent == Some(p);
    }
  }

  /** A child listed by the parent before a promotion is still listed after it. */
  lemma InsertAtKeepsMember(c: seq<nat>, k: nat, s: nat, x: nat)
    requires k <= |c| && x in c
    ensures x in InsertAt(c, k, s)
  {
    var j :| 0 <= j < |c| && c[j] == x;
    if j < k { assert InsertAt(c, k, s)[j] == x; } else { assert InsertAt(c, k, s)[j + 1] == x; }
  }

  /** Every node of the arena after a leaf split satisfies the per-node
      invariants, and only the root lacks a parent. */
  lemma SplitLeafNode(ns: seq<Node>, lv: seq<nat>, rg: seq<Range>, root: nat, m: nat, i: nat, x: nat)
    requires SplitReady(ns, lv, rg, root, m, i) && ns[i].Leaf? && x <= |ns|
    ensures var ns', lv', rg' := SplitLeafNodes(ns, i, m), SplitLevels(lv, i), SplitRanges(rg, i, ns[i].data[m / 2]);
            NodeWellFormed(ns', lv', x) && NodeLinked(ns', x) && NodeOrdered(ns', rg', x) &&
            (x != root ==> ns'[x].parent.Some?)
  {
    if x == i || x == |ns| {
      SplitLeafHalves(ns, lv, rg, root, m, i);
    } else if x == ns[i].parent.value {
      SplitLeafParent(ns, lv, rg, root, m, i);
    } else {
      SplitLeafOther(ns, lv, rg, root, m, i, x);
    }
  }

  lemma SplitLeafParent(ns: seq<Node>, lv: seq<nat>, rg: seq<Range>, root: nat, m: nat, i: nat)
    requires SplitReady(ns, lv, rg, root, m, i) && ns[i].Leaf?
    ensures var ns', lv', rg' := SplitLeafNodes(ns, i, m), SplitLevels(lv, i), SplitRanges(rg, i, ns[i].data[m / 2]);
            var p := ns[i].parent.value;
            NodeWellFormed(ns', lv', p) && NodeLinked(ns', p) && NodeOrdered(ns', rg', p) &&
            (p != root ==> ns'[p].parent.Some?)
  {
    var ns', lv', rg' := SplitLeafNodes(ns, i, m), SplitLevels(lv, i), SplitRanges(rg, i, ns[i].data[m / 2]);
    var p, b := SplitLeafFacts(ns, lv, rg, root, m, i);
    assert NodeLinked(ns, p);
    if p != root {
      assert ns[p].parent.Some?;
    }
    var k, c, d, h := ns[p].keys, ns[p].children, ns[i].data, m / 2;
    assert NodeOrdered(ns, rg, i);
    assert d[h] in d && d[h + 1] in d;
    assert NodeWellFormed(ns, lv, p) && NodeOrdered(ns, rg, p);
    forall x | 0 <= x < |ns| && x != i && x != p && ns[x].parent == Some(p)
      ensures lv'[x] == lv[x] && rg'[x] == rg[x] && ns'[x].parent == Some(p)
    {
    }
    KeptChildren(ns, lv, rg, ns', lv', rg', p, b, i);
    if ns[p].parent.Some? {
      var pp := ns[p].parent.value;
      assert NodeWellFormed(ns, lv, pp) && NodeWellFormed(ns, lv, p);
      assert exists j :: 0 <= j < |ns[pp].children| && ns[pp].children[j] == p;
    }
    PromotedParentOk(ns', lv', rg', p, k, c, b, d[h], d[h + 1], i, |ns|);
  }

  lemma SplitLeafOther(ns: seq<Node>, lv: seq<nat>, rg: seq<Range>, root: nat, m: nat, i: nat, x: nat)
    requires SplitReady(ns, lv, rg, root, m, i) && ns[i].Leaf?
    requires x < |ns| && x != i && x != ns[i].parent.value
    ensures var ns', lv', rg' := SplitLeafNodes(ns, i, m), SplitLevels(lv, i), SplitRanges(rg, i, ns[i].data[m / 2]);
            NodeWellFormed(ns', lv', x) && NodeLinked(ns', x) && NodeOrdered(ns', rg', x) &&
            (x != root ==> ns'[x].parent.Some?)
  {
    var ns', lv', rg' := SplitLeafNodes(ns, i, m), SplitLevels(lv, i), SplitRanges(rg, i, ns[i].data[m / 2]);
    var p, b := SplitLeafFacts(ns, lv, rg, root, m, i);
    assert NodeWellFormed(ns, lv, x) && NodeLinked(ns, x) && NodeOrdered(ns, rg, x);
    if x != root {
      assert ns[x].parent.Some?;
    }
    if ns[x].Internal? {
      forall j | 0 <= j < |ns[x].children|
        ensures ns'[ns[x].children[j]].parent == ns[ns[x].children[j]].parent
      {
      }
    }
    if ns[x].parent.Some? && ns[x].parent.value == p {
      InsertAtKeepsMember(ns[p].children, b + 1, |ns|, x);
    }
    UnchangedNodeOk(ns, lv, rg, ns', lv', rg', x);
  }

  /** The children of the parent before and after a promotion hold the same
      values, when the split node `i` and its new sibling `s` together hold
      what `i` held before. */
  lemma PromotedElements(ns: seq<Node>, lv: seq<nat>, ns': seq<Node>, lv': seq<nat>, p: nat, b: nat, i: nat, s: nat)
    requires WellFormed(ns, lv) && WellFormed(ns', lv') && p < |ns| && p < |ns'| && i < |ns| && i < |ns'| && s < |ns'|
    requires ns[p].Internal? && ns'[p].Internal? && b < |ns[p].children| && ns[p].children[b] == i
    requires ns'[p].children == InsertAt(ns[p].children, b + 1, s)
    requires forall j :: 0 <= j < |ns[p].children| && j != b ==>
               ns[p].children[j] < |ns| && ns[p].children[j] < |ns'| &&
               Elements(ns', lv', ns[p].children[j]) == Elements(ns, lv, ns[p].children[j])
    requires Elements(ns', lv', i) + Elements(ns', lv', s) == Elements(ns, lv, i)
    ensures Elements(ns', lv', p) == Elements(ns, lv, p)
  {
    forall y | y in Elements(ns', lv', p) ensures y in Elements(ns, lv, p) {
      PromotedElementsOld(ns, lv, ns', lv', p, b, i, s, y);
    }
    forall y | y in Elements(ns, lv, p) ensures y in Elements(ns', lv', p) {
      PromotedElementsNew(ns, lv, ns', lv', p, b, i, s, y);
    }
  }

  lemma PromotedElementsOld(ns: seq<Node>, lv: seq<nat>, ns': seq<Node>, lv': seq<nat>, p: nat, b: nat, i: nat, s: nat, y: int)
    requires WellFormed(ns, lv) && WellFormed(ns', lv') && p < |ns| && p < |ns'| && i < |ns| && i < |ns'| && s < |ns'|
    requires ns[p].Internal? && ns'[p].Internal? && b < |ns[p].children| && ns[p].children[b] == i
    requires ns'[p].children == InsertAt(ns[p].children, b + 1, s)
    requires forall j :: 0 <= j < |ns[p].children| && j != b ==>
               ns[p].children[j] < |ns| && ns[p].children[j] < |ns'| &&
               Elements(ns', lv', ns[p].children[j]) == Elements(ns, lv, ns[p].children[j])
    requires Elements(ns', lv', i) + Elements(ns', lv', s) == Elements(ns, lv, i)
    requires y in Elements(ns', lv', p)
    ensures y in Elements(ns, lv, p)
  {
    var c, c' := ns[p].children, ns'[p].children;
    ElementsOfInternal(ns', lv', p, y);
    var j :| 0 <= j < |c'| && y in Elements(ns', lv', c'[j]);
    var t := if j <= b then j else if j == b + 1 then b else j - 1;
    assert y in Elements(ns, lv, c[t]);
    ElementsOfInternal(ns, lv, p, y);
  }

  lemma PromotedElementsNew(ns: seq<Node>, lv: seq<nat>, ns': seq<Node>, lv': seq<nat>, p: nat, b: nat, i: nat, s: nat, y: int)
    requires WellFormed(ns, lv) && WellFormed(ns', lv') && p < |ns| && p < |ns'| && i < |ns| && i < |ns'| && s < |ns'|
    requires ns[p].Internal? && ns'[p].Internal? && b < |ns[p].children| && ns[p].children[b] == i
    requires ns'[p].children == InsertAt(ns[p].children, b + 1, s)
    requires forall j :: 0 <= j < |ns[p].children| && j != b ==>
               ns[p].children[j] < |ns| && ns[p].children[j] < |ns'| &&
               Elements(ns', lv', ns[p].children[j]) == Elements(ns, lv, ns[p].children[j])
    requires Elements(ns', lv', i) + Elements(ns', lv', s) == Elements(ns, lv, i)
    requires y in Elements(ns, lv, p)
    ensures y in Elements(ns', lv', p)
  {
    var c, c' := ns[p].children, ns'[p].children;
    ElementsOfInternal(ns, lv, p, y);
    var j :| 0 <= j < |c| && y in Elements(ns, lv, c[j]);
    var t := if j < b then j else if j > b then j + 1 else if y in Elements(ns', lv', i) then b else b + 1;
    assert y in Elements(ns', lv', c'[t]);
    ElementsOfInternal(ns', lv', p, y);
  }

  /** Contents after a split, by induction on the level: every old node other
      than the split node `i` holds what it held before. Only the parent `p`
      lists `i`, the other old nodes keep their shape, and the parent gains
      the sibling `s` right after `i`. */
  lemma {:induction false} SplitElements(ns: seq<Node>, lv: seq<nat>, ns': seq<Node>, lv': seq<nat>,
                                         p: nat, b: nat, i: nat, s: nat, x: nat)
    requires WellFormed(ns, lv) && WellFormed(ns', lv') && |ns| <= |ns'| && i < |ns| && s < |ns'|
    requires x < |ns| && x != i
    requires forall q :: 0 <= q < |ns| ==> lv'[q] == lv[q]
    requires forall q :: 0 <= q < |ns| && q != i && q != p ==> SameShape(ns[q], ns'[q])
    requires forall q, j ::
               (0 <= q < |ns| && ns[q].Internal? && 0 <= j < |ns[q].children| && ns[q].children[j] == i) ==> q == p
    requires p < |ns| && ns[p].Internal? && ns'[p].Internal? && b < |ns[p].children| && ns[p].children[b] == i
    requires forall j :: 0 <= j < |ns[p].children| && ns[p].children[j] == i ==> j == b
    requires ns'[p].children == InsertAt(ns[p].children, b + 1, s)
    requires Elements(ns', lv', i) + Elements(ns', lv', s) == Elements(ns, lv, i)
    ensures Elements(ns', lv', x) == Elements(ns, lv, x)
    decreases lv[x]
  {
    assert NodeWellFormed(ns, lv, x);
    if ns[x].Internal? {
      var c := ns[x].children;
      forall j | 0 <= j < |c| && c[j] != i ensures Elements(ns', lv', c[j]) == Elements(ns, lv, c[j]) {
        SplitElements(ns, lv, ns', lv', p, b, i, s, c[j]);
      }
      if x == p {
        PromotedElements(ns, lv, ns', lv', p, b, i, s);
      } else {
        forall y ensures y in Elements(ns', lv', x) <==> y in Elements(ns, lv, x) {
          ElementsOfInternal(ns, lv, x, y);
          ElementsOfInternal(ns', lv', x, y);
        }
      }
    }
  }

  /** The arena after a leaf split is a search tree again. */
  lemma SplitLeafShape(ns: seq<Node>, lv: seq<nat>, rg: seq<Range>, root: nat, m: nat, i: nat)
    requires SplitReady(ns, lv, rg, root, m, i) && ns[i].Leaf?
    ensures TreeInv(SplitLeafNodes(ns, i, m), SplitLevels(lv, i), SplitRanges(rg, i, ns[i].data[m / 2]), root)
  {
    var ns', lv', rg' := SplitLeafNodes(ns, i, m), SplitLevels(lv, i), SplitRanges(rg, i, ns[i].data[m / 2]);
    forall x | 0 <= x < |ns'|
      ensures NodeWellFormed(ns', lv', x) && NodeLinked(ns', x) && NodeOrdered(ns', rg', x)
      ensures x != root ==> ns'[x].parent.Some?
    {
      SplitLeafNode(ns, lv, rg, root, m, i, x);
    }
    assert NodeLinked(ns, root);
  }

  /** A leaf split keeps the tree a search tree with the same contents, and
      leaves the overflow, if any, at the parent: the leaf and its new sibling
      hold at most `m` values each, the parent one key more than before. */
  lemma SplitLeafKeepsInv(ns: seq<Node>, lv: seq<nat>, rg: seq<Range>, root: nat, m: nat, i: nat)
    returns (p: nat)
    requires SplitReady(ns, lv, rg, root, m, i) && ns[i].Leaf?
    ensures ns[i].parent == Some(p) && p < |ns| && lv[p] == lv[i] + 1
    ensures var ns', lv', rg' := SplitLeafNodes(ns, i, m), SplitLevels(lv, i), SplitRanges(rg, i, ns[i].data[m / 2]);
            TreeInv(ns', lv', rg', root) && FanOutExcept(ns', m, p) &&
            Size(ns'[p]) == Size(ns[p]) + 1 && ns'[p].parent == ns[p].parent && lv'[p] == lv[p] &&
            Elements(ns', lv', root) == Elements(ns, lv, root)
  {
    var ns', lv', rg' := SplitLeafNodes(ns, i, m), SplitLevels(lv, i), SplitRanges(rg, i, ns[i].data[m / 2]);
    var b;
    p, b := SplitLeafFacts(ns, lv, rg, root, m, i);
    SplitLeafShape(ns, lv, rg, root, m, i);
    SplitLeafContents(ns, lv, rg, root, m, i);
    SplitLeafFanOut(ns, lv, rg, root, m, i);
  }

  /** With `m >= 1` both halves fit: `m / 2 + 1 <= m` values stay, `m - m / 2`
      move; the parent gains one key. */
  lemma SplitLeafFanOut(ns: seq<Node>, lv: seq<nat>, rg: seq<Range>, root: nat, m: nat, i: nat)
    requires SplitReady(ns, lv, rg, root, m, i) && ns[i].Leaf?
    ensures FanOutExcept(SplitLeafNodes(ns, i, m), m, ns[i].parent.value)
    ensures Size(SplitLeafNodes(ns, i, m)[ns[i].parent.value]) == Size(ns[ns[i].parent.value]) + 1
  {
    var p, b := SplitLeafFacts(ns, lv, rg, root, m, i);
  }

  lemma SplitLeafContents(ns: seq<Node>, lv: seq<nat>, rg: seq<Range>, root: nat, m: nat, i: nat)
    requires SplitReady(ns, lv, rg, root, m, i) && ns[i].Leaf?
    requires WellFormed(SplitLeafNodes(ns, i, m), SplitLevels(lv, i))
    ensures Elements(SplitLeafNodes(ns, i, m), SplitLevels(lv, i), root) == Elements(ns, lv, root)
  {
    var ns', lv' := SplitLeafNodes(ns, i, m), SplitLevels(lv, i);
    var p, b := SplitLeafFacts(ns, lv, rg, root, m, i);
    var d, h := ns[i].data, m / 2;
    assert NodeOrdered(ns, rg, i);
    SplitLeafData(d, h, rg[i]);
    assert Elements(ns', lv', i) + Elements(ns', lv', |ns|) == Elements(ns, lv, i) by {
      assert d == d[..h + 1] + d[h + 1..];
      forall y ensures y in d <==> y in d[..h + 1] || y in d[h + 1..] {
      }
    }
    SplitElements(ns, lv, ns', lv', p, b, i, |ns|, root);
  }
}
