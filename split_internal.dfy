/** The split of an overflowing internal node (btree.h:41-87): the node keeps
    the keys before the middle one and the children up to it, a new sibling
    takes the keys after it and the remaining children (which are re-parented
    to the sibling), and the middle key moves up into the parent. */
module SplitInternal {
  import opened SortedSeq
  import opened Arena
  import opened Routing
  import opened Split

  /** The `set_parent` calls of btree.h:53-57: every node listed in `moved`
      gets `s` as its parent; nothing else changes. */
  function Adopt(ns: seq<Node>, moved: seq<nat>, s: nat): (ns': seq<Node>)
    ensures |ns'| == |ns|
    ensures forall q :: 0 <= q < |ns| ==>
              SameShape(ns[q], ns'[q]) && ns'[q].parent == (if q in moved then Some(s) else ns[q].parent)
  {
    seq(|ns|, q requires 0 <= q < |ns| => if q in moved then ns[q].(parent := Some(s)) else ns[q])
  }

  /** btree.h:41-87 below an existing parent, with the children cut at
      `m / 2 + 1`: the node keeps `keys[0..m/2)` and `children[0..m/2]`, the
      sibling at index `|ns|` takes `keys(m/2..]` and `children(m/2..]`, and
      `keys[m/2]` is promoted. */
  function SplitInternalNodes(ns: seq<Node>, i: nat, m: nat): (ns': seq<Node>)
    requires i < |ns| && ns[i].Internal? && |ns[i].keys| > m
    requires |ns[i].children| == |ns[i].keys| + 1 && HasParent(ns, i)
    ensures |ns'| == |ns| + 1
  {
    var k, c, p, h := ns[i].keys, ns[i].children, ns[i].parent.value, m / 2;
    var halves := ns[i := Internal(k[..h], c[..h + 1], Some(p))] + [Internal(k[h + 1..], c[h + 1..], Some(p))];
    Promote(Adopt(halves, c[h + 1..], |ns|), p, k[h], |ns|)
  }

  /** No key and no child is lost or duplicated by the cut: the node's keys,
      the promoted key and the sibling's keys are the old keys in order, the
      two child lists are the old children in order, each half has one child
      more than keys, and the parent receives the promoted key. */
  lemma SplitInternalHalves(ns: seq<Node>, i: nat, m: nat)
    requires i < |ns| && ns[i].Internal? && |ns[i].keys| > m
    requires |ns[i].children| == |ns[i].keys| + 1 && HasParent(ns, i)
    ensures var ns' := SplitInternalNodes(ns, i, m);
            ns'[i].Internal? && ns'[|ns|].Internal? &&
            ns'[i].keys + [ns[i].keys[m / 2]] + ns'[|ns|].keys == ns[i].keys &&
            ns'[i].children + ns'[|ns|].children == ns[i].children &&
            |ns'[i].children| == |ns'[i].keys| + 1 && |ns'[|ns|].children| == |ns'[|ns|].keys| + 1
    ensures var ns' := SplitInternalNodes(ns, i, m);
            ns'[ns[i].parent.value].Internal? && ns[i].keys[m / 2] in ns'[ns[i].parent.value].keys
  {
    var k, c, h := ns[i].keys, ns[i].children, m / 2;
    assert k[..h] + [k[h]] + k[h + 1..] == k;
    assert c[..h + 1] + c[h + 1..] == c;
  }

  /** The children of a node of a search tree are pairwise distinct, since
      their ranges are. */
  lemma ChildrenDistinct(ns: seq<Node>, rg: seq<Range>, x: nat)
    requires |rg| == |ns| && x < |ns| && ns[x].Internal? && NodeOrdered(ns, rg, x)
    ensures forall u, v :: 0 <= u < |ns[x].children| && 0 <= v < |ns[x].children| && u != v ==>
              ns[x].children[u] != ns[x].children[v]
  {
    var k, c := ns[x].keys, ns[x].children;
    forall y | 0 <= y < |k| ensures InRange(k[y], rg[x]) {
      assert k[y] in k;
    }
    forall u, v | 0 <= u < |c| && 0 <= v < |c| && c[u] == c[v] ensures u == v {
      ChildRangeInjective(k, rg[x], u, v);
    }
  }

  /** The arena after an internal split, node by node. */
  lemma SplitInternalFacts(ns: seq<Node>, lv: seq<nat>, rg: seq<Range>, root: nat, m: nat, i: nat)
    returns (p: nat, b: nat)
    requires SplitReady(ns, lv, rg, root, m, i) && ns[i].Internal?
    ensures ns[i].parent == Some(p) && p < |ns| && p != i && ns[p].Internal?
    ensures |ns[p].children| == |ns[p].keys| + 1 && lv[p] == lv[i] + 1
    ensures b < |ns[p].children| && ns[p].children[b] == i
    ensures forall j :: 0 <= j < |ns[p].children| && ns[p].children[j] == i ==> j == b
    ensures rg[i] == ChildRange(ns[p].keys, rg[p], b)
    ensures StrictlySorted(ns[p].keys) && forall y :: y in ns[p].keys ==> InRange(y, rg[p])
    ensures forall q, j ::
              (0 <= q < |ns| && ns[q].Internal? && 0 <= j < |ns[q].children| && ns[q].children[j] == i) ==> q == p
    ensures |ns[i].children| == |ns[i].keys| + 1 == m + 2
    ensures forall j :: 0 <= j < |ns[i].children| ==>
              ns[i].children[j] < |ns| && lv[ns[i].children[j]] + 1 == lv[i] &&
              ns[ns[i].children[j]].parent == Some(i)
    ensures forall u, v :: 0 <= u < |ns[i].children| && 0 <= v < |ns[i].children| && u != v ==>
              ns[i].children[u] != ns[i].children[v]
    ensures var k, c, h := ns[i].keys, ns[i].children, m / 2;
            var ns' := SplitInternalNodes(ns, i, m);
            b == LowerBound(ns[p].keys, k[h]) &&
            ns'[i] == Internal(k[..h], c[..h + 1], Some(p)) &&
            ns'[|ns|] == Internal(k[h + 1..], c[h + 1..], Some(p)) &&
            ns'[p] == Internal(InsertAt(ns[p].keys, b, k[h]), InsertAt(ns[p].children, b + 1, |ns|), ns[p].parent)
  {
    p, b := PlaceInParent(ns, lv, rg, root, m, i);
    var k, h := ns[i].keys, m / 2;
    assert NodeOrdered(ns, rg, i) && NodeWellFormed(ns, lv, i) && NodeLinked(ns, i);
    assert k[h] in k;
    ChildrenDistinct(ns, rg, i);
  }

  /** Any node other than the split node and its parent keeps its shape; it
      points at the sibling exactly when it is one of the children moved. */
  lemma SplitInternalAt(ns: seq<Node>, i: nat, m: nat, q: nat)
    requires i < |ns| && ns[i].Internal? && |ns[i].keys| > m
    requires |ns[i].children| == |ns[i].keys| + 1 && HasParent(ns, i)
    requires q < |ns| && q != i && q != ns[i].parent.value
    ensures var ns' := SplitInternalNodes(ns, i, m);
            SameShape(ns[q], ns'[q]) &&
            ns'[q].parent == (if q in ns[i].children[m / 2 + 1..] then Some(|ns|) else ns[q].parent)
  {
  }

  /** The same for all such nodes at once. */
  lemma SplitInternalOthers(ns: seq<Node>, i: nat, m: nat)
    requires i < |ns| && ns[i].Internal? && |ns[i].keys| > m
    requires |ns[i].children| == |ns[i].keys| + 1 && HasParent(ns, i)
    ensures var ns' := SplitInternalNodes(ns, i, m);
            forall q :: 0 <= q < |ns| && q != i && q != ns[i].parent.value ==>
              SameShape(ns[q], ns'[q]) &&
              ns'[q].parent == (if q in ns[i].children[m / 2 + 1..] then Some(|ns|) else ns[q].parent)
  {
    forall q | 0 <= q < |ns| && q != i && q != ns[i].parent.value
      ensures var ns' := SplitInternalNodes(ns, i, m);
              SameShape(ns[q], ns'[q]) &&
              ns'[q].parent == (if q in ns[i].children[m / 2 + 1..] then Some(|ns|) else ns[q].parent)
    {
      SplitInternalAt(ns, i, m, q);
    }
  }

  /** The key split of btree.h:46-51: the keys before position `h` and those
      after it stay increasing, fall on either side of the promoted `k[h]`,
      and assign every child the same range as before. */
  lemma SplitKeys(k: seq<int>, r: Range, h: nat)
    requires StrictlySorted(k) && h < |k| && forall y :: y in k ==> InRange(y, r)
    ensures StrictlySorted(k[..h]) && StrictlySorted(k[h + 1..])
    ensures forall y :: y in k[..h] ==> InRange(y, Range(r.lo, Some(k[h])))
    ensures forall y :: y in k[h + 1..] ==> InRange(y, Range(Some(k[h]), r.hi))
    ensures forall j :: 0 <= j <= h ==> ChildRange(k[..h], Range(r.lo, Some(k[h])), j) == ChildRange(k, r, j)
    ensures forall j :: h + 1 <= j <= |k| ==>
              ChildRange(k[h + 1..], Range(Some(k[h]), r.hi), j - (h + 1)) == ChildRange(k, r, j)
  {
    forall y | y in k[..h] ensures InRange(y, Range(r.lo, Some(k[h]))) {
      var t :| 0 <= t < h && k[t] == y;
      assert k[t] in k;
    }
    forall y | y in k[h + 1..] ensures InRange(y, Range(Some(k[h]), r.hi)) {
      var t :| h + 1 <= t < |k| && k[t] == y;
      assert k[t] in k;
    }
  }

  /** An internal node whose children point back at it, sit one level below
      and carry the ranges its keys assign satisfies every per-node invariant. */
  lemma InternalNodeOk(ns: seq<Node>, lv: seq<nat>, rg: seq<Range>, x: nat, p: nat)
    requires |lv| == |ns| == |rg| && x < |ns| && p < |ns|
    requires ns[x].Internal? && |ns[x].children| == |ns[x].keys| + 1 && lv[x] > 0
    requires forall j :: 0 <= j < |ns[x].children| ==>
               ns[x].children[j] < |ns| && lv[ns[x].children[j]] + 1 == lv[x] &&
               ns[ns[x].children[j]].parent == Some(x) &&
               rg[ns[x].children[j]] == ChildRange(ns[x].keys, rg[x], j)
    requires StrictlySorted(ns[x].keys) && forall y :: y in ns[x].keys ==> InRange(y, rg[x])
    requires ns[x].parent == Some(p) && ns[p].Internal? && x in ns[p].children
    ensures NodeWellFormed(ns, lv, x) && NodeLinked(ns, x) && NodeOrdered(ns, rg, x)
  {
  }

  /** The node keeps its first `m / 2 + 1` children, which still point at it. */
  lemma SplitInternalLeft(ns: seq<Node>, lv: seq<nat>, rg: seq<Range>, root: nat, m: nat, i: nat)
    requires SplitReady(ns, lv, rg, root, m, i) && ns[i].Internal?
    ensures var ns', lv', rg' := SplitInternalNodes(ns, i, m), SplitLevels(lv, i), SplitRanges(rg, i, ns[i].keys[m / 2]);
            NodeWellFormed(ns', lv', i) && NodeLinked(ns', i) && NodeOrdered(ns', rg', i) && ns'[i].parent.Some?
  {
    var p, b := SplitInternalFacts(ns, lv, rg, root, m, i);
    var ns', lv', rg' := SplitInternalNodes(ns, i, m), SplitLevels(lv, i), SplitRanges(rg, i, ns[i].keys[m / 2]);
    var k, c, h := ns[i].keys, ns[i].children, m / 2;
    assert NodeOrdered(ns, rg, i) && NodeWellFormed(ns, lv, i);
    SplitKeys(k, rg[i], h);
    forall j | 0 <= j <= h
      ensures c[j] < |ns'| && lv'[c[j]] + 1 == lv'[i] && ns'[c[j]].parent == Some(i) &&
              rg'[c[j]] == ChildRange(k[..h], rg'[i], j)
    {
      var moved := c[h + 1..];
      assert c[j] != i && c[j] != p && lv'[c[j]] == lv[c[j]] && rg'[c[j]] == rg[c[j]];
      SplitInternalAt(ns, i, m, c[j]);
      assert c[j] !in moved by {
        forall t | 0 <= t < |moved| ensures moved[t] != c[j] {
          assert moved[t] == c[h + 1 + t];
        }
      }
    }
    assert ns'[p].children[b] == i;
    InternalNodeOk(ns', lv', rg', i, p);
  }

  /** The sibling takes the remaining children, which now point at it. */
  lemma SplitInternalRight(ns: seq<Node>, lv: seq<nat>, rg: seq<Range>, root: nat, m: nat, i: nat)
    requires SplitReady(ns, lv, rg, root, m, i) && ns[i].Internal?
    ensures var ns', lv', rg' := SplitInternalNodes(ns, i, m), SplitLevels(lv, i), SplitRanges(rg, i, ns[i].keys[m / 2]);
            NodeWellFormed(ns', lv', |ns|) && NodeLinked(ns', |ns|) && NodeOrdered(ns', rg', |ns|) &&
            ns'[|ns|].parent.Some?
  {
    var p, b := SplitInternalFacts(ns, lv, rg, root, m, i);
    var ns', lv', rg' := SplitInternalNodes(ns, i, m), SplitLevels(lv, i), SplitRanges(rg, i, ns[i].keys[m / 2]);
    var k, c, h, s := ns[i].keys, ns[i].children, m / 2, |ns|;
    assert NodeOrdered(ns, rg, i) && NodeWellFormed(ns, lv, i);
    SplitKeys(k, rg[i], h);
    forall j | h + 1 <= j < |c|
      ensures c[j] < |ns'| && lv'[c[j]] + 1 == lv'[s] && ns'[c[j]].parent == Some(s) &&
              rg'[c[j]] == ChildRange(k[h + 1..], rg'[s], j - (h + 1))
    {
      MovedChildFits(ns, lv, rg, m, i, j);
    }
    assert ns'[p].children[b + 1] == s;
    InternalNodeOk(ns', lv', rg', s, p);
  }

  /** Child `j` of the right half hangs below the sibling, one level down,
      with the range the sibling's keys assign to it. */
  lemma MovedChildFits(ns: seq<Node>, lv: seq<nat>, rg: seq<Range>, m: nat, i: nat, j: nat)
    requires |lv| == |ns| == |rg| && i < |ns| && ns[i].Internal? && |ns[i].keys| > m
    requires |ns[i].children| == |ns[i].keys| + 1 && HasParent(ns, i)
    requires NodeWellFormed(ns, lv, i) && NodeOrdered(ns, rg, i) && lv[ns[i].parent.value] == lv[i] + 1
    requires m / 2 + 1 <= j < |ns[i].children|
    ensures var ns', lv', rg' := SplitInternalNodes(ns, i, m), SplitLevels(lv, i), SplitRanges(rg, i, ns[i].keys[m / 2]);
            var k, c, h, s := ns[i].keys, ns[i].children, m / 2, |ns|;
            c[j] < |ns'| && lv'[c[j]] + 1 == lv'[s] && ns'[c[j]].parent == Some(s) &&
            rg'[c[j]] == ChildRange(k[h + 1..], rg'[s], j - (h + 1))
  {
    var k, c, h := ns[i].keys, ns[i].children, m / 2;
    var x := c[j];
    var rg' := SplitRanges(rg, i, k[h]);
    assert c[h + 1..][j - (h + 1)] == x;
    assert lv[x] + 1 == lv[i] && rg[x] == ChildRange(k, rg[i], j);
    assert x != i && x != ns[i].parent.value;
    assert rg'[x] == rg[x] && rg'[|ns|] == Range(Some(k[h]), rg[i].hi);
    SplitKeys(k, rg[i], h);
    SplitInternalAt(ns, i, m, x);
  }

  /** The parent gains the promoted key and the sibling. */
  lemma SplitInternalParent(ns: seq<Node>, lv: seq<nat>, rg: seq<Range>, root: nat, m: nat, i: nat)
    requires SplitReady(ns, lv, rg, root, m, i) && ns[i].Internal?
    ensures var ns', lv', rg' := SplitInternalNodes(ns, i, m), SplitLevels(lv, i), SplitRanges(rg, i, ns[i].keys[m / 2]);
            var p := ns[i].parent.value;
            NodeWellFormed(ns', lv', p) && NodeLinked(ns', p) && NodeOrdered(ns', rg', p) &&
            (p != root ==> ns'[p].parent.Some?)
  {
    var ns', lv', rg' := SplitInternalNodes(ns, i, m), SplitLevels(lv, i), SplitRanges(rg, i, ns[i].keys[m / 2]);
    var p, b := SplitInternalFacts(ns, lv, rg, root, m, i);
    assert NodeLinked(ns, p);
    if p != root {
      assert ns[p].parent.Some?;
    }
    var kp, cp, k, h := ns[p].keys, ns[p].children, ns[i].keys, m / 2;
    assert NodeOrdered(ns, rg, i);
    assert k[h] in k && k[h + 1] in k;
    assert NodeWellFormed(ns, lv, p) && NodeOrdered(ns, rg, p);
    SplitInternalSiblings(ns, lv, rg, root, m, i);
    KeptChildren(ns, lv, rg, ns', lv', rg', p, b, i);
    if ns[p].parent.Some? {
      var pp := ns[p].parent.value;
      assert NodeWellFormed(ns, lv, pp) && NodeWellFormed(ns, lv, p);
      assert exists j :: 0 <= j < |ns[pp].children| && ns[pp].children[j] == p;
    }
    PromotedParentOk(ns', lv', rg', p, kp, cp, b, k[h], k[h + 1], i, |ns|);
  }

  /** The parent's other children stay where they were. */
  lemma SplitInternalSiblings(ns: seq<Node>, lv: seq<nat>, rg: seq<Range>, root: nat, m: nat, i: nat)
    requires SplitReady(ns, lv, rg, root, m, i) && ns[i].Internal?
    ensures var ns', lv', rg' := SplitInternalNodes(ns, i, m), SplitLevels(lv, i), SplitRanges(rg, i, ns[i].keys[m / 2]);
            var p := ns[i].parent.value;
            forall x :: 0 <= x < |ns| && x != i && x != p && ns[x].parent == Some(p) ==>
              lv'[x] == lv[x] && rg'[x] == rg[x] && ns'[x].parent == Some(p)
  {
    var p := ns[i].parent.value;
    forall x | 0 <= x < |ns| && x != i && x != p && ns[x].parent == Some(p)
      ensures SplitInternalNodes(ns, i, m)[x].parent == Some(p)
    {
      NotMoved(ns, lv, rg, root, m, i, x);
      SplitInternalAt(ns, i, m, x);
    }
  }

  /** A child handed to the sibling keeps its invariants with its new parent. */
  lemma SplitInternalMoved(ns: seq<Node>, lv: seq<nat>, rg: seq<Range>, root: nat, m: nat, i: nat, x: nat)
    requires SplitReady(ns, lv, rg, root, m, i) && ns[i].Internal?
    requires x in ns[i].children[m / 2 + 1..]
    ensures var ns', lv', rg' := SplitInternalNodes(ns, i, m), SplitLevels(lv, i), SplitRanges(rg, i, ns[i].keys[m / 2]);
            x < |ns| && NodeWellFormed(ns', lv', x) && NodeLinked(ns', x) && NodeOrdered(ns', rg', x) &&
            ns'[x].parent.Some?
  {
    var ns', lv', rg' := SplitInternalNodes(ns, i, m), SplitLevels(lv, i), SplitRanges(rg, i, ns[i].keys[m / 2]);
    var p, b := SplitInternalFacts(ns, lv, rg, root, m, i);
    var c, h := ns[i].children, m / 2;
    var t :| 0 <= t < |c[h + 1..]| && c[h + 1..][t] == x;
    assert c[h + 1 + t] == x;
    assert NodeWellFormed(ns, lv, x) && NodeLinked(ns, x) && NodeOrdered(ns, rg, x);
    assert x != i && x != p && lv'[x] == lv[x] && rg'[x] == rg[x];
    if ns[x].Internal? {
      forall j | 0 <= j < |ns[x].children|
        ensures ns'[ns[x].children[j]].parent == ns[ns[x].children[j]].parent
        ensures lv'[ns[x].children[j]] == lv[ns[x].children[j]] && rg'[ns[x].children[j]] == rg[ns[x].children[j]]
      {
        var y := ns[x].children[j];
        assert ns[y].parent == Some(x) && y != i && y != p;
        NotMoved(ns, lv, rg, root, m, i, y);
        SplitInternalAt(ns, i, m, y);
      }
    }
    SplitInternalAt(ns, i, m, x);
    UnchangedNodeOk(ns, lv, rg, ns', lv', rg', x);
  }

  /** Every other node keeps its invariants: none of its children moved. */
  lemma SplitInternalOther(ns: seq<Node>, lv: seq<nat>, rg: seq<Range>, root: nat, m: nat, i: nat, x: nat)
    requires SplitReady(ns, lv, rg, root, m, i) && ns[i].Internal?
    requires x < |ns| && x != i && x != ns[i].parent.value && x !in ns[i].children[m / 2 + 1..]
    ensures var ns', lv', rg' := SplitInternalNodes(ns, i, m), SplitLevels(lv, i), SplitRanges(rg, i, ns[i].keys[m / 2]);
            NodeWellFormed(ns', lv', x) && NodeLinked(ns', x) && NodeOrdered(ns', rg', x) &&
            (x != root ==> ns'[x].parent.Some?)
  {
    var ns', lv', rg' := SplitInternalNodes(ns, i, m), SplitLevels(lv, i), SplitRanges(rg, i, ns[i].keys[m / 2]);
    var p, b := SplitInternalFacts(ns, lv, rg, root, m, i);
    var c, h := ns[i].children, m / 2;
    assert NodeWellFormed(ns, lv, x) && NodeLinked(ns, x) && NodeOrdered(ns, rg, x);
    if x != root {
      assert ns[x].parent.Some?;
    }
    assert lv'[x] == lv[x] && rg'[x] == rg[x];
    if ns[x].Internal? {
      forall j | 0 <= j < |ns[x].children|
        ensures ns'[ns[x].children[j]].parent == ns[ns[x].children[j]].parent
        ensures lv'[ns[x].children[j]] == lv[ns[x].children[j]] && rg'[ns[x].children[j]] == rg[ns[x].children[j]]
      {
        var y := ns[x].children[j];
        assert ns[y].parent == Some(x) && y != i;
        NotMoved(ns, lv, rg, root, m, i, y);
        if y != p {
          SplitInternalAt(ns, i, m, y);
        }
      }
    }
    SplitInternalAt(ns, i, m, x);
    OtherStillListed(ns, lv, rg, root, m, i, x);
    UnchangedNodeOk(ns, lv, rg, ns', lv', rg', x);
  }

  /** Only children of the split node move to the sibling. */
  lemma NotMoved(ns: seq<Node>, lv: seq<nat>, rg: seq<Range>, root: nat, m: nat, i: nat, y: nat)
    requires SplitReady(ns, lv, rg, root, m, i) && ns[i].Internal?
    requires y < |ns| && ns[y].parent != Some(i)
    ensures y !in ns[i].children[m / 2 + 1..]
  {
    var moved := ns[i].children[m / 2 + 1..];
    assert NodeLinked(ns, i);
    forall t | 0 <= t < |moved| ensures moved[t] != y {
      assert moved[t] == ns[i].children[m / 2 + 1 + t];
    }
  }

  /** A node that did not move is still listed by its parent. */
  lemma OtherStillListed(ns: seq<Node>, lv: seq<nat>, rg: seq<Range>, root: nat, m: nat, i: nat, x: nat)
    requires SplitReady(ns, lv, rg, root, m, i) && ns[i].Internal?
    requires x < |ns| && x != i && x != ns[i].parent.value && x !in ns[i].children[m / 2 + 1..]
    ensures var ns' := SplitInternalNodes(ns, i, m);
            ns'[x].parent == ns[x].parent &&
            (ns'[x].parent.Some? ==>
               ns'[x].parent.value < |ns'| && ns'[ns'[x].parent.value].Internal? &&
               x in ns'[ns'[x].parent.value].children)
  {
    var ns' := SplitInternalNodes(ns, i, m);
    var p, b := SplitInternalFacts(ns, lv, rg, root, m, i);
    var c, h := ns[i].children, m / 2;
    assert NodeLinked(ns, x);
    if ns[x].parent.Some? {
      var q := ns[x].parent.value;
      if q == p {
        InsertAtKeepsMember(ns[p].children, b + 1, |ns|, x);
      } else if q == i {
        InPrefix(c, h + 1, x);
      }
    }
  }

  /** A member of a vector that is not in its tail from `h` on is in its head. */
  lemma InPrefix(c: seq<nat>, h: nat, x: nat)
    requires h <= |c| && x in c && x !in c[h..]
    ensures x in c[..h]
  {
    assert c == c[..h] + c[h..];
  }

  /** Every node of the arena after an internal split satisfies the per-node
      invariants, and only the root lacks a parent. */
  lemma SplitInternalNode(ns: seq<Node>, lv: seq<nat>, rg: seq<Range>, root: nat, m: nat, i: nat, x: nat)
    requires SplitReady(ns, lv, rg, root, m, i) && ns[i].Internal? && x <= |ns|
    ensures var ns', lv', rg' := SplitInternalNodes(ns, i, m), SplitLevels(lv, i), SplitRanges(rg, i, ns[i].keys[m / 2]);
            NodeWellFormed(ns', lv', x) && NodeLinked(ns', x) && NodeOrdered(ns', rg', x) &&
            (x != root ==> ns'[x].parent.Some?)
  {
    if x == i {
      SplitInternalLeft(ns, lv, rg, root, m, i);
    } else if x == |ns| {
      SplitInternalRight(ns, lv, rg, root, m, i);
    } else if x == ns[i].parent.value {
      SplitInternalParent(ns, lv, rg, root, m, i);
    } else if x in ns[i].children[m / 2 + 1..] {
      SplitInternalMoved(ns, lv, rg, root, m, i, x);
    } else {
      SplitInternalOther(ns, lv, rg, root, m, i, x);
    }
  }

  /** The arena after an internal split is a search tree again. */
  lemma SplitInternalShape(ns: seq<Node>, lv: seq<nat>, rg: seq<Range>, root: nat, m: nat, i: nat)
    requires SplitReady(ns, lv, rg, root, m, i) && ns[i].Internal?
    ensures TreeInv(SplitInternalNodes(ns, i, m), SplitLevels(lv, i), SplitRanges(rg, i, ns[i].keys[m / 2]), root)
  {
    var ns', lv', rg' := SplitInternalNodes(ns, i, m), SplitLevels(lv, i), SplitRanges(rg, i, ns[i].keys[m / 2]);
    forall x | 0 <= x < |ns'|
      ensures NodeWellFormed(ns', lv', x) && NodeLinked(ns', x) && NodeOrdered(ns', rg', x)
      ensures x != root ==> ns'[x].parent.Some?
    {
      SplitInternalNode(ns, lv, rg, root, m, i, x);
    }
    var p, b := SplitInternalFacts(ns, lv, rg, root, m, i);
    NotMoved(ns, lv, rg, root, m, i, root);
  }

  /** The node and its sibling together hold what the node held: each child
      below them keeps its contents, and the children are split, not lost. */
  lemma SplitChildrenElements(ns: seq<Node>, lv: seq<nat>, ns': seq<Node>, lv': seq<nat>, i: nat, s: nat, h: nat)
    requires WellFormed(ns, lv) && WellFormed(ns', lv') && i < |ns| && i < |ns'| && s < |ns'|
    requires ns[i].Internal? && ns'[i].Internal? && ns'[s].Internal? && h <= |ns[i].children|
    requires ns'[i].children == ns[i].children[..h] && ns'[s].children == ns[i].children[h..]
    requires forall j :: 0 <= j < |ns[i].children| ==>
               ns[i].children[j] < |ns| && ns[i].children[j] < |ns'| &&
               Elements(ns', lv', ns[i].children[j]) == Elements(ns, lv, ns[i].children[j])
    ensures Elements(ns', lv', i) + Elements(ns', lv', s) == Elements(ns, lv, i)
  {
    forall y | y in Elements(ns', lv', i) + Elements(ns', lv', s) ensures y in Elements(ns, lv, i) {
      SplitChildrenOld(ns, lv, ns', lv', i, s, h, y);
    }
    forall y | y in Elements(ns, lv, i) ensures y in Elements(ns', lv', i) + Elements(ns', lv', s) {
      SplitChildrenNew(ns, lv, ns', lv', i, s, h, y);
    }
  }

  lemma SplitChildrenOld(ns: seq<Node>, lv: seq<nat>, ns': seq<Node>, lv': seq<nat>, i: nat, s: nat, h: nat, y: int)
    requires WellFormed(ns, lv) && WellFormed(ns', lv') && i < |ns| && i < |ns'| && s < |ns'|
    requires ns[i].Internal? && ns'[i].Internal? && ns'[s].Internal? && h <= |ns[i].children|
    requires ns'[i].children == ns[i].children[..h] && ns'[s].children == ns[i].children[h..]
    requires forall j :: 0 <= j < |ns[i].children| ==>
               ns[i].children[j] < |ns| && ns[i].children[j] < |ns'| &&
               Elements(ns', lv', ns[i].children[j]) == Elements(ns, lv, ns[i].children[j])
    requires y in Elements(ns', lv', i) + Elements(ns', lv', s)
    ensures y in Elements(ns, lv, i)
  {
    var c := ns[i].children;
    ElementsOfInternal(ns', lv', i, y);
    ElementsOfInternal(ns', lv', s, y);
    var t;
    if y in Elements(ns', lv', i) {
      var j :| 0 <= j < h && y in Elements(ns', lv', ns'[i].children[j]);
      assert ns'[i].children[j] == c[j];
      t := j;
    } else {
      var j :| 0 <= j < |c| - h && y in Elements(ns', lv', ns'[s].children[j]);
      assert ns'[s].children[j] == c[h + j];
      t := h + j;
    }
    assert y in Elements(ns, lv, c[t]);
    ElementsOfInternal(ns, lv, i, y);
  }

  lemma SplitChildrenNew(ns: seq<Node>, lv: seq<nat>, ns': seq<Node>, lv': seq<nat>, i: nat, s: nat, h: nat, y: int)
    requires WellFormed(ns, lv) && WellFormed(ns', lv') && i < |ns| && i < |ns'| && s < |ns'|
    requires ns[i].Internal? && ns'[i].Internal? && ns'[s].Internal? && h <= |ns[i].children|
    requires ns'[i].children == ns[i].children[..h] && ns'[s].children == ns[i].children[h..]
    requires forall j :: 0 <= j < |ns[i].children| ==>
               ns[i].children[j] < |ns| && ns[i].children[j] < |ns'| &&
               Elements(ns', lv', ns[i].children[j]) == Elements(ns, lv, ns[i].children[j])
    requires y in Elements(ns, lv, i)
    ensures y in Elements(ns', lv', i) + Elements(ns', lv', s)
  {
    var c := ns[i].children;
    ElementsOfInternal(ns, lv, i, y);
    var j :| 0 <= j < |c| && y in Elements(ns, lv, c[j]);
    if j < h {
      assert ns'[i].children[j] == c[j];
      ElementsOfInternal(ns', lv', i, y);
    } else {
      assert ns'[s].children[j - h] == c[j];
      ElementsOfInternal(ns', lv', s, y);
    }
  }

  lemma SplitInternalContents(ns: seq<Node>, lv: seq<nat>, rg: seq<Range>, root: nat, m: nat, i: nat)
    requires SplitReady(ns, lv, rg, root, m, i) && ns[i].Internal?
    requires WellFormed(SplitInternalNodes(ns, i, m), SplitLevels(lv, i))
    ensures Elements(SplitInternalNodes(ns, i, m), SplitLevels(lv, i), root) == Elements(ns, lv, root)
  {
    var ns', lv' := SplitInternalNodes(ns, i, m), SplitLevels(lv, i);
    var p, b := SplitInternalFacts(ns, lv, rg, root, m, i);
    var c, h := ns[i].children, m / 2;
    forall j | 0 <= j < |c| ensures Elements(ns', lv', c[j]) == Elements(ns, lv, c[j]) {
      ElementsUnchanged(ns, lv, ns', lv', lv[i], c[j]);
    }
    SplitChildrenElements(ns, lv, ns', lv', i, |ns|, h + 1);
    assert NodeLinked(ns, root);
    SplitElements(ns, lv, ns', lv', p, b, i, |ns|, root);
  }

  /** With `m >= 1` both halves fit: `m / 2` keys stay, `m - m / 2` move, and
      the parent gains one key. */
  lemma SplitInternalFanOut(ns: seq<Node>, lv: seq<nat>, rg: seq<Range>, root: nat, m: nat, i: nat)
    requires SplitReady(ns, lv, rg, root, m, i) && ns[i].Internal?
    ensures FanOutExcept(SplitInternalNodes(ns, i, m), m, ns[i].parent.value)
    ensures Size(SplitInternalNodes(ns, i, m)[ns[i].parent.value]) == Size(ns[ns[i].parent.value]) + 1
  {
    var p, b := SplitInternalFacts(ns, lv, rg, root, m, i);
  }

  /** An internal split keeps the tree a search tree with the same contents
      and leaves the overflow, if any, at the parent. */
  lemma SplitInternalKeepsInv(ns: seq<Node>, lv: seq<nat>, rg: seq<Range>, root: nat, m: nat, i: nat)
    returns (p: nat)
    requires SplitReady(ns, lv, rg, root, m, i) && ns[i].Internal?
    ensures ns[i].parent == Some(p) && p < |ns| && lv[p] == lv[i] + 1
    ensures var ns', lv', rg' := SplitInternalNodes(ns, i, m), SplitLevels(lv, i), SplitRanges(rg, i, ns[i].keys[m / 2]);
            TreeInv(ns', lv', rg', root) && FanOutExcept(ns', m, p) &&
            Size(ns'[p]) == Size(ns[p]) + 1 && ns'[p].parent == ns[p].parent && lv'[p] == lv[p] &&
            Elements(ns', lv', root) == Elements(ns, lv, root)
  {
    var b;
    p, b := SplitInternalFacts(ns, lv, rg, root, m, i);
    SplitInternalShape(ns, lv, rg, root, m, i);
    SplitInternalContents(ns, lv, rg, root, m, i);
    SplitInternalFanOut(ns, lv, rg, root, m, i);
  }

  // ------------------------------------------------- the split as written

  /** btree.h:41-87 exactly as written: the keys are cut at `m / 2` but the
      children at `(m + 1) / 2` (btree.h:53, 58). */
  function SplitInternalAsWritten(ns: seq<Node>, i: nat, m: nat): (ns': seq<Node>)
    requires i < |ns| && ns[i].Internal? && |ns[i].keys| > m
    requires |ns[i].children| == |ns[i].keys| + 1 && HasParent(ns, i)
    ensures |ns'| == |ns| + 1 && ns'[i].Internal? && ns'[|ns|].Internal?
    ensures ns'[i].keys + [ns[i].keys[m / 2]] + ns'[|ns|].keys == ns[i].keys
    ensures ns'[i].children + ns'[|ns|].children == ns[i].children
    ensures |ns'[i].keys| == m / 2 && |ns'[i].children| == (m + 1) / 2
  {
    var k, c, p, h, cut := ns[i].keys, ns[i].children, ns[i].parent.value, m / 2, (m + 1) / 2;
    var halves := ns[i := Internal(k[..h], c[..cut], Some(p))] + [Internal(k[h + 1..], c[cut..], Some(p))];
    Promote(Adopt(halves, c[cut..], |ns|), p, k[h], |ns|)
  }

  /** For odd `m` the split as written is the corrected one; for even `m` the
      node keeps as many children as keys and the sibling two more children
      than keys, so neither half is well formed at any level. */
  lemma AsWrittenArity(ns: seq<Node>, i: nat, m: nat)
    requires i < |ns| && ns[i].Internal? && |ns[i].keys| == m + 1
    requires |ns[i].children| == |ns[i].keys| + 1 && HasParent(ns, i)
    ensures m % 2 == 1 ==> SplitInternalAsWritten(ns, i, m) == SplitInternalNodes(ns, i, m)
    ensures m % 2 == 0 ==>
              var ns' := SplitInternalAsWritten(ns, i, m);
              ns'[i].Internal? && |ns'[i].children| == |ns'[i].keys| &&
              ns'[|ns|].Internal? && |ns'[|ns|].children| == |ns'[|ns|].keys| + 2 &&
              forall lv :: |lv| == |ns'| ==> !NodeWellFormed(ns', lv, i) && !NodeWellFormed(ns', lv, |ns|)
  {
    var p := ns[i].parent.value;
    assert p != i;
  }

  /** With `m == 0` the chain of splits never ends. A root with one key and
      two children exceeds `m`, so it gets a fresh parent and splits; the cut
      `(0 + 1) / 2 == 0` leaves it with no key and no child, the sibling takes
      both children, and the new root receives the key. The new root is again
      a root with one key and two children, so it must split in turn. */
  lemma ZeroFanOutRegrows(ns: seq<Node>, i: nat)
    requires i < |ns| && ns[i].Internal? && ns[i].parent.None?
    requires |ns[i].keys| == 1 && |ns[i].children| == 2
    requires ns[i].children[0] < |ns| && ns[i].children[1] < |ns|
    ensures var ns' := SplitInternalAsWritten(GrowRoot(ns, i), i, 0);
            var r := |ns|;
            ns'[i].Internal? && ns'[i].keys == [] && ns'[i].children == [] &&
            ns'[r].Internal? && ns'[r].parent.None? &&
            ns'[r].keys == ns[i].keys && ns'[r].children == [i, r + 1]
  {
    var g := GrowRoot(ns, i);
    var r := |ns|;
    assert g[r].children == [i] && g[r].keys == [];
    var halves := g[i := Internal([], [], Some(r))] + [Internal([], ns[i].children, Some(r))];
    assert r !in ns[i].children;
    var adopted := Adopt(halves, ns[i].children, r + 1);
    assert adopted[r] == g[r];
    assert InsertAt([], 0, ns[i].keys[0]) == ns[i].keys && InsertAt([i], 1, r + 1) == [i, r + 1];
  }

  /** The tree with `m == 2` that inserting 1, 2, ..., 7 into an empty tree
      builds: after the insertion of 7 the leaf split has given internal node 1
      its third key, and node 1, the old root, has just received the new root
      0 as its parent. */
  function ExampleNodes(): seq<Node> {
    [Internal([], [1], None), Internal([2, 4, 6], [2, 3, 4, 5], Some(0)),
     Leaf([1, 2], Some(1)), Leaf([3, 4], Some(1)), Leaf([5, 6], Some(1)), Leaf([7], Some(1))]
  }

  ghost function ExampleLevels(): seq<nat> {
    [2, 1, 0, 0, 0, 0]
  }

  ghost function ExampleRanges(): seq<Range> {
    [Range(None, None), Range(None, None), Range(None, Some(2)),
     Range(Some(2), Some(4)), Range(Some(4), Some(6)), Range(Some(6), None)]
  }

  lemma ExampleWellFormed()
    ensures WellFormed(ExampleNodes(), ExampleLevels())
  {
    var ns, lv := ExampleNodes(), ExampleLevels();
    forall i | 0 <= i < |ns| ensures NodeWellFormed(ns, lv, i) {
      if i == 1 {
        assert ns[1].children == [2, 3, 4, 5];
      }
    }
  }

  lemma ExampleLinked()
    ensures Linked(ExampleNodes(), 0)
  {
    var ns := ExampleNodes();
    forall i | 0 <= i < |ns| ensures (i != 0 ==> ns[i].parent.Some?) && NodeLinked(ns, i) {
      if i == 0 {
        assert ns[0].children == [1];
      } else if i == 1 {
        assert ns[1].children == [2, 3, 4, 5];
        assert 1 in ns[0].children;
      } else {
        assert ns[1].children[i - 2] == i;
      }
    }
  }

  lemma ExampleOrdered()
    ensures Ordered(ExampleNodes(), ExampleRanges(), 0)
  {
    var ns, rg := ExampleNodes(), ExampleRanges();
    forall i | 0 <= i < |ns| ensures NodeOrdered(ns, rg, i) {
      if i == 1 {
        var k, c := ns[1].keys, ns[1].children;
        assert k == [2, 4, 6] && c == [2, 3, 4, 5];
        forall j | 0 <= j < |c| ensures rg[c[j]] == ChildRange(k, rg[1], j) {
          assert c[j] == j + 2;
        }
      }
    }
  }

  /** The example is a state in which the split is due. */
  lemma ExampleIsReady()
    ensures SplitReady(ExampleNodes(), ExampleLevels(), ExampleRanges(), 0, 2, 1)
  {
    ExampleWellFormed();
    ExampleLinked();
    ExampleOrdered();
  }

  /** The arena after the split as written on the example: node 1 keeps key
      2 and only leaf 2; the sibling 6 takes key 6 and leaves 3, 4 and 5; the
      new root 0 gains key 4. */
  lemma ExampleAsWritten()
    ensures SplitInternalAsWritten(ExampleNodes(), 1, 2) ==
      [Internal([4], [1, 6], None), Internal([2], [2], Some(0)),
       Leaf([1, 2], Some(1)), Leaf([3, 4], Some(6)), Leaf([5, 6], Some(6)), Leaf([7], Some(6)),
       Internal([6], [3, 4, 5], Some(0))]
  {
    var ns := ExampleNodes();
    var moved := ns[1].children[1..];
    assert moved == [3, 4, 5];
    var halves := ns[1 := Internal([2], [2], Some(0))] + [Internal([6], [3, 4, 5], Some(0))];
    assert ns[1].keys[..1] == [2] && ns[1].keys[2..] == [6] && ns[1].children[..1] == [2];
    var adopted := Adopt(halves, moved, 6);
    assert adopted == [Internal([], [1], None), Internal([2], [2], Some(0)),
                       Leaf([1, 2], Some(1)), Leaf([3, 4], Some(6)), Leaf([5, 6], Some(6)), Leaf([7], Some(6)),
                       Internal([6], [3, 4, 5], Some(0))];
    assert LowerBound([], 4) == 0;
    assert InsertAt([], 0, 4) == [4] && InsertAt([1], 1, 6) == [1, 6];
    assert Promote(adopted, 0, 4, 6) == adopted[0 := Internal([4], [1, 6], None)];
  }

  /** On the example the split as written strands 3: the descent of
      btree.h:112-122 goes from the root to node 1 (3 <= 4), whose only key 2
      is below 3, so it takes the last child, leaf 2, which holds 1 and 2;
      leaf 3, which holds 3, now hangs below the sibling 6. */
  lemma AsWrittenStrandsValue()
    ensures var ns' := SplitInternalAsWritten(ExampleNodes(), 1, 2);
            ns'[0].keys == [4] && ns'[0].children == [1, 6] && LowerBound(ns'[0].keys, 3) == 0 &&
            ns'[1].keys == [2] && ns'[1].children == [2] && LowerBound(ns'[1].keys, 3) == |ns'[1].keys| &&
            ns'[2].data == [1, 2] && ns'[3].data == [3, 4] && ns'[3].parent == Some(6)
  {
    ExampleAsWritten();
  }

  /** On the example the split as written also misroutes 5: the descent goes
      from the root to the sibling 6 (5 > 4) and from there to leaf 3
      (5 <= 6), which holds 3 and 4, while 5 is in leaf 4. */
  lemma AsWrittenMisroutes()
    ensures var ns' := SplitInternalAsWritten(ExampleNodes(), 1, 2);
            ns'[0] == Internal([4], [1, 6], None) && LowerBound([4], 5) == 1 &&
            ns'[6] == Internal([6], [3, 4, 5], Some(0)) && LowerBound([6], 5) == 0 &&
            ns'[3] == Leaf([3, 4], Some(6)) && ns'[4] == Leaf([5, 6], Some(6))
  {
    ExampleAsWritten();
  }

  /** The corrected split keeps leaf 3, which holds 3, as node 1's second
      child. */
  lemma ExampleCorrected()
    ensures var ns' := SplitInternalNodes(ExampleNodes(), 1, 2);
            ns'[1].keys == [2] && ns'[1].children == [2, 3] && ns'[3].parent == Some(1)
  {
    var ns := ExampleNodes();
    assert ns[1].children[2..] == [4, 5] && 3 !in ns[1].children[2..];
  }
}
