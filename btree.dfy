/** The owning `btree` (btree.h:293-368) and the in-place operations of its
    nodes: the descent of `insert`, `search` and `erase` through the internal
    nodes, the leaf updates, and the upward chain of `split` calls, each
    written as the sequence of vector updates the source performs. */
module BTrees {
  import opened SortedSeq
  import opened Arena
  import opened Routing
  import opened LeafUpdate
  import opened Split
  import opened SplitInternal

  class BTree {
    /** The node arena; `root` indexes the root node (`btree::root`). */
    var nodes: seq<Node>
    var root: nat
    /** The largest number of values or keys a node holds at rest. */
    const m: nat
    /** Proof bookkeeping: each node's height above the leaves and the
        interval of values it may hold. */
    ghost var level: seq<nat>
    ghost var range: seq<Range>

    ghost predicate Valid()
      reads this
    {
      TreeInv(nodes, level, range, root) && FanOut(nodes, m) && 1 <= m
    }

    /** The values stored in the tree. */
    ghost function Contents(): set<int>
      reads this
      requires Valid()
    {
      Elements(nodes, level, root)
    }

    /** btree.h:294: the tree starts as one empty leaf. `m == 0` is excluded:
        with it every split would leave a full parent and the chain of splits
        would grow new roots forever. */
    constructor(m: nat)
      requires 1 <= m
      ensures Valid() && Contents() == {} && this.m == m
      ensures nodes == [Leaf([], None)] && root == 0
    {
      this.m := m;
      nodes := [Leaf([], None)];
      root := 0;
      level := [0];
      range := [Range(None, None)];
    }

    /** btree.h:340-344: the old nodes are released and a fresh empty leaf
        becomes the root. */
    method Clear()
      requires Valid()
      modifies this
      ensures Valid() && Contents() == {}
      ensures nodes == [Leaf([], None)] && root == 0
    {
      nodes := [Leaf([], None)];
      root := 0;
      level := [0];
      range := [Range(None, None)];
    }

    /** The descent of `internal::insert`, `internal::search` and
        `internal::erase` (btree.h:89-104, 106-122): at each internal node take
        `children[lower_bound(keys, d)]`, or the last child when every key is
        below `d`. */
    method Descend(d: int) returns (l: nat)
      requires Valid()
      ensures l == Route(nodes, level, root, d)
    {
      l := root;
      while nodes[l].Internal?
        invariant l < |nodes| && Route(nodes, level, l, d) == Route(nodes, level, root, d)
        decreases level[l]
      {
        assert NodeWellFormed(nodes, level, l);
        var keys, children := nodes[l].keys, nodes[l].children;
        var k := LowerBound(keys, d);
        if k == |keys| {
          l := children[|children| - 1];
        } else {
          l := children[k];
        }
      }
    }

    /** `btree::search` (btree.h:364-368, 112-122, 246-253): the leaf holding
        `d`, or nothing when `d` is not in the tree. */
    method Search(d: int) returns (r: Option<nat>)
      requires Valid()
      ensures r.Some? <==> d in Contents()
      ensures r.Some? ==> r.value == Route(nodes, level, root, d) && d in nodes[r.value].data
    {
      var l := Descend(d);
      RouteFinds(nodes, level, range, root, root, d);
      var k := IndexOf(nodes[l].data, d);
      if k < |nodes[l].data| {
        r := Some(l);
      } else {
        r := None;
      }
    }

    /** `btree::erase` (btree.h:327-331, 106-110, 235-245): when `search`
        finds `d`, its first copy is removed from that leaf; otherwise the tree
        is left as it is. No node is merged or rebalanced. */
    method Erase(d: int)
      requires Valid()
      modifies this
      ensures Valid() && Contents() == old(Contents()) - {d}
      ensures d !in old(Contents()) ==> nodes == old(nodes)
      ensures root == old(root) && level == old(level) && range == old(range) && |nodes| == old(|nodes|)
      ensures forall i :: 0 <= i < |nodes| && i != Route(old(nodes), old(level), old(root), d) ==>
                nodes[i] == old(nodes[i])
    {
      var r := Search(d);
      if r.Some? {
        var l := r.value;
        var data := nodes[l].data;
        var k := IndexOf(data, d);
        assert k < |data|;
        EraseFromRoutedLeaf(nodes, level, range, root, d, k);
        nodes := WithLeafData(nodes, l, RemoveAt(data, k));
      }
    }

    /** `btree::insert` (btree.h:321-325, 89-104, 229-233): the value goes in
        at its lower bound in the leaf the descent reaches, and then the chain
        of `split` calls runs upward until a node is within `m`. */
    method Insert(d: int)
      requires Valid() && d !in Contents()
      modifies this
      ensures Valid() && Contents() == old(Contents()) + {d}
    {
      var l := Descend(d);
      var data := nodes[l].data;
      InsertIntoRoutedLeaf(nodes, level, range, root, d);
      nodes := WithLeafData(nodes, l, InsertAt(data, LowerBound(data, d), d));
      var next: Option<nat> := Some(l);
      while next.Some?
        invariant TreeInv(nodes, level, range, root) && 1 <= m
        invariant Elements(nodes, level, root) == old(Contents()) + {d}
        invariant next.Some? ==> next.value < |nodes| && FanOutExcept(nodes, m, next.value)
        invariant next.None? ==> FanOut(nodes, m)
        decreases if next.Some? && next.value < |level| && root < |level| && level[next.value] <= level[root]
                  then 2 * (level[root] - level[next.value]) + (if Size(nodes[next.value]) > m then 2 else 1)
                  else 0
      {
        assert RootOnTop(level, root);
        next := SplitNode(next.value);
      }
    }

    /** `leaf::split` / `internal::split` at node `cur` (btree.h:41-87,
        189-228): nothing happens unless `cur` holds more than `m` values;
        otherwise a root first gets a fresh parent, `cur` splits, and the
        parent, which may now hold `m + 1`, is returned for the next `split`. */
    method SplitNode(cur: nat) returns (up: Option<nat>)
      requires TreeInv(nodes, level, range, root) && 1 <= m && cur < |nodes| && FanOutExcept(nodes, m, cur)
      modifies this
      ensures TreeInv(nodes, level, range, root)
      ensures Elements(nodes, level, root) == old(Elements(nodes, level, root))
      ensures old(Size(nodes[cur])) <= m ==>
                up.None? && nodes == old(nodes) && root == old(root) && level == old(level) && range == old(range)
      ensures up.None? ==> FanOut(nodes, m)
      ensures up.Some? ==> up.value < |nodes| && FanOutExcept(nodes, m, up.value) && old(Size(nodes[cur])) > m
      ensures up.Some? && old(cur == root) ==> up.value == root && Size(nodes[root]) <= m
      ensures up.Some? && old(cur != root) ==>
                root == old(root) && |level| > cur && level[root] == old(level[root]) &&
                level[up.value] == old(level[cur]) + 1
    {
      if Size(nodes[cur]) <= m {
        return None;
      }
      if cur == root {
        GrowRootKeepsInv(nodes, level, range, root, m, cur);
        AddRoot();
      }
      var p := SplitBelowParent(cur);
      up := Some(p);
    }

    /** Splits a node that is not the root and holds `m + 1` values; its
        parent `p` gains one value and is the node to look at next. */
    method SplitBelowParent(cur: nat) returns (p: nat)
      requires TreeInv(nodes, level, range, root) && 1 <= m && cur < |nodes| && cur != root
      requires FanOutExcept(nodes, m, cur) && Size(nodes[cur]) == m + 1
      modifies this
      ensures old(nodes[cur].parent) == Some(p) && p < |nodes| && root == old(root)
      ensures TreeInv(nodes, level, range, root) && FanOutExcept(nodes, m, p)
      ensures Elements(nodes, level, root) == old(Elements(nodes, level, root))
      ensures p < old(|nodes|) && Size(nodes[p]) == old(Size(nodes[p])) + 1
      ensures |level| > cur && level[root] == old(level[root]) && level[p] == old(level[cur]) + 1
    {
      NonRootHasParent(nodes, level, range, root, cur);
      p := nodes[cur].parent.value;
      if nodes[cur].Leaf? {
        ghost var q := SplitLeafKeepsInv(nodes, level, range, root, m, cur);
        SplitLeaf(cur);
      } else {
        ghost var q := SplitInternalKeepsInv(nodes, level, range, root, m, cur);
        ghost var q', b := SplitInternalFacts(nodes, level, range, root, m, cur);
        SplitInternal(cur);
      }
    }

    /** btree.h:60-68, 201-209: a fresh internal node takes the root as its
        only child, becomes its parent and becomes `enclosing->root`. */
    method AddRoot()
      requires root < |nodes| && |level| == |nodes| && |range| == |nodes|
      modifies this
      ensures nodes == GrowRoot(old(nodes), old(root)) && root == old(|nodes|)
      ensures level == GrowLevels(old(level), old(root)) && range == GrowRanges(old(range))
    {
      ghost var ns := nodes;
      var r := |nodes|;
      nodes := nodes + [Internal([], [], None)];
      nodes := nodes[r := nodes[r].(children := nodes[r].children + [root])];
      nodes := nodes[root := nodes[root].(parent := Some(r))];
      assert forall q :: 0 <= q < |nodes| ==> nodes[q] == GrowRoot(ns, root)[q];
      level := level + [level[root] + 1];
      range := range + [Range(None, None)];
      root := r;
    }

    /** btree.h:189-228 below an existing parent, step by step: the `push_back`
        loop copies `data(m/2..]` into a new leaf, `erase` cuts the leaf back
        to `data[0..m/2]`, the middle value goes into the parent at its lower
        bound with the new leaf just after `cur` (appended when the lower bound
        is the end), and the new leaf gets its parent. */
    method SplitLeaf(cur: nat)
      requires cur < |nodes| && nodes[cur].Leaf? && |nodes[cur].data| > m && HasParent(nodes, cur)
      requires |level| == |nodes| && |range| == |nodes|
      modifies this
      ensures nodes == SplitLeafNodes(old(nodes), cur, m) && root == old(root)
      ensures level == SplitLevels(old(level), cur) && range == SplitRanges(old(range), cur, old(nodes[cur].data[m / 2]))
    {
      ghost var ns := nodes;
      var d, h := nodes[cur].data, m / 2;
      var mid := d[h];
      var s := |nodes|;
      var right := CopyFrom(d, h + 1);
      nodes := nodes + [Leaf(right, None)];
      nodes := nodes[cur := nodes[cur].(data := d[..h + 1])];
      var p := nodes[cur].parent.value;
      PromoteInto(p, mid, s);
      nodes := nodes[s := Leaf(right, Some(p))];
      level := level + [level[cur]];
      range := range[cur := Range(range[cur].lo, Some(mid))] + [Range(Some(mid), range[cur].hi)];
      assert forall q :: 0 <= q < |nodes| ==> nodes[q] == SplitLeafNodes(ns, cur, m)[q];
    }

    /** btree.h:41-87 below an existing parent, step by step, with the
        children cut at `m / 2 + 1` (see `SplitInternalAsWritten` for the cut
        the source makes): a new internal node receives `keys(m/2..]` by the
        `push_back` loop, the node's keys are cut back to `keys[0..m/2)`, the
        children from `m / 2 + 1` on are handed to the new node one by one with
        their parent set to it, and the middle key goes into the parent. */
    method SplitInternal(cur: nat)
      requires cur < |nodes| && nodes[cur].Internal? && |nodes[cur].keys| > m && HasParent(nodes, cur)
      requires |nodes[cur].children| == |nodes[cur].keys| + 1 && |level| == |nodes| && |range| == |nodes|
      requires forall j :: 0 <= j < |nodes[cur].children| ==> nodes[cur].children[j] < |nodes| && nodes[cur].children[j] != cur
      modifies this
      ensures nodes == SplitInternalNodes(old(nodes), cur, m) && root == old(root)
      ensures level == SplitLevels(old(level), cur) && range == SplitRanges(old(range), cur, old(nodes[cur].keys[m / 2]))
    {
      ghost var ns := nodes;
      var mid := nodes[cur].keys[m / 2];
      var p := nodes[cur].parent.value;
      var s := MoveRightHalf(cur);
      PromoteInto(p, mid, s);
      nodes := nodes[s := Internal(nodes[s].keys, nodes[s].children, Some(p))];
      level := level + [level[cur]];
      range := range[cur := Range(range[cur].lo, Some(mid))] + [Range(Some(mid), range[cur].hi)];
      SplitInternalMatches(ns, cur, m, nodes);
    }

    /** btree.h:44-58: a new node `s` at the end of the arena takes the keys
        after position `m / 2` and the children after position `m / 2`, which
        it adopts; node `cur` keeps the rest except the middle key. The new
        node has no parent yet. */
    method MoveRightHalf(cur: nat) returns (s: nat)
      requires cur < |nodes| && nodes[cur].Internal? && |nodes[cur].keys| > m
      requires |nodes[cur].children| == |nodes[cur].keys| + 1
      requires forall j :: 0 <= j < |nodes[cur].children| ==> nodes[cur].children[j] < |nodes| && nodes[cur].children[j] != cur
      modifies this
      ensures s == old(|nodes|) && |nodes| == s + 1
      ensures var k, c, h := old(nodes[cur].keys), old(nodes[cur].children), m / 2;
              nodes[cur] == Internal(k[..h], c[..h + 1], old(nodes[cur].parent)) &&
              nodes[s] == Internal(k[h + 1..], c[h + 1..], None) &&
              forall q :: 0 <= q < s && q != cur ==>
                nodes[q] == if q in c[h + 1..] then old(nodes[q]).(parent := Some(s)) else old(nodes[q])
      ensures root == old(root) && level == old(level) && range == old(range)
    {
      var k, c, h := nodes[cur].keys, nodes[cur].children, m / 2;
      s := |nodes|;
      nodes := nodes + [Internal([], [], None)];
      var rightKeys := CopyFrom(k, h + 1);
      var rightChildren := AdoptChildren(c, h + 1, s);
      nodes := nodes[cur := Internal(k[..h], c[..h + 1], nodes[cur].parent)];
      nodes := nodes[s := Internal(rightKeys, rightChildren, None)];
    }

    /** btree.h:70-81, 211-222: the promoted key goes in at its lower bound
        in the parent's keys and the new node just after it in the children;
        when the lower bound is the end both are appended. */
    method PromoteInto(p: nat, mid: int, s: nat)
      requires p < |nodes| && nodes[p].Internal? && |nodes[p].children| == |nodes[p].keys| + 1
      modifies this
      ensures nodes == Promote(old(nodes), p, mid, s)
      ensures root == old(root) && level == old(level) && range == old(range)
    {
      var keys, children := nodes[p].keys, nodes[p].children;
      var b := LowerBound(keys, mid);
      if b == |keys| {
        assert children + [s] == InsertAt(children, b + 1, s) && keys + [mid] == InsertAt(keys, b, mid);
        children := children + [s];
        keys := keys + [mid];
      } else {
        children := InsertAt(children, b + 1, s);
        keys := InsertAt(keys, b, mid);
      }
      nodes := nodes[p := Internal(keys, children, nodes[p].parent)];
    }

    /** The `set_parent` and `push_back` loop of btree.h:53-57: the children
        from position `from` on are handed one by one to node `s`, which
        becomes their parent; the list handed over is returned. */
    method AdoptChildren(c: seq<nat>, from: nat, s: nat) returns (moved: seq<nat>)
      requires from <= |c| && forall j :: 0 <= j < |c| ==> c[j] < |nodes|
      modifies this
      ensures moved == c[from..] && |nodes| == old(|nodes|)
      ensures forall q :: 0 <= q < |nodes| ==>
                nodes[q] == if q in c[from..] then old(nodes[q]).(parent := Some(s)) else old(nodes[q])
      ensures root == old(root) && level == old(level) && range == old(range)
    {
      moved := [];
      var j := from;
      while j < |c|
        invariant from <= j <= |c| && |nodes| == old(|nodes|) && moved == c[from..j]
        invariant root == old(root) && level == old(level) && range == old(range)
        invariant forall q :: 0 <= q < |nodes| ==>
                    nodes[q] == if q in c[from..j] then old(nodes[q]).(parent := Some(s)) else old(nodes[q])
      {
        nodes := nodes[c[j] := nodes[c[j]].(parent := Some(s))];
        moved := moved + [c[j]];
        j := j + 1;
      }
    }
  }

  /** Two nodes with the same shape and the same parent are the same node. */
  lemma SameShapeSameParent(a: Node, b: Node)
    requires SameShape(a, b) && a.parent == b.parent
    ensures a == b
  {
  }

  /** The arena the step-by-step internal split builds, described node by
      node, is the one `SplitInternalNodes` describes. */
  lemma SplitInternalMatches(ns: seq<Node>, i: nat, m: nat, result: seq<Node>)
    requires i < |ns| && ns[i].Internal? && |ns[i].keys| > m
    requires |ns[i].children| == |ns[i].keys| + 1 && HasParent(ns, i)
    requires forall j :: 0 <= j < |ns[i].children| ==> ns[i].children[j] < |ns| && ns[i].children[j] != i
    requires var k, c, h := ns[i].keys, ns[i].children, m / 2;
             var p := ns[i].parent.value;
             var moved := c[h + 1..];
             |result| == |ns| + 1 &&
             result[i] == Internal(k[..h], c[..h + 1], Some(p)) &&
             result[|ns|] == Internal(k[h + 1..], moved, Some(p)) &&
             result[p] == Internal(InsertAt(ns[p].keys, LowerBound(ns[p].keys, k[h]), k[h]),
                                   InsertAt(ns[p].children, LowerBound(ns[p].keys, k[h]) + 1, |ns|),
                                   if p in moved then Some(|ns|) else ns[p].parent) &&
             forall q :: 0 <= q < |ns| && q != i && q != p ==>
               result[q] == if q in moved then ns[q].(parent := Some(|ns|)) else ns[q]
    ensures result == SplitInternalNodes(ns, i, m)
  {
    var ns' := SplitInternalNodes(ns, i, m);
    var c, h := ns[i].children, m / 2;
    assert i !in c[h + 1..];
    forall q | 0 <= q < |ns'| ensures result[q] == ns'[q] {
      if q < |ns| && q != i {
        SameShapeSameParent(result[q], ns'[q]);
      }
    }
  }
}
