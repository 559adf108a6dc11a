/** Changing the values of the one leaf that routing reaches for `d`, as leaf
    `insert` and leaf `erase` do (btree.h:229-245): the tree stays a search
    tree, and the contents change in `d` only. */
module LeafUpdate {
  import opened SortedSeq
  import opened Arena
  import opened Routing

  /** The arena after leaf `l` is given the values `nd`. */
  function WithLeafData(ns: seq<Node>, l: nat, nd: seq<int>): (ns': seq<Node>)
    requires l < |ns| && ns[l].Leaf?
    ensures |ns'| == |ns| && ns'[l].Leaf? && ns'[l].data == nd
    ensures ns'[l].parent == ns[l].parent
    ensures forall i :: 0 <= i < |ns| && i != l ==> ns'[i] == ns[i]
  {
    ns[l := Leaf(nd, ns[l].parent)]
  }

  /** The leaf's new values must still be increasing and inside its range. */
  lemma LeafUpdateKeepsInv(ns: seq<Node>, lv: seq<nat>, rg: seq<Range>, root: nat, l: nat, nd: seq<int>)
    requires TreeInv(ns, lv, rg, root) && l < |ns| && ns[l].Leaf?
    requires StrictlySorted(nd) && forall x :: x in nd ==> InRange(x, rg[l])
    ensures TreeInv(WithLeafData(ns, l, nd), lv, rg, root)
  {
    var ns' := WithLeafData(ns, l, nd);
    forall i | 0 <= i < |ns'|
      ensures NodeWellFormed(ns', lv, i) && NodeLinked(ns', i) && NodeOrdered(ns', rg, i)
      ensures i != root ==> ns'[i].parent.Some?
    {
      assert NodeWellFormed(ns, lv, i) && NodeLinked(ns, i) && NodeOrdered(ns, rg, i);
    }
  }

  /** Below every node the contents change in `d` only: a node from which
      routing reaches `l` sees the leaf's new verdict on `d`; any other node
      keeps its contents. */
  lemma {:induction false} LeafUpdateElements(ns: seq<Node>, lv: seq<nat>, rg: seq<Range>, root: nat,
                                              l: nat, nd: seq<int>, d: int, c: nat)
    requires TreeInv(ns, lv, rg, root) && l < |ns| && ns[l].Leaf? && c < |ns|
    requires InRange(d, rg[l])
    requires Values(nd) - {d} == Values(ns[l].data) - {d}
    requires WellFormed(WithLeafData(ns, l, nd), lv)
    ensures Route(ns, lv, c, d) == l ==>
      Elements(WithLeafData(ns, l, nd), lv, c) - {d} == Elements(ns, lv, c) - {d} &&
      (d in Elements(WithLeafData(ns, l, nd), lv, c) <==> d in nd)
    ensures Route(ns, lv, c, d) != l ==>
      Elements(WithLeafData(ns, l, nd), lv, c) == Elements(ns, lv, c)
    decreases lv[c]
  {
    var ns' := WithLeafData(ns, l, nd);
    assert NodeWellFormed(ns, lv, c) && NodeOrdered(ns, rg, c);
    match ns[c]
    case Leaf(_, _) =>
    case Internal(k, ch, _) =>
      var b := LowerBound(k, d);
      forall j | 0 <= j < |ch|
        ensures j != b ==> Route(ns, lv, ch[j], d) != l
        ensures j != b ==> d !in Elements(ns, lv, ch[j])
        ensures Route(ns, lv, ch[j], d) == l ==>
          Elements(ns', lv, ch[j]) - {d} == Elements(ns, lv, ch[j]) - {d} &&
          (d in Elements(ns', lv, ch[j]) <==> d in nd)
        ensures Route(ns, lv, ch[j], d) != l ==> Elements(ns', lv, ch[j]) == Elements(ns, lv, ch[j])
      {
        LeafUpdateElements(ns, lv, rg, root, l, nd, d, ch[j]);
        if Route(ns, lv, ch[j], d) == l {
          RouteWithin(ns, lv, rg, root, ch[j], d, d);
          ChildIndexUnique(k, rg[c], j, d);
        }
        if d in Elements(ns, lv, ch[j]) {
          ElementsInRange(ns, lv, rg, root, ch[j], d);
          ChildIndexUnique(k, rg[c], j, d);
        }
      }
      assert ns'[c] == ns[c];
      CombineChildren(ns, ns', lv, c, b, d, Route(ns, lv, c, d) == l, nd);
  }

  /** Gathers what the children of `c` say into what `c` says: `hit` tells
      whether child `b` (the routing child) is the one whose verdict on `d`
      changed. */
  lemma CombineChildren(ns: seq<Node>, ns': seq<Node>, lv: seq<nat>, c: nat, b: nat, d: int, hit: bool, nd: seq<int>)
    requires WellFormed(ns, lv) && WellFormed(ns', lv) && c < |ns| == |ns'|
    requires ns[c].Internal? && ns'[c] == ns[c] && b < |ns[c].children|
    requires forall j :: 0 <= j < |ns[c].children| ==> ns[c].children[j] < |ns|
    requires forall j :: 0 <= j < |ns[c].children| && j != b ==>
      d !in Elements(ns, lv, ns[c].children[j]) &&
      Elements(ns', lv, ns[c].children[j]) == Elements(ns, lv, ns[c].children[j])
    requires hit ==>
      Elements(ns', lv, ns[c].children[b]) - {d} == Elements(ns, lv, ns[c].children[b]) - {d} &&
      (d in Elements(ns', lv, ns[c].children[b]) <==> d in nd)
    requires !hit ==> Elements(ns', lv, ns[c].children[b]) == Elements(ns, lv, ns[c].children[b])
    ensures hit ==>
      Elements(ns', lv, c) - {d} == Elements(ns, lv, c) - {d} && (d in Elements(ns', lv, c) <==> d in nd)
    ensures !hit ==> Elements(ns', lv, c) == Elements(ns, lv, c)
  {
    var ch := ns[c].children;
    var e, e' := Elements(ns, lv, c), Elements(ns', lv, c);
    forall x | x != d || !hit ensures x in e' <==> x in e {
      ElementsOfInternal(ns, lv, c, x);
      ElementsOfInternal(ns', lv, c, x);
      if x in e' {
        var j :| 0 <= j < |ch| && x in Elements(ns', lv, ch[j]);
        if j == b && hit { assert x in Elements(ns', lv, ch[b]) - {d}; }
        assert x in Elements(ns, lv, ch[j]);
      }
      if x in e {
        var j :| 0 <= j < |ch| && x in Elements(ns, lv, ch[j]);
        if j == b && hit { assert x in Elements(ns, lv, ch[b]) - {d}; }
        assert x in Elements(ns', lv, ch[j]);
      }
    }
    if hit {
      ElementsOfInternal(ns, lv, c, d);
      ElementsOfInternal(ns', lv, c, d);
    }
  }

  /** Leaf insertion reached from the root (btree.h:229-232, 321-325): with `d`
      not yet in the tree, the tree stays a search tree and its contents gain
      exactly `d`. */
  lemma InsertIntoRoutedLeaf(ns: seq<Node>, lv: seq<nat>, rg: seq<Range>, root: nat, d: int)
    requires TreeInv(ns, lv, rg, root) && d !in Elements(ns, lv, root)
    ensures var l := Route(ns, lv, root, d);
            var nd := InsertAt(ns[l].data, LowerBound(ns[l].data, d), d);
            TreeInv(WithLeafData(ns, l, nd), lv, rg, root) &&
            Elements(WithLeafData(ns, l, nd), lv, root) == Elements(ns, lv, root) + {d}
  {
    var l := Route(ns, lv, root, d);
    var od := ns[l].data;
    var nd := InsertAt(od, LowerBound(od, d), d);
    RouteFinds(ns, lv, rg, root, root, d);
    RouteKeepsRange(ns, lv, rg, root, root, d);
    assert NodeOrdered(ns, rg, l);
    InsertAtLowerBoundStrict(od, d);
    forall x | x in nd ensures InRange(x, rg[l]) {
      assert x in Values(nd);
    }
    LeafUpdateKeepsInv(ns, lv, rg, root, l, nd);
    LeafUpdateElements(ns, lv, rg, root, l, nd, d, root);
    var e, e' := Elements(ns, lv, root), Elements(WithLeafData(ns, l, nd), lv, root);
    assert e' - {d} == e - {d} == e && d in e';
    assert e' == (e' - {d}) + {d};
  }

  /** Leaf erase reached from the root (btree.h:106-110, 235-245, 327-331):
      removing the first copy of `d` from the routed leaf leaves a search tree
      whose contents lose exactly `d`. */
  lemma EraseFromRoutedLeaf(ns: seq<Node>, lv: seq<nat>, rg: seq<Range>, root: nat, d: int, k: nat)
    requires TreeInv(ns, lv, rg, root)
    requires k < |ns[Route(ns, lv, root, d)].data| && ns[Route(ns, lv, root, d)].data[k] == d
    ensures var l := Route(ns, lv, root, d);
            var nd := RemoveAt(ns[l].data, k);
            TreeInv(WithLeafData(ns, l, nd), lv, rg, root) &&
            Elements(WithLeafData(ns, l, nd), lv, root) == Elements(ns, lv, root) - {d}
  {
    var l := Route(ns, lv, root, d);
    var od := ns[l].data;
    var nd := RemoveAt(od, k);
    RouteKeepsRange(ns, lv, rg, root, root, d);
    assert NodeOrdered(ns, rg, l);
    RemoveFromStrict(od, k);
    forall x | x in nd ensures InRange(x, rg[l]) {
      assert x in Values(nd);
    }
    LeafUpdateKeepsInv(ns, lv, rg, root, l, nd);
    LeafUpdateElements(ns, lv, rg, root, l, nd, d, root);
    var e, e' := Elements(ns, lv, root), Elements(WithLeafData(ns, l, nd), lv, root);
    assert e' - {d} == e - {d} && d !in e';
    assert e' == e' - {d};
  }
}
