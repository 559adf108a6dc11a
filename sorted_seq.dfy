/** Operations on the sorted vectors that every node of the tree holds:
    the `std::lower_bound` position, positional insertion and removal,
    the linear scans of the leaf, and the copy of a vector's tail. */
module SortedSeq {

  /** Non-decreasing order: what `data.insert(lower_bound(..), d)` keeps. */
  predicate Sorted(s: seq<int>) {
    forall i, j :: 0 <= i < j < |s| ==> s[i] <= s[j]
  }

  /** Increasing order: the order of a vector whose values are distinct. */
  predicate StrictlySorted(s: seq<int>) {
    forall i, j :: 0 <= i < j < |s| ==> s[i] < s[j]
  }

  /** The set of values a vector holds. */
  ghost function Values(s: seq<int>): set<int> {
    set y | y in s
  }

  /** `std::lower_bound`: the first position whose element is not less than `x`. */
  function LowerBound(s: seq<int>, x: int): (k: nat)
    ensures k <= |s|
    ensures forall i :: 0 <= i < k ==> s[i] < x
    ensures k < |s| ==> x <= s[k]
  {
    if |s| == 0 || x <= s[0] then 0 else 1 + LowerBound(s[1..], x)
  }

  /** On a sorted vector every element from the lower bound on is at least `x`. */
  lemma {:induction false} LowerBoundSplits(s: seq<int>, x: int)
    requires Sorted(s)
    ensures forall i :: LowerBound(s, x) <= i < |s| ==> x <= s[i]
  {
    var k := LowerBound(s, x);
    forall i | k <= i < |s| ensures x <= s[i] {
      assert s[k] <= s[i];
    }
  }

  /** On a sorted vector the lower bound is the only position that separates the
      elements below `x` from those at least `x`. */
  lemma LowerBoundUnique(s: seq<int>, x: int, k: nat)
    requires Sorted(s) && k <= |s|
    requires forall i :: 0 <= i < k ==> s[i] < x
    requires k < |s| ==> x <= s[k]
    ensures k == LowerBound(s, x)
  {
  }

  /** `v.insert(v.begin() + k, x)`. */
  function InsertAt<T>(s: seq<T>, k: nat, x: T): (r: seq<T>)
    requires k <= |s|
    ensures |r| == |s| + 1 && r[k] == x
    ensures forall i :: 0 <= i < k ==> r[i] == s[i]
    ensures forall i :: k < i < |r| ==> r[i] == s[i - 1]
  {
    s[..k] + [x] + s[k..]
  }

  lemma InsertAtMultiset<T>(s: seq<T>, k: nat, x: T)
    requires k <= |s|
    ensures multiset(InsertAt(s, k, x)) == multiset(s) + multiset{x}
  {
    assert s == s[..k] + s[k..];
    assert InsertAt(s, k, x) == s[..k] + ([x] + s[k..]);
  }

  /** `v.erase(v.begin() + k)`. */
  function RemoveAt<T>(s: seq<T>, k: nat): (r: seq<T>)
    requires k < |s|
    ensures |r| == |s| - 1
    ensures forall i :: 0 <= i < k ==> r[i] == s[i]
    ensures forall i :: k <= i < |r| ==> r[i] == s[i + 1]
  {
    s[..k] + s[k + 1..]
  }

  lemma RemoveAtMultiset<T>(s: seq<T>, k: nat)
    requires k < |s|
    ensures multiset(RemoveAt(s, k)) == multiset(s) - multiset{s[k]}
  {
    assert s == s[..k] + [s[k]] + s[k + 1..];
  }

  /** Leaf insertion (btree.h:229-232): putting `x` at its lower bound keeps the
      vector sorted and adds exactly one copy of `x`. Duplicates are allowed here,
      as in the source. */
  lemma InsertAtLowerBound(s: seq<int>, x: int)
    requires Sorted(s)
    ensures Sorted(InsertAt(s, LowerBound(s, x), x))
    ensures multiset(InsertAt(s, LowerBound(s, x), x)) == multiset(s) + multiset{x}
  {
    var k := LowerBound(s, x);
    var r := InsertAt(s, k, x);
    LowerBoundSplits(s, x);
    forall i, j | 0 <= i < j < |r| ensures r[i] <= r[j] {
      if j < k {
      } else if j == k {
      } else if i < k {
        assert s[i] < x <= s[j - 1];
      } else if i == k {
      } else {
        assert s[i - 1] <= s[j - 1];
      }
    }
    InsertAtMultiset(s, k, x);
  }

  /** With distinct values, insertion at the lower bound keeps the vector
      strictly increasing and its set of values gains exactly `x`. */
  lemma InsertAtLowerBoundStrict(s: seq<int>, x: int)
    requires StrictlySorted(s) && x !in s
    ensures StrictlySorted(InsertAt(s, LowerBound(s, x), x))
    ensures Values(InsertAt(s, LowerBound(s, x), x)) == Values(s) + {x}
  {
    var k := LowerBound(s, x);
    var r := InsertAt(s, k, x);
    assert k < |s| ==> x < s[k] by {
      if k < |s| { assert s[k] in s; }
    }
    forall i, j | 0 <= i < j < |r| ensures r[i] < r[j] {
      InsertAtOrdered(s, k, x, i, j);
    }
    InsertAtValues(s, k, x);
  }

  /** One pair of positions of the vector after the insertion. */
  lemma InsertAtOrdered(s: seq<int>, k: nat, x: int, i: nat, j: nat)
    requires StrictlySorted(s) && k <= |s| && i < j <= |s|
    requires forall t :: 0 <= t < k ==> s[t] < x
    requires k < |s| ==> x < s[k]
    ensures InsertAt(s, k, x)[i] < InsertAt(s, k, x)[j]
  {
    var r := InsertAt(s, k, x);
    if j < k {
      assert r[i] == s[i] && r[j] == s[j];
    } else if j == k {
      assert r[i] == s[i] && r[j] == x;
    } else if i < k {
      assert r[i] == s[i] && r[j] == s[j - 1];
      assert s[i] < x < s[k] <= s[j - 1];
    } else if i == k {
      assert r[i] == x && r[j] == s[j - 1];
      assert x < s[k] <= s[j - 1];
    } else {
      assert r[i] == s[i - 1] && r[j] == s[j - 1];
    }
  }

  lemma InsertAtValues(s: seq<int>, k: nat, x: int)
    requires k <= |s|
    ensures Values(InsertAt(s, k, x)) == Values(s) + {x}
  {
    var r := InsertAt(s, k, x);
    forall y ensures y in r <==> y in s || y == x {
      if y in r {
        var t :| 0 <= t < |r| && r[t] == y;
        if t < k { assert s[t] == y; } else if t > k { assert s[t - 1] == y; }
      }
      if y in s {
        var t :| 0 <= t < |s| && s[t] == y;
        if t < k { assert r[t] == y; } else { assert r[t + 1] == y; }
      }
    }
  }

  /** Leaf erase (btree.h:235-245): removing the first equal element takes away
      exactly one copy of `x`. */
  lemma RemoveFirstOccurrence(s: seq<int>, x: int, k: nat)
    requires k < |s| && s[k] == x
    ensures multiset(RemoveAt(s, k)) == multiset(s) - multiset{x}
  {
    RemoveAtMultiset(s, k);
  }

  /** On a strictly increasing vector that single copy is the only one, so the
      value is gone and the order is kept. */
  lemma RemoveFromStrict(s: seq<int>, k: nat)
    requires StrictlySorted(s) && k < |s|
    ensures StrictlySorted(RemoveAt(s, k))
    ensures Values(RemoveAt(s, k)) == Values(s) - {s[k]}
  {
    var r := RemoveAt(s, k);
    forall y ensures y in r <==> y in s && y != s[k] {
      if y in r {
        var i :| 0 <= i < |r| && r[i] == y;
        if i < k { assert s[i] < s[k]; } else { assert s[k] < s[i + 1]; }
      }
      if y in s && y != s[k] {
        var i :| 0 <= i < |s| && s[i] == y;
        if i < k { assert r[i] == y; } else { assert i > k && r[i - 1] == y; }
      }
    }
  }

  /** The linear scan shared by leaf `search` and leaf `erase`
      (btree.h:237-244, 248-252): the first position holding `x`, or `|s|`. */
  method IndexOf(s: seq<int>, x: int) returns (k: nat)
    ensures k <= |s|
    ensures k < |s| ==> s[k] == x
    ensures forall i :: 0 <= i < k ==> s[i] != x
  {
    k := 0;
    while k < |s| && s[k] != x
      invariant k <= |s|
      invariant forall i :: 0 <= i < k ==> s[i] != x
    {
      k := k + 1;
    }
  }

  /** The `push_back` loop of both splits (btree.h:47-50, 195-198): a copy of
      the elements from position `from` on. */
  method CopyFrom<T>(s: seq<T>, from: nat) returns (t: seq<T>)
    requires from <= |s|
    ensures t == s[from..]
  {
    t := [];
    var i := from;
    while i < |s|
      invariant from <= i <= |s|
      invariant |t| == i - from
      invariant t == s[from..i]
    {
      t := t + [s[i]];
      i := i + 1;
    }
  }
}
