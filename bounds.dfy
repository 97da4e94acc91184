/** The keys on either side of a query key: what `kb_intervalp`
    (kbtree.h:171-187) looks for, and the descent it makes to find them,
    stated on the pure tree. */
module KeyBounds {
  import opened Keys
  import opened TreeModel

  datatype Option<T> = None | Some(value: T)

  /** `lo` is the greatest element of `a` below `k`, or `None` when no
      element of `a` is below `k`. */
  ghost predicate GreatestBelow(a: seq<int>, k: int, lo: Option<int>) {
    && (lo.Some? ==> lo.value in a && lo.value < k)
    && (forall e :: e in a && e < k ==> lo.Some? && e <= lo.value)
  }

  /** `hi` is the least element of `a` above `k`, or `None` when no element
      of `a` is above `k`. */
  ghost predicate LeastAbove(a: seq<int>, k: int, hi: Option<int>) {
    && (hi.Some? ==> hi.value in a && k < hi.value)
    && (forall e :: e in a && k < e ==> hi.Some? && hi.value <= e)
  }

  /** The number of leading keys of `ks` below `k`. For sorted keys this is
      where a lower-bound search for `k` stops. */
  function Rank(ks: seq<int>, k: int): (j: nat)
    ensures j <= |ks|
    ensures forall l :: 0 <= l < j ==> ks[l] < k
    ensures j < |ks| ==> k <= ks[j]
  {
    if |ks| == 0 || k <= ks[0] then 0 else 1 + Rank(ks[1..], k)
  }

  /** A position with only keys below `k` before it and a key at least `k`
      at it is the rank of `k`. */
  lemma {:induction false} RankOf(ks: seq<int>, k: int, j: int)
    requires 0 <= j <= |ks|
    requires forall l :: 0 <= l < j ==> ks[l] < k
    requires j < |ks| ==> k <= ks[j]
    ensures Rank(ks, k) == j
  {
    if |ks| > 0 && j > 0 {
      RankOf(ks[1..], k, j - 1);
    }
  }

  /** The pair (`lower`, `upper`) that the interval search returns when it
      reaches the subtree `m` having already recorded `lo` and `hi`: a key
      equal to `k` twice when the search meets one; otherwise the node's
      keys on either side of `k` replace `lo` and `hi` where they exist, and
      the search goes on in the child between them, down to a leaf. */
  function Descend(m: Tree, k: int, lo: Option<int>, hi: Option<int>): (Option<int>, Option<int>)
    decreases m
  {
    var j := Rank(m.keys, k);
    if j < |m.keys| && m.keys[j] == k then (Some(k), Some(k))
    else
      var lo' := if j > 0 then Some(m.keys[j - 1]) else lo;
      var hi' := if j < |m.keys| then Some(m.keys[j]) else hi;
      if m.Leaf? || j >= |m.children| then (lo', hi')
      else Descend(m.children[j], k, lo', hi')
  }

  /** The lower bound recorded after a search among the keys `ks` that
      stopped at `i`: key `i` when there is one, `lo` otherwise. */
  function NextLo(ks: seq<int>, i: int, lo: Option<int>): Option<int>
    requires i < |ks|
  {
    if i >= 0 then Some(ks[i]) else lo
  }

  /** The upper bound recorded after a search among the keys `ks` that
      stopped at `i`: key `i + 1` when there is one, `hi` otherwise. */
  function NextHi(ks: seq<int>, i: int, hi: Option<int>): Option<int>
    requires -1 <= i
  {
    if i + 1 < |ks| then Some(ks[i + 1]) else hi
  }

  /** A search that misses the keys of `m`, with keys up to `i` below `k`
      and the rest above it, goes on in child `i + 1` with the bounds it
      recorded, or ends at a leaf with them. */
  lemma SearchStep(m: Tree, k: int, lo: Option<int>, hi: Option<int>, i: int)
    requires -1 <= i < |m.keys|
    requires forall j :: 0 <= j <= i ==> m.keys[j] < k
    requires forall j :: i < j < |m.keys| ==> k < m.keys[j]
    ensures m.Internal? && i + 1 < |m.children| ==>
              Descend(m, k, lo, hi) == Descend(m.children[i + 1], k, NextLo(m.keys, i, lo), NextHi(m.keys, i, hi))
    ensures m.Leaf? ==> Descend(m, k, lo, hi) == (NextLo(m.keys, i, lo), NextHi(m.keys, i, hi))
  {
    RankOf(m.keys, k, i + 1);
  }

  /** For a key not in a well-formed sorted tree, the descent from the root
      returns the greatest key below `k` and the least key above it. */
  lemma DescendFromRoot(m: Tree, k: int, t: int)
    requires WF(m, t, 0) && Sorted(InOrder(m)) && k !in InOrder(m)
    ensures GreatestBelow(InOrder(m), k, Descend(m, k, None, None).0)
    ensures LeastAbove(InOrder(m), k, Descend(m, k, None, None).1)
  {
    assert [] + InOrder(m) + [] == InOrder(m);
    DescendSpec(m, k, t, 0, [], []);
  }

  /** The descent through `m`, with keys `pre` before the subtree and `post`
      after it, ends on the keys of `pre + InOrder(m) + post` on either side
      of `k`. */
  lemma {:induction false} DescendSpec(m: Tree, k: int, t: int, lo: int, pre: seq<int>, post: seq<int>)
    requires WF(m, t, lo) && Sorted(pre + InOrder(m) + post)
    requires AllBelow(pre, k) && AllAbove(post, k) && k !in InOrder(m)
    ensures GreatestBelow(pre + InOrder(m) + post, k, Descend(m, k, Last(pre), First(post)).0)
    ensures LeastAbove(pre + InOrder(m) + post, k, Descend(m, k, Last(pre), First(post)).1)
    decreases m
  {
    var ks := m.keys;
    var j := Rank(ks, k);
    SortedConcat(pre + InOrder(m), post);
    SortedConcat(pre, InOrder(m));
    NodeKeysSorted(m);
    if m.Internal? && j < |ks| {
      KeyInFlatten(ks, m.children, j);
    }
    AboveRank(ks, k, j);
    if m.Leaf? {
      var a, q := pre + ks + post, |pre| + j;
      LeafCut(pre, ks, post, j, k);
      Boundary(a, q, k);
      SearchStep(m, k, Last(pre), First(post), j - 1);
    } else {
      var cs := m.children;
      var pr, po := Pre(ks, cs, j), Post(ks, cs, j);
      SplitAt(m, j, k);
      FlattenAt(ks, cs, j);
      Regroup(pre, pr, InOrder(cs[j]), po, post);
      BelowConcat(pre, pr, k);
      AboveConcat(po, post, k);
      assert k !in InOrder(cs[j]);
      var lo' := if j > 0 then Some(ks[j - 1]) else Last(pre);
      var hi' := if j < |ks| then Some(ks[j]) else First(post);
      assert |pr| > 0 <==> j > 0;
      assert |po| > 0 <==> j < |ks|;
      assert Last(pre + pr) == lo' && First(po + post) == hi';
      SearchStep(m, k, Last(pre), First(post), j - 1);
      assert pre + InOrder(m) + post == (pre + pr) + InOrder(cs[j]) + (po + post);
      DescendSpec(cs[j], k, t, t - 1, pre + pr, po + post);
    }
  }

  /** In sorted keys where the key at the rank of `k` is not `k`, every key
      from that rank on is above `k`. */
  lemma AboveRank(ks: seq<int>, k: int, j: int)
    requires Sorted(ks) && j == Rank(ks, k) && (j < |ks| ==> ks[j] != k)
    ensures forall l :: j <= l < |ks| ==> k < ks[l]
  {
    forall l | j <= l < |ks| ensures k < ks[l] {
      assert ks[j] <= ks[l];
    }
  }

  /** The element just before position `q` of `a`, if any. */
  function Below(a: seq<int>, q: int): Option<int>
    requires 0 <= q <= |a|
  {
    if q > 0 then Some(a[q - 1]) else None
  }

  /** The element at position `q` of `a`, if any. */
  function Above(a: seq<int>, q: int): Option<int>
    requires 0 <= q <= |a|
  {
    if q < |a| then Some(a[q]) else None
  }

  function Last(s: seq<int>): Option<int> {
    if |s| == 0 then None else Some(s[|s| - 1])
  }

  function First(s: seq<int>): Option<int> {
    if |s| == 0 then None else Some(s[0])
  }

  /** Every element of `s` is below `k`. */
  ghost predicate AllBelow(s: seq<int>, k: int) {
    forall j :: 0 <= j < |s| ==> s[j] < k
  }

  /** Every element of `s` is above `k`. */
  ghost predicate AllAbove(s: seq<int>, k: int) {
    forall j :: 0 <= j < |s| ==> k < s[j]
  }

  lemma BelowConcat(a: seq<int>, b: seq<int>, k: int)
    requires AllBelow(a, k) && AllBelow(b, k)
    ensures AllBelow(a + b, k)
  {
    forall j | 0 <= j < |a + b| ensures (a + b)[j] < k {
      assert (a + b)[j] == if j < |a| then a[j] else b[j - |a|];
    }
  }

  lemma AboveConcat(a: seq<int>, b: seq<int>, k: int)
    requires AllAbove(a, k) && AllAbove(b, k)
    ensures AllAbove(a + b, k)
  {
    forall j | 0 <= j < |a + b| ensures k < (a + b)[j] {
      assert (a + b)[j] == if j < |a| then a[j] else b[j - |a|];
    }
  }

  /** A sorted sequence cut at `q`, where its elements pass from below `k`
      to above `k`: the element before the cut is the greatest below `k`,
      the one after it the least above `k`, and `k` does not occur. */
  lemma Boundary(a: seq<int>, q: int, k: int)
    requires Sorted(a) && 0 <= q <= |a|
    requires q > 0 ==> a[q - 1] < k
    requires q < |a| ==> k < a[q]
    ensures GreatestBelow(a, k, Below(a, q)) && LeastAbove(a, k, Above(a, q))
    ensures k !in a
  {
    forall e | e in a ensures e != k && (e < k ==> q > 0 && e <= a[q - 1]) && (k < e ==> q < |a| && a[q] <= e) {
      var j :| 0 <= j < |a| && a[j] == e;
      if j < q {
        assert a[j] <= a[q - 1];
      } else {
        assert a[q] <= a[j];
      }
    }
  }

  /** A leaf's keys between `pre` and `post`, cut at the rank `j` of `k`. */
  lemma LeafCut(pre: seq<int>, ks: seq<int>, post: seq<int>, j: int, k: int)
    requires AllBelow(pre, k) && AllAbove(post, k) && 0 <= j <= |ks|
    requires forall l :: 0 <= l < j ==> ks[l] < k
    requires forall l :: j <= l < |ks| ==> k < ks[l]
    ensures |pre| + j > 0 ==> (pre + ks + post)[|pre| + j - 1] < k
    ensures |pre| + j < |pre + ks + post| ==> k < (pre + ks + post)[|pre| + j]
    ensures Below(pre + ks + post, |pre| + j) == if j > 0 then Some(ks[j - 1]) else Last(pre)
    ensures Above(pre + ks + post, |pre| + j) == if j < |ks| then Some(ks[j]) else First(post)
  {
    var a := pre + ks + post;
    var q := |pre| + j;
    if q > 0 {
      assert a[q - 1] == if j > 0 then ks[j - 1] else pre[|pre| - 1];
    }
    if q < |a| {
      assert a[q] == if j < |ks| then ks[j] else post[0];
    }
  }

  /** The child at the rank `j` of `k`: the keys of the subtree before it
      are below `k` and end with key `j - 1`; those after it are above `k`
      and start with key `j`; and `k` is in the subtree only if it is in
      that child. */
  lemma SplitAt(m: Tree, j: int, k: int)
    requires m.Internal? && |m.children| == |m.keys| + 1 && Sorted(InOrder(m))
    requires 0 <= j <= |m.keys| && j == Rank(m.keys, k)
    requires forall l :: j <= l < |m.keys| ==> k < m.keys[l]
    ensures AllBelow(Pre(m.keys, m.children, j), k)
    ensures AllAbove(Post(m.keys, m.children, j), k)
    ensures Last(Pre(m.keys, m.children, j)) == if j > 0 then Some(m.keys[j - 1]) else None
    ensures First(Post(m.keys, m.children, j)) == if j < |m.keys| then Some(m.keys[j]) else None
    ensures Sorted(InOrder(m.children[j]))
  {
    var ks, cs := m.keys, m.children;
    var pr, po := Pre(ks, cs, j), Post(ks, cs, j);
    ChildBounds(m, j);
    assert AllBelow(pr, k) by {
      forall l | 0 <= l < |pr| ensures pr[l] < k {
        assert pr[l] in pr;
      }
    }
    assert AllAbove(po, k) by {
      forall l | 0 <= l < |po| ensures k < po[l] {
        assert po[l] in po;
      }
    }
  }

  /** The pieces around a child regrouped with what lies outside the node. */
  lemma Regroup(pre: seq<int>, p: seq<int>, c: seq<int>, q: seq<int>, post: seq<int>)
    ensures pre + (p + c + q) + post == (pre + p) + c + (q + post)
    ensures Last(pre + p) == if |p| > 0 then Last(p) else Last(pre)
    ensures First(q + post) == if |q| > 0 then First(q) else First(post)
  {
    if |p| > 0 {
      assert (pre + p)[|pre + p| - 1] == p[|p| - 1];
    }
    if |q| > 0 {
      assert (q + post)[0] == q[0];
    }
  }
}
