/** Keys and their order.

    The tree is instantiated here with integer keys and the reference
    three-way comparator `kb_generic_cmp`, so two keys compare equal exactly
    when they are the same integer. The in-order key sequence of a tree is
    non-decreasing (duplicates are allowed), which is what `Sorted` says.
 */
module Keys {

  /** `kb_generic_cmp(a, b)`: `((b) < (a)) - ((a) < (b))`. */
  function Cmp(a: int, b: int): (r: int)
    ensures r < 0 <==> a < b
    ensures r == 0 <==> a == b
    ensures r > 0 <==> a > b
    ensures -1 <= r <= 1
  {
    (if b < a then 1 else 0) - (if a < b then 1 else 0)
  }

  ghost predicate Sorted(s: seq<int>) {
    forall i, j :: 0 <= i < j < |s| ==> s[i] <= s[j]
  }

  /** Every element of the left part of a sorted concatenation is at most
      every element of the right part, and both parts are sorted. */
  lemma SortedConcat(a: seq<int>, b: seq<int>)
    requires Sorted(a + b)
    ensures Sorted(a) && Sorted(b)
    ensures forall x, y :: x in a && y in b ==> x <= y
  {
    forall x, y | x in a && y in b ensures x <= y {
      var i :| 0 <= i < |a| && a[i] == x;
      var j :| 0 <= j < |b| && b[j] == y;
      assert (a + b)[i] == x && (a + b)[|a| + j] == y;
    }
    forall i, j | 0 <= i < j < |b| ensures b[i] <= b[j] {
      assert (a + b)[|a| + i] == b[i] && (a + b)[|a| + j] == b[j];
    }
    forall i, j | 0 <= i < j < |a| ensures a[i] <= a[j] {
      assert (a + b)[i] == a[i] && (a + b)[j] == a[j];
    }
  }

  /** Concatenating sorted parts whose elements are in order gives a sorted sequence. */
  lemma ConcatSorted(a: seq<int>, b: seq<int>)
    requires Sorted(a) && Sorted(b)
    requires forall x, y :: x in a && y in b ==> x <= y
    ensures Sorted(a + b)
  {
    forall i, j | 0 <= i < j < |a + b| ensures (a + b)[i] <= (a + b)[j] {
      if j < |a| {
      } else if i >= |a| {
        assert (a + b)[i] == b[i - |a|] && (a + b)[j] == b[j - |a|];
      } else {
        assert (a + b)[i] in a && (a + b)[j] in b;
      }
    }
  }

  /** Removing one element keeps a sequence sorted. */
  lemma RemoveSorted(s: seq<int>, p: int)
    requires Sorted(s) && 0 <= p < |s|
    ensures Sorted(s[..p] + s[p + 1..])
  {
    var r := s[..p] + s[p + 1..];
    forall i, j | 0 <= i < j < |r| ensures r[i] <= r[j] {
      var i' := if i < p then i else i + 1;
      var j' := if j < p then j else j + 1;
      assert r[i] == s[i'] && r[j] == s[j'];
    }
  }

  /** Inserting `k` where its neighbours bracket it keeps a sequence sorted. */
  lemma InsertSorted(s: seq<int>, p: int, k: int)
    requires Sorted(s) && 0 <= p <= |s|
    requires p > 0 ==> s[p - 1] <= k
    requires p < |s| ==> k <= s[p]
    ensures Sorted(s[..p] + [k] + s[p..])
  {
    var r := s[..p] + [k] + s[p..];
    forall i, j | 0 <= i < j < |r| ensures r[i] <= r[j] {
      if j < p {
        assert r[i] == s[i] && r[j] == s[j];
      } else if i > p {
        assert r[i] == s[i - 1] && r[j] == s[j - 1];
      } else if i == p {
        assert r[j] == s[j - 1];
        assert s[p] <= s[j - 1] || j - 1 == p;
      } else if j == p {
        assert r[i] == s[i];
        assert s[i] <= s[p - 1] || i == p - 1;
      } else {
        assert r[i] == s[i] && r[j] == s[j - 1];
      }
    }
  }

  /** Position `p` of `s` is a place for `k` that keeps `s` sorted: the
      element before it is at most `k` and the one at it at least `k`. */
  ghost predicate Brackets(s: seq<int>, p: int, k: int) {
    (0 < p <= |s| ==> s[p - 1] <= k) && (0 <= p < |s| ==> k <= s[p])
  }

  /** `s'` is `s` with `k` inserted at a position `p` that brackets it. */
  ghost predicate InsertedAt(s: seq<int>, s': seq<int>, p: int, k: int) {
    0 <= p <= |s| && s' == s[..p] + [k] + s[p..] && Brackets(s, p, k)
  }

  /** An insertion at a bracketing position keeps a sorted sequence sorted
      and adds exactly one occurrence of `k`. */
  lemma InsertedSorted(s: seq<int>, s': seq<int>, p: int, k: int)
    requires Sorted(s) && InsertedAt(s, s', p, k)
    ensures Sorted(s') && |s'| == |s| + 1
    ensures multiset(s') == multiset(s) + multiset{k}
  {
    InsertSorted(s, p, k);
    assert s == s[..p] + s[p..];
  }
  /** `s'` is `s` with its element at position `p`, which is `e`, taken out. */
  ghost predicate RemovedAt(s: seq<int>, s': seq<int>, p: int, e: int) {
    0 <= p < |s| && s[p] == e && s' == s[..p] + s[p + 1..]
  }

  /** Which element a removal in mode `mode` of `__kb_delp_aux` takes out:
      one equal to `k` (mode 0), the last one (mode 1) or the first one
      (mode 2). */
  ghost predicate Chosen(s: seq<int>, p: int, e: int, k: int, mode: int) {
    (mode == 0 ==> e == k) && (mode == 1 ==> p == |s| - 1) && (mode == 2 ==> p == 0)
  }

  /** A removal keeps a sorted sequence sorted and takes out exactly one
      occurrence of the element removed. */
  lemma RemovedSorted(s: seq<int>, s': seq<int>, p: int, e: int)
    requires Sorted(s) && RemovedAt(s, s', p, e)
    ensures Sorted(s') && |s'| == |s| - 1
    ensures multiset(s') == multiset(s) - multiset{e}
  {
    RemoveSorted(s, p);
    assert s == s[..p] + [e] + s[p + 1..];
  }
}
