/** Searching one node (`__kb_getp_aux`, kbtree.h:130-143) and what a
    search result says about the subtree below the node. */
module NodeSearch {
  import opened Keys
  import opened TreeModel

  /** Lower-bound binary search for `k` among the sorted keys `ks` of one
      node. On an empty node the result is -1 and `r` keeps the caller's
      value `r0`. Otherwise `r` is 0 when `ks[i]` is the leftmost key equal
      to `k`; -1 when `k` falls strictly between `ks[i]` and `ks[i + 1]` (or
      before `ks[0]`, with `i == -1`); and 1 when every key is below `k`, with
      `i == |ks| - 1`. */
  method GetAux(ks: seq<int>, k: int, r0: int) returns (i: int, r: int)
    requires Sorted(ks)
    ensures |ks| == 0 ==> i == -1 && r == r0
    ensures |ks| > 0 ==> -1 <= i < |ks| && -1 <= r <= 1
    ensures |ks| > 0 && r == 0 ==> 0 <= i && ks[i] == k && forall j :: 0 <= j < i ==> ks[j] < k
    ensures |ks| > 0 && r != 0 ==>
              (forall j :: 0 <= j <= i ==> ks[j] < k) && (forall j :: i < j < |ks| ==> k < ks[j])
    ensures |ks| > 0 ==> (r == 1 <==> forall j :: 0 <= j < |ks| ==> ks[j] < k)
  {
    if |ks| == 0 {
      return -1, r0;
    }
    var begin, end := 0, |ks|;
    while begin < end
      invariant 0 <= begin <= end <= |ks|
      invariant forall j :: 0 <= j < begin ==> ks[j] < k
      invariant forall j :: end <= j < |ks| ==> k <= ks[j]
    {
      var mid := (begin + end) / 2;
      if Cmp(ks[mid], k) < 0 {
        begin := mid + 1;
      } else {
        end := mid;
      }
    }
    if begin == |ks| {
      return |ks| - 1, 1;
    }
    i, r := begin, Cmp(k, ks[begin]);
    if r < 0 {
      i := i - 1;
    }
  }

  /** A search that misses the keys of an internal node sends `k` to child
      `i + 1`: `k` is in the subtree exactly when it is in that child. */
  lemma DescendSearch(m: Tree, i: int, k: int)
    requires m.Internal? && |m.children| == |m.keys| + 1 && Sorted(InOrder(m))
    requires -1 <= i < |m.keys|
    requires forall j :: 0 <= j <= i ==> m.keys[j] < k
    requires forall j :: i < j < |m.keys| ==> k < m.keys[j]
    ensures Sorted(InOrder(m.children[i + 1]))
    ensures k in InOrder(m) <==> k in InOrder(m.children[i + 1])
  {
    var ks, cs := m.keys, m.children;
    ChildBounds(m, i + 1);
    FlattenAt(ks, cs, i + 1);
    if i >= 0 {
      assert k !in Pre(ks, cs, i + 1);
    }
    if i + 1 < |ks| {
      assert k !in Post(ks, cs, i + 1);
    }
  }

  /** The search result `i` of `__kb_getp_aux` on the keys `ks`, plus one, is
      a position that brackets `k`. */
  lemma SearchBrackets(ks: seq<int>, k: int, i: int, r: int)
    requires Sorted(ks) && -1 <= i < |ks|
    requires |ks| > 0 && r == 0 ==> 0 <= i && ks[i] == k
    requires |ks| > 0 && r != 0 ==>
               (forall j :: 0 <= j <= i ==> ks[j] < k) && (forall j :: i < j < |ks| ==> k < ks[j])
    ensures Brackets(ks, i + 1, k)
  {
    if |ks| > 0 && r == 0 && i + 1 < |ks| {
      assert ks[i] <= ks[i + 1];
    }
  }

  /** The slot `__kb_putp_aux` writes `k` into, or descends below: one past
      the search result. Every key before it is at most `k` and every key
      from it on is at least `k`. */
  method InsertPos(ks: seq<int>, k: int) returns (i: int)
    requires Sorted(ks)
    ensures 0 <= i <= |ks| && Brackets(ks, i, k)
  {
    var r;
    i, r := GetAux(ks, k, 0);
    SearchBrackets(ks, k, i, r);
    i := i + 1;
  }
}
