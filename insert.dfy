/** Insertion (`__kb_putp_aux`, kbtree.h:211-231) in memory: the leaf step
    and the step that carries an insertion into a child up to its parent. */
module Insertion {
  import opened Keys
  import opened TreeModel
  import opened NodeStore
  import opened Descent

  /** The leaf at `x`, not full, with `k` written at a position `i` that
      brackets it: the subtree holds `k` at `i` and no other node changes. */
  lemma LeafInsert(s: Store, s': Store, x: NodeId, m: Tree, t: int, lo: int, i: int, k: int) returns (m': Tree)
    requires Rep(s, x, m) && m.Leaf? && WF(m, t, lo) && |m.keys| < 2 * t - 1
    requires 0 <= i <= |m.keys| && Brackets(m.keys, i, k)
    requires s' == s[x := Node(false, s[x].keys[..i] + [k] + s[x].keys[i..], [])]
    ensures m' == Leaf(m.keys[..i] + [k] + m.keys[i..])
    ensures Grown(s, s', x, m, m') && InsertedAt(InOrder(m), InOrder(m'), i, k)
    ensures WF(m', t, lo) && Height(m') == Height(m)
  {
    m' := Leaf(m.keys[..i] + [k] + m.keys[i..]);
  }

  /** After child `i` of `m` is split, `k` goes to the lower half when it is
      at most the median and to the upper half otherwise; either way the
      chosen child is bracketed by the parent's keys. */
  lemma SplitBrackets(m: Tree, i: int, t: int, k: int, j: int)
    requires m.Internal? && |m.children| == |m.keys| + 1 && 0 <= i < |m.children|
    requires 1 <= t && |m.children[i].keys| == 2 * t - 1
    requires m.children[i].Internal? ==> |m.children[i].children| == 2 * t
    requires Brackets(m.keys, i, k)
    requires j == if k > m.children[i].keys[t - 1] then i + 1 else i
    ensures SplitChild(m, i, t).keys[i] == m.children[i].keys[t - 1]
    ensures Brackets(SplitChild(m, i, t).keys, j, k)
    ensures |SplitChild(m, i, t).children[j].keys| == t - 1
  {
    assert SplitChild(m, i, t).children[i] == SplitLow(m.children[i], t);
    assert SplitChild(m, i, t).children[i + 1] == SplitHigh(m.children[i], t);
    var ks' := SplitChild(m, i, t).keys;
    assert ks' == m.keys[..i] + [m.children[i].keys[t - 1]] + m.keys[i..];
    if j == i + 1 && j < |ks'| {
      assert ks'[j] == m.keys[i];
    }
    if j == i && i > 0 {
      assert ks'[i - 1] == m.keys[i - 1];
    }
  }

  /** An insertion into child `i` of the internal node `x`, at a position
      the parent's keys bracket, is an insertion into the subtree at `x`;
      `m'` is the parent over the new child and `p` the position of `k` in
      its in-order sequence. */
  lemma InsertBelow(s: Store, s1: Store, s2: Store, x: NodeId, m: Tree, m1: Tree, t: int, lo: int,
                    i: int, c': Tree, q: int, k: int) returns (m': Tree, p: int)
    requires 2 <= t && Rep(s, x, m)
    requires Grown(s, s1, x, m, m1) && WF(m1, t, lo) && InOrder(m1) == InOrder(m) && Height(m1) == Height(m)
    requires m1.Internal? && 0 <= i < |m1.children| && Brackets(m1.keys, i, k)
    requires Grown(s1, s2, s1[x].children[i], m1.children[i], c')
    requires InsertedAt(InOrder(m1.children[i]), InOrder(c'), q, k)
    requires WF(c', t, t - 1) && Height(c') == Height(m1.children[i])
    ensures m' == Internal(m1.keys, m1.children[i := c'])
    ensures Grown(s, s2, x, m, m') && InsertedAt(InOrder(m), InOrder(m'), p, k)
    ensures WF(m', t, lo) && Height(m') == Height(m)
  {
    m', p := Internal(m1.keys, m1.children[i := c']), |Pre(m1.keys, m1.children, i)| + q;
    GrownBelow(s, s1, s2, x, m, m1, i, c');
    InsertIntoChild(m1, i, c', k, q);
    assert InOrder(m1) == InOrder(m);
    ReplaceChildWF(m1, i, c', t, lo);
  }

  /** A subtree grown below child `i` of `x`, after the subtree at `x` has
      grown into `m1`: the subtree at `x` has grown into `m1` with that child
      replaced. */
  lemma GrownBelow(s: Store, s1: Store, s2: Store, x: NodeId, m: Tree, m1: Tree, i: int, c': Tree)
    requires Rep(s, x, m) && Grown(s, s1, x, m, m1) && m1.Internal? && 0 <= i < |m1.children|
    requires Grown(s1, s2, s1[x].children[i], m1.children[i], c')
    ensures Grown(s, s2, x, m, Internal(m1.keys, m1.children[i := c']))
  {
    ChildIds(s1, x, m1, i);
    assert s2[x] == s1[x];
    ChildUpdate(s1, s2, x, m1, i, c', m1.keys);
    RepInStore(s, x, m);
  }

  /** The new root of `kb_putpos`: a fresh internal node with no key whose
      only child is the full old root. It represents a tree with the same
      keys that keeps the B-tree invariants, and it fills memory as the old
      root did. */
  lemma RootGrow(s: Store, s': Store, r: NodeId, m: Tree, t: int, z: NodeId)
    requires 2 <= t && Rep(s, r, m) && s.Keys == Ids(s, r, m) && WF(m, t, 0) && |m.keys| == 2 * t - 1
    requires z !in s && s' == s[z := Node(true, [], [r])]
    ensures Rep(s', z, Internal([], [m])) && s'.Keys == Ids(s', z, Internal([], [m]))
    ensures WF(Internal([], [m]), t, 0) && InOrder(Internal([], [m])) == InOrder(m)
    ensures m.Internal? ==> |m.children| == 2 * t
  {
    RepFrame(s, s', r, m);
    ChildrenOne(s', r, m);
    InternalRep(s', z, [], [r], [m]);
  }
}
