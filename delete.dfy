/** Deletion (`__kb_delp_aux`, kbtree.h:259-338) in memory: the node writes
    of the leaf step, of the two borrows and of the merge, and the steps
    that carry a removal from a child up to its parent. */
module Deletion {
  import opened Keys
  import opened TreeModel
  import opened NodeStore
  import opened Restructure
  import opened Descent

  /** What the B-tree invariants say about the children of the internal
      node `x`: each is in memory with the shape of its tree, holds at least
      `t - 1` keys, is of the same kind as the others and, when internal,
      has one child more than keys. */
  lemma ChildNodes(s: Store, x: NodeId, m: Tree, t: int, lo: int)
    requires Rep(s, x, m) && WF(m, t, lo) && m.Internal?
    ensures |s[x].children| == |m.children| == |m.keys| + 1
    ensures forall j :: 0 <= j < |m.children| ==>
              && NodeShape(s, s[x].children[j], m.children[j]) && t - 1 <= |m.children[j].keys|
              && m.children[j].Internal? == m.children[0].Internal?
              && (m.children[j].Internal? ==> |m.children[j].children| == |m.children[j].keys| + 1)
  {
    forall j | 0 <= j < |m.children|
      ensures NodeShape(s, s[x].children[j], m.children[j]) && t - 1 <= |m.children[j].keys|
      ensures m.children[j].Internal? == m.children[0].Internal?
      ensures m.children[j].Internal? ==> |m.children[j].children| == |m.children[j].keys| + 1
    {
      ChildRep(s, x, m, j);
      assert WF(m.children[j], t, t - 1) && Height(m.children[j]) == Height(m.children[0]);
    }
  }

  /** The key counts of the children of the internal node `x`, as the
      B-tree invariants give them: at least `t - 1` each. */
  lemma ChildKeys(s: Store, x: NodeId, m: Tree, t: int, lo: int)
    requires Rep(s, x, m) && WF(m, t, lo) && m.Internal?
    ensures |s[x].children| == |m.children| == |m.keys| + 1
    ensures forall j :: 0 <= j < |m.children| ==>
              s[x].children[j] in s && |s[s[x].children[j]].keys| == |m.children[j].keys| >= t - 1
  {
    ChildNodes(s, x, m, t, lo);
  }

  /** The leaf step: key `i` of the leaf `x` taken out, the later keys
      moving down one place. The subtree loses exactly that key. */
  lemma LeafDelete(s: Store, s': Store, x: NodeId, m: Tree, t: int, lo: int, i: int) returns (m': Tree)
    requires Rep(s, x, m) && m.Leaf? && WF(m, t, lo) && 0 <= i < |m.keys|
    requires s' == s[x := Node(false, s[x].keys[..i] + s[x].keys[i + 1..], [])]
    ensures m' == Leaf(m.keys[..i] + m.keys[i + 1..])
    ensures Shrunk(s, s', x, m, m') && RemovedAt(InOrder(m), InOrder(m'), i, m.keys[i])
    ensures WF(m', t, lo - 1) && Height(m') == Height(m)
  {
    m' := Leaf(m.keys[..i] + m.keys[i + 1..]);
    assert s.Keys - s'.Keys == {};
  }

  // ----- Borrowing from the left sibling (kbtree.h:302-308) -----

  /** The shape the borrow from the left expects: child `i - 1` of the
      internal node `x` has a key to give and, when internal, one child more
      than keys. */
  ghost predicate BorrowLeftFits(s: Store, x: NodeId, i: int) {
    && x in s && 0 < i <= |s[x].keys| && |s[x].children| == |s[x].keys| + 1
    && s[x].children[i - 1] in s && s[x].children[i] in s
    && |s[s[x].children[i - 1]].keys| >= 1
    && (s[s[x].children[i - 1]].isInternal ==>
          |s[s[x].children[i - 1]].children| == |s[s[x].children[i - 1]].keys| + 1)
  }

  /** The node writes of the borrow from the left: child `i` shifts its keys
      (and children) up one place and takes key `i - 1` of `x` in front (and
      the last child of child `i - 1`); key `i - 1` of `x` becomes the last
      key of child `i - 1`, which loses it and its last child. */
  function BorrowLeftNodes(s: Store, x: NodeId, i: int): (s': Store)
    requires BorrowLeftFits(s, x, i)
    ensures s'.Keys == s.Keys
  {
    var xn := s[x];
    var y, xp := xn.children[i - 1], xn.children[i];
    var yn := s[y];
    s[y := DropLastNode(yn)][xp := PushFrontNode(xn.keys[i - 1], LastChildId(yn), s[xp])]
     [x := Node(true, xn.keys[..i - 1] + [yn.keys[|yn.keys| - 1]] + xn.keys[i..], xn.children)]
  }

  /** The borrow from the left in memory: the subtree at `x` represents
      `RotateRight(m, i)` on the same nodes. */
  lemma BorrowLeftStore(s: Store, s': Store, x: NodeId, m: Tree, t: int, lo: int, i: int)
    requires 2 <= t && Rep(s, x, m) && WF(m, t, lo) && m.Internal? && 0 < i <= |m.keys|
    requires |m.children[i - 1].keys| >= t && m.children[i - 1].Internal? == m.children[i].Internal?
    requires m.children[i - 1].Internal? ==> |m.children[i - 1].children| == |m.children[i - 1].keys| + 1
    requires BorrowLeftFits(s, x, i) && s' == BorrowLeftNodes(s, x, i)
    ensures Shrunk(s, s', x, m, RotateRight(m, i)) && s'.Keys == s.Keys
  {
    var cids := s[x].children;
    PairIds(s, x, m, i - 1);
    ChildIds(s, x, m, i - 1);
    ChildIds(s, x, m, i);
    var y, xp := cids[i - 1], cids[i];
    assert y in Ids(s, y, m.children[i - 1]) && xp in Ids(s, xp, m.children[i]);
    assert x != y && x != xp && y != xp;
    assert s'[y] == DropLastNode(s[y]);
    assert s'[xp] == PushFrontNode(m.keys[i - 1], LastChildId(s[y]), s[xp]);
    assert s'[x] == Node(true, s[x].keys[..i - 1] + [s[y].keys[|s[y].keys| - 1]] + s[x].keys[i..], s[x].children);
    assert Outside(s, s', {x, y, xp});
    RotateRightRep(s, s', x, m, i);
    assert {x, y, xp} <= Ids(s, x, m);
    OutsideWiden(s, s', {x, y, xp}, Ids(s, x, m));
    ShrunkKeep(s, s', x, m, RotateRight(m, i));
  }

  // ----- Borrowing from the right sibling (kbtree.h:309-315) -----

  /** The shape the borrow from the right expects: child `i + 1` of the
      internal node `x` has a key to give and, when internal, a child. */
  ghost predicate BorrowRightFits(s: Store, x: NodeId, i: int) {
    && x in s && 0 <= i < |s[x].keys| && |s[x].children| == |s[x].keys| + 1
    && s[x].children[i] in s && s[x].children[i + 1] in s
    && |s[s[x].children[i + 1]].keys| >= 1
    && (s[s[x].children[i + 1]].isInternal ==> |s[s[x].children[i + 1]].children| >= 1)
  }

  /** The node writes of the borrow from the right: child `i` takes key `i`
      of `x` at its end (and the first child of child `i + 1`); key `i` of
      `x` becomes the first key of child `i + 1`, which loses it and its
      first child, shifting the rest down one place. */
  function BorrowRightNodes(s: Store, x: NodeId, i: int): (s': Store)
    requires BorrowRightFits(s, x, i)
    ensures s'.Keys == s.Keys
  {
    var xn := s[x];
    var xp, y := xn.children[i], xn.children[i + 1];
    var yn := s[y];
    s[xp := PushBackNode(s[xp], xn.keys[i], FirstChildId(yn))][y := DropFirstNode(yn)]
     [x := Node(true, xn.keys[..i] + [yn.keys[0]] + xn.keys[i + 1..], xn.children)]
  }

  /** The borrow from the right in memory: the subtree at `x` represents
      `RotateLeft(m, i)` on the same nodes. */
  lemma BorrowRightStore(s: Store, s': Store, x: NodeId, m: Tree, t: int, lo: int, i: int)
    requires 2 <= t && Rep(s, x, m) && WF(m, t, lo) && m.Internal? && 0 <= i < |m.keys|
    requires |m.children[i + 1].keys| >= t && m.children[i].Internal? == m.children[i + 1].Internal?
    requires m.children[i + 1].Internal? ==> |m.children[i + 1].children| >= 1
    requires BorrowRightFits(s, x, i) && s' == BorrowRightNodes(s, x, i)
    ensures Shrunk(s, s', x, m, RotateLeft(m, i)) && s'.Keys == s.Keys
  {
    var cids := s[x].children;
    PairIds(s, x, m, i);
    ChildIds(s, x, m, i);
    ChildIds(s, x, m, i + 1);
    var xp, y := cids[i], cids[i + 1];
    assert xp in Ids(s, xp, m.children[i]) && y in Ids(s, y, m.children[i + 1]);
    assert x != y && x != xp && y != xp;
    assert s'[xp] == PushBackNode(s[xp], m.keys[i], FirstChildId(s[y]));
    assert s'[y] == DropFirstNode(s[y]);
    assert s'[x] == Node(true, s[x].keys[..i] + [s[y].keys[0]] + s[x].keys[i + 1..], s[x].children);
    assert Outside(s, s', {x, xp, y});
    RotateLeftRep(s, s', x, m, i);
    assert {x, xp, y} <= Ids(s, x, m);
    OutsideWiden(s, s', {x, xp, y}, Ids(s, x, m));
    ShrunkKeep(s, s', x, m, RotateLeft(m, i));
  }

  // ----- Merging two children (kbtree.h:287-297, 316-325, 326-335) -----

  /** The shape a merge of children `a` and `a + 1` of `x` expects. */
  ghost predicate MergeFits(s: Store, x: NodeId, a: int) {
    && x in s && 0 <= a < |s[x].keys| && |s[x].children| == |s[x].keys| + 1
    && s[x].children[a] in s && s[x].children[a + 1] in s
  }

  /** The node writes of a merge: child `a` takes `sep` and then the keys
      (and children) of child `a + 1`; `x` loses key `a` and child `a + 1`,
      shifting the rest down one place; child `a + 1` is freed. */
  function MergeNodes(s: Store, x: NodeId, a: int, sep: int): (s': Store)
    requires MergeFits(s, x, a)
    ensures s'.Keys == s.Keys - {s[x].children[a + 1]}
  {
    var xn := s[x];
    var y, z := xn.children[a], xn.children[a + 1];
    (s[y := MergedNode(s[y], sep, s[z])]
      [x := Node(true, xn.keys[..a] + xn.keys[a + 1..], xn.children[..a + 1] + xn.children[a + 2..])]) - {z}
  }

  /** A merge in memory, with `sep` the key `a` of `x`: the subtree at `x`
      represents `MergeChildren(m, a)` and has lost exactly the node of
      child `a + 1`. */
  lemma MergeStore(s: Store, s': Store, x: NodeId, m: Tree, t: int, lo: int, a: int, sep: int)
    requires Rep(s, x, m) && WF(m, t, lo) && m.Internal? && 0 <= a < |m.keys| && sep == m.keys[a]
    requires m.children[a].Internal? == m.children[a + 1].Internal?
    requires MergeFits(s, x, a) && s' == MergeNodes(s, x, a, sep)
    ensures Shrunk(s, s', x, m, MergeChildren(m, a))
  {
    var cids := s[x].children;
    var y, z := cids[a], cids[a + 1];
    PairIds(s, x, m, a);
    ChildIds(s, x, m, a);
    ChildIds(s, x, m, a + 1);
    assert y in Ids(s, y, m.children[a]) && z in Ids(s, z, m.children[a + 1]);
    assert y != z && x != y && x != z;
    assert s'[y] == MergedNode(s[y], m.keys[a], s[z]);
    assert s'[x] == Node(true, s[x].keys[..a] + s[x].keys[a + 1..], s[x].children[..a + 1] + s[x].children[a + 2..]);
    assert Outside(s, s', {x, y, z});
    MergeRep(s, s', x, m, a);
    assert {x, y, z} <= Ids(s, x, m);
    OutsideWiden(s, s', {x, y, z}, Ids(s, x, m));
    ShrunkFree(s, s', x, m, MergeChildren(m, a), z);
  }

  // ----- Carrying a removal up -----

  /** Key `i` of an internal node overwritten by the last key `e` of child
      `i`, which gave it up: the node's in-order sequence has lost its key `i`. */
  lemma PredecessorRemoved(m: Tree, i: int, c': Tree, q: int, e: int) returns (p: int)
    requires m.Internal? && |m.children| == |m.keys| + 1 && 0 <= i < |m.keys|
    requires RemovedAt(InOrder(m.children[i]), InOrder(c'), q, e) && q == |InOrder(m.children[i])| - 1
    ensures RemovedAt(InOrder(m), InOrder(Internal(m.keys[i := e], m.children[i := c'])), p, m.keys[i])
  {
    p := |Pre(m.keys, m.children, i)| + |InOrder(m.children[i])|;
    var a := InOrder(m.children[i]);
    assert a == a[..q] + [e];
    ReplaceByPredecessor(m, i, c', e);
  }

  /** Key `i` of an internal node overwritten by the first key `e` of child
      `i + 1`, which gave it up: the node's in-order sequence has lost its
      key `i`. */
  lemma SuccessorRemoved(m: Tree, i: int, c': Tree, q: int, e: int) returns (p: int)
    requires m.Internal? && |m.children| == |m.keys| + 1 && 0 <= i < |m.keys|
    requires RemovedAt(InOrder(m.children[i + 1]), InOrder(c'), q, e) && q == 0
    ensures RemovedAt(InOrder(m), InOrder(Internal(m.keys[i := e], m.children[i + 1 := c'])), p, m.keys[i])
  {
    p := |Pre(m.keys, m.children, i + 1)| - 1;
    var a := InOrder(m.children[i + 1]);
    assert a == [e] + a[1..];
    ReplaceBySuccessor(m, i, c', e);
  }

  /** A removal from child `j` is a removal from the node, at the position
      of the child's keys; in the last child the last key of the child is
      the last key of the node, and in the first child the first. */
  lemma RemovedBelow(m: Tree, j: int, c': Tree, q: int, kp: int, k: int, mode: int) returns (p: int)
    requires m.Internal? && |m.children| == |m.keys| + 1 && 0 <= j < |m.children|
    requires RemovedAt(InOrder(m.children[j]), InOrder(c'), q, kp) && Chosen(InOrder(m.children[j]), q, kp, k, mode)
    requires mode == 1 ==> j == |m.keys|
    requires mode == 2 ==> j == 0
    ensures RemovedAt(InOrder(m), InOrder(Internal(m.keys, m.children[j := c'])), p, kp)
    ensures Chosen(InOrder(m), p, kp, k, mode)
  {
    var a, b := InOrder(m), InOrder(m.children[j]);
    p := |Pre(m.keys, m.children, j)| + q;
    RemoveFromChild(m, j, c', q);
    assert a[p] == kp;
    if mode == 1 {
      ReplaceChildInOrder(m, j, c');
      assert Post(m.keys, m.children, j) == [];
      assert |a| == p + 1;
    } else if mode == 2 {
      assert Pre(m.keys, m.children, j) == [];
    }
  }

  /** Overwriting a key keeps the shape. */
  lemma ReplaceKeyWF(m: Tree, i: int, e: int, t: int, lo: int)
    requires WF(m, t, lo) && m.Internal? && 0 <= i < |m.keys|
    ensures WF(Internal(m.keys[i := e], m.children), t, lo)
    ensures Height(Internal(m.keys[i := e], m.children)) == Height(m)
  {
  }

  /** Key `i` of `x` replaced by the last key `e` of child `i`, which gave
      it up (kbtree.h:277-281): the subtree at `x` has lost its key `i`. */
  lemma PredecessorUp(s0: Store, s1: Store, s2: Store, x: NodeId, m: Tree, t: int, lo: int,
                      i: int, c': Tree, q: int, e: int) returns (m': Tree, p: int)
    requires 2 <= t && Rep(s0, x, m) && WF(m, t, lo) && m.Internal? && 0 <= i < |m.keys|
    requires Shrunk(s0, s1, s0[x].children[i], m.children[i], c')
    requires WF(c', t, t - 1) && Height(c') == Height(m.children[i])
    requires RemovedAt(InOrder(m.children[i]), InOrder(c'), q, e) && q == |InOrder(m.children[i])| - 1
    requires s2 == s1[x := Node(true, s0[x].keys[i := e], s0[x].children)]
    ensures m' == Internal(m.keys[i := e], m.children[i := c'])
    ensures Shrunk(s0, s2, x, m, m') && WF(m', t, lo - 1) && Height(m') == Height(m)
    ensures RemovedAt(InOrder(m), InOrder(m'), p, m.keys[i])
  {
    m' := Internal(m.keys[i := e], m.children[i := c']);
    ChildUp(s0, s1, s2, x, m, i, c', s0[x].keys[i := e]);
    p := PredecessorRemoved(m, i, c', q, e);
    ReplaceChildWF(m, i, c', t, lo);
    ReplaceKeyWF(Internal(m.keys, m.children[i := c']), i, e, t, lo);
  }

  /** Key `i` of `x` replaced by the first key `e` of child `i + 1`, which
      gave it up (kbtree.h:282-286): the subtree at `x` has lost its key `i`. */
  lemma SuccessorUp(s0: Store, s1: Store, s2: Store, x: NodeId, m: Tree, t: int, lo: int,
                    i: int, c': Tree, q: int, e: int) returns (m': Tree, p: int)
    requires 2 <= t && Rep(s0, x, m) && WF(m, t, lo) && m.Internal? && 0 <= i < |m.keys|
    requires Shrunk(s0, s1, s0[x].children[i + 1], m.children[i + 1], c')
    requires WF(c', t, t - 1) && Height(c') == Height(m.children[i + 1])
    requires RemovedAt(InOrder(m.children[i + 1]), InOrder(c'), q, e) && q == 0
    requires s2 == s1[x := Node(true, s0[x].keys[i := e], s0[x].children)]
    ensures m' == Internal(m.keys[i := e], m.children[i + 1 := c'])
    ensures Shrunk(s0, s2, x, m, m') && WF(m', t, lo - 1) && Height(m') == Height(m)
    ensures RemovedAt(InOrder(m), InOrder(m'), p, m.keys[i])
  {
    m' := Internal(m.keys[i := e], m.children[i + 1 := c']);
    ChildUp(s0, s1, s2, x, m, i + 1, c', s0[x].keys[i := e]);
    p := SuccessorRemoved(m, i, c', q, e);
    ReplaceChildWF(m, i + 1, c', t, lo);
    ReplaceKeyWF(Internal(m.keys, m.children[i + 1 := c']), i, e, t, lo);
  }

  /** Child `i` of `x` shrunk, then `x` given the keys `ks'`. */
  lemma ChildUp(s0: Store, s1: Store, s2: Store, x: NodeId, m: Tree, i: int, c': Tree, ks': seq<int>)
    requires Rep(s0, x, m) && m.Internal? && 0 <= i < |m.children|
    requires Shrunk(s0, s1, s0[x].children[i], m.children[i], c')
    requires s2 == s1[x := Node(true, ks', s0[x].children)]
    ensures Shrunk(s0, s2, x, m, Internal(ks', m.children[i := c']))
  {
    ChildIds(s0, x, m, i);
    RepInStore(s0, x, m);
    ChildShrunk(s0, s1, s2, x, m, i, c', ks');
  }

  /** Child `j` of `x` shrunk after the subtree at `x` shrank into `m1`. */
  lemma ShrunkBelow(s0: Store, s1: Store, s2: Store, x: NodeId, m: Tree, m1: Tree, j: int, c': Tree)
    requires Shrunk(s0, s1, x, m, m1) && m1.Internal? && 0 <= j < |m1.children|
    requires Shrunk(s1, s2, s1[x].children[j], m1.children[j], c')
    ensures Shrunk(s0, s2, x, m, Internal(m1.keys, m1.children[j := c']))
  {
    ChildIds(s1, x, m1, j);
    RepInStore(s1, x, m1);
    ChildShrunk(s1, s2, s2, x, m1, j, c', m1.keys);
    ShrunkTrans(s0, s1, s2, x, m, m1, Internal(m1.keys, m1.children[j := c']));
  }

  /** A removal from child `j` of `x`, after the subtree at `x` was
      restructured into `m1` with the same keys, is a removal from the
      subtree at `x`, chosen the same way. */
  lemma DeleteBelow(s0: Store, s1: Store, s2: Store, x: NodeId, m: Tree, m1: Tree, t: int, lo: int,
                    j: int, c': Tree, q: int, kp: int, k: int, mode: int) returns (m': Tree, p: int)
    requires 2 <= t
    requires Shrunk(s0, s1, x, m, m1) && WF(m1, t, lo - 1) && InOrder(m1) == InOrder(m) && Height(m1) == Height(m)
    requires m1.Internal? && 0 <= j < |m1.children|
    requires Shrunk(s1, s2, s1[x].children[j], m1.children[j], c')
    requires WF(c', t, t - 1) && Height(c') == Height(m1.children[j])
    requires RemovedAt(InOrder(m1.children[j]), InOrder(c'), q, kp) && Chosen(InOrder(m1.children[j]), q, kp, k, mode)
    requires mode == 1 ==> j == |m1.keys|
    requires mode == 2 ==> j == 0
    ensures m' == Internal(m1.keys, m1.children[j := c'])
    ensures Shrunk(s0, s2, x, m, m') && WF(m', t, lo - 1) && Height(m') == Height(m)
    ensures RemovedAt(InOrder(m), InOrder(m'), p, kp) && Chosen(InOrder(m), p, kp, k, mode)
  {
    m' := Internal(m1.keys, m1.children[j := c']);
    ShrunkBelow(s0, s1, s2, x, m, m1, j, c');
    p := RemovedBelow(m1, j, c', q, kp, k, mode);
    ReplaceChildWF(m1, j, c', t, lo - 1);
  }
}
