/** What the restructuring steps of insertion and deletion do to memory:
    after the nodes they touch are rewritten, the subtree under the parent
    represents the restructured pure tree, and its set of nodes changes
    only by the node allocated or freed. */
module Restructure {
  import opened TreeModel
  import opened NodeStore

  /** The node at `y` cut down to its lower half. */
  function LowNode(yn: Node, t: int): Node
    requires 1 <= t && |yn.keys| == 2 * t - 1
    requires yn.isInternal ==> |yn.children| == 2 * t
  {
    Node(yn.isInternal, yn.keys[..t - 1], if yn.isInternal then yn.children[..t] else [])
  }

  /** A new node holding the upper half of the node `yn`. */
  function HighNode(yn: Node, t: int): Node
    requires 1 <= t && |yn.keys| == 2 * t - 1
    requires yn.isInternal ==> |yn.children| == 2 * t
  {
    Node(yn.isInternal, yn.keys[t..], if yn.isInternal then yn.children[t..] else [])
  }

  /** An internal node written at `u` over a run of children that the
      rewrite of memory left alone. */
  lemma MovedRun(s: Store, s': Store, u: NodeId, ks: seq<int>, cids: seq<NodeId>, cs: seq<Tree>, kept: set<NodeId>)
    requires ChildrenRep(s, cids, cs) && SeqIds(s, cids, cs) <= kept && Agree(s, s', kept)
    requires u in s' && s'[u] == Node(true, ks, cids) && u !in SeqIds(s, cids, cs)
    ensures Rep(s', u, Internal(ks, cs)) && Ids(s', u, Internal(ks, cs)) == {u} + SeqIds(s, cids, cs)
  {
    assert Agree(s, s', SeqIds(s, cids, cs));
    ChildrenFrame(s, s', cids, cs);
    InternalRep(s', u, ks, cids, cs);
  }

  /** The two halves of a split node sit at `y` and at the new address `z`. */
  lemma SplitHalvesRep(s: Store, s': Store, y: NodeId, my: Tree, t: int, z: NodeId)
    requires Rep(s, y, my) && NodeShape(s, y, my) && 1 <= t && |my.keys| == 2 * t - 1
    requires my.Internal? ==> |my.children| == 2 * t
    requires z !in s && y in s' && z in s'
    requires s'[y] == LowNode(s[y], t) && s'[z] == HighNode(s[y], t)
    requires Agree(s, s', Ids(s, y, my) - {y})
    ensures ChildrenRep(s', [y, z], [SplitLow(my, t), SplitHigh(my, t)])
    ensures SeqIds(s', [y, z], [SplitLow(my, t), SplitHigh(my, t)]) == Ids(s, y, my) + {z}
  {
    var low, high := SplitLow(my, t), SplitHigh(my, t);
    RepInStore(s, y, my);
    if my.Internal? {
      var yc, ycs := s[y].children, my.children;
      var kept := Ids(s, y, my) - {y};
      assert yc == yc[..t] + yc[t..] && ycs == ycs[..t] + ycs[t..];
      ChildrenConcat(s, yc[..t], ycs[..t], yc[t..], ycs[t..]);
      SeqIdsConcat(s, yc[..t], ycs[..t], yc[t..], ycs[t..]);
      assert Ids(s, y, my) == {y} + SeqIds(s, yc, ycs);
      assert low == Internal(my.keys[..t - 1], ycs[..t]) && high == Internal(my.keys[t..], ycs[t..]);
      MovedRun(s, s', y, my.keys[..t - 1], yc[..t], ycs[..t], kept);
      MovedRun(s, s', z, my.keys[t..], yc[t..], ycs[t..], kept);
    } else {
      assert Rep(s', y, low) && Rep(s', z, high);
    }
    ChildrenTwo(s', y, low, z, high);
  }

  /** `__kb_split` (kbtree.h:195-210) in memory: the full child `i` of `x`
      is split into itself and the new node `z`, and its median moves up
      into `x`; the subtree at `x` then represents `SplitChild(m, i, t)` and
      gains exactly the node `z`. */
  lemma SplitRep(s: Store, s': Store, x: NodeId, m: Tree, i: int, y: NodeId, t: int, z: NodeId)
    requires Rep(s, x, m) && NodeShape(s, x, m) && m.Internal? && |m.children| == |m.keys| + 1
    requires 0 <= i < |m.children| && y == s[x].children[i] && Rep(s, y, m.children[i]) && NodeShape(s, y, m.children[i])
    requires 1 <= t && |m.children[i].keys| == 2 * t - 1
    requires m.children[i].Internal? ==> |m.children[i].children| == 2 * t
    requires z !in s && x in s' && y in s' && z in s'
    requires s'[y] == LowNode(s[y], t) && s'[z] == HighNode(s[y], t)
    requires s'[x] == Node(true, s[x].keys[..i] + [s[y].keys[t - 1]] + s[x].keys[i..],
                           s[x].children[..i + 1] + [z] + s[x].children[i + 1..])
    requires Outside(s, s', {x, y})
    ensures Rep(s', x, SplitChild(m, i, t))
    ensures Ids(s', x, SplitChild(m, i, t)) == Ids(s, x, m) + {z}
  {
    var cids, cs := s[x].children, m.children;
    var my := cs[i];
    var low, high := SplitLow(my, t), SplitHigh(my, t);
    ChildIds(s, x, m, i);
    assert y in Ids(s, y, my);
    SplitHalvesRep(s, s', y, my, t, z);
    assert s'[x].children == cids[..i] + [y, z] + cids[i + 1..];
    ParentSplice(s, s', x, m, i, i + 1, [y, z], [low, high], s'[x].keys);
    assert SplitChild(m, i, t) == Internal(s'[x].keys, cs[..i] + [low, high] + cs[i + 1..]);
  }

  /** The shape `__kb_split` expects: `y` is child `i` of the internal node
      `x` and holds `2t - 1` keys, with `2t` children when internal. */
  ghost predicate SplitFits(s: Store, x: NodeId, i: int, y: NodeId, t: int) {
    && x in s && y in s && 1 <= t && 0 <= i <= |s[x].keys| && i < |s[x].children|
    && |s[y].keys| == 2 * t - 1 && (s[y].isInternal ==> |s[y].children| == 2 * t)
  }

  /** The three node writes of `__kb_split`: the new node `z` takes the
      upper `t - 1` keys (and `t` children) of `y`, `y` keeps the lower
      `t - 1`, and `x` takes the median at key index `i` and `z` at child
      index `i + 1`. */
  function SplitNodes(s: Store, x: NodeId, i: int, y: NodeId, t: int, z: NodeId): (s': Store)
    requires SplitFits(s, x, i, y, t)
    ensures s'.Keys == s.Keys + {z}
    ensures s'[x].keys == s[x].keys[..i] + [s[y].keys[t - 1]] + s[x].keys[i..]
    ensures s'[x].children == s[x].children[..i + 1] + [z] + s[x].children[i + 1..]
  {
    s[z := HighNode(s[y], t)][y := LowNode(s[y], t)]
     [x := Node(true, s[x].keys[..i] + [s[y].keys[t - 1]] + s[x].keys[i..],
                s[x].children[..i + 1] + [z] + s[x].children[i + 1..])]
  }

  /** The preconditions of `__kb_split`, read off the subtree at `x`. */
  lemma SplitReady(s: Store, x: NodeId, m: Tree, lo: int, i: int, y: NodeId, t: int)
    requires 2 <= t && Rep(s, x, m) && WF(m, t, lo) && m.Internal? && |m.keys| < 2 * t - 1
    requires 0 <= i < |m.children| && y == s[x].children[i] && |m.children[i].keys| == 2 * t - 1
    requires m.children[i].Internal? ==> |m.children[i].children| == 2 * t
    ensures SplitFits(s, x, i, y, t)
  {
    ChildRep(s, x, m, i);
  }

  /** The whole split in memory: with the child `y` at index `i` of `x` full
      and the address `z` unused, the three node writes of `__kb_split`
      leave the subtree at `x` representing `SplitChild(m, i, t)`, with the
      B-tree invariants, the keys and the height of `m`, and with exactly one
      node more; nothing outside `x` and `y` changes. */
  lemma SplitStore(s: Store, s': Store, x: NodeId, m: Tree, lo: int, i: int, y: NodeId, t: int, z: NodeId)
    requires 2 <= t && Rep(s, x, m) && WF(m, t, lo) && m.Internal? && |m.keys| < 2 * t - 1
    requires 0 <= i < |m.children| && y == s[x].children[i] && |m.children[i].keys| == 2 * t - 1
    requires z !in s && SplitFits(s, x, i, y, t) && s' == SplitNodes(s, x, i, y, t, z)
    ensures m.children[i].Internal? ==> |m.children[i].children| == 2 * t
    ensures Grown(s, s', x, m, SplitChild(m, i, t)) && |s'.Keys| == |s.Keys| + 1
    ensures WF(SplitChild(m, i, t), t, lo)
    ensures InOrder(SplitChild(m, i, t)) == InOrder(m) && Height(SplitChild(m, i, t)) == Height(m)
  {
    ChildIds(s, x, m, i);
    assert y in Ids(s, y, m.children[i]);
    assert s'.Keys - s.Keys == {z};
    assert WF(m.children[i], t, t - 1);
    SplitRep(s, s', x, m, i, y, t, z);
    SplitChildSpec(m, i, t, lo);
  }

  /** The node at `y` with the separator and the node `zn` appended. */
  function MergedNode(yn: Node, sep: int, zn: Node): Node {
    Node(yn.isInternal, yn.keys + [sep] + zn.keys, if yn.isInternal then yn.children + zn.children else yn.children)
  }

  /** The node at `y` absorbs the separator and the node at `z`: the subtree
      at `y` then represents the merged tree and has lost only the node `z`. */
  lemma MergedRep(s: Store, s': Store, y: NodeId, my: Tree, sep: int, z: NodeId, mz: Tree)
    requires Rep(s, y, my) && Rep(s, z, mz) && Ids(s, y, my) !! Ids(s, z, mz)
    requires my.Internal? == mz.Internal?
    requires y in s' && s'[y] == MergedNode(s[y], sep, s[z])
    requires Agree(s, s', (Ids(s, y, my) - {y}) + (Ids(s, z, mz) - {z}))
    ensures Rep(s', y, Merged(my, sep, mz))
    ensures Ids(s', y, Merged(my, sep, mz)) == Ids(s, y, my) + Ids(s, z, mz) - {z}
  {
    assert y in Ids(s, y, my) && z in Ids(s, z, mz);
    if my.Internal? {
      var yc, zc := s[y].children, s[z].children;
      ChildrenFrame(s, s', yc, my.children);
      ChildrenFrame(s, s', zc, mz.children);
      ChildrenConcat(s', yc, my.children, zc, mz.children);
      SeqIdsConcat(s', yc, my.children, zc, mz.children);
      InternalRep(s', y, my.keys + [sep] + mz.keys, yc + zc, my.children + mz.children);
    }
  }

  /** `y` and `z`, children `i` and `i + 1` of `x`, merged into `y` around
      the key `i` of `x`, which loses that key and the pointer to `z`: the
      subtree at `x` represents `MergeChildren(m, i)` and has lost only `z`. */
  lemma MergeRep(s: Store, s': Store, x: NodeId, m: Tree, i: int)
    requires Rep(s, x, m) && m.Internal? && |m.children| == |m.keys| + 1 && 0 <= i < |m.keys|
    requires m.children[i].Internal? == m.children[i + 1].Internal?
    requires s[x].children[i] in s && s[x].children[i + 1] in s
    requires x in s' && s[x].children[i] in s'
    requires s'[s[x].children[i]] == MergedNode(s[s[x].children[i]], m.keys[i], s[s[x].children[i + 1]])
    requires s'[x] == Node(true, s[x].keys[..i] + s[x].keys[i + 1..],
                           s[x].children[..i + 1] + s[x].children[i + 2..])
    requires Outside(s, s', {x, s[x].children[i], s[x].children[i + 1]})
    ensures Rep(s', x, MergeChildren(m, i))
    ensures Ids(s', x, MergeChildren(m, i)) == Ids(s, x, m) - {s[x].children[i + 1]}
  {
    var cids, cs := s[x].children, m.children;
    var y, z := cids[i], cids[i + 1];
    var mg := Merged(cs[i], m.keys[i], cs[i + 1]);
    RunIds(s, x, m, i, i + 2);
    PairIds(s, x, m, i);
    assert y in Ids(s, y, cs[i]) && z in Ids(s, z, cs[i + 1]);
    OutsideAgree(s, s', {x, y, z}, (Ids(s, y, cs[i]) - {y}) + (Ids(s, z, cs[i + 1]) - {z}));
    MergedRep(s, s', y, cs[i], m.keys[i], z, cs[i + 1]);
    ChildrenOne(s', y, mg);
    assert s'[x].children == cids[..i] + [y] + cids[i + 2..];
    ParentSplice(s, s', x, m, i, i + 2, [y], [mg], s'[x].keys);
  }

  /** The node at `y` without its last key and child (`--y->n`). */
  function DropLastNode(yn: Node): Node
    requires |yn.keys| >= 1 && (yn.isInternal ==> |yn.children| == |yn.keys| + 1)
  {
    Node(yn.isInternal, yn.keys[..|yn.keys| - 1], if yn.isInternal then yn.children[..|yn.keys|] else yn.children)
  }

  /** The node at `y` without its first key and child (the shifts to the left). */
  function DropFirstNode(yn: Node): Node
    requires |yn.keys| >= 1 && (yn.isInternal ==> |yn.children| >= 1)
  {
    Node(yn.isInternal, yn.keys[1..], if yn.isInternal then yn.children[1..] else yn.children)
  }

  /** The node `xn` with `k` and, if internal, the pointer `w` put in front
      (the shifts to the right and the writes to slot 0). */
  function PushFrontNode(k: int, w: NodeId, xn: Node): Node {
    Node(xn.isInternal, [k] + xn.keys, if xn.isInternal then [w] + xn.children else xn.children)
  }

  /** The node `xn` with `k` and, if internal, the pointer `w` appended. */
  function PushBackNode(xn: Node, k: int, w: NodeId): Node {
    Node(xn.isInternal, xn.keys + [k], if xn.isInternal then xn.children + [w] else xn.children)
  }

  /** The subtree at `y` loses its last key and last child; the child left
      out keeps its own part of memory. */
  lemma DropLastRep(s: Store, s': Store, y: NodeId, my: Tree)
    requires Rep(s, y, my) && |my.keys| >= 1 && (my.Internal? ==> |my.children| == |my.keys| + 1)
    requires y in s' && s'[y] == DropLastNode(s[y])
    requires Agree(s, s', Ids(s, y, my) - {y})
    ensures Rep(s', y, DropLast(my))
    ensures my.Leaf? ==> Ids(s', y, DropLast(my)) == Ids(s, y, my)
    ensures my.Internal? ==>
              Rep(s, s[y].children[|my.keys|], LastChild(my)) &&
              Ids(s, s[y].children[|my.keys|], LastChild(my)) <= Ids(s, y, my) - {y} &&
              Ids(s', y, DropLast(my)) == Ids(s, y, my) - Ids(s, s[y].children[|my.keys|], LastChild(my)) &&
              Ids(s', y, DropLast(my)) !! Ids(s, s[y].children[|my.keys|], LastChild(my))
  {
    assert y in Ids(s, y, my);
    if my.Internal? {
      var n := |my.keys|;
      var yc, ycs := s[y].children, my.children;
      assert yc == yc[..n] + yc[n..] && ycs == ycs[..n] + ycs[n..];
      assert yc[n..] == [yc[n]] && ycs[n..] == [ycs[n]];
      ChildrenConcat(s, yc[..n], ycs[..n], yc[n..], ycs[n..]);
      SeqIdsConcat(s, yc[..n], ycs[..n], yc[n..], ycs[n..]);
      ChildrenOne(s, yc[n], ycs[n]);
      ChildrenFrame(s, s', yc[..n], ycs[..n]);
      InternalRep(s', y, my.keys[..n - 1], yc[..n], ycs[..n]);
    }
  }

  /** The subtree at `y` loses its first key and first child. */
  lemma DropFirstRep(s: Store, s': Store, y: NodeId, my: Tree)
    requires Rep(s, y, my) && |my.keys| >= 1 && (my.Internal? ==> |my.children| == |my.keys| + 1)
    requires y in s' && s'[y] == DropFirstNode(s[y])
    requires Agree(s, s', Ids(s, y, my) - {y})
    ensures Rep(s', y, DropFirst(my))
    ensures my.Leaf? ==> Ids(s', y, DropFirst(my)) == Ids(s, y, my)
    ensures my.Internal? ==>
              Rep(s, s[y].children[0], FirstChild(my)) &&
              Ids(s, s[y].children[0], FirstChild(my)) <= Ids(s, y, my) - {y} &&
              Ids(s', y, DropFirst(my)) == Ids(s, y, my) - Ids(s, s[y].children[0], FirstChild(my)) &&
              Ids(s', y, DropFirst(my)) !! Ids(s, s[y].children[0], FirstChild(my))
  {
    assert y in Ids(s, y, my);
    if my.Internal? {
      var yc, ycs := s[y].children, my.children;
      assert yc == yc[..1] + yc[1..] && ycs == ycs[..1] + ycs[1..];
      assert yc[..1] == [yc[0]] && ycs[..1] == [ycs[0]];
      ChildrenConcat(s, yc[..1], ycs[..1], yc[1..], ycs[1..]);
      SeqIdsConcat(s, yc[..1], ycs[..1], yc[1..], ycs[1..]);
      ChildrenOne(s, yc[0], ycs[0]);
      ChildrenFrame(s, s', yc[1..], ycs[1..]);
      InternalRep(s', y, my.keys[1..], yc[1..], ycs[1..]);
    }
  }

  /** The subtree at `xp` gains `k` in front and, if internal, the subtree
      at `w` as its first child. */
  lemma PushFrontRep(s: Store, s': Store, k: int, w: NodeId, mw: Tree, xp: NodeId, mxp: Tree)
    requires Rep(s, xp, mxp)
    requires mxp.Internal? ==> Rep(s', w, mw) && Ids(s', w, mw) !! Ids(s, xp, mxp)
    requires xp in s' && s'[xp] == PushFrontNode(k, w, s[xp])
    requires Agree(s, s', Ids(s, xp, mxp) - {xp})
    ensures Rep(s', xp, PushFront(k, mw, mxp))
    ensures Ids(s', xp, PushFront(k, mw, mxp)) == Ids(s, xp, mxp) + (if mxp.Internal? then Ids(s', w, mw) else {})
  {
    assert xp in Ids(s, xp, mxp);
    if mxp.Internal? {
      var xc, xcs := s[xp].children, mxp.children;
      ChildrenFrame(s, s', xc, xcs);
      ChildrenOne(s', w, mw);
      ChildrenConcat(s', [w], [mw], xc, xcs);
      SeqIdsConcat(s', [w], [mw], xc, xcs);
      InternalRep(s', xp, [k] + mxp.keys, [w] + xc, [mw] + xcs);
    }
  }

  /** The subtree at `xp` gains `k` at the end and, if internal, the subtree
      at `w` as its last child. */
  lemma PushBackRep(s: Store, s': Store, xp: NodeId, mxp: Tree, k: int, w: NodeId, mw: Tree)
    requires Rep(s, xp, mxp)
    requires mxp.Internal? ==> Rep(s', w, mw) && Ids(s', w, mw) !! Ids(s, xp, mxp)
    requires xp in s' && s'[xp] == PushBackNode(s[xp], k, w)
    requires Agree(s, s', Ids(s, xp, mxp) - {xp})
    ensures Rep(s', xp, PushBack(mxp, k, mw))
    ensures Ids(s', xp, PushBack(mxp, k, mw)) == Ids(s, xp, mxp) + (if mxp.Internal? then Ids(s', w, mw) else {})
  {
    assert xp in Ids(s, xp, mxp);
    if mxp.Internal? {
      var xc, xcs := s[xp].children, mxp.children;
      ChildrenFrame(s, s', xc, xcs);
      ChildrenOne(s', w, mw);
      ChildrenConcat(s', xc, xcs, [w], [mw]);
      SeqIdsConcat(s', xc, xcs, [w], [mw]);
      InternalRep(s', xp, mxp.keys + [k], xc + [w], xcs + [mw]);
    }
  }

  /** The pointer to the last child of a node (unused for a leaf). */
  function LastChildId(yn: Node): NodeId {
    if |yn.children| > 0 then yn.children[|yn.children| - 1] else 0
  }

  /** The pointer to the first child of a node (unused for a leaf). */
  function FirstChildId(yn: Node): NodeId {
    if |yn.children| > 0 then yn.children[0] else 0
  }

  /** Borrowing from the left sibling in memory (kbtree.h:302-308): child
      `i - 1` of `x` gives its last key to `x` and its last child to child
      `i`, which also takes the key `i - 1` of `x`. The subtree at `x` then
      represents `RotateRight(m, i)` on the same nodes. */
  lemma RotateRightRep(s: Store, s': Store, x: NodeId, m: Tree, i: int)
    requires Rep(s, x, m) && m.Internal? && |m.children| == |m.keys| + 1 && 0 < i < |m.children|
    requires |m.children[i - 1].keys| >= 1
    requires m.children[i - 1].Internal? == m.children[i].Internal?
    requires m.children[i - 1].Internal? ==> |m.children[i - 1].children| == |m.children[i - 1].keys| + 1
    requires s[x].children[i - 1] in s && s[x].children[i] in s
    requires |s[s[x].children[i - 1]].keys| >= 1
    requires s[s[x].children[i - 1]].isInternal ==>
               |s[s[x].children[i - 1]].children| == |s[s[x].children[i - 1]].keys| + 1
    requires x in s' && s[x].children[i - 1] in s' && s[x].children[i] in s'
    requires s'[s[x].children[i - 1]] == DropLastNode(s[s[x].children[i - 1]])
    requires s'[s[x].children[i]] ==
               PushFrontNode(m.keys[i - 1], LastChildId(s[s[x].children[i - 1]]), s[s[x].children[i]])
    requires s'[x] == Node(true, s[x].keys[..i - 1] + [s[s[x].children[i - 1]].keys[|s[s[x].children[i - 1]].keys| - 1]]
                                 + s[x].keys[i..], s[x].children)
    requires Outside(s, s', {x, s[x].children[i - 1], s[x].children[i]})
    ensures Rep(s', x, RotateRight(m, i))
    ensures Ids(s', x, RotateRight(m, i)) == Ids(s, x, m)
  {
    var cids, cs := s[x].children, m.children;
    var y, xp := cids[i - 1], cids[i];
    var my, mxp := cs[i - 1], cs[i];
    var w, mw := LastChildId(s[y]), LastChild(my);
    RunIds(s, x, m, i - 1, i + 1);
    PairIds(s, x, m, i - 1);
    assert y in Ids(s, y, my) && xp in Ids(s, xp, mxp);
    OutsideAgree(s, s', {x, y, xp}, Ids(s, y, my) - {y});
    OutsideAgree(s, s', {x, y, xp}, Ids(s, xp, mxp) - {xp});
    BorrowLeftPair(s, s', y, my, m.keys[i - 1], xp, mxp);
    var y', xp' := DropLast(my), PushFront(m.keys[i - 1], mw, mxp);
    assert RotateRight(m, i) == Internal(s'[x].keys, cs[..i - 1] + [y', xp'] + cs[i + 1..]);
    PairAround(cids, i - 1);
    ParentSplice(s, s', x, m, i - 1, i + 1, [y, xp], [y', xp'], s'[x].keys);
  }

  /** Borrowing from the right sibling in memory (kbtree.h:309-315): child
      `i + 1` of `x` gives its first key to `x` and its first child to child
      `i`, which also takes the key `i` of `x`. The subtree at `x` then
      represents `RotateLeft(m, i)` on the same nodes. */
  lemma RotateLeftRep(s: Store, s': Store, x: NodeId, m: Tree, i: int)
    requires Rep(s, x, m) && m.Internal? && |m.children| == |m.keys| + 1 && 0 <= i < |m.keys|
    requires |m.children[i + 1].keys| >= 1
    requires m.children[i].Internal? == m.children[i + 1].Internal?
    requires m.children[i + 1].Internal? ==> |m.children[i + 1].children| == |m.children[i + 1].keys| + 1
    requires s[x].children[i] in s && s[x].children[i + 1] in s
    requires |s[s[x].children[i + 1]].keys| >= 1
    requires s[s[x].children[i + 1]].isInternal ==> |s[s[x].children[i + 1]].children| >= 1
    requires x in s' && s[x].children[i] in s' && s[x].children[i + 1] in s'
    requires s'[s[x].children[i + 1]] == DropFirstNode(s[s[x].children[i + 1]])
    requires s'[s[x].children[i]] ==
               PushBackNode(s[s[x].children[i]], m.keys[i], FirstChildId(s[s[x].children[i + 1]]))
    requires s'[x] == Node(true, s[x].keys[..i] + [s[s[x].children[i + 1]].keys[0]] + s[x].keys[i + 1..], s[x].children)
    requires Outside(s, s', {x, s[x].children[i], s[x].children[i + 1]})
    ensures Rep(s', x, RotateLeft(m, i))
    ensures Ids(s', x, RotateLeft(m, i)) == Ids(s, x, m)
  {
    var cids, cs := s[x].children, m.children;
    var xp, y := cids[i], cids[i + 1];
    var mxp, my := cs[i], cs[i + 1];
    var w, mw := FirstChildId(s[y]), FirstChild(my);
    RunIds(s, x, m, i, i + 2);
    PairIds(s, x, m, i);
    assert y in Ids(s, y, my) && xp in Ids(s, xp, mxp);
    OutsideAgree(s, s', {x, xp, y}, Ids(s, y, my) - {y});
    OutsideAgree(s, s', {x, xp, y}, Ids(s, xp, mxp) - {xp});
    BorrowRightPair(s, s', xp, mxp, m.keys[i], y, my);
    var xp', y' := PushBack(mxp, m.keys[i], mw), DropFirst(my);
    PairAround(cids, i);
    ParentSplice(s, s', x, m, i, i + 2, [xp, y], [xp', y'], s'[x].keys);
  }

  /** The two siblings of a borrow from the left: `y` gives its last child
      to `xp`, which takes `k` in front; together they keep their nodes. */
  lemma BorrowLeftPair(s: Store, s': Store, y: NodeId, my: Tree, k: int, xp: NodeId, mxp: Tree)
    requires Rep(s, y, my) && Rep(s, xp, mxp) && Ids(s, y, my) !! Ids(s, xp, mxp)
    requires my.Internal? == mxp.Internal?
    requires |my.keys| >= 1 && (my.Internal? ==> |my.children| == |my.keys| + 1)
    requires y in s' && s'[y] == DropLastNode(s[y])
    requires xp in s' && s'[xp] == PushFrontNode(k, LastChildId(s[y]), s[xp])
    requires Agree(s, s', Ids(s, y, my) - {y}) && Agree(s, s', Ids(s, xp, mxp) - {xp})
    ensures ChildrenRep(s', [y, xp], [DropLast(my), PushFront(k, LastChild(my), mxp)])
    ensures SeqIds(s', [y, xp], [DropLast(my), PushFront(k, LastChild(my), mxp)]) == Ids(s, y, my) + Ids(s, xp, mxp)
  {
    var w, mw := LastChildId(s[y]), LastChild(my);
    DropLastRep(s, s', y, my);
    if my.Internal? {
      RepFrame(s, s', w, mw);
    }
    PushFrontRep(s, s', k, w, mw, xp, mxp);
    ChildrenTwo(s', y, DropLast(my), xp, PushFront(k, mw, mxp));
  }

  /** The two siblings of a borrow from the right: `y` gives its first child
      to `xp`, which takes `k` at the end; together they keep their nodes. */
  lemma BorrowRightPair(s: Store, s': Store, xp: NodeId, mxp: Tree, k: int, y: NodeId, my: Tree)
    requires Rep(s, y, my) && Rep(s, xp, mxp) && Ids(s, y, my) !! Ids(s, xp, mxp)
    requires my.Internal? == mxp.Internal?
    requires |my.keys| >= 1 && (my.Internal? ==> |my.children| == |my.keys| + 1)
    requires y in s' && s'[y] == DropFirstNode(s[y])
    requires xp in s' && s'[xp] == PushBackNode(s[xp], k, FirstChildId(s[y]))
    requires Agree(s, s', Ids(s, y, my) - {y}) && Agree(s, s', Ids(s, xp, mxp) - {xp})
    ensures ChildrenRep(s', [xp, y], [PushBack(mxp, k, FirstChild(my)), DropFirst(my)])
    ensures SeqIds(s', [xp, y], [PushBack(mxp, k, FirstChild(my)), DropFirst(my)]) == Ids(s, xp, mxp) + Ids(s, y, my)
  {
    var w, mw := FirstChildId(s[y]), FirstChild(my);
    DropFirstRep(s, s', y, my);
    if my.Internal? {
      RepFrame(s, s', w, mw);
    }
    PushBackRep(s, s', xp, mxp, k, w, mw);
    ChildrenTwo(s', xp, PushBack(mxp, k, mw), y, DropFirst(my));
  }
}
