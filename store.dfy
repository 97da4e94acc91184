/** B-tree nodes in memory.

    A `kbnode_t` (kbtree.h:45-47) is a header (`is_internal`, `n`) followed,
    in the same allocation, by the node's key slots and, for internal nodes
    only, its child pointers (kbtree.h:58-59, 76-78). Here a node is a value
    `Node` holding its `n` keys and its child pointers, and memory is a
    `Store`: a map from node addresses (`NodeId`) to the node found there.
    Updating a node in place is replacing the value stored at its address.

    `Rep(s, x, m)` says that the node at `x` and the nodes below it represent
    the pure tree `m`, and that no address is shared between two subtrees or
    between a node and its subtrees; `Ids(s, x, m)` is the set of addresses
    of those nodes. Runs of children are walked from the front, so that
    none of these definitions needs a quantifier.
 */
module NodeStore {
  import opened TreeModel

  type NodeId = nat

  datatype Node = Node(isInternal: bool, keys: seq<int>, children: seq<NodeId>)

  type Store = map<NodeId, Node>

  /** The nodes reachable from `x` in `s` form the tree `m`. */
  ghost predicate Rep(s: Store, x: NodeId, m: Tree)
    decreases m, 1
  {
    NodeShape(s, x, m) &&
    (m.Internal? ==> ChildrenRep(s, s[x].children, m.children) && x !in SeqIds(s, s[x].children, m.children))
  }

  /** The node at `x` has the keys, the kind and the number of children of
      the root of `m`; a leaf has no child pointers. */
  ghost predicate NodeShape(s: Store, x: NodeId, m: Tree) {
    x in s && s[x].keys == m.keys && (s[x].isInternal <==> m.Internal?) &&
    if m.Leaf? then s[x].children == [] else |s[x].children| == |m.children|
  }

  /** The nodes at `cids` form the trees `cs`, each in its own part of memory. */
  ghost predicate ChildrenRep(s: Store, cids: seq<NodeId>, cs: seq<Tree>)
    decreases cs, 0
  {
    |cids| == |cs| &&
    (|cs| > 0 ==>
       Rep(s, cids[0], cs[0]) && ChildrenRep(s, cids[1..], cs[1..]) &&
       Ids(s, cids[0], cs[0]) !! SeqIds(s, cids[1..], cs[1..]))
  }

  /** The addresses of the nodes of the subtree at `x`. */
  ghost function Ids(s: Store, x: NodeId, m: Tree): set<NodeId>
    decreases m, 1
  {
    {x} + (if m.Internal? && x in s then SeqIds(s, s[x].children, m.children) else {})
  }

  /** The addresses of the nodes of the subtrees at `cids`. */
  ghost function SeqIds(s: Store, cids: seq<NodeId>, cs: seq<Tree>): set<NodeId>
    decreases cs, 0
  {
    if |cs| == 0 || |cids| == 0 then {} else Ids(s, cids[0], cs[0]) + SeqIds(s, cids[1..], cs[1..])
  }

  /** `s` and `s'` hold the same nodes at the addresses `ids`. */
  ghost predicate Agree(s: Store, s': Store, ids: set<NodeId>) {
    forall y :: y in ids ==> y in s && y in s' && s'[y] == s[y]
  }

  /** Every address outside `ids` that `s` uses holds the same node in `s'`. */
  ghost predicate Outside(s: Store, s': Store, ids: set<NodeId>) {
    forall y :: y in s && y !in ids ==> y in s' && s'[y] == s[y]
  }

  /** An operation on the subtree at `x` turned `s` into `s'` and `m` into
      `m'`: the subtree now represents `m'`, memory outside the old subtree
      is kept, nothing is freed, and the subtree's nodes are its old ones
      and the newly allocated ones. */
  ghost predicate Grown(s: Store, s': Store, x: NodeId, m: Tree, m': Tree) {
    && Rep(s', x, m') && Outside(s, s', Ids(s, x, m)) && s.Keys <= s'.Keys
    && Ids(s', x, m') == Ids(s, x, m) + (s'.Keys - s.Keys)
  }

  /** Doing nothing is a growth by no nodes. */
  lemma GrownNone(s: Store, x: NodeId, m: Tree)
    requires Rep(s, x, m)
    ensures Grown(s, s, x, m, m)
  {
    assert s.Keys - s.Keys == {};
  }

  /** A subtree that filled memory still fills it after growing. */
  lemma GrownWhole(s: Store, s': Store, x: NodeId, m: Tree, m': Tree)
    requires Grown(s, s', x, m, m') && s.Keys == Ids(s, x, m)
    ensures s'.Keys == Ids(s', x, m')
  {
  }

  /** An operation on the subtree at `x` turned `s` into `s'` and `m` into
      `m'` and freed some nodes: the subtree now represents `m'`, memory
      outside the old subtree is kept, nothing is allocated, and the
      subtree's nodes are its old ones less the freed ones. */
  ghost predicate Shrunk(s: Store, s': Store, x: NodeId, m: Tree, m': Tree) {
    && Rep(s', x, m') && Outside(s, s', Ids(s, x, m)) && s'.Keys <= s.Keys
    && Ids(s', x, m') == Ids(s, x, m) - (s.Keys - s'.Keys)
  }

  /** Doing nothing frees no node. */
  lemma ShrunkNone(s: Store, x: NodeId, m: Tree)
    requires Rep(s, x, m)
    ensures Shrunk(s, s, x, m, m)
  {
    assert s.Keys - s.Keys == {};
  }

  /** A subtree that filled memory still fills it after shrinking. */
  lemma ShrunkWhole(s: Store, s': Store, x: NodeId, m: Tree, m': Tree)
    requires Shrunk(s, s', x, m, m') && s.Keys == Ids(s, x, m)
    ensures s'.Keys == Ids(s', x, m') && |s'.Keys| <= |s.Keys|
  {
    assert s'.Keys == s.Keys - (s.Keys - s'.Keys);
  }

  /** Two shrinking steps on the subtree at `x` make one. */
  lemma ShrunkTrans(s0: Store, s1: Store, s2: Store, x: NodeId, m0: Tree, m1: Tree, m2: Tree)
    requires Shrunk(s0, s1, x, m0, m1) && Shrunk(s1, s2, x, m1, m2)
    ensures Shrunk(s0, s2, x, m0, m2)
  {
  }

  /** An operation that frees nothing and keeps the subtree's nodes. */
  lemma ShrunkKeep(s: Store, s': Store, x: NodeId, m: Tree, m': Tree)
    requires Rep(s', x, m') && Outside(s, s', Ids(s, x, m)) && s'.Keys == s.Keys
    requires Ids(s', x, m') == Ids(s, x, m)
    ensures Shrunk(s, s', x, m, m')
  {
    assert s.Keys - s'.Keys == {};
  }

  /** An operation that frees exactly the node `z` of the subtree. */
  lemma ShrunkFree(s: Store, s': Store, x: NodeId, m: Tree, m': Tree, z: NodeId)
    requires Rep(s', x, m') && Outside(s, s', Ids(s, x, m)) && z in s && s'.Keys == s.Keys - {z}
    requires Ids(s', x, m') == Ids(s, x, m) - {z}
    ensures Shrunk(s, s', x, m, m')
  {
    assert s.Keys - s'.Keys == {z};
  }

  /** Keeping everything outside a set keeps everything outside a larger one. */
  lemma OutsideWiden(s: Store, s': Store, a: set<NodeId>, b: set<NodeId>)
    requires Outside(s, s', a) && a <= b
    ensures Outside(s, s', b)
  {
  }

  /** An internal node over a run of children that does not contain it. */
  lemma InternalRep(s: Store, x: NodeId, ks: seq<int>, cids: seq<NodeId>, cs: seq<Tree>)
    requires x in s && s[x] == Node(true, ks, cids)
    requires ChildrenRep(s, cids, cs) && x !in SeqIds(s, cids, cs)
    ensures Rep(s, x, Internal(ks, cs)) && Ids(s, x, Internal(ks, cs)) == {x} + SeqIds(s, cids, cs)
  {
  }

  /** Memory kept outside `ids` agrees on any part of memory apart from `ids`. */
  lemma OutsideAgree(s: Store, s': Store, ids: set<NodeId>, a: set<NodeId>)
    requires Outside(s, s', ids) && a <= s.Keys && a !! ids
    ensures Agree(s, s', a)
  {
  }

  /** The subtree at `x` lies inside memory. */
  lemma {:induction false} RepInStore(s: Store, x: NodeId, m: Tree)
    requires Rep(s, x, m)
    ensures Ids(s, x, m) <= s.Keys
    decreases m, 1
  {
    if m.Internal? {
      ChildrenInStore(s, s[x].children, m.children);
    }
  }

  lemma {:induction false} ChildrenInStore(s: Store, cids: seq<NodeId>, cs: seq<Tree>)
    requires ChildrenRep(s, cids, cs)
    ensures SeqIds(s, cids, cs) <= s.Keys
    decreases cs, 0
  {
    if |cs| > 0 {
      RepInStore(s, cids[0], cs[0]);
      ChildrenInStore(s, cids[1..], cs[1..]);
    }
  }

  /** A subtree is untouched by changes to memory outside its nodes. */
  lemma {:induction false} RepFrame(s: Store, s': Store, x: NodeId, m: Tree)
    requires Rep(s, x, m) && Agree(s, s', Ids(s, x, m))
    ensures Rep(s', x, m) && Ids(s', x, m) == Ids(s, x, m)
    decreases m, 1
  {
    assert x in Ids(s, x, m);
    if m.Internal? {
      ChildrenFrame(s, s', s[x].children, m.children);
    }
  }

  lemma {:induction false} ChildrenFrame(s: Store, s': Store, cids: seq<NodeId>, cs: seq<Tree>)
    requires ChildrenRep(s, cids, cs) && Agree(s, s', SeqIds(s, cids, cs))
    ensures ChildrenRep(s', cids, cs) && SeqIds(s', cids, cs) == SeqIds(s, cids, cs)
    decreases cs, 0
  {
    if |cs| > 0 {
      RepFrame(s, s', cids[0], cs[0]);
      ChildrenFrame(s, s', cids[1..], cs[1..]);
    }
  }

  /** The nodes of a run of children joined from two runs. */
  lemma {:induction false} SeqIdsConcat(s: Store, a: seq<NodeId>, ms: seq<Tree>, b: seq<NodeId>, ns: seq<Tree>)
    requires |a| == |ms| && |b| == |ns|
    ensures SeqIds(s, a + b, ms + ns) == SeqIds(s, a, ms) + SeqIds(s, b, ns)
    decreases |a|
  {
    if |a| == 0 {
      assert a + b == b && ms + ns == ns;
    } else {
      assert (a + b)[1..] == a[1..] + b && (ms + ns)[1..] == ms[1..] + ns;
      SeqIdsConcat(s, a[1..], ms[1..], b, ns);
    }
  }

  /** Two runs of children are joined into one exactly when each represents
      its trees and the two lie in disjoint parts of memory. */
  lemma {:induction false} ChildrenConcat(s: Store, a: seq<NodeId>, ms: seq<Tree>, b: seq<NodeId>, ns: seq<Tree>)
    requires |a| == |ms| && |b| == |ns|
    ensures ChildrenRep(s, a + b, ms + ns) <==>
            ChildrenRep(s, a, ms) && ChildrenRep(s, b, ns) && SeqIds(s, a, ms) !! SeqIds(s, b, ns)
    decreases |a|
  {
    if |a| == 0 {
      assert a + b == b && ms + ns == ns;
    } else {
      assert (a + b)[1..] == a[1..] + b && (ms + ns)[1..] == ms[1..] + ns;
      ChildrenConcat(s, a[1..], ms[1..], b, ns);
      SeqIdsConcat(s, a[1..], ms[1..], b, ns);
    }
  }

  /** A run of one child. */
  lemma ChildrenOne(s: Store, c: NodeId, m: Tree)
    ensures SeqIds(s, [c], [m]) == Ids(s, c, m)
    ensures ChildrenRep(s, [c], [m]) <==> Rep(s, c, m)
  {
    assert [c][1..] == [] && [m][1..] == [];
  }

  /** A run of children cut in three: before `lo`, from `lo` to `hi`, from `hi` on. */
  lemma ChildrenAround(s: Store, cids: seq<NodeId>, cs: seq<Tree>, lo: int, hi: int)
    requires ChildrenRep(s, cids, cs) && 0 <= lo <= hi <= |cs|
    ensures ChildrenRep(s, cids[..lo], cs[..lo]) && ChildrenRep(s, cids[lo..hi], cs[lo..hi])
    ensures ChildrenRep(s, cids[hi..], cs[hi..])
    ensures SeqIds(s, cids, cs) ==
            SeqIds(s, cids[..lo], cs[..lo]) + SeqIds(s, cids[lo..hi], cs[lo..hi]) + SeqIds(s, cids[hi..], cs[hi..])
    ensures SeqIds(s, cids[..lo], cs[..lo]) !! SeqIds(s, cids[lo..hi], cs[lo..hi])
    ensures SeqIds(s, cids[..lo], cs[..lo]) !! SeqIds(s, cids[hi..], cs[hi..])
    ensures SeqIds(s, cids[lo..hi], cs[lo..hi]) !! SeqIds(s, cids[hi..], cs[hi..])
  {
    assert cids == cids[..lo] + (cids[lo..hi] + cids[hi..]);
    assert cs == cs[..lo] + (cs[lo..hi] + cs[hi..]);
    ChildrenConcat(s, cids[..lo], cs[..lo], cids[lo..hi] + cids[hi..], cs[lo..hi] + cs[hi..]);
    SeqIdsConcat(s, cids[..lo], cs[..lo], cids[lo..hi] + cids[hi..], cs[lo..hi] + cs[hi..]);
    ChildrenConcat(s, cids[lo..hi], cs[lo..hi], cids[hi..], cs[hi..]);
    SeqIdsConcat(s, cids[lo..hi], cs[lo..hi], cids[hi..], cs[hi..]);
  }

  /** Child `j` of a run represents its tree, inside the run's memory. */
  lemma ChildAt(s: Store, cids: seq<NodeId>, cs: seq<Tree>, j: int)
    requires ChildrenRep(s, cids, cs) && 0 <= j < |cs|
    ensures Rep(s, cids[j], cs[j]) && Ids(s, cids[j], cs[j]) <= SeqIds(s, cids, cs)
  {
    ChildrenAround(s, cids, cs, j, j + 1);
    assert cids[j..j + 1] == [cids[j]] && cs[j..j + 1] == [cs[j]];
    ChildrenOne(s, cids[j], cs[j]);
  }

  /** The nodes of the children before `lo` and from `hi` on. */
  ghost function OutIds(s: Store, cids: seq<NodeId>, cs: seq<Tree>, lo: int, hi: int): set<NodeId>
    requires 0 <= lo <= hi <= |cs| == |cids|
  {
    SeqIds(s, cids[..lo], cs[..lo]) + SeqIds(s, cids[hi..], cs[hi..])
  }

  /** Children `lo .. hi` replaced by a new run in a part of memory apart
      from the other children, which memory keeps as they were. */
  lemma ChildrenSplice(s: Store, s': Store, cids: seq<NodeId>, cs: seq<Tree>, lo: int, hi: int,
                       mids: seq<NodeId>, mts: seq<Tree>)
    requires ChildrenRep(s, cids, cs) && 0 <= lo <= hi <= |cs|
    requires ChildrenRep(s', mids, mts)
    requires Agree(s, s', OutIds(s, cids, cs, lo, hi))
    requires SeqIds(s', mids, mts) !! OutIds(s, cids, cs, lo, hi)
    ensures ChildrenRep(s', cids[..lo] + mids + cids[hi..], cs[..lo] + mts + cs[hi..])
    ensures SeqIds(s', cids[..lo] + mids + cids[hi..], cs[..lo] + mts + cs[hi..])
            == OutIds(s, cids, cs, lo, hi) + SeqIds(s', mids, mts)
  {
    var a, ats, c, cts := cids[..lo], cs[..lo], cids[hi..], cs[hi..];
    ChildrenAround(s, cids, cs, lo, hi);
    ChildrenFrame(s, s', a, ats);
    ChildrenFrame(s, s', c, cts);
    SeqIdsConcat(s', a, ats, mids, mts);
    ChildrenConcat(s', a, ats, mids, mts);
    SeqIdsConcat(s', a + mids, ats + mts, c, cts);
    ChildrenConcat(s', a + mids, ats + mts, c, cts);
  }

  /** The children `lo .. hi` of the internal node `x` replaced by a new run
      and its keys by `ks'`, with memory kept outside `x` and the replaced
      children: the subtree at `x` represents the tree with the new run. */
  lemma ParentSplice(s: Store, s': Store, x: NodeId, m: Tree, lo: int, hi: int,
                     mids: seq<NodeId>, mts: seq<Tree>, ks': seq<int>)
    requires Rep(s, x, m) && m.Internal? && 0 <= lo <= hi <= |m.children|
    requires ChildrenRep(s', mids, mts)
    requires x in s' && s'[x] == Node(true, ks', s[x].children[..lo] + mids + s[x].children[hi..])
    requires Outside(s, s', {x} + SeqIds(s, s[x].children[lo..hi], m.children[lo..hi]))
    requires x !in SeqIds(s', mids, mts)
    requires SeqIds(s', mids, mts) !! OutIds(s, s[x].children, m.children, lo, hi)
    ensures Rep(s', x, Internal(ks', m.children[..lo] + mts + m.children[hi..]))
    ensures Ids(s', x, Internal(ks', m.children[..lo] + mts + m.children[hi..]))
            == {x} + OutIds(s, s[x].children, m.children, lo, hi) + SeqIds(s', mids, mts)
  {
    var cids, cs := s[x].children, m.children;
    var out := OutIds(s, cids, cs, lo, hi);
    RepInStore(s, x, m);
    ChildrenAround(s, cids, cs, lo, hi);
    OutsideAgree(s, s', {x} + SeqIds(s, cids[lo..hi], cs[lo..hi]), out);
    ChildrenSplice(s, s', cids, cs, lo, hi, mids, mts);
    InternalRep(s', x, ks', cids[..lo] + mids + cids[hi..], cs[..lo] + mts + cs[hi..]);
  }

  /** Children `lo .. hi` of the internal node `x`, seen from `x`: their
      nodes, the other children's nodes and `x` itself are three disjoint
      parts of the subtree at `x`, which lies inside memory. */
  lemma RunIds(s: Store, x: NodeId, m: Tree, lo: int, hi: int)
    requires Rep(s, x, m) && m.Internal? && 0 <= lo <= hi <= |m.children|
    ensures ChildrenRep(s, s[x].children[lo..hi], m.children[lo..hi])
    ensures Ids(s, x, m) == {x} + OutIds(s, s[x].children, m.children, lo, hi)
                            + SeqIds(s, s[x].children[lo..hi], m.children[lo..hi])
    ensures SeqIds(s, s[x].children[lo..hi], m.children[lo..hi]) !! OutIds(s, s[x].children, m.children, lo, hi)
    ensures x !in SeqIds(s, s[x].children[lo..hi], m.children[lo..hi])
    ensures x !in OutIds(s, s[x].children, m.children, lo, hi)
    ensures Ids(s, x, m) <= s.Keys
  {
    RepInStore(s, x, m);
    ChildrenAround(s, s[x].children, m.children, lo, hi);
  }

  /** A child of a represented internal node is represented. */
  lemma ChildRep(s: Store, x: NodeId, m: Tree, i: int)
    requires Rep(s, x, m) && m.Internal? && 0 <= i < |m.children|
    ensures Rep(s, s[x].children[i], m.children[i])
  {
    ChildAt(s, s[x].children, m.children, i);
  }

  /** An internal node with a single child, freed: the child's subtree
      stays as it was and holds the node's other nodes. */
  lemma OnlyChildRep(s: Store, x: NodeId, m: Tree)
    requires Rep(s, x, m) && m.Internal? && |m.children| == 1
    ensures Rep(s - {x}, s[x].children[0], m.children[0])
    ensures Ids(s - {x}, s[x].children[0], m.children[0]) == Ids(s, x, m) - {x}
  {
    var c, mc := s[x].children[0], m.children[0];
    ChildIds(s, x, m, 0);
    assert s[x].children[..0] == [] && s[x].children[1..] == [];
    assert m.children[..0] == [] && m.children[1..] == [];
    assert Ids(s, x, m) == {x} + Ids(s, c, mc);
    assert Agree(s, s - {x}, Ids(s, c, mc));
    RepFrame(s, s - {x}, c, mc);
  }

  /** Child `i` of the internal node `x`, seen from `x`. */
  lemma ChildIds(s: Store, x: NodeId, m: Tree, i: int)
    requires Rep(s, x, m) && m.Internal? && 0 <= i < |m.children|
    ensures Rep(s, s[x].children[i], m.children[i])
    ensures SeqIds(s, s[x].children[i..i + 1], m.children[i..i + 1]) == Ids(s, s[x].children[i], m.children[i])
    ensures Ids(s, x, m) == {x} + OutIds(s, s[x].children, m.children, i, i + 1) + Ids(s, s[x].children[i], m.children[i])
    ensures Ids(s, s[x].children[i], m.children[i]) !! OutIds(s, s[x].children, m.children, i, i + 1)
    ensures x !in Ids(s, s[x].children[i], m.children[i]) && x !in OutIds(s, s[x].children, m.children, i, i + 1)
    ensures Ids(s, x, m) <= s.Keys
  {
    var cids, cs := s[x].children, m.children;
    RunIds(s, x, m, i, i + 1);
    assert cids[i..i + 1] == [cids[i]] && cs[i..i + 1] == [cs[i]];
    ChildrenOne(s, cids[i], cs[i]);
  }

  /** A sequence is its part before position `i`, its elements `i` and
      `i + 1`, and its part after them. */
  lemma PairAround<T>(q: seq<T>, i: int)
    requires 0 <= i && i + 2 <= |q|
    ensures q[..i] + [q[i], q[i + 1]] + q[i + 2..] == q
  {
    assert q[..i] + [q[i], q[i + 1]] + q[i + 2..] == q[..i] + q[i..i + 2] + q[i + 2..];
  }

  /** Children `i` and `i + 1` of the internal node `x`, seen from `x`. */
  lemma PairIds(s: Store, x: NodeId, m: Tree, i: int)
    requires Rep(s, x, m) && m.Internal? && 0 <= i && i + 1 < |m.children|
    ensures Rep(s, s[x].children[i], m.children[i]) && Rep(s, s[x].children[i + 1], m.children[i + 1])
    ensures Ids(s, s[x].children[i], m.children[i]) !! Ids(s, s[x].children[i + 1], m.children[i + 1])
    ensures SeqIds(s, s[x].children[i..i + 2], m.children[i..i + 2])
            == Ids(s, s[x].children[i], m.children[i]) + Ids(s, s[x].children[i + 1], m.children[i + 1])
  {
    var cids, cs := s[x].children, m.children;
    RunIds(s, x, m, i, i + 2);
    assert cids[i..i + 2] == [cids[i], cids[i + 1]] && cs[i..i + 2] == [cs[i], cs[i + 1]];
    ChildrenTwo(s, cids[i], cs[i], cids[i + 1], cs[i + 1]);
  }

  /** A run of two children. */
  lemma ChildrenTwo(s: Store, y: NodeId, my: Tree, z: NodeId, mz: Tree)
    ensures SeqIds(s, [y, z], [my, mz]) == Ids(s, y, my) + Ids(s, z, mz)
    ensures ChildrenRep(s, [y, z], [my, mz]) <==> Rep(s, y, my) && Rep(s, z, mz) && Ids(s, y, my) !! Ids(s, z, mz)
  {
    assert [y, z] == [y] + [z] && [my, mz] == [my] + [mz];
    ChildrenConcat(s, [y], [my], [z], [mz]);
    SeqIdsConcat(s, [y], [my], [z], [mz]);
    ChildrenOne(s, y, my);
    ChildrenOne(s, z, mz);
  }

  /** Child `i` of the internal node `x` replaced in place, and the keys of
      `x` rewritten, while memory outside `x` and child `i` is kept and
      child `i`'s new nodes are its old ones or fresh. */
  lemma ChildUpdate(s: Store, s': Store, x: NodeId, m: Tree, i: int, c': Tree, ks': seq<int>)
    requires Rep(s, x, m) && m.Internal? && 0 <= i < |m.children|
    requires Rep(s', s[x].children[i], c')
    requires Outside(s, s', {x} + Ids(s, s[x].children[i], m.children[i]))
    requires x in s' && s'[x] == Node(true, ks', s[x].children)
    requires Ids(s', s[x].children[i], c') <= Ids(s, s[x].children[i], m.children[i]) + (s'.Keys - s.Keys)
    ensures Rep(s', x, Internal(ks', m.children[i := c']))
    ensures Ids(s', x, Internal(ks', m.children[i := c']))
            == Ids(s, x, m) - Ids(s, s[x].children[i], m.children[i]) + Ids(s', s[x].children[i], c')
  {
    var cids, cs := s[x].children, m.children;
    var c := cids[i];
    ChildIds(s, x, m, i);
    ChildrenOne(s', c, c');
    assert cids[..i] + [c] + cids[i + 1..] == cids;
    ParentSplice(s, s', x, m, i, i + 1, [c], [c'], ks');
    assert cs[..i] + [c'] + cs[i + 1..] == cs[i := c'];
  }

  /** Child `i` of the internal node `x` shrunk in place, after which `x`
      holds the keys `ks'` and no other node changes: the subtree at `x` has
      shrunk into `x` over the new child. */
  lemma ChildShrunk(s0: Store, s1: Store, s2: Store, x: NodeId, m: Tree, i: int, c': Tree, ks': seq<int>)
    requires Rep(s0, x, m) && m.Internal? && 0 <= i < |m.children|
    requires Shrunk(s0, s1, s0[x].children[i], m.children[i], c')
    requires x in s2 && s2[x] == Node(true, ks', s0[x].children) && Outside(s1, s2, {x}) && s2.Keys == s1.Keys
    ensures Shrunk(s0, s2, x, m, Internal(ks', m.children[i := c']))
  {
    var c := s0[x].children[i];
    ChildIds(s0, x, m, i);
    RepInStore(s1, c, c');
    assert Agree(s1, s2, Ids(s1, c, c'));
    RepFrame(s1, s2, c, c');
    ChildUpdate(s0, s2, x, m, i, c', ks');
  }

  /** Every address in `ids` is below `z`. */
  lemma {:induction false} AboveAll(ids: set<NodeId>) returns (z: NodeId)
    ensures forall y :: y in ids ==> y < z
    decreases |ids|
  {
    if ids == {} {
      z := 0;
    } else {
      var y :| y in ids;
      var z' := AboveAll(ids - {y});
      z := if y < z' then z' else y + 1;
      forall w | w in ids ensures w < z {
        if w != y {
          assert w in ids - {y};
        }
      }
    }
  }

  /** Memory always has an unused address, which is what `KB_CALLOC` hands out. */
  lemma FreshExists(s: Store)
    ensures exists z: NodeId :: z !in s
  {
    var z := AboveAll(s.Keys);
    assert z !in s;
  }
}
