/** The abstract value of a B-tree node: its keys and, for an internal node,
    its children. Every heap node of the implementation carries one of these
    as its ghost model; the B-tree invariants and the effect of each
    restructuring step are stated and proved here, on values.
 */
module TreeModel {
  import opened Keys

  datatype Tree = Leaf(keys: seq<int>) | Internal(keys: seq<int>, children: seq<Tree>)

  /** The in-order key sequence of a subtree. */
  function InOrder(m: Tree): seq<int>
    decreases m
  {
    match m
    case Leaf(ks) => ks
    case Internal(ks, cs) => Flatten(ks, cs)
  }

  /** `InOrder(cs[0]) + [ks[0]] + InOrder(cs[1]) + ... + InOrder(cs[|ks|])`. */
  function Flatten(ks: seq<int>, cs: seq<Tree>): seq<int>
    decreases cs
  {
    if |cs| == 0 then []
    else if |ks| == 0 then InOrder(cs[0])
    else InOrder(cs[0]) + [ks[0]] + Flatten(ks[1..], cs[1..])
  }

  /** Distance from a node to the leaves below it, along the leftmost path. */
  function Height(m: Tree): nat
  {
    match m
    case Leaf(_) => 0
    case Internal(_, cs) => if |cs| == 0 then 1 else 1 + Height(cs[0])
  }

  /** The B-tree shape invariants for minimum degree `t`, for a subtree whose
      root holds at least `lo` keys (`t - 1` below the root, 0 at the root):
      at most `2t - 1` keys per node, `n + 1` children under an internal node
      with `n` keys, every child holding at least `t - 1` keys, and all
      leaves at the same depth. */
  ghost predicate WF(m: Tree, t: int, lo: int)
  {
    && lo <= |m.keys| <= 2 * t - 1
    && (m.Internal? ==>
          && |m.children| == |m.keys| + 1
          && forall j :: 0 <= j < |m.children| ==>
               WF(m.children[j], t, t - 1) && Height(m.children[j]) == Height(m.children[0]))
  }

  /** A child of a well-formed node is a well-formed subtree, lower than
      its parent. */
  lemma ChildWF(m: Tree, j: int, t: int, lo: int)
    requires WF(m, t, lo) && m.Internal? && 0 <= j < |m.children| && 1 <= t
    ensures WF(m.children[j], t, 0) && Height(m.children[j]) < Height(m)
  {
    assert WF(m.children[j], t, t - 1);
  }

  /** The keys of an internal node's subtree that come before child `j`. */
  function Pre(ks: seq<int>, cs: seq<Tree>, j: int): seq<int>
    requires 0 <= j <= |ks| && |cs| == |ks| + 1
  {
    if j == 0 then [] else Flatten(ks[..j - 1], cs[..j]) + [ks[j - 1]]
  }

  /** The keys of an internal node's subtree that come after child `j`. */
  function Post(ks: seq<int>, cs: seq<Tree>, j: int): seq<int>
    requires 0 <= j <= |ks| && |cs| == |ks| + 1
  {
    if j == |ks| then [] else [ks[j]] + Flatten(ks[j + 1..], cs[j + 1..])
  }

  /** What comes before child `j` depends only on the keys and children
      before it. */
  lemma PreSame(ks: seq<int>, cs: seq<Tree>, ks': seq<int>, cs': seq<Tree>, j: int)
    requires 0 <= j <= |ks| && |cs| == |ks| + 1 && |ks'| == |ks| && |cs'| == |cs|
    requires ks'[..j] == ks[..j] && cs'[..j] == cs[..j]
    ensures Pre(ks', cs', j) == Pre(ks, cs, j)
  {
    if j > 0 {
      assert ks'[..j - 1] == ks[..j - 1] && ks'[j - 1] == ks[j - 1];
    }
  }

  /** What comes after child `j` depends only on the keys and children
      after it. */
  lemma PostSame(ks: seq<int>, cs: seq<Tree>, ks': seq<int>, cs': seq<Tree>, j: int)
    requires 0 <= j <= |ks| && |cs| == |ks| + 1 && |ks'| == |ks| && |cs'| == |cs|
    requires ks'[j..] == ks[j..] && cs'[j + 1..] == cs[j + 1..]
    ensures Post(ks', cs', j) == Post(ks, cs, j)
  {
    if j < |ks| {
      assert ks'[j + 1..] == ks[j + 1..] && ks'[j] == ks[j];
    }
  }

  /** Number of in-order keys before child `j` (internal) or key `j` (leaf). */
  function Before(m: Tree, j: int): nat
  {
    if m.Leaf? then (if j < 0 then 0 else j)
    else if 0 <= j <= |m.keys| && |m.children| == |m.keys| + 1 then |Pre(m.keys, m.children, j)|
    else 0
  }

  /** Flattening distributes over a key that joins two runs of children. */
  lemma {:induction false} FlattenAppend(ks1: seq<int>, cs1: seq<Tree>, k: int, ks2: seq<int>, cs2: seq<Tree>)
    requires |cs1| == |ks1| + 1 && |cs2| == |ks2| + 1
    ensures Flatten(ks1 + [k] + ks2, cs1 + cs2) == Flatten(ks1, cs1) + [k] + Flatten(ks2, cs2)
    decreases |ks1|
  {
    var ks, cs := ks1 + [k] + ks2, cs1 + cs2;
    if |ks1| == 0 {
      assert ks[1..] == ks2 && cs[1..] == cs2;
    } else {
      assert ks[1..] == ks1[1..] + [k] + ks2 && cs[1..] == cs1[1..] + cs2;
      FlattenAppend(ks1[1..], cs1[1..], k, ks2, cs2);
    }
  }

  /** A run of keys and children followed by what comes after child `j`. */
  lemma {:induction false} FlattenTail(ks: seq<int>, cs: seq<Tree>, j: int, ks': seq<int>, cs': seq<Tree>)
    requires |cs| == |ks| + 1 && 0 <= j < |cs| && |cs'| == |ks'| + 1
    ensures Flatten(ks' + ks[j..], cs' + cs[j + 1..]) == Flatten(ks', cs') + Post(ks, cs, j)
  {
    if j < |ks| {
      assert ks' + ks[j..] == ks' + [ks[j]] + ks[j + 1..];
      FlattenAppend(ks', cs', ks[j], ks[j + 1..], cs[j + 1..]);
    } else {
      assert ks' + ks[j..] == ks';
      assert cs' + cs[j + 1..] == cs';
    }
  }

  /** Replacing child `j` by a run of keys and children splices that run's
      flattening between the keys before and after child `j`. */
  lemma {:induction false} FlattenReplace(ks: seq<int>, cs: seq<Tree>, j: int, ks': seq<int>, cs': seq<Tree>)
    requires |cs| == |ks| + 1 && 0 <= j < |cs| && |cs'| == |ks'| + 1
    ensures Flatten(ks[..j] + ks' + ks[j..], cs[..j] + cs' + cs[j + 1..])
            == Pre(ks, cs, j) + Flatten(ks', cs') + Post(ks, cs, j)
  {
    var tailK, tailC := ks' + ks[j..], cs' + cs[j + 1..];
    var mid, post := Flatten(ks', cs'), Post(ks, cs, j);
    FlattenTail(ks, cs, j, ks', cs');
    if j > 0 {
      var front := Flatten(ks[..j - 1], cs[..j]);
      calc {
        Flatten(ks[..j] + ks' + ks[j..], cs[..j] + cs' + cs[j + 1..]);
        { assert ks[..j] + ks' + ks[j..] == ks[..j - 1] + [ks[j - 1]] + tailK;
          assert cs[..j] + cs' + cs[j + 1..] == cs[..j] + tailC; }
        Flatten(ks[..j - 1] + [ks[j - 1]] + tailK, cs[..j] + tailC);
        { FlattenAppend(ks[..j - 1], cs[..j], ks[j - 1], tailK, tailC); }
        front + [ks[j - 1]] + (mid + post);
        Pre(ks, cs, j) + (mid + post);
      }
    } else {
      assert ks[..j] + ks' + ks[j..] == tailK;
      assert cs[..j] + cs' + cs[j + 1..] == tailC;
    }
  }

  /** The in-order sequence of an internal node around child `j`. */
  lemma {:induction false} FlattenAt(ks: seq<int>, cs: seq<Tree>, j: int)
    requires |cs| == |ks| + 1 && 0 <= j < |cs|
    ensures Flatten(ks, cs) == Pre(ks, cs, j) + InOrder(cs[j]) + Post(ks, cs, j)
  {
    assert ks[..j] + [] + ks[j..] == ks;
    assert cs[..j] + [cs[j]] + cs[j + 1..] == cs;
    FlattenReplace(ks, cs, j, [], [cs[j]]);
    assert Flatten([], [cs[j]]) == InOrder(cs[j]);
  }

  /** A key of an internal node occurs in the node's in-order sequence. */
  lemma {:induction false} KeyInFlatten(ks: seq<int>, cs: seq<Tree>, i: int)
    requires |cs| == |ks| + 1 && 0 <= i < |ks|
    ensures ks[i] in Flatten(ks, cs)
    ensures ks[i] in Pre(ks, cs, i + 1)
  {
    FlattenAt(ks, cs, i + 1);
  }

  /** Where the keys before, inside and after child `j` sit relative to the
      two keys that bracket child `j`, in a sorted subtree. */
  lemma ChildBounds(m: Tree, j: int)
    requires m.Internal? && |m.children| == |m.keys| + 1 && 0 <= j <= |m.keys|
    requires Sorted(InOrder(m))
    ensures Sorted(InOrder(m.children[j]))
    ensures forall e :: e in Pre(m.keys, m.children, j) ==> e <= m.keys[j - 1]
    ensures forall e :: e in Post(m.keys, m.children, j) ==> m.keys[j] <= e
    ensures forall e :: e in InOrder(m.children[j]) ==>
              (j > 0 ==> m.keys[j - 1] <= e) && (j < |m.keys| ==> e <= m.keys[j])
  {
    var ks, cs := m.keys, m.children;
    var pre, mid, post := Pre(ks, cs, j), InOrder(cs[j]), Post(ks, cs, j);
    FlattenAt(ks, cs, j);
    assert InOrder(m) == pre + (mid + post);
    SortedConcat(pre, mid + post);
    SortedConcat(mid, post);
    assert InOrder(m) == (pre + mid) + post;
    SortedConcat(pre + mid, post);
    SortedConcat(pre, mid);
    if j > 0 {
      var front := Flatten(ks[..j - 1], cs[..j]);
      assert pre == front + [ks[j - 1]];
      SortedConcat(front, [ks[j - 1]]);
      assert ks[j - 1] in pre;
    }
    if j < |ks| {
      var back := Flatten(ks[j + 1..], cs[j + 1..]);
      assert post == [ks[j]] + back;
      SortedConcat([ks[j]], back);
      assert ks[j] in post;
    }
  }

  /** Each subtree of a sorted tree is sorted. */
  lemma ChildSorted(m: Tree, j: int)
    requires m.Internal? && |m.children| == |m.keys| + 1 && 0 <= j <= |m.keys|
    requires Sorted(InOrder(m))
    ensures Sorted(InOrder(m.children[j]))
  {
    ChildBounds(m, j);
  }

  /** The keys stored in one node of a sorted subtree are sorted. */
  lemma NodeKeysSorted(m: Tree)
    requires m.Internal? ==> |m.children| == |m.keys| + 1
    requires Sorted(InOrder(m))
    ensures Sorted(m.keys)
  {
    if m.Internal? {
      var ks, cs := m.keys, m.children;
      forall a, b | 0 <= a < b < |ks| ensures ks[a] <= ks[b] {
        FlattenAt(ks, cs, b);
        assert ks[b] in Post(ks, cs, b);
        if a == b - 1 {
          assert ks[a] in Pre(ks, cs, b);
        } else {
          KeyInFlatten(ks[..b - 1], cs[..b], a);
          assert ks[..b - 1][a] == ks[a];
          assert ks[a] in Pre(ks, cs, b);
        }
        assert ks[b] in InOrder(cs[b]) + Post(ks, cs, b);
        assert InOrder(m) == Pre(ks, cs, b) + (InOrder(cs[b]) + Post(ks, cs, b));
        SortedConcat(Pre(ks, cs, b), InOrder(cs[b]) + Post(ks, cs, b));
      }
    }
  }

  /** A subtree's in-order sequence when child `j` is replaced by `c`. */
  lemma ReplaceChildInOrder(m: Tree, j: int, c: Tree)
    requires m.Internal? && |m.children| == |m.keys| + 1 && 0 <= j < |m.children|
    ensures InOrder(Internal(m.keys, m.children[j := c]))
            == Pre(m.keys, m.children, j) + InOrder(c) + Post(m.keys, m.children, j)
    ensures InOrder(m) == Pre(m.keys, m.children, j) + InOrder(m.children[j]) + Post(m.keys, m.children, j)
  {
    var ks, cs := m.keys, m.children;
    var cs' := cs[j := c];
    FlattenAt(ks, cs, j);
    FlattenAt(ks, cs', j);
    assert cs'[..j] == cs[..j] && cs'[j + 1..] == cs[j + 1..];
  }

  /** Replacing a child by a well-formed subtree of the same height keeps the
      parent well-formed. */
  lemma ReplaceChildWF(m: Tree, j: int, c: Tree, t: int, lo: int)
    requires WF(m, t, lo) && m.Internal? && 0 <= j < |m.children|
    requires WF(c, t, t - 1) && Height(c) == Height(m.children[j])
    ensures WF(Internal(m.keys, m.children[j := c]), t, lo)
    ensures Height(Internal(m.keys, m.children[j := c])) == Height(m)
  {
  }

  // ----- Splitting a full child (insertion) -----

  /** The first `t - 1` keys (and `t` children) of a full node. */
  function SplitLow(y: Tree, t: int): Tree
    requires 1 <= t && |y.keys| == 2 * t - 1
    requires y.Internal? ==> |y.children| == 2 * t
  {
    match y
    case Leaf(ks) => Leaf(ks[..t - 1])
    case Internal(ks, cs) => Internal(ks[..t - 1], cs[..t])
  }

  /** The last `t - 1` keys (and `t` children) of a full node. */
  function SplitHigh(y: Tree, t: int): Tree
    requires 1 <= t && |y.keys| == 2 * t - 1
    requires y.Internal? ==> |y.children| == 2 * t
  {
    match y
    case Leaf(ks) => Leaf(ks[t..])
    case Internal(ks, cs) => Internal(ks[t..], cs[t..])
  }

  /** Child `i` of `m`, full, is split around its median key `t - 1`, which
      moves up into `m` at index `i`; the upper half becomes child `i + 1`. */
  function SplitChild(m: Tree, i: int, t: int): Tree
    requires m.Internal? && |m.children| == |m.keys| + 1 && 0 <= i < |m.children|
    requires 1 <= t && |m.children[i].keys| == 2 * t - 1
    requires m.children[i].Internal? ==> |m.children[i].children| == 2 * t
  {
    var y := m.children[i];
    Internal(m.keys[..i] + [y.keys[t - 1]] + m.keys[i..],
             m.children[..i] + [SplitLow(y, t), SplitHigh(y, t)] + m.children[i + 1..])
  }

  /** A full root moved under a new root with no key and split there: the
      result holds the same keys in order, keeps the B-tree invariants, is one
      level higher and has a single key at its root. */
  lemma RootSplit(m: Tree, t: int)
    requires 2 <= t && WF(m, t, 0) && |m.keys| == 2 * t - 1
    ensures m.Internal? ==> |m.children| == 2 * t
    ensures SplitChild(Internal([], [m]), 0, t).keys == [m.keys[t - 1]]
    ensures InOrder(SplitChild(Internal([], [m]), 0, t)) == InOrder(m)
    ensures WF(SplitChild(Internal([], [m]), 0, t), t, 0)
    ensures Height(SplitChild(Internal([], [m]), 0, t)) == Height(m) + 1
  {
    var m0 := Internal([], [m]);
    assert InOrder(m0) == InOrder(m);
    assert WF(m, t, t - 1);
    SplitChildSpec(m0, 0, t, 0);
  }

  /** The two halves and the median of a full node, in order, are the node's keys. */
  lemma SplitHalves(y: Tree, t: int)
    requires 1 <= t && |y.keys| == 2 * t - 1
    requires y.Internal? ==> |y.children| == 2 * t
    ensures InOrder(y) == InOrder(SplitLow(y, t)) + [y.keys[t - 1]] + InOrder(SplitHigh(y, t))
  {
    var ks := y.keys;
    assert ks == ks[..t - 1] + [ks[t - 1]] + ks[t..];
    if y.Internal? {
      var cs := y.children;
      assert cs == cs[..t] + cs[t..];
      FlattenAppend(ks[..t - 1], cs[..t], ks[t - 1], ks[t..], cs[t..]);
    }
  }

  /** Splitting a full child keeps the in-order sequence, the height and the
      B-tree invariants of a non-full parent. */
  lemma SplitChildSpec(m: Tree, i: int, t: int, lo: int)
    requires WF(m, t, lo) && m.Internal? && 2 <= t && |m.keys| < 2 * t - 1
    requires 0 <= i < |m.children| && |m.children[i].keys| == 2 * t - 1
    requires m.children[i].Internal? ==> |m.children[i].children| == 2 * t
    ensures InOrder(SplitChild(m, i, t)) == InOrder(m)
    ensures WF(SplitChild(m, i, t), t, lo)
    ensures Height(SplitChild(m, i, t)) == Height(m)
  {
    var ks, cs, y := m.keys, m.children, m.children[i];
    var low, high := SplitLow(y, t), SplitHigh(y, t);
    var r := SplitChild(m, i, t);
    // in-order sequence
    SplitHalves(y, t);
    FlattenReplace(ks, cs, i, [y.keys[t - 1]], [low, high]);
    FlattenAt(ks, cs, i);
    assert Flatten([y.keys[t - 1]], [low, high]) == InOrder(low) + [y.keys[t - 1]] + InOrder(high);
    // shape of the two halves
    assert WF(y, t, t - 1);
    if y.Internal? {
      forall j | 0 <= j < |low.children|
        ensures WF(low.children[j], t, t - 1) && Height(low.children[j]) == Height(low.children[0])
      {
        assert low.children[j] == y.children[j];
      }
      forall j | 0 <= j < |high.children|
        ensures WF(high.children[j], t, t - 1) && Height(high.children[j]) == Height(high.children[0])
      {
        assert high.children[j] == y.children[t + j];
        assert high.children[0] == y.children[t];
      }
      assert high.children[0] == y.children[t];
    }
    assert WF(low, t, t - 1) && WF(high, t, t - 1);
    assert Height(low) == Height(y) && Height(high) == Height(y);
    forall j | 0 <= j < |r.children|
      ensures WF(r.children[j], t, t - 1) && Height(r.children[j]) == Height(cs[0])
    {
      if j < i {
        assert r.children[j] == cs[j];
      } else if j == i {
        assert r.children[j] == low;
      } else if j == i + 1 {
        assert r.children[j] == high;
      } else {
        assert r.children[j] == cs[j - 1];
      }
    }
    assert Height(r.children[0]) == Height(cs[0]);
  }

  // ----- Merging two children (deletion) -----

  /** Node `y`, separator `sep` and node `z` of the same kind made into one node. */
  function Merged(y: Tree, sep: int, z: Tree): Tree
    requires y.Internal? == z.Internal?
  {
    match y
    case Leaf(yks) => Leaf(yks + [sep] + z.keys)
    case Internal(yks, ycs) => Internal(yks + [sep] + z.keys, ycs + z.children)
  }

  /** Children `i` and `i + 1` of `m` and the key between them become one
      child at index `i`; `m` loses that key and child `i + 1`. */
  function MergeChildren(m: Tree, i: int): Tree
    requires m.Internal? && |m.children| == |m.keys| + 1 && 0 <= i < |m.keys|
    requires m.children[i].Internal? == m.children[i + 1].Internal?
  {
    Internal(m.keys[..i] + m.keys[i + 1..],
             m.children[..i] + [Merged(m.children[i], m.keys[i], m.children[i + 1])] + m.children[i + 2..])
  }

  /** The in-order sequence of a merged node. */
  lemma MergedInOrder(y: Tree, sep: int, z: Tree)
    requires y.Internal? == z.Internal?
    requires y.Internal? ==> |y.children| == |y.keys| + 1 && |z.children| == |z.keys| + 1
    ensures InOrder(Merged(y, sep, z)) == InOrder(y) + [sep] + InOrder(z)
  {
    if y.Internal? {
      FlattenAppend(y.keys, y.children, sep, z.keys, z.children);
    }
  }

  /** Merging two children around their separator keeps the in-order sequence. */
  lemma MergeChildrenInOrder(m: Tree, i: int)
    requires m.Internal? && |m.children| == |m.keys| + 1 && 0 <= i < |m.keys|
    requires m.children[i].Internal? == m.children[i + 1].Internal?
    requires m.children[i].Internal? ==>
               |m.children[i].children| == |m.children[i].keys| + 1 &&
               |m.children[i + 1].children| == |m.children[i + 1].keys| + 1
    ensures InOrder(MergeChildren(m, i)) == InOrder(m)
  {
    var ks, cs := m.keys, m.children;
    var y, z := cs[i], cs[i + 1];
    var r := MergeChildren(m, i);
    // m is r with child i replaced by the run (y, ks[i], z)
    assert r.keys[..i] + [ks[i]] + r.keys[i..] == ks;
    assert r.children[..i] + [y, z] + r.children[i + 1..] == cs;
    FlattenReplace(r.keys, r.children, i, [ks[i]], [y, z]);
    FlattenAt(r.keys, r.children, i);
    assert Flatten([ks[i]], [y, z]) == InOrder(y) + [ks[i]] + InOrder(z);
    MergedInOrder(y, ks[i], z);
  }

  /** Two minimal siblings and their separator make one full node of their height. */
  lemma MergedShape(y: Tree, sep: int, z: Tree, t: int)
    requires WF(y, t, t - 1) && WF(z, t, t - 1) && |y.keys| == t - 1 && |z.keys| == t - 1
    requires y.Internal? == z.Internal? && Height(y) == Height(z)
    ensures WF(Merged(y, sep, z), t, t - 1) && Height(Merged(y, sep, z)) == Height(y)
    ensures |Merged(y, sep, z).keys| == 2 * t - 1
  {
    var mg := Merged(y, sep, z);
    if y.Internal? {
      forall j | 0 <= j < |mg.children|
        ensures WF(mg.children[j], t, t - 1) && Height(mg.children[j]) == Height(mg.children[0])
      {
        if j < |y.children| {
          assert mg.children[j] == y.children[j];
        } else {
          assert mg.children[j] == z.children[j - |y.children|];
        }
      }
      assert mg.children[0] == y.children[0];
    }
  }

  /** Merging two minimal children keeps the height; the merged child is
      full, and the parent, which loses one key, stays well-formed as long
      as it had a key to spare. */
  lemma MergeChildrenShape(m: Tree, i: int, t: int, lo: int)
    requires WF(m, t, lo) && m.Internal? && 2 <= t && lo < |m.keys|
    requires 0 <= i < |m.keys|
    requires |m.children[i].keys| == t - 1 && |m.children[i + 1].keys| == t - 1
    requires m.children[i].Internal? == m.children[i + 1].Internal?
    ensures WF(MergeChildren(m, i), t, lo)
    ensures Height(MergeChildren(m, i)) == Height(m)
    ensures |MergeChildren(m, i).children[i].keys| == 2 * t - 1
  {
    var ks, cs := m.keys, m.children;
    var mg := Merged(cs[i], ks[i], cs[i + 1]);
    var r := MergeChildren(m, i);
    MergedShape(cs[i], ks[i], cs[i + 1], t);
    forall j | 0 <= j < |r.children|
      ensures WF(r.children[j], t, t - 1) && Height(r.children[j]) == Height(cs[0])
    {
      if j < i {
        assert r.children[j] == cs[j];
      } else if j == i {
        assert r.children[j] == mg;
      } else {
        assert r.children[j] == cs[j + 1];
      }
    }
    assert Height(r.children[0]) == Height(cs[0]);
  }

  // ----- Borrowing from a sibling (deletion) -----

  /** A node without its last key and, if internal, its last child. */
  function DropLast(y: Tree): Tree
    requires |y.keys| >= 1 && (y.Internal? ==> |y.children| == |y.keys| + 1)
  {
    match y
    case Leaf(ks) => Leaf(ks[..|ks| - 1])
    case Internal(ks, cs) => Internal(ks[..|ks| - 1], cs[..|ks|])
  }

  /** A node without its first key and, if internal, its first child. */
  function DropFirst(y: Tree): Tree
    requires |y.keys| >= 1 && (y.Internal? ==> |y.children| >= 1)
  {
    match y
    case Leaf(ks) => Leaf(ks[1..])
    case Internal(ks, cs) => Internal(ks[1..], cs[1..])
  }

  /** A node with `k` put before its keys and, if internal, `c` before its children. */
  function PushFront(k: int, c: Tree, xp: Tree): Tree {
    match xp
    case Leaf(ks) => Leaf([k] + ks)
    case Internal(ks, cs) => Internal([k] + ks, [c] + cs)
  }

  /** A node with `k` put after its keys and, if internal, `c` after its children. */
  function PushBack(xp: Tree, k: int, c: Tree): Tree {
    match xp
    case Leaf(ks) => Leaf(ks + [k])
    case Internal(ks, cs) => Internal(ks + [k], cs + [c])
  }

  /** The last child of an internal node; nothing is moved from a leaf. */
  function LastChild(y: Tree): Tree {
    if y.Internal? && |y.children| > 0 then y.children[|y.children| - 1] else Leaf([])
  }

  /** The first child of an internal node; nothing is moved from a leaf. */
  function FirstChild(y: Tree): Tree {
    if y.Internal? && |y.children| > 0 then y.children[0] else Leaf([])
  }

  /** Child `i` borrows through the parent from its left sibling: the
      parent's key `i - 1` moves to the front of child `i`, the sibling's
      last key replaces it, and the sibling's last child becomes the first
      child of child `i`. */
  function RotateRight(m: Tree, i: int): Tree
    requires m.Internal? && |m.children| == |m.keys| + 1 && 0 < i < |m.children|
    requires |m.children[i - 1].keys| >= 1
    requires m.children[i - 1].Internal? == m.children[i].Internal?
    requires m.children[i - 1].Internal? ==> |m.children[i - 1].children| == |m.children[i - 1].keys| + 1
  {
    var y, xp := m.children[i - 1], m.children[i];
    Internal(m.keys[..i - 1] + [y.keys[|y.keys| - 1]] + m.keys[i..],
             m.children[..i - 1] + [DropLast(y), PushFront(m.keys[i - 1], LastChild(y), xp)] + m.children[i + 1..])
  }

  /** Child `i` borrows through the parent from its right sibling: the
      parent's key `i` moves to the end of child `i`, the sibling's first key
      replaces it, and the sibling's first child becomes the last child of
      child `i`. */
  function RotateLeft(m: Tree, i: int): Tree
    requires m.Internal? && |m.children| == |m.keys| + 1 && 0 <= i < |m.keys|
    requires |m.children[i + 1].keys| >= 1
    requires m.children[i].Internal? == m.children[i + 1].Internal?
    requires m.children[i + 1].Internal? ==> |m.children[i + 1].children| >= 1
  {
    var xp, y := m.children[i], m.children[i + 1];
    Internal(m.keys[..i] + [y.keys[0]] + m.keys[i + 1..],
             m.children[..i] + [PushBack(xp, m.keys[i], FirstChild(y)), DropFirst(y)] + m.children[i + 2..])
  }

  /** Two adjacent children `j`, `j + 1` of `m` and the key between them,
      flattened, with the rest of `m` around them. */
  lemma {:induction false} FlattenPair(m: Tree, j: int)
    requires m.Internal? && |m.children| == |m.keys| + 1 && 0 <= j < |m.keys|
    ensures InOrder(m) == Pre(m.keys[..j] + m.keys[j + 1..], m.children[..j] + [Leaf([])] + m.children[j + 2..], j)
                          + InOrder(m.children[j]) + [m.keys[j]] + InOrder(m.children[j + 1])
                          + Post(m.keys[..j] + m.keys[j + 1..], m.children[..j] + [Leaf([])] + m.children[j + 2..], j)
  {
    var bk, bc := m.keys[..j] + m.keys[j + 1..], m.children[..j] + [Leaf([])] + m.children[j + 2..];
    assert bk[..j] + [m.keys[j]] + bk[j..] == m.keys;
    assert bc[..j] + [m.children[j], m.children[j + 1]] + bc[j + 1..] == m.children;
    FlattenReplace(bk, bc, j, [m.keys[j]], [m.children[j], m.children[j + 1]]);
    assert Flatten([m.keys[j]], [m.children[j], m.children[j + 1]])
        == InOrder(m.children[j]) + [m.keys[j]] + InOrder(m.children[j + 1]);
  }

  /** Two nodes that differ only in one adjacent pair of children and the
      key between them, where that part flattens the same, flatten the same. */
  lemma PairReplace(m: Tree, r: Tree, j: int)
    requires m.Internal? && r.Internal? && |m.children| == |m.keys| + 1 && |r.children| == |r.keys| + 1
    requires |m.keys| == |r.keys| && 0 <= j < |m.keys|
    requires m.keys[..j] == r.keys[..j] && m.keys[j + 1..] == r.keys[j + 1..]
    requires m.children[..j] == r.children[..j] && m.children[j + 2..] == r.children[j + 2..]
    requires InOrder(m.children[j]) + [m.keys[j]] + InOrder(m.children[j + 1])
          == InOrder(r.children[j]) + [r.keys[j]] + InOrder(r.children[j + 1])
    ensures InOrder(m) == InOrder(r)
  {
    var bk, bc := m.keys[..j] + m.keys[j + 1..], m.children[..j] + [Leaf([])] + m.children[j + 2..];
    assert bk == r.keys[..j] + r.keys[j + 1..];
    assert bc == r.children[..j] + [Leaf([])] + r.children[j + 2..];
    var mid := InOrder(m.children[j]) + [m.keys[j]] + InOrder(m.children[j + 1]);
    FlattenPair(m, j);
    assert InOrder(m) == Pre(bk, bc, j) + mid + Post(bk, bc, j);
    FlattenPair(r, j);
    assert InOrder(r) == Pre(bk, bc, j) + mid + Post(bk, bc, j);
  }

  /** A node's in-order sequence with its first key and child taken out. */
  lemma InOrderFirst(ks: seq<int>, cs: seq<Tree>)
    requires |cs| == |ks| + 1 && |ks| >= 1
    ensures InOrder(Internal(ks, cs)) == InOrder(cs[0]) + [ks[0]] + InOrder(Internal(ks[1..], cs[1..]))
  {
  }

  /** A node's in-order sequence with its last key and child taken out. */
  lemma InOrderLast(ks: seq<int>, cs: seq<Tree>)
    requires |cs| == |ks| + 1 && |ks| >= 1
    ensures InOrder(Internal(ks, cs))
         == InOrder(Internal(ks[..|ks| - 1], cs[..|ks|])) + [ks[|ks| - 1]] + InOrder(cs[|ks|])
  {
    var l := |ks| - 1;
    assert ks == ks[..l] + [ks[l]] + [];
    assert cs == cs[..l + 1] + [cs[l + 1]];
    FlattenAppend(ks[..l], cs[..l + 1], ks[l], [], [cs[l + 1]]);
  }

  /** In-order sequence of a borrow from the left sibling. */
  lemma RotateRightInOrder(m: Tree, i: int)
    requires m.Internal? && |m.children| == |m.keys| + 1 && 0 < i < |m.children|
    requires |m.children[i - 1].keys| >= 1
    requires m.children[i - 1].Internal? == m.children[i].Internal?
    requires m.children[i - 1].Internal? ==> |m.children[i - 1].children| == |m.children[i - 1].keys| + 1
    requires m.children[i].Internal? ==> |m.children[i].children| == |m.children[i].keys| + 1
    ensures InOrder(RotateRight(m, i)) == InOrder(m)
  {
    var ks, cs := m.keys, m.children;
    var y, xp := cs[i - 1], cs[i];
    var r := RotateRight(m, i);
    var y', xp' := r.children[i - 1], r.children[i];
    var last := |y.keys| - 1;
    var mid := InOrder(y') + [y.keys[last]] + InOrder(xp');
    if y.Internal? {
      InOrderLast(y.keys, y.children);
      InOrderFirst(xp'.keys, xp'.children);
      assert xp'.keys[1..] == xp.keys && xp'.children[1..] == xp.children;
      assert mid == InOrder(y) + [ks[i - 1]] + InOrder(xp);
    } else {
      assert y.keys == y.keys[..last] + [y.keys[last]];
      assert mid == InOrder(y) + [ks[i - 1]] + InOrder(xp);
    }
    assert r.keys[..i - 1] == ks[..i - 1] && r.keys[i..] == ks[i..];
    assert r.children[..i - 1] == cs[..i - 1] && r.children[i + 1..] == cs[i + 1..];
    PairReplace(m, r, i - 1);
  }

  /** Shape of a borrow from the left sibling. */
  lemma RotateRightShape(m: Tree, i: int, t: int, lo: int)
    requires WF(m, t, lo) && m.Internal? && 2 <= t && 0 < i < |m.children|
    requires |m.children[i].keys| == t - 1 && |m.children[i - 1].keys| >= t
    requires m.children[i - 1].Internal? == m.children[i].Internal?
    requires m.children[i - 1].Internal? ==> |m.children[i - 1].children| == |m.children[i - 1].keys| + 1
    ensures WF(RotateRight(m, i), t, lo)
    ensures Height(RotateRight(m, i)) == Height(m)
    ensures |RotateRight(m, i).children[i].keys| == t
  {
    var ks, cs := m.keys, m.children;
    var y, xp := cs[i - 1], cs[i];
    assert WF(y, t, t - 1) && WF(xp, t, t - 1);
    var r := RotateRight(m, i);
    var y', xp' := r.children[i - 1], r.children[i];
    var last := |y.keys| - 1;
    if y.Internal? {
      forall j | 0 <= j < |y'.children|
        ensures WF(y'.children[j], t, t - 1) && Height(y'.children[j]) == Height(y'.children[0])
      {
        assert y'.children[j] == y.children[j];
      }
      assert y'.children[0] == y.children[0];
      forall j | 0 <= j < |xp'.children|
        ensures WF(xp'.children[j], t, t - 1) && Height(xp'.children[j]) == Height(y.children[0])
      {
        if j == 0 {
          assert xp'.children[j] == y.children[last + 1];
        } else {
          assert xp'.children[j] == xp.children[j - 1];
        }
      }
    }
    assert WF(y', t, t - 1) && WF(xp', t, t - 1);
    assert Height(y') == Height(y) && Height(xp') == Height(xp);
    forall j | 0 <= j < |r.children|
      ensures WF(r.children[j], t, t - 1) && Height(r.children[j]) == Height(cs[0])
    {
      if j < i - 1 || j > i {
        assert r.children[j] == cs[j];
      }
    }
    assert Height(r.children[0]) == Height(cs[0]);
  }

  /** In-order sequence of a borrow from the right sibling. */
  lemma RotateLeftInOrder(m: Tree, i: int)
    requires m.Internal? && |m.children| == |m.keys| + 1 && 0 <= i < |m.keys|
    requires |m.children[i + 1].keys| >= 1
    requires m.children[i].Internal? == m.children[i + 1].Internal?
    requires m.children[i].Internal? ==> |m.children[i].children| == |m.children[i].keys| + 1
    requires m.children[i + 1].Internal? ==> |m.children[i + 1].children| == |m.children[i + 1].keys| + 1
    ensures InOrder(RotateLeft(m, i)) == InOrder(m)
  {
    var ks, cs := m.keys, m.children;
    var xp, y := cs[i], cs[i + 1];
    var r := RotateLeft(m, i);
    var xp', y' := r.children[i], r.children[i + 1];
    var mid := InOrder(xp') + [y.keys[0]] + InOrder(y');
    if y.Internal? {
      InOrderFirst(y.keys, y.children);
      InOrderLast(xp'.keys, xp'.children);
      assert xp'.keys[..|xp'.keys| - 1] == xp.keys && xp'.children[..|xp'.keys|] == xp.children;
      assert mid == InOrder(xp) + [ks[i]] + InOrder(y);
    } else {
      assert y.keys == [y.keys[0]] + y.keys[1..];
      assert mid == InOrder(xp) + [ks[i]] + InOrder(y);
    }
    assert r.keys[..i] == ks[..i] && r.keys[i + 1..] == ks[i + 1..];
    assert r.children[..i] == cs[..i] && r.children[i + 2..] == cs[i + 2..];
    PairReplace(m, r, i);
  }

  /** Shape of a borrow from the right sibling. */
  lemma RotateLeftShape(m: Tree, i: int, t: int, lo: int)
    requires WF(m, t, lo) && m.Internal? && 2 <= t && 0 <= i < |m.keys|
    requires |m.children[i].keys| == t - 1 && |m.children[i + 1].keys| >= t
    requires m.children[i].Internal? == m.children[i + 1].Internal?
    requires m.children[i + 1].Internal? ==> |m.children[i + 1].children| >= 1
    ensures WF(RotateLeft(m, i), t, lo)
    ensures Height(RotateLeft(m, i)) == Height(m)
    ensures |RotateLeft(m, i).children[i].keys| == t
  {
    var ks, cs := m.keys, m.children;
    var xp, y := cs[i], cs[i + 1];
    assert WF(y, t, t - 1) && WF(xp, t, t - 1);
    var r := RotateLeft(m, i);
    var xp', y' := r.children[i], r.children[i + 1];
    if y.Internal? {
      forall j | 0 <= j < |y'.children|
        ensures WF(y'.children[j], t, t - 1) && Height(y'.children[j]) == Height(y.children[0])
      {
        assert y'.children[j] == y.children[j + 1];
      }
      forall j | 0 <= j < |xp'.children|
        ensures WF(xp'.children[j], t, t - 1) && Height(xp'.children[j]) == Height(xp'.children[0])
      {
        if j < |xp.children| {
          assert xp'.children[j] == xp.children[j];
        } else {
          assert xp'.children[j] == y.children[0];
        }
      }
      assert xp'.children[0] == xp.children[0];
    }
    assert WF(y', t, t - 1) && WF(xp', t, t - 1);
    assert Height(y') == Height(y) && Height(xp') == Height(xp);
    forall j | 0 <= j < |r.children|
      ensures WF(r.children[j], t, t - 1) && Height(r.children[j]) == Height(cs[0])
    {
      if j < i || j > i + 1 {
        assert r.children[j] == cs[j];
      }
    }
    assert Height(r.children[0]) == Height(cs[0]);
  }
}
