/** The iterator (`kbitr_t`, kbtree.h:53-56, and `kb_itr_*`, kbtree.h:359-400):
    a fixed stack of frames, one per level, from the root down to the node
    holding the current key.

    A frame is a `Pos`: a node and an index. Below the top frame, the index
    is the child the walk went down into; in the top frame it is the key
    the iterator stands at. `Path` ties such a stack to the tree in memory
    and to its model, and `Position` says which element of the tree's
    in-order sequence the top frame denotes. */
module Iteration {
  import opened Keys
  import opened TreeModel
  import opened NodeStore
  import opened NodeSearch
  import opened KeyBounds
  import opened BTree

  /** `KB_MAX_DEPTH`: the number of frames in an iterator. */
  const MaxDepth := 64

  // ---------------------------------------------------------------------
  // Walks down the tree
  // ---------------------------------------------------------------------

  /** Index `i` names a child of the internal node `b`. */
  ghost predicate Branch(b: Tree, i: int) {
    b.Internal? && |b.children| == |b.keys| + 1 && 0 <= i <= |b.keys|
  }

  /** The frames `fs` go down from the root of `m`, each into the child
      its parent frame names; `ms[d]` is the subtree frame `d` is at and
      `os[d]` the number of keys of `m` before that subtree. */
  ghost predicate Walk(m: Tree, fs: seq<Pos>, ms: seq<Tree>, os: seq<int>) {
    && 1 <= |fs| && |ms| == |fs| && |os| == |fs|
    && ms[0] == m && os[0] == 0
    && forall d :: 0 <= d < |fs| - 1 ==>
         && Branch(ms[d], fs[d].i)
         && ms[d + 1] == ms[d].children[fs[d].i]
         && os[d + 1] == os[d] + Before(ms[d], fs[d].i)
  }

  /** Node `y` is the child that frame `f` names. */
  ghost predicate Under(s: Store, f: Pos, y: NodeId) {
    f.x.Some? && f.x.value in s && 0 <= f.i < |s[f.x.value].children| && s[f.x.value].children[f.i] == y
  }

  /** The walk `fs` is made in memory, down the tree at `r` that
      represents `m`: each frame's node is the child its parent frame
      names. */
  ghost predicate Path(s: Store, r: NodeId, m: Tree, fs: seq<Pos>, ms: seq<Tree>, os: seq<int>) {
    && Walk(m, fs, ms, os) && Rep(s, r, m) && fs[0].x == Some(r)
    && (forall d :: 0 <= d < |fs| ==> fs[d].x.Some? && fs[d].x.value in s)
    && (forall d :: 0 <= d < |fs| - 1 ==> Under(s, fs[d], fs[d + 1].x.value))
  }

  /** Each frame's node represents the subtree the frame is at. */
  lemma {:induction false} PathRep(s: Store, r: NodeId, m: Tree, fs: seq<Pos>, ms: seq<Tree>, os: seq<int>, d: int)
    requires Path(s, r, m, fs, ms, os) && 0 <= d < |fs|
    ensures Rep(s, fs[d].x.value, ms[d])
    decreases d
  {
    if d > 0 {
      PathRep(s, r, m, fs, ms, os, d - 1);
      assert Under(s, fs[d - 1], fs[d].x.value) && Branch(ms[d - 1], fs[d - 1].i);
      ChildRep(s, fs[d - 1].x.value, ms[d - 1], fs[d - 1].i);
    }
  }

  /** A walk whose top frame names a key of its node. */
  ghost predicate At(s: Store, r: NodeId, m: Tree, fs: seq<Pos>, ms: seq<Tree>, os: seq<int>) {
    Path(s, r, m, fs, ms, os) && 0 <= fs[|fs| - 1].i < |ms[|fs| - 1].keys|
  }

  /** The number of keys of the subtree `b` that come before its key `i`. */
  ghost function Local(b: Tree, i: int): int {
    Before(b, i) + (if b.Internal? && 0 <= i < |b.children| then |InOrder(b.children[i])| else 0)
  }

  /** The element of the in-order sequence the top frame of a walk denotes. */
  ghost function Position(fs: seq<Pos>, ms: seq<Tree>, os: seq<int>): int
    requires 1 <= |fs| && |ms| == |fs| && |os| == |fs|
  {
    os[|fs| - 1] + Local(ms[|fs| - 1], fs[|fs| - 1].i)
  }

  /** Going down into the child the top frame names extends the walk. */
  lemma PathPush(s: Store, r: NodeId, m: Tree, fs: seq<Pos>, ms: seq<Tree>, os: seq<int>, y: NodeId, j: int)
    requires Path(s, r, m, fs, ms, os)
    requires Branch(ms[|fs| - 1], fs[|fs| - 1].i) && Under(s, fs[|fs| - 1], y)
    ensures Path(s, r, m, fs + [Pos(Some(y), j)],
                 ms + [ms[|fs| - 1].children[fs[|fs| - 1].i]],
                 os + [os[|fs| - 1] + Before(ms[|fs| - 1], fs[|fs| - 1].i)])
  {
    PathRep(s, r, m, fs, ms, os, |fs| - 1);
    ChildRep(s, fs[|fs| - 1].x.value, ms[|fs| - 1], fs[|fs| - 1].i);
  }

  /** Changing the index of the top frame keeps the walk. */
  lemma PathRetop(s: Store, r: NodeId, m: Tree, fs: seq<Pos>, ms: seq<Tree>, os: seq<int>, i: int)
    requires Path(s, r, m, fs, ms, os)
    ensures Path(s, r, m, fs[|fs| - 1 := Pos(fs[|fs| - 1].x, i)], ms, os)
  {
  }

  /** Dropping the top frame leaves a walk. */
  lemma PathPop(s: Store, r: NodeId, m: Tree, fs: seq<Pos>, ms: seq<Tree>, os: seq<int>)
    requires Path(s, r, m, fs, ms, os) && 2 <= |fs|
    ensures Path(s, r, m, fs[..|fs| - 1], ms[..|fs| - 1], os[..|fs| - 1])
  {
  }

  /** Along a walk in a B-tree the subtrees are B-trees, one level lower
      per frame. */
  lemma {:induction false} PathShape(m: Tree, fs: seq<Pos>, ms: seq<Tree>, os: seq<int>, t: int, lo: int, d: int)
    requires Walk(m, fs, ms, os) && WF(m, t, lo) && 1 <= t && 0 <= d < |fs|
    ensures WF(ms[d], t, if d == 0 then lo else t - 1) && Height(ms[d]) + d == Height(m)
    decreases d
  {
    if d > 0 {
      PathShape(m, fs, ms, os, t, lo, d - 1);
      assert WF(ms[d - 1].children[fs[d - 1].i], t, t - 1);
    }
  }

  /** The keys of the subtree of frame `d` are a run of `InOrder(m)`
      starting at the frame's offset. */
  lemma {:induction false} PathSlice(m: Tree, fs: seq<Pos>, ms: seq<Tree>, os: seq<int>, d: int)
    requires Walk(m, fs, ms, os) && 0 <= d < |fs|
    ensures 0 <= os[d] && os[d] + |InOrder(ms[d])| <= |InOrder(m)|
    ensures InOrder(m)[os[d]..os[d] + |InOrder(ms[d])|] == InOrder(ms[d])
    decreases d
  {
    if d > 0 {
      PathSlice(m, fs, ms, os, d - 1);
      var b, j := ms[d - 1], fs[d - 1].i;
      ChildSlice(b, j);
      SubSlice(InOrder(m), InOrder(b), os[d - 1], Before(b, j), Before(b, j) + |InOrder(b.children[j])|);
    }
  }

  /** The keys of child `j` are a run of the node's in-order sequence,
      after the `Before(b, j)` keys before the child. */
  lemma ChildSlice(b: Tree, j: int)
    requires Branch(b, j)
    ensures Before(b, j) + |InOrder(b.children[j])| <= |InOrder(b)|
    ensures InOrder(b)[Before(b, j)..Before(b, j) + |InOrder(b.children[j])|] == InOrder(b.children[j])
  {
    FlattenAt(b.keys, b.children, j);
  }

  /** A run inside a run of `a` is a run of `a`. */
  lemma SubSlice(a: seq<int>, b: seq<int>, o: int, l: int, h: int)
    requires 0 <= o && o + |b| <= |a| && a[o..o + |b|] == b && 0 <= l <= h <= |b|
    ensures a[o + l..o + h] == b[l..h]
  {
    forall q | 0 <= q < h - l
      ensures a[o + l..o + h][q] == b[l..h][q]
    {
      assert a[o + l + q] == a[o..o + |b|][l + q];
    }
  }

  lemma InRun(a: seq<int>, b: seq<int>, o: int, l: int)
    requires 0 <= o && o + |b| <= |a| && a[o..o + |b|] == b && 0 <= l < |b|
    ensures a[o + l] == b[l]
  {
    assert a[o + l] == a[o..o + |b|][l];
  }

  /** Key `i` of a node is the element of its subtree's in-order sequence
      after the `Local(b, i)` keys before it, and the keys before child
      `i + 1` are those and key `i`. */
  lemma LocalKey(b: Tree, i: int)
    requires 0 <= i < |b.keys| && (b.Internal? ==> |b.children| == |b.keys| + 1)
    ensures 0 <= Local(b, i) < |InOrder(b)| && InOrder(b)[Local(b, i)] == b.keys[i]
    ensures Before(b, i + 1) == Local(b, i) + 1
  {
    if b.Internal? {
      var ks, cs := b.keys, b.children;
      FlattenAt(ks, cs, i);
      if i == 0 {
        assert cs[..1] == [cs[0]];
        assert Flatten(ks[..0], cs[..1]) == InOrder(cs[0]);
      } else {
        assert ks[..i - 1] + [ks[i - 1]] + [] == ks[..i];
        assert cs[..i] + [cs[i]] == cs[..i + 1];
        FlattenAppend(ks[..i - 1], cs[..i], ks[i - 1], [], [cs[i]]);
        assert Flatten([], [cs[i]]) == InOrder(cs[i]);
      }
    }
  }

  /** Past the last key of a node come all the keys of its subtree. */
  lemma LocalEnd(b: Tree)
    requires b.Internal? ==> |b.children| == |b.keys| + 1
    ensures Local(b, |b.keys|) == |InOrder(b)|
  {
    if b.Internal? {
      FlattenAt(b.keys, b.children, |b.keys|);
    }
  }

  /** The key a walk stands at is the element of `InOrder(m)` at the
      walk's position. */
  lemma PositionKey(s: Store, r: NodeId, m: Tree, fs: seq<Pos>, ms: seq<Tree>, os: seq<int>, t: int, lo: int)
    requires At(s, r, m, fs, ms, os) && WF(m, t, lo) && 1 <= t
    ensures fs[|fs| - 1].x.value in s && 0 <= fs[|fs| - 1].i < |s[fs[|fs| - 1].x.value].keys|
    ensures 0 <= Position(fs, ms, os) < |InOrder(m)|
    ensures InOrder(m)[Position(fs, ms, os)] == s[fs[|fs| - 1].x.value].keys[fs[|fs| - 1].i]
  {
    var top := |fs| - 1;
    var b, i := ms[top], fs[top].i;
    PathRep(s, r, m, fs, ms, os, top);
    PathShape(m, fs, ms, os, t, lo, top);
    PathSlice(m, fs, ms, os, top);
    LocalKey(b, i);
    InRun(InOrder(m), InOrder(b), os[top], Local(b, i));
  }

  // ---------------------------------------------------------------------
  // Depth
  // ---------------------------------------------------------------------

  function Pow2(e: nat): nat {
    if e == 0 then 1 else 2 * Pow2(e - 1)
  }

  lemma Pow2Mono(a: nat, b: nat)
    requires a <= b
    ensures Pow2(a) <= Pow2(b)
    decreases b
  {
    if a < b {
      Pow2Mono(a, b - 1);
    }
  }

  lemma {:induction false} Pow2Add(a: nat, b: nat)
    ensures Pow2(a + b) == Pow2(a) * Pow2(b)
    decreases a
  {
    if a > 0 {
      Pow2Add(a - 1, b);
    }
  }

  lemma Pow2Of32()
    ensures Pow2(32) == 0x1_0000_0000
  {
    assert Pow2(4) == 16;
    Pow2Add(4, 4);
    assert Pow2(8) == 256;
    Pow2Add(8, 8);
    assert Pow2(16) == 0x1_0000;
    Pow2Add(16, 16);
  }

  /** A B-tree whose nodes hold at least one key has at least
      `2^(h+1) - 1` keys, `h` being its height. */
  lemma {:induction false} KeysHeight(m: Tree, t: int, lo: int)
    requires 2 <= t && 1 <= lo && WF(m, t, lo)
    ensures Pow2(Height(m) + 1) <= |InOrder(m)| + 1
    decreases m
  {
    if m.Internal? {
      var ks, cs := m.keys, m.children;
      assert WF(cs[0], t, t - 1) && WF(cs[1], t, t - 1);
      KeysHeight(cs[0], t, t - 1);
      KeysHeight(cs[1], t, t - 1);
      FlattenAt(ks, cs, 1);
      assert cs[..1] == [cs[0]];
      assert Flatten(ks[..0], cs[..1]) == InOrder(cs[0]);
    }
  }

  /** A tree with fewer than `2^31` keys (`n_keys` is an `int`) is at most
      30 levels high, so a walk down it fits in `MaxDepth` frames. */
  lemma DepthBound(s: Store, r: NodeId, m: Tree, t: int, count: int)
    requires 2 <= t && Good(s, r, m, t, count) && |InOrder(m)| <= 0x7fff_ffff
    ensures Height(m) <= 30
  {
    if m.Internal? {
      KeysHeight(m, t, 1);
      if Height(m) > 30 {
        Pow2Mono(32, Height(m) + 1);
        Pow2Of32();
      }
    }
  }

  // ---------------------------------------------------------------------
  // The steps of kb_itr_first and kb_itr_next, on walks
  // ---------------------------------------------------------------------

  /** The three sequences describe frames `0 .. |fs| - 1`. */
  ghost predicate Trail(fs: seq<Pos>, ms: seq<Tree>, os: seq<int>) {
    1 <= |fs| && |ms| == |fs| && |os| == |fs|
  }

  /** `fs` goes down the first child at every level: every frame's index
      is 0 and no key comes before the top frame's subtree. */
  ghost predicate Leftmost(s: Store, r: NodeId, m: Tree, fs: seq<Pos>, ms: seq<Tree>, os: seq<int>) {
    && Path(s, r, m, fs, ms, os) && os[|fs| - 1] == 0
    && forall d :: 0 <= d < |fs| ==> fs[d].i == 0
  }

  /** The walk of the root's frame alone. */
  lemma LeftmostRoot(s: Store, r: NodeId, m: Tree)
    requires Rep(s, r, m)
    ensures Leftmost(s, r, m, [Pos(Some(r), 0)], [m], [0])
  {
  }

  /** One step of `kb_itr_first` down the first child of an internal node. */
  lemma LeftmostStep(s: Store, r: NodeId, m: Tree, t: int, fs: seq<Pos>, ms: seq<Tree>, os: seq<int>, y: NodeId)
    requires Leftmost(s, r, m, fs, ms, os) && WF(m, t, 0) && 1 <= t
    requires NodeShape(s, fs[|fs| - 1].x.value, ms[|fs| - 1])
    requires s[fs[|fs| - 1].x.value].isInternal && |s[fs[|fs| - 1].x.value].children| > 0
    requires y == s[fs[|fs| - 1].x.value].children[0]
    ensures Leftmost(s, r, m, fs + [Pos(Some(y), 0)], ms + [ms[|fs| - 1].children[0]], os + [0])
    ensures |fs| <= Height(m) && y in s
  {
    var top := |fs| - 1;
    PathRep(s, r, m, fs, ms, os, top);
    PathShape(m, fs, ms, os, t, 0, top);
    assert Branch(ms[top], 0) && Under(s, fs[top], y);
    assert Before(ms[top], 0) == 0;
    PathPush(s, r, m, fs, ms, os, y, 0);
    var fs' := fs + [Pos(Some(y), 0)];
    assert forall d :: 0 <= d < |fs'| ==> fs'[d].i == 0;
    assert Height(ms[top]) >= 1;
    ChildRep(s, fs[top].x.value, ms[top], 0);
  }

  /** Where `kb_itr_first` stops, at a leaf, it stands at the least key of
      a nonempty tree. */
  lemma LeftmostDone(s: Store, r: NodeId, m: Tree, t: int, fs: seq<Pos>, ms: seq<Tree>, os: seq<int>)
    requires Leftmost(s, r, m, fs, ms, os) && WF(m, t, 0) && 2 <= t && |InOrder(m)| > 0
    requires !(s[fs[|fs| - 1].x.value].isInternal && |s[fs[|fs| - 1].x.value].children| > 0)
    ensures At(s, r, m, fs, ms, os) && Position(fs, ms, os) == 0
  {
    var top := |fs| - 1;
    PathRep(s, r, m, fs, ms, os, top);
    PathShape(m, fs, ms, os, t, 0, top);
    assert ms[top].Leaf?;
  }

  /** After the key at index `i` of the subtree `b` (or, for `i` at the
      end, after the whole subtree): the number of keys of `b` passed. */
  ghost function After(b: Tree, i: int): int {
    if i < |b.keys| then Local(b, i) + 1 else |InOrder(b)|
  }

  /** Between rounds of `kb_itr_next`'s outer loop: `pos` keys lie before
      the top frame's subtree or in it up to and including its key `i`. */
  ghost predicate Passed(fs: seq<Pos>, ms: seq<Tree>, os: seq<int>, pos: int) {
    && Trail(fs, ms, os)
    && 0 <= fs[|fs| - 1].i <= |ms[|fs| - 1].keys|
    && os[|fs| - 1] + After(ms[|fs| - 1], fs[|fs| - 1].i) == pos
  }

  /** In `kb_itr_next`'s descent, at a frame whose index `i` is at most
      the number of keys `n`: `pos` keys lie before child (or key) `i`;
      once `i` is `n + 1`: `pos` keys lie up to the end of the subtree. */
  ghost predicate Descending(fs: seq<Pos>, ms: seq<Tree>, os: seq<int>, pos: int) {
    && Trail(fs, ms, os)
    && 0 <= fs[|fs| - 1].i <= |ms[|fs| - 1].keys| + 1
    && (fs[|fs| - 1].i <= |ms[|fs| - 1].keys| ==> os[|fs| - 1] + Before(ms[|fs| - 1], fs[|fs| - 1].i) == pos)
    && (fs[|fs| - 1].i == |ms[|fs| - 1].keys| + 1 ==> os[|fs| - 1] + |InOrder(ms[|fs| - 1])| == pos)
  }

  /** In `kb_itr_next`'s descent, past a leaf (a null frame above the top
      one): `pos` keys lie before the leaf's key `i`. */
  ghost predicate PastLeaf(fs: seq<Pos>, ms: seq<Tree>, os: seq<int>, pos: int) {
    && Trail(fs, ms, os) && ms[|fs| - 1].Leaf?
    && 0 <= fs[|fs| - 1].i <= |ms[|fs| - 1].keys|
    && os[|fs| - 1] + fs[|fs| - 1].i == pos
  }

  /** After `kb_itr_next` pops a frame: `pos` keys lie before the key the
      top frame names (or the subtree's end). */
  ghost predicate Landed(fs: seq<Pos>, ms: seq<Tree>, os: seq<int>, pos: int) {
    && Trail(fs, ms, os)
    && 0 <= fs[|fs| - 1].i <= |ms[|fs| - 1].keys|
    && Position(fs, ms, os) == pos
  }

  /** A walk at a key has passed the keys up to and including it. */
  lemma AtPassed(s: Store, r: NodeId, m: Tree, t: int, fs: seq<Pos>, ms: seq<Tree>, os: seq<int>)
    requires At(s, r, m, fs, ms, os) && WF(m, t, 0) && 1 <= t
    ensures Passed(fs, ms, os, Position(fs, ms, os) + 1) && |fs| <= Height(m) + 1
  {
    PathShape(m, fs, ms, os, t, 0, |fs| - 1);
  }

  /** The node of the top frame: its keys, kind and children are those of
      the subtree the frame is at. */
  lemma TopNode(s: Store, r: NodeId, m: Tree, t: int, fs: seq<Pos>, ms: seq<Tree>, os: seq<int>)
    requires Path(s, r, m, fs, ms, os) && WF(m, t, 0) && 1 <= t
    ensures NodeShape(s, fs[|fs| - 1].x.value, ms[|fs| - 1])
    ensures ms[|fs| - 1].Internal? ==> |ms[|fs| - 1].children| == |ms[|fs| - 1].keys| + 1
  {
    PathRep(s, r, m, fs, ms, os, |fs| - 1);
    PathShape(m, fs, ms, os, t, 0, |fs| - 1);
  }

  /** `++itr->p->i`. */
  lemma StepIndex(s: Store, r: NodeId, m: Tree, t: int, fs: seq<Pos>, ms: seq<Tree>, os: seq<int>, pos: int)
    requires Path(s, r, m, fs, ms, os) && WF(m, t, 0) && 1 <= t && Passed(fs, ms, os, pos)
    ensures Path(s, r, m, fs[|fs| - 1 := Pos(fs[|fs| - 1].x, fs[|fs| - 1].i + 1)], ms, os)
    ensures Descending(fs[|fs| - 1 := Pos(fs[|fs| - 1].x, fs[|fs| - 1].i + 1)], ms, os, pos)
  {
    var top := |fs| - 1;
    PathRetop(s, r, m, fs, ms, os, fs[top].i + 1);
    PathShape(m, fs, ms, os, t, 0, top);
    if fs[top].i < |ms[top].keys| {
      LocalKey(ms[top], fs[top].i);
    }
  }

  /** Going down from an internal node into child `i`. */
  lemma StepDown(s: Store, r: NodeId, m: Tree, t: int, fs: seq<Pos>, ms: seq<Tree>, os: seq<int>, pos: int, y: NodeId)
    requires Path(s, r, m, fs, ms, os) && WF(m, t, 0) && 1 <= t && Descending(fs, ms, os, pos)
    requires NodeShape(s, fs[|fs| - 1].x.value, ms[|fs| - 1])
    requires ms[|fs| - 1].Internal? ==> |ms[|fs| - 1].children| == |ms[|fs| - 1].keys| + 1
    requires fs[|fs| - 1].i <= |ms[|fs| - 1].keys| && s[fs[|fs| - 1].x.value].isInternal
    requires y == s[fs[|fs| - 1].x.value].children[fs[|fs| - 1].i]
    ensures Path(s, r, m, fs + [Pos(Some(y), 0)],
                 ms + [ms[|fs| - 1].children[fs[|fs| - 1].i]],
                 os + [os[|fs| - 1] + Before(ms[|fs| - 1], fs[|fs| - 1].i)])
    ensures Descending(fs + [Pos(Some(y), 0)],
                       ms + [ms[|fs| - 1].children[fs[|fs| - 1].i]],
                       os + [os[|fs| - 1] + Before(ms[|fs| - 1], fs[|fs| - 1].i)], pos)
    ensures |fs| <= Height(m)
  {
    var top := |fs| - 1;
    PathRep(s, r, m, fs, ms, os, top);
    PathShape(m, fs, ms, os, t, 0, top);
    PathPush(s, r, m, fs, ms, os, y, 0);
    assert WF(ms[top].children[fs[top].i], t, t - 1);
  }

  /** Stepping past a leaf: the null frame above it. */
  lemma StepLeaf(s: Store, r: NodeId, m: Tree, t: int, fs: seq<Pos>, ms: seq<Tree>, os: seq<int>, pos: int)
    requires Path(s, r, m, fs, ms, os) && WF(m, t, 0) && 1 <= t && Descending(fs, ms, os, pos)
    requires fs[|fs| - 1].i <= |ms[|fs| - 1].keys| && !s[fs[|fs| - 1].x.value].isInternal
    ensures PastLeaf(fs, ms, os, pos) && |fs| <= Height(m) + 1
  {
    var top := |fs| - 1;
    PathRep(s, r, m, fs, ms, os, top);
    PathShape(m, fs, ms, os, t, 0, top);
  }

  /** Popping the null frame above a leaf. */
  lemma PopLeaf(fs: seq<Pos>, ms: seq<Tree>, os: seq<int>, pos: int)
    requires PastLeaf(fs, ms, os, pos)
    ensures Landed(fs, ms, os, pos)
  {
  }

  /** Popping a frame whose subtree has been passed entirely: either the
      root's, when every key has been passed, or one whose parent frame
      names the child it was at. */
  lemma PopSubtree(s: Store, r: NodeId, m: Tree, fs: seq<Pos>, ms: seq<Tree>, os: seq<int>, pos: int)
    requires Path(s, r, m, fs, ms, os) && Descending(fs, ms, os, pos)
    requires fs[|fs| - 1].i == |ms[|fs| - 1].keys| + 1
    ensures |fs| == 1 ==> pos == |InOrder(m)|
    ensures |fs| >= 2 ==> Path(s, r, m, fs[..|fs| - 1], ms[..|fs| - 1], os[..|fs| - 1])
    ensures |fs| >= 2 ==> Landed(fs[..|fs| - 1], ms[..|fs| - 1], os[..|fs| - 1], pos)
  {
    if |fs| >= 2 {
      PathPop(s, r, m, fs, ms, os);
      var d := |fs| - 2;
      assert Branch(ms[d], fs[d].i) && ms[d + 1] == ms[d].children[fs[d].i];
    }
  }

  /** `--itr->p` after the descent of `kb_itr_next`, from the frame `q`:
      either the null frame above a leaf or a frame whose subtree has been
      passed entirely. */
  lemma PopFrame(s: Store, r: NodeId, m: Tree, fs: seq<Pos>, ms: seq<Tree>, os: seq<int>, pos: int, q: int)
    returns (fs': seq<Pos>, ms': seq<Tree>, os': seq<int>)
    requires Path(s, r, m, fs, ms, os)
    requires || (q == |fs| - 1 && Descending(fs, ms, os, pos) && fs[q].i == |ms[q].keys| + 1)
             || (q == |fs| && PastLeaf(fs, ms, os, pos))
    ensures q == 0 ==> pos == |InOrder(m)|
    ensures q >= 1 ==> |fs'| == q && fs' == fs[..q] && Path(s, r, m, fs', ms', os') && Landed(fs', ms', os', pos)
  {
    if q == |fs| {
      PopLeaf(fs, ms, os, pos);
      fs', ms', os' := fs, ms, os;
    } else {
      PopSubtree(s, r, m, fs, ms, os, pos);
      fs', ms', os' := fs[..q], ms[..q], os[..q];
    }
  }

  /** A landing on a key is a walk at the key `pos`; a landing at a node's
      end has passed the whole subtree. */
  lemma StepLanded(s: Store, r: NodeId, m: Tree, t: int, fs: seq<Pos>, ms: seq<Tree>, os: seq<int>, pos: int)
    requires Path(s, r, m, fs, ms, os) && WF(m, t, 0) && 1 <= t && Landed(fs, ms, os, pos)
    ensures fs[|fs| - 1].i < |ms[|fs| - 1].keys| ==> At(s, r, m, fs, ms, os) && pos < |InOrder(m)|
    ensures fs[|fs| - 1].i == |ms[|fs| - 1].keys| ==> Passed(fs, ms, os, pos)
  {
    var top := |fs| - 1;
    PathShape(m, fs, ms, os, t, 0, top);
    if fs[top].i < |ms[top].keys| {
      PositionKey(s, r, m, fs, ms, os, t, 0);
    } else {
      LocalEnd(ms[top]);
    }
  }

  // ---------------------------------------------------------------------
  // Searching with the iterator
  // ---------------------------------------------------------------------

  /** The search result `i` brackets `k` among the keys `ks`: the keys up
      to `i` are below `k` and the ones after it above. */
  ghost predicate Between(ks: seq<int>, i: int, k: int) {
    && -1 <= i < |ks|
    && (forall j :: 0 <= j <= i ==> ks[j] < k)
    && (forall j :: i < j < |ks| ==> k < ks[j])
  }

  /** The frames `kb_itr_get` leaves for `k`: from the root's frame down,
      each frame's node is the child `i + 1` of the node above, where `i`
      is the frame's own index and the search result for `k` in the node
      above. */
  ghost predicate GetFrames(s: Store, r: NodeId, k: int, fs: seq<Pos>) {
    && 1 <= |fs| && fs[0] == Pos(Some(r), 0)
    && (forall d :: 0 <= d < |fs| ==> fs[d].x.Some? && fs[d].x.value in s)
    && (forall d :: 0 < d < |fs| ==>
          Under(s, Pos(fs[d - 1].x, fs[d].i + 1), fs[d].x.value) && Between(s[fs[d - 1].x.value].keys, fs[d].i, k))
  }

  /** One more level of `kb_itr_get`. */
  lemma GetFramesPush(s: Store, r: NodeId, k: int, fs: seq<Pos>, i: int, y: NodeId)
    requires GetFrames(s, r, k, fs) && y in s
    requires Under(s, Pos(fs[|fs| - 1].x, i + 1), y) && Between(s[fs[|fs| - 1].x.value].keys, i, k)
    ensures GetFrames(s, r, k, fs + [Pos(Some(y), i)])
  {
  }

  /** The step of `kb_itr_get` below an internal node `mc` whose keys the
      search for `k` misses: the child `y` at `i + 1` is pushed with index
      `i`, and `k` is in the child's subtree exactly when it is in `mc`. */
  lemma GetStep(s: Store, r: NodeId, k: int, fs: seq<Pos>, mc: Tree, t: int, i: int) returns (y: NodeId)
    requires GetFrames(s, r, k, fs) && Rep(s, fs[|fs| - 1].x.value, mc) && WF(mc, t, 0) && 1 <= t
    requires mc.Internal? && Sorted(InOrder(mc)) && Between(mc.keys, i, k)
    ensures 0 <= i + 1 < |s[fs[|fs| - 1].x.value].children| && y == s[fs[|fs| - 1].x.value].children[i + 1]
    ensures GetFrames(s, r, k, fs + [Pos(Some(y), i)])
    ensures Rep(s, y, mc.children[i + 1]) && WF(mc.children[i + 1], t, 0) && Height(mc.children[i + 1]) + 1 == Height(mc)
    ensures Sorted(InOrder(mc.children[i + 1])) && (k in InOrder(mc) <==> k in InOrder(mc.children[i + 1]))
  {
    var x := fs[|fs| - 1].x.value;
    y := s[x].children[i + 1];
    ChildRep(s, x, mc, i + 1);
    ChildWF(mc, i + 1, t, 0);
    assert Height(mc.children[i + 1]) == Height(mc.children[0]);
    DescendSearch(mc, i, k);
    GetFramesPush(s, r, k, fs, i, y);
  }

  /** A key of a node is in the node's subtree. */
  lemma NodeKey(m: Tree, i: int)
    requires 0 <= i < |m.keys| && (m.Internal? ==> |m.children| == |m.keys| + 1)
    ensures m.keys[i] in InOrder(m)
  {
    if m.Internal? {
      KeyInFlatten(m.keys, m.children, i);
    }
  }

  /** The step of the corrected search: the top frame names child
      `i + 1`, where the search for `k` misses the keys of its internal
      node, and the child is pushed; `k` is in the subtree of the new top
      frame exactly when it was in the old one. */
  lemma SeekStep(s: Store, r: NodeId, m: Tree, t: int, fs: seq<Pos>, ms: seq<Tree>, os: seq<int>, k: int, i: int, y: NodeId)
    requires Path(s, r, m, fs, ms, os) && WF(m, t, 0) && 1 <= t
    requires ms[|fs| - 1].Internal? && |ms[|fs| - 1].children| == |ms[|fs| - 1].keys| + 1
    requires Sorted(InOrder(ms[|fs| - 1])) && Between(ms[|fs| - 1].keys, i, k)
    requires Under(s, Pos(fs[|fs| - 1].x, i + 1), y)
    ensures Path(s, r, m, fs[|fs| - 1 := Pos(fs[|fs| - 1].x, i + 1)] + [Pos(Some(y), 0)],
                 ms + [ms[|fs| - 1].children[i + 1]],
                 os + [os[|fs| - 1] + Before(ms[|fs| - 1], i + 1)])
    ensures |fs| <= Height(m)
    ensures Sorted(InOrder(ms[|fs| - 1].children[i + 1]))
    ensures k in InOrder(ms[|fs| - 1]) <==> k in InOrder(ms[|fs| - 1].children[i + 1])
  {
    var top := |fs| - 1;
    PathRetop(s, r, m, fs, ms, os, i + 1);
    PathPush(s, r, m, fs[top := Pos(fs[top].x, i + 1)], ms, os, y, 0);
    PathShape(m, fs, ms, os, t, 0, top);
    DescendSearch(ms[top], i, k);
  }

  /** The end of the corrected search: with the top frame's index set to a
      key equal to `k`, the walk is at that key, and the key is `k`'s
      element of the in-order sequence. */
  lemma SeekHit(s: Store, r: NodeId, m: Tree, t: int, fs: seq<Pos>, ms: seq<Tree>, os: seq<int>, k: int, i: int)
    requires Path(s, r, m, fs, ms, os) && WF(m, t, 0) && 1 <= t
    requires 0 <= i < |ms[|fs| - 1].keys| && ms[|fs| - 1].keys[i] == k
    ensures At(s, r, m, fs[|fs| - 1 := Pos(fs[|fs| - 1].x, i)], ms, os)
    ensures 0 <= Position(fs[|fs| - 1 := Pos(fs[|fs| - 1].x, i)], ms, os) < |InOrder(m)|
    ensures InOrder(m)[Position(fs[|fs| - 1 := Pos(fs[|fs| - 1].x, i)], ms, os)] == k
  {
    var fs' := fs[|fs| - 1 := Pos(fs[|fs| - 1].x, i)];
    PathRetop(s, r, m, fs, ms, os, i);
    TopNode(s, r, m, t, fs', ms, os);
    PositionKey(s, r, m, fs', ms, os, t, 0);
  }

  /** A two-level tree: the root holds 10 over the leaves [5] and [20]. */
  function SampleNodes(): Store {
    map[0 := Node(true, [10], [1, 2]), 1 := Node(false, [5], []), 2 := Node(false, [20], [])]
  }

  function SampleModel(): Tree {
    Internal([10], [Leaf([5]), Leaf([20])])
  }

  /** The sample's nodes, at 0, 1 and 2, represent it. */
  lemma SampleRep()
    ensures Rep(SampleNodes(), 0, SampleModel()) && Ids(SampleNodes(), 0, SampleModel()) == {0, 1, 2}
  {
    var s, m := SampleNodes(), SampleModel();
    assert Rep(s, 1, m.children[0]) && Ids(s, 1, m.children[0]) == {1};
    assert Rep(s, 2, m.children[1]) && Ids(s, 2, m.children[1]) == {2};
    assert ChildrenRep(s, [2], m.children[1..]) && SeqIds(s, [2], m.children[1..]) == {2};
    assert SeqIds(s, [1, 2], m.children) == {1, 2};
  }

  /** The sample is a sorted B-tree of minimum degree 2 in memory, and 5
      is one of its keys. */
  lemma SampleGood()
    ensures Good(SampleNodes(), 0, SampleModel(), 2, 3)
    ensures InOrder(SampleModel()) == [5, 10, 20]
  {
    SampleRep();
    assert SampleNodes().Keys == {0, 1, 2};
    assert InOrder(SampleModel()) == [5] + [10] + [20];
  }

  /** On the sample, any frames `kb_itr_get` can leave after finding 5 end
      with the leaf [5] at index -1: the top frame is not at a key, so
      `kb_itr_key` would read before the node's first key. */
  lemma GetMisplaces(fs: seq<Pos>, ms: seq<Tree>, os: seq<int>)
    requires GetFrames(SampleNodes(), 0, 5, fs) && 5 in SampleNodes()[fs[|fs| - 1].x.value].keys
    ensures fs[|fs| - 1] == Pos(Some(1), -1)
    ensures !At(SampleNodes(), 0, SampleModel(), fs, ms, os)
  {
    var s, top := SampleNodes(), |fs| - 1;
    assert top >= 1;
    assert Under(s, Pos(fs[top - 1].x, fs[top].i + 1), fs[top].x.value);
    assert Between(s[fs[top - 1].x.value].keys, fs[top].i, 5);
    assert fs[top - 1].x == Some(0) && s[0].keys[0] == 10;
  }

  // ---------------------------------------------------------------------
  // The iterator
  // ---------------------------------------------------------------------

  /** `kbitr_t`. */
  class Itr {
    /** The frames, `stack[0]` being the root's. */
    const stack: array<Pos>
    /** The index of the frame `itr->p` points at; below 0 for the null
        pointer and for a pointer below the stack. */
    var p: int
    /** For each frame up to `p`, the subtree it is at and the number of
        keys before that subtree. */
    ghost var Subtrees: seq<Tree>
    ghost var Offsets: seq<int>

    constructor ()
      ensures stack.Length == MaxDepth && p == -1 && fresh(stack)
    {
      stack := new Pos[MaxDepth](_ => Pos(None, 0));
      p := -1;
      Subtrees, Offsets := [], [];
    }

    /** The iterator stands at a key of `b`. */
    ghost predicate On(b: KBTree)
      reads this, stack, b
    {
      stack.Length == MaxDepth && 0 <= p < MaxDepth && At(b.nodes, b.root, b.Model, stack[..p + 1], Subtrees, Offsets)
    }

    /** The index, in `b`'s in-order sequence, of the key the iterator stands at. */
    ghost function Index(b: KBTree): int
      reads this, stack, b
      requires On(b)
    {
      Position(stack[..p + 1], Subtrees, Offsets)
    }

    /** `kb_itr_valid`. */
    predicate IsValid()
      reads this
    {
      p >= 0
    }

    /** `kb_itr_key`: the key the iterator stands at, which is the element
        of the tree's in-order sequence at the iterator's index. */
    function Key(b: KBTree): (k: int)
      reads this, stack, b
      requires b.Valid() && On(b)
      ensures 0 <= Index(b) < b.nKeys && k == InOrder(b.Model)[Index(b)]
    {
      PositionKey(b.nodes, b.root, b.Model, stack[..p + 1], Subtrees, Offsets, b.t, 0);
      b.nodes[stack[p].x.value].keys[stack[p].i]
    }

    /** `kb_itr_first`: on an empty tree the iterator is left invalid;
        otherwise it stands at the least key, having gone down the first
        child at every level. */
    method First(b: KBTree)
      requires b.Valid() && b.nKeys <= 0x7fff_ffff && stack.Length == MaxDepth
      modifies this, stack
      ensures b.nKeys == 0 ==> p < 0
      ensures b.nKeys > 0 ==> On(b) && Index(b) == 0
      ensures forall d :: 0 <= d <= p < MaxDepth ==> stack[d].i == 0
    {
      p := -1;
      if b.nKeys == 0 {
        return;
      }
      ghost var s, r, m, t := b.nodes, b.root, b.Model, b.t;
      DepthBound(s, r, m, t, b.nNodes);
      p := 0;
      stack[0] := Pos(Some(b.root), 0);
      DescendFirst(b, s, r, m, t);
    }

    /** The loop of `kb_itr_first`: from the root's frame, down the first
        child for as long as the top node is internal. */
    method DescendFirst(b: KBTree, ghost s: Store, ghost r: NodeId, ghost m: Tree, ghost t: int)
      requires b.nodes == s && b.root == r && b.Model == m && Rep(s, r, m) && WF(m, t, 0) && 2 <= t
      requires Height(m) < MaxDepth && |InOrder(m)| > 0
      requires stack.Length == MaxDepth && p == 0 && stack[0] == Pos(Some(r), 0)
      modifies this, stack
      ensures On(b) && Index(b) == 0
      ensures forall d :: 0 <= d <= p ==> stack[d].i == 0
    {
      var x := b.root;
      ghost var fs, ms, os := [Pos(Some(x), 0)], [m], [0];
      LeftmostRoot(s, r, m);
      while b.nodes[x].isInternal && |b.nodes[x].children| > 0
        invariant 0 <= p < MaxDepth && |fs| == p + 1 && stack[..p + 1] == fs
        invariant fs[p] == Pos(Some(x), 0)
        invariant Leftmost(s, r, m, fs, ms, os)
        decreases Height(m) - p
      {
        TopNode(s, r, m, t, fs, ms, os);
        var y := b.nodes[x].children[0];
        LeftmostStep(s, r, m, t, fs, ms, os, y);
        stack[p + 1] := Pos(Some(y), 0);
        fs, ms, os := fs + [Pos(Some(y), 0)], ms + [ms[p].children[0]], os + [0];
        p := p + 1;
        x := y;
        assert stack[..p + 1] == stack[..p] + [stack[p]];
      }
      LeftmostDone(s, r, m, t, fs, ms, os);
      Subtrees, Offsets := ms, os;
    }

    /** `kb_itr_next`: from a key, moves to the next key in order and
        returns 1, or, past the last key, returns 0 and leaves the iterator
        invalid; an invalid iterator stays so. */
    method Next(b: KBTree) returns (r: int)
      requires b.Valid() && b.nKeys <= 0x7fff_ffff && stack.Length == MaxDepth
      requires p >= 0 ==> On(b)
      modifies this, stack
      ensures old(p) < 0 ==> r == 0 && p == old(p)
      ensures old(p) >= 0 ==> (r == 1 <==> old(Index(b)) + 1 < b.nKeys)
      ensures old(p) >= 0 && r == 1 ==> On(b) && Index(b) == old(Index(b)) + 1
      ensures r == 0 ==> p < 0
    {
      if p < 0 {
        return 0;
      }
      DepthBound(b.nodes, b.root, b.Model, b.t, b.nNodes);
      r := NextFrom(b, b.nodes, b.root, b.Model, b.t, Index(b) + 1);
    }

    /** The loop of `kb_itr_next`, from a frame past which `pos` keys lie:
        the iterator ends at key `pos`, or, when there is no such key,
        below the stack. */
    method NextFrom(b: KBTree, ghost s: Store, ghost r0: NodeId, ghost m: Tree, ghost t: int, ghost pos: int)
      returns (r: int)
      requires b.nodes == s && b.root == r0 && b.Model == m && WF(m, t, 0) && 2 <= t && Height(m) <= 30
      requires stack.Length == MaxDepth && 0 <= p < MaxDepth
      requires At(s, r0, m, stack[..p + 1], Subtrees, Offsets)
      requires Position(stack[..p + 1], Subtrees, Offsets) + 1 == pos
      modifies this, stack
      ensures r == 1 <==> pos < |InOrder(m)|
      ensures r == 1 ==> On(b) && Index(b) == pos
      ensures r == 0 ==> p < 0
    {
      ghost var fs, ms, os := stack[..p + 1], Subtrees, Offsets;
      AtPassed(s, r0, m, t, fs, ms, os);
      ghost var first := true;
      while true
        invariant 0 <= p < MaxDepth && |fs| == p + 1 && stack[..p + 1] == fs
        invariant Path(s, r0, m, fs, ms, os) && Passed(fs, ms, os, pos) && |fs| <= Height(m) + 1
        invariant !first ==> fs[p].i == |ms[p].keys|
        decreases p + (if first then MaxDepth else 0)
      {
        fs, ms, os := DescendNext(b, s, r0, m, t, pos, fs, ms, os);
        fs, ms, os := Pop(s, r0, m, t, pos, fs, ms, os);
        if p < 0 {
          return 0;
        }
        if stack[p].x.Some? && stack[p].i < |b.nodes[stack[p].x.value].keys| {
          Land(b, s, r0, m, fs, ms, os, pos);
          return 1;
        }
        first := false;
      }
    }

    /** The iterator stands at the key at index `pos`, the top frame of the
        walk `fs`. */
    ghost method Land(b: KBTree, s: Store, r0: NodeId, m: Tree, fs: seq<Pos>, ms: seq<Tree>, os: seq<int>, pos: int)
      requires b.nodes == s && b.root == r0 && b.Model == m
      requires stack.Length == MaxDepth && 0 <= p < MaxDepth && stack[..p + 1] == fs
      requires At(s, r0, m, fs, ms, os) && Position(fs, ms, os) == pos
      modifies this
      ensures On(b) && Index(b) == pos
    {
      Subtrees, Offsets := ms, os;
    }

    /** `--itr->p` after the descent of `kb_itr_next`: below the stack
        once every key has been passed; otherwise at the key `pos`, or at
        the end of a node whose keys up to the end have all been passed. */
    method Pop(ghost s: Store, ghost r0: NodeId, ghost m: Tree, ghost t: int, ghost pos: int,
               ghost fs0: seq<Pos>, ghost ms0: seq<Tree>, ghost os0: seq<int>)
      returns (ghost fs: seq<Pos>, ghost ms: seq<Tree>, ghost os: seq<int>)
      requires WF(m, t, 0) && 1 <= t
      requires Path(s, r0, m, fs0, ms0, os0) && stack.Length == MaxDepth && 0 <= p < MaxDepth
      requires |fs0| <= MaxDepth && stack[..|fs0|] == fs0
      requires stack[p].x.Some? ==> p == |fs0| - 1 && Descending(fs0, ms0, os0, pos) && fs0[p].i == |ms0[p].keys| + 1
      requires stack[p].x.None? ==> p == |fs0| && PastLeaf(fs0, ms0, os0, pos)
      modifies this
      ensures p == old(p) - 1
      ensures p < 0 ==> pos == |InOrder(m)|
      ensures p >= 0 ==> Path(s, r0, m, fs, ms, os) && |fs| == p + 1 && stack[..p + 1] == fs
      ensures p >= 0 ==> stack[p].x.Some? && stack[p].x.value in s && stack[p].i <= |s[stack[p].x.value].keys|
      ensures p >= 0 && stack[p].i < |s[stack[p].x.value].keys| ==>
                At(s, r0, m, fs, ms, os) && Position(fs, ms, os) == pos && pos < |InOrder(m)|
      ensures p >= 0 && stack[p].i == |s[stack[p].x.value].keys| ==> Passed(fs, ms, os, pos) && fs[p].i == |ms[p].keys|
    {
      fs, ms, os := PopFrame(s, r0, m, fs0, ms0, os0, pos, p);
      p := p - 1;
      if p >= 0 {
        assert stack[..p + 1] == fs0[..p + 1];
        StepLanded(s, r0, m, t, fs, ms, os, pos);
        TopNode(s, r0, m, t, fs, ms, os);
      }
    }

    /** `++itr->p->i` and the inner loop of `kb_itr_next`: while the top
        frame's index is at most its node's number of keys, push the child
        it names, or, at a leaf, a null frame. */
    method DescendNext(b: KBTree, ghost s: Store, ghost r0: NodeId, ghost m: Tree, ghost t: int, ghost pos: int,
                   ghost fs0: seq<Pos>, ghost ms0: seq<Tree>, ghost os0: seq<int>)
      returns (ghost fs: seq<Pos>, ghost ms: seq<Tree>, ghost os: seq<int>)
      requires b.nodes == s && WF(m, t, 0) && 1 <= t && Height(m) <= 30
      requires stack.Length == MaxDepth && 0 <= p < MaxDepth && |fs0| == p + 1 && stack[..p + 1] == fs0
      requires Path(s, r0, m, fs0, ms0, os0) && Passed(fs0, ms0, os0, pos) && |fs0| <= Height(m) + 1
      modifies this, stack
      ensures Path(s, r0, m, fs, ms, os) && |fs| <= Height(m) + 1
      ensures 0 <= p < MaxDepth && stack[..|fs|] == fs
      ensures stack[p].x.Some? ==> p == |fs| - 1 && Descending(fs, ms, os, pos) && fs[p].i == |ms[p].keys| + 1
      ensures stack[p].x.None? ==> p == |fs| && PastLeaf(fs, ms, os, pos)
      ensures fs0[|fs0| - 1].i == |ms0[|fs0| - 1].keys| ==> p == old(p)
    {
      StepIndex(s, r0, m, t, fs0, ms0, os0, pos);
      stack[p] := Pos(stack[p].x, stack[p].i + 1);
      fs, ms, os := fs0[p := stack[p]], ms0, os0;
      assert stack[..p + 1] == fs;
      ghost var fs1 := fs;
      TopNode(s, r0, m, t, fs, ms, os);
      while stack[p].x.Some? && stack[p].i <= |b.nodes[stack[p].x.value].keys|
        invariant Path(s, r0, m, fs, ms, os) && |fs| <= Height(m) + 1
        invariant 0 <= p < MaxDepth && stack[..|fs|] == fs
        invariant stack[p].x.Some? ==> p == |fs| - 1 && Descending(fs, ms, os, pos)
        invariant stack[p].x.None? ==> p == |fs| && PastLeaf(fs, ms, os, pos)
        invariant fs1[|fs1| - 1].i == |ms0[|fs1| - 1].keys| + 1 ==> p == old(p) && fs == fs1 && ms == ms0 && os == os0
        decreases Height(m) + 1 - p
      {
        fs, ms, os := PushFrame(b, s, r0, m, t, pos, fs, ms, os);
      }
      if stack[p].x.Some? {
        TopNode(s, r0, m, t, fs, ms, os);
      }
    }

    /** The body of the inner loop of `kb_itr_next`: push the child the top
        frame names, or, at a leaf, a null frame. */
    method PushFrame(b: KBTree, ghost s: Store, ghost r0: NodeId, ghost m: Tree, ghost t: int, ghost pos: int,
                     ghost fs0: seq<Pos>, ghost ms0: seq<Tree>, ghost os0: seq<int>)
      returns (ghost fs: seq<Pos>, ghost ms: seq<Tree>, ghost os: seq<int>)
      requires b.nodes == s && WF(m, t, 0) && 1 <= t && Height(m) <= 30
      requires Path(s, r0, m, fs0, ms0, os0) && |fs0| <= Height(m) + 1 && Descending(fs0, ms0, os0, pos)
      requires stack.Length == MaxDepth && p == |fs0| - 1 && stack[..|fs0|] == fs0
      requires stack[p].i <= |s[stack[p].x.value].keys|
      modifies this, stack
      ensures p == old(p) + 1 && p < MaxDepth
      ensures Path(s, r0, m, fs, ms, os) && |fs| <= Height(m) + 1 && stack[..|fs|] == fs
      ensures stack[p].x.Some? ==> p == |fs| - 1 && Descending(fs, ms, os, pos)
      ensures stack[p].x.None? ==> p == |fs| && PastLeaf(fs, ms, os, pos)
    {
      fs, ms, os := fs0, ms0, os0;
      var x := stack[p].x.value;
      TopNode(s, r0, m, t, fs, ms, os);
      if b.nodes[x].isInternal {
        var y := b.nodes[x].children[stack[p].i];
        StepDown(s, r0, m, t, fs, ms, os, pos, y);
        stack[p + 1] := Pos(Some(y), 0);
        fs, ms, os := fs + [Pos(Some(y), 0)], ms + [ms[p].children[fs[p].i]], os + [os[p] + Before(ms[p], fs[p].i)];
      } else {
        StepLeaf(s, r0, m, t, fs, ms, os, pos);
        stack[p + 1] := Pos(None, 0);
      }
      p := p + 1;
      assert stack[..|fs|] == fs;
    }

    /** `kb_itr_get`, as written: returns 0 when `k` is in `b` and -1
        otherwise. Each frame pushed keeps, as its index, the search result
        in the node above, so the frames are those `GetFrames` describes;
        on a hit the top node holds `k`, but no frame records where. */
    method Get(b: KBTree, k: int) returns (r: int)
      requires b.Valid() && b.nKeys <= 0x7fff_ffff && stack.Length == MaxDepth
      modifies this, stack
      ensures r == 0 || r == -1
      ensures r == 0 <==> k in InOrder(b.Model)
      ensures 0 <= p < MaxDepth && GetFrames(b.nodes, b.root, k, stack[..p + 1])
      ensures r == 0 ==> k in b.nodes[stack[p].x.value].keys
    {
      ghost var s, r0, m, t := b.nodes, b.root, b.Model, b.t;
      DepthBound(s, r0, m, t, b.nNodes);
      p := 0;
      stack[0] := Pos(Some(b.root), 0);
      r := GetFrom(b, s, r0, m, t, k);
    }

    /** The loop of `kb_itr_get`, from the root's frame. */
    method GetFrom(b: KBTree, ghost s: Store, ghost r0: NodeId, ghost m: Tree, ghost t: int, k: int)
      returns (r: int)
      requires b.nodes == s && b.root == r0 && Rep(s, r0, m) && WF(m, t, 0) && 1 <= t
      requires Sorted(InOrder(m)) && Height(m) <= 30
      requires stack.Length == MaxDepth && p == 0 && stack[0] == Pos(Some(r0), 0)
      modifies this, stack
      ensures r == 0 || r == -1
      ensures r == 0 <==> k in InOrder(m)
      ensures 0 <= p < MaxDepth && GetFrames(s, r0, k, stack[..p + 1])
      ensures r == 0 ==> k in s[stack[p].x.value].keys
    {
      var c := 0;
      ghost var mc, fs := m, [Pos(Some(r0), 0)];
      assert stack[..1] == fs;
      while stack[p].x.Some?
        invariant 0 <= p < MaxDepth && |fs| == p + 1 && stack[..p + 1] == fs && GetFrames(s, r0, k, fs)
        invariant Rep(s, fs[p].x.value, mc) && WF(mc, t, 0) && Height(mc) + p == Height(m)
        invariant Sorted(InOrder(mc)) && (k in InOrder(m) <==> k in InOrder(mc))
        decreases Height(mc)
      {
        var x := stack[p].x.value;
        NodeKeysSorted(mc);
        var i;
        i, c := GetAux(b.nodes[x].keys, k, c);
        if i >= 0 && c == 0 {
          NodeKey(mc, i);
          return 0;
        }
        if !b.nodes[x].isInternal {
          return -1;
        }
        ghost var y := GetStep(s, r0, k, fs, mc, t, i);
        stack[p + 1] := Pos(Some(b.nodes[x].children[i + 1]), i);
        fs, mc := fs + [stack[p + 1]], mc.children[i + 1];
        p := p + 1;
        assert stack[..p + 1] == fs;
      }
      assert false;
      return -1;
    }

    /** `kb_itr_get` with each frame's index set where the search leaves
        it: in a frame above the top, the child the search went down into;
        in the top frame, when `k` is found there, the index of the
        leftmost key equal to `k` in that node. Returns 0 when `k` is in
        `b`, and then the iterator stands at a key equal to `k`; -1
        otherwise. */
    method Seek(b: KBTree, k: int) returns (r: int)
      requires b.Valid() && b.nKeys <= 0x7fff_ffff && stack.Length == MaxDepth
      modifies this, stack
      ensures r == 0 || r == -1
      ensures r == 0 <==> k in InOrder(b.Model)
      ensures r == 0 ==> On(b) && 0 <= Index(b) < |InOrder(b.Model)| && InOrder(b.Model)[Index(b)] == k
    {
      ghost var s, r0, m, t := b.nodes, b.root, b.Model, b.t;
      DepthBound(s, r0, m, t, b.nNodes);
      p := 0;
      stack[0] := Pos(Some(b.root), 0);
      r := SeekFrom(b, s, r0, m, t, k);
    }

    /** The loop of `Seek`, from the root's frame. */
    method SeekFrom(b: KBTree, ghost s: Store, ghost r0: NodeId, ghost m: Tree, ghost t: int, k: int)
      returns (r: int)
      requires b.nodes == s && b.root == r0 && b.Model == m && Rep(s, r0, m) && WF(m, t, 0) && 1 <= t
      requires Sorted(InOrder(m)) && Height(m) <= 30
      requires stack.Length == MaxDepth && p == 0 && stack[0] == Pos(Some(r0), 0)
      modifies this, stack
      ensures r == 0 || r == -1
      ensures r == 0 <==> k in InOrder(m)
      ensures r == 0 ==> On(b) && 0 <= Index(b) < |InOrder(m)| && InOrder(m)[Index(b)] == k
    {
      var c := 0;
      ghost var fs, ms, os := [Pos(Some(r0), 0)], [m], [0];
      assert stack[..1] == fs;
      while stack[p].x.Some?
        invariant 0 <= p < MaxDepth && |fs| == p + 1 && stack[..p + 1] == fs
        invariant Path(s, r0, m, fs, ms, os) && |fs| <= Height(m) + 1
        invariant Sorted(InOrder(ms[p])) && (k in InOrder(m) <==> k in InOrder(ms[p]))
        decreases Height(m) + 1 - |fs|
      {
        var x := stack[p].x.value;
        TopNode(s, r0, m, t, fs, ms, os);
        NodeKeysSorted(ms[p]);
        var i;
        i, c := GetAux(b.nodes[x].keys, k, c);
        if i >= 0 && c == 0 {
          SeekLand(b, s, r0, m, t, fs, ms, os, k, i);
          return 0;
        }
        if !b.nodes[x].isInternal {
          stack[p] := Pos(Some(x), i);
          LeafMiss(ms[p], k, i);
          return -1;
        }
        fs, ms, os := SeekDown(b, s, r0, m, t, fs, ms, os, k, i);
      }
      assert false;
      return -1;
    }

    /** A hit of `Seek`: the top frame's index is set to the key equal to
        `k`, where the iterator then stands. */
    method SeekLand(b: KBTree, ghost s: Store, ghost r0: NodeId, ghost m: Tree, ghost t: int,
                    ghost fs: seq<Pos>, ghost ms: seq<Tree>, ghost os: seq<int>, k: int, i: int)
      requires b.nodes == s && b.root == r0 && b.Model == m && WF(m, t, 0) && 1 <= t
      requires stack.Length == MaxDepth && 0 <= p < MaxDepth && |fs| == p + 1 && stack[..p + 1] == fs
      requires Path(s, r0, m, fs, ms, os) && 0 <= i < |ms[p].keys| && ms[p].keys[i] == k
      modifies this, stack
      ensures On(b) && 0 <= Index(b) < |InOrder(m)| && InOrder(m)[Index(b)] == k
    {
      SeekHit(s, r0, m, t, fs, ms, os, k, i);
      stack[p] := Pos(stack[p].x, i);
      ghost var fs' := fs[p := stack[p]];
      assert stack[..p + 1] == fs';
      Land(b, s, r0, m, fs', ms, os, Position(fs', ms, os));
    }

    /** A miss of `Seek` at an internal node: the top frame's index is set
        to child `i + 1`, which is pushed. */
    method SeekDown(b: KBTree, ghost s: Store, ghost r0: NodeId, ghost m: Tree, ghost t: int,
                    ghost fs: seq<Pos>, ghost ms: seq<Tree>, ghost os: seq<int>, k: int, i: int)
      returns (ghost fs': seq<Pos>, ghost ms': seq<Tree>, ghost os': seq<int>)
      requires b.nodes == s && WF(m, t, 0) && 1 <= t && Height(m) <= 30
      requires stack.Length == MaxDepth && 0 <= p < MaxDepth && |fs| == p + 1 && stack[..p + 1] == fs
      requires Path(s, r0, m, fs, ms, os) && NodeShape(s, fs[p].x.value, ms[p])
      requires ms[p].Internal? && |ms[p].children| == |ms[p].keys| + 1
      requires Sorted(InOrder(ms[p])) && Between(ms[p].keys, i, k)
      modifies this, stack
      ensures p == |fs| && p < MaxDepth && |fs'| == p + 1 && stack[..p + 1] == fs'
      ensures Path(s, r0, m, fs', ms', os') && |fs'| <= Height(m) + 1
      ensures Sorted(InOrder(ms'[p])) && (k in InOrder(ms[p - 1]) <==> k in InOrder(ms'[p]))
    {
      var x := stack[p].x.value;
      var y := b.nodes[x].children[i + 1];
      SeekStep(s, r0, m, t, fs, ms, os, k, i, y);
      stack[p] := Pos(Some(x), i + 1);
      stack[p + 1] := Pos(Some(y), 0);
      fs', ms', os' := fs[p := stack[p]] + [stack[p + 1]], ms + [ms[p].children[i + 1]], os + [os[p] + Before(ms[p], i + 1)];
      p := p + 1;
      assert stack[..p + 1] == fs';
    }
  }
}
