/** The B-tree (`kbtree_t`, kbtree.h:61-67) and its operations.

    The tree's nodes live in `nodes`, the memory they were allocated in;
    `root` is the address of the root node. The ghost field `Model` is the
    pure tree those nodes represent, and `Valid()` ties the two together
    with the B-tree invariants. */
module BTree {
  import opened Keys
  import opened TreeModel
  import opened NodeStore
  import opened Restructure
  import opened NodeSearch
  import opened Descent
  import opened KeyBounds
  import opened Insertion
  import opened Deletion

  /** `kbpos_t`: a node and a key index in it; `None` is the null node. */
  datatype Pos = Pos(x: Option<NodeId>, i: int)

  /** A key slot `&__KB_KEY(key_t, x)[i]`, which is what `key_t *` results point at. */
  datatype Slot = Slot(x: NodeId, i: int)

  /** Minimum degree of a tree whose nodes take `size` bytes, with pointers of
      `ptrSize` bytes and keys of `keySize` bytes. */
  function Degree(size: int, ptrSize: int, keySize: int): (d: int)
    requires 1 <= ptrSize && 1 <= keySize && 4 + ptrSize <= size
    ensures 2 * d - 1 <= (size - 4 - ptrSize) / (ptrSize + keySize) <= 2 * d
  {
    ((size - 4 - ptrSize) / (ptrSize + keySize) + 1) / 2
  }

  /** `(v + 3) >> 2 << 2`: `v` rounded up to a multiple of 4. */
  function RoundUp4(v: int): (r: int)
    requires 0 <= v
    ensures r % 4 == 0 && v <= r < v + 4
  {
    (v + 3) / 4 * 4
  }

  /** A node with `2t - 1` keys and `2t` child pointers after its 4-byte
      header fits in `size` bytes, and one with two more keys would not:
      `2t - 1` is the largest odd capacity that fits. */
  lemma DegreeFits(size: int, ptrSize: int, keySize: int)
    requires 1 <= ptrSize && 1 <= keySize && 4 + ptrSize <= size
    ensures 4 + ptrSize + (2 * Degree(size, ptrSize, keySize) - 1) * (ptrSize + keySize) <= size
    ensures size < 4 + ptrSize + (2 * Degree(size, ptrSize, keySize) + 1) * (ptrSize + keySize)
  {
    var w := ptrSize + keySize;
    var q := (size - 4 - ptrSize) / w;
    var n := 2 * Degree(size, ptrSize, keySize) - 1;
    assert q * w <= size - 4 - ptrSize < (q + 1) * w;
    assert n <= q < n + 2;
    MulMono(n, q, w);
    MulMono(q + 1, n + 2, w);
  }

  lemma MulMono(a: int, b: int, c: int)
    requires a <= b && 0 <= c
    ensures a * c <= b * c
  {
    assert b * c - a * c == (b - a) * c;
  }

  class KBTree {
    /** `t`: minimum degree; every node but the root holds `t - 1` to `2t - 1` keys. */
    const t: int
    /** `n == 2t - 1`: the key capacity of a node. */
    const n: int
    /** Byte offset of the child pointers in a node. */
    const offPtr: int
    /** Allocation sizes of internal and leaf nodes. */
    const ilen: int
    const elen: int
    var root: NodeId
    var nKeys: int
    var nNodes: int
    var nodes: Store
    ghost var Model: Tree

    ghost predicate Valid()
      reads this
    {
      Shaped() && nKeys == |InOrder(Model)|
    }

    /** Everything `Valid` asks but the key count: memory holds exactly the
        nodes of `Model`, a sorted B-tree whose internal root has a key, and
        the node count is at least the number of nodes. */
    ghost predicate Shaped()
      reads this
    {
      2 <= t && n == 2 * t - 1 && Good(nodes, root, Model, t, nNodes)
    }

    /** `s` points at a key of a node in memory. */
    predicate Holds(s: Slot)
      reads this
    {
      s.x in nodes && 0 <= s.i < |nodes[s.x].keys|
    }

    function KeyAt(s: Slot): int
      reads this
      requires Holds(s)
    {
      nodes[s.x].keys[s.i]
    }

    ghost function Deref(p: Option<Slot>): Option<int>
      reads this
    {
      if p.Some? && Holds(p.value) then Some(KeyAt(p.value)) else None
    }

    /** `kb_static_init` when the degree is at least 2: the layout constants
        are computed from the node size, and the root is a fresh empty leaf. */
    constructor (size: int, ptrSize: int, keySize: int)
      requires 1 <= ptrSize && 1 <= keySize && 4 + ptrSize <= size
      requires 2 <= Degree(size, ptrSize, keySize)
      ensures Valid() && Model == Leaf([]) && nodes == map[root := Node(false, [], [])]
      ensures t == Degree(size, ptrSize, keySize) && n == 2 * t - 1 && offPtr == 4 + n * keySize
      ensures ilen == RoundUp4(4 + ptrSize + n * (ptrSize + keySize)) && elen == RoundUp4(offPtr)
      ensures nKeys == 0 && nNodes == 1
    {
      var t0 := Degree(size, ptrSize, keySize);
      var n0 := 2 * t0 - 1;
      t := t0;
      n := n0;
      offPtr := 4 + n0 * keySize;
      ilen := RoundUp4(4 + ptrSize + n0 * (ptrSize + keySize));
      elen := RoundUp4(4 + n0 * keySize);
      root := 0;
      nodes := map[0 := Node(false, [], [])];
      Model := Leaf([]);
      nKeys := 0;
      nNodes := 1;
    }

    /** `kb_init`: no tree when the node size gives a degree below 2. */
    static method Init(size: int, ptrSize: int, keySize: int) returns (b: KBTree?)
      requires 1 <= ptrSize && 1 <= keySize && 4 + ptrSize <= size
      ensures b == null <==> Degree(size, ptrSize, keySize) < 2
      ensures b != null ==> fresh(b) && b.Valid() && b.Model == Leaf([]) && b.t == Degree(size, ptrSize, keySize)
    {
      if Degree(size, ptrSize, keySize) < 2 {
        return null;
      }
      b := new KBTree(size, ptrSize, keySize);
    }

    /** `kb_size`: the number of keys in the tree. */
    function Size(): (r: int)
      reads this
      requires Valid()
      ensures r == |InOrder(Model)|
    {
      nKeys
    }

    /** `p` is null when `v` is `None`, and otherwise points at a key equal
        to `v`. */
    ghost predicate Marks(p: Option<Slot>, v: Option<int>)
      reads this
    {
      if p.Some? then Holds(p.value) && v == Some(KeyAt(p.value)) else v.None?
    }

    lemma DerefIs(p: Option<Slot>, v: Option<int>)
      requires Marks(p, v)
      ensures Deref(p) == v
    {
    }

    /** The slots a search that misses the keys of node `x` records: key `i`
        as the lower bound and key `i + 1` as the upper one, where they exist. */
    method Record(x: NodeId, i: int, lower0: Option<Slot>, upper0: Option<Slot>, ghost lo: Option<int>, ghost hi: Option<int>)
      returns (lower: Option<Slot>, upper: Option<Slot>)
      requires x in nodes && -1 <= i < |nodes[x].keys|
      requires Marks(lower0, lo) && Marks(upper0, hi)
      ensures Marks(lower, NextLo(nodes[x].keys, i, lo)) && Marks(upper, NextHi(nodes[x].keys, i, hi))
    {
      lower, upper := lower0, upper0;
      if i >= 0 {
        lower := Some(Slot(x, i));
      }
      if i < |nodes[x].keys| - 1 {
        upper := Some(Slot(x, i + 1));
      }
    }

    /** `kb_getpos`: a slot holding `k`, found by descending from the root,
        or the null node when `k` is not in the tree. */
    method GetPos(k: int) returns (pos: Pos, ghost visits: nat)
      requires Valid()
      ensures pos.x.Some? <==> k in InOrder(Model)
      ensures pos.x.Some? ==> Holds(Slot(pos.x.value, pos.i)) && KeyAt(Slot(pos.x.value, pos.i)) == k
      ensures 1 <= visits <= Height(Model) + 1
    {
      var r := 0;
      var x := root;
      ghost var m := Model;
      visits := 0;
      while true
        invariant Rep(nodes, x, m) && WF(m, t, 0) && Sorted(InOrder(m))
        invariant k in InOrder(Model) <==> k in InOrder(m)
        invariant visits + Height(m) <= Height(Model)
        decreases Height(m)
      {
        visits := visits + 1;
        NodeKeysSorted(m);
        var i;
        i, r := GetAux(nodes[x].keys, k, r);
        if i >= 0 && r == 0 {
          if m.Internal? {
            KeyInFlatten(m.keys, m.children, i);
          }
          pos := Pos(Some(x), i);
          return;
        }
        if !nodes[x].isInternal {
          pos := Pos(None, i);
          return;
        }
        DescendSearch(m, i, k);
        ChildRep(nodes, x, m, i + 1);
        ChildWF(m, i + 1, t, 0);
        x := nodes[x].children[i + 1];
        m := m.children[i + 1];
      }
    }

    /** `kb_getp` (and `kb_get`, which passes `k` by value): a pointer to a
        key equal to `k`, or null when there is none. */
    method GetP(k: int) returns (p: Option<Slot>)
      requires Valid()
      ensures p.Some? <==> k in InOrder(Model)
      ensures p.Some? ==> Holds(p.value) && KeyAt(p.value) == k
    {
      var pos, _ := GetPos(k);
      p := if pos.x.Some? then Some(Slot(pos.x.value, pos.i)) else None;
    }

    /** `kb_intervalp`: when `k` is in the tree, both results point at a key
        equal to it; otherwise `lower` points at the greatest key below `k`
        and `upper` at the least key above it, each null when there is none. */
    method Interval(k: int) returns (lower: Option<Slot>, upper: Option<Slot>)
      requires Valid()
      ensures lower.Some? ==> Holds(lower.value)
      ensures upper.Some? ==> Holds(upper.value)
      ensures k in InOrder(Model) ==> lower.Some? && lower == upper && KeyAt(lower.value) == k
      ensures k !in InOrder(Model) ==> GreatestBelow(InOrder(Model), k, Deref(lower))
      ensures k !in InOrder(Model) ==> LeastAbove(InOrder(Model), k, Deref(upper))
    {
      var r := 0;
      var x := root;
      ghost var m := Model;
      ghost var lo: Option<int>, hi: Option<int> := None, None;
      lower, upper := None, None;
      while true
        invariant Rep(nodes, x, m) && WF(m, t, 0) && Sorted(InOrder(m))
        invariant k in InOrder(Model) <==> k in InOrder(m)
        invariant Descend(Model, k, None, None) == Descend(m, k, lo, hi)
        invariant Marks(lower, lo) && Marks(upper, hi)
        decreases Height(m)
      {
        NodeKeysSorted(m);
        var xn := nodes[x];
        var i;
        i, r := GetAux(xn.keys, k, r);
        if i >= 0 && r == 0 {
          if m.Internal? {
            KeyInFlatten(m.keys, m.children, i);
          }
          lower, upper := Some(Slot(x, i)), Some(Slot(x, i));
          return;
        }
        SearchStep(m, k, lo, hi, i);
        lower, upper := Record(x, i, lower, upper, lo, hi);
        lo, hi := NextLo(m.keys, i, lo), NextHi(m.keys, i, hi);
        if !xn.isInternal {
          LeafMiss(m, k, i);
          DescendFromRoot(Model, k, t);
          DerefIs(lower, lo);
          DerefIs(upper, hi);
          return;
        }
        Advance(nodes, x, m, t, k, i);
        x := xn.children[i + 1];
        m := m.children[i + 1];
      }
    }

    /** `__kb_split`: the full child `y`, at index `i` of the internal node
        `x`, keeps its lower `t - 1` keys; its upper `t - 1` keys (and upper
        `t` children) move to a fresh node that becomes child `i + 1` of `x`;
        its median key moves up into `x` at index `i`. */
    method Split(x: NodeId, i: int, y: NodeId, ghost m: Tree, ghost lo: int)
      requires 2 <= t
      requires Rep(nodes, x, m) && WF(m, t, lo) && m.Internal? && |m.keys| < 2 * t - 1
      requires 0 <= i < |m.children| && y == nodes[x].children[i] && |m.children[i].keys| == 2 * t - 1
      requires m.children[i].Internal? ==> |m.children[i].children| == 2 * t
      modifies this`nodes, this`nNodes
      ensures Grown(old(nodes), nodes, x, m, SplitChild(m, i, t)) && |nodes.Keys| == |old(nodes).Keys| + 1
      ensures WF(SplitChild(m, i, t), t, lo)
      ensures InOrder(SplitChild(m, i, t)) == InOrder(m) && Height(SplitChild(m, i, t)) == Height(m)
      ensures nNodes == old(nNodes) + 1
    {
      SplitReady(nodes, x, m, lo, i, y, t);
      FreshExists(nodes);
      var z :| z !in nodes;
      var s' := SplitNodes(nodes, x, i, y, t, z);
      SplitStore(nodes, s', x, m, lo, i, y, t, z);
      nodes, nNodes := s', nNodes + 1;
    }

    /** The leaf step of `__kb_putp_aux`: `k` written at position `i` of
        the leaf `x`, which the search found to bracket it, the later keys
        moving up one place. */
    method PutLeaf(x: NodeId, ghost m: Tree, ghost lo: int, k: int, i: int) returns (pos: Slot, ghost m': Tree)
      requires Rep(nodes, x, m) && m.Leaf? && WF(m, t, lo) && |m.keys| < 2 * t - 1
      requires 0 <= i <= |m.keys| && Brackets(m.keys, i, k)
      modifies this`nodes, this`nNodes
      ensures Grown(old(nodes), nodes, x, m, m') && WF(m', t, lo) && Height(m') == Height(m)
      ensures InsertedAt(InOrder(m), InOrder(m'), i, k)
      ensures pos == Slot(x, i) && Holds(pos) && KeyAt(pos) == k
      ensures nodes.Keys == old(nodes).Keys && nNodes == old(nNodes)
    {
      var xn := nodes[x];
      ghost var s := nodes;
      nodes := nodes[x := Node(false, xn.keys[..i] + [k] + xn.keys[i..], [])];
      m' := LeafInsert(s, nodes, x, m, t, lo, i, k);
      pos := Slot(x, i);
    }

    /** The child of the internal node `x` that the insertion of `k` goes
        on into: child `i`, where the search put `k`, after that child has
        been split when full, in which case `k` goes right of the key moved
        up when it is greater than that key. The node's subtree is `m1`
        afterwards, which holds the same keys, and the chosen child is not
        full. */
    method ChildFor(x: NodeId, ghost m: Tree, ghost lo: int, k: int, i0: int) returns (i: int, ghost m1: Tree)
      requires 2 <= t
      requires Rep(nodes, x, m) && WF(m, t, lo) && Sorted(InOrder(m)) && |m.keys| < 2 * t - 1
      requires m.Internal? && 0 <= i0 <= |m.keys| && Brackets(m.keys, i0, k)
      modifies this`nodes, this`nNodes
      ensures Grown(old(nodes), nodes, x, m, m1) && WF(m1, t, lo)
      ensures InOrder(m1) == InOrder(m) && Height(m1) == Height(m)
      ensures m1.Internal? && 0 <= i < |m1.children| && Brackets(m1.keys, i, k)
      ensures Rep(nodes, nodes[x].children[i], m1.children[i]) && WF(m1.children[i], t, t - 1)
      ensures |m1.children[i].keys| < 2 * t - 1 && Sorted(InOrder(m1.children[i]))
      ensures Height(m1.children[i]) < Height(m)
      ensures nNodes - old(nNodes) == |nodes.Keys| - |old(nodes).Keys|
    {
      i, m1 := i0, m;
      var xn := nodes[x];
      ChildRep(nodes, x, m, i);
      ghost var mc := m.children[i];
      assert WF(mc, t, t - 1) && |nodes[xn.children[i]].keys| == |mc.keys|;
      GrownNone(nodes, x, m);
      if |nodes[xn.children[i]].keys| == 2 * t - 1 {
        ghost var j := if k > mc.keys[t - 1] then i + 1 else i;
        SplitBrackets(m, i, t, k, j);
        Split(x, i, xn.children[i], m, lo);
        m1 := SplitChild(m, i, t);
        if Cmp(k, nodes[x].keys[i]) > 0 {
          i := i + 1;
        }
        assert i == j;
      }
      ChildRep(nodes, x, m1, i);
      ChildSorted(m1, i);
      ChildWF(m1, i, t, lo);
    }

    /** `__kb_putp_aux`: inserts `k` into the subtree at the non-full node
        `x`. At a leaf, `k` goes in after the keys below it and after the
        first key equal to it; at an internal node the search picks a child,
        which is split first when full, and the insertion goes on there. The
        subtree's in-order sequence gains `k` at a position `p` that keeps it
        sorted; only nodes of the subtree and fresh nodes change. */
    method PutAux(x: NodeId, ghost m: Tree, ghost lo: int, k: int) returns (pos: Slot, ghost m': Tree, ghost p: int)
      requires 2 <= t
      requires Rep(nodes, x, m) && WF(m, t, lo) && Sorted(InOrder(m)) && |m.keys| < 2 * t - 1
      modifies this`nodes, this`nNodes
      ensures Grown(old(nodes), nodes, x, m, m') && WF(m', t, lo) && Height(m') == Height(m)
      ensures InsertedAt(InOrder(m), InOrder(m'), p, k)
      ensures Holds(pos) && KeyAt(pos) == k
      ensures nNodes - old(nNodes) == |nodes.Keys| - |old(nodes).Keys|
      decreases Height(m)
    {
      NodeKeysSorted(m);
      var xn := nodes[x];
      var i := InsertPos(xn.keys, k);
      if !xn.isInternal {
        pos, m' := PutLeaf(x, m, lo, k, i);
        p := i;
        return;
      }
      ghost var s0, n0 := nodes, nNodes;
      ghost var m1;
      i, m1 := ChildFor(x, m, lo, k, i);
      ghost var s1, n1 := nodes, nNodes;
      ghost var c', q;
      pos, c', q := PutAux(nodes[x].children[i], m1.children[i], t - 1, k);
      m', p := InsertBelow(s0, s1, nodes, x, m, m1, t, lo, i, c', q, k);
    }

    /** The root step of `kb_putpos`: the full root `r` goes under a new
        internal root with no key, which then splits it. The tree keeps its
        keys and grows one level, and the new root holds a single key. */
    method GrowRoot()
      requires Shaped() && |nodes[root].keys| == 2 * t - 1
      modifies this`nodes, this`root, this`nNodes, this`Model
      ensures Shaped() && InOrder(Model) == old(InOrder(Model)) && |Model.keys| == 1
      ensures Height(Model) == old(Height(Model)) + 1
      ensures nNodes == old(nNodes) + 2 && |nodes.Keys| == |old(nodes).Keys| + 2
    {
      var r := root;
      FreshExists(nodes);
      var s :| s !in nodes;
      ghost var s0, m0 := nodes, Internal([], [Model]);
      RootSplit(Model, t);
      var s1 := nodes[s := Node(true, [], [r])];
      RootGrow(nodes, s1, r, Model, t, s);
      nodes, root, nNodes := s1, s, nNodes + 1;
      Split(s, 0, r, m0, 0);
      GrowGood(s0, s1, nodes, r, s, Model, t, nNodes - 2);
      Model := SplitChild(m0, 0, t);
    }

    /** `kb_putpos`: inserts `k`, which may already be present, and returns
        the slot it was written to. A full root is first moved under a new,
        empty root and split, which is how the tree grows in height. The
        in-order sequence gains one occurrence of `k` and stays sorted. */
    method PutPos(k: int) returns (pos: Pos)
      requires Valid()
      modifies this
      ensures Valid() && nKeys == old(nKeys) + 1
      ensures multiset(InOrder(Model)) == multiset(old(InOrder(Model))) + multiset{k}
      ensures pos.x.Some? && Holds(Slot(pos.x.value, pos.i)) && KeyAt(Slot(pos.x.value, pos.i)) == k
      ensures nNodes - old(nNodes) == |nodes.Keys| - |old(nodes).Keys|
    {
      nKeys := nKeys + 1;
      if |nodes[root].keys| == 2 * t - 1 {
        GrowRoot();
      }
      var slot := PutRoot(k);
      pos := Pos(Some(slot.x), slot.i);
    }

    /** The insertion step of `kb_putpos`, from a root that is not full. */
    method PutRoot(k: int) returns (slot: Slot)
      requires Shaped() && |Model.keys| < 2 * t - 1
      modifies this`nodes, this`nNodes, this`Model
      ensures Shaped() && |InOrder(Model)| == old(|InOrder(Model)|) + 1
      ensures multiset(InOrder(Model)) == multiset(old(InOrder(Model))) + multiset{k}
      ensures Holds(slot) && KeyAt(slot) == k
      ensures nNodes - old(nNodes) == |nodes.Keys| - |old(nodes).Keys|
    {
      ghost var s, m, lo := nodes, Model, if Model.Internal? then 1 else 0;
      ghost var m', p;
      slot, m', p := PutAux(root, m, lo, k);
      PutGood(s, nodes, root, m, m', lo, p, k, t, nNodes);
      Model := m';
    }

    /** `kb_putp`: `kb_putpos`, returning a pointer to the key written. */
    method PutP(k: int) returns (p: Slot)
      requires Valid()
      modifies this
      ensures Valid() && nKeys == old(nKeys) + 1
      ensures multiset(InOrder(Model)) == multiset(old(InOrder(Model))) + multiset{k}
      ensures Holds(p) && KeyAt(p) == k
      ensures nNodes - old(nNodes) == |nodes.Keys| - |old(nodes).Keys|
    {
      var pos := PutPos(k);
      p := Slot(pos.x.value, pos.i);
    }

    /** `kb_put`: `kb_putp` with the key passed by value. */
    method Put(k: int)
      requires Valid()
      modifies this
      ensures Valid() && nKeys == old(nKeys) + 1
      ensures multiset(InOrder(Model)) == multiset(old(InOrder(Model))) + multiset{k}
      ensures nNodes - old(nNodes) == |nodes.Keys| - |old(nodes).Keys|
    {
      var _ := PutP(k);
    }

    // ----- Deletion -----

    /** The leaf step of `__kb_delp_aux`: key `i` of the leaf `x` is taken
        out and returned, the later keys moving down one place. */
    method DelLeaf(x: NodeId, ghost m: Tree, ghost lo: int, i: int) returns (kp: int, ghost m': Tree)
      requires Rep(nodes, x, m) && m.Leaf? && WF(m, t, lo) && 0 <= i < |m.keys|
      modifies this`nodes
      ensures Shrunk(old(nodes), nodes, x, m, m') && WF(m', t, lo - 1) && Height(m') == Height(m)
      ensures RemovedAt(InOrder(m), InOrder(m'), i, kp)
    {
      var xn := nodes[x];
      kp := xn.keys[i];
      ghost var s := nodes;
      nodes := nodes[x := Node(false, xn.keys[..i] + xn.keys[i + 1..], [])];
      m' := LeafDelete(s, nodes, x, m, t, lo, i);
    }

    /** The borrow from the left sibling (kbtree.h:302-308): child `i` of
        `x`, which has `t - 1` keys, takes key `i - 1` of `x` in front, and
        `x` takes the last key of child `i - 1` in its place; the last child
        of child `i - 1` moves along. The subtree keeps its keys and its
        nodes, and child `i` then has `t` keys, among them all it had. */
    method BorrowLeft(x: NodeId, ghost m: Tree, ghost lo: int, i: int) returns (ghost m1: Tree)
      requires 2 <= t && Rep(nodes, x, m) && WF(m, t, lo) && m.Internal? && 0 < i <= |m.keys|
      requires |m.children[i].keys| == t - 1 && |m.children[i - 1].keys| >= t
      modifies this`nodes
      ensures Shrunk(old(nodes), nodes, x, m, m1) && WF(m1, t, lo)
      ensures InOrder(m1) == InOrder(m) && Height(m1) == Height(m)
      ensures m1.Internal? && |m1.keys| == |m.keys| && |m1.children[i].keys| == t
      ensures forall e :: e in InOrder(m.children[i]) ==> e in InOrder(m1.children[i])
      ensures Rep(nodes, nodes[x].children[i], m1.children[i]) && WF(m1.children[i], t, t)
      ensures Height(m1.children[i]) < Height(m)
    {
      ChildNodes(nodes, x, m, t, lo);
      var s' := BorrowLeftNodes(nodes, x, i);
      BorrowLeftStore(nodes, s', x, m, t, lo, i);
      RotateRightShape(m, i, t, lo);
      RotateRightInOrder(m, i);
      RotateRightChild(m, i);
      nodes := s';
      m1 := RotateRight(m, i);
      ChildRep(nodes, x, m1, i);
      ChildWF(m1, i, t, lo);
    }

    /** The borrow from the right sibling (kbtree.h:309-315): child `i` of
        `x`, which has `t - 1` keys, takes key `i` of `x` at its end, and
        `x` takes the first key of child `i + 1` in its place; the first
        child of child `i + 1` moves along. The subtree keeps its keys and
        its nodes, and child `i` then has `t` keys, among them all it had. */
    method BorrowRight(x: NodeId, ghost m: Tree, ghost lo: int, i: int) returns (ghost m1: Tree)
      requires 2 <= t && Rep(nodes, x, m) && WF(m, t, lo) && m.Internal? && 0 <= i < |m.keys|
      requires |m.children[i].keys| == t - 1 && |m.children[i + 1].keys| >= t
      modifies this`nodes
      ensures Shrunk(old(nodes), nodes, x, m, m1) && WF(m1, t, lo)
      ensures InOrder(m1) == InOrder(m) && Height(m1) == Height(m)
      ensures m1.Internal? && |m1.keys| == |m.keys| && |m1.children[i].keys| == t
      ensures forall e :: e in InOrder(m.children[i]) ==> e in InOrder(m1.children[i])
      ensures Rep(nodes, nodes[x].children[i], m1.children[i]) && WF(m1.children[i], t, t)
      ensures Height(m1.children[i]) < Height(m)
    {
      ChildNodes(nodes, x, m, t, lo);
      var s' := BorrowRightNodes(nodes, x, i);
      BorrowRightStore(nodes, s', x, m, t, lo, i);
      RotateLeftShape(m, i, t, lo);
      RotateLeftInOrder(m, i);
      RotateLeftChild(m, i);
      nodes := s';
      m1 := RotateLeft(m, i);
      ChildRep(nodes, x, m1, i);
      ChildWF(m1, i, t, lo);
    }

    /** A merge (kbtree.h:287-297, 316-325, 326-335): children `a` and
        `a + 1` of `x`, both with `t - 1` keys, become one full node at `a`
        around `sep`, the key `a` of `x`; `x` loses that key and child
        `a + 1`, whose node is freed. The subtree keeps its keys. */
    method Merge(x: NodeId, ghost m: Tree, ghost lo: int, a: int, sep: int) returns (ghost m1: Tree)
      requires 2 <= t && Rep(nodes, x, m) && WF(m, t, lo) && 1 <= lo && m.Internal? && 0 <= a < |m.keys|
      requires |m.children[a].keys| == t - 1 && |m.children[a + 1].keys| == t - 1 && sep == m.keys[a]
      modifies this`nodes
      ensures Shrunk(old(nodes), nodes, x, m, m1) && WF(m1, t, lo - 1)
      ensures InOrder(m1) == InOrder(m) && Height(m1) == Height(m)
      ensures m1.Internal? && |m1.keys| == |m.keys| - 1 && |m1.children[a].keys| == 2 * t - 1
      ensures InOrder(m1.children[a]) == InOrder(m.children[a]) + [sep] + InOrder(m.children[a + 1])
      ensures Rep(nodes, nodes[x].children[a], m1.children[a]) && WF(m1.children[a], t, t)
      ensures Height(m1.children[a]) < Height(m)
    {
      ChildNodes(nodes, x, m, t, lo);
      var s' := MergeNodes(nodes, x, a, sep);
      MergeStore(nodes, s', x, m, t, lo, a, sep);
      MergeChildrenShape(m, a, t, lo - 1);
      MergeChildrenInOrder(m, a);
      MergedInOrder(m.children[a], sep, m.children[a + 1]);
      nodes := s';
      m1 := MergeChildren(m, a);
      ChildRep(nodes, x, m1, a);
      ChildWF(m1, a, t, lo - 1);
    }

    /** The fix-up of `__kb_delp_aux` before it descends into child `i` of
        `x` (kbtree.h:300-336): a child with `t - 1` keys is refilled; a
        child with more is left as it is. The descent goes on into child
        `j`, which holds every key child `i` held and at least `t` keys;
        the last child stays the last and the first the first. */
    method FixChild(x: NodeId, ghost m: Tree, ghost lo: int, i: int, ghost k: int) returns (j: int, ghost m1: Tree)
      requires 2 <= t && Rep(nodes, x, m) && WF(m, t, lo) && 1 <= lo && m.Internal? && 0 <= i <= |m.keys|
      modifies this`nodes
      ensures Shrunk(old(nodes), nodes, x, m, m1) && WF(m1, t, lo - 1)
      ensures InOrder(m1) == InOrder(m) && Height(m1) == Height(m)
      ensures m1.Internal? && 0 <= j < |m1.children|
      ensures Rep(nodes, nodes[x].children[j], m1.children[j]) && WF(m1.children[j], t, t)
      ensures Height(m1.children[j]) < Height(m)
      ensures k in InOrder(m.children[i]) ==> k in InOrder(m1.children[j])
      ensures i == |m.keys| ==> j == |m1.keys|
      ensures i == 0 ==> j == 0
    {
      ChildKeys(nodes, x, m, t, lo);
      if |nodes[nodes[x].children[i]].keys| == t - 1 {
        j, m1 := Refill(x, m, lo, i, k);
      } else {
        j, m1 := i, m;
        ShrunkNone(nodes, x, m);
        ChildRep(nodes, x, m, i);
        ChildWF(m, i, t, lo);
      }
    }

    /** The refill of child `i` of `x`, which has `t - 1` keys
        (kbtree.h:302-335): it borrows from its left sibling when that has
        a key to spare, else from its right one, else it merges with its
        left sibling, else with its right one. */
    method Refill(x: NodeId, ghost m: Tree, ghost lo: int, i: int, ghost k: int) returns (j: int, ghost m1: Tree)
      requires 2 <= t && Rep(nodes, x, m) && WF(m, t, lo) && 1 <= lo && m.Internal? && 0 <= i <= |m.keys|
      requires |m.children[i].keys| == t - 1
      modifies this`nodes
      ensures Shrunk(old(nodes), nodes, x, m, m1) && WF(m1, t, lo - 1)
      ensures InOrder(m1) == InOrder(m) && Height(m1) == Height(m)
      ensures m1.Internal? && 0 <= j < |m1.children|
      ensures Rep(nodes, nodes[x].children[j], m1.children[j]) && WF(m1.children[j], t, t)
      ensures Height(m1.children[j]) < Height(m)
      ensures k in InOrder(m.children[i]) ==> k in InOrder(m1.children[j])
      ensures i == |m.keys| ==> j == |m1.keys|
      ensures i == 0 ==> j == 0
    {
      ChildKeys(nodes, x, m, t, lo);
      var xn := nodes[x];
      j := i;
      if i > 0 && |nodes[xn.children[i - 1]].keys| >= t {
        m1 := BorrowLeft(x, m, lo, i);
      } else if i < |xn.keys| && |nodes[xn.children[i + 1]].keys| >= t {
        m1 := BorrowRight(x, m, lo, i);
      } else if i > 0 && |nodes[xn.children[i - 1]].keys| == t - 1 {
        m1 := Merge(x, m, lo, i - 1, xn.keys[i - 1]);
        j := i - 1;
      } else if i < |xn.keys| && |nodes[xn.children[i + 1]].keys| == t - 1 {
        m1 := Merge(x, m, lo, i, xn.keys[i]);
      } else {
        assert false;
      }
    }

    /** `__kb_delp_aux`: removes a key from the subtree at `x`, which holds
        at least `lo >= 1` keys, and returns it. Mode `s == 0` removes a key
        equal to `k`, which the subtree holds; mode 1 removes its last key
        and mode 2 its first. The subtree's in-order sequence loses the
        returned key at the position `p` the mode names, the subtree keeps
        its shape with one key fewer allowed at its root, and only its own
        nodes change or are freed. */
    method DelAux(x: NodeId, ghost m: Tree, ghost lo: int, k: int, s: int) returns (kp: int, ghost m': Tree, ghost p: int)
      requires 2 <= t && 0 <= s <= 2 && Rep(nodes, x, m) && WF(m, t, lo) && 1 <= lo && Sorted(InOrder(m))
      requires s == 0 ==> k in InOrder(m)
      modifies this`nodes
      ensures Shrunk(old(nodes), nodes, x, m, m') && WF(m', t, lo - 1) && Height(m') == Height(m)
      ensures RemovedAt(InOrder(m), InOrder(m'), p, kp) && Chosen(InOrder(m), p, kp, k, s)
      decreases Height(m), 3
    {
      NodeKeysSorted(m);
      var xn := nodes[x];
      var i, r := 0, 0;
      if s != 0 {
        r := if !xn.isInternal then 0 else if s == 1 then 1 else -1;
        i := if s == 1 then |xn.keys| - 1 else -1;
      } else {
        i, r := GetAux(xn.keys, k, r);
      }
      if !xn.isInternal {
        if s == 2 {
          i := i + 1;
        }
        kp, m' := DelLeaf(x, m, lo, i);
        p := i;
        return;
      }
      if r == 0 {
        kp, m', p := DelAt(x, m, lo, k, i);
        return;
      }
      if s == 0 {
        DescendSearch(m, i, k);
      }
      kp, m', p := DelBelow(x, m, lo, k, s, i + 1);
    }

    /** The step of `__kb_delp_aux` at an internal node `x` whose key `i`
        equals `k` (kbtree.h:276-298): when child `i` has `t` keys or more,
        its last key takes the place of key `i`; else when child `i + 1`
        has, its first key does; else the two children are merged around
        key `i` and `k` is removed from the merged child. */
    method DelAt(x: NodeId, ghost m: Tree, ghost lo: int, k: int, i: int) returns (kp: int, ghost m': Tree, ghost p: int)
      requires 2 <= t && Rep(nodes, x, m) && WF(m, t, lo) && 1 <= lo && Sorted(InOrder(m))
      requires m.Internal? && 0 <= i < |m.keys| && m.keys[i] == k
      modifies this`nodes
      ensures Shrunk(old(nodes), nodes, x, m, m') && WF(m', t, lo - 1) && Height(m') == Height(m)
      ensures RemovedAt(InOrder(m), InOrder(m'), p, kp) && kp == k
      decreases Height(m), 2
    {
      ChildKeys(nodes, x, m, t, lo);
      var xn := nodes[x];
      var yn := |nodes[xn.children[i]].keys|;
      if yn >= t {
        kp, m', p := DelPredecessor(x, m, lo, k, i);
        return;
      }
      var zn := |nodes[xn.children[i + 1]].keys|;
      if zn >= t {
        kp, m', p := DelSuccessor(x, m, lo, k, i);
      } else if yn == t - 1 && zn == t - 1 {
        kp, m', p := DelMerged(x, m, lo, k, i);
      } else {
        assert false;
      }
    }

    /** Key `i` of `x`, equal to `k`, is returned and replaced by the last
        key of child `i`, which has `t` keys or more and gives it up
        (kbtree.h:277-281). */
    method DelPredecessor(x: NodeId, ghost m: Tree, ghost lo: int, k: int, i: int) returns (kp: int, ghost m': Tree, ghost p: int)
      requires 2 <= t && Rep(nodes, x, m) && WF(m, t, lo) && 1 <= lo && Sorted(InOrder(m))
      requires m.Internal? && 0 <= i < |m.keys| && m.keys[i] == k && |m.children[i].keys| >= t
      modifies this`nodes
      ensures Shrunk(old(nodes), nodes, x, m, m') && WF(m', t, lo - 1) && Height(m') == Height(m)
      ensures RemovedAt(InOrder(m), InOrder(m'), p, kp) && kp == k
      decreases Height(m), 1
    {
      var xn := nodes[x];
      ghost var s0 := nodes;
      kp := xn.keys[i];
      ChildRep(nodes, x, m, i);
      ChildSorted(m, i);
      ChildWF(m, i, t, lo);
      var e;
      ghost var c', q;
      e, c', q := DelAux(xn.children[i], m.children[i], t, k, 1);
      ghost var s1 := nodes;
      nodes := nodes[x := Node(true, xn.keys[i := e], xn.children)];
      m', p := PredecessorUp(s0, s1, nodes, x, m, t, lo, i, c', q, e);
    }

    /** Key `i` of `x`, equal to `k`, is returned and replaced by the first
        key of child `i + 1`, which has `t` keys or more and gives it up
        (kbtree.h:282-286). */
    method DelSuccessor(x: NodeId, ghost m: Tree, ghost lo: int, k: int, i: int) returns (kp: int, ghost m': Tree, ghost p: int)
      requires 2 <= t && Rep(nodes, x, m) && WF(m, t, lo) && 1 <= lo && Sorted(InOrder(m))
      requires m.Internal? && 0 <= i < |m.keys| && m.keys[i] == k && |m.children[i + 1].keys| >= t
      modifies this`nodes
      ensures Shrunk(old(nodes), nodes, x, m, m') && WF(m', t, lo - 1) && Height(m') == Height(m)
      ensures RemovedAt(InOrder(m), InOrder(m'), p, kp) && kp == k
      decreases Height(m), 1
    {
      var xn := nodes[x];
      ghost var s0 := nodes;
      kp := xn.keys[i];
      ChildRep(nodes, x, m, i + 1);
      ChildSorted(m, i + 1);
      ChildWF(m, i + 1, t, lo);
      var e;
      ghost var c', q;
      e, c', q := DelAux(xn.children[i + 1], m.children[i + 1], t, k, 2);
      ghost var s1 := nodes;
      nodes := nodes[x := Node(true, xn.keys[i := e], xn.children)];
      m', p := SuccessorUp(s0, s1, nodes, x, m, t, lo, i, c', q, e);
    }

    /** Children `i` and `i + 1` of `x`, both with `t - 1` keys, are merged
        around `k`, the key `i` of `x`, and `k` is removed from the merged
        child (kbtree.h:287-297). */
    method DelMerged(x: NodeId, ghost m: Tree, ghost lo: int, k: int, i: int) returns (kp: int, ghost m': Tree, ghost p: int)
      requires 2 <= t && Rep(nodes, x, m) && WF(m, t, lo) && 1 <= lo && Sorted(InOrder(m))
      requires m.Internal? && 0 <= i < |m.keys| && m.keys[i] == k
      requires |m.children[i].keys| == t - 1 && |m.children[i + 1].keys| == t - 1
      modifies this`nodes
      ensures Shrunk(old(nodes), nodes, x, m, m') && WF(m', t, lo - 1) && Height(m') == Height(m)
      ensures RemovedAt(InOrder(m), InOrder(m'), p, kp) && kp == k
      decreases Height(m), 1
    {
      ghost var s0 := nodes;
      ghost var m1 := Merge(x, m, lo, i, k);
      ghost var s1 := nodes;
      ChildSorted(m1, i);
      ghost var c', q;
      kp, c', q := DelAux(nodes[x].children[i], m1.children[i], t, k, 0);
      m', p := DeleteBelow(s0, s1, nodes, x, m, m1, t, lo, i, c', q, kp, k, 0);
    }

    /** The descent of `__kb_delp_aux` into child `i` of the internal node
        `x` (kbtree.h:300-337): the child is fixed up so that it holds at
        least `t` keys, and the removal goes on in the child the fix-up
        leaves in its place. */
    method DelBelow(x: NodeId, ghost m: Tree, ghost lo: int, k: int, s: int, i: int) returns (kp: int, ghost m': Tree, ghost p: int)
      requires 2 <= t && 0 <= s <= 2 && Rep(nodes, x, m) && WF(m, t, lo) && 1 <= lo && Sorted(InOrder(m))
      requires m.Internal? && 0 <= i <= |m.keys|
      requires s == 0 ==> k in InOrder(m.children[i])
      requires s == 1 ==> i == |m.keys|
      requires s == 2 ==> i == 0
      modifies this`nodes
      ensures Shrunk(old(nodes), nodes, x, m, m') && WF(m', t, lo - 1) && Height(m') == Height(m)
      ensures RemovedAt(InOrder(m), InOrder(m'), p, kp) && Chosen(InOrder(m), p, kp, k, s)
      decreases Height(m), 1
    {
      ghost var s0 := nodes;
      var j;
      ghost var m1;
      j, m1 := FixChild(x, m, lo, i, k);
      ghost var s1 := nodes;
      ChildSorted(m1, j);
      ghost var c', q;
      kp, c', q := DelAux(nodes[x].children[j], m1.children[j], t, k, s);
      m', p := DeleteBelow(s0, s1, nodes, x, m, m1, t, lo, j, c', q, kp, k, s);
    }

    /** The removal step of `kb_delp`: `__kb_delp_aux` from the root in
        mode 0. The key returned equals `k`, and one occurrence of `k`
        leaves the tree, whose internal root may be left without a key. */
    method DelRoot(k: int) returns (kp: int)
      requires Shaped() && k in InOrder(Model)
      modifies this`nodes, this`Model
      ensures Loose(nodes, root, Model, t, nNodes) && Height(Model) == old(Height(Model))
      ensures kp == k && multiset(InOrder(Model)) == multiset(old(InOrder(Model))) - multiset{k}
      ensures |InOrder(Model)| == old(|InOrder(Model)|) - 1
    {
      ghost var s, m := nodes, Model;
      RootReady(s, root, m, t, nNodes, k);
      ghost var m', p;
      kp, m', p := DelAux(root, m, 1, k, 0);
      DelGood(s, nodes, root, m, m', p, k, t, nNodes);
      Model := m';
    }

    /** The root step of `kb_delp`: an internal root left without a key is
        freed and its only child becomes the root; the node count drops by
        one and the tree, one level lower, keeps its keys. */
    method CollapseRoot()
      requires 2 <= t && n == 2 * t - 1 && Loose(nodes, root, Model, t, nNodes)
      requires Model.Internal? && |Model.keys| == 0
      modifies this`nodes, this`root, this`nNodes, this`Model
      ensures Shaped() && InOrder(Model) == old(InOrder(Model)) && Height(Model) == old(Height(Model)) - 1
      ensures root == old(nodes[root].children[0]) && nodes == old(nodes) - {old(root)}
      ensures nNodes == old(nNodes) - 1
    {
      var x := root;
      ghost var s, m := nodes, Model;
      CollapseGood(s, x, m, t, nNodes);
      nNodes := nNodes - 1;
      root := nodes[x].children[0];
      nodes := nodes - {x};
      Model := m.children[0];
    }

    /** `kb_delp`: removes one key equal to `k`, which the tree holds, and
        returns it; the key count drops by one. */
    method DelP(k: int) returns (ret: int)
      requires Valid() && k in InOrder(Model)
      modifies this
      ensures Valid() && nKeys == old(nKeys) - 1 && ret == k
      ensures multiset(InOrder(Model)) == multiset(old(InOrder(Model))) - multiset{k}
      ensures old(Height(Model)) - 1 <= Height(Model) <= old(Height(Model))
      ensures nNodes == old(nNodes) - (old(Height(Model)) - Height(Model))
    {
      ret := DelRoot(k);
      nKeys := nKeys - 1;
      if |nodes[root].keys| == 0 && nodes[root].isInternal {
        CollapseRoot();
      }
    }

    /** `kb_del`: `kb_delp` with the key passed by value. */
    method Del(k: int) returns (ret: int)
      requires Valid() && k in InOrder(Model)
      modifies this
      ensures Valid() && nKeys == old(nKeys) - 1 && ret == k
      ensures multiset(InOrder(Model)) == multiset(old(InOrder(Model))) - multiset{k}
      ensures old(Height(Model)) - 1 <= Height(Model) <= old(Height(Model))
      ensures nNodes == old(nNodes) - (old(Height(Model)) - Height(Model))
    {
      ret := DelP(k);
    }
  }

  /** `Good` but for the key count of an internal root, which a deletion
      may leave at 0 until the root collapses. */
  ghost predicate Loose(s: Store, r: NodeId, m: Tree, t: int, count: int) {
    && Rep(s, r, m) && s.Keys == Ids(s, r, m)
    && WF(m, t, 0) && Sorted(InOrder(m)) && |s.Keys| <= count
  }

  /** A tree holding `k` has a key at its root. */
  lemma RootReady(s: Store, r: NodeId, m: Tree, t: int, count: int, k: int)
    requires Good(s, r, m, t, count) && k in InOrder(m)
    ensures WF(m, t, 1)
  {
  }

  /** The removal step of `kb_delp` keeps memory a whole sorted B-tree
      (whose internal root may have lost its last key) and removes one
      occurrence of `k` from its keys. */
  lemma DelGood(s: Store, s': Store, r: NodeId, m: Tree, m': Tree, p: int, k: int, t: int, count: int)
    requires Good(s, r, m, t, count) && Shrunk(s, s', r, m, m') && WF(m', t, 0)
    requires RemovedAt(InOrder(m), InOrder(m'), p, k)
    ensures Loose(s', r, m', t, count)
    ensures multiset(InOrder(m')) == multiset(InOrder(m)) - multiset{k} && |InOrder(m')| == |InOrder(m)| - 1
  {
    ShrunkWhole(s, s', r, m, m');
    RemovedSorted(InOrder(m), InOrder(m'), p, k);
  }

  /** The root step of `kb_delp`: without its keyless internal root `r`,
      memory is a whole sorted B-tree rooted at the only child, with the
      same keys, one level lower and one node fewer. */
  lemma CollapseGood(s: Store, r: NodeId, m: Tree, t: int, count: int)
    requires 2 <= t && Loose(s, r, m, t, count) && m.Internal? && |m.keys| == 0
    ensures Good(s - {r}, s[r].children[0], m.children[0], t, count - 1)
    ensures InOrder(m.children[0]) == InOrder(m) && Height(m.children[0]) == Height(m) - 1
  {
    var c, mc := s[r].children[0], m.children[0];
    OnlyChildRep(s, r, m);
    assert (s - {r}).Keys == s.Keys - {r} == Ids(s - {r}, c, mc);
    assert |(s - {r}).Keys| == |s.Keys| - 1;
    assert WF(mc, t, t - 1);
    assert InOrder(m) == InOrder(mc);
  }

  /** Memory `s` holds exactly the nodes of the tree `m` rooted at `r`, a
      sorted B-tree of minimum degree `t` whose internal root has a key, and
      `count` is at least the number of nodes. */
  ghost predicate Good(s: Store, r: NodeId, m: Tree, t: int, count: int) {
    && Rep(s, r, m) && s.Keys == Ids(s, r, m)
    && WF(m, t, 0) && (m.Internal? ==> 1 <= |m.keys|)
    && Sorted(InOrder(m)) && |s.Keys| <= count
  }

  /** The root step of `kb_putpos` keeps memory a whole sorted B-tree: the
      new root `z` over the old, full root `r`, after the split of `r`. */
  lemma GrowGood(s0: Store, s1: Store, s2: Store, r: NodeId, z: NodeId, m: Tree, t: int, count: int)
    requires 2 <= t && Good(s0, r, m, t, count) && |m.keys| == 2 * t - 1
    requires z !in s0 && s1 == s0[z := Node(true, [], [r])]
    requires Grown(s1, s2, z, Internal([], [m]), SplitChild(Internal([], [m]), 0, t))
    requires |s2.Keys| == |s1.Keys| + 1
    ensures Good(s2, z, SplitChild(Internal([], [m]), 0, t), t, count + 2)
  {
    var m0 := Internal([], [m]);
    var m' := SplitChild(m0, 0, t);
    assert WF(m', t, 0) && m'.keys == [m.keys[t - 1]] && InOrder(m') == InOrder(m) by {
      RootSplit(m, t);
    }
    assert s1.Keys == Ids(s1, z, m0) by {
      RootGrow(s0, s1, r, m, t, z);
    }
    assert |s1.Keys| == |s0.Keys| + 1 by {
      assert s1.Keys == s0.Keys + {z};
    }
    GrownWhole(s1, s2, z, m0, m');
  }

  /** The insertion step of `kb_putpos` keeps memory a whole sorted B-tree
      and adds one occurrence of `k` to its keys. */
  lemma PutGood(s: Store, s': Store, r: NodeId, m: Tree, m': Tree, lo: int, p: int, k: int, t: int, count': int)
    requires Good(s, r, m, t, count' - (|s'.Keys| - |s.Keys|)) && lo == (if m.Internal? then 1 else 0)
    requires Grown(s, s', r, m, m') && WF(m', t, lo) && Height(m') == Height(m)
    requires InsertedAt(InOrder(m), InOrder(m'), p, k)
    ensures Good(s', r, m', t, count')
    ensures multiset(InOrder(m')) == multiset(InOrder(m)) + multiset{k} && |InOrder(m')| == |InOrder(m)| + 1
  {
    GrownWhole(s, s', r, m, m');
    InsertedSorted(InOrder(m), InOrder(m'), p, k);
  }

  /** The search for `k` moving from the internal node `x` to its child
      `i + 1`, when the node's keys up to `i` are below `k` and the rest
      above it. */
  lemma Advance(s: Store, x: NodeId, m: Tree, t: int, k: int, i: int)
    requires Rep(s, x, m) && WF(m, t, 0) && Sorted(InOrder(m)) && 1 <= t && m.Internal?
    requires -1 <= i < |m.keys|
    requires forall j :: 0 <= j <= i ==> m.keys[j] < k
    requires forall j :: i < j < |m.keys| ==> k < m.keys[j]
    ensures Rep(s, s[x].children[i + 1], m.children[i + 1]) && WF(m.children[i + 1], t, 0)
    ensures Sorted(InOrder(m.children[i + 1])) && Height(m.children[i + 1]) < Height(m)
    ensures k in InOrder(m) <==> k in InOrder(m.children[i + 1])
  {
    DescendSearch(m, i, k);
    ChildRep(s, x, m, i + 1);
    ChildWF(m, i + 1, t, 0);
  }

  /** A search that misses the keys of a leaf: `k` is not in the leaf. */
  lemma LeafMiss(m: Tree, k: int, i: int)
    requires m.Leaf? && -1 <= i < |m.keys|
    requires forall j :: 0 <= j <= i ==> m.keys[j] < k
    requires forall j :: i < j < |m.keys| ==> k < m.keys[j]
    ensures k !in InOrder(m)
  {
  }
}
