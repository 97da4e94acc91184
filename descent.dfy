/** How a change made inside one child shows in the parent's in-order
    sequence. Insertion and deletion both descend from the root and change
    one child at each level; these lemmas carry the effect of that change
    (one key inserted or removed at a position) one level up. */
module Descent {
  import opened Keys
  import opened TreeModel

  /** `k` inserted at position `q` of child `i`, between the parent's keys
      around that child, is `k` inserted at position `|Pre(..., i)| + q` of
      the parent's in-order sequence. */
  lemma InsertIntoChild(m: Tree, i: int, c': Tree, k: int, q: int)
    requires m.Internal? && |m.children| == |m.keys| + 1 && 0 <= i < |m.children|
    requires InsertedAt(InOrder(m.children[i]), InOrder(c'), q, k) && Brackets(m.keys, i, k)
    ensures InsertedAt(InOrder(m), InOrder(Internal(m.keys, m.children[i := c'])), |Pre(m.keys, m.children, i)| + q, k)
  {
    var ks, cs := m.keys, m.children;
    var pre, c, post := Pre(ks, cs, i), InOrder(cs[i]), Post(ks, cs, i);
    ReplaceChildInOrder(m, i, c');
    var lo := if i > 0 then ks[i - 1] else k;
    var hi := if i < |ks| then ks[i] else k;
    if i > 0 {
      assert pre == Flatten(ks[..i - 1], cs[..i]) + [ks[i - 1]];
    }
    if i < |ks| {
      assert post == [ks[i]] + Flatten(ks[i + 1..], cs[i + 1..]);
    }
    InsertInMiddle(pre, c, post, q, k);
    MiddleBracket(pre, c, post, q, k, lo, hi);
  }

  /** Inserting into the middle part of a sequence made of three parts. */
  lemma InsertInMiddle(pre: seq<int>, c: seq<int>, post: seq<int>, q: int, k: int)
    requires 0 <= q <= |c|
    ensures pre + (c[..q] + [k] + c[q..]) + post
            == (pre + c + post)[..|pre| + q] + [k] + (pre + c + post)[|pre| + q..]
  {
    var x, y := pre + c[..q], c[q..] + post;
    assert c == c[..q] + c[q..];
    assert pre + c + post == x + y;
    assert pre + (c[..q] + [k] + c[q..]) + post == x + [k] + y;
  }

  /** The neighbours of a position inside the middle part of a sequence
      made of three parts. */
  lemma MiddleBracket(pre: seq<int>, c: seq<int>, post: seq<int>, q: int, k: int, lo: int, hi: int)
    requires 0 <= q <= |c|
    requires |pre| > 0 ==> pre[|pre| - 1] == lo && lo <= k
    requires |post| > 0 ==> post[0] == hi && k <= hi
    requires q > 0 ==> c[q - 1] <= k
    requires q < |c| ==> k <= c[q]
    ensures |pre| + q > 0 ==> (pre + c + post)[|pre| + q - 1] <= k
    ensures |pre| + q < |pre + c + post| ==> k <= (pre + c + post)[|pre| + q]
  {
  }

  /** The key at position `q` of child `i` removed is the key at position
      `|Pre(..., i)| + q` of the parent removed. */
  lemma RemoveFromChild(m: Tree, i: int, c': Tree, q: int)
    requires m.Internal? && |m.children| == |m.keys| + 1 && 0 <= i < |m.children|
    requires 0 <= q < |InOrder(m.children[i])|
    requires InOrder(c') == InOrder(m.children[i])[..q] + InOrder(m.children[i])[q + 1..]
    ensures |Pre(m.keys, m.children, i)| + q < |InOrder(m)|
    ensures InOrder(m)[|Pre(m.keys, m.children, i)| + q] == InOrder(m.children[i])[q]
    ensures InOrder(Internal(m.keys, m.children[i := c']))
            == InOrder(m)[..|Pre(m.keys, m.children, i)| + q] + InOrder(m)[|Pre(m.keys, m.children, i)| + q + 1..]
  {
    var ks, cs := m.keys, m.children;
    var pre, c, post := Pre(ks, cs, i), InOrder(cs[i]), Post(ks, cs, i);
    var a, p := InOrder(m), |pre| + q;
    ReplaceChildInOrder(m, i, c');
    assert a == pre + c + post;
    assert a[..p] == pre + c[..q];
    assert a[p + 1..] == c[q + 1..] + post;
  }

  /** Key `i` of an internal node overwritten by the last key `e` of the
      subtree before it, which that subtree gives up: the parent has lost
      exactly its key `i`, at position `|Pre(..., i)| + |InOrder(child i)|`. */
  lemma ReplaceByPredecessor(m: Tree, i: int, c': Tree, e: int)
    requires m.Internal? && |m.children| == |m.keys| + 1 && 0 <= i < |m.keys|
    requires InOrder(c') + [e] == InOrder(m.children[i])
    ensures |Pre(m.keys, m.children, i)| + |InOrder(m.children[i])| < |InOrder(m)|
    ensures InOrder(m)[|Pre(m.keys, m.children, i)| + |InOrder(m.children[i])|] == m.keys[i]
    ensures InOrder(Internal(m.keys[i := e], m.children[i := c']))
            == InOrder(m)[..|Pre(m.keys, m.children, i)| + |InOrder(m.children[i])|]
               + InOrder(m)[|Pre(m.keys, m.children, i)| + |InOrder(m.children[i])| + 1..]
  {
    var ks, cs := m.keys, m.children;
    var ks', cs' := ks[i := e], cs[i := c'];
    var pre, c, rest := Pre(ks, cs, i), InOrder(cs[i]), Flatten(ks[i + 1..], cs[i + 1..]);
    var a, p := InOrder(m), |pre| + |c|;
    FlattenAt(ks, cs, i);
    assert Post(ks, cs, i) == [ks[i]] + rest;
    assert a == pre + c + [ks[i]] + rest;
    assert a[..p] == pre + c;
    assert a[p + 1..] == rest;
    assert ks'[i + 1..] == ks[i + 1..] && cs'[i + 1..] == cs[i + 1..];
    assert Post(ks', cs', i) == [e] + rest;
    PreSame(ks, cs, ks', cs', i);
    calc {
      InOrder(Internal(ks', cs'));
      { FlattenAt(ks', cs', i); }
      Pre(ks', cs', i) + InOrder(c') + Post(ks', cs', i);
      pre + InOrder(c') + ([e] + rest);
      pre + (InOrder(c') + [e]) + rest;
      pre + c + rest;
      a[..p] + a[p + 1..];
    }
  }

  /** Key `i` of an internal node overwritten by the first key `e` of the
      subtree after it, which that subtree gives up: the parent has lost
      exactly its key `i`, at position `|Pre(..., i + 1)| - 1`. */
  lemma ReplaceBySuccessor(m: Tree, i: int, c': Tree, e: int)
    requires m.Internal? && |m.children| == |m.keys| + 1 && 0 <= i < |m.keys|
    requires [e] + InOrder(c') == InOrder(m.children[i + 1])
    ensures 0 < |Pre(m.keys, m.children, i + 1)| <= |InOrder(m)|
    ensures InOrder(m)[|Pre(m.keys, m.children, i + 1)| - 1] == m.keys[i]
    ensures InOrder(Internal(m.keys[i := e], m.children[i + 1 := c']))
            == InOrder(m)[..|Pre(m.keys, m.children, i + 1)| - 1]
               + InOrder(m)[|Pre(m.keys, m.children, i + 1)|..]
  {
    var ks, cs := m.keys, m.children;
    var ks', cs' := ks[i := e], cs[i + 1 := c'];
    var front, c, post := Flatten(ks[..i], cs[..i + 1]), InOrder(cs[i + 1]), Post(ks, cs, i + 1);
    var a, p := InOrder(m), |front|;
    FlattenAt(ks, cs, i + 1);
    assert Pre(ks, cs, i + 1) == front + [ks[i]];
    assert a == front + [ks[i]] + c + post;
    assert a[..p] == front;
    assert a[p + 1..] == c + post;
    assert ks'[..i] == ks[..i] && cs'[..i + 1] == cs[..i + 1];
    assert Pre(ks', cs', i + 1) == front + [e];
    PostSame(ks, cs, ks', cs', i + 1);
    calc {
      InOrder(Internal(ks', cs'));
      { FlattenAt(ks', cs', i + 1); }
      Pre(ks', cs', i + 1) + InOrder(c') + Post(ks', cs', i + 1);
      front + [e] + InOrder(c') + post;
      front + ([e] + InOrder(c')) + post;
      front + c + post;
      front + (c + post);
      a[..p] + a[p + 1..];
    }
  }

  /** After a borrow from the left sibling, child `i` holds its old keys
      preceded by the parent's key `i - 1` and the subtree moved across. */
  lemma RotateRightChild(m: Tree, i: int)
    requires m.Internal? && |m.children| == |m.keys| + 1 && 0 < i < |m.children|
    requires |m.children[i - 1].keys| >= 1
    requires m.children[i - 1].Internal? == m.children[i].Internal?
    requires m.children[i - 1].Internal? ==> |m.children[i - 1].children| == |m.children[i - 1].keys| + 1
    requires m.children[i].Internal? ==> |m.children[i].children| == |m.children[i].keys| + 1
    ensures InOrder(RotateRight(m, i).children[i])
            == (if m.children[i].Internal? then InOrder(m.children[i - 1].children[|m.children[i - 1].keys|]) else [])
               + [m.keys[i - 1]] + InOrder(m.children[i])
  {
    var xp' := RotateRight(m, i).children[i];
    if xp'.Internal? {
      InOrderFirst(xp'.keys, xp'.children);
      assert xp'.keys[1..] == m.children[i].keys && xp'.children[1..] == m.children[i].children;
    }
  }

  /** After a borrow from the right sibling, child `i` holds its old keys
      followed by the parent's key `i` and the subtree moved across. */
  lemma RotateLeftChild(m: Tree, i: int)
    requires m.Internal? && |m.children| == |m.keys| + 1 && 0 <= i < |m.keys|
    requires |m.children[i + 1].keys| >= 1
    requires m.children[i].Internal? == m.children[i + 1].Internal?
    requires m.children[i + 1].Internal? ==> |m.children[i + 1].children| >= 1
    requires m.children[i].Internal? ==> |m.children[i].children| == |m.children[i].keys| + 1
    ensures InOrder(RotateLeft(m, i).children[i])
            == InOrder(m.children[i]) + [m.keys[i]]
               + (if m.children[i].Internal? then InOrder(m.children[i + 1].children[0]) else [])
  {
    var xp' := RotateLeft(m, i).children[i];
    if xp'.Internal? {
      var l := |xp'.keys| - 1;
      InOrderLast(xp'.keys, xp'.children);
      assert xp'.keys[..l] == m.children[i].keys && xp'.children[..l + 1] == m.children[i].children;
    }
  }
}
