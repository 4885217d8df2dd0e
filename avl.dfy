/*
 * The AVL entry points: the single left and right rotations, which relink
 * three nodes in place, repair the ranks of the two nodes that change
 * places and point the parent's slot (or the tree head) at the node that
 * moved up; and the create, insert, search and index operations, which are
 * those of the plain search tree.  No rebalancing exists in this code.
 *
 * Each rotation is specified on the abstract tree: `RotL` and `RotR` rotate
 * at the top of a tree, and the heap operation replaces the subtree whose
 * top is `center` by its rotation (`ReplaceAt`).
 */
module Avl {
  import opened TreeNodes
  import opened BstUtil
  import opened SearchTree

  // ---------------------------------------------------------------------
  // The rotations on the abstract tree.

  /** Left rotation at the top of `t`: the right child (the pivot) moves up,
      the old top becomes its left child and takes the pivot's left subtree
      as its right one, and the pivot's rank grows by the old top's rank.
      Nothing changes when there is no right child. */
  function RotL(t: Tree): Tree
  {
    match t
    case Br(a, c, kc, rc, Br(b, p, kp, rp, g)) => Br(Br(a, c, kc, rc, b), p, kp, rp + rc, g)
    case _ => t
  }

  /** Right rotation at the top of `t`: the left child (the pivot) moves up,
      the old top becomes its right child and takes the pivot's right subtree
      as its left one, and the old top's rank drops by the pivot's rank.
      Nothing changes when there is no left child. */
  function RotR(t: Tree): Tree
  {
    match t
    case Br(Br(g, p, kp, rp, b), c, kc, rc, a) => Br(g, p, kp, rp, Br(b, c, kc, rc - rp, a))
    case _ => t
  }

  /** A left rotation keeps the nodes in their in-order sequence, and so
      the keys in theirs. */
  lemma {:induction false} RotLInorder(t: Tree)
    ensures Inorder(RotL(t)) == Inorder(t) && Keys(RotL(t)) == Keys(t)
    ensures NodeSet(RotL(t)) == NodeSet(t)
  {
    if t.Br? && t.right.Br? {
      var Br(a, c, kc, rc, Br(b, p, kp, rp, g)) := t;
      assert Keys(RotL(t)) == Keys(a) + [kc] + Keys(b) + [kp] + Keys(g);
      assert Inorder(RotL(t)) == Inorder(a) + [c] + Inorder(b) + [p] + Inorder(g);
    }
  }

  /** A left rotation shares no node that the tree did not share. */
  lemma RotLDistinct(t: Tree)
    requires Distinct(t)
    ensures Distinct(RotL(t))
  {
    if t.Br? && t.right.Br? {
      var Br(a, c, kc, rc, Br(b, p, kp, rp, g)) := t;
      assert Distinct(Br(a, c, kc, rc, b));
      assert NodeSet(Br(a, c, kc, rc, b)) == NodeSet(a) + {c} + NodeSet(b);
    }
  }

  /** A left rotation keeps the rank invariant: the pivot's new left subtree
      is its old one together with the old top and the old top's left
      subtree, and the pivot's rank grows by exactly the old top's rank. */
  lemma RotLRankOk(t: Tree)
    requires RankOk(t)
    ensures RankOk(RotL(t))
  {
    if t.Br? && t.right.Br? {
      var Br(a, c, kc, rc, Br(b, p, kp, rp, g)) := t;
      assert rc == Size(a) + 1 && rp == Size(b) + 1;
      assert Size(Br(a, c, kc, rc, b)) == Size(a) + 1 + Size(b);
      assert RankOk(Br(a, c, kc, rc, b));
    }
  }

  /** A right rotation keeps the in-order sequences. */
  lemma {:induction false} RotRInorder(t: Tree)
    ensures Inorder(RotR(t)) == Inorder(t) && Keys(RotR(t)) == Keys(t)
    ensures NodeSet(RotR(t)) == NodeSet(t)
  {
    if t.Br? && t.left.Br? {
      var Br(Br(g, p, kp, rp, b), c, kc, rc, a) := t;
      assert Keys(RotR(t)) == Keys(g) + [kp] + Keys(b) + [kc] + Keys(a);
      assert Inorder(RotR(t)) == Inorder(g) + [p] + Inorder(b) + [c] + Inorder(a);
    }
  }

  /** A right rotation shares no node that the tree did not share. */
  lemma RotRDistinct(t: Tree)
    requires Distinct(t)
    ensures Distinct(RotR(t))
  {
    if t.Br? && t.left.Br? {
      var Br(Br(g, p, kp, rp, b), c, kc, rc, a) := t;
      assert Distinct(Br(b, c, kc, rc - rp, a));
      assert NodeSet(Br(b, c, kc, rc - rp, a)) == NodeSet(b) + {c} + NodeSet(a);
    }
  }

  /** A right rotation keeps the rank invariant: the old top loses the pivot
      and the pivot's left subtree from its left, which is the pivot's rank. */
  lemma RotRRankOk(t: Tree)
    requires RankOk(t)
    ensures RankOk(RotR(t))
  {
    if t.Br? && t.left.Br? {
      var Br(Br(g, p, kp, rp, b), c, kc, rc, a) := t;
      assert rp == Size(g) + 1;
      assert rc == Size(g) + 1 + Size(b) + 1;
      assert RankOk(Br(b, c, kc, rc - rp, a));
    }
  }

  /** The two rotations undo each other. */
  lemma RotLRotR(t: Tree)
    ensures t.Br? && t.right.Br? ==> RotR(RotL(t)) == t
    ensures t.Br? && t.left.Br? ==> RotL(RotR(t)) == t
  {
  }

  // ---------------------------------------------------------------------
  // Replacing a subtree.

  /** Replacing the subtree at `c` by one with the same keys and nodes keeps
      the keys and the nodes of the whole tree. */
  lemma {:induction false} ReplaceKeys(t: Tree, c: Node, s: Tree)
    requires c in NodeSet(t)
    requires Keys(s) == Keys(SubAt(t, c)) && NodeSet(s) == NodeSet(SubAt(t, c))
    ensures Keys(ReplaceAt(t, c, s)) == Keys(t) && NodeSet(ReplaceAt(t, c, s)) == NodeSet(t)
    ensures Size(ReplaceAt(t, c, s)) == Size(t)
  {
    match t
    case Br(l, n, _, _, r) =>
      if n != c {
        if c in NodeSet(l) {
          assert SubAt(t, c) == SubAt(l, c);
          ReplaceKeys(l, c, s);
        } else {
          assert SubAt(t, c) == SubAt(r, c);
          ReplaceKeys(r, c, s);
        }
      }
  }

  /** The replacement shares no node when neither the tree nor the new
      subtree does, and the new subtree has the nodes of the old one. */
  lemma {:induction false} ReplaceDistinct(t: Tree, c: Node, s: Tree)
    requires c in NodeSet(t) && Distinct(t) && Distinct(s)
    requires Keys(s) == Keys(SubAt(t, c)) && NodeSet(s) == NodeSet(SubAt(t, c))
    ensures Distinct(ReplaceAt(t, c, s))
  {
    match t
    case Br(l, n, _, _, r) =>
      if n != c {
        if c in NodeSet(l) {
          assert SubAt(t, c) == SubAt(l, c);
          ReplaceDistinct(l, c, s);
          ReplaceKeys(l, c, s);
        } else {
          assert SubAt(t, c) == SubAt(r, c);
          ReplaceDistinct(r, c, s);
          ReplaceKeys(r, c, s);
        }
      }
  }

  /** The replacement keeps the rank invariant when the new subtree has it
      and as many nodes as the old one. */
  lemma {:induction false} ReplaceRankOk(t: Tree, c: Node, s: Tree)
    requires c in NodeSet(t) && RankOk(t) && RankOk(s)
    requires Keys(s) == Keys(SubAt(t, c)) && NodeSet(s) == NodeSet(SubAt(t, c))
    ensures RankOk(ReplaceAt(t, c, s))
  {
    match t
    case Br(l, n, _, _, r) =>
      if n != c {
        if c in NodeSet(l) {
          assert SubAt(t, c) == SubAt(l, c);
          ReplaceRankOk(l, c, s);
          ReplaceKeys(l, c, s);
        } else {
          assert SubAt(t, c) == SubAt(r, c);
          ReplaceRankOk(r, c, s);
        }
      }
  }

  /** The top of the tree changes only when the replaced subtree is the
      whole tree. */
  lemma {:induction false} ReplaceRoot(t: Tree, c: Node, s: Tree)
    requires c in NodeSet(t)
    ensures Root(ReplaceAt(t, c, s)) == if c == Root(t) then Root(s) else Root(t)
  {
  }

  /** Putting back the subtree that is there changes nothing. */
  lemma {:induction false} ReplaceSelf(t: Tree, c: Node)
    ensures ReplaceAt(t, c, SubAt(t, c)) == t
  {
    match t
    case Leaf =>
    case Br(l, n, _, _, r) =>
      if n != c {
        if c in NodeSet(l) { ReplaceSelf(l, c); } else { ReplaceSelf(r, c); }
      }
  }

  /** After a replacement by a subtree with the same nodes, the subtree at
      its top is the replacement, and replacing it again is replacing the
      original subtree in the first place. */
  lemma {:induction false} ReplaceAgain(t: Tree, c: Node, s: Tree, s': Tree)
    requires Distinct(t) && c in NodeSet(t) && s.Br?
    requires Keys(s) == Keys(SubAt(t, c)) && NodeSet(s) == NodeSet(SubAt(t, c))
    ensures SubAt(ReplaceAt(t, c, s), s.node) == s
    ensures ReplaceAt(ReplaceAt(t, c, s), s.node, s') == ReplaceAt(t, c, s')
  {
    match t
    case Br(l, n, k, rk, r) =>
      if n != c {
        if c in NodeSet(l) {
          assert SubAt(t, c) == SubAt(l, c);
          ReplaceAgain(l, c, s, s');
          SubAtShape(l, c, null);
          ReplaceKeys(l, c, s);
        } else {
          assert SubAt(t, c) == SubAt(r, c);
          ReplaceAgain(r, c, s, s');
          SubAtShape(r, c, null);
          ReplaceKeys(r, c, s);
        }
      }
  }

  /** The subtree at a node of a tree with the rank invariant has it too. */
  lemma {:induction false} SubAtRankOk(t: Tree, c: Node)
    requires RankOk(t)
    ensures RankOk(SubAt(t, c))
  {
    match t
    case Leaf =>
    case Br(l, n, _, _, r) =>
      if n != c {
        if c in NodeSet(l) { SubAtRankOk(l, c); } else { SubAtRankOk(r, c); }
      }
  }

  /** The subtree at a node of an ordered tree is ordered. */
  lemma {:induction false} SubAtOrdered(t: Tree, c: Node)
    requires Ordered(t)
    ensures Ordered(SubAt(t, c))
  {
    match t
    case Leaf =>
    case Br(l, n, _, _, r) =>
      OrderedBr(t);
      if n != c {
        if c in NodeSet(l) { SubAtOrdered(l, c); } else { SubAtOrdered(r, c); }
      }
  }

  /** A left rotation at any node keeps the in-order keys and the nodes, and
      so the search order and the absence of shared nodes. */
  lemma RotateLeftKeeps(t: Tree, c: Node, t': Tree)
    requires Distinct(t) && c in NodeSet(t) && t' == ReplaceAt(t, c, RotL(SubAt(t, c)))
    ensures Keys(t') == Keys(t) && NodeSet(t') == NodeSet(t) && Distinct(t') && Size(t') == Size(t)
    ensures Ordered(t) ==> Ordered(t')
  {
    var sub := SubAt(t, c);
    SubAtDistinct(t, c);
    RotLInorder(sub);
    RotLDistinct(sub);
    ReplaceKeys(t, c, RotL(sub));
    ReplaceDistinct(t, c, RotL(sub));
  }

  /** A left rotation at any node keeps rank = 1 + size of the left subtree. */
  lemma RotateLeftRanks(t: Tree, c: Node, t': Tree)
    requires Distinct(t) && c in NodeSet(t) && RankOk(t) && t' == ReplaceAt(t, c, RotL(SubAt(t, c)))
    ensures RankOk(t')
  {
    var sub := SubAt(t, c);
    SubAtDistinct(t, c);
    SubAtRankOk(t, c);
    RotLRankOk(sub);
    RotLInorder(sub);
    ReplaceRankOk(t, c, RotL(sub));
  }

  /** A right rotation at any node keeps the in-order keys and the nodes, and
      so the search order and the absence of shared nodes. */
  lemma RotateRightKeeps(t: Tree, c: Node, t': Tree)
    requires Distinct(t) && c in NodeSet(t) && t' == ReplaceAt(t, c, RotR(SubAt(t, c)))
    ensures Keys(t') == Keys(t) && NodeSet(t') == NodeSet(t) && Distinct(t') && Size(t') == Size(t)
    ensures Ordered(t) ==> Ordered(t')
  {
    var sub := SubAt(t, c);
    SubAtDistinct(t, c);
    RotRInorder(sub);
    RotRDistinct(sub);
    ReplaceKeys(t, c, RotR(sub));
    ReplaceDistinct(t, c, RotR(sub));
  }

  /** A right rotation at any node keeps rank = 1 + size of the left subtree. */
  lemma RotateRightRanks(t: Tree, c: Node, t': Tree)
    requires Distinct(t) && c in NodeSet(t) && RankOk(t) && t' == ReplaceAt(t, c, RotR(SubAt(t, c)))
    ensures RankOk(t')
  {
    var sub := SubAt(t, c);
    SubAtDistinct(t, c);
    SubAtRankOk(t, c);
    RotRRankOk(sub);
    RotRInorder(sub);
    ReplaceRankOk(t, c, RotR(sub));
  }

  /** A right rotation at the pivot undoes a left rotation at `c`. */
  lemma RotateRoundTrip(t: Tree, c: Node)
    requires Distinct(t) && c in NodeSet(t) && SubAt(t, c).Br? && SubAt(t, c).right.Br?
    ensures var t' := ReplaceAt(t, c, RotL(SubAt(t, c)));
      var p := SubAt(t, c).right.node;
      ReplaceAt(t', p, RotR(SubAt(t', p))) == t
  {
    var sub := SubAt(t, c);
    SubAtShape(t, c, null);
    RotLInorder(sub);
    ReplaceAgain(t, c, RotL(sub), sub);
    RotLRotR(sub);
    ReplaceSelf(t, c);
  }

  // ---------------------------------------------------------------------
  // The heap after a rotation.

  /** The child slots of `f` that held `c` hold `p` instead. */
  function Redirect(f: Fields, c: Node, p: Node?): Fields
  {
    f.(left := if f.left == c then p else f.left, right := if f.right == c then p else f.right)
  }

  /** Against the snapshot `h` of a tree the heap matched, a heap that matches
      the new subtree `s`, and in which every node outside the old subtree at
      `c` is as it was except that the parent of `c` points at the top of `s`,
      matches the tree with `s` in place. */
  lemma {:induction false} ReplaceMatches(t: Tree, p: Node?, c: Node, s: Tree, h: map<Node, Fields>)
    requires Agrees(t, h) && Distinct(t) && c in NodeSet(t) && p !in NodeSet(t)
    requires Matches(s)
    requires forall m :: m in NodeSet(t) && m !in NodeSet(SubAt(t, c)) ==>
      m in h && Fields(m.value, m.rank, m.left, m.right) ==
        if m == ParentIn(t, c, p) then Redirect(h[m], c, Root(s)) else h[m]
    ensures Matches(ReplaceAt(t, c, s))
  {
    match t
    case Br(l, n, _, _, r) =>
      assert NodeSet(t) == NodeSet(l) + {n} + NodeSet(r);
      if n != c {
        if c in NodeSet(l) {
          SubAtShape(l, c, n);
          ReplaceMatches(l, n, c, s, h);
          AgreesMatches(r, h);
        } else {
          SubAtShape(r, c, n);
          ReplaceMatches(r, n, c, s, h);
          AgreesMatches(l, h);
        }
      }
  }

  /** Against the snapshot `u` of the parent fields of a linked tree, a heap
      in which the new subtree `s` is linked to the parent of `c`, and every
      node outside the old subtree at `c` keeps its parent, is linked. */
  lemma {:induction false} ReplaceLinked(t: Tree, p: Node?, c: Node, s: Tree, u: map<Node, Node?>)
    requires LinkedIn(t, p, u) && Distinct(t) && c in NodeSet(t) && p !in NodeSet(t)
    requires ParentsLinked(s, ParentIn(t, c, p))
    requires forall m :: m in NodeSet(t) && m !in NodeSet(SubAt(t, c)) ==> m in u && m.parent == u[m]
    ensures ParentsLinked(ReplaceAt(t, c, s), p)
  {
    match t
    case Br(l, n, _, _, r) =>
      assert NodeSet(t) == NodeSet(l) + {n} + NodeSet(r);
      if n != c {
        if c in NodeSet(l) {
          SubAtShape(l, c, n);
          ReplaceLinked(l, n, c, s, u);
          LinkedInParents(r, n, u);
        } else {
          SubAtShape(r, c, n);
          ReplaceLinked(r, n, c, s, u);
          LinkedInParents(l, n, u);
        }
      }
  }

  /** In an ordered tree that the heap matches, the parent of a node below
      the top holds it in exactly one of its child slots, and the node in
      the other slot, if any, has a different key. */
  lemma ParentSlot(t: Tree, c: Node)
    requires Distinct(t) && Ordered(t) && Matches(t) && c in NodeSet(t) && c != Root(t)
    ensures var pa := ParentIn(t, c, null);
      pa != null && pa in NodeSet(t) && pa != c && (pa.left == c <==> pa.right != c) &&
      (pa.left != null ==> pa.left in NodeSet(t)) &&
      (pa.left != null && pa.left != c ==> pa.left.value != c.value)
  {
    var pa := ParentIn(t, c, null);
    ParentInTree(t, c, null);
    SubAtShape(t, c, null);
    SubAtMatches(t, pa);
    SubAtDistinct(t, pa);
    SubAtOrdered(t, pa);
    var ps := SubAt(t, pa);
    var Br(l, _, k, _, r) := ps;
    assert Ordered(ps);
    OrderedBr(ps);
    assert pa.left == Root(l) && pa.right == Root(r);
    assert NodeSet(ps) == NodeSet(l) + {pa} + NodeSet(r);
    if Root(l) == c {
      assert c in NodeSet(l);
      assert Root(r) != c;
    } else {
      assert Root(r) == c && c in NodeSet(r);
      assert r.key in Keys(r) && c.value == r.key;
      if l.Br? {
        assert l.key in Keys(l) && pa.left.value == l.key;
        assert forall y :: y in Keys(l) ==> y < k;
        assert forall y :: y in Keys(r) ==> k < y;
      }
    }
  }

  /** After the writes of a left rotation at the top of `s`, the heap
      matches the rotated tree: the old top and the pivot hold their new
      fields and every other node is as the snapshot `h` recorded it. */
  lemma RotLMatches(s: Tree, h: map<Node, Fields>)
    requires s.Br? && s.right.Br? && Distinct(s) && Agrees(s, h)
    requires var c, pv := s.node, s.right.node;
      c.value == s.key && c.rank == s.rank && c.left == Root(s.left) &&
      c.right == Root(s.right.left) &&
      pv.value == s.right.key && pv.rank == s.right.rank + s.rank && pv.left == c &&
      pv.right == Root(s.right.right)
    requires forall m :: m in NodeSet(s) && m != s.node && m != s.right.node ==>
      m in h && Fields(m.value, m.rank, m.left, m.right) == h[m]
    ensures Matches(RotL(s))
  {
    var Br(a, c, kc, rc, Br(b, pv, kp, rp, g)) := s;
    assert Distinct(s.right);
    assert NodeSet(s) == NodeSet(a) + {c} + (NodeSet(b) + {pv} + NodeSet(g));
    AgreesMatches(a, h);
    AgreesMatches(b, h);
    AgreesMatches(g, h);
  }

  /** After the writes of a left rotation at the top of `s`, the parent
      links of the rotated tree are in place: the old top points at the
      pivot, the pivot at the old parent `pa`, the pivot's old left child at
      the old top, and every other node as the snapshot `u` recorded it. */
  lemma RotLLinked(s: Tree, pa: Node?, u: map<Node, Node?>)
    requires s.Br? && s.right.Br? && Distinct(s) && LinkedIn(s, pa, u)
    requires s.node.parent == s.right.node && s.right.node.parent == pa
    requires s.right.left.Br? ==> s.right.left.node.parent == s.node
    requires forall m :: m in NodeSet(s) && m != s.node && m != s.right.node && m != Root(s.right.left) ==>
      m in u && m.parent == u[m]
    ensures ParentsLinked(RotL(s), pa)
  {
    var Br(a, c, kc, rc, Br(b, pv, kp, rp, g)) := s;
    assert Distinct(s.right);
    assert NodeSet(s) == NodeSet(a) + {c} + (NodeSet(b) + {pv} + NodeSet(g));
    assert LinkedIn(s.right, c, u) && LinkedIn(b, pv, u);
    LinkedInParents(a, c, u);
    LinkedInParents(g, pv, u);
    if b.Br? {
      assert Distinct(b);
      assert NodeSet(b) == NodeSet(b.left) + {b.node} + NodeSet(b.right);
      LinkedInParents(b.left, b.node, u);
      LinkedInParents(b.right, b.node, u);
    }
  }

  /** After the writes of a right rotation at the top of `s`, the heap
      matches the rotated tree. */
  lemma RotRMatches(s: Tree, h: map<Node, Fields>)
    requires s.Br? && s.left.Br? && Distinct(s) && Agrees(s, h)
    requires var c, pv := s.node, s.left.node;
      c.value == s.key && c.rank == s.rank - s.left.rank &&
      c.left == Root(s.left.right) && c.right == Root(s.right) &&
      pv.value == s.left.key && pv.rank == s.left.rank &&
      pv.left == Root(s.left.left) && pv.right == c
    requires forall m :: m in NodeSet(s) && m != s.node && m != s.left.node ==>
      m in h && Fields(m.value, m.rank, m.left, m.right) == h[m]
    ensures Matches(RotR(s))
  {
    var Br(Br(g, pv, kp, rp, b), c, kc, rc, a) := s;
    assert Distinct(s.left);
    assert NodeSet(s) == (NodeSet(g) + {pv} + NodeSet(b)) + {c} + NodeSet(a);
    AgreesMatches(a, h);
    AgreesMatches(b, h);
    AgreesMatches(g, h);
  }

  /** After the writes of a right rotation at the top of `s`, the parent
      links of the rotated tree are in place. */
  lemma RotRLinked(s: Tree, pa: Node?, u: map<Node, Node?>)
    requires s.Br? && s.left.Br? && Distinct(s) && LinkedIn(s, pa, u)
    requires s.node.parent == s.left.node && s.left.node.parent == pa
    requires s.left.right.Br? ==> s.left.right.node.parent == s.node
    requires forall m :: m in NodeSet(s) && m != s.node && m != s.left.node && m != Root(s.left.right) ==>
      m in u && m.parent == u[m]
    ensures ParentsLinked(RotR(s), pa)
  {
    var Br(Br(g, pv, kp, rp, b), c, kc, rc, a) := s;
    assert Distinct(s.left);
    assert NodeSet(s) == (NodeSet(g) + {pv} + NodeSet(b)) + {c} + NodeSet(a);
    assert LinkedIn(s.left, c, u) && LinkedIn(b, pv, u);
    LinkedInParents(a, c, u);
    LinkedInParents(g, pv, u);
    if b.Br? {
      assert Distinct(b);
      assert NodeSet(b) == NodeSet(b.left) + {b.node} + NodeSet(b.right);
      LinkedInParents(b.left, b.node, u);
      LinkedInParents(b.right, b.node, u);
    }
  }

  /** The heap after the writes of a left rotation at `c`: against the
      snapshots `h` and `u` taken before them, `c` takes its pivot's left
      child as its right one, the pivot takes `c` as its left child and the
      rank of `c` on top of its own, the parent links of the three moved
      nodes follow, the parent of `c` points at the pivot, and every other
      node is as it was. */
  lemma LeftRotated(t: Tree, c: Node, h: map<Node, Fields>, u: map<Node, Node?>)
    requires Distinct(t) && c in NodeSet(t) && Agrees(t, h) && LinkedIn(t, null, u)
    requires SubAt(t, c).Br? && SubAt(t, c).right.Br?
    requires var pv := SubAt(t, c).right.node;
      c in h && pv in h &&
      Fields(c.value, c.rank, c.left, c.right) == h[c].(right := h[pv].left) &&
      Fields(pv.value, pv.rank, pv.left, pv.right) == h[pv].(rank := h[pv].rank + h[c].rank, left := c) &&
      c.parent == pv && pv.parent == ParentIn(t, c, null) &&
      (h[pv].left != null ==> h[pv].left.parent == c)
    requires var pv := SubAt(t, c).right.node;
      forall m :: m in NodeSet(t) && m != c && m != pv ==>
        m in h && Fields(m.value, m.rank, m.left, m.right) ==
          if m == ParentIn(t, c, null) then Redirect(h[m], c, pv) else h[m]
    requires var pv := SubAt(t, c).right.node;
      forall m :: m in NodeSet(t) && m != c && m != pv && m != h[pv].left ==>
        m in u && m.parent == u[m]
    ensures Matches(ReplaceAt(t, c, RotL(SubAt(t, c))))
    ensures ParentsLinked(ReplaceAt(t, c, RotL(SubAt(t, c))), null)
  {
    var sub := SubAt(t, c);
    SubAtShape(t, c, null);
    SubAtDistinct(t, c);
    AgreesSubAt(t, c, h);
    LinkedInSubAt(t, null, c, u);
    assert Agrees(sub.right, h);
    RotLInorder(sub);
    RotLMatches(sub, h);
    RotLLinked(sub, ParentIn(t, c, null), u);
    ReplaceMatches(t, null, c, RotL(sub), h);
    ReplaceLinked(t, null, c, RotL(sub), u);
  }

  /** The heap after the writes of a right rotation at `c`, as for the left
      rotation with the sides exchanged; the rank of `c` drops by its
      pivot's rank. */
  lemma RightRotated(t: Tree, c: Node, h: map<Node, Fields>, u: map<Node, Node?>)
    requires Distinct(t) && c in NodeSet(t) && Agrees(t, h) && LinkedIn(t, null, u)
    requires SubAt(t, c).Br? && SubAt(t, c).left.Br?
    requires var pv := SubAt(t, c).left.node;
      c in h && pv in h &&
      Fields(c.value, c.rank, c.left, c.right) == h[c].(rank := h[c].rank - h[pv].rank, left := h[pv].right) &&
      Fields(pv.value, pv.rank, pv.left, pv.right) == h[pv].(right := c) &&
      c.parent == pv && pv.parent == ParentIn(t, c, null) &&
      (h[pv].right != null ==> h[pv].right.parent == c)
    requires var pv := SubAt(t, c).left.node;
      forall m :: m in NodeSet(t) && m != c && m != pv ==>
        m in h && Fields(m.value, m.rank, m.left, m.right) ==
          if m == ParentIn(t, c, null) then Redirect(h[m], c, pv) else h[m]
    requires var pv := SubAt(t, c).left.node;
      forall m :: m in NodeSet(t) && m != c && m != pv && m != h[pv].right ==>
        m in u && m.parent == u[m]
    ensures Matches(ReplaceAt(t, c, RotR(SubAt(t, c))))
    ensures ParentsLinked(ReplaceAt(t, c, RotR(SubAt(t, c))), null)
  {
    var sub := SubAt(t, c);
    SubAtShape(t, c, null);
    SubAtDistinct(t, c);
    AgreesSubAt(t, c, h);
    LinkedInSubAt(t, null, c, u);
    assert Agrees(sub.left, h);
    RotRInorder(sub);
    RotRMatches(sub, h);
    RotRLinked(sub, ParentIn(t, c, null), u);
    ReplaceMatches(t, null, c, RotR(sub), h);
    ReplaceLinked(t, null, c, RotR(sub), u);
  }

  // ---------------------------------------------------------------------
  // The heap operations.

  /** The facts about the nodes around `center` that a rotation relies on:
      `pivot` and `beta` are its child and grandchild on one side, `pa` is
      its parent, all of them are distinct nodes of `nodes`, the parent holds
      `center` in exactly one slot and the other slot holds a different key,
      and `h` and `u` are snapshots of the fields of `nodes`. */
  ghost predicate Around(center: Node, pivot: Node, beta: Node?, pa: Node?,
                         nodes: set<Node>, h: map<Node, Fields>, u: map<Node, Node?>)
    reads nodes
  {
    center in nodes && pivot in nodes && center != pivot && center.parent == pa &&
    (beta != null ==> beta in nodes && beta != center && beta != pivot) &&
    (pa != null ==>
      pa in nodes && pa != center && pa != pivot && pa != beta &&
      (pa.left == center <==> pa.right != center) && (pa.left != null ==> pa.left in nodes) &&
      (pa.left != null && pa.left != center ==> pa.left.value != center.value)) &&
    (forall m :: m in nodes ==> m in h && h[m] == Fields(m.value, m.rank, m.left, m.right)) &&
    (forall m :: m in nodes ==> m in u && u[m] == m.parent)
  }

  /** With no right child there is nothing to rotate: the tree stays as it is. */
  lemma LeftNoop(t: Tree, c: Node)
    requires Matches(t) && c in NodeSet(t) && c.right == null
    ensures ReplaceAt(t, c, RotL(SubAt(t, c))) == t
  {
    SubAtMatches(t, c);
    ReplaceSelf(t, c);
  }

  /** Before a left rotation at `center`: the nodes around it are as
      the writes expect, and the snapshots agree with the tree. */
  lemma LeftSetup(t: Tree, center: Node, h: map<Node, Fields>, u: map<Node, Node?>)
    requires Distinct(t) && Matches(t) && Ordered(t) && ParentsLinked(t, null)
    requires center in NodeSet(t) && center.right != null
    requires forall m :: m in NodeSet(t) ==> m in h && h[m] == Fields(m.value, m.rank, m.left, m.right)
    requires forall m :: m in NodeSet(t) ==> m in u && u[m] == m.parent
    ensures var pivot := center.right;
      Around(center, pivot, pivot.left, center.parent, NodeSet(t), h, u) &&
      center.parent == ParentIn(t, center, null) &&
      SubAt(t, center).Br? && SubAt(t, center).node == center &&
      SubAt(t, center).right.Br? && SubAt(t, center).right.node == pivot &&
      Agrees(t, h) && LinkedIn(t, null, u) && (center.parent == null <==> center == Root(t))
  {
    var pivot := center.right;
    var beta := pivot.left;
    SubAtShape(t, center, null);
    SubAtMatches(t, center);
    SubAtDistinct(t, center);
    ParentOfLinked(t, center, null);
    if center.parent != null {
      ParentSlot(t, center);
    }
    var sub := SubAt(t, center);
    assert Distinct(sub.right);
    assert NodeSet(sub) == NodeSet(sub.left) + {center} + (NodeSet(sub.right.left) + {pivot} + NodeSet(sub.right.right));
    assert beta != null ==> beta in NodeSet(sub.right.left);
    AgreesMatches(t, h);
    LinkedInParents(t, null, u);
  }

  /** The writes of a left rotation once the pivot (the right child of
      `center`) and its left child `beta` are known. */
  method RelinkLeft(tree: Bst, center: Node, pivot: Node, beta: Node?, ghost pa: Node?,
                    ghost nodes: set<Node>, ghost h: map<Node, Fields>, ghost u: map<Node, Node?>)
    requires Around(center, pivot, beta, pa, nodes, h, u)
    requires center.right == pivot && pivot.left == beta
    modifies tree`head, nodes
    ensures tree.head == if pa == null then pivot else old(tree.head)
    ensures Fields(center.value, center.rank, center.left, center.right) == h[center].(right := beta)
    ensures Fields(pivot.value, pivot.rank, pivot.left, pivot.right) ==
      h[pivot].(rank := h[pivot].rank + h[center].rank, left := center)
    ensures center.parent == pivot && pivot.parent == pa && (beta != null ==> beta.parent == center)
    ensures forall m :: m in nodes && m != center && m != pivot ==>
      Fields(m.value, m.rank, m.left, m.right) == if m == pa then Redirect(h[m], center, pivot) else h[m]
    ensures forall m :: m in nodes && m != center && m != pivot && m != beta ==> m.parent == u[m]
  {
    var headNode := center.parent == null;
    if headNode {
      tree.head := pivot;
    }
    pivot.parent := center.parent;
    pivot.left := center;
    center.parent := pivot;
    center.right := beta;
    if beta != null {
      beta.parent := center;
    }
    // The pivot's new left subtree is the old center with its left subtree.
    pivot.rank := pivot.rank + center.rank;
    if pivot.parent != null && pivot.parent.left != null && pivot.parent.left.value == center.value {
      pivot.parent.left := pivot;
    } else if pivot.parent != null && pivot.parent.right != null && pivot.parent.right.value == center.value {
      pivot.parent.right := pivot;
    }
  }

  /** With no left child there is nothing to rotate: the tree stays as it is. */
  lemma RightNoop(t: Tree, c: Node)
    requires Matches(t) && c in NodeSet(t) && c.left == null
    ensures ReplaceAt(t, c, RotR(SubAt(t, c))) == t
  {
    SubAtMatches(t, c);
    ReplaceSelf(t, c);
  }

  /** Before a right rotation at `center`: the nodes around it are as
      the writes expect, and the snapshots agree with the tree. */
  lemma RightSetup(t: Tree, center: Node, h: map<Node, Fields>, u: map<Node, Node?>)
    requires Distinct(t) && Matches(t) && Ordered(t) && ParentsLinked(t, null)
    requires center in NodeSet(t) && center.left != null
    requires forall m :: m in NodeSet(t) ==> m in h && h[m] == Fields(m.value, m.rank, m.left, m.right)
    requires forall m :: m in NodeSet(t) ==> m in u && u[m] == m.parent
    ensures var pivot := center.left;
      Around(center, pivot, pivot.right, center.parent, NodeSet(t), h, u) &&
      center.parent == ParentIn(t, center, null) &&
      SubAt(t, center).Br? && SubAt(t, center).node == center &&
      SubAt(t, center).left.Br? && SubAt(t, center).left.node == pivot &&
      Agrees(t, h) && LinkedIn(t, null, u) && (center.parent == null <==> center == Root(t))
  {
    var pivot := center.left;
    var beta := pivot.right;
    SubAtShape(t, center, null);
    SubAtMatches(t, center);
    SubAtDistinct(t, center);
    ParentOfLinked(t, center, null);
    if center.parent != null {
      ParentSlot(t, center);
    }
    var sub := SubAt(t, center);
    assert Distinct(sub.left);
    assert NodeSet(sub) == (NodeSet(sub.left.left) + {pivot} + NodeSet(sub.left.right)) + {center} + NodeSet(sub.right);
    assert beta != null ==> beta in NodeSet(sub.left.right);
    AgreesMatches(t, h);
    LinkedInParents(t, null, u);
  }

  /** The writes of a right rotation once the pivot (the left child of
      `center`) and its right child `beta` are known. */
  method RelinkRight(tree: Bst, center: Node, pivot: Node, beta: Node?, ghost pa: Node?,
                     ghost nodes: set<Node>, ghost h: map<Node, Fields>, ghost u: map<Node, Node?>)
    requires Around(center, pivot, beta, pa, nodes, h, u)
    requires center.left == pivot && pivot.right == beta
    modifies tree`head, nodes
    ensures tree.head == if pa == null then pivot else old(tree.head)
    ensures Fields(center.value, center.rank, center.left, center.right) ==
      h[center].(rank := h[center].rank - h[pivot].rank, left := beta)
    ensures Fields(pivot.value, pivot.rank, pivot.left, pivot.right) == h[pivot].(right := center)
    ensures center.parent == pivot && pivot.parent == pa && (beta != null ==> beta.parent == center)
    ensures forall m :: m in nodes && m != center && m != pivot ==>
      Fields(m.value, m.rank, m.left, m.right) == if m == pa then Redirect(h[m], center, pivot) else h[m]
    ensures forall m :: m in nodes && m != center && m != pivot && m != beta ==> m.parent == u[m]
  {
    var headNode := center.parent == null;
    if headNode {
      tree.head := pivot;
    }
    pivot.parent := center.parent;
    pivot.right := center;
    center.parent := pivot;
    center.left := beta;
    if beta != null {
      beta.parent := center;
    }
    // The center loses the pivot and the pivot's left subtree.
    center.rank := center.rank - pivot.rank;
    if pivot.parent != null && pivot.parent.left != null && pivot.parent.left.value == center.value {
      pivot.parent.left := pivot;
    } else if pivot.parent != null && pivot.parent.right != null && pivot.parent.right.value == center.value {
      pivot.parent.right := pivot;
    }
  }

  /** Left rotation at `center`, relinking the nodes in place.  The parent
      of `center` is read from its parent field, so the parent links must be
      in place; the parent's slot is found by comparing keys, so the keys
      must be distinct, as they are in an ordered tree.  No change when
      `center` has no right child. */
  method RotateLeft(tree: Bst, center: Node)
    requires tree.Valid() && center in tree.Repr
    requires Ordered(tree.T) && ParentsLinked(tree.T, null)
    modifies tree, tree.Repr
    ensures tree.Valid() && tree.Repr == old(tree.Repr) && ParentsLinked(tree.T, null)
    ensures tree.T == ReplaceAt(old(tree.T), center, RotL(SubAt(old(tree.T), center)))
    ensures old(center.right) != null && old(center.parent) == null ==> tree.head == old(center.right)
  {
    ghost var t := tree.T;
    if center.right == null {
      // Nothing to rotate.
      LeftNoop(t, center);
      return;
    }
    var pivot := center.right;
    var beta := pivot.left;
    ghost var pa := center.parent;
    ghost var h, u := Snap(tree.Repr), Ups(tree.Repr);
    LeftSetup(t, center, h, u);
    ghost var rotated := ReplaceAt(t, center, RotL(SubAt(t, center)));
    tree.T := rotated;
    RelinkLeft(tree, center, pivot, beta, pa, tree.Repr, h, u);
    assert Matches(rotated) && ParentsLinked(rotated, null) by {
      LeftRotated(t, center, h, u);
    }
    assert NodeSet(rotated) == NodeSet(t) && Distinct(rotated) && Size(rotated) == Size(t) &&
      Root(rotated) == tree.head by {
      RotateLeftKeeps(t, center, rotated);
      ReplaceRoot(t, center, RotL(SubAt(t, center)));
    }
  }

  /** Right rotation at `center`, as the left rotation with the sides
      exchanged.  No change when `center` has no left child. */
  method RotateRight(tree: Bst, center: Node)
    requires tree.Valid() && center in tree.Repr
    requires Ordered(tree.T) && ParentsLinked(tree.T, null)
    modifies tree, tree.Repr
    ensures tree.Valid() && tree.Repr == old(tree.Repr) && ParentsLinked(tree.T, null)
    ensures tree.T == ReplaceAt(old(tree.T), center, RotR(SubAt(old(tree.T), center)))
    ensures old(center.left) != null && old(center.parent) == null ==> tree.head == old(center.left)
  {
    ghost var t := tree.T;
    if center.left == null {
      // Nothing to rotate.
      RightNoop(t, center);
      return;
    }
    var pivot := center.left;
    var beta := pivot.right;
    ghost var pa := center.parent;
    ghost var h, u := Snap(tree.Repr), Ups(tree.Repr);
    RightSetup(t, center, h, u);
    ghost var rotated := ReplaceAt(t, center, RotR(SubAt(t, center)));
    tree.T := rotated;
    RelinkRight(tree, center, pivot, beta, pa, tree.Repr, h, u);
    assert Matches(rotated) && ParentsLinked(rotated, null) by {
      RightRotated(t, center, h, u);
    }
    assert NodeSet(rotated) == NodeSet(t) && Distinct(rotated) && Size(rotated) == Size(t) &&
      Root(rotated) == tree.head by {
      RotateRightKeeps(t, center, rotated);
      ReplaceRoot(t, center, RotR(SubAt(t, center)));
    }
  }

  /** A new, empty tree. */
  method AvlCreate() returns (tree: Bst)
    ensures fresh(tree) && tree.Valid() && tree.T == Leaf && tree.head == null && tree.length == 0
  {
    tree := new Bst();
  }

  /** Insertion without rebalancing: the search-tree insertion. */
  method AvlInsert(tree: Bst, x: int) returns (r: int, ghost added: Node)
    requires tree.Valid()
    modifies tree, tree.Repr`rank, tree.Repr`left, tree.Repr`right
    ensures tree.Valid() && fresh(added) && added.parent == null
    ensures forall m :: m in old(tree.Repr) ==> m.parent == old(m.parent)
    ensures tree.T == InsertTree(old(tree.T), x, added)
    ensures r == if Find(old(tree.T), x) != null then 0 else 1
    ensures tree.Repr == if r == 1 then old(tree.Repr) + {added} else old(tree.Repr)
  {
    r, added := tree.Insert(x);
  }

  /** The search-tree key search. */
  method AvlSearch(tree: Bst, x: int) returns (r: Node?)
    requires tree.Valid()
    ensures r == Find(tree.T, x)
    ensures r != null ==> r in tree.Repr && r.value == x
    ensures Ordered(tree.T) ==> (r != null <==> x in Keys(tree.T))
  {
    r := tree.Search(x);
  }

  /** The search-tree selection by position. */
  method AvlIndex(tree: Bst, index: int) returns (r: Node?)
    requires tree.Valid()
    ensures index <= 0 || index > tree.length ==> r == null
    ensures 0 < index <= tree.length ==> r == Select(tree.T, index)
    ensures r != null ==> r in tree.Repr
    ensures RankOk(tree.T) && 0 < index <= tree.length ==>
      r == Inorder(tree.T)[index - 1] && r.value == Keys(tree.T)[index - 1]
  {
    r := tree.Index(index);
  }
}
