/*
 * The tree node and its abstraction.
 *
 * A node of the order-statistic search tree is a heap object whose fields the
 * operations update in place.  Every tree in the model is also described by a
 * value of the datatype `Tree`, which records, for each position, the node
 * object that sits there together with the key and the rank that node holds.
 * `Matches` ties the heap to such a description; `ParentsLinked` states the
 * parent back-references separately, because insertion never sets them.
 */
module TreeNodes {

  /** A tree node: key, rank (1 + size of the left subtree), children, parent. */
  class Node {
    var value: int
    var rank: int
    var left: Node?
    var right: Node?
    var parent: Node?

    /** A detached node holding `value`, with rank 1 and no children.  The
        source leaves `parent` uninitialised; the model starts it at null. */
    constructor (value: int)
      ensures this.value == value && rank == 1
      ensures left == null && right == null && parent == null
    {
      this.value := value;
      rank := 1;
      left := null;
      right := null;
      parent := null;
    }
  }

  /** The shape of a tree, with the node object, key and rank at each position. */
  datatype Tree = Leaf | Br(left: Tree, node: Node, key: int, rank: int, right: Tree)

  /** The node at the top of `t`, or null for the empty tree. */
  function Root(t: Tree): Node?
  {
    if t.Leaf? then null else t.node
  }

  /** The node objects of `t`. */
  ghost function NodeSet(t: Tree): set<Node>
  {
    match t
    case Leaf => {}
    case Br(l, n, _, _, r) => NodeSet(l) + {n} + NodeSet(r)
  }

  /** No node object occurs twice in `t`: the shape is a tree, not a graph. */
  ghost predicate Distinct(t: Tree)
  {
    match t
    case Leaf => true
    case Br(l, n, _, _, r) =>
      n !in NodeSet(l) && n !in NodeSet(r) && NodeSet(l) !! NodeSet(r) &&
      Distinct(l) && Distinct(r)
  }

  /** The heap agrees with `t`: every node of `t` holds the key and rank that
      `t` records and points at the roots of its two subtrees. */
  ghost predicate Matches(t: Tree)
    reads NodeSet(t)`value, NodeSet(t)`rank, NodeSet(t)`left, NodeSet(t)`right
  {
    match t
    case Leaf => true
    case Br(l, n, k, rk, r) =>
      n.value == k && n.rank == rk && n.left == Root(l) && n.right == Root(r) &&
      Matches(l) && Matches(r)
  }

  /** Every node of `t` points back at its parent in `t`; the top of `t`
      points at `p`. */
  ghost predicate ParentsLinked(t: Tree, p: Node?)
    reads NodeSet(t)`parent
  {
    match t
    case Leaf => true
    case Br(l, n, _, _, r) =>
      n.parent == p && ParentsLinked(l, n) && ParentsLinked(r, n)
  }

  /** The subtree of `t` whose top is the node `c` (Leaf when `c` is absent). */
  ghost function SubAt(t: Tree, c: Node): Tree
  {
    match t
    case Leaf => Leaf
    case Br(l, n, _, _, r) =>
      if n == c then t
      else if c in NodeSet(l) then SubAt(l, c)
      else SubAt(r, c)
  }

  /** The parent of the node `c` in `t`; `p` is the parent of the top of `t`. */
  ghost function ParentIn(t: Tree, c: Node, p: Node?): Node?
  {
    match t
    case Leaf => null
    case Br(l, n, _, _, r) =>
      if n == c then p
      else if c in NodeSet(l) then ParentIn(l, c, n)
      else ParentIn(r, c, n)
  }

  /** `t` with the subtree whose top is `c` replaced by `s`. */
  ghost function ReplaceAt(t: Tree, c: Node, s: Tree): Tree
  {
    match t
    case Leaf => Leaf
    case Br(l, n, k, rk, r) =>
      if n == c then s
      else if c in NodeSet(l) then Br(ReplaceAt(l, c, s), n, k, rk, r)
      else Br(l, n, k, rk, ReplaceAt(r, c, s))
  }

  /** Every node of `t` is allocated, so a call that allocates leaves the
      fields of these nodes alone. */
  lemma {:induction false} NodesAllocated(t: Tree)
    ensures forall n :: n in NodeSet(t) ==> allocated(n)
  {
    match t
    case Leaf =>
    case Br(l, _, _, _, r) => NodesAllocated(l); NodesAllocated(r);
  }

  /** The node `c` of a tree that the heap matches sits at the top of its
      subtree, which the heap matches too. */
  lemma {:induction false} SubAtMatches(t: Tree, c: Node)
    requires Matches(t) && c in NodeSet(t)
    ensures SubAt(t, c).Br? && SubAt(t, c).node == c
    ensures NodeSet(SubAt(t, c)) <= NodeSet(t)
    ensures Matches(SubAt(t, c))
  {
    match t
    case Br(l, n, _, _, r) =>
      if n != c {
        if c in NodeSet(l) { SubAtMatches(l, c); } else { SubAtMatches(r, c); }
      }
  }

  /** In a tree without shared nodes, the subtree at `c` has no shared nodes. */
  lemma {:induction false} SubAtDistinct(t: Tree, c: Node)
    requires Distinct(t) && c in NodeSet(t)
    ensures Distinct(SubAt(t, c))
  {
    match t
    case Br(l, n, _, _, r) =>
      if n != c {
        if c in NodeSet(l) { SubAtDistinct(l, c); } else { SubAtDistinct(r, c); }
      }
  }

  /** When the back-references are in place, the parent field of `c` names
      its parent in the tree. */
  lemma {:induction false} ParentOfLinked(t: Tree, c: Node, p: Node?)
    requires ParentsLinked(t, p) && c in NodeSet(t)
    ensures c.parent == ParentIn(t, c, p)
  {
    match t
    case Br(l, n, _, _, r) =>
      if n != c {
        if c in NodeSet(l) { ParentOfLinked(l, c, n); } else { ParentOfLinked(r, c, n); }
      }
  }

  /** A node below the top has its parent inside the tree, and that parent
      holds it in its left or its right child slot. */
  lemma {:induction false} ParentInTree(t: Tree, c: Node, p: Node?)
    requires Distinct(t) && c in NodeSet(t) && c != Root(t)
    ensures ParentIn(t, c, p) in NodeSet(t)
    ensures var s := SubAt(t, ParentIn(t, c, p));
      s.Br? && (Root(s.left) == c || Root(s.right) == c)
  {
    match t
    case Br(l, n, _, _, r) =>
      if c in NodeSet(l) {
        if c != Root(l) { ParentInTree(l, c, n); }
      } else {
        if c != Root(r) { ParentInTree(r, c, n); }
      }
  }

  // ---------------------------------------------------------------------
  // Snapshots of the heap, for reasoning across several writes.

  /** The fields of one node, as a snapshot of the heap records them. */
  datatype Fields = Fields(value: int, rank: int, left: Node?, right: Node?)

  /** A snapshot of the fields of the nodes in `s`. */
  ghost function Snap(s: set<Node>): (h: map<Node, Fields>)
    reads s
    ensures forall m :: m in s ==> m in h && h[m] == Fields(m.value, m.rank, m.left, m.right)
  {
    map m | m in s :: Fields(m.value, m.rank, m.left, m.right)
  }

  /** `Matches` against a snapshot `h` rather than against the heap. */
  ghost predicate Agrees(t: Tree, h: map<Node, Fields>)
  {
    match t
    case Leaf => true
    case Br(l, n, k, rk, r) =>
      n in h && h[n] == Fields(k, rk, Root(l), Root(r)) && Agrees(l, h) && Agrees(r, h)
  }

  /** Against a snapshot of its own nodes, the heap matches `t` exactly when
      the snapshot agrees with `t`. */
  lemma {:induction false} AgreesMatches(t: Tree, h: map<Node, Fields>)
    requires forall m :: m in NodeSet(t) ==> m in h && h[m] == Fields(m.value, m.rank, m.left, m.right)
    ensures Agrees(t, h) <==> Matches(t)
  {
    match t
    case Leaf =>
    case Br(l, n, _, _, r) =>
      assert NodeSet(t) == NodeSet(l) + {n} + NodeSet(r);
      AgreesMatches(l, h);
      AgreesMatches(r, h);
  }

  /** A snapshot of the parent fields of the nodes in `s`. */
  ghost function Ups(s: set<Node>): (u: map<Node, Node?>)
    reads s
    ensures forall m :: m in s ==> m in u && u[m] == m.parent
  {
    map m | m in s :: m.parent
  }

  /** `ParentsLinked` against a snapshot `u` of the parent fields. */
  ghost predicate LinkedIn(t: Tree, p: Node?, u: map<Node, Node?>)
  {
    match t
    case Leaf => true
    case Br(l, n, _, _, r) => n in u && u[n] == p && LinkedIn(l, n, u) && LinkedIn(r, n, u)
  }

  /** Against a snapshot of their own parent fields, the nodes of `t` are
      linked exactly when the snapshot says so. */
  lemma {:induction false} LinkedInParents(t: Tree, p: Node?, u: map<Node, Node?>)
    requires forall m :: m in NodeSet(t) ==> m in u && u[m] == m.parent
    ensures LinkedIn(t, p, u) <==> ParentsLinked(t, p)
  {
    match t
    case Leaf =>
    case Br(l, n, _, _, r) =>
      assert NodeSet(t) == NodeSet(l) + {n} + NodeSet(r);
      LinkedInParents(l, n, u);
      LinkedInParents(r, n, u);
  }

  // ---------------------------------------------------------------------
  // Subtrees and their parents.

  /** The subtree at a node of `t` is made of nodes of `t`, its parent lies
      outside it, and the parent is `p` exactly when the node is the top. */
  lemma {:induction false} SubAtShape(t: Tree, c: Node, p: Node?)
    requires Distinct(t) && c in NodeSet(t) && p !in NodeSet(t)
    ensures SubAt(t, c).Br? && SubAt(t, c).node == c
    ensures NodeSet(SubAt(t, c)) <= NodeSet(t)
    ensures ParentIn(t, c, p) !in NodeSet(SubAt(t, c))
    ensures ParentIn(t, c, p) == p <==> c == Root(t)
    ensures ParentIn(t, c, p) != p ==> ParentIn(t, c, p) in NodeSet(t)
  {
    match t
    case Br(l, n, _, _, r) =>
      if n != c {
        if c in NodeSet(l) { SubAtShape(l, c, n); } else { SubAtShape(r, c, n); }
      }
  }

  /** A snapshot that agrees with `t` agrees with each of its subtrees. */
  lemma {:induction false} AgreesSubAt(t: Tree, c: Node, h: map<Node, Fields>)
    requires Agrees(t, h)
    ensures Agrees(SubAt(t, c), h)
  {
    match t
    case Leaf =>
    case Br(l, n, _, _, r) =>
      if n != c {
        if c in NodeSet(l) { AgreesSubAt(l, c, h); } else { AgreesSubAt(r, c, h); }
      }
  }

  /** The parent links of `t` link each subtree to its parent. */
  lemma {:induction false} LinkedInSubAt(t: Tree, p: Node?, c: Node, u: map<Node, Node?>)
    requires LinkedIn(t, p, u) && c in NodeSet(t)
    ensures LinkedIn(SubAt(t, c), ParentIn(t, c, p), u)
  {
    match t
    case Br(l, n, _, _, r) =>
      if n != c {
        if c in NodeSet(l) { LinkedInSubAt(l, n, c, u); } else { LinkedInSubAt(r, n, c, u); }
      }
  }
}
