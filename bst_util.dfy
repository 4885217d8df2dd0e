/*
 * The tree checkers used by the test programs, and the invariants they spell
 * out.  Each checker walks the nodes on the heap; each is specified by a
 * function over the abstract tree (`Size`, `Height`, `Keys`, `RankOk`,
 * `Balanced`, `SizeBalanced`), and the lemmas below relate those functions.
 * The source checkers abort through `assert`; here they return whether the
 * check passed, and printing is left out.
 */
module BstUtil {
  import opened TreeNodes

  /** Number of nodes of `t`. */
  function Size(t: Tree): nat
  {
    match t
    case Leaf => 0
    case Br(l, _, _, _, r) => Size(l) + 1 + Size(r)
  }

  /** Number of nodes on the longest downward path of `t`; 0 when empty. */
  function Height(t: Tree): nat
  {
    match t
    case Leaf => 0
    case Br(l, _, _, _, r) => 1 + Max(Height(l), Height(r))
  }

  function Max(a: int, b: int): int
  {
    if a < b then b else a
  }

  /** The keys of `t` in in-order: left subtree, node, right subtree. */
  function Keys(t: Tree): (ks: seq<int>)
    ensures |ks| == Size(t)
  {
    match t
    case Leaf => []
    case Br(l, _, k, _, r) => Keys(l) + [k] + Keys(r)
  }

  /** The node objects of `t` in in-order. */
  function Inorder(t: Tree): (ns: seq<Node>)
    ensures |ns| == Size(t)
  {
    match t
    case Leaf => []
    case Br(l, n, _, _, r) => Inorder(l) + [n] + Inorder(r)
  }

  predicate Increasing(s: seq<int>)
  {
    forall i, j :: 0 <= i < j < |s| ==> s[i] < s[j]
  }

  /** Search-tree order: the in-order key sequence is strictly increasing. */
  predicate Ordered(t: Tree)
  {
    Increasing(Keys(t))
  }

  /** Every node's rank is one more than the size of its left subtree. */
  predicate RankOk(t: Tree)
  {
    match t
    case Leaf => true
    case Br(l, _, _, rk, r) => rk == Size(l) + 1 && RankOk(l) && RankOk(r)
  }

  /** Every node's rank is non-zero (what the rank checker tests as written). */
  predicate RanksNonZero(t: Tree)
  {
    match t
    case Leaf => true
    case Br(l, _, _, rk, r) => rk != 0 && RanksNonZero(l) && RanksNonZero(r)
  }

  /** Height balance: at every node the subtree heights differ by at most one. */
  predicate Balanced(t: Tree)
  {
    match t
    case Leaf => true
    case Br(l, _, _, _, r) =>
      -1 <= Height(l) - Height(r) <= 1 && Balanced(l) && Balanced(r)
  }

  /** Size balance: at every node the subtree sizes differ by at most one. */
  predicate SizeBalanced(t: Tree)
  {
    match t
    case Leaf => true
    case Br(l, _, _, _, r) =>
      -1 <= Size(l) - Size(r) <= 1 && SizeBalanced(l) && SizeBalanced(r)
  }

  // ---------------------------------------------------------------------
  // The checkers, walking the heap.

  /** Adds the number of nodes below `head` to `counter`. */
  method SubtreeTraverse(ghost t: Tree, head: Node?, counter: int) returns (counter': int)
    requires head == Root(t) && Matches(t)
    ensures counter' == counter + Size(t)
    decreases t
  {
    counter' := counter;
    if head == null { return; }
    NodesAllocated(t.left);
    NodesAllocated(t.right);
    assert Matches(t.left) && Matches(t.right);
    counter' := SubtreeTraverse(t.left, head.left, counter');
    counter' := counter' + 1;
    counter' := SubtreeTraverse(t.right, head.right, counter');
  }

  /** The keys the in-order walk visits, in the order it visits them. */
  method InorderTraverse(ghost t: Tree, head: Node?) returns (visited: seq<int>)
    requires head == Root(t) && Matches(t)
    ensures visited == Keys(t)
    decreases t
  {
    if head == null { return []; }
    NodesAllocated(t.left);
    NodesAllocated(t.right);
    assert Matches(t.left) && Matches(t.right);
    var before := InorderTraverse(t.left, head.left);
    var after := InorderTraverse(t.right, head.right);
    visited := before + [head.value] + after;
  }

  /** The height of the tree below `head`. */
  method CalculateTreeHeight(ghost t: Tree, head: Node?) returns (h: int)
    requires head == Root(t) && Matches(t)
    ensures h == Height(t)
    decreases t
  {
    if head == null { return 0; }
    NodesAllocated(t.left);
    NodesAllocated(t.right);
    assert Matches(t.left) && Matches(t.right);
    var left := CalculateTreeHeight(t.left, head.left);
    var right := CalculateTreeHeight(t.right, head.right);
    h := 1 + Max(left, right);
  }

  /** Whether every node below `head` passes the height-balance test. */
  method CheckStrictBalance(ghost t: Tree, head: Node?) returns (ok: bool)
    requires head == Root(t) && Matches(t)
    ensures ok <==> Balanced(t)
    decreases t
  {
    if head == null { return true; }
    NodesAllocated(t.left);
    NodesAllocated(t.right);
    assert Matches(t.left) && Matches(t.right);
    var okLeft := CheckStrictBalance(t.left, head.left);
    var leftHeight := CalculateTreeHeight(t.left, head.left);
    var rightHeight := CalculateTreeHeight(t.right, head.right);
    var here := -1 <= leftHeight - rightHeight <= 1;
    var okRight := CheckStrictBalance(t.right, head.right);
    ok := okLeft && here && okRight;
  }

  /** Whether every node below `head` passes the size-balance test. */
  method SubtreeNodeCounts(ghost t: Tree, head: Node?) returns (ok: bool)
    requires head == Root(t) && Matches(t)
    ensures ok <==> SizeBalanced(t)
    decreases t
  {
    if head == null { return true; }
    NodesAllocated(t.left);
    NodesAllocated(t.right);
    assert Matches(t.left) && Matches(t.right);
    var okLeft := SubtreeNodeCounts(t.left, head.left);
    var leftNodes := SubtreeTraverse(t.left, head.left, 0);
    var rightNodes := SubtreeTraverse(t.right, head.right, 0);
    var here := -1 <= leftNodes - rightNodes <= 1;
    var okRight := SubtreeNodeCounts(t.right, head.right);
    ok := okLeft && here && okRight;
  }

  /** The rank checker as intended: every stored rank equals one plus the
      counted size of the left subtree. */
  method CheckRank(ghost t: Tree, head: Node?) returns (ok: bool)
    requires head == Root(t) && Matches(t)
    ensures ok <==> RankOk(t)
    decreases t
  {
    if head == null { return true; }
    NodesAllocated(t.left);
    NodesAllocated(t.right);
    assert Matches(t.left) && Matches(t.right);
    var okLeft := CheckRank(t.left, head.left);
    var calculatedRank := 1;
    calculatedRank := SubtreeTraverse(t.left, head.left, calculatedRank);
    var here := calculatedRank == head.rank;
    var okRight := CheckRank(t.right, head.right);
    ok := okLeft && here && okRight;
  }

  /** The rank checker as written: its test assigns the stored rank to the
      counted one and so only fails when a stored rank is zero. */
  method CheckRankAsWritten(ghost t: Tree, head: Node?) returns (ok: bool)
    requires head == Root(t) && Matches(t)
    ensures ok <==> RanksNonZero(t)
    decreases t
  {
    if head == null { return true; }
    NodesAllocated(t.left);
    NodesAllocated(t.right);
    assert Matches(t.left) && Matches(t.right);
    var okLeft := CheckRankAsWritten(t.left, head.left);
    var calculatedRank := 1;
    calculatedRank := SubtreeTraverse(t.left, head.left, calculatedRank);
    calculatedRank := head.rank;
    var here := calculatedRank != 0;
    var okRight := CheckRankAsWritten(t.right, head.right);
    ok := okLeft && here && okRight;
  }

  // ---------------------------------------------------------------------
  // Properties of the invariants.

  /** The as-written rank check passes a one-node tree whose rank is wrong. */
  lemma CheckRankAsWrittenMissesWrongRank(n: Node)
    ensures var t := Br(Leaf, n, 5, 7, Leaf);
      RanksNonZero(t) && !RankOk(t)
  {
  }

  /** A correct rank is never zero, so the intended check implies the written one. */
  lemma {:induction false} RankOkRanksNonZero(t: Tree)
    requires RankOk(t)
    ensures RanksNonZero(t)
  {
    match t
    case Leaf =>
    case Br(l, _, _, _, r) => RankOkRanksNonZero(l); RankOkRanksNonZero(r);
  }

  /** The heap walk and the abstract tree agree node by node: the i-th node
      in in-order holds the i-th key. */
  lemma {:induction false} InorderKeys(t: Tree)
    requires Matches(t)
    ensures forall i :: 0 <= i < Size(t) ==> Inorder(t)[i].value == Keys(t)[i]
  {
    match t
    case Leaf =>
    case Br(l, n, k, _, r) =>
      InorderKeys(l);
      InorderKeys(r);
      forall i | 0 <= i < Size(t) ensures Inorder(t)[i].value == Keys(t)[i] {
        if i < Size(l) {
          assert Inorder(t)[i] == Inorder(l)[i] && Keys(t)[i] == Keys(l)[i];
        } else if i > Size(l) {
          assert Inorder(t)[i] == Inorder(r)[i - Size(l) - 1];
          assert Keys(t)[i] == Keys(r)[i - Size(l) - 1];
        }
      }
  }

  /** The in-order nodes are exactly the nodes of the tree. */
  lemma {:induction false} InorderNodes(t: Tree)
    ensures forall i :: 0 <= i < Size(t) ==> Inorder(t)[i] in NodeSet(t)
  {
    match t
    case Leaf =>
    case Br(l, n, k, _, r) =>
      InorderNodes(l);
      InorderNodes(r);
      forall i | 0 <= i < Size(t) ensures Inorder(t)[i] in NodeSet(t) {
        if i < Size(l) {
          assert Inorder(t)[i] == Inorder(l)[i];
        } else if i > Size(l) {
          assert Inorder(t)[i] == Inorder(r)[i - Size(l) - 1];
        }
      }
  }

  /** Search-tree order, stated node by node: a tree is ordered exactly when
      both subtrees are, every key on the left is smaller than the node's key,
      and every key on the right is larger. */
  lemma OrderedBr(t: Tree)
    requires t.Br?
    ensures Ordered(t) <==>
      Ordered(t.left) && Ordered(t.right) &&
      (forall y :: y in Keys(t.left) ==> y < t.key) &&
      (forall y :: y in Keys(t.right) ==> t.key < y)
  {
    assert Keys(t) == Keys(t.left) + [t.key] + Keys(t.right);
    if Ordered(t) {
      OrderedSplit(Keys(t.left), t.key, Keys(t.right));
    } else if Ordered(t.left) && Ordered(t.right) &&
      (forall y :: y in Keys(t.left) ==> y < t.key) &&
      (forall y :: y in Keys(t.right) ==> t.key < y) {
      OrderedJoin(Keys(t.left), t.key, Keys(t.right));
    }
  }

  lemma OrderedSplit(kl: seq<int>, k: int, kr: seq<int>)
    requires Increasing(kl + [k] + kr)
    ensures Increasing(kl) && Increasing(kr)
    ensures forall y :: y in kl ==> y < k
    ensures forall y :: y in kr ==> k < y
  {
    var s := kl + [k] + kr;
    assert forall i :: 0 <= i < |kl| ==> s[i] == kl[i];
    assert forall i :: 0 <= i < |kr| ==> s[|kl| + 1 + i] == kr[i];
    assert s[|kl|] == k;
  }

  lemma OrderedJoin(kl: seq<int>, k: int, kr: seq<int>)
    requires Increasing(kl) && Increasing(kr)
    requires forall y :: y in kl ==> y < k
    requires forall y :: y in kr ==> k < y
    ensures Increasing(kl + [k] + kr)
  {
    var s := kl + [k] + kr;
    forall i, j | 0 <= i < j < |s| ensures s[i] < s[j] {
      if j < |kl| {
        assert s[i] == kl[i] && s[j] == kl[j];
      } else if j == |kl| {
        assert s[i] == kl[i] && kl[i] in kl;
      } else if i < |kl| {
        assert s[i] == kl[i] && kl[i] in kl;
        assert s[j] == kr[j - |kl| - 1] && kr[j - |kl| - 1] in kr;
      } else if i == |kl| {
        assert s[j] == kr[j - |kl| - 1] && kr[j - |kl| - 1] in kr;
      } else {
        assert s[i] == kr[i - |kl| - 1] && s[j] == kr[j - |kl| - 1];
      }
    }
  }

  function Pow2(n: nat): nat
  {
    if n == 0 then 1 else 2 * Pow2(n - 1)
  }

  /** A tree of height h has at least h and fewer than 2^h nodes. */
  lemma {:induction false} SizeHeightBounds(t: Tree)
    ensures Height(t) <= Size(t) < Pow2(Height(t))
  {
    match t
    case Leaf =>
    case Br(l, _, _, _, r) =>
      SizeHeightBounds(l);
      SizeHeightBounds(r);
      Pow2Monotone(Height(l), Height(t) - 1);
      Pow2Monotone(Height(r), Height(t) - 1);
  }

  lemma {:induction false} Pow2Monotone(a: nat, b: nat)
    requires a <= b
    ensures Pow2(a) <= Pow2(b)
  {
    if a < b { Pow2Monotone(a, b - 1); }
  }

  /** Number of binary digits of `n`; 0 for 0. */
  function BitLength(n: nat): nat
  {
    if n == 0 then 0 else 1 + BitLength(n / 2)
  }

  lemma {:induction false} BitLengthMonotone(a: nat, b: nat)
    requires a <= b
    ensures BitLength(a) <= BitLength(b)
    decreases b
  {
    if a > 0 { BitLengthMonotone(a / 2, b / 2); }
  }

  lemma {:induction false} BitLengthStep(a: nat)
    ensures BitLength(a + 1) <= BitLength(a) + 1
    decreases a
  {
    if a > 0 { BitLengthStep(a / 2); BitLengthMonotone((a + 1) / 2, a / 2 + 1); }
  }

  /** In a size-balanced tree the height is the bit length of the size. */
  lemma {:induction false} SizeBalancedHeight(t: Tree)
    requires SizeBalanced(t)
    ensures Height(t) == BitLength(Size(t))
  {
    match t
    case Leaf =>
    case Br(l, _, _, _, r) =>
      SizeBalancedHeight(l);
      SizeBalancedHeight(r);
      var a, b, n := Size(l), Size(r), Size(t);
      assert n / 2 == Max(a, b);
      BitLengthMonotone(a, Max(a, b));
      BitLengthMonotone(b, Max(a, b));
  }

  /** Size balance at every node is stronger than height balance. */
  lemma {:induction false} SizeBalancedIsBalanced(t: Tree)
    requires SizeBalanced(t)
    ensures Balanced(t)
  {
    match t
    case Leaf =>
    case Br(l, _, _, _, r) =>
      SizeBalancedIsBalanced(l);
      SizeBalancedIsBalanced(r);
      SizeBalancedHeight(l);
      SizeBalancedHeight(r);
      var a, b := Size(l), Size(r);
      if a <= b {
        BitLengthMonotone(a, b);
        if a < b { BitLengthStep(a); }
      } else {
        BitLengthMonotone(b, a);
        BitLengthStep(b);
      }
  }
}
