/*
 * The unbalanced order-statistic search tree: creation, search, selection by
 * rank and insertion with rank maintenance and duplicate rollback.
 *
 * Each heap operation is specified by a function on the abstract tree `T`:
 * `Find` is the key descent, `Select` the descent by rank, and `Attach` the
 * insertion of a new leaf that also adds one to the rank of every node where
 * the descent turns left.  The lemmas below say what those functions mean.
 */
module SearchTree {
  import opened TreeNodes
  import opened BstUtil
  import opened Tracker

  // ---------------------------------------------------------------------
  // The descents, as functions on the abstract tree.

  /** The node the key descent for `x` stops at, or null when it falls off. */
  function Find(t: Tree, x: int): Node?
  {
    match t
    case Leaf => null
    case Br(l, n, k, _, r) =>
      if x == k then n else if x < k then Find(l, x) else Find(r, x)
  }

  /** The node the rank descent for `k` stops at: equal to the rank, stop;
      smaller, go left; larger, subtract the rank and go right. */
  function Select(t: Tree, k: int): Node?
  {
    match t
    case Leaf => null
    case Br(l, n, _, rk, r) =>
      if k == rk then n else if k < rk then Select(l, k) else Select(r, k - rk)
  }

  /** The nodes where the key descent for `x` turns left, deepest first:
      the order in which insertion logs them, most recent first. */
  function LeftTurns(t: Tree, x: int): seq<Node>
  {
    match t
    case Leaf => []
    case Br(l, n, k, _, r) =>
      if x == k then [] else if x < k then LeftTurns(l, x) + [n] else LeftTurns(r, x)
  }

  /** The last node of the key descent for `x` (null for the empty tree). */
  function AttachPoint(t: Tree, x: int): Node?
  {
    match t
    case Leaf => null
    case Br(l, n, k, _, r) =>
      if x == k then n
      else if x < k then (if l.Leaf? then n else AttachPoint(l, x))
      else (if r.Leaf? then n else AttachPoint(r, x))
  }

  /** `t` with `n` attached as a new leaf holding `x` where the key descent
      falls off, and the rank of every node where it turns left raised by one. */
  function Attach(t: Tree, x: int, n: Node): Tree
  {
    match t
    case Leaf => Br(Leaf, n, x, 1, Leaf)
    case Br(l, m, k, rk, r) =>
      if x == k then t
      else if x < k then Br(Attach(l, x, n), m, k, rk + 1, r)
      else Br(l, m, k, rk, Attach(r, x, n))
  }

  /** The tree after inserting `x` with the new node `n`: unchanged when the
      key is already present, otherwise `n` is attached. */
  function InsertTree(t: Tree, x: int, n: Node): Tree
  {
    if Find(t, x) != null then t else Attach(t, x, n)
  }

  // ---------------------------------------------------------------------
  // The tree object.

  /** A search tree: the root node and the number of nodes. */
  class Bst {
    var head: Node?
    var length: int

    /** The shape, keys and ranks of the nodes reachable from `head`. */
    ghost var T: Tree
    ghost var Repr: set<Node>

    ghost predicate Valid()
      reads this, Repr
    {
      Repr == NodeSet(T) && Distinct(T) && Matches(T) &&
      head == Root(T) && length == Size(T)
    }

    /** An empty tree: no head, length 0. */
    constructor ()
      ensures Valid() && T == Leaf && head == null && length == 0
    {
      head := null;
      length := 0;
      T := Leaf;
      Repr := {};
    }

    /** The node holding `x` that the key descent finds, or null.  Changes
        nothing. */
    method Search(x: int) returns (r: Node?)
      requires Valid()
      ensures r == Find(T, x)
      ensures r != null ==> r in Repr && r.value == x
      ensures Ordered(T) ==> (r != null <==> x in Keys(T))
    {
      FindCorrect(T, x);
      var current := head;
      ghost var sub := T;
      while current != null
        invariant current == Root(sub) && Matches(sub)
        invariant Find(sub, x) == Find(T, x)
        decreases sub
      {
        if current.value == x {
          return current;
        }
        if current.value > x {
          current, sub := current.left, sub.left;
        } else {
          current, sub := current.right, sub.right;
        }
      }
      return null;
    }

    /** The node at position `index` (counting from 1) in key order, found by
        the rank descent; null when `index` is out of range. */
    method Index(index: int) returns (r: Node?)
      requires Valid()
      ensures index <= 0 || index > length ==> r == null
      ensures 0 < index <= length ==> r == Select(T, index)
      ensures r != null ==> r in Repr
      ensures RankOk(T) && 0 < index <= length ==>
        r == Inorder(T)[index - 1] && r.value == Keys(T)[index - 1]
    {
      if index > length || index <= 0 {
        return null;
      }
      SelectInTree(T, index);
      if RankOk(T) {
        SelectInorder(T, index);
      }
      var k := index;
      var current := head;
      ghost var sub := T;
      while current != null
        invariant current == Root(sub) && Matches(sub)
        invariant Select(sub, k) == Select(T, index)
        decreases sub
      {
        if k == current.rank {
          return current;
        }
        if k < current.rank {
          current, sub := current.left, sub.left;
        } else {
          k := k - current.rank;
          current, sub := current.right, sub.right;
        }
      }
      return null;
    }

    /** Inserts `x` in a new node `added`.  Returns 1 when `x` was absent and
        `added` now hangs where the descent fell off, with one more in the rank
        of every node where the descent turned left; returns 0 and leaves the
        tree as it was when `x` was already present.  Only ranks and child
        links are written: no parent link changes. */
    method Insert(x: int) returns (r: int, ghost added: Node)
      requires Valid()
      modifies this, Repr`rank, Repr`left, Repr`right
      ensures Valid() && fresh(added) && added.parent == null
      ensures forall m :: m in old(Repr) ==> m.parent == old(m.parent)
      ensures T == InsertTree(old(T), x, added)
      ensures r == if Find(old(T), x) != null then 0 else 1
      ensures Repr == if r == 1 then old(Repr) + {added} else old(Repr)
    {
      var newnode := new Node(x);
      added := newnode;
      if length == 0 {
        head := newnode;
        length := length + 1;
        T := Br(Leaf, newnode, x, 1, Leaf);
        Repr := {newnode};
        return 1, added;
      }
      r := Descend(x, newnode);
    }

    /** The descent of a non-empty tree, with `newnode` as the node to hang. */
    method Descend(x: int, newnode: Node) returns (r: int)
      requires Valid() && T.Br?
      requires newnode !in Repr && NewLeaf(newnode, x)
      modifies this, Repr`rank, Repr`left, Repr`right
      ensures Valid()
      ensures T == InsertTree(old(T), x, newnode)
      ensures r == if Find(old(T), x) != null then 0 else 1
      ensures Repr == if r == 1 then old(Repr) + {newnode} else old(Repr)
    {
      OnTheWayStart(T, x);
      BumpNone(T);
      var rankUpdated := InitUpdateTracker();
      var current := head;
      ghost var sub := T;
      while current != null
        invariant T == old(T) && Repr == old(Repr)
        invariant Raised(rankUpdated.Log)
        invariant OnTheWay(T, sub, x, rankUpdated.Log) && current == sub.node
        invariant Matches(Bump(sub, rankUpdated.Log))
        invariant rankUpdated.Valid() && fresh(rankUpdated)
        invariant newnode !in Repr && NewLeaf(newnode, x)
        decreases sub
      {
        var next, done;
        next, rankUpdated, sub, done, r := Step(x, newnode, current, rankUpdated, sub);
        if done {
          return;
        }
        current := next;
      }
      assert false;
    }

    /** One round of the descent at `current`, the top of `sub`: rolls back
        and returns 0 when `current` holds `x`; otherwise turns left (raising
        and logging `current`) or right, and either moves to the child or
        hangs `newnode` there and returns 1. */
    method Step(x: int, newnode: Node, current: Node, rankUpdated: Link, ghost sub: Tree)
      returns (next: Node?, tracker: Link, ghost sub': Tree, done: bool, r: int)
      requires Raised(rankUpdated.Log) && rankUpdated.Valid()
      requires OnTheWay(T, sub, x, rankUpdated.Log) && current == sub.node
      requires Matches(Bump(sub, rankUpdated.Log))
      requires newnode !in Repr && NewLeaf(newnode, x)
      modifies this, Repr`rank, Repr`left, Repr`right, rankUpdated
      ensures done ==> Valid() && T == InsertTree(old(T), x, newnode)
      ensures done ==> r == (if Find(old(T), x) != null then 0 else 1)
      ensures done ==> Repr == if r == 1 then old(Repr) + {newnode} else old(Repr)
      ensures !done ==> T == old(T) && Repr == old(Repr) && (sub' == sub.left || sub' == sub.right)
      ensures !done ==> Raised(tracker.Log) && Matches(Bump(sub', tracker.Log))
      ensures !done ==> OnTheWay(T, sub', x, tracker.Log) && next == sub'.node
      ensures !done ==> tracker.Valid() && (tracker == rankUpdated || fresh(tracker))
    {
      ghost var log: seq<Node> := rankUpdated.Log;
      tracker, sub' := rankUpdated, sub;
      if x == current.value {
        // The key is present: undo the rank updates made on the way down.
        RollBack(rankUpdated);
        return null, tracker, sub', true, 0;
      }
      if x < current.value {
        StepLeft(T, sub, x, log);
        tracker := RaiseRank(current, rankUpdated, sub);
        if current.left != null {
          return current.left, tracker, sub.left, false, 0;
        }
        HangNew(current, newnode, x, true, tracker.Log);
        return null, tracker, sub', true, 1;
      }
      // Here x > current.value.
      StepRight(T, sub, x, log);
      if current.right != null {
        return current.right, tracker, sub.right, false, 0;
      }
      HangNew(current, newnode, x, false, log);
      return null, tracker, sub', true, 1;
    }

    /** Part way down an insertion: the heap holds `T` with the rank of
        every node raised by the number of times `log` records it. */
    ghost predicate Raised(log: seq<Node>)
      reads this, Repr
    {
      Repr == NodeSet(T) && Distinct(T) && Matches(Bump(T, log)) &&
      head == Root(T) && length == Size(T)
    }

    /** The duplicate case: lowers the rank of every logged node again. */
    method RollBack(rankUpdated: Link)
      requires Raised(rankUpdated.Log) && rankUpdated.Valid()
      requires forall m :: m in rankUpdated.Log ==> m in Repr
      modifies Repr`rank
      ensures Valid() && T == old(T) && Repr == old(Repr)
      ensures forall m :: m in Repr ==> m.parent == old(m.parent)
    {
      ghost var log: seq<Node> := rankUpdated.Log;
      ghost var before := Snap(Repr);
      AgreesMatches(Bump(T, log), before);
      RevertRankUpdates(rankUpdated, -1);
      Unbump(T, log, before);
    }

    /** A left turn at `current`: one more in its rank, and logged. */
    method RaiseRank(current: Node, rankUpdated: Link, ghost sub: Tree) returns (tracker: Link)
      requires Raised(rankUpdated.Log) && rankUpdated.Valid()
      requires current in Repr && NodeSet(sub) <= Repr
      requires Matches(Bump(sub, rankUpdated.Log))
      modifies current`rank, rankUpdated
      ensures tracker.Valid() && tracker.Log == [current] + old(rankUpdated.Log)
      ensures tracker == rankUpdated || fresh(tracker)
      ensures Raised(tracker.Log) && Matches(Bump(sub, tracker.Log))
    {
      Lift(current, rankUpdated.Log, sub);
      tracker := TrackUpdate(rankUpdated, current);
    }

    /** One more in the rank of `current` counts it once more in the log. */
    method Lift(current: Node, ghost log: seq<Node>, ghost sub: Tree)
      requires Raised(log) && current in Repr && NodeSet(sub) <= Repr
      requires Matches(Bump(sub, log))
      modifies current`rank
      ensures current.rank == old(current.rank) + 1
      ensures Raised([current] + log) && Matches(Bump(sub, [current] + log))
    {
      ghost var before := Snap(Repr);
      assert Agrees(Bump(T, log), before) && Agrees(Bump(sub, log), before) by {
        AgreesMatches(Bump(T, log), before);
        AgreesMatches(Bump(sub, log), before);
      }
      current.rank := current.rank + 1;
      LiftMatches(T, log, current, before);
      LiftMatches(sub, log, current, before);
    }

    /** The descent fell off at `current`: hangs `newnode` on its left
        (`onLeft`) or right and counts it. */
    method HangNew(current: Node, newnode: Node, ghost x: int, onLeft: bool, ghost log: seq<Node>)
      requires Raised(log) && log == LeftTurns(T, x) && EndsAt(T, x, current)
      requires newnode !in Repr && NewLeaf(newnode, x)
      requires onLeft <==> x < current.value
      modifies this, current`left, current`right
      ensures Valid() && T == Attach(old(T), x, newnode) && Repr == old(Repr) + {newnode}
    {
      ghost var t0, r0 := T, Repr;
      ghost var before := Snap(r0);
      assert Agrees(Bump(t0, log), before) by { AgreesMatches(Bump(t0, log), before); }
      if onLeft {
        current.left := newnode;
      } else {
        current.right := newnode;
      }
      length := length + 1;
      T, Repr := Attach(t0, x, newnode), r0 + {newnode};
      assert Matches(T) && NodeSet(T) == Repr && Distinct(T) &&
             Size(T) == Size(t0) + 1 && Root(T) == head by {
        LeftTurnsInTree(t0, x);
        LeftTurnsOnce(t0, x);
        HangMatches(t0, log, x, newnode, current, before);
        HangBump(t0, x, newnode, log);
        AttachNodes(t0, x, newnode);
      }
    }
  }

  // ---------------------------------------------------------------------
  // What the descents mean.

  /** The key descent finds a node of the tree holding `x`; in an ordered tree
      it finds one exactly when `x` is a key. */
  lemma {:induction false} FindCorrect(t: Tree, x: int)
    ensures Find(t, x) != null ==> Find(t, x) in NodeSet(t)
    ensures Matches(t) && Find(t, x) != null ==> Find(t, x).value == x
    ensures Ordered(t) ==> (Find(t, x) != null <==> x in Keys(t))
  {
    match t
    case Leaf =>
    case Br(l, n, k, _, r) =>
      FindCorrect(l, x);
      FindCorrect(r, x);
      if Ordered(t) {
        OrderedBr(t);
        assert Keys(t) == Keys(l) + [k] + Keys(r);
      }
  }

  /** The rank descent only stops at a node of the tree, whatever the ranks. */
  lemma {:induction false} SelectInTree(t: Tree, k: int)
    ensures Select(t, k) != null ==> Select(t, k) in NodeSet(t)
  {
    match t
    case Leaf =>
    case Br(l, n, _, rk, r) =>
      if k < rk {
        SelectInTree(l, k);
      } else if k > rk {
        SelectInTree(r, k - rk);
      }
  }

  /** With correct ranks, the rank descent for `k` stops at the `k`-th node
      in in-order, which holds the `k`-th smallest key. */
  lemma {:induction false} SelectInorder(t: Tree, k: int)
    requires RankOk(t) && 1 <= k <= Size(t)
    ensures Select(t, k) == Inorder(t)[k - 1]
    ensures Matches(t) ==> Select(t, k).value == Keys(t)[k - 1]
  {
    match t
    case Br(l, n, _, rk, r) =>
      assert Inorder(t) == Inorder(l) + [n] + Inorder(r);
      if k < rk {
        SelectInorder(l, k);
      } else if k > rk {
        SelectInorder(r, k - rk);
      }
      if Matches(t) {
        InorderKeys(t);
      }
  }

  /** Attaching adds exactly the new node. */
  lemma {:induction false} AttachNodes(t: Tree, x: int, n: Node)
    requires Find(t, x) == null
    ensures NodeSet(Attach(t, x, n)) == NodeSet(t) + {n}
    ensures Distinct(t) && n !in NodeSet(t) ==> Distinct(Attach(t, x, n))
    ensures Size(Attach(t, x, n)) == Size(t) + 1
    ensures t.Br? ==> Root(Attach(t, x, n)) == Root(t)
  {
    match t
    case Leaf =>
    case Br(l, m, k, _, r) =>
      if x < k { AttachNodes(l, x, n); } else { AttachNodes(r, x, n); }
  }

  /** Attaching adds exactly the key `x` to the keys of the tree. */
  lemma {:induction false} AttachKeys(t: Tree, x: int, n: Node)
    requires Find(t, x) == null
    ensures multiset(Keys(Attach(t, x, n))) == multiset(Keys(t)) + multiset{x}
  {
    match t
    case Leaf =>
    case Br(l, m, k, _, r) =>
      assert Keys(t) == Keys(l) + [k] + Keys(r);
      if x < k {
        AttachKeys(l, x, n);
        assert Keys(Attach(t, x, n)) == Keys(Attach(l, x, n)) + [k] + Keys(r);
      } else {
        AttachKeys(r, x, n);
        assert Keys(Attach(t, x, n)) == Keys(l) + [k] + Keys(Attach(r, x, n));
      }
  }

  /** The keys after attaching are the old keys and `x`. */
  lemma {:induction false} AttachKeySet(t: Tree, x: int, n: Node)
    requires Find(t, x) == null
    ensures forall y :: y in Keys(Attach(t, x, n)) <==> y in Keys(t) || y == x
  {
    match t
    case Leaf =>
    case Br(l, m, k, _, r) =>
      assert Keys(t) == Keys(l) + [k] + Keys(r);
      if x < k {
        AttachKeySet(l, x, n);
        assert Keys(Attach(t, x, n)) == Keys(Attach(l, x, n)) + [k] + Keys(r);
      } else {
        AttachKeySet(r, x, n);
        assert Keys(Attach(t, x, n)) == Keys(l) + [k] + Keys(Attach(r, x, n));
      }
  }

  /** Attaching a key that is not present keeps the search-tree order. */
  lemma {:induction false} AttachOrdered(t: Tree, x: int, n: Node)
    requires Ordered(t) && x !in Keys(t)
    ensures Ordered(Attach(t, x, n))
  {
    match t
    case Leaf =>
    case Br(l, m, k, _, r) =>
      OrderedBr(t);
      assert Keys(t) == Keys(l) + [k] + Keys(r);
      FindCorrect(l, x);
      FindCorrect(r, x);
      var t' := Attach(t, x, n);
      if x < k {
        AttachOrdered(l, x, n);
        assert t'.left == Attach(l, x, n) && t'.key == k && t'.right == r;
        AttachKeySet(l, x, n);
      } else {
        AttachOrdered(r, x, n);
        assert t'.left == l && t'.key == k && t'.right == Attach(r, x, n);
        AttachKeySet(r, x, n);
      }
      OrderedBr(t');
  }

  /** Raising the rank on every left turn is what keeps ranks correct. */
  lemma {:induction false} AttachRankOk(t: Tree, x: int, n: Node)
    requires RankOk(t) && Find(t, x) == null
    ensures RankOk(Attach(t, x, n))
  {
    match t
    case Leaf =>
    case Br(l, m, k, _, r) =>
      AttachNodes(t, x, n);
      if x < k {
        AttachRankOk(l, x, n);
        AttachNodes(l, x, n);
      } else {
        AttachRankOk(r, x, n);
      }
  }

  /** Insertion keeps the search-tree order and correct ranks, and adds the
      key exactly when it was absent. */
  lemma InsertTreeCorrect(t: Tree, x: int, n: Node)
    requires Ordered(t) && RankOk(t)
    ensures Ordered(InsertTree(t, x, n)) && RankOk(InsertTree(t, x, n))
    ensures multiset(Keys(InsertTree(t, x, n))) ==
      if x in Keys(t) then multiset(Keys(t)) else multiset(Keys(t)) + multiset{x}
  {
    FindCorrect(t, x);
    if x !in Keys(t) {
      AttachOrdered(t, x, n);
      AttachRankOk(t, x, n);
      AttachKeys(t, x, n);
    }
  }

  /** Every node where the descent turns left is a node of the tree. */
  lemma {:induction false} LeftTurnsInTree(t: Tree, x: int)
    ensures forall m :: m in LeftTurns(t, x) ==> m in NodeSet(t)
    ensures t.Br? ==> AttachPoint(t, x) in NodeSet(t)
  {
    match t
    case Leaf =>
    case Br(l, _, _, _, r) => LeftTurnsInTree(l, x); LeftTurnsInTree(r, x);
  }

  // ---------------------------------------------------------------------
  // The heap part way down an insertion.

  /** `t` with the rank of every node raised by the number of times `log`
      records it: what the heap holds part way down an insertion, when `log`
      records the rank updates made so far. */
  ghost function Bump(t: Tree, log: seq<Node>): (b: Tree)
    ensures Root(b) == Root(t) && NodeSet(b) == NodeSet(t)
  {
    match t
    case Leaf => Leaf
    case Br(l, n, k, rk, r) => Br(Bump(l, log), n, k, rk + multiset(log)[n], Bump(r, log))
  }

  /** `t` with `n` hung as a leaf holding `x` where the descent for `x`
      falls off, and no rank changed: what the heap holds once the last
      node of the descent points at `n`. */
  ghost function Hang(t: Tree, x: int, n: Node): Tree
  {
    match t
    case Leaf => Br(Leaf, n, x, 1, Leaf)
    case Br(l, m, k, rk, r) =>
      if x == k then t
      else if x < k then Br(Hang(l, x, n), m, k, rk, r)
      else Br(l, m, k, rk, Hang(r, x, n))
  }

  /** Only the counts of the tree's own nodes matter. */
  lemma {:induction false} BumpAgree(t: Tree, log: seq<Node>, log': seq<Node>)
    requires forall m :: m in NodeSet(t) ==> multiset(log)[m] == multiset(log')[m]
    ensures Bump(t, log) == Bump(t, log')
  {
    match t
    case Leaf =>
    case Br(l, _, _, _, r) => BumpAgree(l, log, log'); BumpAgree(r, log, log');
  }

  lemma {:induction false} BumpNone(t: Tree)
    ensures Bump(t, []) == t
  {
    match t
    case Leaf =>
    case Br(l, _, _, _, r) => BumpNone(l); BumpNone(r);
  }

  /** Raising the ranks on the left turns and then hanging the new leaf is
      attaching it. */
  lemma {:induction false} HangBump(t: Tree, x: int, n: Node, log: seq<Node>)
    requires Distinct(t) && Find(t, x) == null
    requires forall m :: m in NodeSet(t) ==>
      multiset(log)[m] == if m in LeftTurns(t, x) then 1 else 0
    ensures Hang(Bump(t, log), x, n) == Attach(t, x, n)
  {
    match t
    case Leaf =>
    case Br(l, m, k, _, r) =>
      LeftTurnsInTree(l, x);
      LeftTurnsInTree(r, x);
      assert NodeSet(t) == NodeSet(l) + {m} + NodeSet(r);
      if x < k {
        assert LeftTurns(t, x) == LeftTurns(l, x) + [m];
        HangBump(l, x, n, log);
        BumpAgree(r, log, []);
        BumpNone(r);
      } else {
        assert LeftTurns(t, x) == LeftTurns(r, x);
        HangBump(r, x, n, log);
        BumpAgree(l, log, []);
        BumpNone(l);
      }
  }

  /** In a tree without shared nodes the descent turns left at a node at
      most once. */
  lemma {:induction false} LeftTurnsOnce(t: Tree, x: int)
    requires Distinct(t)
    ensures forall m :: multiset(LeftTurns(t, x))[m] == if m in LeftTurns(t, x) then 1 else 0
  {
    match t
    case Leaf =>
    case Br(l, n, k, _, r) =>
      if x < k {
        LeftTurnsOnce(l, x);
        LeftTurnsInTree(l, x);
        assert multiset(LeftTurns(t, x)) == multiset(LeftTurns(l, x)) + multiset{n};
      } else if k < x {
        LeftTurnsOnce(r, x);
      }
  }

  /** Against the snapshot `h` taken before, a heap in which every rank has
      dropped by the count of `log`, and nothing else changed, matches `t`. */
  lemma {:induction false} Unbump(t: Tree, log: seq<Node>, h: map<Node, Fields>)
    requires Agrees(Bump(t, log), h)
    requires forall m :: m in NodeSet(t) ==>
      m in h && Fields(m.value, m.rank, m.left, m.right) == h[m].(rank := h[m].rank - multiset(log)[m])
    ensures Matches(t)
  {
    match t
    case Leaf =>
    case Br(l, n, _, _, r) =>
      assert NodeSet(t) == NodeSet(l) + {n} + NodeSet(r);
      Unbump(l, log, h);
      Unbump(r, log, h);
  }

  /** Against the snapshot `h` taken before, a heap in which only the rank
      of `c` has grown, by one, matches the tree with `c` logged once more. */
  lemma {:induction false} LiftMatches(t: Tree, log: seq<Node>, c: Node, h: map<Node, Fields>)
    requires Agrees(Bump(t, log), h)
    requires forall m :: m in NodeSet(t) ==>
      m in h && Fields(m.value, m.rank, m.left, m.right) == if m == c then h[m].(rank := h[m].rank + 1) else h[m]
    ensures Matches(Bump(t, [c] + log))
  {
    match t
    case Leaf =>
    case Br(l, n, _, _, r) =>
      assert NodeSet(t) == NodeSet(l) + {n} + NodeSet(r);
      assert multiset([c] + log) == multiset{c} + multiset(log);
      LiftMatches(l, log, c, h);
      LiftMatches(r, log, c, h);
  }

  /** Against the snapshot `h` taken before, a heap in which only the last
      node `c` of the descent changed, pointing on the side of `x` at the new
      leaf `n`, matches the tree with `n` hung in place. */
  lemma {:induction false} HangMatches(t: Tree, log: seq<Node>, x: int, n: Node, c: Node, h: map<Node, Fields>)
    requires Agrees(Bump(t, log), h) && EndsAt(t, x, c)
    requires n !in NodeSet(t) && NewLeaf(n, x)
    requires forall m :: m in NodeSet(t) ==>
      m in h && Fields(m.value, m.rank, m.left, m.right) ==
        if m != c then h[m] else if x < h[m].value then h[m].(left := n) else h[m].(right := n)
    ensures Matches(Hang(Bump(t, log), x, n))
  {
    EndsAtChild(t, x, c);
    var Br(l, m, k, _, r) := t;
    assert NodeSet(t) == NodeSet(l) + {m} + NodeSet(r);
    if x < k {
      if l.Br? {
        LeftTurnsInTree(l, x);
        HangMatches(l, log, x, n, c, h);
      }
      AgreesMatches(Bump(r, log), h);
    } else {
      if r.Br? {
        LeftTurnsInTree(r, x);
        HangMatches(r, log, x, n, c, h);
      }
      AgreesMatches(Bump(l, log), h);
    }
  }

  /** `sub` is a subtree the descent for `x` in `t` reaches, and `log`
      holds the left turns taken above it. */
  ghost predicate OnTheWay(t: Tree, sub: Tree, x: int, log: seq<Node>)
  {
    t.Br? && sub.Br? && Distinct(t) && NodeSet(sub) <= NodeSet(t) && Distinct(sub) &&
    Find(sub, x) == Find(t, x) && AttachPoint(sub, x) == AttachPoint(t, x) &&
    LeftTurns(sub, x) + log == LeftTurns(t, x) &&
    (forall m :: m in log ==> m in NodeSet(t))
  }

  lemma OnTheWayStart(t: Tree, x: int)
    requires t.Br? && Distinct(t)
    ensures OnTheWay(t, t, x, [])
  {
  }

  /** A left turn at the top of `sub` either continues the descent or ends
      it, with `sub`'s node logged. */
  lemma StepLeft(t: Tree, sub: Tree, x: int, log: seq<Node>)
    requires OnTheWay(t, sub, x, log) && x < sub.key
    ensures sub.node in NodeSet(t)
    ensures sub.left.Br? ==> OnTheWay(t, sub.left, x, [sub.node] + log)
    ensures sub.left.Leaf? ==>
      EndsAt(t, x, sub.node) && [sub.node] + log == LeftTurns(t, x)
  {
    assert LeftTurns(sub, x) == LeftTurns(sub.left, x) + [sub.node];
    assert LeftTurns(sub.left, x) + ([sub.node] + log) == LeftTurns(t, x);
    assert Find(sub, x) == Find(sub.left, x);
  }

  /** A right turn at the top of `sub` either continues the descent or ends
      it; nothing is logged. */
  lemma StepRight(t: Tree, sub: Tree, x: int, log: seq<Node>)
    requires OnTheWay(t, sub, x, log) && sub.key < x
    ensures sub.node in NodeSet(t)
    ensures sub.right.Br? ==> OnTheWay(t, sub.right, x, log)
    ensures sub.right.Leaf? ==>
      EndsAt(t, x, sub.node) && log == LeftTurns(t, x)
  {
    assert Find(sub, x) == Find(sub.right, x);
  }

  /** `c` is the last node of the descent for the absent key `x` in `t`. */
  ghost predicate EndsAt(t: Tree, x: int, c: Node)
  {
    t.Br? && Distinct(t) && Find(t, x) == null && c == AttachPoint(t, x)
  }

  /** The descent continues into the subtree on the side of `x`, and `c`
      lies outside the other subtree. */
  lemma EndsAtChild(t: Tree, x: int, c: Node)
    requires EndsAt(t, x, c)
    ensures x < t.key ==> c !in NodeSet(t.right) && (t.left.Br? ==> EndsAt(t.left, x, c))
    ensures t.key < x ==> c !in NodeSet(t.left) && (t.right.Br? ==> EndsAt(t.right, x, c))
    ensures x < t.key && t.left.Leaf? ==> c == t.node
    ensures t.key < x && t.right.Leaf? ==> c == t.node
  {
    LeftTurnsInTree(t.left, x);
    LeftTurnsInTree(t.right, x);
  }

  /** `n` is a fresh leaf node holding `x`, as the insertion creates it. */
  ghost predicate NewLeaf(n: Node, x: int)
    reads n
  {
    n.value == x && n.rank == 1 && n.left == null && n.right == null
  }
}
