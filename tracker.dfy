/*
 * The rank-update tracker: a most-recent-first linked log of tree nodes whose
 * rank was adjusted, so that the adjustments can be undone.  A tracker starts
 * as one link holding no node; the log it records runs from the head link up
 * to (not including) the first link that holds no node.
 *
 * Only the head link's ghost fields describe the list: `Spine` is the chain of
 * links reached through `next`, and `Log` the nodes those links record.
 */
module Tracker {
  import opened TreeNodes

  /** One link of the log: a tree node and the link logged before it. */
  class Link {
    var treenode: Node?
    var next: Link?

    /** The links from this one to the end of the list, in `next` order. */
    ghost var Spine: seq<Link>
    /** The nodes the list records, most recent first. */
    ghost var Log: seq<Node>

    ghost predicate Valid()
      reads this, Spine
    {
      |Spine| > 0 && Spine[0] == this &&
      (forall j :: 0 <= j < |Spine| - 1 ==> Spine[j].next == Spine[j + 1]) &&
      Spine[|Spine| - 1].next == null &&
      |Log| <= |Spine| &&
      (forall j :: 0 <= j < |Log| ==> Spine[j].treenode == Log[j]) &&
      (|Log| < |Spine| ==> Spine[|Log|].treenode == null)
    }

    /** A link recording `treenode` in front of the list `next`. */
    constructor (treenode: Node?, next: Link?)
      requires next != null ==> next.Valid()
      ensures Valid()
      ensures this.treenode == treenode && this.next == next
      ensures Log == if treenode == null then []
                     else [treenode] + (if next == null then [] else next.Log)
    {
      this.treenode := treenode;
      this.next := next;
      ghost var rest := if next == null then [] else next.Spine;
      new;
      Spine := [this] + rest;
      Log := if treenode == null then []
             else [treenode] + (if next == null then [] else next.Log);
      forall j | 1 <= j < |Spine| - 1
        ensures Spine[j].next == Spine[j + 1]
      {
        assert Spine[j] == rest[j - 1] && Spine[j + 1] == rest[j];
      }
    }
  }

  /** The log recorded from `head` on; a missing tracker records nothing. */
  ghost function Logged(head: Link?): seq<Node>
    reads head
  {
    if head == null then [] else head.Log
  }

  /** A fresh tracker: one link that holds no node and has no successor. */
  method InitUpdateTracker() returns (head: Link)
    ensures fresh(head) && head.Valid()
    ensures head.treenode == null && head.next == null && head.Log == []
  {
    head := new Link(null, null);
  }

  /** Records `trackedNode`.  An empty head link is filled in place and
      returned; otherwise a new link is put in front of the old head. */
  method TrackUpdate(updatedNodes: Link, trackedNode: Node?) returns (head: Link)
    requires updatedNodes.Valid()
    modifies updatedNodes
    ensures head.Valid() && head.treenode == trackedNode
    ensures head.Log == if trackedNode == null then [] else [trackedNode] + old(updatedNodes.Log)
    ensures old(updatedNodes.treenode) == null ==> head == updatedNodes && head.next == null
    ensures old(updatedNodes.treenode) != null ==>
      fresh(head) && head.next == updatedNodes && unchanged(updatedNodes)
  {
    if updatedNodes.treenode != null {
      head := new Link(trackedNode, updatedNodes);
    } else {
      updatedNodes.treenode := trackedNode;
      updatedNodes.next := null;
      updatedNodes.Spine := [updatedNodes];
      updatedNodes.Log := if trackedNode == null then [] else [trackedNode];
      head := updatedNodes;
    }
  }

  /** Adds `direction` to the rank of every logged node, once per link that
      records it, stopping at the first link that holds no node. */
  method RevertRankUpdates(head: Link?, direction: int)
    requires head != null ==> head.Valid()
    modifies (set n | n in Logged(head))`rank
    ensures forall n :: n in Logged(head) ==>
      n.rank == old(n.rank) + direction * multiset(Logged(head))[n]
  {
    ghost var spine := if head == null then [] else head.Spine;
    ghost var log := Logged(head);
    var h := head;
    ghost var i := 0;
    while h != null && h.treenode != null
      invariant head != null ==> head.Valid() && head.Spine == spine && head.Log == log
      invariant head == null ==> spine == [] && log == []
      invariant 0 <= i <= |log| <= |spine|
      invariant h == if i < |spine| then spine[i] else null
      invariant forall n :: n in log ==> n.rank == old(n.rank) + Shift(log[..i], n, direction)
      decreases |spine| - i
    {
      var m := h.treenode;
      assert i < |log| && log[i] == m;
      assert h.next == if i + 1 < |spine| then spine[i + 1] else null;
      assert log[..i + 1][..i] == log[..i];
      m.rank := m.rank + direction;
      h := h.next;
      i := i + 1;
    }
    assert log[..i] == log;
    forall n | n in log
      ensures Shift(log, n, direction) == direction * multiset(log)[n]
    {
      ShiftCount(log, n, direction);
    }
  }

  /** The total adjustment `s` makes to the rank of `n` when every entry
      adds `d` to the rank of the node it records. */
  ghost function Shift(s: seq<Node>, n: Node, d: int): int
  {
    if |s| == 0 then 0
    else Shift(s[..|s| - 1], n, d) + (if s[|s| - 1] == n then d else 0)
  }

  /** Each occurrence of `n` in `s` contributes one `d`. */
  lemma {:induction false} ShiftCount(s: seq<Node>, n: Node, d: int)
    ensures Shift(s, n, d) == d * multiset(s)[n]
  {
    if |s| > 0 {
      var t: seq<Node> := s[..|s| - 1];
      var last: Node := s[|s| - 1];
      ShiftCount(t, n, d);
      assert s == t + [last];
      assert multiset(s) == multiset(t) + multiset{last};
      if last == n {
        MulSucc(d, multiset(t)[n]);
      }
    }
  }

  lemma MulSucc(d: int, c: nat)
    ensures d * (c + 1) == d * c + d
  {
  }
}
