/** What exhaustive exploration establishes: below an explored open position every free
    cell has been played, down to decided positions, so every child of such a position has
    a decided position in its subtree and a score that is never 0/0. */
module Exploration {
  import opened Board
  import opened Nodes
  import opened Stats

  /** Node `i` is decided, or each of its nine cells is occupied or has an explored child. */
  ghost predicate Explored(nodes: seq<Node>, i: nat)
    requires i < |nodes|
    decreases |nodes| - i, 2
  {
    nodes[i].winner != NoWinnerYet || ExploredUpTo(nodes, i, 9)
  }

  /** The first `m` cells of node `i`, in index order, are occupied or explored. */
  ghost predicate ExploredUpTo(nodes: seq<Node>, i: nat, m: nat)
    requires i < |nodes|
    decreases |nodes| - i, 1
  {
    forall j :: 0 <= j < m ==> CellExplored(nodes, i, j)
  }

  /** Cell `j` is occupied at node `i`, or some child of `i` was reached by playing it and
      is explored. */
  ghost predicate CellExplored(nodes: seq<Node>, i: nat, j: nat)
    requires i < |nodes|
    decreases |nodes| - i, 0
  {
    nodes[i].remain & IndexToMove(j) != 0 ||
    exists k :: 0 <= k < |nodes[i].children| && ForwardChild(nodes, i, k) &&
      nodes[nodes[i].children[k]].move == IndexToMove(j) && Explored(nodes, nodes[i].children[k])
  }

  /** Growing the tree never undoes exploration. */
  lemma {:induction false} ExploredMonotone(a: seq<Node>, b: seq<Node>, i: nat)
    requires Extends(a, b) && i < |a| && Explored(a, i)
    ensures Explored(b, i)
    decreases |a| - i, 2
  {
    if a[i].winner == NoWinnerYet {
      UpToMonotone(a, b, i, 9);
    }
  }

  lemma {:induction false} UpToMonotone(a: seq<Node>, b: seq<Node>, i: nat, m: nat)
    requires Extends(a, b) && i < |a| && ExploredUpTo(a, i, m)
    ensures ExploredUpTo(b, i, m)
    decreases |a| - i, 1
  {
    forall j | 0 <= j < m
      ensures CellExplored(b, i, j)
    {
      CellMonotone(a, b, i, j);
    }
  }

  lemma {:induction false} CellMonotone(a: seq<Node>, b: seq<Node>, i: nat, j: nat)
    requires Extends(a, b) && i < |a| && CellExplored(a, i, j)
    ensures CellExplored(b, i, j)
    decreases |a| - i, 0
  {
    assert SameShape(a[i], b[i]) && a[i].children <= b[i].children;
    if a[i].remain & IndexToMove(j) == 0 {
      var k :| 0 <= k < |a[i].children| && ForwardChild(a, i, k) &&
        a[a[i].children[k]].move == IndexToMove(j) && Explored(a, a[i].children[k]);
      var c := a[i].children[k];
      assert b[i].children[k] == c;
      assert SameShape(a[c], b[c]);
      ExploredMonotone(a, b, c);
    }
  }

  /** In a legal tree, an explored subtree holds a decided position: an open position is
      not full, so it has a free cell, and that cell's child is explored. */
  lemma {:induction false} ExploredHasOutcome(nodes: seq<Node>, i: nat)
    requires WellFormed(nodes) && Legal(nodes) && i < |nodes| && Explored(nodes, i)
    ensures Decided(nodes, i) > 0
    decreases |nodes| - i
  {
    if nodes[i].winner == NoWinnerYet {
      assert SoundAt(nodes, i) && LegalAt(nodes, i);
      FreeCellExists(nodes[i].remain);
      var j :| 0 <= j < 9 && nodes[i].remain & IndexToMove(j) == 0;
      assert CellExplored(nodes, i, j);
      var k :| 0 <= k < |nodes[i].children| && ForwardChild(nodes, i, k) &&
        nodes[nodes[i].children[k]].move == IndexToMove(j) && Explored(nodes, nodes[i].children[k]);
      ExploredHasOutcome(nodes, nodes[i].children[k]);
      ChildDecidedIncluded(nodes, i, |nodes[i].children|, k);
    }
  }

  /** Below an explored position every child is explored, so none of the scores that the
      source's `BestMove` divides is 0/0. */
  lemma ExploredChildScorable(nodes: seq<Node>, n: nat, k: nat)
    requires WellFormed(nodes) && Legal(nodes) && n < |nodes| && Explored(nodes, n)
    requires k < |nodes[n].children|
    ensures Explored(nodes, Child(nodes, n, k))
    ensures ChildScore(nodes, n, k).den > 0
  {
    var c := Child(nodes, n, k);
    ExploredChildIsExplored(nodes, n, k);
    ExploredHasOutcome(nodes, c);
  }

  lemma ExploredChildIsExplored(nodes: seq<Node>, n: nat, k: nat)
    requires WellFormed(nodes) && Legal(nodes) && n < |nodes| && Explored(nodes, n)
    requires k < |nodes[n].children|
    ensures Explored(nodes, Child(nodes, n, k))
  {
    var c := Child(nodes, n, k);
    assert SoundAt(nodes, n) && LegalAt(nodes, c);
    CellIndex(nodes[c].move);
    var j := MoveToIndex(nodes[c].move);
    assert CellExplored(nodes, n, j);
    var k' :| 0 <= k' < |nodes[n].children| && ForwardChild(nodes, n, k') &&
      nodes[nodes[n].children[k']].move == IndexToMove(j) && Explored(nodes, nodes[n].children[k']);
    if k' != k {
      assert false;
    }
  }
}
