/** The source's mutable game tree. The nodes live in one sequence that the methods
    update in place; a `*Node` of the source is an index into it, and the root is index 0. */
module GameTree {
  import opened Board
  import opened Nodes
  import opened Stats
  import opened Exploration

  /** The two errors `Set` reports: "the game is over" and "move not available". */
  datatype SetError = GameOver | MoveNotAvailable

  datatype Result<T> = Ok(value: T) | Err(error: SetError)

  /** The source's `CountWinners` record, which the counting visitor updates in place. */
  class Winners {
    var noWinner: nat
    var oddWinner: nat
    var evenWinner: nat

    constructor()
      ensures noWinner == 0 && oddWinner == 0 && evenWinner == 0
    {
      noWinner, oddWinner, evenWinner := 0, 0, 0;
    }

    /** The visitor `CountWinners` hands to `DepthVisit`: one more position of the kind of
        `w`, and none for an open position. */
    method Record(w: Winner)
      modifies this
      ensures noWinner == old(noWinner) + Mark(w, NoWinner)
      ensures oddWinner == old(oddWinner) + Mark(w, WinOdd)
      ensures evenWinner == old(evenWinner) + Mark(w, WinEven)
    {
      if w == WinEven {
        evenWinner := evenWinner + 1;
      }
      if w == WinOdd {
        oddWinner := oddWinner + 1;
      }
      if w == NoWinner {
        noWinner := noWinner + 1;
      }
    }
  }

  class Tree {
    var nodes: seq<Node>

    /** The invariant `Set` keeps: a linked tree whose outcomes are the ones the source
        assigns and whose child moves are distinct. */
    ghost predicate Valid()
      reads this
    {
      WellFormed(nodes)
    }

    /** The source's `newNode(nil, move)`: a tree holding only the root, the empty board. */
    constructor(move: Bits)
      ensures nodes == [NewNode(None, [], move)]
      ensures Valid() && Legal(nodes)
    {
      nodes := [NewNode(None, [], move)];
      new;
      NoLineOnEmptyBoard();
      assert Path(nodes, 0) == [];
      assert SoundAt(nodes, 0);
    }

    /** The source's `Check`: walks from node `n` to the root collecting the moves made at
        the parity of `n`'s height, then tests the eight lines against them. */
    method Check(n: nat) returns (won: bool)
      requires Linked(nodes) && n < |nodes|
      ensures won <==> Won(nodes, n)
    {
      var bitmap: Bits := 0;
      var parity: nat := nodes[n].height % 2;
      var cur: nat := n;
      while nodes[cur].height > 0
        invariant cur < |nodes|
        invariant Collected(nodes, cur, parity, bitmap, MoverMarks(nodes, n, parity))
        decreases cur
      {
        var x: Bits := if nodes[cur].height % 2 == parity then nodes[cur].move else 0;
        ParentBefore(nodes, cur);
        MarksStep(nodes, cur, parity, bitmap, x, MoverMarks(nodes, n, parity));
        bitmap := bitmap | x;
        cur := nodes[cur].parent.value;
      }
      MarksAtRoot(nodes, cur, parity, bitmap, MoverMarks(nodes, n, parity));
      won := HoldsLine(bitmap);
    }

    /** The second loop of the source's `Check`: scans the eight lines in order and
        reports whether `bitmap` covers one of them. */
    static method HoldsLine(bitmap: Bits) returns (found: bool)
      ensures found <==> HasLine(bitmap)
    {
      var s := 0;
      while s < |Solutions|
        invariant s <= |Solutions|
        invariant forall t :: 0 <= t < s ==> !Covers(bitmap, t)
      {
        if bitmap & Solutions[s] == Solutions[s] {
          assert Covers(bitmap, s);
          return true;
        }
        s := s + 1;
      }
      return false;
    }

    /** The source's `IsEnded` without its printing: the mover at `n` holds a line or the
        board is full; in a well-formed tree exactly the decided positions. */
    method IsEnded(n: nat) returns (ended: bool)
      requires Linked(nodes) && n < |nodes|
      ensures ended <==> Won(nodes, n) || IsFull(nodes[n])
      ensures WellFormed(nodes) ==> (ended <==> nodes[n].winner != NoWinnerYet)
    {
      assert WellFormed(nodes) ==> SoundAt(nodes, n);
      var isTris := Check(n);
      if isTris {
        return true;
      }
      if IsFull(nodes[n]) {
        return true;
      }
      return false;
    }

    /** The source's `Set`: plays `move` at node `n`. It refuses a decided node and an
        occupied cell, returns the existing child when `move` was already played there,
        and otherwise appends a new child and assigns its outcome once. */
    method Set(n: nat, move: Bits) returns (r: Result<nat>)
      requires Valid() && n < |nodes|
      modifies this
      ensures Valid() && Extends(old(nodes), nodes)
      ensures old(nodes[n].winner) != NoWinnerYet ==> r == Err(GameOver) && nodes == old(nodes)
      ensures old(nodes[n].winner) == NoWinnerYet && !Available(old(nodes[n].remain), move) ==>
        r == Err(MoveNotAvailable) && nodes == old(nodes)
      ensures old(nodes[n].winner) == NoWinnerYet && Available(old(nodes[n].remain), move) ==> r.Ok?
      ensures r.Ok? ==>
        n < r.value < |nodes| && r.value in nodes[n].children && nodes[r.value].parent == Some(n) &&
        nodes[r.value].move == move && Available(nodes[n].remain, move)
      ensures r.Ok? && old(HasChildWith(nodes, n, move)) ==> nodes == old(nodes)
      ensures r.Ok? && !old(HasChildWith(nodes, n, move)) ==>
        r.value == old(|nodes|) && nodes == Grow(old(nodes), n, move)
      ensures Legal(old(nodes)) && IsCell(move) ==> Legal(nodes)
    {
      var node := nodes[n];
      if node.winner != NoWinnerYet {
        return Err(GameOver);
      }
      if !Available(node.remain, move) {
        return Err(MoveNotAvailable);
      }
      var k := 0;
      while k < |node.children|
        invariant k <= |node.children|
        invariant forall j :: 0 <= j < k ==> nodes[Child(nodes, n, j)].move != move
      {
        var c := Child(nodes, n, k);
        if nodes[c].move == move {
          ExistingChild(nodes, n, k);
          return Ok(c);
        }
        k := k + 1;
      }
      NoChildWith(nodes, n, move);
      var c := AddChild(n, move);
      return Ok(c);
    }

    /** The second half of the source's `Set`: `newNode(node, move)` appended to the
        children of `n`, then its outcome set from `Check` and `IsFull`. */
    method AddChild(n: nat, move: Bits) returns (c: nat)
      requires Valid() && n < |nodes| && nodes[n].winner == NoWinnerYet && Available(nodes[n].remain, move)
      requires !HasChildWith(nodes, n, move)
      modifies this
      ensures c == old(|nodes|) && nodes == Grow(old(nodes), n, move)
      ensures Valid() && Extends(old(nodes), nodes)
      ensures n < c < |nodes| && c in nodes[n].children && nodes[c].parent == Some(n) &&
        nodes[c].move == move && nodes[n].remain == old(nodes[n].remain)
      ensures Legal(old(nodes)) && IsCell(move) ==> Legal(nodes)
    {
      ghost var before := nodes;
      AttachWellFormed(nodes, n, move);
      c := |nodes|;
      nodes := Attach(nodes, n, NewNode(Some(n), nodes, move));
      var won := Check(c);
      var w := if won then (if nodes[c].height % 2 == 0 then WinEven else WinOdd)
               else if IsFull(nodes[c]) then NoWinner
               else NoWinnerYet;
      nodes := nodes[c := nodes[c].(winner := w)];
      assert nodes == Grow(before, n, move);
      GrowShape(before, n, move);
      if Legal(before) && IsCell(move) {
        AttachLegal(before, n, move, w);
      }
    }

    /** The source's `Explore`: plays every cell of node `n` in index order and explores
        each resulting child that is still open. */
    method Explore(n: nat)
      requires Valid() && n < |nodes|
      modifies this
      ensures Valid() && Extends(old(nodes), nodes)
      ensures Legal(old(nodes)) ==> Legal(nodes)
      ensures Explored(nodes, n)
      ensures old(nodes[n].winner) != NoWinnerYet ==> nodes == old(nodes)
      decreases 9 - PopCount(nodes[n].remain), 1
    {
      var i := 0;
      while i < 9
        invariant i <= 9 && ExploreInv(old(nodes), nodes, n, i)
      {
        ghost var before := nodes;
        PlayCell(n, i);
        ExploreStep(old(nodes), before, nodes, n, i);
        i := i + 1;
      }
    }

    /** One round of `Explore`'s loop: plays cell `i` at `n` and explores the child it
        leads to while that child is open. */
    method PlayCell(n: nat, i: nat)
      requires Valid() && n < |nodes| && i < 9
      modifies this
      ensures Valid() && Extends(old(nodes), nodes)
      ensures Legal(old(nodes)) ==> Legal(nodes)
      ensures old(nodes[n].winner) != NoWinnerYet ==> nodes == old(nodes)
      ensures old(nodes[n].winner) == NoWinnerYet && Available(old(nodes[n].remain), IndexToMove(i)) ==>
        CellExplored(nodes, n, i)
      decreases 9 - PopCount(nodes[n].remain), 0
    {
      var move := IndexToMove(i);
      var r := Set(n, move);
      if r.Ok? {
        var c := r.value;
        ghost var mid := nodes;
        if nodes[c].winner == NoWinnerYet {
          assert SameShape(old(nodes)[n], nodes[n]);
          ChildCount(nodes, n, c);
          Explore(c);
        }
        ExploredChild(mid, nodes, n, c, i);
      }
    }

    /** The source's `DepthVisit` with the counting visitor of `CountWinners`: visits the
        subtree of `n` in pre-order and adds each position's outcome to `c`. */
    method DepthVisit(n: nat, c: Winners)
      requires Linked(nodes) && n < |nodes|
      modifies c
      ensures c.noWinner == old(c.noWinner) + Outcomes(nodes, n, NoWinner)
      ensures c.oddWinner == old(c.oddWinner) + Outcomes(nodes, n, WinOdd)
      ensures c.evenWinner == old(c.evenWinner) + Outcomes(nodes, n, WinEven)
      decreases |nodes| - n
    {
      c.Record(nodes[n].winner);
      var i := 0;
      while i < |nodes[n].children|
        invariant i <= |nodes[n].children|
        invariant c.noWinner == old(c.noWinner) + Mark(nodes[n].winner, NoWinner) + ChildrenOutcomes(nodes, n, i, NoWinner)
        invariant c.oddWinner == old(c.oddWinner) + Mark(nodes[n].winner, WinOdd) + ChildrenOutcomes(nodes, n, i, WinOdd)
        invariant c.evenWinner == old(c.evenWinner) + Mark(nodes[n].winner, WinEven) + ChildrenOutcomes(nodes, n, i, WinEven)
      {
        LinkedForward(nodes, n, i);
        DepthVisit(Child(nodes, n, i), c);
        i := i + 1;
      }
    }

    /** The source's `CountWinners`: the three outcome tallies of the subtree of `n`. */
    method CountWinners(n: nat) returns (c: Winners)
      requires Linked(nodes) && n < |nodes|
      ensures fresh(c)
      ensures c.noWinner == Outcomes(nodes, n, NoWinner)
      ensures c.oddWinner == Outcomes(nodes, n, WinOdd)
      ensures c.evenWinner == Outcomes(nodes, n, WinEven)
    {
      c := new Winners();
      DepthVisit(n, c);
    }

    /** The source's `Count`: the number of positions in the subtree of `n`. */
    method Count(n: nat) returns (tot: nat)
      requires Linked(nodes) && n < |nodes|
      ensures tot == Size(nodes, n)
      decreases |nodes| - n
    {
      tot := 1;
      var i := 0;
      while i < |nodes[n].children|
        invariant i <= |nodes[n].children|
        invariant tot == 1 + ChildrenSize(nodes, n, i)
      {
        LinkedForward(nodes, n, i);
        var sub := Count(Child(nodes, n, i));
        tot := tot + sub;
        i := i + 1;
      }
    }

    /** The source's `BestMove`: the move of the first child whose non-loss ratio is
        strictly greater than that of every earlier child, starting from -1. */
    method BestMove(n: nat) returns (m: Bits)
      requires Linked(nodes) && n < |nodes| && |nodes[n].children| > 0
      ensures exists k ::
                0 <= k < |nodes[n].children| && FirstBest(ChildScores(nodes, n), k) &&
                m == nodes[Child(nodes, n, k)].move
    {
      ghost var s := ChildScores(nodes, n);
      var best := MinusOne();
      var maxI := 0;
      ghost var found := false;
      var i := 0;
      while i < |nodes[n].children|
        invariant i <= |s| && maxI < |s|
        invariant found <==> exists j :: 0 <= j < i && s[j].den > 0
        invariant !found ==> maxI == 0 && best == MinusOne()
        invariant found ==> maxI < i && best == s[maxI] && s[maxI].den > 0
        invariant found ==> forall j :: 0 <= j < i ==> !Greater(s[j], best)
        invariant found ==> forall j :: 0 <= j < maxI && s[j].den > 0 ==> Greater(best, s[j])
      {
        var c := Child(nodes, n, i);
        var winners := CountWinners(c);
        var score := Score(winners.noWinner, winners.oddWinner, winners.evenWinner, nodes[c].height);
        assert score == s[i];
        if Greater(score, best) {
          NewBest(s, i, maxI, best, found);
          best := score;
          maxI := i;
          found := true;
        } else {
          KeptBest(s, i, maxI, best, found);
        }
        i := i + 1;
      }
      m := nodes[Child(nodes, n, maxI)].move;
    }
  }

  /** A position above the root has an earlier parent. */
  lemma ParentBefore(nodes: seq<Node>, cur: nat)
    requires Linked(nodes) && cur < |nodes| && nodes[cur].height > 0
    ensures nodes[cur].parent.Some? && nodes[cur].parent.value < cur
  {
    var p := ParentOf(nodes, cur);
  }

  /** `bitmap`, with the mover's marks from `cur` up to the root, gives all of them. */
  ghost predicate Collected(nodes: seq<Node>, cur: nat, parity: nat, bitmap: Bits, total: Bits) {
    bitmap | MoverMarks(nodes, cur, parity) == total
  }

  /** One step of `Check`'s walk to the root: the marks collected so far together with
      those from the parent up are still all the mover's marks. */
  lemma MarksStep(nodes: seq<Node>, cur: nat, parity: nat, bitmap: Bits, x: Bits, total: Bits)
    requires cur < |nodes| && nodes[cur].height > 0
    requires nodes[cur].parent.Some? && nodes[cur].parent.value < cur
    requires x == if nodes[cur].height % 2 == parity then nodes[cur].move else 0
    requires Collected(nodes, cur, parity, bitmap, total)
    ensures Collected(nodes, nodes[cur].parent.value, parity, bitmap | x, total)
  {
  }

  /** At the root no mark is left to collect. */
  lemma MarksAtRoot(nodes: seq<Node>, cur: nat, parity: nat, bitmap: Bits, total: Bits)
    requires cur < |nodes| && nodes[cur].height == 0
    requires Collected(nodes, cur, parity, bitmap, total)
    ensures bitmap == total
  {
    assert Path(nodes, cur) == [];
  }

  /** The `k`-th child of `n` is listed among `n`'s children. */
  lemma ExistingChild(nodes: seq<Node>, n: nat, k: nat)
    requires Linked(nodes) && n < |nodes| && k < |nodes[n].children|
    ensures Child(nodes, n, k) in nodes[n].children
  {
  }

  /** A child occupies one cell more than its parent. */
  lemma ChildCount(nodes: seq<Node>, n: nat, c: nat)
    requires Linked(nodes) && n < c < |nodes| && nodes[c].parent == Some(n)
    requires IsCell(nodes[c].move) && Available(nodes[n].remain, nodes[c].move)
    ensures PopCount(nodes[c].remain) == PopCount(nodes[n].remain) + 1
  {
    ParentStep(nodes, c);
    assert ParentOf(nodes, c) == n;
    PopCountAdd(nodes[n].remain, nodes[c].move);
  }

  /** No child of `n` has `move` when none of the first `|children|` has it. */
  lemma NoChildWith(nodes: seq<Node>, n: nat, move: Bits)
    requires Linked(nodes) && n < |nodes|
    requires forall j :: 0 <= j < |nodes[n].children| ==> nodes[Child(nodes, n, j)].move != move
    ensures !HasChildWith(nodes, n, move)
  {
    assert ChildLinks(nodes, n);
    forall k | 0 <= k < |nodes[n].children|
      ensures nodes[nodes[n].children[k]].move != move
    {
      LinkedForward(nodes, n, k);
    }
  }

  /** The child `Set` returned is explored once its own exploration (if any) is done. */
  lemma ExploredChild(mid: seq<Node>, after: seq<Node>, n: nat, c: nat, i: nat)
    requires Linked(mid) && Linked(after) && Extends(mid, after) && n < |mid|
    requires c < |mid| && c in mid[n].children && mid[c].move == IndexToMove(i)
    requires mid[c].winner != NoWinnerYet ==> after == mid
    requires mid[c].winner == NoWinnerYet ==> Explored(after, c)
    ensures CellExplored(after, n, i)
  {
    assert SameShape(mid[c], after[c]) && mid[n].children <= after[n].children;
    var k :| 0 <= k < |mid[n].children| && mid[n].children[k] == c;
    assert after[n].children[k] == c;
    LinkedForward(after, n, k);
  }

  /** What `Explore`'s loop keeps after `i` rounds, from the tree `start` it was called on:
      the tree stays well formed and only grows, legality is kept, the first `i` cells of
      `n` are explored unless `n` is decided, and a decided `n` changes nothing. */
  ghost predicate ExploreInv(start: seq<Node>, now: seq<Node>, n: nat, i: nat) {
    n < |start| <= |now| && WellFormed(now) && Extends(start, now) &&
    (Legal(start) ==> Legal(now)) &&
    (ExploredUpTo(now, n, i) || now[n].winner != NoWinnerYet) &&
    now[n].remain == start[n].remain && (start[n].winner != NoWinnerYet ==> now == start)
  }

  /** One round of `Explore`'s loop keeps the earlier cells explored and adds cell `i`. */
  lemma ExploreStep(start: seq<Node>, before: seq<Node>, after: seq<Node>, n: nat, i: nat)
    requires i < 9 && ExploreInv(start, before, n, i)
    requires WellFormed(after) && Extends(before, after) && (Legal(before) ==> Legal(after))
    requires before[n].winner != NoWinnerYet ==> after == before
    requires before[n].winner == NoWinnerYet && Available(before[n].remain, IndexToMove(i)) ==>
      CellExplored(after, n, i)
    ensures ExploreInv(start, after, n, i + 1)
  {
    ExtendsTransitive(start, before, after);
    assert SameShape(before[n], after[n]) && before[n].winner == after[n].winner;
    if before[n].winner == NoWinnerYet {
      UpToMonotone(before, after, n, i);
    }
  }

  /** A candidate greater than the running maximum is the new first best. */
  lemma NewBest(s: seq<Ratio>, i: nat, maxI: nat, best: Ratio, found: bool)
    requires i < |s| && maxI < |s| && forall j :: 0 <= j < |s| ==> Proper(s[j])
    requires found <==> exists j :: 0 <= j < i && s[j].den > 0
    requires !found ==> best == MinusOne()
    requires found ==> maxI < i && best == s[maxI] && s[maxI].den > 0
    requires found ==> forall j :: 0 <= j < i ==> !Greater(s[j], best)
    requires Greater(s[i], best)
    ensures s[i].den > 0
    ensures forall j :: 0 <= j < i + 1 ==> !Greater(s[j], s[i])
    ensures forall j :: 0 <= j < i && s[j].den > 0 ==> Greater(s[i], s[j])
  {
    NaNLike(s[i], best);
    forall j | 0 <= j < i + 1
      ensures !Greater(s[j], s[i])
      ensures j < i && s[j].den > 0 ==> Greater(s[i], s[j])
    {
      NaNLike(s[j], s[i]);
      GreaterAsymmetric(s[i], s[j]);
      if j < i && s[j].den > 0 {
        GreaterOvertakes(s[i], best, s[j]);
      }
    }
  }

  /** A candidate not greater than the running maximum leaves it in place. */
  lemma KeptBest(s: seq<Ratio>, i: nat, maxI: nat, best: Ratio, found: bool)
    requires i < |s| && Proper(s[i])
    requires !found ==> best == MinusOne()
    requires !Greater(s[i], best)
    ensures !found ==> s[i].den == 0
  {
    NaNLike(s[i], best);
  }
}
