/** The game tree as an arena: `nodes[i]` is one position, index 0 is the root (the
    empty board), and parent and child links are indices into the same sequence. This
    module holds the node record, the shape every tree keeps, and the outcome rule. */
module Nodes {
  import opened Board

  datatype Option<T> = None | Some(value: T)

  /** The outcome of a position: the source's NO_WINNER_YET, WIN_ODD (the player who moves
      at odd heights, drawn as 'x', has a line), WIN_EVEN ('o' has a line) and NO_WINNER. */
  datatype Winner = NoWinnerYet | WinOdd | WinEven | NoWinner

  /** One position: the move that reached it, its height (ply count, an unsigned 8-bit
      value in the source), the occupied cells `remain`, and its outcome. */
  datatype Node = Node(
    parent: Option<nat>,
    children: seq<nat>,
    move: Bits,
    height: nat,
    remain: Bits,
    winner: Winner)

  /** The source's `Height + 1` on an unsigned 8-bit height. */
  function NextHeight(h: nat): (r: nat)
    ensures r < 256
    ensures h < 255 ==> r == h + 1
  {
    (h + 1) % 256
  }

  /** The source's `newNode`: a root when there is no parent, otherwise a child of
      `nodes[parent]` one ply deeper that occupies the parent's cells and `move`. */
  function NewNode(parent: Option<nat>, nodes: seq<Node>, move: Bits): (r: Node)
    requires parent.Some? ==> parent.value < |nodes|
    ensures r.parent == parent && r.children == [] && r.move == move && r.winner == NoWinnerYet
    ensures parent.None? ==> r.height == 0 && r.remain == 0
    ensures parent.Some? ==> r.height == NextHeight(nodes[parent.value].height)
    ensures parent.Some? ==> r.remain == nodes[parent.value].remain | move
  {
    match parent
    case None => Node(None, [], move, 0, 0, NoWinnerYet)
    case Some(p) => Node(parent, [], move, NextHeight(nodes[p].height), nodes[p].remain | move, NoWinnerYet)
  }

  /** Every cell is occupied. */
  predicate IsFull(n: Node)
    ensures IsFull(n) ==> PopCount(n.remain) == 9
  {
    n.remain == Full
  }

  /** Node `i` (not the root) points at an earlier parent that lists it as a child, and
      its height and occupied cells are derived from the parent's. */
  ghost predicate ParentLink(nodes: seq<Node>, i: nat)
    requires 0 < i < |nodes|
  {
    nodes[i].parent.Some? && nodes[i].parent.value < i &&
    var p := nodes[nodes[i].parent.value];
    nodes[i].height == NextHeight(p.height) &&
    nodes[i].remain == p.remain | nodes[i].move &&
    i in p.children
  }

  /** Every child of node `i` is a later node whose parent is `i`. */
  ghost predicate ChildLinks(nodes: seq<Node>, i: nat)
    requires i < |nodes|
  {
    forall k :: 0 <= k < |nodes[i].children| ==>
      i < nodes[i].children[k] < |nodes| && nodes[nodes[i].children[k]].parent == Some(i)
  }

  /** The shape of a tree built from a root by appending children. */
  ghost predicate Linked(nodes: seq<Node>) {
    |nodes| > 0 &&
    nodes[0].parent == None && nodes[0].height == 0 && nodes[0].remain == 0 &&
    (forall i :: 0 < i < |nodes| ==> ParentLink(nodes, i)) &&
    (forall i :: 0 <= i < |nodes| ==> ChildLinks(nodes, i))
  }

  /** The parent index of a node other than the root. */
  function ParentOf(nodes: seq<Node>, i: nat): (p: nat)
    requires Linked(nodes) && 0 < i < |nodes|
    ensures p < i && nodes[i].parent == Some(p)
  {
    assert ParentLink(nodes, i);
    nodes[i].parent.value
  }

  /** The `k`-th child of node `n`: a later node whose parent is `n`. */
  function Child(nodes: seq<Node>, n: nat, k: nat): (c: nat)
    requires Linked(nodes) && n < |nodes| && k < |nodes[n].children|
    ensures n < c < |nodes| && nodes[c].parent == Some(n)
  {
    assert ChildLinks(nodes, n);
    nodes[n].children[k]
  }

  /** A node's height and occupied cells follow from its parent's. */
  lemma ParentStep(nodes: seq<Node>, i: nat)
    requires Linked(nodes) && 0 < i < |nodes|
    ensures var p := ParentOf(nodes, i);
      nodes[i].height == NextHeight(nodes[p].height) && nodes[i].remain == nodes[p].remain | nodes[i].move
  {
    assert ParentLink(nodes, i);
  }

  /** A move on the way to a position, with the height at which it was played. */
  datatype Play = Play(height: nat, move: Bits)

  /** The plays on the path from node `i` up to the first node of height 0, nearest first.
      The walk follows parent links only while they point to earlier nodes, so it is
      defined on any sequence; in a linked tree it always reaches the root. */
  ghost function Path(nodes: seq<Node>, i: nat): seq<Play>
    decreases i
  {
    if i < |nodes| && nodes[i].height != 0 && nodes[i].parent.Some? && nodes[i].parent.value < i
    then [Play(nodes[i].height, nodes[i].move)] + Path(nodes, nodes[i].parent.value)
    else []
  }

  /** The cells marked by the plays whose height has the given parity. */
  function MarksOn(path: seq<Play>, parity: nat): Bits {
    if path == [] then 0
    else (if path[0].height % 2 == parity then path[0].move else 0) | MarksOn(path[1..], parity)
  }

  /** One player's marks at node `i`: the moves on its path played at heights of the given
      parity. */
  ghost function MoverMarks(nodes: seq<Node>, i: nat, parity: nat): Bits {
    MarksOn(Path(nodes, i), parity)
  }

  /** The player who made the move reaching node `i` holds a winning line. */
  ghost predicate Won(nodes: seq<Node>, i: nat)
    requires i < |nodes|
  {
    HasLine(MoverMarks(nodes, i, nodes[i].height % 2))
  }

  /** The outcome the source assigns to a freshly created node: a win for the side of its
      height's parity when the mover holds a line, else a draw on a full board, else open. */
  ghost function Outcome(nodes: seq<Node>, i: nat): (r: Winner)
    requires i < |nodes|
    ensures r != NoWinnerYet <==> Won(nodes, i) || IsFull(nodes[i])
    ensures r == WinEven || r == WinOdd <==> Won(nodes, i)
    ensures Won(nodes, i) ==> (r == WinEven <==> nodes[i].height % 2 == 0)
  {
    if Won(nodes, i) then (if nodes[i].height % 2 == 0 then WinEven else WinOdd)
    else if IsFull(nodes[i]) then NoWinner
    else NoWinnerYet
  }

  /** Node `i` carries the outcome it was given at creation, has no children once the game
      is over there, and has at most one child per move. */
  ghost predicate SoundAt(nodes: seq<Node>, i: nat)
    requires Linked(nodes) && i < |nodes|
  {
    assert ChildLinks(nodes, i);
    nodes[i].winner == Outcome(nodes, i) &&
    (nodes[i].winner != NoWinnerYet ==> nodes[i].children == []) &&
    forall k1, k2 :: 0 <= k1 < k2 < |nodes[i].children| ==>
      nodes[nodes[i].children[k1]].move != nodes[nodes[i].children[k2]].move
  }

  /** Some child of node `n` was reached by `move`. */
  ghost predicate HasChildWith(nodes: seq<Node>, n: nat, move: Bits)
    requires Linked(nodes) && n < |nodes|
  {
    assert ChildLinks(nodes, n);
    exists k :: 0 <= k < |nodes[n].children| && nodes[nodes[n].children[k]].move == move
  }

  /** The invariant of every tree that `Set` builds. */
  ghost predicate WellFormed(nodes: seq<Node>) {
    Linked(nodes) && forall i :: 0 <= i < |nodes| ==> SoundAt(nodes, i)
  }

  /** Node `i` holds only cells, exactly `height` of them, and (unless it is the root) was
      reached by a single cell that was free in its parent. */
  ghost predicate LegalAt(nodes: seq<Node>, i: nat)
    requires i < |nodes|
  {
    nodes[i].remain & Full == nodes[i].remain &&
    PopCount(nodes[i].remain) == nodes[i].height &&
    (i > 0 ==> IsCell(nodes[i].move) && nodes[i].parent.Some? && nodes[i].parent.value < |nodes| &&
               Available(nodes[nodes[i].parent.value].remain, nodes[i].move))
  }

  /** Every move in the tree is a legal cell move. */
  ghost predicate Legal(nodes: seq<Node>) {
    Linked(nodes) && forall i :: 0 <= i < |nodes| ==> LegalAt(nodes, i)
  }

  /** Two records that agree on everything but their children and outcome. */
  ghost predicate SameShape(x: Node, y: Node) {
    x.parent == y.parent && x.move == y.move && x.height == y.height && x.remain == y.remain
  }

  /** `b` is `a` after appending nodes and appending to child lists; nothing else changed. */
  ghost predicate Extends(a: seq<Node>, b: seq<Node>) {
    |a| <= |b| &&
    forall i :: 0 <= i < |a| ==> SameShape(a[i], b[i]) && a[i].winner == b[i].winner && a[i].children <= b[i].children
  }

  /** Appends `child` as the last node and as the last child of node `n`. */
  function Attach(nodes: seq<Node>, n: nat, child: Node): (r: seq<Node>)
    requires n < |nodes|
    ensures |r| == |nodes| + 1 && r[|nodes|] == child
    ensures r[n].children == nodes[n].children + [|nodes|]
    ensures forall i :: 0 <= i < |nodes| ==> SameShape(nodes[i], r[i]) && nodes[i].winner == r[i].winner
    ensures forall i :: 0 <= i < |nodes| && i != n ==> r[i] == nodes[i]
  {
    nodes[n := nodes[n].(children := nodes[n].children + [|nodes|])] + [child]
  }

  /** The tree after the source's `Set` creates the child of `n` for `move`: the child is
      appended as the last node and the last child of `n`, then given its outcome. */
  ghost function Grow(nodes: seq<Node>, n: nat, move: Bits): (r: seq<Node>)
    requires n < |nodes|
    ensures |r| == |nodes| + 1 && Extends(nodes, r)
    ensures r[n].children == nodes[n].children + [|nodes|] && r[|nodes|].parent == Some(n)
  {
    var a := Attach(nodes, n, NewNode(Some(n), nodes, move));
    a[|nodes| := a[|nodes|].(winner := Outcome(a, |nodes|))]
  }

  /** `Grow` adds exactly one node, at the end, as the last child of `n`; it is one ply
      deeper than `n`, occupies `move` besides `n`'s cells, has no children, and its
      outcome is a win for its parity when the mover holds a line, a draw when the board
      is full, and open otherwise. No other node changes. */
  lemma GrowShape(nodes: seq<Node>, n: nat, move: Bits)
    requires n < |nodes|
    ensures var g := Grow(nodes, n, move); var c := |nodes|;
      |g| == c + 1 &&
      g[n] == nodes[n].(children := nodes[n].children + [c]) &&
      (forall i :: 0 <= i < c && i != n ==> g[i] == nodes[i]) &&
      g[c].parent == Some(n) && g[c].children == [] && g[c].move == move &&
      g[c].height == NextHeight(nodes[n].height) && g[c].remain == nodes[n].remain | move &&
      g[c].winner == (if Won(g, c) then (if g[c].height % 2 == 0 then WinEven else WinOdd)
                      else if g[c].remain == Full then NoWinner else NoWinnerYet)
  {
    var a := Attach(nodes, n, NewNode(Some(n), nodes, move));
    var g := Grow(nodes, n, move);
    assert forall j :: 0 <= j < |a| ==> SameShape(a[j], g[j]);
    PathStable(a, g, |nodes|);
  }

  lemma ExtendsTransitive(a: seq<Node>, b: seq<Node>, c: seq<Node>)
    requires Extends(a, b) && Extends(b, c)
    ensures Extends(a, c)
  {
    forall i | 0 <= i < |a|
      ensures SameShape(a[i], c[i]) && a[i].winner == c[i].winner && a[i].children <= c[i].children
    {
      assert a[i].children <= b[i].children <= c[i].children;
    }
  }

  /** The path above an existing node depends only on the shapes of the nodes, so
      appending nodes or children, or writing outcomes, never changes it. */
  lemma {:induction false} PathStable(a: seq<Node>, b: seq<Node>, i: nat)
    requires i < |a| <= |b|
    requires forall j :: 0 <= j < |a| ==> SameShape(a[j], b[j])
    ensures Path(a, i) == Path(b, i)
    decreases i
  {
    assert SameShape(a[i], b[i]);
    if a[i].height != 0 && a[i].parent.Some? && a[i].parent.value < i {
      PathStable(a, b, a[i].parent.value);
    }
  }

  /** One step of the walk towards the root. */
  lemma MarksUnfold(nodes: seq<Node>, i: nat, parity: nat)
    requires Linked(nodes) && 0 < i < |nodes| && nodes[i].height != 0
    ensures MoverMarks(nodes, i, parity) ==
      (if nodes[i].height % 2 == parity then nodes[i].move else 0) | MoverMarks(nodes, ParentOf(nodes, i), parity)
  {
    var rest := Path(nodes, ParentOf(nodes, i));
    assert Path(nodes, i) == [Play(nodes[i].height, nodes[i].move)] + rest;
    assert Path(nodes, i)[1..] == rest;
  }

  /** Outcomes are a function of the shape of the tree above a node. */
  lemma OutcomeStable(a: seq<Node>, b: seq<Node>, i: nat)
    requires Linked(a) && Linked(b) && i < |a| <= |b|
    requires forall j :: 0 <= j < |a| ==> SameShape(a[j], b[j])
    ensures Won(a, i) == Won(b, i) && Outcome(a, i) == Outcome(b, i)
  {
    assert SameShape(a[i], b[i]);
    PathStable(a, b, i);
  }

  /** Appending a new child of node `n` keeps the tree linked. */
  lemma AttachLinked(nodes: seq<Node>, n: nat, move: Bits)
    requires Linked(nodes) && n < |nodes|
    ensures Linked(Attach(nodes, n, NewNode(Some(n), nodes, move)))
  {
    var r := Attach(nodes, n, NewNode(Some(n), nodes, move));
    var c := |nodes|;
    forall i | 0 < i < |r|
      ensures ParentLink(r, i)
    {
      if i < c {
        assert ParentLink(nodes, i);
        var p := nodes[i].parent.value;
        assert r[p].children == nodes[p].children || r[p].children == nodes[p].children + [c];
      } else {
        assert r[n].children[|r[n].children| - 1] == c;
      }
    }
    forall i | 0 <= i < |r|
      ensures ChildLinks(r, i)
    {
      if i < c {
        assert ChildLinks(nodes, i);
      }
    }
  }

  /** Writing an outcome changes nothing the tree's shape depends on. */
  lemma WinnerWriteLinked(a: seq<Node>, c: nat, w: Winner)
    requires Linked(a) && c < |a|
    ensures Linked(a[c := a[c].(winner := w)])
  {
    var b := a[c := a[c].(winner := w)];
    forall i | 0 < i < |b|
      ensures ParentLink(b, i)
    {
      assert ParentLink(a, i);
    }
    forall i | 0 <= i < |b|
      ensures ChildLinks(b, i)
    {
      assert ChildLinks(a, i);
    }
  }

  /** Legality of a node depends only on its shape and its parent's. */
  lemma LegalAtShape(x: seq<Node>, y: seq<Node>, i: nat)
    requires Linked(x) && Linked(y) && i < |x| <= |y|
    requires SameShape(x[i], y[i]) && LegalAt(x, i)
    requires i > 0 ==> SameShape(x[ParentOf(x, i)], y[ParentOf(x, i)])
    ensures LegalAt(y, i)
  {
  }

  /** The source's `Set` on a fresh legal move: attaching the new child and then writing
      its outcome once yields a well-formed tree that extends the old one, provided no
      child of `n` already has that move and the game is still open at `n`. */
  lemma {:induction false} AttachWellFormed(nodes: seq<Node>, n: nat, move: Bits)
    requires WellFormed(nodes) && n < |nodes|
    requires nodes[n].winner == NoWinnerYet
    requires !HasChildWith(nodes, n, move)
    ensures Linked(Attach(nodes, n, NewNode(Some(n), nodes, move)))
    ensures var a := Attach(nodes, n, NewNode(Some(n), nodes, move));
      var b := a[|nodes| := a[|nodes|].(winner := Outcome(a, |nodes|))];
      WellFormed(b) && Extends(nodes, b)
  {
    AttachLinked(nodes, n, move);
    var a := Attach(nodes, n, NewNode(Some(n), nodes, move));
    var c := |nodes|;
    var b := a[c := a[c].(winner := Outcome(a, c))];
    assert forall j :: 0 <= j < |a| ==> SameShape(a[j], b[j]);
    WinnerWriteLinked(a, c, Outcome(a, c));
    forall i | 0 <= i < |b|
      ensures SoundAt(b, i)
    {
      if i < c {
        assert SoundAt(nodes, i);
        OutcomeStable(nodes, b, i);
        assert ChildLinks(nodes, i);
        if i == n {
          forall k1, k2 | 0 <= k1 < k2 < |b[i].children|
            ensures b[b[i].children[k1]].move != b[b[i].children[k2]].move
          {
            if k2 < |nodes[n].children| {
              assert b[n].children[k1] == nodes[n].children[k1];
              assert b[n].children[k2] == nodes[n].children[k2];
            } else {
              assert b[n].children[k1] == nodes[n].children[k1];
              assert b[n].children[k2] == c;
            }
          }
        }
      } else {
        OutcomeStable(a, b, i);
      }
    }
    assert forall i :: 0 <= i < |nodes| ==> nodes[i].children <= b[i].children;
  }

  /** Writing the outcome of a fresh child preserves legality when its move was a free cell. */
  lemma AttachLegal(nodes: seq<Node>, n: nat, move: Bits, w: Winner)
    requires Legal(nodes) && n < |nodes|
    requires IsCell(move) && Available(nodes[n].remain, move)
    requires Linked(Attach(nodes, n, NewNode(Some(n), nodes, move)))
    ensures var a := Attach(nodes, n, NewNode(Some(n), nodes, move));
      Legal(a[|nodes| := a[|nodes|].(winner := w)])
  {
    var a := Attach(nodes, n, NewNode(Some(n), nodes, move));
    var c := |nodes|;
    var b := a[c := a[c].(winner := w)];
    WinnerWriteLinked(a, c, w);
    assert forall j :: 0 <= j < c ==> b[j] == a[j];
    NewChildLegal(nodes, n, move, b);
    LegalExtend(nodes, b);
  }

  /** A linked tree that keeps the shapes of a legal tree and adds one legal node is legal. */
  lemma LegalExtend(x: seq<Node>, y: seq<Node>)
    requires Legal(x) && Linked(y) && |y| == |x| + 1
    requires forall j :: 0 <= j < |x| ==> SameShape(x[j], y[j])
    requires LegalAt(y, |x|)
    ensures Legal(y)
  {
    forall i | 0 <= i < |y|
      ensures LegalAt(y, i)
    {
      if i < |x| {
        KeptLegal(x, y, i);
      }
    }
  }

  /** A node keeps its legality in any linked tree that keeps the shapes of the old nodes. */
  lemma KeptLegal(x: seq<Node>, y: seq<Node>, i: nat)
    requires Legal(x) && Linked(y) && i < |x| <= |y|
    requires forall j :: 0 <= j < |x| ==> SameShape(x[j], y[j])
    ensures LegalAt(y, i)
  {
    assert LegalAt(x, i);
    if i > 0 {
      var p := ParentOf(x, i);
      assert SameShape(x[p], y[p]);
    }
    LegalAtShape(x, y, i);
  }

  /** The child appended by a move on a free cell is legal. */
  lemma NewChildLegal(nodes: seq<Node>, n: nat, move: Bits, b: seq<Node>)
    requires Legal(nodes) && n < |nodes|
    requires IsCell(move) && Available(nodes[n].remain, move)
    requires Linked(b) && |b| == |nodes| + 1 && b[n].remain == nodes[n].remain
    requires b[|nodes|].parent == Some(n) && b[|nodes|].move == move
    requires b[|nodes|].remain == nodes[n].remain | move && b[|nodes|].height == NextHeight(nodes[n].height)
    ensures LegalAt(b, |nodes|)
  {
    assert LegalAt(nodes, n);
    PlaceCell(nodes[n].remain, nodes[n].height, move, b[|nodes|].remain, b[|nodes|].height);
  }

  /** In a legal tree every move is one ply deeper than its parent (no 8-bit wrap-around)
      and lands on a cell that was free there. */
  lemma LegalStep(nodes: seq<Node>, i: nat)
    requires Legal(nodes) && 0 < i < |nodes|
    ensures var p := ParentOf(nodes, i);
      nodes[i].height == nodes[p].height + 1 && 0 < nodes[i].height <= 9 &&
      IsCell(nodes[i].move) && Available(nodes[p].remain, nodes[i].move)
  {
    assert LegalAt(nodes, i) && LegalAt(nodes, ParentOf(nodes, i));
    ParentStep(nodes, i);
  }

  /** The player who did not move into node `i` keeps the marks held at its parent: the
      opponent's marks never enter the win check of the mover. */
  lemma OpponentMarksUnchanged(nodes: seq<Node>, i: nat, p: nat)
    requires Linked(nodes) && 0 < i < |nodes| && p == ParentOf(nodes, i) && nodes[p].height < 255
    ensures MoverMarks(nodes, i, nodes[p].height % 2) == MoverMarks(nodes, p, nodes[p].height % 2)
    ensures MoverMarks(nodes, i, nodes[i].height % 2) == nodes[i].move | MoverMarks(nodes, p, nodes[i].height % 2)
  {
    ParentStep(nodes, i);
    var h := nodes[p].height;
    assert nodes[i].height == h + 1;
    MarksUnfold(nodes, i, h % 2);
    MarksUnfold(nodes, i, (h + 1) % 2);
  }

  /** A node is full exactly when all nine cells are occupied, for a node holding only cells. */
  lemma FullIffNineCells(n: Node)
    requires n.remain & Full == n.remain
    ensures IsFull(n) <==> PopCount(n.remain) == 9
  {
  }
}
