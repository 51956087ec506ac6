# tris-go game tree, modelled in Dafny

tris-go is a tic-tac-toe engine (`pkg/main.go`). It builds the whole game tree from the
empty board, tallies the outcomes below each position, and picks the child whose
subtree gives the player who just moved the best ratio of non-losing endings. This
project models that engine and proves what it keeps true.

- **Board** (`board.dfy`) — the 16-bit board masks:
  - the nine cell bits `P00`..`P22`;
  - the eight winning lines, and `Full`;
  - `IndexToMove` and `MoveToIndex` with its sentinel 255;
  - the count of occupied cells.
- **Nodes** (`nodes.dfy`) — the tree as an arena, a `seq<Node>` where index 0 is the
  root and links are indices.
  - `Linked` is the shape invariant: the parent is earlier, and the child lists agree
    with the parent links.
  - `Height` is the successor of the parent's height, with the source's 8-bit
    wrap-around written out, and `Remain` is the parent's `Remain | move`.
  - `Won` says the mover's marks on the path to the root contain a line. `Outcome`
    is the winner that `Set` assigns.
  - `WellFormed` is `Linked` plus "every node carries its outcome, a decided node has
    no children, and child moves are distinct". `Legal` says every move is one free
    cell.
  - `Grow` is the tree after `Set` creates a child.
- **Stats** (`stats.dfy`) — subtree statistics:
  - the subtree size (`Count`) and the per-outcome tallies (`CountWinners`);
  - the non-loss ratio that `BestMove` compares, kept as a pair of integers and
    compared by cross-multiplication;
  - `FirstBest`, which says which child `BestMove` settles on.
- **Exploration** (`exploration.dfy`) — what `Explore` establishes: every free cell of
  an open position has been played, down to decided positions. In an explored legal
  tree, every child's score has a non-zero denominator.
- **GameTree** (`tree.dfy`) — the imperative part:
  - class `Tree`, whose field `nodes` the methods `Set` and `Explore` update in place;
  - `Check`, `HoldsLine`, `DepthVisit`, `Count` and `BestMove`, each with its loop, and
    `IsEnded` and `CountWinners`, which are built on `Check` and `DepthVisit`;
  - class `Winners`, the counting record the visitor increments.

## Model

| member | source | states |
|---|---|---|
| `Board.IndexToMove` | pkg/main.go:79-101 | indices 0..8 give a single cell bit inside `Full`; every other index gives 0 |
| `Board.MoveToIndex` | pkg/main.go:103-132 | the result is the first cell index (in index order) whose bit is in the mask, or 255 exactly when the mask holds none of the nine cells |
| `Board.IndexMoveRoundTrip` | pkg/main.go:79-132 | `MoveToIndex(IndexToMove(i)) == i` for i in 0..8, and 255 for every other i |
| `Board.IndexIsBit` | pkg/main.go:10-20 | cell index i is bit `1 << i`, as the `iota` constants lay it out |
| `Board.CellIndex` | pkg/main.go:79-132 | a mask is a single cell exactly when `MoveToIndex` finds an index whose bit is the whole mask |
| `Board.SolutionsAreLines` | pkg/main.go:29-38 | the eight solutions are the two diagonals, the three rows and the three columns, each of three cells inside `Full` |
| `Board.NoLineOnEmptyBoard` | pkg/main.go:29-40 | the empty board contains no line, so the root is never won |
| `Board.PopCountAdd` | pkg/main.go:73 | or-ing a free cell into `Remain` raises the number of occupied cells by exactly one |
| `Board.FreeCellExists` | pkg/main.go:159-161 | a board of cells that is not `Full` has a free cell among the nine |
| `Nodes.NewNode` | pkg/main.go:57-77 | a new node has the given parent, no children, the move and no winner yet; a root has height 0 and no cells; a child has the height after its parent's and the parent's `Remain` or-ed with the move (`ParentStep` and `GrowShape` state this for the linked tree) |
| `Nodes.IsFull` | pkg/main.go:159-161 | a full board has nine occupied cells (`FullIffNineCells` gives the converse for boards of cells) |
| `Nodes.Outcome` | pkg/main.go:200-210 | a node is decided exactly when the mover holds a line or the board is full; it is a win exactly when the mover holds a line, WIN_EVEN at even height and WIN_ODD at odd height |
| `Nodes.Grow` | pkg/main.go:197-211 | creating a child adds one node at the end, whose parent is `n`, appends it to `n`'s children, and only extends the tree (`GrowShape` states the new node's fields) |
| `Nodes.NextHeight` | pkg/main.go:72 | `Height + 1` on a `uint8`: always below 256, and `h + 1` whenever `h < 255` |
| `Nodes.ParentStep` | pkg/main.go:67-76 | in a linked tree every non-root node has the height after its parent's and occupies its parent's cells plus its own move |
| `Nodes.Attach` | pkg/main.go:197-198 | appending a child adds one node at the end, makes it the last child of `n`, and leaves every other node and all shapes and outcomes as they were |
| `Nodes.GrowShape` | pkg/main.go:197-211 | the fresh child is the last node and last child of `n`; it has parent `n`, no children, the move, the next height, and the parent's `Remain` or-ed with the move; its winner is WIN_EVEN/WIN_ODD by height parity when the mover holds a line, otherwise NO_WINNER on a full board, otherwise NO_WINNER_YET; no other node changes |
| `Nodes.AttachWellFormed` | pkg/main.go:181-213 | creating a child for a new move at an open node keeps the tree well formed (outcomes as assigned, decided nodes childless, distinct child moves) and only extends it |
| `Nodes.OutcomeStable` | pkg/main.go:163-179 | a node's `Check` result and outcome are the same in any linked tree that keeps the shape (parent, move, height and cells) of every existing node, so growing the tree never changes them |
| `Nodes.AttachLegal` | pkg/main.go:187-198 | a move on one free cell of a legal tree leaves the tree legal |
| `Nodes.LegalStep` | pkg/main.go:72-73 | in a legal tree, heights never wrap (parent + 1, at most 9) and each move is one cell that was free at the parent |
| `Nodes.OpponentMarksUnchanged` | pkg/main.go:165-171 | the moves `Check` collects for the mover are the parent's collection for that parity plus the new move; the other player's collection is unchanged by it |
| `Nodes.MarksUnfold` | pkg/main.go:166-171 | one step of the walk: the marks of a node are its own move (when its parity matches) or-ed with its parent's marks |
| `Nodes.FullIffNineCells` | pkg/main.go:159-161 | `IsFull` holds exactly when nine cells are occupied |
| `Stats.OutcomesPartitionSize` | pkg/main.go:255-274 | the three tallies plus the open positions, which no tally counts, add up to the subtree size |
| `Stats.TalliesWithinSize` | pkg/main.go:302-308 | the tallies are at most `Count`, and `Count` is at least 1 |
| `Stats.ChildDecidedIncluded` | pkg/main.go:229-236 | the decided positions below one child are among those the parent's visit counts |
| `Stats.Score` | pkg/main.go:282-290 | the ratio's numerator is the mover's wins plus draws (even or odd by the child's height), its denominator the sum of the three tallies, and it lies between 0 and 1 |
| `Stats.GreaterIsQuotientOrder` | pkg/main.go:283-285 | with non-zero denominators, the cross-multiplied comparison is the comparison of the quotients |
| `Stats.NaNLike` | pkg/main.go:277-285 | a 0/0 score is neither greater nor smaller than anything, as with a NaN; a proper score beats the start value -1 exactly when its denominator is non-zero |
| `Stats.GreaterAsymmetric` | pkg/main.go:285 | the comparison is irreflexive and asymmetric |
| `Stats.GreaterOvertakes` | pkg/main.go:285-295 | a score greater than the running maximum is greater than every score that was not greater than that maximum |
| `Stats.FirstBestUnique` | pkg/main.go:276-300 | at most one child is the first best, so the choice is determined by the scores |
| `Exploration.ExploredMonotone` | pkg/main.go:215-225 | growing the tree never undoes exploration |
| `Exploration.ExploredHasOutcome` | pkg/main.go:215-225 | in an explored legal tree, every subtree holds at least one decided position |
| `Exploration.ExploredChildScorable` | pkg/main.go:276-290 | below an explored position every child is explored and its score's denominator is non-zero, so `BestMove` never divides 0 by 0 there |
| `GameTree.Winners.constructor` | pkg/main.go:256-260 | the three counters start at 0 |
| `GameTree.Winners.Record` | pkg/main.go:261-272 | visiting a position adds one to the counter of its outcome, and nothing for an open position |
| `GameTree.Tree.constructor` | pkg/main.go:57-66 | `newNode(nil, move)`: the tree is the root alone, with height 0 and no cells; it is well formed and legal |
| `GameTree.Tree.Check` | pkg/main.go:163-179 | true exactly when the moves of the node and its non-root ancestors of the same height parity contain one of the eight lines |
| `GameTree.Tree.HoldsLine` | pkg/main.go:173-178 | true exactly when the mask contains one of the eight lines |
| `GameTree.Tree.IsEnded` | pkg/main.go:310-321 | true exactly when `Check` holds or the board is full; in a well-formed tree, exactly when the node is decided |
| `GameTree.Tree.Set` | pkg/main.go:181-213 | a decided node gives "the game is over" and an occupied cell gives "move not available", both changing nothing; a move already played returns that child and changes nothing; otherwise the tree becomes `Grow(old, n, move)`, the new node is returned, and the tree stays well formed, extended, and legal for a cell move |
| `GameTree.Tree.AddChild` | pkg/main.go:197-211 | the tree becomes `Grow(old, n, move)` with the new child at the old length, and stays well formed and legal |
| `GameTree.Tree.Explore` | pkg/main.go:215-225 | afterwards the node is decided, or each of its nine cells is occupied or has an explored child; the tree only grows, stays well formed and legal, and a decided node changes nothing |
| `GameTree.Tree.PlayCell` | pkg/main.go:217-223 | one round of the loop: at an open node with cell i free, cell i ends up with an explored child; a decided node changes nothing |
| `GameTree.Tree.DepthVisit` | pkg/main.go:229-236 | a pre-order visit adds each outcome count of the subtree to the counters |
| `GameTree.Tree.CountWinners` | pkg/main.go:255-274 | returns a fresh record holding the subtree's NO_WINNER, WIN_ODD and WIN_EVEN counts |
| `GameTree.Tree.Count` | pkg/main.go:302-308 | returns the number of positions in the subtree |
| `GameTree.Tree.BestMove` | pkg/main.go:276-300 | returns the move of the child that is first best: when some child's score is defined, the first child with a defined score that no score exceeds; otherwise the first child |

## Left out

- `Print`, `PrintWinners`, `main` and the printing inside `IsEnded` (pkg/main.go:134-157, 238-253, 310-406) are terminal and keyboard input/output. `IsEnded`'s player name argument only feeds that output.
- The generic `Visitor` type over `interface{}` is left out. `DepthVisit` is modelled with the one visitor that counts outcomes, as `CountWinners` uses it. The printing visitor is output only.
- The float64 division in `BestMove` is left out. Scores are compared as integer pairs by cross-multiplication, so floating-point rounding is not modelled. A 0/0 score is modelled as a NaN: it compares false both ways.
- The `uint` counters of `CountWinners` and Go's `int` in `Count` are unbounded here. No subtree has more than about 550k positions, so neither wraps.
- Go's `*Node` references become indices into one sequence.
  - A `*Node` whose parent link points outside the tree cannot be written in this model.
  - The `nil` check in `DepthVisit` has no counterpart, because every index a method receives is inside the tree.
- Facts about the whole tree (its exact node count, the number of wins) are not proved. Establishing them would mean evaluating the full game tree.
- `GameTree.Tree.Explore`: the contract states that the explored node has every free cell played down to decided positions, that the tree only grows, and that legality is kept. It does not state which nodes the tree holds afterwards, or in which order they were appended.
- `GameTree.Tree.BestMove`: the precondition that the node has children excludes a case the source does not guard. On a childless node the Go code indexes an empty slice (pkg/main.go:299) and panics. `main` can reach this: an out-of-range player index turns into move 0 (pkg/main.go:100, 348), and `Set` then creates an open child without children. The model does not represent the panic.
- `GameTree.Tree.PlayCell`: as for `Explore`, it does not state which nodes the round appends.
