# 8-puzzle solver and point order, modelled in Dafny

This project models the core of a sliding-tile puzzle solver and the point
type of a collinear-points program.

* **Board** (`board.dfy`, module `Boards`, with grid helpers in `grids.dfy`).
  A board is an immutable n-by-n grid of integers with 0 as the blank. It has
  these operations:
  * the constructor, which copies the grid and records the blank position;
  * `dimension` (`Board.Dimension`);
  * the Hamming and Manhattan heuristics;
  * the goal test;
  * structural equality;
  * neighbour generation (the blank moves up, down, left or right);
  * the deterministic `twin` swap.
* **Solver** (`solver.dfy`, module `Solvers`). This is an A* search. Search
  nodes link back to their predecessor. The `MinPQ` priority queue is a
  multiset of nodes, and removing a minimum is a nondeterministic choice
  among the nodes of least priority. `solveStep` is one pop-and-expand
  step. The constructor runs the initial board's search and its twin's
  search in lockstep. The accessors are `isSolvable`, `moves` and
  `solution`.
* **Point** (`point.dfy`, module `Points`). This part covers `compareTo`,
  which orders points by y and then by x, and the case split of `slopeTo`.

Java's `int` operators are written out in `javaint.dfy`:
* truncating `/` and `%`;
* `Integer.compare`;
* 32-bit wrap-around, which is used for the differences inside `slopeTo`.

`wrappers.dfy` supplies `Option` and `Result`. `Option` models a reference
that may be null. `Result` models a call that may throw.

The model follows the code as written:

* The board constructor does not validate its grid. It copies the first n
  entries of each of the n rows. A row shorter than n makes the copy fail
  with an index error (`NewBoard` returns `Failure`). The blank is the
  **last** zero cell in row-major order, because the scan overwrites the
  position at each zero. With no zero, the position stays at (0, 0).
* `twin` of a board smaller than 2-by-2 indexes past the board's edge. The
  solver's constructor propagates that error (`TwinOutOfBounds`).
* `twin(twin(b)) == b` holds for every board of size at least 2, so it is
  proved (`TwinInvolution`).
* `manhattan() >= hamming()` holds for every board, not only permutations, as long as the Manhattan sum fits in an `int` (see the overflow line under "## Left out").
  So does `manhattan() == 0` exactly when `hamming() == 0`. Both use the
  truncating division the code performs.

## Model

| member | source | states |
|---|---|---|
| Boards.NewBoard | 8puzzle/src/Board.java:15-27 | succeeds exactly when no row is shorter than the row count; the result is square, holds the grid's cells, and its blank fields name the last zero cell |
| Boards.FromTiles | 8puzzle/src/Board.java:15-27 | the constructor applied to a square array (every `new Board(newTiles)` of the code): the board keeps the array and its blank fields name the last zero cell |
| Boards.Board.Dimension | 8puzzle/src/Board.java:51-53 | `dimension()` is the number of rows, n |
| Boards.NewBoardRoundTrip | 8puzzle/src/Board.java:15-27 | building a board from a board's own tiles gives back an equal board |
| Grids.LastZeroSpec | 8puzzle/src/Board.java:18-26 | the recorded blank is a zero cell with no zero after it in row-major order, or (0, 0) when there is no zero |
| Grids.ScanRowsSpec | 8puzzle/src/Board.java:18-26 | scanning rows i onward returns the previous position if they hold no zero, else their last zero cell |
| Grids.LastZeroOfUnique | 8puzzle/src/Board.java:18-26 | with exactly one zero, the recorded blank is that cell |
| Boards.Hamming | 8puzzle/src/Board.java:61-71 | the count, over all cells, of non-blank cells (i, j) not holding i*n+j+1; its bounds and goal characterisation are `HammingBounds` and `GoalIffInPlace` |
| Boards.HammingBounds | 8puzzle/src/Board.java:61-71 | the Hamming distance is between 0 and the number of non-blank cells |
| Boards.IsGoal | 8puzzle/src/Board.java:100-102 | `isGoal()` is `hamming() == 0`; `GoalIffInPlace` and `GoalIffManhattanZero` characterise it |
| Boards.GoalIffInPlace | 8puzzle/src/Board.java:100-102 | `isGoal` holds exactly when every non-blank cell (i, j) holds i*n+j+1 |
| Boards.Manhattan | 8puzzle/src/Board.java:80-92 | the sum over non-blank cells of the city-block distance to the goal cell ((v-1)/n, (v-1)%n) with truncating division; `TileDistanceOf` and `ManhattanVersusHamming` relate it to the goal and to Hamming |
| Boards.TileDistanceOf | 8puzzle/src/Board.java:84-87 | tile q*n+r+1 has goal cell (q, r) under Java's truncating division, so its distance is the city-block distance to that cell |
| JavaInt.DivRem | 8puzzle/src/Board.java:85-86 | Java's truncating `/` and `%` recompose the dividend; the remainder is smaller than the divisor in magnitude and has the dividend's sign |
| Boards.TileDistanceZero | 8puzzle/src/Board.java:84-87 | a non-blank tile contributes 0 to the Manhattan distance exactly when it is in place |
| Boards.ManhattanVersusHamming | 8puzzle/src/Board.java:80-92 | Manhattan is at least Hamming, and the two are zero together |
| Boards.GoalIffManhattanZero | 8puzzle/src/Board.java:80-102 | `isGoal` holds exactly when the Manhattan distance is 0 |
| Boards.Equals | 8puzzle/src/Board.java:110-115 | equal exactly when the dimensions match and every cell matches, which for constructed boards is value equality |
| Boards.LegalMoves | 8puzzle/src/Board.java:126-130 | contains exactly the directions whose target cell is on the board, in the order up, down, left, right |
| Boards.Slide | 8puzzle/src/Board.java:128-133 | a move exchanges the blank with the adjacent cell, changes nothing else, and keeps the dimension |
| Boards.SlideValues | 8puzzle/src/Board.java:128-133 | a move keeps the multiset of tile values |
| Boards.Neighbors | 8puzzle/src/Board.java:124-137 | one board per legal move, in move order, each the board with the blank exchanged with an adjacent cell and nothing else changed |
| Boards.NeighborsAreMoves | 8puzzle/src/Board.java:124-137 | every legal move is a neighbour and every neighbour is a legal move |
| Boards.NeighborsKeepValues | 8puzzle/src/Board.java:124-137 | every neighbour holds the same multiset of values as the board |
| Boards.NeighborCount | 8puzzle/src/Board.java:126-130 | the neighbour count is 4 less one per board edge the blank touches: 2 in a corner, 3 on an edge, 4 inside |
| Boards.SlideMovesBlank | 8puzzle/src/Board.java:128-133 | with a single blank, the blank moves to the target cell, stays single, and the opposite move restores the board |
| Grids.Swap | 8puzzle/src/Board.java:155-159 | the two cells are exchanged and every other cell is unchanged |
| Grids.SwapValues | 8puzzle/src/Board.java:144-159 | copying and swapping keeps the multiset of tile values |
| Grids.SwapBack | 8puzzle/src/Board.java:155-159 | swapping the same two cells back restores the grid |
| Boards.Twin | 8puzzle/src/Board.java:166-174 | fails exactly for boards smaller than 2-by-2; otherwise exchanges the first two cells of row 0 or row 1, keeping the values |
| Boards.TwinInvolution | 8puzzle/src/Board.java:166-174 | the twin of the twin is the original board |
| Boards.TwinOfOneBlank | 8puzzle/src/Board.java:166-174 | with a single blank, both exchanged cells are tiles, the blank stays put, only those two cells change, and with distinct values both do change |
| Boards.SampleBoard | 8puzzle/src/Board.java:178-196 | the unit-test board has Hamming 5, Manhattan 10, is not the goal, and has 4 neighbours |
| Solvers.NewNode | 8puzzle/src/Solver.java:16-25 | a node's priority is its moves plus its board's Manhattan distance, fixed when it is made |
| Solvers.Priority | 8puzzle/src/Solver.java:23-25 | `priority()` is moves plus the stored Manhattan distance, which `NewNode` fixes to the board's |
| Solvers.CompareNodes | 8puzzle/src/Solver.java:27-30 | `compareTo` is `Integer.compare` of the two priorities; `CompareNodesOrder` states the resulting order |
| Solvers.CompareNodesOrder | 8puzzle/src/Solver.java:27-30 | nodes compare by priority alone: a -1/0/1 sign that is antisymmetric and transitive |
| Solvers.MinExists | 8puzzle/src/Solver.java:67-67 | a non-empty queue has a node of least priority for `delMin` to return |
| Solvers.ExpandSpec | 8puzzle/src/Solver.java:73-77 | every pushed node is a neighbour that differs from the predecessor's board, one move further and linked to the expanded node, and every such neighbour's node is pushed |
| Solvers.ExpandCount | 8puzzle/src/Solver.java:73-77 | each kept neighbour's node is pushed exactly as many times as that board occurs among the neighbours |
| Solvers.SuccessorsSpec | 8puzzle/src/Solver.java:73-78 | an expansion adds, for each neighbour that differs from the predecessor's board, one node per occurrence of that neighbour and nothing else, each with moves+1, the expanded node as predecessor, and the board's Manhattan distance |
| Solvers.SolveStep | 8puzzle/src/Solver.java:64-79 | an empty queue gives no goal and is unchanged; otherwise a minimum is removed, returned with the rest untouched if it is a goal, else replaced by its successors |
| Solvers.StepKeepsRooted | 8puzzle/src/Solver.java:73-78 | removing a queued node and adding its successors keeps every queued node's chain rooted at the seed |
| Solvers.RootedStep | 8puzzle/src/Solver.java:64-79 | a step keeps the invariant (moves equal chain length, chain ends at the seeded root, each board a neighbour of its predecessor's); a goal it returns satisfies it |
| Solvers.Seed | 8puzzle/src/Solver.java:43-47 | each queue starts with exactly one zero-move root with no predecessor: the initial board and its twin |
| Solvers.PathOfRooted | 8puzzle/src/Solver.java:106-117 | the predecessor chain, root first, has moves+1 boards, starts at the root, and consecutive boards are neighbours |
| Solvers.NewSolver | 8puzzle/src/Solver.java:38-56 | no board gives `IllegalArgument` before any search; otherwise a goal state found by the primary search is rooted at the initial board, an unsolvable verdict means the twin search reached a goal, and a goal board solves itself in one step |
| Solvers.IsSolvable | 8puzzle/src/Solver.java:87-89 | `isSolvable()` holds exactly when a goal state was recorded |
| Solvers.Moves | 8puzzle/src/Solver.java:97-99 | `moves()` is the goal node's move count, or -1 without one; `MovesSign` states its sign |
| Solvers.MovesSign | 8puzzle/src/Solver.java:97-99 | `moves()` is -1 exactly when unsolvable and non-negative otherwise |
| Solvers.SolutionOfValid | 8puzzle/src/Solver.java:106-117 | the goal's chain has moves+1 boards, runs from the initial board, ends at a goal, and moves one step at a time |
| Solvers.Solution | 8puzzle/src/Solver.java:106-117 | null exactly when unsolvable; otherwise exactly the goal node's predecessor chain, root first (`Path` of the goal node): moves+1 boards from the initial board to a goal board, consecutive boards being neighbours |
| Solvers.Path | 8puzzle/src/Solver.java:109-114 | the boards along the predecessor links, root first, ending at the node's own board; `PathOfRooted` and `WalkBack` relate it to the search and to the stack loop |
| Solvers.WalkBack | 8puzzle/src/Solver.java:109-114 | pushing the boards while following predecessors lists them root first |
| Points.CompareTo | CollinearPoints/src/Point.java:77-89 | -1 exactly when y0<y1 or (y0==y1 and x0<x1), 0 exactly for the same point, 1 exactly in the reverse case |
| Points.CompareToIsLexicographic | CollinearPoints/src/Point.java:66-69 | the comparison is the lexicographic order on (y, x) |
| Points.CompareToAntisymmetric | CollinearPoints/src/Point.java:77-89 | exchanging the points negates the result |
| Points.LessIsStrictTotalOrder | CollinearPoints/src/Point.java:77-89 | "compares below" is irreflexive, asymmetric, transitive and total on distinct points |
| Points.SlopeTo | CollinearPoints/src/Point.java:48-63 | negative infinity exactly for the same point, +0.0 exactly for horizontal, positive infinity exactly for vertical, else a quotient of two non-zero differences |
| Points.SlopeSymmetric | CollinearPoints/src/Point.java:48-63 | the reverse slope falls in the same case and, without overflow, is the same quotient; negative infinity exactly when the comparison says equal |

## Left out

- `main` in Board, Solver and Point: file input, printing and drawing are I/O.
- `Board.toString`, `Point.toString`, `Point.draw` and `Point.drawTo` are presentation only.
- `Point.slopeOrder` and the value of `slopeTo`: these are floating-point division and `Double.compare`.
- `BruteCollinearPoints` and `FastCollinearPoints`: they rely on exact equality of double slopes, a library sort and a `LineSegment` type that is not part of this model.
- `MinPQ` and `Stack` internals are library code. The queue is a multiset with a nondeterministic choice among least-priority nodes, so ties are unspecified. The stack is a sequence with the top first.
- Solvers.NewSolver: the `while (true)` loop is bounded by a `fuel` count and returns `OutOfFuel` when it runs out. That outcome does not exist in the source. Three results are neither assumed nor proved: that exactly one of a board and its twin is solvable, that the search terminates, and that `moves()` is minimal.
- Solvers.Solution: does not state that the path is a shortest one, because A* optimality is not modelled.
- Results that need the search to run to completion are not modelled, because they depend on optimality and termination. One such result is the minimal move count of the unit-test board. The goal board solving in zero moves is modelled, in `NewSolver`.
- `Board.equals` with null, a non-`Board` argument, or the same reference: the model compares two boards only.
- Null grids and null rows are not modelled, because sequences cannot be null.
- 32-bit overflow in the Manhattan sum and in `moves + manhattan` is not modelled. The Manhattan sum grows like n³, so it can wrap on a valid permutation from about 1291-by-1291 boards on. An example is the blank at (0, 0) and tile n² − (i·n + j) at every other cell, whose sum is 2,151,681,300. On such boards `manhattan()` turns negative, `manhattan() >= hamming()` fails for the program, and priorities are wrong. The model computes in unbounded integers. Overflow in `i * n + j + 1` and in the Hamming count needs boards wider than 46340. Overflow in `Math.abs` needs tile values near the `int` limits. The subtractions in `slopeTo` are modelled with wrap-around.
- Grid validation (a permutation of 0..n²-1 with exactly one blank) is not modelled, because the constructor does not perform it. Lemmas that need a single blank or distinct tiles take it as a hypothesis.
