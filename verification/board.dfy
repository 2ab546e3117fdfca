/** The sliding-tile board: an immutable n-by-n grid of tiles in which 0 is
    the blank, with its two distance heuristics, the goal test, structural
    equality, blank moves and the parity-flipping twin. */
module Boards {
  import opened Wrappers
  import opened JavaInt
  import opened Grids

  /** A board value. `blankRow`/`blankCol` are the fields the constructor
      fills in while copying the tiles. */
  datatype Board = Board(tiles: Grid, blankRow: nat, blankCol: nat) {

    function Dimension(): nat
    {
      |tiles|
    }

    /** What the constructor establishes: the tiles are square and the blank
        fields name the last zero cell in row-major order. */
    predicate Wf()
    {
      Square(tiles) && (blankRow, blankCol) == LastZero(tiles)
    }
  }

  /** The constructor and `twin` index past the end of a row that is too short. */
  datatype BoardError = IndexOutOfBounds

  /** The constructor applied to an n-by-n array. */
  function FromTiles(t: Grid): (b: Board)
    requires Square(t)
    ensures b.Wf() && b.tiles == t
  {
    var p := LastZero(t);
    Board(t, p.0, p.1)
  }

  /** `new Board(tiles)`: n is the number of rows; the first n entries of
      each row are copied, and a row shorter than n makes the copy loop fail. */
  function NewBoard(grid: Grid): (r: Result<Board, BoardError>)
    ensures r.Success? <==> forall i :: 0 <= i < |grid| ==> |grid[i]| >= |grid|
    ensures r.Success? ==> r.value.Wf() && r.value.Dimension() == |grid|
    ensures r.Success? ==>
              forall i, j :: 0 <= i < |grid| && 0 <= j < |grid| ==> r.value.tiles[i][j] == grid[i][j]
  {
    var n := |grid|;
    if exists i :: 0 <= i < n && |grid[i]| < n then Failure(IndexOutOfBounds)
    else Success(FromTiles(seq(n, i requires 0 <= i < n => grid[i][..n])))
  }

  /** A well-formed board is the one its own tiles construct. */
  lemma FromOwnTiles(b: Board)
    requires b.Wf()
    ensures FromTiles(b.tiles) == b
  {
  }

  /** Rebuilding a board from its own tiles gives the same board. */
  lemma NewBoardRoundTrip(b: Board)
    requires b.Wf()
    ensures NewBoard(b.tiles) == Success(b)
  {
    var n := b.Dimension();
    var copy := seq(n, i requires 0 <= i < n => b.tiles[i][..n]);
    assert copy == b.tiles by {
      forall i | 0 <= i < n
        ensures copy[i] == b.tiles[i]
      {
        assert b.tiles[i][..n] == b.tiles[i];
      }
    }
  }

  // ---------------------------------------------------------------------
  // Heuristics and the goal test

  /** Tile v belongs at cell (i, j) of an n-by-n goal board. */
  predicate InPlace(n: int, i: int, j: int, v: int)
  {
    v == i * n + j + 1
  }

  /** One per non-blank tile that is not at its goal cell. */
  function HammingTerm(n: int): CellFn
  {
    (i, j, v) => if v != 0 && !InPlace(n, i, j, v) then 1 else 0
  }

  /** One per non-blank cell. */
  function NonBlankTerm(): CellFn
  {
    (i, j, v) => if v != 0 then 1 else 0
  }

  /** City-block distance of tile v at (i, j) from its goal cell
      ((v-1)/n, (v-1)%n) with Java's truncating operators; the blank
      contributes nothing. (A board with n == 0 has no cells.) */
  function TileDistance(n: int, i: int, j: int, v: int): nat
  {
    if v == 0 || n <= 0 then 0
    else Abs(i - Div(v - 1, n)) + Abs(j - Rem(v - 1, n))
  }

  function ManhattanTerm(n: int): CellFn
  {
    (i, j, v) => TileDistance(n, i, j, v)
  }

  /** `hamming()`: the number of tiles out of place. */
  function Hamming(b: Board): int
  {
    CellSum(b.tiles, HammingTerm(b.Dimension()))
  }

  /** `manhattan()`: the sum of the tiles' distances from their goal cells. */
  function Manhattan(b: Board): int
  {
    CellSum(b.tiles, ManhattanTerm(b.Dimension()))
  }

  function NonBlankCount(b: Board): int
  {
    CellSum(b.tiles, NonBlankTerm())
  }

  /** `isGoal()`. */
  predicate IsGoal(b: Board)
  {
    Hamming(b) == 0
  }

  /** Every non-blank cell (i, j) holds i*n + j + 1. */
  ghost predicate TilesInPlace(b: Board)
  {
    forall i, j :: InGrid(b.tiles, i, j) && b.tiles[i][j] != 0 ==>
      InPlace(b.Dimension(), i, j, b.tiles[i][j])
  }

  /** The Hamming distance counts only non-blank cells. */
  lemma HammingBounds(b: Board)
    ensures 0 <= Hamming(b) <= NonBlankCount(b)
  {
    var n := b.Dimension();
    CellSumZero(b.tiles, HammingTerm(n));
    CellSumMono(b.tiles, HammingTerm(n), NonBlankTerm());
  }

  /** The goal test holds exactly when every tile is at its goal cell. */
  lemma GoalIffInPlace(b: Board)
    ensures IsGoal(b) <==> TilesInPlace(b)
  {
    var n := b.Dimension();
    CellSumZero(b.tiles, HammingTerm(n));
    if IsGoal(b) {
      forall i, j | InGrid(b.tiles, i, j) && b.tiles[i][j] != 0
        ensures InPlace(n, i, j, b.tiles[i][j])
      {
        assert HammingTerm(n)(i, j, b.tiles[i][j]) == 0;
      }
    }
  }

  /** Tile q*n + r + 1 belongs at (q, r), and its distance from (i, j) is
      the city-block distance between the two cells. */
  lemma TileDistanceOf(n: int, i: int, j: int, q: int, r: int)
    requires n > 0 && q >= 0 && 0 <= r < n
    ensures TileDistance(n, i, j, q * n + r + 1) == Abs(i - q) + Abs(j - r)
  {
    DivRemOfRowMajor(q, r, n);
  }

  /** A non-blank tile is at distance 0 exactly when it is in place. */
  lemma TileDistanceZero(n: int, i: int, j: int, v: int)
    requires n > 0 && i >= 0 && 0 <= j < n && v != 0
    ensures TileDistance(n, i, j, v) == 0 <==> InPlace(n, i, j, v)
  {
    if InPlace(n, i, j, v) {
      assert v - 1 == i * n + j;
      DivRemOfRowMajor(i, j, n);
    } else {
      // distance 0 would put the tile at (Div, Rem), which recompose v - 1
      DivRem(v - 1, n);
    }
  }

  /** Each misplaced tile is at least one step from its goal, so the
      Manhattan distance bounds the Hamming distance, and both vanish
      together; this holds for any tile values, not only permutations, in
      unbounded arithmetic (Java's `int` sum wraps on very large boards). */
  lemma ManhattanVersusHamming(b: Board)
    requires b.Wf()
    ensures Hamming(b) <= Manhattan(b)
    ensures Manhattan(b) == 0 <==> Hamming(b) == 0
  {
    var t, n := b.tiles, b.Dimension();
    forall i, j | InGrid(t, i, j)
      ensures HammingTerm(n)(i, j, t[i][j]) <= ManhattanTerm(n)(i, j, t[i][j])
      ensures HammingTerm(n)(i, j, t[i][j]) == 0 <==> ManhattanTerm(n)(i, j, t[i][j]) == 0
    {
      if t[i][j] != 0 {
        TileDistanceZero(n, i, j, t[i][j]);
      }
    }
    CellSumMono(t, HammingTerm(n), ManhattanTerm(n));
    CellSumZero(t, HammingTerm(n));
    CellSumZero(t, ManhattanTerm(n));
  }

  /** The goal test through the Manhattan distance. */
  lemma GoalIffManhattanZero(b: Board)
    requires b.Wf()
    ensures IsGoal(b) <==> Manhattan(b) == 0
  {
    ManhattanVersusHamming(b);
  }

  // ---------------------------------------------------------------------
  // Equality

  /** `equals`: the same dimension and the same tile in every cell. */
  function Equals(a: Board, b: Board): (r: bool)
    requires a.Wf() && b.Wf()
    ensures r <==> a.Dimension() == b.Dimension() &&
                   forall i, j :: 0 <= i < a.Dimension() && 0 <= j < a.Dimension() ==>
                     a.tiles[i][j] == b.tiles[i][j]
    ensures r <==> a == b
  {
    SameCells(a.tiles, b.tiles);
    a.Dimension() == b.Dimension() && a.tiles == b.tiles
  }

  /** Square grids of one size with the same cells are the same grid. */
  lemma SameCells(s: Grid, t: Grid)
    requires Square(s) && Square(t)
    ensures s == t <==>
              |s| == |t| && forall i, j :: 0 <= i < |s| && 0 <= j < |s| ==> s[i][j] == t[i][j]
  {
    if |s| == |t| && forall i, j :: 0 <= i < |s| && 0 <= j < |s| ==> s[i][j] == t[i][j] {
      forall i | 0 <= i < |s|
        ensures s[i] == t[i]
      {
        assert |s[i]| == |t[i]|;
      }
    }
  }

  // ---------------------------------------------------------------------
  // Neighbours: sliding a tile into the blank

  datatype Direction = Up | Down | Left | Right {

    /** Position in the order the moves are tried. */
    function Rank(): nat
    {
      match this
      case Up => 0
      case Down => 1
      case Left => 2
      case Right => 3
    }

    function DRow(): int
    {
      match this
      case Up => -1
      case Down => 1
      case _ => 0
    }

    function DCol(): int
    {
      match this
      case Left => -1
      case Right => 1
      case _ => 0
    }

    function Opposite(): Direction
    {
      match this
      case Up => Down
      case Down => Up
      case Left => Right
      case Right => Left
    }
  }

  /** The cell next to the blank in direction d is on the board. */
  predicate CanMove(b: Board, d: Direction)
  {
    && 0 <= b.blankRow + d.DRow() < b.Dimension()
    && 0 <= b.blankCol + d.DCol() < b.Dimension()
  }

  /** The directions the blank can move in, in the order up, down, left, right. */
  function LegalMoves(b: Board): (ds: seq<Direction>)
    ensures forall d :: d in ds <==> CanMove(b, d)
    ensures forall k, l :: 0 <= k < l < |ds| ==> ds[k].Rank() < ds[l].Rank()
  {
    (if CanMove(b, Up) then [Up] else []) +
    (if CanMove(b, Down) then [Down] else []) +
    (if CanMove(b, Left) then [Left] else []) +
    (if CanMove(b, Right) then [Right] else [])
  }

  /** The board after exchanging the blank with its neighbour in direction d. */
  function Slide(b: Board, d: Direction): (c: Board)
    requires b.Wf() && CanMove(b, d)
    ensures c.Wf() && c.Dimension() == b.Dimension()
    ensures InGrid(b.tiles, b.blankRow, b.blankCol)
    ensures IsSwapOf(c.tiles, b.tiles, b.blankRow, b.blankCol,
                     b.blankRow + d.DRow(), b.blankCol + d.DCol())
  {
    LastZeroInGrid(b.tiles);
    var r, c := b.blankRow + d.DRow(), b.blankCol + d.DCol();
    FromTiles(Swap(b.tiles, b.blankRow, b.blankCol, r, c))
  }

  /** A slide keeps the multiset of tile values. */
  lemma SlideValues(b: Board, d: Direction)
    requires b.Wf() && CanMove(b, d)
    ensures Values(Slide(b, d).tiles) == Values(b.tiles)
  {
    LastZeroInGrid(b.tiles);
    var r, c := b.blankRow + d.DRow(), b.blankCol + d.DCol();
    var s := Swap(b.tiles, b.blankRow, b.blankCol, r, c);
    assert Slide(b, d).tiles == s by {
      SlideIs(b, d);
    }
    SwapValues(b.tiles, b.blankRow, b.blankCol, r, c);
  }

  /** `neighbors()`: one board per legal blank move, in move order; each is
      the board with the blank and one orthogonally adjacent cell exchanged,
      and nothing else changed. */
  function Neighbors(b: Board): (r: seq<Board>)
    requires b.Wf()
    ensures |r| == |LegalMoves(b)|
    ensures forall k :: 0 <= k < |r| ==> IsMove(b, r[k], LegalMoves(b)[k])
  {
    var ds := LegalMoves(b);
    seq(|ds|, k requires 0 <= k < |ds| => Slide(b, ds[k]))
  }

  /** c is b after a legal move of the blank in direction d: the blank and
      the adjacent cell exchanged, nothing else changed. */
  ghost predicate IsMove(b: Board, c: Board, d: Direction)
    requires b.Wf()
  {
    && CanMove(b, d)
    && InGrid(b.tiles, b.blankRow, b.blankCol)
    && c.Wf() && c.Dimension() == b.Dimension()
    && IsSwapOf(c.tiles, b.tiles, b.blankRow, b.blankCol,
                b.blankRow + d.DRow(), b.blankCol + d.DCol())
  }

  /** Every legal move appears among the neighbours, and nothing else does. */
  lemma NeighborsAreMoves(b: Board)
    requires b.Wf()
    ensures forall d :: CanMove(b, d) ==> Slide(b, d) in Neighbors(b)
    ensures forall c :: c in Neighbors(b) <==> exists d :: CanMove(b, d) && c == Slide(b, d)
  {
    var ds, r := LegalMoves(b), Neighbors(b);
    forall d | CanMove(b, d)
      ensures Slide(b, d) in r
    {
      var k :| 0 <= k < |ds| && ds[k] == d;
      assert r[k] == Slide(b, d);
    }
  }

  /** Every neighbour holds the same multiset of values as the board. */
  lemma NeighborsKeepValues(b: Board)
    requires b.Wf()
    ensures forall c :: c in Neighbors(b) ==> Values(c.tiles) == Values(b.tiles)
  {
    NeighborsAreMoves(b);
    forall c | c in Neighbors(b)
      ensures Values(c.tiles) == Values(b.tiles)
    {
      var d :| CanMove(b, d) && c == Slide(b, d);
      SlideValues(b, d);
    }
  }

  /** Number of the coordinate's board edges: 1 on an edge row or column of
      a board of size at least 2, 0 in the inside. */
  function EdgeCount(n: int, x: int): nat
  {
    (if x == 0 then 1 else 0) + (if x == n - 1 then 1 else 0)
  }

  /** The blank has four neighbours, less one per board edge it touches:
      two in a corner, three on an edge, four inside. */
  lemma NeighborCount(b: Board)
    requires b.Wf() && b.Dimension() >= 2
    ensures |Neighbors(b)| == 4 - EdgeCount(b.Dimension(), b.blankRow) - EdgeCount(b.Dimension(), b.blankCol)
    ensures var n, r, c := b.Dimension(), b.blankRow, b.blankCol;
            && ((r == 0 || r == n - 1) && (c == 0 || c == n - 1) ==> |Neighbors(b)| == 2)
            && ((0 < r < n - 1) != (0 < c < n - 1) ==> |Neighbors(b)| == 3)
            && (0 < r < n - 1 && 0 < c < n - 1 ==> |Neighbors(b)| == 4)
  {
    LastZeroInGrid(b.tiles);
  }

  /** The blank is the one and only zero cell. */
  ghost predicate OneBlank(b: Board)
  {
    && InGrid(b.tiles, b.blankRow, b.blankCol)
    && forall i, j :: InGrid(b.tiles, i, j) ==>
         (b.tiles[i][j] == 0 <==> i == b.blankRow && j == b.blankCol)
  }

  /** With a single blank, a slide moves the blank to the neighbour cell, and
      sliding back in the opposite direction restores the board. */
  lemma SlideMovesBlank(b: Board, d: Direction)
    requires b.Wf() && OneBlank(b) && CanMove(b, d)
    ensures var c := Slide(b, d);
            && c.blankRow == b.blankRow + d.DRow() && c.blankCol == b.blankCol + d.DCol()
            && OneBlank(c)
            && CanMove(c, d.Opposite())
            && Slide(c, d.Opposite()) == b
  {
    SlideKeepsOneBlank(b, d);
    SlideUndo(b, d);
  }

  /** With a single blank, the slid board's single blank is the target cell. */
  lemma SlideKeepsOneBlank(b: Board, d: Direction)
    requires b.Wf() && OneBlank(b) && CanMove(b, d)
    ensures var c := Slide(b, d);
            && c.blankRow == b.blankRow + d.DRow() && c.blankCol == b.blankCol + d.DCol()
            && OneBlank(c)
  {
    var t, br, bc := b.tiles, b.blankRow, b.blankCol;
    var r, k := br + d.DRow(), bc + d.DCol();
    var s := Slide(b, d).tiles;
    assert (r, k) != (br, bc);
    forall i, j | InGrid(s, i, j)
      ensures s[i][j] == 0 <==> i == r && j == k
    {
      assert InGrid(t, i, j);
    }
    LastZeroOfUnique(s, r, k);
  }

  /** Once the blank has moved to the target cell, sliding it back in the
      opposite direction restores the board. */
  lemma SlideUndo(b: Board, d: Direction)
    requires b.Wf() && CanMove(b, d)
    requires Slide(b, d).blankRow == b.blankRow + d.DRow()
    requires Slide(b, d).blankCol == b.blankCol + d.DCol()
    ensures var c := Slide(b, d);
            && CanMove(c, d.Opposite())
            && Slide(c, d.Opposite()) == b
  {
    var c := Slide(b, d);
    SlideIs(b, d);
    SwapUndo(b, c, d);
    SlideIs(c, d.Opposite());
  }

  /** The board-level core of undoing a slide, stated without `Slide`: if c
      holds b's tiles with the blank and the target exchanged, and its blank
      is the target, exchanging back gives b. */
  lemma SwapUndo(b: Board, c: Board, d: Direction)
    requires b.Wf() && c.Wf() && CanMove(b, d) && InGrid(b.tiles, b.blankRow, b.blankCol)
    requires c.blankRow == b.blankRow + d.DRow() && c.blankCol == b.blankCol + d.DCol()
    requires c.tiles == Swap(b.tiles, b.blankRow, b.blankCol, c.blankRow, c.blankCol)
    ensures CanMove(c, d.Opposite())
    ensures FromTiles(Swap(c.tiles, c.blankRow, c.blankCol,
                           c.blankRow + d.Opposite().DRow(), c.blankCol + d.Opposite().DCol())) == b
  {
    LastZeroInGrid(b.tiles);
    SwapBack(b.tiles, b.blankRow, b.blankCol, c.blankRow, c.blankCol);
    FromOwnTiles(b);
  }

  /** A slide is the constructor applied to the swapped tiles. */
  lemma SlideIs(b: Board, d: Direction)
    requires b.Wf() && CanMove(b, d)
    ensures Slide(b, d) == FromTiles(Swap(b.tiles, b.blankRow, b.blankCol,
                                          b.blankRow + d.DRow(), b.blankCol + d.DCol()))
  {
  }

  // ---------------------------------------------------------------------
  // The twin

  /** The row whose first two cells `twin` exchanges: row 0 when both of its
      first cells hold tiles, row 1 otherwise. */
  function TwinRow(b: Board): nat
    requires b.Wf() && b.Dimension() >= 2
  {
    if b.tiles[0][0] != 0 && b.tiles[0][1] != 0 then 0 else 1
  }

  /** `twin()`: exchanges (0,0) and (0,1) when both hold tiles, otherwise
      (1,0) and (1,1); a board smaller than 2-by-2 has no such cells. */
  function Twin(b: Board): (r: Result<Board, BoardError>)
    requires b.Wf()
    ensures r.Success? <==> b.Dimension() >= 2
    ensures r.Success? ==> r.value.Wf() && r.value.Dimension() == b.Dimension()
    ensures r.Success? ==> Values(r.value.tiles) == Values(b.tiles)
    ensures r.Success? ==> IsSwapOf(r.value.tiles, b.tiles, TwinRow(b), 0, TwinRow(b), 1)
  {
    if b.Dimension() < 2 then Failure(IndexOutOfBounds)
    else
      var k := TwinRow(b);
      SwapValues(b.tiles, k, 0, k, 1);
      Success(FromTiles(Swap(b.tiles, k, 0, k, 1)))
  }

  /** Twinning twice gives the board back: the branch test reads row 0,
      which the first twin either leaves alone or only permutes. */
  lemma TwinInvolution(b: Board)
    requires b.Wf() && b.Dimension() >= 2
    ensures Twin(b).Success? && Twin(Twin(b).value) == Success(b)
  {
    var k := TwinRow(b);
    var c := Twin(b).value;
    assert c.tiles == Swap(b.tiles, k, 0, k, 1);
    if k == 0 {
      assert c.tiles[0][0] == b.tiles[0][1] && c.tiles[0][1] == b.tiles[0][0];
    } else {
      assert c.tiles[0][0] == b.tiles[0][0] && c.tiles[0][1] == b.tiles[0][1];
    }
    assert TwinRow(c) == k;
    SwapBack(b.tiles, k, 0, k, 1);
    SwapSymmetric(c.tiles, k, 0, k, 1);
    assert Twin(c).value == FromTiles(b.tiles);
  }

  /** All cells hold different values. */
  ghost predicate Distinct(b: Board)
  {
    forall i, j, i', j' ::
      InGrid(b.tiles, i, j) && InGrid(b.tiles, i', j') && b.tiles[i][j] == b.tiles[i'][j'] ==>
        i == i' && j == j'
  }

  /** With a single blank, the twin exchanges two tiles (never the blank),
      keeps the blank where it was, and changes no other cell; on a board of
      distinct values it differs from the original in exactly those two cells. */
  lemma TwinOfOneBlank(b: Board)
    requires b.Wf() && b.Dimension() >= 2 && OneBlank(b)
    ensures var k, c := TwinRow(b), Twin(b).value;
            && b.tiles[k][0] != 0 && b.tiles[k][1] != 0
            && c.blankRow == b.blankRow && c.blankCol == b.blankCol
            && OneBlank(c)
            && c.tiles[k][0] == b.tiles[k][1] && c.tiles[k][1] == b.tiles[k][0]
            && (forall i, j :: InGrid(b.tiles, i, j) && c.tiles[i][j] != b.tiles[i][j] ==>
                  i == k && (j == 0 || j == 1))
            && (Distinct(b) ==> c.tiles[k][0] != b.tiles[k][0] && c.tiles[k][1] != b.tiles[k][1])
  {
    var k, c := TwinRow(b), Twin(b).value;
    assert b.tiles[k][0] != 0 && b.tiles[k][1] != 0;
    assert c.tiles[b.blankRow][b.blankCol] == 0;
    LastZeroOfUnique(c.tiles, b.blankRow, b.blankCol);
  }

  // ---------------------------------------------------------------------
  // The board of the unit test

  /** The grid of the unit test, {{8,1,3},{4,0,2},{7,6,5}}. */
  function SampleGrid(): Grid
  {
    [[8, 1, 3], [4, 0, 2], [7, 6, 5]]
  }

  /** The unit test's board: Hamming 5, Manhattan 10, not the goal, blank in
      the centre and so four neighbours. */
  lemma SampleBoard()
    ensures NewBoard(SampleGrid()).Success?
    ensures var b := NewBoard(SampleGrid()).value;
            && b.blankRow == 1 && b.blankCol == 1
            && Hamming(b) == 5 && Manhattan(b) == 10 && !IsGoal(b)
            && |Neighbors(b)| == 4
  {
    var g := SampleGrid();
    assert Square(g);
    var b := FromTiles(g);
    NewBoardRoundTrip(b);
    assert LastZero(g) == (1, 1) by {
      LastZeroOfUnique(g, 1, 1);
    }
    NeighborCount(b);
    SampleHamming();
    SampleManhattan();
  }

  lemma SampleHamming()
    ensures CellSum(SampleGrid(), HammingTerm(3)) == 5
  {
    var g, f := SampleGrid(), HammingTerm(3);
    assert RowSum(g, f, 0, 3) == 2;
    assert RowSum(g, f, 1, 3) == 1;
    assert RowSum(g, f, 2, 3) == 2;
    assert RowsSum(g, f, 3) == 5;
  }

  lemma SampleManhattan()
    ensures CellSum(SampleGrid(), ManhattanTerm(3)) == 10
  {
    var g, f := SampleGrid(), ManhattanTerm(3);
    SampleRow0();
    SampleRow1();
    SampleRow2();
    assert RowsSum(g, f, 3) == 10;
  }

  lemma SampleRow0()
    ensures RowSum(SampleGrid(), ManhattanTerm(3), 0, 3) == 4
  {
    var g, f := SampleGrid(), ManhattanTerm(3);
    TileDistanceOf(3, 0, 0, 2, 1);
    assert f(0, 0, g[0][0]) == 3;
    TileDistanceOf(3, 0, 1, 0, 0);
    assert f(0, 1, g[0][1]) == 1;
    TileDistanceOf(3, 0, 2, 0, 2);
    assert f(0, 2, g[0][2]) == 0;
  }

  lemma SampleRow1()
    ensures RowSum(SampleGrid(), ManhattanTerm(3), 1, 3) == 2
  {
    TileDistanceOf(3, 1, 0, 1, 0);
    TileDistanceOf(3, 1, 2, 0, 1);
  }

  lemma SampleRow2()
    ensures RowSum(SampleGrid(), ManhattanTerm(3), 2, 3) == 4
  {
    TileDistanceOf(3, 2, 0, 2, 0);
    TileDistanceOf(3, 2, 1, 1, 2);
    TileDistanceOf(3, 2, 2, 1, 1);
  }
}
