/**
 * The whole generator: random draws become indices, the maze is carved from
 * a random start cell, and the walls still standing are emitted, horizontal
 * ones first and vertical ones after.
 */
module MazeGame {
  import opened Shuffling
  import opened Grid
  import opened Carving
  import opened Walls

  /** The number of columns of the game's maze. */
  const CellsHorizontals: nat := 15

  /** The number of rows of the game's maze. */
  const CellsVerticals: nat := 10

  /** How many draws carving a `rows` x `cols` maze consumes. */
  function DrawsNeeded(rows: nat, cols: nat): nat
  {
    2 + 4 * (rows * cols)
  }

  /**
   * The shuffle indices of the first `cells` visited cells: each cell's four
   * draws become the four indices of one shuffle.
   */
  function CellPicks(draws: seq<real>, cells: nat): (picks: seq<nat>)
    requires ValidDraws(draws) && |draws| >= 4 * cells
    ensures |picks| == 4 * cells
    ensures forall m :: 0 <= m < cells ==> picks[4 * m .. 4 * m + 4] == Picks(draws[4 * m .. 4 * m + 4])
  {
    if cells == 0 then []
    else CellPicks(draws, cells - 1) + Picks(draws[4 * (cells - 1) .. 4 * cells])
  }

  /**
   * The indices the run derives from its draws: the start row and column, then
   * for each visited cell the four indices of its shuffle, whose counters run
   * 4, 3, 2, 1.
   */
  function DrawPicks(draws: seq<real>, rows: nat, cols: nat): (picks: seq<nat>)
    requires rows > 0 && cols > 0
    requires ValidDraws(draws) && |draws| >= DrawsNeeded(rows, cols)
    ensures |picks| == DrawsNeeded(rows, cols)
    ensures RandomFits(picks, rows, cols)
    ensures picks[0] == Pick(draws[0], rows) && picks[1] == Pick(draws[1], cols)
    ensures forall m :: 0 <= m < rows * cols ==>
              ShufflePicks(picks, m) == Picks(draws[2 + 4 * m .. 2 + 4 * m + 4])
  {
    var cells := CellPicks(draws[2..], rows * cols);
    var picks := [Pick(draws[0], rows), Pick(draws[1], cols)] + cells;
    forall m | 0 <= m < rows * cols
      ensures ShufflePicks(picks, m) == Picks(draws[2 + 4 * m .. 2 + 4 * m + 4])
    {
      assert ShufflePicks(picks, m) == cells[4 * m .. 4 * m + 4];
      assert draws[2..][4 * m .. 4 * m + 4] == draws[2 + 4 * m .. 2 + 4 * m + 4];
    }
    picks
  }

  /**
   * Builds the three matrices, carves the maze and emits its walls. The
   * carved openings form a spanning tree from the start cell, and the walls
   * are those of the closed slots: all slots but `rows * cols - 1`.
   */
  method Build(rows: nat, cols: nat, draws: seq<real>, ux: real, uy: real)
    returns (maze: Maze, startRow: nat, startColumn: nat, walls: seq<Wall>)
    requires rows > 0 && cols > 0
    requires ValidDraws(draws) && |draws| >= DrawsNeeded(rows, cols)
    ensures maze.Valid() && maze.rows == rows && maze.cols == cols
    ensures startRow == Pick(draws[0], rows) && startColumn == Pick(draws[1], cols)
    ensures maze.picks == DrawPicks(draws, rows, cols)
    ensures maze.State() == MazeMoving(maze.picks, rows, cols, SearchState({}, {}, {}), Cell(startRow, startColumn))
    ensures maze.visited == AllCells(rows, cols)
    ensures Connected(Cell(startRow, startColumn), maze.openH, maze.openV, rows, cols)
    ensures |maze.openH| + |maze.openV| == rows * cols - 1
    ensures walls == WallsAt(Horizontal, ClosedSlots(maze.horizontals), ux, uy)
                   + WallsAt(Vertical, ClosedSlots(maze.verticals), ux, uy)
    ensures |walls| == (rows - 1) * cols + rows * (cols - 1) - (rows * cols - 1)
    ensures forall k :: 0 <= k < |walls| && walls[k].orientation == Horizontal ==>
              walls[k].width == ux && walls[k].height == Thickness
    ensures forall k :: 0 <= k < |walls| && walls[k].orientation == Vertical ==>
              walls[k].width == Thickness && walls[k].height == uy
  {
    var picks := DrawPicks(draws, rows, cols);
    maze := new Maze(rows, cols, picks);
    startRow, startColumn := maze.Generate();
    walls := EmitMazeWalls(maze, rows, cols, ux, uy);
  }

  /**
   * Emission of a carved maze: the horizontal walls, then the vertical ones,
   * one for each slot the tree left closed.
   */
  method EmitMazeWalls(maze: Maze, rows: nat, cols: nat, ux: real, uy: real) returns (walls: seq<Wall>)
    requires maze.Valid() && maze.rows == rows && maze.cols == cols
    requires |maze.openH| + |maze.openV| == rows * cols - 1
    ensures walls == WallsAt(Horizontal, ClosedSlots(maze.horizontals), ux, uy)
                   + WallsAt(Vertical, ClosedSlots(maze.verticals), ux, uy)
    ensures |walls| == (rows - 1) * cols + rows * (cols - 1) - (rows * cols - 1)
    ensures forall k :: 0 <= k < |walls| && walls[k].orientation == Horizontal ==>
              walls[k].width == ux && walls[k].height == Thickness
    ensures forall k :: 0 <= k < |walls| && walls[k].orientation == Vertical ==>
              walls[k].width == Thickness && walls[k].height == uy
  {
    var horizontalWalls := EmitWalls(maze.horizontals, Horizontal, ux, uy);
    var verticalWalls := EmitWalls(maze.verticals, Vertical, ux, uy);
    walls := horizontalWalls + verticalWalls;
    ClosedSlotsCount(maze.horizontals, maze.openH);
    ClosedSlotsCount(maze.verticals, maze.openV);
    WallCount(rows, cols, |ClosedSlots(maze.horizontals)|, |ClosedSlots(maze.verticals)|, |maze.openH|, |maze.openV|);
  }

  /** Closed slots of both matrices add up to all slots but the tree's openings. */
  lemma WallCount(rows: nat, cols: nat, closedH: nat, closedV: nat, openH: nat, openV: nat)
    requires rows > 0 && cols > 0
    requires closedH == (rows - 1) * cols - openH && closedV == rows * (cols - 1) - openV
    requires openH + openV == rows * cols - 1
    ensures closedH + closedV == (rows - 1) * cols + rows * (cols - 1) - (rows * cols - 1)
  {
  }

  /**
   * The game's maze of 10 rows and 15 columns on a `width` x `height` window:
   * 150 cells, 149 openings, and 126 walls.
   */
  method Setup(width: real, height: real, draws: seq<real>)
    returns (maze: Maze, startRow: nat, startColumn: nat, walls: seq<Wall>)
    requires width > 0.0 && height > 0.0
    requires ValidDraws(draws) && |draws| >= DrawsNeeded(CellsVerticals, CellsHorizontals)
    ensures startRow < CellsVerticals && startColumn < CellsHorizontals
    ensures Connected(Cell(startRow, startColumn), maze.openH, maze.openV, CellsVerticals, CellsHorizontals)
    ensures |walls| == 126
    ensures forall k :: 0 <= k < |walls| && walls[k].orientation == Horizontal ==>
              walls[k].width == width / 15.0 && walls[k].height == 5.0
    ensures forall k :: 0 <= k < |walls| && walls[k].orientation == Vertical ==>
              walls[k].width == 5.0 && walls[k].height == height / 10.0
  {
    var unitLengthX := width / CellsHorizontals as real;
    var unitLengthY := height / CellsVerticals as real;
    maze, startRow, startColumn, walls := Build(CellsVerticals, CellsHorizontals, draws, unitLengthX, unitLengthY);
  }

  /**
   * A 2 x 2 run whose start draws are 0 and whose every shuffle draws 0.8, 0,
   * 0, 0: the search goes right, down, then left, so `verticals[0][0]`,
   * `horizontals[0][1]` and `verticals[1][0]` are opened and the one wall
   * left is the horizontal one under cell (0, 0).
   */
  method BuildTwoByTwo(draws: seq<real>, ux: real, uy: real) returns (maze: Maze, walls: seq<Wall>)
    requires |draws| == 18 && ValidDraws(draws) && draws[0] == 0.0 && draws[1] == 0.0
    requires forall m :: 0 <= m < 4 ==>
               draws[2 + 4 * m] == 0.8 && draws[3 + 4 * m] == 0.0 && draws[4 + 4 * m] == 0.0 && draws[5 + 4 * m] == 0.0
    requires ux > 0.0 && uy > 0.0
    ensures maze.Valid() && maze.rows == 2 && maze.cols == 2
    ensures maze.verticals[0, 0] && maze.horizontals[0, 1] && maze.verticals[1, 0]
    ensures !maze.horizontals[0, 0]
    ensures |walls| == 1 && walls[0] == WallAt(Horizontal, Cell(0, 0), ux, uy)
  {
    TwoByTwoDraws(draws);
    var startRow, startColumn;
    maze, startRow, startColumn, walls := Build(2, 2, draws, ux, uy);
    TwoByTwoMatrices(maze);
    TwoByTwoWall(maze, walls, ux, uy);
  }

  /** The matrices of a 2 x 2 maze carved as in `TwoByTwoRun`. */
  lemma TwoByTwoMatrices(maze: Maze)
    requires maze.Valid() && maze.rows == 2 && maze.cols == 2
    requires maze.State() == SearchState(AllCells(2, 2), {Cell(0, 1)}, {Cell(0, 0), Cell(1, 0)})
    ensures maze.verticals[0, 0] && maze.horizontals[0, 1] && maze.verticals[1, 0]
    ensures !maze.horizontals[0, 0]
  {
    assert Cell(0, 0) in maze.openV && Cell(1, 0) in maze.openV && Cell(0, 1) in maze.openH;
    assert Cell(0, 0) !in maze.openH;
  }

  /** The one wall of such a maze is the closed horizontal slot under cell (0, 0). */
  lemma TwoByTwoWall(maze: Maze, walls: seq<Wall>, ux: real, uy: real)
    requires ux > 0.0 && uy > 0.0
    requires maze.Valid() && maze.rows == 2 && maze.cols == 2 && !maze.horizontals[0, 0]
    requires walls == WallsAt(Horizontal, ClosedSlots(maze.horizontals), ux, uy)
                    + WallsAt(Vertical, ClosedSlots(maze.verticals), ux, uy)
    requires |walls| == 1
    ensures walls[0] == WallAt(Horizontal, Cell(0, 0), ux, uy)
  {
    EmittedWalls(maze.horizontals, Horizontal, ux, uy);
    assert WallAt(Horizontal, Cell(0, 0), ux, uy) in walls;
  }

  /**
   * Draws 0, 0 for the start and 0.8, 0, 0, 0 for every shuffle carve the
   * 2 x 2 maze of `TwoByTwo` from cell (0, 0).
   */
  lemma TwoByTwoDraws(draws: seq<real>)
    requires |draws| == 18 && ValidDraws(draws) && draws[0] == 0.0 && draws[1] == 0.0
    requires forall m :: 0 <= m < 4 ==>
               draws[2 + 4 * m] == 0.8 && draws[3 + 4 * m] == 0.0 && draws[4 + 4 * m] == 0.0 && draws[5 + 4 * m] == 0.0
    ensures Pick(draws[0], 2) == 0 && Pick(draws[1], 2) == 0
    ensures MazeMoving(DrawPicks(draws, 2, 2), 2, 2, SearchState({}, {}, {}), Cell(0, 0))
            == SearchState(AllCells(2, 2), {Cell(0, 1)}, {Cell(0, 0), Cell(1, 0)})
  {
    var picks := DrawPicks(draws, 2, 2);
    forall m | 0 <= m < 4
      ensures VisitPicks(picks, m) == [3, 0, 0, 0]
    {
      GroupPicks(draws, picks, m);
    }
    TwoByTwoRun(picks, 2, 2);
    ZeroPick(2);
  }

  /** A draw of 0 selects the first slot. */
  lemma ZeroPick(counter: nat)
    requires counter > 0
    ensures Pick(0.0, counter) == 0
  {
  }

  /** A group of draws 0.8, 0, 0, 0 becomes the shuffle indices 3, 0, 0, 0. */
  lemma GroupPicks(draws: seq<real>, picks: seq<nat>, m: nat)
    requires ValidDraws(draws) && |draws| >= DrawsNeeded(2, 2) && picks == DrawPicks(draws, 2, 2)
    requires m < 4
    requires draws[2 + 4 * m] == 0.8 && draws[3 + 4 * m] == 0.0 && draws[4 + 4 * m] == 0.0 && draws[5 + 4 * m] == 0.0
    ensures VisitPicks(picks, m) == [3, 0, 0, 0]
  {
    assert draws[2 + 4 * m .. 2 + 4 * m + 4] == [0.8, 0.0, 0.0, 0.0];
    assert Pick(0.8, 4) == 3;
    assert Picks([0.8, 0.0, 0.0, 0.0]) == [3, 0, 0, 0];
  }
}
