/**
 * The maze carver: a visited matrix `grid` (rows x cols), the vertical
 * openings `verticals` (rows x (cols - 1)) and the horizontal openings
 * `horizontals` ((rows - 1) x cols), and the randomised depth-first search
 * `Visit` that removes walls.
 *
 * Ghost state mirrors the matrices as sets of cells (`visited`, `openV`,
 * `openH`, named as in module Grid) and records the tree the search builds
 * (`root`, `parent`, `depth`), which is what lets the contracts speak of
 * coverage and of a spanning tree.
 */
module Carving {
  import opened Grid
  import opened Shuffling

  datatype Direction = Up | Right | Down | Left

  /** A candidate neighbor `[nextRow, nextColumn, direction]`. */
  datatype Neighbor = Neighbor(nextRow: int, nextColumn: int, direction: Direction)

  function Target(n: Neighbor): Cell
  {
    Cell(n.nextRow, n.nextColumn)
  }

  /** The four candidates of cell (row, column), in the order they are listed. */
  function Candidates(row: int, column: int): (ns: seq<Neighbor>)
    ensures |ns| == 4
  {
    [ Neighbor(row - 1, column, Up),
      Neighbor(row, column + 1, Right),
      Neighbor(row + 1, column, Down),
      Neighbor(row, column - 1, Left) ]
  }

  /** Each of the four neighbors of a cell is the target of one of its candidates. */
  lemma NeighborIsCandidate(row: int, column: int, n: Cell)
    requires Adjacent(Cell(row, column), n)
    ensures exists nb :: nb in Candidates(row, column) && Target(nb) == n
  {
    var ns := Candidates(row, column);
    if n == Cell(row - 1, column) {
      assert Target(ns[0]) == n;
    } else if n == Cell(row, column + 1) {
      assert Target(ns[1]) == n;
    } else if n == Cell(row + 1, column) {
      assert Target(ns[2]) == n;
    } else {
      assert Target(ns[3]) == n;
    }
  }

  /** The direction label of a candidate says where its cell lies. */
  lemma CandidateDirection(row: int, column: int, nb: Neighbor)
    requires nb in Candidates(row, column)
    ensures nb.direction == Up ==> Target(nb) == Cell(row - 1, column)
    ensures nb.direction == Right ==> Target(nb) == Cell(row, column + 1)
    ensures nb.direction == Down ==> Target(nb) == Cell(row + 1, column)
    ensures nb.direction == Left ==> Target(nb) == Cell(row, column - 1)
  {
  }

  /** A rearrangement of the candidates of (row, column) holds exactly the candidates. */
  lemma RearrangedCandidates(row: int, column: int, order: seq<Neighbor>)
    requires multiset(order) == multiset(Candidates(row, column))
    ensures forall nb :: nb in order <==> nb in Candidates(row, column)
  {
  }

  /** Shuffling the candidates of (row, column) yields each candidate, and only candidates. */
  lemma ShuffledCandidatesAreCandidates(row: int, column: int, p: seq<nat>)
    requires |p| == 4 && ValidPicks(p)
    ensures var order := Shuffled(Candidates(row, column), p);
            && |order| == 4
            && (forall nb :: nb in order <==> nb in Candidates(row, column))
  {
    ShuffledPermutes(Candidates(row, column), p);
    RearrangedCandidates(row, column, Shuffled(Candidates(row, column), p));
  }

  /**
   * A cell is settled once the target of each of its candidates that lies in
   * the grid is in `s`, the candidates taken in any order.
   */
  lemma CandidatesSettle(here: Cell, order: seq<Neighbor>, s: set<Cell>, rows: nat, cols: nat)
    requires forall nb :: nb in order <==> nb in Candidates(here.row, here.col)
    requires forall k :: 0 <= k < |order| && InGrid(Target(order[k]), rows, cols) ==> Target(order[k]) in s
    ensures Settled(here, s, rows, cols)
  {
    assert Neighbor(here.row - 1, here.col, Up) in order;
    assert Neighbor(here.row, here.col + 1, Right) in order;
    assert Neighbor(here.row + 1, here.col, Down) in order;
    assert Neighbor(here.row, here.col - 1, Left) in order;
  }

  /**
   * The four candidates of (row, column) in a fresh array, shuffled with the
   * four indices `p`.
   */
  method ShuffledCandidates(row: int, column: int, p: seq<nat>) returns (neighbors: array<Neighbor>)
    requires |p| == 4 && ValidPicks(p)
    ensures fresh(neighbors)
    ensures neighbors[..] == Shuffled(Candidates(row, column), p)
    ensures forall nb :: nb in neighbors[..] <==> nb in Candidates(row, column)
  {
    neighbors := new Neighbor[] [
      Neighbor(row - 1, column, Up),
      Neighbor(row, column + 1, Right),
      Neighbor(row + 1, column, Down),
      Neighbor(row, column - 1, Left)];
    assert neighbors[..] == Candidates(row, column);
    neighbors := Shuffle(neighbors, p);
    ShuffledCandidatesAreCandidates(row, column, p);
  }

  /** The four indices that shuffle the candidates of the m-th cell visited. */
  function ShufflePicks(picks: seq<nat>, m: nat): seq<nat>
    requires 2 + 4 * m + 4 <= |picks|
  {
    picks[2 + 4 * m .. 2 + 4 * m + 4]
  }

  /**
   * Indices fit a `rows` x `cols` maze when the first two pick the start row
   * and column and each later group of four is fit for shuffling the four
   * candidates of one cell.
   */
  predicate RandomFits(picks: seq<nat>, rows: nat, cols: nat)
  {
    && |picks| >= 2 + 4 * (rows * cols)
    && picks[0] < rows && picks[1] < cols
    && forall m :: 0 <= m < rows * cols ==> ValidPicks(ShufflePicks(picks, m))
  }

  /**
   * What `mazeMoving` reads and writes, as values: the visited cells and the
   * opened slots of `horizontals` and `verticals`.
   */
  datatype SearchState = SearchState(visited: set<Cell>, openH: set<Cell>, openV: set<Cell>)

  /**
   * The four indices that shuffle the candidates of the m-th cell visited.
   * When the indices fit the maze they are `ShufflePicks(picks, m)` (see
   * `VisitPicksFit`); the zeros only keep the function total.
   */
  function VisitPicks(picks: seq<nat>, m: nat): (p: seq<nat>)
    ensures |p| == 4 && ValidPicks(p)
  {
    if 2 + 4 * m + 4 <= |picks| && ValidPicks(ShufflePicks(picks, m)) then ShufflePicks(picks, m)
    else [0, 0, 0, 0]
  }

  lemma VisitPicksFit(picks: seq<nat>, rows: nat, cols: nat, m: nat)
    requires RandomFits(picks, rows, cols) && m < rows * cols
    ensures VisitPicks(picks, m) == picks[2 + 4 * m .. 2 + 4 * m + 4]
  {
  }

  /**
   * `mazeMoving(cell.row, cell.col)` on values: a visited cell is left alone;
   * otherwise it is marked, the next four indices shuffle its candidates, and
   * the loop over them runs in the shuffled order.
   */
  ghost function MazeMoving(picks: seq<nat>, rows: nat, cols: nat, s: SearchState, cell: Cell): (r: SearchState)
    requires InGrid(cell, rows, cols)
    ensures s.visited + {cell} <= r.visited
    decreases AllCells(rows, cols) - s.visited, 0, 0
  {
    if cell in s.visited then s
    else
      assert cell in AllCells(rows, cols);
      var order := Shuffled(Candidates(cell.row, cell.col), VisitPicks(picks, |s.visited|));
      NeighborLoop(picks, rows, cols, SearchState(s.visited + {cell}, s.openH, s.openV), cell, order, 0)
  }

  /** On an unvisited cell, `mazeMoving` marks it and runs the loop over its shuffled candidates. */
  lemma MazeMovingUnvisited(picks: seq<nat>, rows: nat, cols: nat, s: SearchState, cell: Cell)
    requires InGrid(cell, rows, cols) && cell !in s.visited
    ensures MazeMoving(picks, rows, cols, s, cell)
            == NeighborLoop(picks, rows, cols, SearchState(s.visited + {cell}, s.openH, s.openV), cell,
                            Shuffled(Candidates(cell.row, cell.col), VisitPicks(picks, |s.visited|)), 0)
  {
  }

  /** The loop of `mazeMoving` over the candidates `order` of `here`, from the i-th one on. */
  ghost function NeighborLoop(picks: seq<nat>, rows: nat, cols: nat, s: SearchState,
                              here: Cell, order: seq<Neighbor>, i: nat): (r: SearchState)
    requires i <= |order|
    ensures s.visited <= r.visited
    decreases AllCells(rows, cols) - s.visited, 2, |order| - i
  {
    if i == |order| then s
    else NeighborLoop(picks, rows, cols, NeighborStep(picks, rows, cols, s, here, order[i]), here, order, i + 1)
  }

  /** One more iteration of the loop. */
  lemma NeighborLoopStep(picks: seq<nat>, rows: nat, cols: nat, s: SearchState,
                         here: Cell, order: seq<Neighbor>, i: nat)
    requires i < |order|
    ensures NeighborLoop(picks, rows, cols, s, here, order, i)
            == NeighborLoop(picks, rows, cols, NeighborStep(picks, rows, cols, s, here, order[i]), here, order, i + 1)
  {
  }

  /** The loop visits the target of every candidate from the i-th on that lies in the grid. */
  lemma {:induction false} LoopVisitsTargets(picks: seq<nat>, rows: nat, cols: nat, s: SearchState,
                                             here: Cell, order: seq<Neighbor>, i: nat)
    requires i <= |order|
    ensures forall k :: i <= k < |order| && InGrid(Target(order[k]), rows, cols) ==>
              Target(order[k]) in NeighborLoop(picks, rows, cols, s, here, order, i).visited
    decreases |order| - i
  {
    if i < |order| {
      var next := NeighborStep(picks, rows, cols, s, here, order[i]);
      LoopVisitsTargets(picks, rows, cols, next, here, order, i + 1);
    }
  }

  /**
   * One iteration of that loop: a candidate outside the grid or already
   * visited is skipped; otherwise the wall to it is removed and it is visited.
   */
  ghost function NeighborStep(picks: seq<nat>, rows: nat, cols: nat, s: SearchState,
                              here: Cell, nb: Neighbor): (r: SearchState)
    ensures s.visited <= r.visited
    ensures !InGrid(Target(nb), rows, cols) || Target(nb) in s.visited ==> r == s
    ensures InGrid(Target(nb), rows, cols) ==> Target(nb) in r.visited
    decreases AllCells(rows, cols) - s.visited, 1, 0
  {
    var next := Target(nb);
    if !InGrid(next, rows, cols) || next in s.visited then s
    else
      var carved := SearchState(s.visited, OpenedH(s.openH, here, next), OpenedV(s.openV, here, next));
      MazeMoving(picks, rows, cols, carved, next)
  }

  /**
   * Candidates from the i-th up to the j-th that lie outside the grid or are
   * already visited leave the loop's state as it is.
   */
  lemma {:induction false} LoopSkips(picks: seq<nat>, rows: nat, cols: nat, s: SearchState,
                                     here: Cell, order: seq<Neighbor>, i: nat, j: nat)
    requires i <= j <= |order|
    requires forall k :: i <= k < j ==> !InGrid(Target(order[k]), rows, cols) || Target(order[k]) in s.visited
    ensures NeighborLoop(picks, rows, cols, s, here, order, i) == NeighborLoop(picks, rows, cols, s, here, order, j)
    decreases j - i
  {
    if i < j {
      NeighborLoopStep(picks, rows, cols, s, here, order, i);
      LoopSkips(picks, rows, cols, s, here, order, i + 1, j);
    }
  }

  /**
   * The indices 3, 0, 0, 0 exchange the last candidate with itself, then the
   * third with the first, then the second with the first: the order becomes
   * right, down, up, left.
   */
  lemma ShuffledRightFirst(row: int, column: int)
    ensures Shuffled(Candidates(row, column), [3, 0, 0, 0])
            == [Neighbor(row, column + 1, Right), Neighbor(row + 1, column, Down),
                Neighbor(row - 1, column, Up), Neighbor(row, column - 1, Left)]
  {
    var p := [3, 0, 0, 0];
    var s := Candidates(row, column);
    var up, right, down, left := s[0], s[1], s[2], s[3];
    assert Swap(s, 3, 3) == s;
    assert Swap(s, 2, 0) == [down, right, up, left];
    assert Swap([down, right, up, left], 1, 0) == [right, down, up, left];
    assert Swap([right, down, up, left], 0, 0) == [right, down, up, left];
    calc {
      Shuffled(s, p);
      ShuffleFrom(s, p, 4);
      ShuffleFrom(Swap(s, 3, 3), p, 3);
      ShuffleFrom([down, right, up, left], p, 2);
      ShuffleFrom([right, down, up, left], p, 1);
      ShuffleFrom([right, down, up, left], p, 0);
    }
  }

  /**
   * A 2 x 2 maze carved from cell (0, 0) when every shuffle draws the indices
   * 3, 0, 0, 0: the search goes right to (0, 1), down to (1, 1) and left to
   * (1, 0), opening `verticals[0][0]`, `horizontals[0][1]` and
   * `verticals[1][0]`.
   */
  lemma TwoByTwo()
    ensures MazeMoving([0, 0, 3, 0, 0, 0, 3, 0, 0, 0, 3, 0, 0, 0, 3, 0, 0, 0], 2, 2, SearchState({}, {}, {}), Cell(0, 0))
            == SearchState(AllCells(2, 2), {Cell(0, 1)}, {Cell(0, 0), Cell(1, 0)})
  {
    var p := [0, 0, 3, 0, 0, 0, 3, 0, 0, 0, 3, 0, 0, 0, 3, 0, 0, 0];
    forall m | 0 <= m < 4
      ensures VisitPicks(p, m) == [3, 0, 0, 0]
    {
      assert ShufflePicks(p, m) == [3, 0, 0, 0];
    }
    TwoByTwoRun(p, 2, 2);
  }

  /** The run of `TwoByTwo`, for any indices whose four shuffles all use 3, 0, 0, 0. */
  lemma TwoByTwoRun(p: seq<nat>, rows: nat, cols: nat)
    requires rows == 2 && cols == 2
    requires forall m :: 0 <= m < 4 ==> VisitPicks(p, m) == [3, 0, 0, 0]
    ensures MazeMoving(p, rows, cols, SearchState({}, {}, {}), Cell(0, 0))
            == SearchState(AllCells(rows, cols), {Cell(0, 1)}, {Cell(0, 0), Cell(1, 0)})
  {
    var done := SearchState({Cell(0, 0), Cell(0, 1), Cell(1, 1), Cell(1, 0)}, {Cell(0, 1)}, {Cell(0, 0), Cell(1, 0)});
    assert done.visited == AllCells(rows, cols) by {
      forall x | x in AllCells(rows, cols) ensures x in done.visited {
      }
    }
    TwoByTwoLast(p, rows, cols, done);
    TwoByTwoThird(p, rows, cols, done);
    TwoByTwoSecond(p, rows, cols, done);
    TwoByTwoFirst(p, rows, cols, done);
  }

  /** (1, 0), visited fourth: every candidate is visited or outside the grid. */
  lemma TwoByTwoLast(p: seq<nat>, rows: nat, cols: nat, done: SearchState)
    requires rows == 2 && cols == 2 && VisitPicks(p, 3) == [3, 0, 0, 0]
    requires done == SearchState({Cell(0, 0), Cell(0, 1), Cell(1, 1), Cell(1, 0)}, {Cell(0, 1)}, {Cell(0, 0), Cell(1, 0)})
    ensures MazeMoving(p, rows, cols, SearchState({Cell(0, 0), Cell(0, 1), Cell(1, 1)}, {Cell(0, 1)}, {Cell(0, 0), Cell(1, 0)}), Cell(1, 0))
            == done
  {
    var before := SearchState({Cell(0, 0), Cell(0, 1), Cell(1, 1)}, {Cell(0, 1)}, {Cell(0, 0), Cell(1, 0)});
    ShuffledRightFirst(1, 0);
    var order := Shuffled(Candidates(1, 0), VisitPicks(p, 3));
    MazeMovingUnvisited(p, rows, cols, before, Cell(1, 0));
    assert before.visited + {Cell(1, 0)} == done.visited;
    LoopSkips(p, rows, cols, done, Cell(1, 0), order, 0, 4);
  }

  /** (1, 1), visited third: right and down leave the grid, up is visited, left carves (1, 0). */
  lemma TwoByTwoThird(p: seq<nat>, rows: nat, cols: nat, done: SearchState)
    requires rows == 2 && cols == 2 && VisitPicks(p, 2) == [3, 0, 0, 0]
    requires done == SearchState({Cell(0, 0), Cell(0, 1), Cell(1, 1), Cell(1, 0)}, {Cell(0, 1)}, {Cell(0, 0), Cell(1, 0)})
    requires MazeMoving(p, rows, cols, SearchState({Cell(0, 0), Cell(0, 1), Cell(1, 1)}, {Cell(0, 1)}, {Cell(0, 0), Cell(1, 0)}), Cell(1, 0))
             == done
    ensures MazeMoving(p, rows, cols, SearchState({Cell(0, 0), Cell(0, 1)}, {Cell(0, 1)}, {Cell(0, 0)}), Cell(1, 1)) == done
  {
    var before := SearchState({Cell(0, 0), Cell(0, 1)}, {Cell(0, 1)}, {Cell(0, 0)});
    var at := SearchState({Cell(0, 0), Cell(0, 1), Cell(1, 1)}, {Cell(0, 1)}, {Cell(0, 0)});
    ShuffledRightFirst(1, 1);
    var order := Shuffled(Candidates(1, 1), VisitPicks(p, 2));
    MazeMovingUnvisited(p, rows, cols, before, Cell(1, 1));
    assert before.visited + {Cell(1, 1)} == at.visited;
    LoopSkips(p, rows, cols, at, Cell(1, 1), order, 0, 3);
    NeighborLoopStep(p, rows, cols, at, Cell(1, 1), order, 3);
    assert OpenedV(at.openV, Cell(1, 1), Cell(1, 0)) == {Cell(0, 0), Cell(1, 0)};
    assert NeighborStep(p, rows, cols, at, Cell(1, 1), order[3]) == done;
  }

  /** (0, 1), visited second: right leaves the grid, down carves (1, 1), up and left are settled. */
  lemma TwoByTwoSecond(p: seq<nat>, rows: nat, cols: nat, done: SearchState)
    requires rows == 2 && cols == 2 && VisitPicks(p, 1) == [3, 0, 0, 0]
    requires done == SearchState({Cell(0, 0), Cell(0, 1), Cell(1, 1), Cell(1, 0)}, {Cell(0, 1)}, {Cell(0, 0), Cell(1, 0)})
    requires MazeMoving(p, rows, cols, SearchState({Cell(0, 0), Cell(0, 1)}, {Cell(0, 1)}, {Cell(0, 0)}), Cell(1, 1)) == done
    ensures MazeMoving(p, rows, cols, SearchState({Cell(0, 0)}, {}, {Cell(0, 0)}), Cell(0, 1)) == done
  {
    var before := SearchState({Cell(0, 0)}, {}, {Cell(0, 0)});
    var at := SearchState({Cell(0, 0), Cell(0, 1)}, {}, {Cell(0, 0)});
    ShuffledRightFirst(0, 1);
    var order := Shuffled(Candidates(0, 1), VisitPicks(p, 1));
    MazeMovingUnvisited(p, rows, cols, before, Cell(0, 1));
    assert before.visited + {Cell(0, 1)} == at.visited;
    LoopSkips(p, rows, cols, at, Cell(0, 1), order, 0, 1);
    NeighborLoopStep(p, rows, cols, at, Cell(0, 1), order, 1);
    assert OpenedH(at.openH, Cell(0, 1), Cell(1, 1)) == {Cell(0, 1)};
    assert NeighborStep(p, rows, cols, at, Cell(0, 1), order[1]) == done;
    LoopSkips(p, rows, cols, done, Cell(0, 1), order, 2, 4);
  }

  /** (0, 0), the start: right carves (0, 1); the other candidates are then settled. */
  lemma TwoByTwoFirst(p: seq<nat>, rows: nat, cols: nat, done: SearchState)
    requires rows == 2 && cols == 2 && VisitPicks(p, 0) == [3, 0, 0, 0]
    requires done == SearchState({Cell(0, 0), Cell(0, 1), Cell(1, 1), Cell(1, 0)}, {Cell(0, 1)}, {Cell(0, 0), Cell(1, 0)})
    requires MazeMoving(p, rows, cols, SearchState({Cell(0, 0)}, {}, {Cell(0, 0)}), Cell(0, 1)) == done
    ensures MazeMoving(p, rows, cols, SearchState({}, {}, {}), Cell(0, 0)) == done
  {
    var at := SearchState({Cell(0, 0)}, {}, {});
    ShuffledRightFirst(0, 0);
    var order := Shuffled(Candidates(0, 0), VisitPicks(p, 0));
    MazeMovingUnvisited(p, rows, cols, SearchState({}, {}, {}), Cell(0, 0));
    assert {} + {Cell(0, 0)} == at.visited;
    NeighborLoopStep(p, rows, cols, at, Cell(0, 0), order, 0);
    assert OpenedV(at.openV, Cell(0, 0), Cell(0, 1)) == {Cell(0, 0)};
    assert NeighborStep(p, rows, cols, at, Cell(0, 0), order[0]) == done;
    LoopSkips(p, rows, cols, done, Cell(0, 0), order, 1, 4);
  }

  class Maze {
    const rows: nat
    const cols: nat
    const grid: array2<bool>
    const verticals: array2<bool>
    const horizontals: array2<bool>

    /** The injected random indices, and how many of them have been used. */
    const picks: seq<nat>
    var used: nat

    ghost var visited: set<Cell>
    ghost var openH: set<Cell>
    ghost var openV: set<Cell>
    ghost var root: Cell
    ghost var parent: map<Cell, Cell>
    ghost var depth: map<Cell, nat>

    /** The matrices have their shapes and agree with the ghost sets. */
    ghost predicate Valid()
      reads this`visited, this`openH, this`openV, grid, verticals, horizontals
    {
      && rows > 0 && cols > 0
      && grid.Length0 == rows && grid.Length1 == cols
      && verticals.Length0 == rows && verticals.Length1 == cols - 1
      && horizontals.Length0 == rows - 1 && horizontals.Length1 == cols
      && grid != verticals && grid != horizontals && verticals != horizontals
      && RandomFits(picks, rows, cols)
      && (forall x {:trigger x in visited} :: x in visited ==> InGrid(x, rows, cols))
      && (forall r, c {:trigger grid[r, c]} :: 0 <= r < rows && 0 <= c < cols ==>
            (grid[r, c] <==> Cell(r, c) in visited))
      && (forall x {:trigger x in openV} :: x in openV ==> InGrid(x, rows, cols - 1))
      && (forall r, c {:trigger verticals[r, c]} :: 0 <= r < rows && 0 <= c < cols - 1 ==>
            (verticals[r, c] <==> Cell(r, c) in openV))
      && (forall x {:trigger x in openH} :: x in openH ==> InGrid(x, rows - 1, cols))
      && (forall r, c {:trigger horizontals[r, c]} :: 0 <= r < rows - 1 && 0 <= c < cols ==>
            (horizontals[r, c] <==> Cell(r, c) in openH))
    }

    /**
     * Between two steps of the search: the matrices agree with the ghost
     * sets, the openings form a tree over exactly the visited cells, and four
     * indices have been used per visited cell after the two of the start.
     */
    ghost predicate Searching()
      reads this, grid, verticals, horizontals
    {
      && Valid() && CarvedTree(root, parent, depth, openH, openV)
      && depth.Keys == visited && used == 2 + 4 * |visited|
    }

    /** The search state as values. */
    ghost function State(): SearchState
      reads this
    {
      SearchState(visited, openH, openV)
    }

    /** Nothing visited, nothing opened, no draw used. */
    ghost predicate Blank()
      reads this
    {
      used == 0 && visited == {} && openH == {} && openV == {}
    }

    /** The three matrices, every entry `false`. */
    constructor (rows: nat, cols: nat, picks: seq<nat>)
      requires rows > 0 && cols > 0
      requires RandomFits(picks, rows, cols)
      ensures Valid() && Blank()
      ensures this.rows == rows && this.cols == cols && this.picks == picks
      ensures fresh(grid) && fresh(verticals) && fresh(horizontals)
      ensures forall r, c :: 0 <= r < rows && 0 <= c < cols ==> !grid[r, c]
      ensures forall r, c :: 0 <= r < rows && 0 <= c < cols - 1 ==> !verticals[r, c]
      ensures forall r, c :: 0 <= r < rows - 1 && 0 <= c < cols ==> !horizontals[r, c]
    {
      this.rows := rows;
      this.cols := cols;
      this.picks := picks;
      grid := new bool[rows, cols]((_, _) => false);
      verticals := new bool[rows, cols - 1]((_, _) => false);
      horizontals := new bool[rows - 1, cols]((_, _) => false);
      used := 0;
      visited, openH, openV := {}, {}, {};
      root, parent, depth := Cell(0, 0), map[], map[];
    }

    /** Marks an unvisited cell as visited. */
    method Mark(here: Cell)
      requires Valid() && InGrid(here, rows, cols) && here !in visited
      modifies this`visited, grid
      ensures Valid() && visited == old(visited) + {here}
      ensures |visited| == |old(visited)| + 1
    {
      grid[here.row, here.col] := true;
      visited := visited + {here};
    }

    /** Sets the vertical-opening entry of slot `c`. */
    method OpenVertical(c: Cell)
      requires Valid() && InGrid(c, rows, cols - 1)
      modifies this`openV, verticals
      ensures Valid() && openV == old(openV) + {c}
    {
      verticals[c.row, c.col] := true;
      openV := openV + {c};
    }

    /** Sets the horizontal-opening entry of slot `c`. */
    method OpenHorizontal(c: Cell)
      requires Valid() && InGrid(c, rows - 1, cols)
      modifies this`openH, horizontals
      ensures Valid() && openH == old(openH) + {c}
    {
      horizontals[c.row, c.col] := true;
      openH := openH + {c};
    }

    /**
     * Removes the wall between cell `here` and its in-grid candidate `nb`,
     * choosing the matrix entry by the direction label.
     */
    method RemoveWall(here: Cell, nb: Neighbor)
      requires Valid() && InGrid(here, rows, cols)
      requires nb in Candidates(here.row, here.col) && InGrid(Target(nb), rows, cols)
      modifies this`openH, this`openV, verticals, horizontals
      ensures Valid()
      ensures openH == OpenedH(old(openH), here, Target(nb))
      ensures openV == OpenedV(old(openV), here, Target(nb))
    {
      var row, column := here.row, here.col;
      CandidateDirection(row, column, nb);
      if nb.direction == Left {
        OpenVertical(Cell(row, column - 1));
      } else if nb.direction == Right {
        OpenVertical(Cell(row, column));
      } else if nb.direction == Up {
        OpenHorizontal(Cell(row - 1, column));
      } else if nb.direction == Down {
        OpenHorizontal(Cell(row, column));
      }
    }

    /**
     * Opens the wall from the visited cell `here` to its unvisited in-grid
     * candidate `nb` and records `here` as the parent of the candidate's cell
     * in the carved tree.
     */
    method Carve(here: Cell, nb: Neighbor)
      requires Valid() && CarvedTree(root, parent, depth, openH, openV)
      requires here in visited && depth.Keys == visited
      requires nb in Candidates(here.row, here.col)
      requires InGrid(Target(nb), rows, cols) && Target(nb) !in visited
      modifies this`openH, this`openV, this`parent, this`depth, verticals, horizontals
      ensures Valid() && CarvedTree(root, parent, depth, openH, openV)
      ensures depth.Keys == visited + {Target(nb)}
      ensures openH == OpenedH(old(openH), here, Target(nb)) && openV == OpenedV(old(openV), here, Target(nb))
      ensures old(openH) <= openH && old(openV) <= openV
      ensures Passage(here, Target(nb), openH, openV)
    {
      var next := Target(nb);
      CandidateDirection(here.row, here.col, nb);
      ghost var parent', depth', openH', openV' := CarveStep(root, parent, depth, openH, openV, here, next);
      RemoveWall(here, nb);
      assert openH == openH' && openV == openV';
      parent, depth := parent', depth';
    }

    /**
     * `mazeMoving(row, column)`. A visited cell is left alone. Otherwise the
     * cell is marked, its candidates are shuffled with the next four random
     * indices, and each candidate is explored in the shuffled order.
     */
    method Visit(row: int, column: int)
      requires Valid() && CarvedTree(root, parent, depth, openH, openV)
      requires InGrid(Cell(row, column), rows, cols)
      requires depth.Keys == visited + {Cell(row, column)}
      requires used == 2 + 4 * |visited|
      modifies this, grid, verticals, horizontals
      ensures Searching() && root == old(root)
      ensures State() == MazeMoving(picks, rows, cols, old(State()), Cell(row, column))
      ensures Cell(row, column) in visited
      // entries only ever go from false to true
      ensures old(visited) <= visited && old(openH) <= openH && old(openV) <= openV
      ensures forall r, c {:trigger grid[r, c]} ::
                0 <= r < rows && 0 <= c < cols && old(grid[r, c]) ==> grid[r, c]
      ensures forall r, c {:trigger verticals[r, c]} ::
                0 <= r < rows && 0 <= c < cols - 1 && old(verticals[r, c]) ==> verticals[r, c]
      ensures forall r, c {:trigger horizontals[r, c]} ::
                0 <= r < rows - 1 && 0 <= c < cols && old(horizontals[r, c]) ==> horizontals[r, c]
      // every cell this call visits ends with all its in-grid neighbors visited
      ensures forall c {:trigger Settled(c, visited, rows, cols)} ::
                c in visited - old(visited) ==> Settled(c, visited, rows, cols)
      ensures Cell(row, column) in old(visited) ==> unchanged(this, grid, verticals, horizontals)
      decreases AllCells(rows, cols) - visited, 0
    {
      if grid[row, column] {
        assert Cell(row, column) in visited;
        return;
      }
      var here := Cell(row, column);
      MazeMovingUnvisited(picks, rows, cols, State(), here);
      var neighbors := MarkAndShuffle(here);
      VisitNeighbors(here, neighbors);
    }

    /**
     * The start of `mazeMoving` on an unvisited cell: the cell is marked and
     * its candidates are shuffled with the next four random indices.
     */
    method MarkAndShuffle(here: Cell) returns (neighbors: array<Neighbor>)
      requires Valid() && CarvedTree(root, parent, depth, openH, openV)
      requires InGrid(here, rows, cols) && here !in visited
      requires depth.Keys == visited + {here} && used == 2 + 4 * |visited|
      modifies this`visited, this`used, grid
      ensures Searching() && here in visited
      ensures State() == SearchState(old(visited) + {here}, openH, openV)
      ensures fresh(neighbors)
      ensures neighbors[..] == Shuffled(Candidates(here.row, here.col), VisitPicks(picks, |old(visited)|))
      ensures forall nb :: nb in neighbors[..] <==> nb in Candidates(here.row, here.col)
    {
      ghost var m := |visited|;
      InGridBound(visited + {here}, rows, cols);
      VisitPicksFit(picks, rows, cols, m);
      Mark(here);
      var p := picks[used..used + 4];
      assert p == VisitPicks(picks, m);
      used := used + 4;
      assert Searching();
      neighbors := ShuffledCandidates(here.row, here.col, p);
    }

    /**
     * The loop of `mazeMoving` over the shuffled candidates of the visited
     * cell `here`: each is explored in turn, and afterwards every in-grid
     * neighbor of `here` is visited.
     */
    method VisitNeighbors(here: Cell, neighbors: array<Neighbor>)
      requires Searching() && here in visited
      requires forall nb :: nb in neighbors[..] <==> nb in Candidates(here.row, here.col)
      modifies this, grid, verticals, horizontals
      ensures Searching() && root == old(root)
      ensures old(visited) <= visited && old(openH) <= openH && old(openV) <= openV
      ensures forall c {:trigger Settled(c, visited, rows, cols)} ::
                c in visited - old(visited) ==> Settled(c, visited, rows, cols)
      ensures State() == NeighborLoop(picks, rows, cols, old(State()), here, neighbors[..], 0)
      ensures Settled(here, visited, rows, cols)
      decreases AllCells(rows, cols) - visited, 2
    {
      ghost var order := neighbors[..];
      ghost var result := NeighborLoop(picks, rows, cols, State(), here, order, 0);
      for i := 0 to neighbors.Length
        invariant Searching() && root == old(root)
        invariant NeighborLoop(picks, rows, cols, State(), here, order, i) == result
        invariant old(visited) <= visited && old(openH) <= openH && old(openV) <= openV
        invariant forall c {:trigger Settled(c, visited, rows, cols)} ::
                    c in visited - old(visited) ==> Settled(c, visited, rows, cols)
      {
        ghost var before := visited;
        ghost var prior := State();
        Explore(here, neighbors[i]);
        SettledGrows(before, visited, rows, cols);
        NeighborLoopStep(picks, rows, cols, prior, here, order, i);
      }
      LoopVisitsTargets(picks, rows, cols, old(State()), here, order, 0);
      CandidatesSettle(here, order, visited, rows, cols);
    }

    /**
     * One iteration of that loop: a candidate outside the grid or already
     * visited is skipped; otherwise the wall towards it is removed and it is
     * visited.
     */
    method Explore(here: Cell, nb: Neighbor)
      requires Searching() && here in visited
      requires nb in Candidates(here.row, here.col)
      modifies this, grid, verticals, horizontals
      ensures Searching() && root == old(root)
      ensures State() == NeighborStep(picks, rows, cols, old(State()), here, nb)
      ensures InGrid(Target(nb), rows, cols) ==> Target(nb) in visited
      // a candidate outside the grid or already visited is skipped
      ensures !InGrid(Target(nb), rows, cols) || Target(nb) in old(visited) ==>
                unchanged(this, grid, verticals, horizontals)
      // any other is opened to
      ensures InGrid(Target(nb), rows, cols) && Target(nb) !in old(visited) ==>
                Passage(here, Target(nb), openH, openV)
      ensures old(visited) <= visited && old(openH) <= openH && old(openV) <= openV
      ensures forall c {:trigger Settled(c, visited, rows, cols)} ::
                c in visited - old(visited) ==> Settled(c, visited, rows, cols)
      decreases AllCells(rows, cols) - visited, 1
    {
      var Neighbor(nextRow, nextColumn, _) := nb;
      if nextRow < 0 || nextRow >= rows || nextColumn < 0 || nextColumn >= cols {
        return;
      }
      if grid[nextRow, nextColumn] {
        return;
      }
      Carve(here, nb);
      Visit(nextRow, nextColumn);
    }

    /** Once every cell of the grid is visited, every `grid` entry is `true`. */
    lemma AllMarked()
      requires Valid() && visited == AllCells(rows, cols)
      ensures forall r, c :: 0 <= r < rows && 0 <= c < cols ==> grid[r, c]
    {
      forall r, c | 0 <= r < rows && 0 <= c < cols
        ensures grid[r, c]
      {
        assert Cell(r, c) in AllCells(rows, cols);
      }
    }

    /**
     * Picks the start cell from the first two draws and carves the maze from
     * it: afterwards every cell is visited and the openings form a spanning
     * tree of the grid.
     */
    method Generate() returns (startRow: nat, startColumn: nat)
      requires Valid() && Blank()
      modifies this, grid, verticals, horizontals
      ensures Valid()
      ensures startRow == picks[0] && startColumn == picks[1]
      ensures startRow < rows && startColumn < cols
      ensures State() == MazeMoving(picks, rows, cols, SearchState({}, {}, {}), Cell(startRow, startColumn))
      ensures visited == AllCells(rows, cols)
      ensures forall r, c :: 0 <= r < rows && 0 <= c < cols ==> grid[r, c]
      ensures |openH| + |openV| == rows * cols - 1
      ensures Connected(Cell(startRow, startColumn), openH, openV, rows, cols)
      ensures used == 2 + 4 * (rows * cols)
    {
      startRow := picks[0];
      startColumn := picks[1];
      used := 2;
      SeedTree(Cell(startRow, startColumn));
      root := Cell(startRow, startColumn);
      parent, depth := map[], map[root := 0];
      Visit(startRow, startColumn);
      SpanningTree(root, parent, depth, openH, openV, rows, cols);
      AllMarked();
    }
  }
}
