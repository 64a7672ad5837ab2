/**
 * Cells of a `rows` x `cols` maze and the passages the carver opens between
 * them.
 *
 * A vertical opening is named by the cell to its left: `Cell(r, c)` in the
 * vertical openings means the wall between cells (r, c) and (r, c + 1) is gone.
 * A horizontal opening is named by the cell above it: `Cell(r, c)` in the
 * horizontal openings means the wall between (r, c) and (r + 1, c) is gone.
 */
module Grid {

  datatype Cell = Cell(row: int, col: int)

  predicate InGrid(c: Cell, rows: nat, cols: nat)
  {
    0 <= c.row < rows && 0 <= c.col < cols
  }

  /** Every cell of the grid. */
  ghost function AllCells(rows: nat, cols: nat): set<Cell>
  {
    set r, c | 0 <= r < rows && 0 <= c < cols :: Cell(r, c)
  }

  /** The cells of row `r` in columns [0, n). */
  ghost function RowCells(r: int, n: nat): set<Cell>
  {
    set c | 0 <= c < n :: Cell(r, c)
  }

  lemma {:induction false} RowCellsCount(r: int, n: nat)
    ensures |RowCells(r, n)| == n
  {
    if n > 0 {
      RowCellsCount(r, n - 1);
      assert RowCells(r, n) == RowCells(r, n - 1) + {Cell(r, n - 1)};
    }
  }

  /** The grid has exactly `rows * cols` cells. */
  lemma {:induction false} AllCellsCount(rows: nat, cols: nat)
    ensures |AllCells(rows, cols)| == rows * cols
  {
    if rows > 0 {
      AllCellsCount(rows - 1, cols);
      RowCellsCount(rows - 1, cols);
      LastRowSplits(rows, cols);
      assert rows * cols == (rows - 1) * cols + cols;
    }
  }

  /** The grid is the grid without its last row, plus that row, which it does not overlap. */
  lemma LastRowSplits(rows: nat, cols: nat)
    requires rows > 0
    ensures AllCells(rows, cols) == AllCells(rows - 1, cols) + RowCells(rows - 1, cols)
    ensures AllCells(rows - 1, cols) !! RowCells(rows - 1, cols)
  {
    forall x | x in AllCells(rows, cols)
      ensures x in AllCells(rows - 1, cols) + RowCells(rows - 1, cols)
    {
      if x.row < rows - 1 {
        assert x in AllCells(rows - 1, cols);
      } else {
        assert x in RowCells(rows - 1, cols);
      }
    }
  }

  /** A set of grid cells has at most `rows * cols` elements. */
  lemma InGridBound(s: set<Cell>, rows: nat, cols: nat)
    requires forall x :: x in s ==> InGrid(x, rows, cols)
    ensures s <= AllCells(rows, cols) && |s| <= rows * cols
  {
    AllCellsCount(rows, cols);
    forall x | x in s
      ensures x in AllCells(rows, cols)
    {
      assert x == Cell(x.row, x.col);
    }
    assert AllCells(rows, cols) == s + (AllCells(rows, cols) - s);
  }

  /** The cell below `c`, across the horizontal slot that `c` names. */
  function Below(c: Cell): Cell
  {
    Cell(c.row + 1, c.col)
  }

  /** The cell right of `c`, across the vertical slot that `c` names. */
  function RightOf(c: Cell): Cell
  {
    Cell(c.row, c.col + 1)
  }

  /** `b` is one of the four candidate neighbors of `a`: up, right, down, left. */
  predicate Adjacent(a: Cell, b: Cell)
  {
    b == Cell(a.row - 1, a.col) || b == Cell(a.row, a.col + 1) ||
    b == Cell(a.row + 1, a.col) || b == Cell(a.row, a.col - 1)
  }

  /** The wall between adjacent cells `a` and `b` has been opened. */
  predicate Passage(a: Cell, b: Cell, openH: set<Cell>, openV: set<Cell>)
  {
    (b == Cell(a.row, a.col + 1) && a in openV) ||
    (b == Cell(a.row, a.col - 1) && b in openV) ||
    (b == Cell(a.row + 1, a.col) && a in openH) ||
    (b == Cell(a.row - 1, a.col) && b in openH)
  }

  lemma PassageIsSymmetric(a: Cell, b: Cell, openH: set<Cell>, openV: set<Cell>)
    ensures Passage(a, b, openH, openV) <==> Passage(b, a, openH, openV)
    ensures Passage(a, b, openH, openV) ==> Adjacent(a, b)
  {
  }

  /** A set of cells that one cannot leave by walking through an opening. */
  ghost predicate ClosedUnderPassages(s: set<Cell>, openH: set<Cell>, openV: set<Cell>)
  {
    forall a, b :: a in s && Passage(a, b, openH, openV) ==> b in s
  }

  /**
   * Every cell can be reached from `root` through openings: each set that holds
   * `root` and is closed under walking through openings holds every cell.
   */
  ghost predicate Connected(root: Cell, openH: set<Cell>, openV: set<Cell>, rows: nat, cols: nat)
  {
    forall s :: root in s && ClosedUnderPassages(s, openH, openV) ==> AllCells(rows, cols) <= s
  }

  /**
   * The openings carved so far form a tree rooted at `root` over the cells in
   * `depth`: every other such cell was reached from its `parent` through an
   * opening one level closer to the root, every opening joins two such cells,
   * and there is one opening fewer than there are cells.
   */
  ghost predicate CarvedTree(root: Cell, parent: map<Cell, Cell>, depth: map<Cell, nat>,
                             openH: set<Cell>, openV: set<Cell>)
  {
    && root in depth && depth[root] == 0
    && parent.Keys == depth.Keys - {root}
    && (forall k {:trigger parent[k]} :: k in parent ==>
          parent[k] in depth && depth[k] == depth[parent[k]] + 1 &&
          Passage(parent[k], k, openH, openV))
    && (forall c {:trigger c in openH} :: c in openH ==> c in depth && Below(c) in depth)
    && (forall c {:trigger c in openV} :: c in openV ==> c in depth && RightOf(c) in depth)
    && |openH| + |openV| + 1 == |depth.Keys|
  }

  /** A single cell with no openings is a carved tree. */
  lemma SeedTree(root: Cell)
    ensures CarvedTree(root, map[], map[root := 0], {}, {})
  {
  }

  /**
   * Opening one wall from a carved cell `here` to a new cell `next` and making
   * `here` the parent of `next` keeps the openings a tree.
   */
  lemma ExtendTree(root: Cell, parent: map<Cell, Cell>, depth: map<Cell, nat>,
                   openH: set<Cell>, openV: set<Cell>, here: Cell, next: Cell,
                   openH': set<Cell>, openV': set<Cell>)
    requires CarvedTree(root, parent, depth, openH, openV)
    requires here in depth && next !in depth
    requires openH <= openH' && openV <= openV'
    requires |openH'| + |openV'| == |openH| + |openV| + 1
    requires Passage(here, next, openH', openV')
    requires forall c {:trigger c in openH'} :: c in openH' ==> c in depth.Keys + {next} && Below(c) in depth.Keys + {next}
    requires forall c {:trigger c in openV'} :: c in openV' ==> c in depth.Keys + {next} && RightOf(c) in depth.Keys + {next}
    ensures CarvedTree(root, parent[next := here], depth[next := depth[here] + 1], openH', openV')
  {
  }

  /** The horizontal openings once the wall between adjacent cells `a` and `b` is removed. */
  function OpenedH(openH: set<Cell>, a: Cell, b: Cell): set<Cell>
  {
    if b == Cell(a.row - 1, a.col) then openH + {b}
    else if b == Cell(a.row + 1, a.col) then openH + {a}
    else openH
  }

  /** The vertical openings once the wall between adjacent cells `a` and `b` is removed. */
  function OpenedV(openV: set<Cell>, a: Cell, b: Cell): set<Cell>
  {
    if b == Cell(a.row, a.col - 1) then openV + {b}
    else if b == Cell(a.row, a.col + 1) then openV + {a}
    else openV
  }

  /**
   * Opening the horizontal slot `s`, which lies between a carved cell `here`
   * and an uncarved cell `next`, keeps the openings a tree.
   */
  lemma OpenSlotH(root: Cell, parent: map<Cell, Cell>, depth: map<Cell, nat>,
                  openH: set<Cell>, openV: set<Cell>, here: Cell, next: Cell, s: Cell)
    requires CarvedTree(root, parent, depth, openH, openV)
    requires here in depth && next !in depth
    requires (here == s && next == Below(s)) || (next == s && here == Below(s))
    ensures s !in openH
    ensures CarvedTree(root, parent[next := here], depth[next := depth[here] + 1], openH + {s}, openV)
  {
    ExtendTree(root, parent, depth, openH, openV, here, next, openH + {s}, openV);
  }

  /**
   * Opening the vertical slot `s`, which lies between a carved cell `here`
   * and an uncarved cell `next`, keeps the openings a tree.
   */
  lemma OpenSlotV(root: Cell, parent: map<Cell, Cell>, depth: map<Cell, nat>,
                  openH: set<Cell>, openV: set<Cell>, here: Cell, next: Cell, s: Cell)
    requires CarvedTree(root, parent, depth, openH, openV)
    requires here in depth && next !in depth
    requires (here == s && next == RightOf(s)) || (next == s && here == RightOf(s))
    ensures s !in openV
    ensures CarvedTree(root, parent[next := here], depth[next := depth[here] + 1], openH, openV + {s})
  {
    ExtendTree(root, parent, depth, openH, openV, here, next, openH, openV + {s});
  }

  /**
   * Removing the wall from a carved cell `here` to an adjacent uncarved cell
   * `next`, and making `here` the parent of `next`, keeps the openings a tree
   * and opens exactly one new slot.
   */
  lemma CarveStep(root: Cell, parent: map<Cell, Cell>, depth: map<Cell, nat>,
                  openH: set<Cell>, openV: set<Cell>, here: Cell, next: Cell)
    returns (parent': map<Cell, Cell>, depth': map<Cell, nat>, openH': set<Cell>, openV': set<Cell>)
    requires CarvedTree(root, parent, depth, openH, openV)
    requires here in depth && next !in depth && Adjacent(here, next)
    ensures parent' == parent[next := here] && depth' == depth[next := depth[here] + 1]
    ensures openH' == OpenedH(openH, here, next) && openV' == OpenedV(openV, here, next)
    ensures |openH'| + |openV'| == |openH| + |openV| + 1
    ensures openH <= openH' && openV <= openV' && Passage(here, next, openH', openV')
    ensures depth'.Keys == depth.Keys + {next}
    ensures CarvedTree(root, parent', depth', openH', openV')
  {
    parent', depth' := parent[next := here], depth[next := depth[here] + 1];
    openH', openV' := OpenedH(openH, here, next), OpenedV(openV, here, next);
    if next == Cell(here.row - 1, here.col) {
      OpenSlotH(root, parent, depth, openH, openV, here, next, next);
    } else if next == Cell(here.row + 1, here.col) {
      OpenSlotH(root, parent, depth, openH, openV, here, next, here);
    } else if next == Cell(here.row, here.col - 1) {
      OpenSlotV(root, parent, depth, openH, openV, here, next, next);
    } else {
      OpenSlotV(root, parent, depth, openH, openV, here, next, here);
    }
  }

  lemma {:induction false} ReachedUpToDepth(root: Cell, parent: map<Cell, Cell>, depth: map<Cell, nat>,
                                            openH: set<Cell>, openV: set<Cell>, s: set<Cell>, d: nat)
    requires CarvedTree(root, parent, depth, openH, openV)
    requires root in s && ClosedUnderPassages(s, openH, openV)
    ensures forall k :: k in depth && depth[k] <= d ==> k in s
  {
    if d > 0 {
      ReachedUpToDepth(root, parent, depth, openH, openV, s, d - 1);
    }
    forall k | k in depth && depth[k] <= d
      ensures k in s
    {
      if k != root {
        var p := parent[k];
        assert p in s;
      }
    }
  }

  /** Every cell of a carved tree can be reached from its root through openings. */
  lemma TreeReachesAll(root: Cell, parent: map<Cell, Cell>, depth: map<Cell, nat>,
                       openH: set<Cell>, openV: set<Cell>, rows: nat, cols: nat)
    requires CarvedTree(root, parent, depth, openH, openV)
    requires depth.Keys == AllCells(rows, cols)
    ensures Connected(root, openH, openV, rows, cols)
    ensures |openH| + |openV| == rows * cols - 1
  {
    forall s | root in s && ClosedUnderPassages(s, openH, openV)
      ensures AllCells(rows, cols) <= s
    {
      forall k | k in depth
        ensures k in s
      {
        ReachedUpToDepth(root, parent, depth, openH, openV, s, depth[k]);
      }
    }
    AllCellsCount(rows, cols);
  }

  /** Every in-grid neighbor of `c` (up, right, down, left) is in `s`. */
  predicate Settled(c: Cell, s: set<Cell>, rows: nat, cols: nat)
  {
    && (InGrid(Cell(c.row - 1, c.col), rows, cols) ==> Cell(c.row - 1, c.col) in s)
    && (InGrid(Cell(c.row, c.col + 1), rows, cols) ==> Cell(c.row, c.col + 1) in s)
    && (InGrid(Cell(c.row + 1, c.col), rows, cols) ==> Cell(c.row + 1, c.col) in s)
    && (InGrid(Cell(c.row, c.col - 1), rows, cols) ==> Cell(c.row, c.col - 1) in s)
  }

  /** A cell settled within `s` stays settled within any larger set. */
  lemma SettledGrows(s: set<Cell>, t: set<Cell>, rows: nat, cols: nat)
    requires s <= t
    ensures forall c :: Settled(c, s, rows, cols) ==> Settled(c, t, rows, cols)
  {
  }

  lemma {:induction false} WalkRow(s: set<Cell>, rows: nat, cols: nat, r: int, from: int, to: int)
    requires forall c {:trigger Settled(c, s, rows, cols)} :: c in s ==> Settled(c, s, rows, cols)
    requires 0 <= r < rows && 0 <= from < cols && 0 <= to < cols
    requires Cell(r, from) in s
    ensures Cell(r, to) in s
    decreases if from <= to then to - from else from - to
  {
    assert Settled(Cell(r, from), s, rows, cols);
    if from < to {
      WalkRow(s, rows, cols, r, from + 1, to);
    } else if to < from {
      WalkRow(s, rows, cols, r, from - 1, to);
    }
  }

  lemma {:induction false} WalkColumn(s: set<Cell>, rows: nat, cols: nat, c: int, from: int, to: int)
    requires forall x {:trigger Settled(x, s, rows, cols)} :: x in s ==> Settled(x, s, rows, cols)
    requires 0 <= c < cols && 0 <= from < rows && 0 <= to < rows
    requires Cell(from, c) in s
    ensures Cell(to, c) in s
    decreases if from <= to then to - from else from - to
  {
    assert Settled(Cell(from, c), s, rows, cols);
    if from < to {
      WalkColumn(s, rows, cols, c, from + 1, to);
    } else if to < from {
      WalkColumn(s, rows, cols, c, from - 1, to);
    }
  }

  /**
   * A set of cells that holds one cell of the grid and, with each of its
   * cells, every in-grid neighbor, holds the whole grid.
   */
  lemma SettledCoversGrid(s: set<Cell>, root: Cell, rows: nat, cols: nat)
    requires InGrid(root, rows, cols) && root in s
    requires forall c {:trigger Settled(c, s, rows, cols)} :: c in s ==> Settled(c, s, rows, cols)
    ensures AllCells(rows, cols) <= s
  {
    forall c | c in AllCells(rows, cols)
      ensures c in s
    {
      WalkRow(s, rows, cols, root.row, root.col, c.col);
      WalkColumn(s, rows, cols, c.col, root.row, c.row);
    }
  }

  /**
   * When the search has settled every cell it carved, starting from a cell of
   * the grid, the carved tree spans the grid: every cell is carved, every
   * cell is reachable from the root, and there are `rows * cols - 1` openings.
   */
  lemma SpanningTree(root: Cell, parent: map<Cell, Cell>, depth: map<Cell, nat>,
                     openH: set<Cell>, openV: set<Cell>, rows: nat, cols: nat)
    requires CarvedTree(root, parent, depth, openH, openV)
    requires InGrid(root, rows, cols)
    requires forall x :: x in depth ==> InGrid(x, rows, cols)
    requires forall c {:trigger Settled(c, depth.Keys, rows, cols)} :: c in depth ==> Settled(c, depth.Keys, rows, cols)
    ensures depth.Keys == AllCells(rows, cols)
    ensures Connected(root, openH, openV, rows, cols)
    ensures |openH| + |openV| == rows * cols - 1
  {
    SettledCoversGrid(depth.Keys, root, rows, cols);
    InGridBound(depth.Keys, rows, cols);
    TreeReachesAll(root, parent, depth, openH, openV, rows, cols);
  }
}
