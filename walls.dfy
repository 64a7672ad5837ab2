/**
 * Wall emission: once the maze is carved, every entry of `horizontals` and of
 * `verticals` that is still `false` becomes one wall rectangle, in row-major
 * order. A rectangle is recorded here as a `Wall` value instead of being
 * handed to the physics engine.
 *
 * `ux` and `uy` are the unit lengths of a grid cell (the window size divided
 * by the number of columns and rows); they are kept as abstract reals.
 */
module Walls {
  import opened Grid

  /** Which matrix a wall comes from; the source paints them blue and red. */
  datatype Orientation = Horizontal | Vertical

  /** A static rectangle: its center, its size and where it came from. */
  datatype Wall = Wall(centerX: real, centerY: real, width: real, height: real, orientation: Orientation)

  /** The thickness of every wall. */
  const Thickness: real := 5.0

  /**
   * The rectangle for the closed slot `s` of the given matrix. Slot (r, c) of
   * `horizontals` lies under cell (r, c); slot (r, c) of `verticals` lies to
   * the right of cell (r, c).
   */
  function WallAt(o: Orientation, s: Cell, ux: real, uy: real): (w: Wall)
    ensures w.orientation == o
    ensures o == Horizontal ==> w.width == ux && w.height == Thickness
    ensures o == Vertical ==> w.width == Thickness && w.height == uy
  {
    match o
    case Horizontal => Wall(s.col as real * ux + ux / 2.0, s.row as real * uy + uy, ux, Thickness, Horizontal)
    case Vertical => Wall(s.col as real * ux + ux, s.row as real * uy + uy / 2.0, Thickness, uy, Vertical)
  }

  /** The center of cell `c` on the screen. */
  function CenterX(c: Cell, ux: real): real
  {
    c.col as real * ux + ux / 2.0
  }

  function CenterY(c: Cell, uy: real): real
  {
    c.row as real * uy + uy / 2.0
  }

  /**
   * A wall sits exactly half-way between the centers of the two cells its slot
   * separates: below `s` for a horizontal one, to the right of `s` for a
   * vertical one.
   */
  lemma WallBetweenCells(o: Orientation, s: Cell, ux: real, uy: real)
    ensures var n := if o == Horizontal then Below(s) else RightOf(s);
            && WallAt(o, s, ux, uy).centerX == (CenterX(s, ux) + CenterX(n, ux)) / 2.0
            && WallAt(o, s, ux, uy).centerY == (CenterY(s, uy) + CenterY(n, uy)) / 2.0
  {
  }

  /** With positive unit lengths, different slots give different walls. */
  lemma WallAtInjective(o1: Orientation, s1: Cell, o2: Orientation, s2: Cell, ux: real, uy: real)
    requires ux > 0.0 && uy > 0.0
    requires WallAt(o1, s1, ux, uy) == WallAt(o2, s2, ux, uy)
    ensures o1 == o2 && s1 == s2
  {
  }

  /** The closed slots of row `r` among its first `n` columns, left to right. */
  ghost function RowSlots(a: array2<bool>, r: nat, n: nat): seq<Cell>
    requires r < a.Length0 && n <= a.Length1
    reads a
  {
    if n == 0 then []
    else RowSlots(a, r, n - 1) + (if a[r, n - 1] then [] else [Cell(r, n - 1)])
  }

  /** The closed slots of the first `rows` rows, in row-major order. */
  ghost function Slots(a: array2<bool>, rows: nat): seq<Cell>
    requires rows <= a.Length0
    reads a
  {
    if rows == 0 then []
    else Slots(a, rows - 1) + RowSlots(a, rows - 1, a.Length1)
  }

  /** The closed slots of the whole matrix, in row-major order. */
  ghost function ClosedSlots(a: array2<bool>): seq<Cell>
    reads a
  {
    Slots(a, a.Length0)
  }

  /** The walls of the given slots, in the same order. */
  function WallsAt(o: Orientation, slots: seq<Cell>, ux: real, uy: real): (walls: seq<Wall>)
    ensures |walls| == |slots|
    ensures forall k :: 0 <= k < |slots| ==> walls[k] == WallAt(o, slots[k], ux, uy)
  {
    seq(|slots|, k requires 0 <= k < |slots| => WallAt(o, slots[k], ux, uy))
  }

  /** An entry of `a` that is still `false`. */
  ghost predicate Closed(a: array2<bool>, s: Cell)
    reads a
  {
    0 <= s.row < a.Length0 && 0 <= s.col < a.Length1 && !a[s.row, s.col]
  }

  lemma {:induction false} RowSlotsExactly(a: array2<bool>, r: nat, n: nat)
    requires r < a.Length0 && n <= a.Length1
    ensures forall s {:trigger s in RowSlots(a, r, n)} ::
              s in RowSlots(a, r, n) <==> s.row == r && s.col < n && Closed(a, s)
    ensures Distinct(RowSlots(a, r, n))
  {
    if n > 0 {
      RowSlotsExactly(a, r, n - 1);
      var last := if a[r, n - 1] then [] else [Cell(r, n - 1)];
      DistinctConcat(RowSlots(a, r, n - 1), last);
    }
  }

  /** The slots of the first `rows` rows are exactly their closed entries, each once. */
  lemma {:induction false} SlotsExactly(a: array2<bool>, rows: nat)
    requires rows <= a.Length0
    ensures forall s {:trigger s in Slots(a, rows)} ::
              s in Slots(a, rows) <==> s.row < rows && Closed(a, s)
    ensures Distinct(Slots(a, rows))
  {
    if rows > 0 {
      SlotsExactly(a, rows - 1);
      RowSlotsExactly(a, rows - 1, a.Length1);
      DistinctConcat(Slots(a, rows - 1), RowSlots(a, rows - 1, a.Length1));
    }
  }

  /** No element occurs twice. */
  ghost predicate Distinct<T>(s: seq<T>)
  {
    forall i, j :: 0 <= i < j < |s| ==> s[i] != s[j]
  }

  lemma DistinctConcat<T>(s: seq<T>, t: seq<T>)
    requires Distinct(s) && Distinct(t)
    requires forall x :: x in s ==> x !in t
    ensures Distinct(s + t)
  {
    forall i, j | 0 <= i < j < |s + t|
      ensures (s + t)[i] != (s + t)[j]
    {
      if i < |s| && |s| <= j {
        assert (s + t)[i] in s;
        assert (s + t)[j] in t;
      }
    }
  }

  /** A sequence without repetitions has as many elements as its set. */
  lemma {:induction false} DistinctCard<T>(s: seq<T>)
    requires Distinct(s)
    ensures |set x | x in s| == |s|
  {
    if s != [] {
      var init, last := s[..|s| - 1], s[|s| - 1];
      assert Distinct(init);
      DistinctCard(init);
      assert last !in init;
      assert (set x | x in s) == (set x | x in init) + {last};
    }
  }

  /**
   * The matrix has exactly as many closed slots as its entries minus its
   * `true` entries, given as the set `open` of in-range cells.
   */
  lemma ClosedSlotsCount(a: array2<bool>, open: set<Cell>)
    requires forall s {:trigger s in open} :: s in open ==> InGrid(s, a.Length0, a.Length1)
    requires forall r, c {:trigger a[r, c]} :: 0 <= r < a.Length0 && 0 <= c < a.Length1 ==>
               (a[r, c] <==> Cell(r, c) in open)
    ensures |ClosedSlots(a)| == a.Length0 * a.Length1 - |open|
  {
    var slots := ClosedSlots(a);
    SlotsExactly(a, a.Length0);
    DistinctCard(slots);
    var all := AllCells(a.Length0, a.Length1);
    InGridBound(open, a.Length0, a.Length1);
    assert (set x | x in slots) == all - open by {
      forall x | x in all - open
        ensures x in slots
      {
        assert InGrid(x, a.Length0, a.Length1);
        assert !a[x.row, x.col];
      }
    }
    AllCellsCount(a.Length0, a.Length1);
  }

  /**
   * The `forEach` over the rows of a matrix and, inside it, over the entries
   * of a row: a `true` entry is skipped and a `false` one adds its wall.
   */
  method EmitWalls(a: array2<bool>, o: Orientation, ux: real, uy: real) returns (walls: seq<Wall>)
    ensures walls == WallsAt(o, ClosedSlots(a), ux, uy)
  {
    walls := [];
    for rowIndex := 0 to a.Length0
      invariant walls == WallsAt(o, Slots(a, rowIndex), ux, uy)
    {
      for columnIndex := 0 to a.Length1
        invariant walls == WallsAt(o, Slots(a, rowIndex) + RowSlots(a, rowIndex, columnIndex), ux, uy)
      {
        if a[rowIndex, columnIndex] {
          continue;
        }
        walls := walls + [WallAt(o, Cell(rowIndex, columnIndex), ux, uy)];
      }
    }
  }

  /**
   * What emission yields for one matrix: a wall for each `false` entry and for
   * no other, each once, and as many as there are `false` entries.
   */
  lemma EmittedWalls(a: array2<bool>, o: Orientation, ux: real, uy: real)
    requires ux > 0.0 && uy > 0.0
    ensures forall r, c {:trigger a[r, c]} :: 0 <= r < a.Length0 && 0 <= c < a.Length1 && !a[r, c] ==>
              WallAt(o, Cell(r, c), ux, uy) in WallsAt(o, ClosedSlots(a), ux, uy)
    ensures forall s {:trigger WallAt(o, s, ux, uy)} ::
              WallAt(o, s, ux, uy) in WallsAt(o, ClosedSlots(a), ux, uy) ==> Closed(a, s)
    ensures Distinct(WallsAt(o, ClosedSlots(a), ux, uy))
  {
    var slots := ClosedSlots(a);
    var walls := WallsAt(o, slots, ux, uy);
    SlotsExactly(a, a.Length0);
    forall r, c | 0 <= r < a.Length0 && 0 <= c < a.Length1 && !a[r, c]
      ensures WallAt(o, Cell(r, c), ux, uy) in walls
    {
      assert Closed(a, Cell(r, c));
      assert Cell(r, c) in slots;
      var k :| 0 <= k < |slots| && slots[k] == Cell(r, c);
      assert walls[k] == WallAt(o, Cell(r, c), ux, uy);
    }
    forall s | WallAt(o, s, ux, uy) in walls
      ensures Closed(a, s)
    {
      var k :| 0 <= k < |walls| && walls[k] == WallAt(o, s, ux, uy);
      WallAtInjective(o, slots[k], o, s, ux, uy);
      assert slots[k] in slots;
    }
    forall i, j | 0 <= i < j < |walls|
      ensures walls[i] != walls[j]
    {
      if walls[i] == walls[j] {
        WallAtInjective(o, slots[i], o, slots[j], ux, uy);
      }
    }
  }
}
