# Randomized maze generator, modelled in Dafny

The game builds a random maze over a grid of 10 rows and 15 columns. It then
hands the walls of that maze to a physics engine. This project models only the
generator.

The generator works in three steps:

- **`shuffle`** is an in-place Fisher–Yates shuffle. It randomizes the order in
  which a cell's four neighbors are tried.
- **The carver** keeps three boolean matrices: `grid` (which cells are
  visited), `verticals` (open walls between a cell and its right neighbor)
  and `horizontals` (open walls between a cell and the cell below). It picks a
  random start cell and runs `mazeMoving`. That is a recursive depth-first
  search. It marks a cell visited, shuffles its four candidate neighbors, and
  skips the ones that are outside the grid or already visited. For each
  remaining neighbor it opens the wall towards it and recurses.
- **Wall emission** walks `horizontals` and then `verticals` in row-major
  order. It emits one rectangle for every entry that is still `false`.

The model has five modules:

| file | module | models |
|---|---|---|
| `shuffle.dfy` | `Shuffling` | `shuffle` as a method on an `array`; the specification function `Shuffled` and its permutation lemma |
| `grid.dfy` | `Grid` | cells, adjacency, passages through openings, the carved-tree invariant, connectivity and coverage lemmas |
| `maze.dfy` | `Carving` | class `Maze`, holding the three matrices as `array2<bool>`; `Visit` is `mazeMoving`; `Generate` picks the start cell and carves |
| `walls.dfy` | `Walls` | the emission loops, as a method that appends `Wall` records to a sequence; the count, membership and geometry of the walls |
| `game.dfy` | `MazeGame` | the whole pipeline: from random draws to matrices to walls, for any size and for the game's 10 x 15 maze |

Randomness is injected. The caller supplies a sequence of draws, each a real
number in `[0, 1)`. Draw `r` with counter `n` selects `floor(r * n)`. The draws
are consumed in the source's order:

- the start row;
- the start column;
- then four draws for the shuffle of each cell, in the order the cells are
  visited.

Carving consumes exactly `2 + 4 * rows * cols` draws. Every contract holds for
every sequence of draws.

The class also carries ghost state:

- `visited`, `openH` and `openV` mirror the three matrices as sets of cells.
- `root`, `parent` and `depth` record the tree the search builds.

The contracts use this ghost state to state coverage, connectivity and the
number of openings.

`MazeMoving`, `NeighborLoop` and `NeighborStep` run the same search on values:
a `SearchState` of visited cells and opened slots. Each method of the search
ends with its ghost state equal to what the matching function computes from
the old state. So the draws determine exactly which walls are opened, and
`TwoByTwo` works one such run out in full.

## Model

| member | source | states |
|---|---|---|
| `Shuffling.Pick` | p7_maze_game/index.js:51 | `floor(draw * counter)` lies in `[0, counter)` for every draw in `[0, 1)` |
| `Shuffling.Picks` | p7_maze_game/index.js:48-52 | the indices one shuffle derives from its draws; the k-th lies below that iteration's counter `length - k` |
| `Shuffling.Swap` | p7_maze_game/index.js:53-55 | the two positions exchange their elements; every other position keeps its own |
| `Shuffling.SwapPermutes` | p7_maze_game/index.js:53-55 | one swap keeps the multiset of elements |
| `Shuffling.ShuffleFromPermutes` | p7_maze_game/index.js:50-56 | the remaining iterations of the loop keep the length and the multiset of elements, whatever indices are drawn |
| `Shuffling.ShuffledPermutes` | p7_maze_game/index.js:47-58 | the whole shuffle is a permutation of its input, whatever indices are drawn |
| `Shuffling.Shuffle` | p7_maze_game/index.js:47-58 | the method returns the same array it was given; its new contents are `Shuffled` of the old ones, which is a permutation of them; every swap index is in bounds |
| `Grid.LastRowSplits` | p7_maze_game/index.js:61-63 | the cells of a grid are those of all rows but the last plus those of the last row, and the two parts share no cell |
| `Grid.RowCellsCount` | p7_maze_game/index.js:61-63 | a row of the grid has `cols` cells |
| `Grid.AllCellsCount` | p7_maze_game/index.js:61-63 | the grid has `rows * cols` cells |
| `Grid.InGridBound` | p7_maze_game/index.js:61-63 | a set of in-grid cells has at most `rows * cols` elements |
| `Grid.PassageIsSymmetric` | p7_maze_game/index.js:118-125 | an opening can be walked through in both directions, and only between adjacent cells |
| `Grid.SeedTree` | p7_maze_game/index.js:76-77 | the start cell alone, with no openings, is a carved tree |
| `Grid.ExtendTree` | p7_maze_game/index.js:118-129 | opening one new wall from a carved cell to an uncarved one, and making the carved cell its parent, keeps the openings a tree |
| `Grid.OpenSlotH` | p7_maze_game/index.js:122-125 | setting the horizontal slot between a carved cell and the uncarved cell above or below it sets a slot that was not set before and keeps the openings a tree |
| `Grid.OpenSlotV` | p7_maze_game/index.js:118-121 | the same for the vertical slot between a carved cell and the uncarved cell to its left or right |
| `Grid.CarveStep` | p7_maze_game/index.js:113-129 | opening the wall from a carved cell to an adjacent uncarved cell sets a slot that was not set before; the result is still a tree with exactly one more opening |
| `Grid.ReachedUpToDepth` | p7_maze_game/index.js:80-131 | every carved cell up to a given depth lies in each set that holds the root and is closed under walking through openings |
| `Grid.TreeReachesAll` | p7_maze_game/index.js:80-133 | a carved tree over all cells connects every cell to the root and has `rows * cols - 1` openings |
| `Grid.SettledGrows` | p7_maze_game/index.js:99-130 | a cell whose in-grid neighbors are all visited stays that way as more cells are visited |
| `Grid.WalkRow` | p7_maze_game/index.js:99-130 | in a set whose cells all have their in-grid neighbors inside it, a cell of a row brings the whole row |
| `Grid.WalkColumn` | p7_maze_game/index.js:99-130 | the same for a column |
| `Grid.SettledCoversGrid` | p7_maze_game/index.js:99-130 | such a set that holds one cell of the grid holds every cell |
| `Grid.SpanningTree` | p7_maze_game/index.js:80-133 | when the search started in the grid and settled every cell it carved, it carved every cell, its openings connect every cell to the start, and there are `rows * cols - 1` of them |
| `Carving.Candidates` | p7_maze_game/index.js:90-95 | a cell has four candidate neighbors |
| `Carving.NeighborIsCandidate` | p7_maze_game/index.js:90-95 | each of the four adjacent cells is the target of one candidate |
| `Carving.CandidateDirection` | p7_maze_game/index.js:90-95 | the label `up`, `right`, `down` or `left` of a candidate says where its cell lies |
| `Carving.RearrangedCandidates` | p7_maze_game/index.js:90-95 | any rearrangement of the candidates holds exactly the four candidates |
| `Carving.ShuffledCandidatesAreCandidates` | p7_maze_game/index.js:90-95 | a shuffle of the four candidates, under any fit indices, has four entries and holds each candidate and only candidates |
| `Carving.CandidatesSettle` | p7_maze_game/index.js:99-130 | once the target of every in-grid entry of a rearrangement of the candidates is visited, every in-grid neighbor of the cell is visited |
| `Carving.ShuffledCandidates` | p7_maze_game/index.js:90-95 | the neighbor array is a fresh array holding `Shuffled` of the four candidates under the given four indices; it holds each candidate, and only candidates |
| `Carving.VisitPicks` | p7_maze_game/index.js:47-52 | the four indices that shuffle the candidates of the m-th visited cell fit a shuffle of four: the k-th lies below `4 - k` |
| `Carving.VisitPicksFit` | p7_maze_game/index.js:87-95 | when the indices fit the maze, the m-th visited cell is shuffled with the m-th group of four indices after the start's two |
| `Carving.MazeMoving` | p7_maze_game/index.js:80-131 | `mazeMoving` on values (visited cells and opened slots): the cell ends visited and every cell visited before stays visited |
| `Carving.MazeMovingUnvisited` | p7_maze_game/index.js:80-99 | a visited cell returns at once; an unvisited one is marked, its four candidates are shuffled with the indices of the `|visited|`-th cell, and the loop runs over them |
| `Carving.NeighborLoop` | p7_maze_game/index.js:99-130 | the loop over the shuffled candidates only adds visited cells |
| `Carving.NeighborLoopStep` | p7_maze_game/index.js:99-130 | the loop from the i-th candidate is one iteration on it followed by the loop from the next |
| `Carving.LoopVisitsTargets` | p7_maze_game/index.js:99-130 | after the loop, the target of every candidate from the i-th on that lies in the grid is visited |
| `Carving.NeighborStep` | p7_maze_game/index.js:101-129 | a candidate outside the grid or already visited leaves the state as it is; one in the grid always ends visited, and visited cells only grow |
| `Carving.LoopSkips` | p7_maze_game/index.js:104-115 | a run of candidates that are outside the grid or visited leaves the loop's state unchanged |
| `Carving.ShuffledRightFirst` | p7_maze_game/index.js:47-58 | the shuffle indices 3, 0, 0, 0 order the candidates right, down, up, left |
| `Carving.TwoByTwo` | p7_maze_game/index.js:80-133 | a 2 x 2 search from (0, 0) whose shuffles all use 3, 0, 0, 0 visits all four cells and opens exactly `horizontals[0][1]`, `verticals[0][0]` and `verticals[1][0]` |
| `Carving.TwoByTwoRun` | p7_maze_game/index.js:80-133 | the same result for any indices whose four shuffles use 3, 0, 0, 0 |
| `Carving.TwoByTwoLast` | p7_maze_game/index.js:99-115 | in that run, visiting (1, 0) changes nothing but marking it: all its candidates are outside the grid or visited |
| `Carving.TwoByTwoThird` | p7_maze_game/index.js:99-129 | in that run, (1, 1) skips right, down and up and carves left to (1, 0) |
| `Carving.TwoByTwoSecond` | p7_maze_game/index.js:99-129 | in that run, (0, 1) skips right, carves down to (1, 1), and finds up and left settled |
| `Carving.TwoByTwoFirst` | p7_maze_game/index.js:99-133 | in that run, the start (0, 0) carves right to (0, 1) and finds the rest settled |
| `Carving.Maze.constructor` | p7_maze_game/index.js:61-73 | `grid` is `rows x cols`, `verticals` is `rows x (cols-1)` and `horizontals` is `(rows-1) x cols`, all entries `false`; nothing visited or opened |
| `Carving.Maze.Mark` | p7_maze_game/index.js:87 | marking sets the cell's `grid` entry and adds exactly that cell to the visited cells |
| `Carving.Maze.OpenVertical` | p7_maze_game/index.js:119-121 | sets one in-bounds `verticals` entry and adds exactly that slot to the vertical openings |
| `Carving.Maze.OpenHorizontal` | p7_maze_game/index.js:123-125 | sets one in-bounds `horizontals` entry and adds exactly that slot to the horizontal openings |
| `Carving.Maze.RemoveWall` | p7_maze_game/index.js:117-126 | for an in-grid candidate, `left` sets `verticals[row][column-1]`, `right` sets `verticals[row][column]`, `up` sets `horizontals[row-1][column]` and `down` sets `horizontals[row][column]`; each write is in bounds and opens exactly the wall between the two cells |
| `Carving.Maze.Carve` | p7_maze_game/index.js:113-129 | opening the wall to an unvisited candidate keeps the openings a tree over the visited cells plus the candidate, with a passage from the cell to the candidate |
| `Carving.Maze.MarkAndShuffle` | p7_maze_game/index.js:86-95 | the cell is marked and added to the visited cells, the openings are unchanged, and the neighbor array is a fresh array holding the shuffle of the four candidates by the next four indices |
| `Carving.Maze.Visit` | p7_maze_game/index.js:80-131 | the new visited cells and openings are exactly what `MazeMoving` computes from the old ones; on a visited cell nothing changes; otherwise the cell ends visited; four indices have been used per visited cell after the two of the start; entries of all three matrices only go from `false` to `true`; the openings stay a tree over the visited cells; every newly visited cell has all its in-grid neighbors visited; the recursion terminates because the set of unvisited cells shrinks |
| `Carving.Maze.VisitNeighbors` | p7_maze_game/index.js:99-130 | the new visited cells and openings are exactly what `NeighborLoop` computes over the array's candidates; after the loop over the shuffled candidates, every in-grid neighbor of the cell is visited, and the tree and monotonicity facts still hold |
| `Carving.Maze.Explore` | p7_maze_game/index.js:101-129 | the new visited cells and openings are exactly what `NeighborStep` computes; a candidate outside the grid or already visited is skipped and nothing changes; any other ends with a passage from the cell to it and is visited; either way an in-grid candidate ends visited, and the openings stay a tree over the visited cells |
| `Carving.Maze.AllMarked` | p7_maze_game/index.js:82-87 | once every cell is visited, every `grid` entry is `true` |
| `Carving.Maze.Generate` | p7_maze_game/index.js:76-133 | the start cell comes from the first two indices and is in range; the visited cells and openings are exactly `MazeMoving` from the empty state at the start cell; afterwards every `grid` entry is `true`, there are exactly `rows * cols - 1` openings, and they connect every cell to the start |
| `Walls.WallAt` | p7_maze_game/index.js:142-177 | a horizontal wall is `ux` wide and 5 high, a vertical wall is 5 wide and `uy` high |
| `Walls.WallBetweenCells` | p7_maze_game/index.js:142-170 | a horizontal wall at `(c*ux + ux/2, r*uy + uy)` sits half-way between the centers of cell (r, c) and the cell below; a vertical wall at `(c*ux + ux, r*uy + uy/2)` sits half-way between cell (r, c) and the cell to its right |
| `Walls.WallAtInjective` | p7_maze_game/index.js:142-170 | with positive unit lengths, two different slots never produce the same wall |
| `Walls.RowSlotsExactly` | p7_maze_game/index.js:137-141 | the entries one row contributes are exactly its `false` entries, each once |
| `Walls.SlotsExactly` | p7_maze_game/index.js:136-157 | the entries the matrix contributes, row by row, are exactly its `false` entries, each once |
| `Walls.ClosedSlotsCount` | p7_maze_game/index.js:136-181 | a matrix yields as many walls as it has entries minus its `true` entries |
| `Walls.EmitWalls` | p7_maze_game/index.js:136-181 | the nested loops skip `true` entries; they emit the walls of the `false` entries in row-major order |
| `Walls.EmittedWalls` | p7_maze_game/index.js:136-181 | every `false` entry gets its wall; no wall comes from a `true` entry; no wall is emitted twice |
| `MazeGame.CellPicks` | p7_maze_game/index.js:47-52 | each visited cell's group of four draws becomes exactly the indices `Picks` derives for one shuffle of four candidates |
| `MazeGame.DrawPicks` | p7_maze_game/index.js:47-77 | the draws become the start row and column and, per visited cell, the four indices `Picks` derives for its shuffle, which lie below the counters 4, 3, 2, 1 |
| `MazeGame.Build` | p7_maze_game/index.js:61-181 | for any size and any draws: the start cell comes from the first two draws; the visited cells and openings are exactly `MazeMoving` under the indices the draws give; the openings form a spanning tree; the walls are the horizontal ones then the vertical ones; there are `(rows-1)*cols + rows*(cols-1) - (rows*cols - 1)` of them; horizontal walls are `ux` wide and vertical ones `uy` high |
| `MazeGame.EmitMazeWalls` | p7_maze_game/index.js:136-181 | a carved maze yields the walls of its closed horizontal slots, then those of its closed vertical slots; there are `(rows-1)*cols + rows*(cols-1) - (rows*cols - 1)` of them, each of its orientation's size |
| `MazeGame.Setup` | p7_maze_game/index.js:5-181 | the game's 10 x 15 maze on any window has 126 walls; a horizontal wall is `width / 15` wide and 5 high, a vertical one 5 wide and `height / 10` high; its openings connect every cell to the start |
| `MazeGame.BuildTwoByTwo` | p7_maze_game/index.js:61-181 | with start draws 0, 0 and shuffle draws 0.8, 0, 0, 0 for every cell, a 2 x 2 maze opens `verticals[0][0]`, `horizontals[0][1]` and `verticals[1][0]`, keeps `horizontals[0][0]` closed, and emits that one wall |
| `MazeGame.TwoByTwoDraws` | p7_maze_game/index.js:47-133 | those draws start at (0, 0) and give the run of `Carving.TwoByTwo` |
| `MazeGame.ZeroPick` | p7_maze_game/index.js:76-77 | a draw of 0 selects index 0 |
| `MazeGame.GroupPicks` | p7_maze_game/index.js:47-52 | a cell's draws 0.8, 0, 0, 0 become the shuffle indices 3, 0, 0, 0 |
| `MazeGame.TwoByTwoMatrices` | p7_maze_game/index.js:117-126 | the openings of that run are the `true` entries `verticals[0][0]`, `horizontals[0][1]` and `verticals[1][0]`; `horizontals[0][0]` stays `false` |
| `MazeGame.TwoByTwoWall` | p7_maze_game/index.js:136-181 | the single wall of that maze is the one under cell (0, 0) |

## Left out

- Matter.js engine, renderer, runner, the four border rectangles, and body creation: these are foreign library calls. Walls are returned as records instead.
- Keyboard handling and the collision/win handler with its DOM and gravity changes: UI and event plumbing.
- Goal and ball placement: fixed renderer coordinates with no logic.
- Window sizing: the unit lengths are abstract `real` parameters. IEEE floating point, and its rounding in `Math.floor(Math.random() * counter)` and the center arithmetic, is not modelled.
- `Math.random`: replaced by a sequence of draws supplied by the caller.
- Uniformity: the probability of each shuffle order, start cell or maze is not modelled. Only the properties that hold for every draw are stated.
- Determinism for a fixed seed: there is no seed. Instead, the carved state is stated as a function of the draws (`MazeMoving`), so equal draws carve equal mazes.
- Spanning tree: acyclicity is not stated as a separate predicate. The model proves that the openings connect all `rows * cols` cells with exactly `rows * cols - 1` openings, which makes them a spanning tree.
- `mazeMoving` is split into methods: marking and shuffling (`MarkAndShuffle`), the neighbor loop (`VisitNeighbors`) and its body (`Explore`). The body's `return` plays the role of the loop's `continue`.
- `VisitPicks` returns the indices 0, 0, 0, 0 when the indices do not fit the maze. This only keeps the function total: every method requires indices that fit, and `VisitPicksFit` shows that the fallback is then never taken.
