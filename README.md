# Maze generator: a Dafny model of the randomised depth-first carver

The maze generator carves a maze into a `rows x cols` grid of boolean flags
with a randomised depth-first search. Starting at (0, 0), it visits a node
cell in four steps:

1. It sets the node's flag.
2. It reshuffles the one shared four-entry direction array in place.
3. It looks at each direction in turn at the cell two steps away.
4. If that cell is inside the grid and unmarked, it marks it and the wall cell
   between them, paints both white, and visits it.

Around the carve, the driver paints the start red and the cell
(rows - 2, cols - 2) green.

The model has three modules:

- `Directions` (Directions.dfy): the four unit steps and the in-place
  "inside-out" Fisher-Yates shuffle as a function of its picks, with the
  following proved about it:
  - it only permutes;
  - every permutation is reachable;
  - each permutation comes from exactly one pick sequence;
  - a rearrangement of the four unit steps is exactly a four-entry sequence of
    distinct unit steps.
- `Carving` (Carving.dfy): the shape of what the carve marks, stated over the
  sequence of branches (`Edge`s) it has taken:
  - the parity lattice of node and wall cells;
  - every branch marks two cells that were unmarked;
  - the cell count 2n + 1;
  - a unique parent for every node;
  - a path from the start to every node.
- `Maze` (Maze.dfy): the class `MazeGenerator`.
  - Its fields are `maze` (a 2-D array of flags), `directions` (an array shared
    by every level of the carve), the random source, and a draw counter.
  - Its methods follow the source's statements.
  - A ghost `Branches` log of the branches taken and a ghost `Log` of paint
    events make the carve's shape and the paint order statable.
  - The object invariant `Valid()` says three things: the direction array
    holds the four unit steps, one of each; the marked cells are exactly the
    nodes and walls of the branches taken; and those branches form a carve
    that grows a tree from (0, 0): each leaves a reached node for an
    unreached one.
  - `Logged()` says the paint log is the red start followed by each branch's
    node and wall, in the order taken.

`Math.random()` becomes a constant `random: nat -> Fraction`, where the k-th
number drawn is `random(k)` and `draws` counts the draws so far. The index the
shuffle picks is the integer part of `random(draws) * (i + 1)`.
`paintCellAndRefresh` becomes a ghost method that appends a `Paint` event to
`Log`.

The source's `dfs` is one method. Here its steps are split across several
methods, without changing the order of any statement. Each method's contract
states what its statements do:

- `Visit`: the first two statements, marking the node and shuffling.
- `Branch`: the guarded loop body.
- `Connect`: the two marks and two paints in that body.
- `Mark`: one flag assignment.

Each branch paints its node and then its wall, and marks them in the same
order (src/MazeGenerator.java:76-77, 86-87). The model keeps both orders; the
order of the two marks is not observable in the model's state.

The for-each loop of `dfs` reads `directions[i]` afresh on each iteration, as
the Java enhanced for over an array does. After a recursive call returns, the
caller therefore carries on over the order its callee left.

## Model

| member | source | states |
|---|---|---|
| Directions.Scale | src/MazeGenerator.java:97 | the drawn index lies in [0, i + 1) and is the integer part of r * (i + 1), which is what the cast of a non-negative product to int gives |
| Directions.SwapPermutes | src/MazeGenerator.java:98-100 | exchanging two entries through a temporary keeps the same elements with the same multiplicities |
| Directions.ShuffledPermutes | src/MazeGenerator.java:95-101 | whatever picks the shuffle draws, the arrangement it leaves is a permutation of the one it started with |
| Directions.ShuffledKeepsSuffix | src/MazeGenerator.java:96-101 | after steps 0 .. k - 1 the entries from position k onwards are untouched |
| Directions.ShuffleReaches | src/MazeGenerator.java:95-101 | every rearrangement of the array is produced by some picks with the pick of step i in [0, i] |
| Directions.ShuffleInjective | src/MazeGenerator.java:95-101 | on distinct entries, two pick sequences that produce the same arrangement are equal |
| Directions.ShuffleBijective | src/MazeGenerator.java:95-101 | on distinct entries, each permutation comes from exactly one valid pick sequence, so the 4! pick sequences and the 24 orders correspond one to one |
| Directions.ArrangementOfPermutation | src/MazeGenerator.java:10-15 | a sequence holding the four unit steps of the initial array, each once, has four entries that are unit steps, no two alike |
| Directions.PermutationOfArrangement | src/MazeGenerator.java:10-15 | four distinct unit steps hold the initial four directions, each once |
| Carving.ShapedExtend | src/MazeGenerator.java:75-77 | taking a branch from a reached node to an unmarked node keeps the marked cells exactly the nodes and walls of the carve, with the new node added |
| Carving.Lattice | src/MazeGenerator.java:72-77 | every node cell has two even coordinates, every wall cell exactly one odd coordinate, and no cell is both |
| Carving.WallFlanked | src/MazeGenerator.java:72-77 | along its odd axis, the cells on both sides of every wall cell are reached nodes |
| Carving.FreshWall | src/MazeGenerator.java:75-77 | the wall and the target of a new branch were both unmarked, and are two different cells |
| Carving.CellCount | src/MazeGenerator.java:75-77 | n branches reach n + 1 nodes and n walls, 2n + 1 marked cells in all |
| Carving.UniqueParent | src/MazeGenerator.java:75-89 | no branch targets the start cell or a node another branch targets, and no two branches open the same wall: every node but the start has exactly one parent |
| Carving.PathTo | src/MazeGenerator.java:75-89 | every reached node is joined to (0, 0) by a path of nodes two steps apart through open walls |
| Carving.Grow | src/MazeGenerator.java:89 | an earlier prefix of the branch log reaches a subset of the nodes and walls and is itself a carve |
| Maze.PaintsOfAppend | src/MazeGenerator.java:86-87 | the paints of two runs of branches are the paints of the first followed by those of the second, two per branch |
| Maze.TakeBranch | src/MazeGenerator.java:75-87 | marking a new branch's node and wall and painting them white keeps the marked cells exactly the nodes and walls of the carve and the log the red start followed by every branch's paints; the branch is the next one appended and its node and wall are marked |
| Maze.MazeGenerator.constructor | src/MazeGenerator.java:17-31 | for rows, cols >= 2 the generator is built and the carve run: the object invariant holds, (0, 0) is marked, and the log is the red start, each branch's node and wall, and the green goal |
| Maze.MazeGenerator.PaintCellAndRefresh | src/MazeGenerator.java:49-53 | painting an in-grid cell appends exactly that event to the log |
| Maze.MazeGenerator.GenerateMaze | src/MazeGenerator.java:55-59 | from an unmarked grid: (0, 0) red is logged first, then the carve's paints, then (rows - 2, cols - 2) green last, whether or not that cell was marked |
| Maze.MazeGenerator.MarkedShape | src/MazeGenerator.java:62-89 | in every valid state no cell with two odd coordinates is marked, and after the first visit the marked cells number 2n + 1 for n branches |
| Maze.MazeGenerator.Picks | src/MazeGenerator.java:96-97 | one pass over n entries draws n picks, the pick of step i in [0, i] |
| Maze.MazeGenerator.DrawnPicks | src/MazeGenerator.java:95-101 | the arrangement the draws leave is the shuffle of the picks they scale to |
| Maze.MazeGenerator.DrawnPermutes | src/MazeGenerator.java:95-101 | the arrangement the draws leave is a permutation of the one the shuffle started with |
| Maze.MazeGenerator.ShuffleArray | src/MazeGenerator.java:95-102 | every index touched is inside the array; the array afterwards is the arrangement the next arr.Length draws give, and exactly that many numbers are drawn |
| Maze.MazeGenerator.Mark | src/MazeGenerator.java:62 | setting an in-grid flag adds exactly that cell to the marked cells |
| Maze.MazeGenerator.Connect | src/MazeGenerator.java:76-87 | the branch marks exactly the node two steps away and the wall between; it paints the node white and then the wall, in that order; the branch is appended to the carve |
| Maze.MazeGenerator.Visit | src/MazeGenerator.java:62-63 | the node becomes marked and nothing else does; the directions become the shuffle of their old order by the next four draws, exactly four numbers are drawn, and the array still holds the four unit steps, one of each |
| Maze.MazeGenerator.Branch | src/MazeGenerator.java:75-90 | a guarded branch marks the node (nx, ny) and the wall between; its edge is the first branch appended, so its white node and wall paints come before those of the recursion; it keeps the object invariant and the log shape, and marked cells and branches only grow |
| Maze.MazeGenerator.Dfs | src/MazeGenerator.java:61-92 | the visit terminates with its node marked; it keeps the object invariant and the paint log shape; marked cells and branches only grow, and no cell goes from marked to unmarked |

The table's contracts and lemmas together give the properties of the carve:

- **Bounds safety.** Every array access in `ShuffleArray`, `Mark`, `Connect`
  and `Dfs` is proved in range. Wall cells are in range because `Connect`
  requires the node and its target to be in the grid.
- **Termination.** `Dfs` and `Branch` decrease the set of unmarked grid cells.
  The loop of each visit runs over the four entries of the array.
- **Nodes are even.** The nodes `Dfs` is called on are nodes of the carve, so
  `Carving.Lattice` gives them two even coordinates.

## Left out

- The window, the panel grid, layout, `revalidate`/`repaint` and the `paint`
  override are not modelled; painting is kept only as the ghost `Log`.
- `cellSize`, the window size, and `main` with its fixed 100 x 180 x 10 grid
  are not modelled.
- `Thread.sleep(1)` and its swallowed `InterruptedException` have no effect on
  the maze and are not modelled.
- `Math.random()` is a parameter, not a generator. Double-precision rounding
  is replaced by exact reals (`Fraction`, a real in [0, 1)). Uniformity of the
  shuffle over the 24 orders is a statistical property and is not stated. What
  is proved is the bijection between valid picks and orders.
- Dimension validation: the source accepts any `rows` and `cols`, and indexes
  (rows - 2, cols - 2) when it paints the goal. The constructor and
  `GenerateMaze` therefore require `rows, cols >= 2` instead of returning an
  error.
- Java's 32-bit `int` arithmetic is modelled as unbounded integers. For grids
  that fit in memory no coordinate computed here overflows.
- Recursion depth and stack exhaustion on large grids are not modelled.
- Dfs: does not claim that every node cell of the grid ends up marked. The
  shared direction array is reshuffled by every nested visit, and the caller
  then reads the new order. A visit may therefore try one direction twice and
  never try another, so the code does not promise full coverage.
- Dfs: does not state the depth-first order in which branches are taken, that
  is, that every branch appended during a visit leaves the visited node or a
  node first reached during that visit. `Carved` admits any order that grows a
  tree from (0, 0).
