# Maze generation and search, modelled in Dafny

This project models the core of a small C++ maze toolkit and proves what its
code promises. There are four parts:

- **The rectangular wall-grid maze** (`maze.h`, `maze.cpp`).
  - A `Maze` is a `rows x cols` grid of `MazeCell`s with four wall flags each,
    plus an entrance and an exit.
  - Every wall edit is mirrored onto the facing flag of the neighbouring cell.
  - It has two generators: a per-edge coin-flip remover (`generateRandomMaze`)
    and a randomised depth-first carve on an explicit stack
    (`generateMazeWithDFS`).
  - Module `MazeTypes` holds the value types: `Point`, `WallDirection`,
    `CellType` and `MazeCell`.
  - Module `MazeGrid` holds the class `Maze`. Its grid is a `seq<seq<MazeCell>>`
    field that the methods reassign.
- **The searches** (`pathfinder.h`, `pathfinder.cpp`), in module `PathFinder`.
  - They are recursive depth-first search, breadth-first search with a parent
    map, A* with a lazily cleaned closed list, and the capped enumeration of
    simple paths.
  - Each search reads the maze and never changes it.
  - A step of a search is a step of the graph `OpenAdj(grid)`: from a cell to
    one of its accessible neighbours.
  - Module `Walks` states walks, reachability and breadth-first layering over
    any adjacency function. The grid searches and the room searches share it.
- **The concentric-ring maze** (`src/CircularMaze.cpp` and the older root
  `CircularMaze.cpp`), in module `RingMaze`.
  - Ring `r` has `6 * 2^r` slots. Slot `i` touches its two ring neighbours, and
    slots `2i` and `2i + 1` of the next ring.
  - The floating-point ring ratio of the source is always exactly 2, so it is
    written as `* 2` and `/ 2`. The `float` products `i * ratio` and
    `i / ratio` equal `2i` and `i / 2` only while slot indexes stay below
    2^24, that is for at most 22 rings (see "## Left out").
  - The checked variant of each operation and the unchecked older one are both
    members of one class, `CircularMaze`.
  - Two behaviours of the source are reproduced as written:
    - One concentric flag gates both outward neighbours.
    - Carving between slots `n - 1` and `0` brings down the flag at slot 0. That
      flag is the wall between slots 0 and 1 (`RingMaze.ClearedFlagBetween`).
  - The carve is proved to visit every cell exactly once and to bring down
    exactly the flags removeWallBetween clears for its carved pairs. Each
    carve outside the wrap pair opens its two cells to each other. Because of
    the wrap pair, the result is not claimed to be connected.
- **The Mondrian room mazes**.
  - The random layout (`src/mondrian_maze.cpp`) is in modules `Mondrian` and
    `MondrianPaths`. It cuts an 800 x 800 canvas into rectangles, largest first,
    and links the rooms whose edges touch. It picks the farthest pair of rooms as
    entrance and exit, searches breadth-first between rooms, and enumerates the
    shortest routes up to a cap.
  - The hand-drawn fourteen-room layout and its path-queue search
    (root `mondrian_maze.cpp`) are in module `MondrianTable`.
  - Module `Rooms` holds the shared `Room` record and the room graph.

Random sources are parameters (oracles):

- `roll: nat -> nat` is the k-th draw of the DFS carve.
- `openRight` / `openDown` are the per-edge coins of `generateRandomMaze`.
- `shuffle` is the ring carve's neighbour shuffle. It is required to permute
  its input.
- `rand: nat -> nat` is the stream of `rand()` values of the Mondrian cutter.

The by-reference arguments of the recursive helpers (`path`, `visited`,
`visitedCount`, `allPaths`) are passed in and returned.

## Model

| member | source | states |
|---|---|---|
| MazeTypes.DirIndex | maze.h:19-24 | TOP, RIGHT, BOTTOM and LEFT are wall slots 0, 1, 2 and 3, each slot belonging to exactly one direction |
| MazeTypes.EqualsIsIdentity | maze.h:38-43 | `==` holds exactly when both coordinates agree, and `!=` is exactly its negation |
| MazeTypes.LessIsStrictTotalOrder | maze.h:44-47 | `<` is irreflexive and transitive, and for distinct points exactly one of `a < b`, `b < a` holds |
| MazeTypes.DefaultCell | maze.h:55-60 | a default cell has all four walls and is typed PATH |
| MazeTypes.MazeCell.SetWall | maze.h:67-70 | wall `d` reads back the value written, every other wall and the type are unchanged |
| MazeTypes.MazeCell.RemoveWall | maze.h:72-75 | wall `d` reads back absent, every other wall and the type are unchanged |
| MazeTypes.SetThenHas | maze.h:62-70 | `hasWall(e)` after `setWall(d, v)` is `v` for `e == d` and the old flag otherwise |
| MazeTypes.MazeCell.WallCount | maze.h:51-53 | a cell has at most four walls, and exactly four when every flag is set |
| MazeTypes.RemoveWallCount | maze.h:72-75 | removing a standing wall lowers the cell's wall count by one, removing an absent one changes nothing |
| MazeGrid.AdjacentCell | maze.cpp:67-75 | the adjacent cell in any direction is exactly one step away |
| MazeGrid.Opposite | maze.cpp:77-85 | the opposite of a direction is never the direction itself (AdjacentRoundTrip: it is an involution) |
| MazeGrid.StepDirection | maze.cpp:97-110 | for two cells one step apart, the chosen direction leads from the first to the second |
| MazeGrid.AdjacentRoundTrip | maze.cpp:67-85 | the opposite direction is an involution, stepping there and back returns to the start, and distinct directions lead to distinct cells |
| MazeGrid.StepDirectionOfAdjacent | maze.cpp:97-110 | the direction chosen from the offset of two adjacent cells is the one that leads from the first to the second |
| MazeGrid.WithWallEffect | maze.cpp:50-61 | setting a wall changes exactly that flag and, when the neighbour is on the grid, its facing flag; cell types stay; symmetric walls stay symmetric |
| MazeGrid.CanMoveSymmetric | maze.cpp:247-268 | on a grid whose facing flags agree, one can move from `p` to `q` exactly when one can move from `q` to `p` |
| MazeGrid.AccessibleSpec | maze.cpp:270-285 | the accessible neighbours are at most four and distinct, are the cells `canMoveTo` allows, lie on the grid and are among all neighbours |
| MazeGrid.NeighboursViaUnfold | maze.cpp:270-302 | both neighbour lists are built in the order TOP, RIGHT, BOTTOM, LEFT |
| MazeGrid.AllNeighboursSpec | maze.cpp:287-302 | the neighbours are at most four and distinct, and are exactly the on-grid cells one step away |
| MazeGrid.AllCellsCount | maze.cpp:243-245 | the valid positions number exactly `rows * cols` |
| MazeGrid.TotalWallsOpenEdge | maze.cpp:87-114 | opening an inner wall whose two facing flags stand lowers the flag total by two |
| MazeGrid.TotalWallsFull | maze.cpp:11-20 | a fully walled grid holds `4 * rows * cols` wall flags |
| MazeGrid.CarvePush | maze.cpp:218-228 | carving from the top of the stack to an unmarked neighbour keeps the carve invariant: marked cells reachable, unmarked cells fully walled, boundary closed, flag total `4 * rows * cols - 2 * carves`, one carve per marked cell beyond the first |
| MazeGrid.CarvePop | maze.cpp:229-231 | popping a cell whose neighbours are all marked keeps the carve invariant |
| MazeGrid.CarveDone | maze.cpp:201-232 | when the stack empties every cell is marked, exactly `rows * cols - 1` walls were carved, and the open walls form a spanning tree from the entrance with a closed boundary |
| MazeGrid.CoinCellLayout | maze.cpp:147-157 | after the coins of cell (i, j) every wall stands exactly when no coin drawn so far opened it |
| MazeGrid.DoorSteps | maze.cpp:159-180 | opening a door clears TOP in row 0, else BOTTOM in the last row, and LEFT in column 0, else RIGHT in the last column, and nothing else |
| MazeGrid.ResetCell | maze.cpp:304-311 | one step of resetVisited's loop turns a VISITED cell into PATH and leaves every other cell as it was |
| MazeGrid.Maze.constructor | maze.cpp:11-27 | every cell is fully walled; the entrance is (0,0) typed ENTRANCE, the exit is (rows-1, cols-1) typed EXIT (the exit wins on a 1x1 grid), every other cell is PATH |
| MazeGrid.Maze.GetCell | maze.cpp:29-35 | the stored cell for a valid position, otherwise a fully walled PATH cell |
| MazeGrid.Maze.IsValidPosition | maze.cpp:243-245 | holds exactly when both coordinates are within the grid, that is, when the position is one of its cells |
| MazeGrid.Maze.HasWall | maze.cpp:43-48 | every wall of a position off the grid stands; on the grid it is the stored cell's flag |
| MazeGrid.Maze.CanMoveTo | maze.cpp:247-268 | a move is allowed exactly to a cell in the accessible-neighbour list; such a cell is one of the grid neighbours and the wall towards it is down |
| MazeGrid.Maze.SetCellType | maze.cpp:37-41 | retypes a valid cell and nothing else; an invalid position changes nothing |
| MazeGrid.Maze.SetWall | maze.cpp:50-61 | a no-op off the grid; otherwise the grid becomes `WithWall`, with the flag and its in-grid mirror set, and the walls stay symmetric |
| MazeGrid.Maze.RemoveWall | maze.cpp:63-65 | setWall with `false` |
| MazeGrid.Maze.RemoveWallBetween | maze.cpp:87-114 | a no-op unless both points are valid and one step apart; otherwise exactly the two facing flags are cleared |
| MazeGrid.Maze.SetEntrance | maze.cpp:116-124 | an invalid point changes nothing; a valid one becomes the entrance typed ENTRANCE, the previous entrance becomes PATH, walls and other cells stay |
| MazeGrid.Maze.SetExit | maze.cpp:126-134 | as SetEntrance, for the exit |
| MazeGrid.Maze.GetAccessibleNeighbors | maze.cpp:270-285 | returns the accessible list that AccessibleSpec characterises |
| MazeGrid.Maze.GetAllNeighbors | maze.cpp:287-302 | returns the neighbour list that AllNeighboursSpec characterises |
| MazeGrid.Maze.ResetCells | maze.cpp:139-144 | every cell becomes a default cell: fully walled and PATH |
| MazeGrid.Maze.GenerateRandomMaze | maze.cpp:136-181 | each wall stands exactly when neither its coin nor a door opened it; the only gaps in the outer boundary are the doors of the entrance and exit; every cell ends typed PATH |
| MazeGrid.Maze.CoinCell | maze.cpp:147-157 | the two coins of one cell keep the coin layout, one cell further on |
| MazeGrid.Maze.OpenDoor | maze.cpp:159-180 | clears exactly the outer walls DoorSteps names at the door cell, types unchanged |
| MazeGrid.Maze.GenerateMazeWithDFS | maze.cpp:183-237 | the carve makes exactly `rows * cols - 1` openings, every cell is reachable from the entrance, the boundary stays closed, and only the entrance and exit are retyped |
| MazeGrid.Maze.StartCarve | maze.cpp:185-199 | after the reset every cell is a fully walled PATH cell, only the entrance is marked and stacked, and the carve invariant holds with no carves |
| MazeGrid.Maze.CarveStep | maze.cpp:201-232 | one round either marks and carves to a new cell or pops the stack; the carve invariant holds and the measure drops |
| MazeGrid.Maze.UnvisitedNeighbours | maze.cpp:205-216 | the unvisited on-grid neighbours of the current cell, in TOP, RIGHT, BOTTOM, LEFT order |
| MazeGrid.Maze.MarkDoors | maze.cpp:234-236 | retypes the entrance and exit, keeps every wall and so the spanning carve |
| MazeGrid.Maze.ResetVisited | maze.cpp:304-314 | VISITED cells become PATH, the entrance and exit get their types back, walls stay |
| MazeGrid.Maze.Clone | maze.cpp:414-420 | a fresh maze with the same size, grid, entrance and exit |
| MazeGrid.Maze.CountWalls | maze.cpp:422-434 | half the total number of standing wall flags |
| PathFinder.ManhattanDistance | pathfinder.cpp:224-226 | never negative, and zero exactly on equal points |
| PathFinder.ManhattanAlongWalk | pathfinder.cpp:224-226 | along any walk of unit steps the Manhattan estimate drops by at most one per step, so it never overstates the remaining steps |
| PathFinder.MakeNode | pathfinder.h:42-43 | the node keeps the given cell, g, h and parent, and its f is g + h |
| PathFinder.GreaterIsStrictWeakOrder | pathfinder.h:45-47 | operator> is irreflexive, asymmetric and transitive, and two nodes are unordered by it exactly when their f is equal: the strict weak order `std::greater` needs |
| PathFinder.FindPathDFS | pathfinder.cpp:12-41 | found exactly when the exit is reachable; a found path is a walk from entrance to exit that repeats no cell, with `steps = |path| - 1`; otherwise the path is empty and `steps` is 0; `visitedNodes` is between 1 and the cell count |
| PathFinder.DfsHelper | pathfinder.cpp:43-70 | marks the current cell; on success the path is extended by a simple walk to the target through fresh cells; on failure the path is restored and every newly marked cell is a dead end; the count grows by exactly the number of newly marked cells |
| PathFinder.DfsNeighbour | pathfinder.cpp:59-65 | the recursive call for one unvisited neighbour, with the same promises, lifted to the caller's path |
| PathFinder.FindPathBFS | pathfinder.cpp:72-138 | found exactly when the exit is reachable; a found path is a walk from entrance to exit no longer than any other such walk, with `steps = |path| - 1`; `visitedNodes` is between 1 and the cell count |
| PathFinder.BfsRound | pathfinder.cpp:93-112 | one round of the queue loop keeps the layering invariant: labels are shortest distances, the queue is ordered by label, the count equals the labelled cells |
| PathFinder.BfsVisitNeighbours | pathfinder.cpp:103-111 | the queue is extended by exactly the accessible neighbours that were unmarked, each with the current cell as parent, and the count grows by as many; every accessible neighbour ends marked, one level deeper than the current cell if it was new |
| PathFinder.BfsFound | pathfinder.cpp:97-100 | when the exit reaches the head of the queue, the traced path is a shortest walk |
| PathFinder.TracePath | pathfinder.cpp:121-135 | following the parent map from the exit back to the entrance gives a walk of `d[exit] + 1` cells |
| PathFinder.FindPathAStar | pathfinder.cpp:140-222 | found exactly when the exit is reachable; a found path is a walk from entrance to exit no longer than any other such walk, with `steps = |path| - 1`; `visitedNodes` is between 1 and the cell count, and exactly 1 on an empty grid, where only the entrance is closed |
| PathFinder.AStarRound | pathfinder.cpp:163-202 | one pop of the open list keeps the search invariant (each cell closed at most once, the count equals the closed cells, closed cells hold their shortest distance) or finds the exit with a shortest distance |
| PathFinder.AStarSkip | pathfinder.cpp:167-170 | dropping a popped node whose cell is closed keeps the invariant |
| PathFinder.AStarClose | pathfinder.cpp:172-174 | a popped node of least f whose cell is open holds the cell's shortest distance, and closing it keeps the invariant |
| PathFinder.AStarVisit | pathfinder.cpp:172-201 | closing and counting an open popped cell of least f: at the exit it yields a node no further than any walk and a count between 1 and the cell count; elsewhere the expansion keeps the invariant with the exit still open; either way fewer cells remain to close |
| PathFinder.AStarFinish | pathfinder.cpp:177-181 | when the closed cell is the exit, its node holds a shortest distance |
| PathFinder.AStarExpand | pathfinder.cpp:184-201 | relaxing all neighbours of the closed cell restores the invariant |
| PathFinder.AStarRelax | pathfinder.cpp:185-200 | a neighbour that is not closed gets a new node with `g + 1` when it had none or a larger `g` |
| PathFinder.AStarExhausted | pathfinder.cpp:163-202 | when the open list runs out before the exit is closed, the exit is unreachable and the closed count is between 1 and the cell count (1 on an empty grid) |
| PathFinder.ClosedBound | pathfinder.cpp:172-173 | the cells closed, all on the grid apart from the entrance of an empty grid, number at most the cells of the grid, and at most one on an empty grid |
| PathFinder.PopMin | pathfinder.h:45-47 | picks an open node with no other open node of smaller f, the order `std::greater` pops by |
| PathFinder.ReconstructPath | pathfinder.cpp:228-239 | following parent links from a node gives a walk from the entrance to its cell of `gCost + 1` cells |
| PathFinder.OptimalResultsAgree | pathfinder.cpp:72-222 | two results that both meet the BFS/A* contract agree on `found` and on `steps`, so A* and BFS report the same step count |
| PathFinder.FindAllPaths | pathfinder.cpp:241-253 | on a non-empty grid, or on any grid with a cap of 0: every listed path is a simple walk from entrance to exit, none is listed twice, a non-negative `maxPaths` caps the count, and unless the cap is reached every simple walk is listed |
| PathFinder.FindAllPathsDefault | pathfinder.h:71 | findAllPaths with the default cap of 100 |
| PathFinder.FindAllPathsDFS | pathfinder.cpp:255-281 | appends exactly the simple continuations of the current path to the target, up to the cap, and restores the path and the visited marks on return |
| PathFinder.AllPathsNeighbour | pathfinder.cpp:270-275 | the recursive call for one unvisited neighbour adds the continuations through that neighbour |
| PathFinder.UnmarkMark | pathfinder.cpp:264-280 | marking a cell and unmarking it again gives back the same visited matrix |
| RingMaze.SlotsDouble | src/CircularMaze.cpp:10-13 | each ring has twice the slots of the one inside it |
| RingMaze.Slots | src/CircularMaze.cpp:11 | every ring has at least six slots |
| RingMaze.TotalSlotsClosed | src/CircularMaze.cpp:10-13 | `k` rings hold `6 * (2^k - 1)` cells in all |
| RingMaze.RingCellsCount | src/CircularMaze.cpp:91-95 | the valid cells of the ring maze number exactly the total slot count |
| RingMaze.FlagBetweenSymmetric | src/CircularMaze.cpp:55-89 | the wall flag between two adjacent cells is the same seen from either side |
| RingMaze.ClearedFlagBetween | src/CircularMaze.cpp:136-146 | the flag removeWallBetween clears is the one between the two cells except for the pair of slots `n - 1` and `0`, where it is the wall between slots 0 and 1 |
| RingMaze.RingConnected | src/CircularMaze.cpp:34-52 | any set that holds the centre cell and is closed under ring adjacency holds every cell, so the ring graph is connected |
| RingMaze.WalledRings | src/CircularMaze.cpp:14-19 | one row of flags per ring, one flag per slot, all standing |
| RingMaze.CircularMaze.constructor | src/CircularMaze.cpp:8-22 | `max(3, rings)` rings of `6 * 2^r` slots, every flag standing, entrance (0,0) and exit (rings-1, 0) |
| RingMaze.CircularMaze.Unclamped | CircularMaze.cpp:8-26 | the ring count as given, the same slots, flags, entrance and exit |
| RingMaze.CircularMaze.IsValidPositionSpec | src/CircularMaze.cpp:91-95 | a position is valid exactly when its ring exists and its slot lies within that ring |
| RingMaze.CircularMaze.GetCellsInRing | src/CircularMaze.cpp:97-102 | `6 * 2^r` for an existing ring, 0 otherwise |
| RingMaze.CircularMaze.GetAllNeighbors | src/CircularMaze.cpp:106-134 | the listed points are exactly the cells adjacent in the ring graph; the list is empty for an invalid cell |
| RingMaze.NeighbourList | src/CircularMaze.cpp:106-134 | the list is the two ring neighbours, then the two outward slots when an outer ring exists, then the inward slot when an inner ring exists, and these are exactly the adjacent cells |
| RingMaze.CircularMaze.GetAccessibleNeighbors | src/CircularMaze.cpp:55-89 | the listed points are exactly the adjacent cells whose separating flag is down |
| RingMaze.OpenList | src/CircularMaze.cpp:55-89 | the accessible list is assembled as ring neighbours, both outward slots behind the one concentric flag, then the inward slot |
| RingMaze.OpenAround | src/CircularMaze.cpp:62-69 | a ring neighbour is open exactly when the radial flag at the cell, or at the slot before it, is down |
| RingMaze.OpenOutward | src/CircularMaze.cpp:71-78 | both outward slots are open exactly when the cell's concentric flag is down |
| RingMaze.OpenInward | src/CircularMaze.cpp:80-87 | the inward slot `i / 2` is open exactly when its concentric flag is down |
| RingMaze.AccessibleSymmetric | src/CircularMaze.cpp:55-89 | `q` is accessible from `p` exactly when `p` is accessible from `q` |
| RingMaze.CircularMaze.AllNeighborsUnchecked | CircularMaze.cpp:115-142 | on a valid cell the unfiltered list equals the checked one, since `2i + 1` and `i / 2` are always in range |
| RingMaze.CircularMaze.AccessibleUnchecked | CircularMaze.cpp:64-98 | on a valid cell the unchecked accessible list equals the checked one |
| RingMaze.CircularMaze.SlotsAround | CircularMaze.cpp:78-95 | outward slots `2i` and `2i + 1` need no reduction and the inward slot `i / 2` exists |
| RingMaze.CircularMaze.Generate | src/CircularMaze.cpp:24-53 | every cell is pushed exactly once and the pushes number the total slot count; each push after the first is logged as a carve from an earlier-pushed adjacent cell to the new one; a flag is down afterwards exactly when it was down before or is the flag removeWallBetween clears for a logged carve; every carve outside the wrap pair leaves its two cells open to each other |
| RingMaze.CircularMaze.CarveStep | src/CircularMaze.cpp:34-52 | one round either pushes an unvisited neighbour of the stack top, logging the carve and bringing down exactly `ClearedFlag(top, next)`, or pops with every flag unchanged; the stack invariant holds and the measure drops |
| RingMaze.CircularMaze.FirstUnvisited | src/CircularMaze.cpp:38-44 | the first valid unvisited point of the shuffled list, or (-1, -1) when there is none |
| RingMaze.CircularMaze.Unvisited | src/CircularMaze.cpp:26-29 | one unmarked flag per slot of every ring |
| RingMaze.CircularMaze.RemoveWallBetween | src/CircularMaze.cpp:136-146 | on one ring brings down the radial flag at the smaller slot, across rings the concentric flag of the inner cell, when it is in range; nothing else changes; that flag is `ClearedFlag(a, b)` |
| RingMaze.CircularMaze.RemoveWallUnchecked | CircularMaze.cpp:144-152 | the same flag, which must be in range |
| RingMaze.RemoveWallEffect | src/CircularMaze.cpp:136-146 | except for the wrap pair, clearing that flag opens the pair of cells in both directions |
| RingMaze.CarveLogPush | src/CircularMaze.cpp:45-48 | a push after a carve from a pushed cell to an adjacent new cell extends the carve log |
| RingMaze.CarveWallsStep | src/CircularMaze.cpp:45-46 | bringing down one more carve's flag keeps "exactly the logged carves' flags are down" |
| RingMaze.CarvedOpen | src/CircularMaze.cpp:136-146 | a logged carve outside the wrap pair ends with its two cells open to each other |
| RingMaze.CarveDone | src/CircularMaze.cpp:34-52 | when the stack empties every cell was pushed exactly once and the carves are one fewer than the cells |
| RingMaze.PushStep | src/CircularMaze.cpp:45-48 | marking and pushing an unvisited cell keeps the carve invariant and shrinks the unvisited set |
| Mondrian.Split | src/mondrian_maze.cpp:41-51 | a block is cut exactly when the side being cut is at least 120, across the longer side or by depth parity for a square, and the first piece is at least 60 across and the second at least 1 |
| Mondrian.HalvesArea | src/mondrian_maze.cpp:44-51 | the two pieces' areas sum to the block's |
| Mondrian.HalvesInside | src/mondrian_maze.cpp:44-51 | both pieces lie inside the canvas when the block does |
| Mondrian.Largest | src/mondrian_maze.cpp:35-37 | the index of a block of largest area, the first such one; the end index for an empty queue |
| Mondrian.SplitBlocks | src/mondrian_maze.cpp:30-61 | the blocks passed in stay first, at least one and at most `targetBlocks` blocks in all, their areas add the canvas's, each new block lies in the canvas with colour index its position mod 10 |
| Mondrian.CutStep | src/mondrian_maze.cpp:39-51 | cutting the largest block keeps the loop invariant, including the area of blocks plus queue |
| Mondrian.SettleStep | src/mondrian_maze.cpp:52-55 | putting down an uncuttable block keeps the loop invariant |
| Mondrian.CutEnd | src/mondrian_maze.cpp:57-60 | putting down what is still queued gives the promises of SplitBlocks |
| Mondrian.RoomsOf | src/mondrian_maze.cpp:70-74 | room `i` has id `i`, the block's rectangle, the colour its index names, and no neighbours yet |
| Mondrian.LinkRooms | src/mondrian_maze.cpp:76-93 | each room's list gathers, in pair order, the ids of the rooms it shares an edge with |
| Mondrian.LinkOne | src/mondrian_maze.cpp:78-91 | testing one pair of rooms keeps the linking invariant, one pair further on |
| Mondrian.NotBoth | src/mondrian_maze.cpp:80-91 | no pair of rooms passes both the side-by-side and the one-above test, so no id is pushed twice |
| Mondrian.GatheredSpec | src/mondrian_maze.cpp:76-93 | a room's gathered list holds exactly the other rooms it touches, each once |
| Mondrian.LinkedRooms | src/mondrian_maze.cpp:76-93 | after linking, `v` is a neighbour of `u` exactly when they are distinct and share an edge of positive length |
| Mondrian.NeighboursSymmetric | src/mondrian_maze.cpp:76-93 | neighbourhood goes both ways and no room is its own neighbour |
| Mondrian.LinkedIsWellLinked | src/mondrian_maze.cpp:71-93 | linked rooms sit at their ids and list each neighbour once, by the id of a room |
| Mondrian.Farthest | src/mondrian_maze.cpp:95-105 | the ordered pair of rooms with the largest squared centre distance, the first in row-major order; 0 and 0 with no rooms |
| Mondrian.ScanRow | src/mondrian_maze.cpp:97-102 | scanning one row of pairs keeps the best-so-far invariant: the largest distance seen, first in row-major order |
| Mondrian.ScanDone | src/mondrian_maze.cpp:95-105 | the scan over all ordered pairs leaves the first farthest pair |
| Mondrian.RoomBfsRound | src/mondrian_maze.cpp:132-158 | one round of the room queue keeps the layering invariant |
| Mondrian.TraceParents | src/mondrian_maze.cpp:136-144 | following `parent_map` from the target back to the start gives a walk of `d[t] + 1` rooms |
| Mondrian.VisitNeighbours | src/mondrian_maze.cpp:152-158 | the queue is extended by exactly the neighbours not yet visited, each with the current room as parent, one level deeper; the visited set becomes the old one plus every neighbour |
| Mondrian.MondrianMaze.FindPath | src/mondrian_maze.cpp:120-162 | non-empty exactly when the target is reachable and every route has at least `minRooms` rooms (as `size_t`); a non-empty result is a shortest route |
| Mondrian.MondrianMaze.GetRoom | src/mondrian_maze.cpp:114 | the room at `id` when `id` is in range, and nothing otherwise |
| Mondrian.MondrianMaze.GetRoomCount | src/mondrian_maze.cpp:113 | the number of rooms |
| Mondrian.MondrianMaze.GetRooms | src/mondrian_maze.cpp:115 | the stored rooms |
| Mondrian.MondrianMaze.GetEntranceId | src/mondrian_maze.cpp:116 | the stored entrance id, the first room of the farthest pair |
| Mondrian.MondrianMaze.GetExitId | src/mondrian_maze.cpp:117 | the stored exit id, the second room of the farthest pair |
| Mondrian.RoomsAreaOfBlocks | src/mondrian_maze.cpp:70-74 | the rooms cover the same area as the blocks |
| Mondrian.BuildRooms | src/mondrian_maze.cpp:66-93 | at most 100 rooms inside the canvas, covering its area, coloured by position, linked exactly to the rooms they touch |
| Mondrian.Attempt | src/mondrian_maze.cpp:66-108 | a layout with the farthest pair as entrance and exit, accepted exactly when the exit is reachable and every route has at least three rooms |
| Mondrian.Accepting | src/mondrian_maze.cpp:107-108 | findPath with at least one room giving a route of three rooms or more is exactly that acceptance condition |
| Mondrian.Regenerate | src/mondrian_maze.cpp:65-110 | attempts until one is accepted or the bound is reached, keeping the layout and farthest-pair facts of the last attempt |
| Mondrian.MondrianMaze.constructor | src/mondrian_maze.cpp:63-111 | the maze holds a layout whose entrance and exit are the farthest pair |
| MondrianPaths.ShortestLength | src/mondrian_maze.cpp:166-182 | -1 exactly when the end cannot be reached, otherwise the number of steps of a shortest route |
| MondrianPaths.FoundLength | src/mondrian_maze.cpp:173-174 | when the end reaches the head of the queue, its label is the length of a shortest route |
| MondrianPaths.LabelNeighbours | src/mondrian_maze.cpp:175-180 | every unlabelled neighbour is labelled one more than the current room and queued with its label |
| MondrianPaths.LimitedDfs | src/mondrian_maze.cpp:187-202 | appends only continuations of the path that reach the end after exactly `minLen` steps without repeating a room, none of them twice; stops at `maxPaths`; unless the list is then full, appends every such continuation, and at least one when one exists and there is room |
| MondrianPaths.FindAllPathsLimited | src/mondrian_maze.cpp:165-204 | appends only shortest simple routes from start to end, none of them twice; nothing when the end is unreachable or the list already holds `maxPaths`; never beyond `maxPaths`; otherwise at least one, and every shortest route unless the list is then full |
| MondrianPaths.TopLevel | src/mondrian_maze.cpp:182-203 | a continuation of the empty path of shortest length is a shortest simple route |
| MondrianPaths.TopComplete | src/mondrian_maze.cpp:184-203 | listing every simple continuation of the empty path with the shortest number of rooms lists every shortest route |
| MondrianTable.TableWellLinked | mondrian_maze.cpp:9-24 | the fourteen rooms sit at their ids and list each neighbour once, by the id of a room |
| MondrianTable.TableSymmetric | mondrian_maze.cpp:10-23 | the neighbour lists of the table go both ways and hold no self-loop |
| MondrianTable.TableRoom | mondrian_maze.cpp:10-23 | each room of the table sits at its id, lists no neighbour twice and only rooms that list it back |
| MondrianTable.TopRightRoute | mondrian_maze.cpp:10-23 | 0-1-9-13 is a simple route from the entrance to the exit |
| MondrianTable.TableShortest | mondrian_maze.cpp:10-23 | every route from room 0 to room 13 passes through at least four rooms |
| MondrianTable.MondrianMaze.constructor | mondrian_maze.cpp:7-27 | the fixed table, entrance 0 and exit 13 |
| MondrianTable.MondrianMaze.GetRoom | mondrian_maze.cpp:30 | the room at `id` when `id` is in range, and nothing otherwise |
| MondrianTable.MondrianMaze.GetRoomCount | mondrian_maze.cpp:29 | the number of rooms |
| MondrianTable.MondrianMaze.GetRooms | mondrian_maze.cpp:31 | the stored rooms |
| MondrianTable.MondrianMaze.GetEntranceId | mondrian_maze.cpp:32 | the stored entrance id |
| MondrianTable.MondrianMaze.GetExitId | mondrian_maze.cpp:33 | the stored exit id |
| MondrianTable.MondrianMaze.FindPath | mondrian_maze.cpp:36-53 | a non-empty result runs from start to end along the lists, repeats no room and has at least `minRooms` rooms (as `size_t`), and no such route is shorter; empty exactly when there is no such route |
| MondrianTable.PushExtensions | mondrian_maze.cpp:44-50 | queues the path extended by each neighbour it does not hold, in list order; the count of routes the queue can still produce trades the path itself for its continuations |
| MondrianTable.FoundFirst | mondrian_maze.cpp:43 | a qualifying head of the queue is no longer than any qualifying route |
| MondrianTable.RoundOrdered | mondrian_maze.cpp:40-50 | a round keeps the queue in order of length, none more than one room longer than the head |
| MondrianTable.RoundCovers | mondrian_maze.cpp:40-50 | every simple route from the start has been taken off or has a prefix still queued |
| MondrianTable.SearchExhausted | mondrian_maze.cpp:40-52 | when the queue empties no route qualifies |
| MondrianTable.RoundWeight | mondrian_maze.cpp:40-50 | each round lowers the count of simple routes the queue can still produce, so the search ends |
| MondrianTable.EntranceToExit | include/mondrian_maze.h:20 | with the default of three rooms, findPath from the entrance to the exit gives a simple four-room route |
| MondrianTable.TableRoute | mondrian_maze.cpp:9-26 | 0-1-9-13 qualifies with at least three rooms and no qualifying route is shorter |
| Rooms.Pigeonhole | src/mondrian_maze.cpp:120-162 | a route that repeats no room has at most as many rooms as the maze |
| Rooms.WalkOnRooms | src/mondrian_maze.cpp:152-158 | a walk along well-linked neighbour lists that starts on a room stays on rooms |

## Left out

- Output of every kind is not modelled: `printMaze`, `printMazeWithPath`, `printMazeDetailed`, `compareAlgorithms` and `printSearchResult`. The same goes for the search timing (`searchTime`) and the algorithm-name strings of `SearchResult`.
- `getConnectivity` is not modelled, because it returns a floating-point ratio.
- `countOpenPaths` is not modelled: it subtracts `countWalls` from the number of inner walls and goes negative on a fully walled grid.
- `generatePerfectMaze` is not modelled separately: it only calls `generateMazeWithDFS`.
- `getRows`, `getCols`, `getEntrance` and `getExit` are read as the fields `rows`, `cols`, `entrance` and `exit`.
- `loadFromWallArray` and `PointHash` are not modelled. The first is declared without a body; the second only hashes for the standard containers, which are modelled as maps and sets.
- The random generators (`mt19937`, `random_device`, `rand`, `srand(time(0))`, `std::shuffle` and the `dist(rng) < p` test) become oracle parameters. Nothing is said about their distributions.
- 32-bit integer arithmetic is not modelled: all integers are unbounded. On the rectangular grid and the Mondrian canvas the sizes keep every product far below the limit. The ring maze is another matter; see the RingMaze.CircularMaze.constructor and RingMaze.CircularMaze.Unclamped lines below.
- The only cast written out is `(size_t)minRooms` in both `findPath`s (`Rooms.SizeT`).
- MazeGrid.Maze.GenerateMazeWithDFS: requires a non-empty maze, since on an empty one the source marks the entrance in its `visited` matrix out of range (maze.cpp:198). Its parts StartCarve and MarkDoors require the same.
- MazeGrid.Maze.constructor: takes a size of type `nat`, since the source's `resize` fails on a negative size.
- PathFinder.FindPathDFS: requires a non-empty maze, since on an empty one the source marks the entrance in its `visited` matrix out of range (pathfinder.cpp:47).
- PathFinder.FindPathDFS: does not say which walk is returned. The contract covers only that it is a simple walk, not that it is the first one in TOP, RIGHT, BOTTOM, LEFT order.
- PathFinder.FindPathBFS: requires a non-empty maze, since on an empty one the source marks the entrance in its `visited` matrix out of range (pathfinder.cpp:88).
- PathFinder.FindPathBFS: does not say which shortest walk is returned, only that it is a shortest one.
- PathFinder.FindPathAStar: does not say which shortest walk is returned. Its contract bounds `visitedNodes` rather than equating it with the number of closed cells; AStarRound carries that equality.
- PathFinder.FindPathAStar: the source's heap nodes, raw pointers, `delete` and leaked superseded nodes become an arena of nodes addressed by index. The heap becomes a list from which a node of least f is picked (PopMin); ties are broken there by list position, where the source leaves them to the heap.
- PathFinder.FindAllPaths: requires a non-empty maze unless `maxPaths` is 0, since on an empty one findAllPathsDFS marks the entrance in the `visited` matrix out of range (pathfinder.cpp:264) once past the cap test.
- PathFinder.FindAllPathsDefault: requires a non-empty maze for the same reason: its cap of 100 lets findAllPathsDFS past the cap test.
- PathFinder.FindAllPaths: the contract does not state the order in which paths are listed.
- Mondrian.MondrianMaze.FindPath: does not say which shortest route is returned, only that it is a shortest one.
- MondrianPaths.FindAllPathsLimited: does not state the order in which the routes are appended (the order of the neighbour lists, depth first).
- MondrianPaths.FindAllPathsLimited: the unused `maxLength` parameter is accepted and ignored.
- Mondrian.MondrianMaze.constructor: the source loops until a layout is accepted. Termination of that loop depends on the random draws, so the model makes at most `attempts` tries. When none is accepted, the maze holds the last layout.
- Mondrian.SplitBlocks: the contract states the total area and that each block lies inside the canvas. It does not state that the blocks do not overlap.
- Mondrian.MondrianMaze.GetRoom: `rooms.at(id)` throws for an id out of range; the model returns `None` instead. The same holds for MondrianTable.MondrianMaze.GetRoom.
- RingMaze.CircularMaze.Generate: does not claim that the carved maze is connected, because the wrap-pair behaviour of removeWallBetween does not guarantee it.
- RingMaze.CircularMaze.Unclamped: requires a ring count of at least 0, since the source's `reserve` and `resize` fail on a negative count.
- RingMaze.CircularMaze.constructor: the model agrees with the source only for at most 22 rings. From 23 rings on, slot indexes reach 2^24. There the `float` products `(int)(i * ratio)` and `(int)(i / ratio)` of the neighbour lists (src/CircularMaze.cpp:74-83 and 120-129) round, while the model keeps `2i`, `2i + 1` and `i / 2`. For example, slot 16777219 of ring 22 gets inward slot 8388610 rather than 8388609. From 30 rings on, `6 * (1 << i)` (src/CircularMaze.cpp:11) overflows `int`, while the model's ring sizes stay `6 * 2^r`.
- RingMaze.CircularMaze.Unclamped: the same bound of 22 rings applies. The `float` products of the older neighbour lists (CircularMaze.cpp:82-91 and 129-139) round in the same way. From 30 rings on, the conversion of `6 * std::pow(2, i)` to `int` (CircularMaze.cpp:14) is out of range.
- RingMaze.CircularMaze.Generate: requires at least one ring. With none, which only Unclamped(0) allows, the older generate marks the centre cell in its `visited` matrix out of range (CircularMaze.cpp:38).
- The ring mazes are modelled as a standalone class. Their link to the `Maze` base class does not compile as written: `override` is applied to members that are not virtual, and the base is built with zero columns.
- Colours are carried as strings and are not interpreted.
- `findAllPathsLimited`'s recursive lambda works on a shared `path` and `visited`. The model passes them by value; the source undoes each push and insert on return, so the two agree.
