# Labyrinth: a verified model of the maze generator

The program draws a maze of `width` columns and `height` rows using depth-first
recursive backtracking. The maze is stored row by row in a padded grid of
`(width + 2) * (height + 2)` tiles. A one-tile border of blocked tiles surrounds
it, and the tile in column x and row y has index `x + y * (width + 2)`.

Each tile is a 32-bit field of flags:

- the four direction bits LEFT, UP, RIGHT and DOWN (bits 0 to 3);
- VISITED (bit 30);
- BLOCK (bit 31).

The walk `nextTile` does the following at each tile:

1. It raises the recorded maximum depth.
2. It refuses a tile that is visited or blocked.
3. Otherwise it marks the tile visited and tries its three onward directions once each. The straight move may come first; the rest follow in random order.
4. It sets the direction bit, which is a wall, for every attempt that could not go on.
5. It appends the tile to `tileOrder` in post-order.

`generate` starts the walk at the tile in column 1 of row 1, with its left wall
set. It can then open an entrance and an exit.

The project has three modules:

- `Tiles` (`tile.dfy`) models `Tile` as a class with one `bv32` field. Its varargs operations are loops over a sequence of flags, proved against a left fold `OrAll`. The direction helpers are proved against an independent definition by 4-bit rotation, and the binary rendering is proved against the value it denotes.
- `Grids` (`grid.dfy`) covers the index arithmetic of the padded grid: borders, coordinates, neighbours, the number of interior cells, reaching every cell, and reversing a sequence.
- `Labyrinths` (`labyrinth.dfy`) models `Labyrinth` as a class:
  - `tiles` is an `array<bv32>` and `tileOrder` an `array<int>`; `tileOrderIndex` and `maxDepth` are fields.
  - A ghost map `entry` records, for every visited tile, the direction of the move that entered it. The program does not hold this map; it exists so that the walls can be stated.
  - `nextTile` is split into methods that follow its parts: the check, the marking, the keep branch, one round of the loop, one attempt, and the final append. They are mutually recursive exactly as `nextTile` is.
  - Each method is proved against the walk invariant `Consistent` and the growth relation `Grew`, and the theorems about the finished maze are stated as predicates on the tile values.

The two random draws are nondeterministic choices: `r :| 0.0 <= r < 1.0` and
`index :| 0 <= index < moveCount`. Every property therefore holds for every
outcome of the random source.

What is proved about the finished labyrinth:

- `Complete`: every interior cell is visited and listed exactly once in `tileOrder`, so `tileOrderIndex == width * height`, and the start cell is listed last.
- `Marked`: no interior cell is blocked.
- `Passages`: between two interior neighbours there is a wall exactly when the walk went between them in neither direction, and walls look the same from both sides.
- `Enclosed`: every side of an interior cell that faces the border is walled, except for the opened exits.
- `Rim`: border tiles are BLOCK, except the opened entrance and exit, which hold `UP | DOWN`.
- `Rooted`: every cell but the start was entered from a visited cell, and `tileOrder` lists every cell before the cell it was entered from. Following these links from any cell therefore never comes back to a cell and ends at the start: the passages form a tree rooted at the start.
- `Connected`: from every interior cell there is a walk through open passages to the start, and a passage between two interior neighbours is open exactly when one of them was entered from the other.
- `1 <= maxDepth <= width * height`.
- The object invariant `Sound` (sizes, index ranges and a depth bounded by the visited cells) holds after the constructor, after every step of the walk and after `generate` with or without exits. `MaxDepth` requires only it.

## Model

| member | source | states |
|---|---|---|
| Tiles.FlagLayout | src/main/java/com/magicaleiling/labyrinth/Tile.java:4-18 | LEFT, UP, RIGHT, DOWN, VISITED and BLOCK are single bits at positions 0, 1, 2, 3, 30 and 31, and DIRECTION_BITS is the OR of the four directions |
| Tiles.Tile.constructor | src/main/java/com/magicaleiling/labyrinth/Tile.java:21-26 | the new tile's value is the OR of the given flags, which is 0 for none |
| Tiles.Tile.Apply | src/main/java/com/magicaleiling/labyrinth/Tile.java:28-32 | the new value is the old value ORed with every given flag |
| Tiles.ApplyMonotone | src/main/java/com/magicaleiling/labyrinth/Tile.java:28-32 | applying flags keeps every bit that was set, and applying them again changes nothing |
| Tiles.AppliedBits | src/main/java/com/magicaleiling/labyrinth/Tile.java:28-32 | after apply, a bit is set exactly when it was set before or some flag has it |
| Tiles.Tile.Remove | src/main/java/com/magicaleiling/labyrinth/Tile.java:34-38 | the new value is the old value with the bits of every given flag cleared |
| Tiles.RemoveMonotone | src/main/java/com/magicaleiling/labyrinth/Tile.java:34-38 | removing flags only clears bits, leaves none of the removed bits set, and removing them again changes nothing |
| Tiles.RemovedBits | src/main/java/com/magicaleiling/labyrinth/Tile.java:34-38 | after remove, a bit is set exactly when it was set before and no flag has it |
| Tiles.Tile.CheckAny | src/main/java/com/magicaleiling/labyrinth/Tile.java:40-46 | the result is true exactly when the value shares a bit with the OR of the flags |
| Tiles.AnyBits | src/main/java/com/magicaleiling/labyrinth/Tile.java:40-46 | the value shares a bit with the OR of the flags exactly when it shares a bit with one of them, so checkAny of no flags is false |
| Tiles.Directions | src/main/java/com/magicaleiling/labyrinth/Tile.java:48-58 | the reference candidate list by 4-bit rotation: three entries ending with d; for a direction d, three distinct directions without the opposite of d; [0, 0, 0] for 0 |
| Tiles.DirectionsTable | src/main/java/com/magicaleiling/labyrinth/Tile.java:48-58 | LEFT gives [DOWN, UP, LEFT], UP gives [LEFT, RIGHT, UP], RIGHT gives [UP, DOWN, RIGHT], DOWN gives [RIGHT, LEFT, DOWN] |
| Tiles.DirectionsCover | src/main/java/com/magicaleiling/labyrinth/Tile.java:48-58 | the candidates of a direction are exactly the three directions other than its opposite |
| Tiles.GetDirections | src/main/java/com/magicaleiling/labyrinth/Tile.java:48-58 | the shift-and-mask loop fills a fresh array of three entries, the last being the argument; for an argument within bits 0..3 the array equals the rotation reference Directions |
| Tiles.DirectionComponents | src/main/java/com/magicaleiling/labyrinth/Tile.java:60-67 | four 0/1 entries, each 1 exactly when the argument has LEFT, UP, RIGHT or DOWN; a single direction gives exactly one 1 |
| Tiles.Tile.ToString | src/main/java/com/magicaleiling/labyrinth/Tile.java:69-72 | 32 characters of '0' and '1' whose base-2 reading, most significant first, is the value taken as unsigned |
| Tiles.ToBinaryString | src/main/java/com/magicaleiling/labyrinth/Tile.java:71 | the unsigned binary digits of n with no leading zero (except "0" for 0), whose base-2 reading is n |
| Tiles.BinaryLength | src/main/java/com/magicaleiling/labyrinth/Tile.java:71 | a number below 2^k has at most k binary digits, so no 32-bit value is longer than the pad width |
| Tiles.LeftZeroPad | src/main/java/com/magicaleiling/labyrinth/Tile.java:74-80 | strings at least len long come back unchanged; shorter ones are len long, end with s and start with zeros |
| Tiles.PaddedValue | src/main/java/com/magicaleiling/labyrinth/Tile.java:74-80 | padding keeps the binary alphabet and the value denoted |
| Grids.BorderByCoordinates | src/main/java/com/magicaleiling/labyrinth/Labyrinth.java:32-37 | the constructor's index test marks exactly the cells in column 0 or width+1, or row 0 or height+1 |
| Grids.InteriorSize | src/main/java/com/magicaleiling/labyrinth/Labyrinth.java:29-42 | the cells the constructor leaves unblocked number width * height |
| Grids.NeighboursInRange | src/main/java/com/magicaleiling/labyrinth/Labyrinth.java:119-125 | the four neighbours of a non-border cell are stored cells |
| Labyrinths.InitialFlags | src/main/java/com/magicaleiling/labyrinth/Labyrinth.java:38-40 | a new empty tile is free and has no walls; a BLOCK tile is taken, blocked, not visited and has no direction bit |
| Labyrinths.Labyrinth.constructor | src/main/java/com/magicaleiling/labyrinth/Labyrinth.java:20-46 | tiles has (width+2)*(height+2) entries; an entry is BLOCK when the border test holds and 0 otherwise; tileOrder has the same length; tileOrderIndex and maxDepth are 0 |
| Labyrinths.IndexChange | src/main/java/com/magicaleiling/labyrinth/Labyrinth.java:119-125 | LEFT moves by -1, UP by -(width+2), RIGHT by +1 and DOWN by +(width+2) |
| Labyrinths.IndexChangeOpposite | src/main/java/com/magicaleiling/labyrinth/Labyrinth.java:119-125 | opposite moves cancel, no move stays in place, and different moves reach different cells |
| Labyrinths.NeighbourInRange | src/main/java/com/magicaleiling/labyrinth/Labyrinth.java:119-125 | a move from a non-border cell lands inside the tile array |
| Labyrinths.TakenFlags | src/main/java/com/magicaleiling/labyrinth/Labyrinth.java:83-85 | checkAny(VISITED, BLOCK) holds exactly when the tile is visited or blocked |
| Labyrinths.Labyrinth.NextTile | src/main/java/com/magicaleiling/labyrinth/Labyrinth.java:78-117 | keeps the walk invariant. maxDepth never decreases and reaches depth even on a refused tile. The result is true exactly when the tile was neither visited nor blocked. A refused tile changes no tile and no tileOrder entry. An entered tile is appended last, after every other tile the call visited. Every tile the call visited other than the entered one was entered from a tile the call also visited, and each listed tile comes before the tile it was entered from |
| Labyrinths.Labyrinth.Visit | src/main/java/com/magicaleiling/labyrinth/Labyrinth.java:87-116 | an entered tile is marked, explored and appended last; its back wall is as it was; depth + 1 <= maxDepth afterwards |
| Labyrinths.Labyrinth.Explore | src/main/java/com/magicaleiling/labyrinth/Labyrinth.java:89-113 | starting from the three candidates of the entering move, every candidate is tried, whether the keep branch fires or not, and the pool ends empty |
| Labyrinths.Labyrinth.Round | src/main/java/com/magicaleiling/labyrinth/Labyrinth.java:99-113 | one loop round tries one of the first count candidates, and afterwards the first count - 1 entries are exactly the candidates still untried |
| Labyrinths.Labyrinth.TryMove | src/main/java/com/magicaleiling/labyrinth/Labyrinth.java:91-104 | trying candidate k of the pool leaves it tried and removes exactly it from the untried pool |
| Labyrinths.Labyrinth.Attempt | src/main/java/com/magicaleiling/labyrinth/Labyrinth.java:102-104 | after an attempt the neighbour is visited or blocked; the wall of that move is set exactly when the walk did not go on; nothing else about the tile changes |
| Labyrinths.Labyrinth.Close | src/main/java/com/magicaleiling/labyrinth/Labyrinth.java:115-116 | with every candidate tried the tile is appended to tileOrder, and every tile the call visited is now listed |
| Labyrinths.ShiftDown | src/main/java/com/magicaleiling/labyrinth/Labyrinth.java:105-112 | the first count entries become the old first count + 1 entries without the one at index, in order; the rest of the array is unchanged |
| Labyrinths.ApplyVisited | src/main/java/com/magicaleiling/labyrinth/Labyrinth.java:87 | the tile becomes visited and taken, and its BLOCK bit and walls are unchanged |
| Labyrinths.ApplyWall | src/main/java/com/magicaleiling/labyrinth/Labyrinth.java:102-104 | the wall of the move is set, and the other walls, VISITED and BLOCK are unchanged |
| Labyrinths.RemoveWall | src/main/java/com/magicaleiling/labyrinth/Labyrinth.java:72-73 | the wall of the move is cleared, and the other walls, VISITED and BLOCK are unchanged |
| Labyrinths.MarkFlags | src/main/java/com/magicaleiling/labyrinth/Labyrinth.java:87 | OR with VISITED sets VISITED and changes no wall and not BLOCK |
| Labyrinths.WallFlags | src/main/java/com/magicaleiling/labyrinth/Labyrinth.java:94 | OR with a direction sets that wall and changes nothing else the walk reads |
| Labyrinths.OpenFlags | src/main/java/com/magicaleiling/labyrinth/Labyrinth.java:72-73 | clearing a direction clears that wall and changes nothing else the walk reads |
| Labyrinths.Enter | src/main/java/com/magicaleiling/labyrinth/Labyrinth.java:87 | marking a free tile visited, with the move that entered it, keeps the walk invariant |
| Labyrinths.EnterExploring | src/main/java/com/magicaleiling/labyrinth/Labyrinth.java:87-90 | right after entering, the pool is the three candidates of the entering move, all of them untried |
| Labyrinths.AddWall | src/main/java/com/magicaleiling/labyrinth/Labyrinth.java:102-104 | setting the wall of an onward direction of a visited, unfinished tile keeps the walk invariant |
| Labyrinths.ExploredAll | src/main/java/com/magicaleiling/labyrinth/Labyrinth.java:99-113 | once the pool is empty every neighbour is visited or blocked and each onward wall is set exactly where the walk did not go on |
| Labyrinths.Finish | src/main/java/com/magicaleiling/labyrinth/Labyrinth.java:115-116 | appending a fully explored tile keeps the walk invariant, including that no tile is listed twice and that no tile is listed after the tile it was entered from |
| Labyrinths.FinishOrdered | src/main/java/com/magicaleiling/labyrinth/Labyrinth.java:115-116 | appending a tile whose parent is not yet listed keeps every listed tile ahead of its parent |
| Labyrinths.ParentPending | src/main/java/com/magicaleiling/labyrinth/Labyrinth.java:92-116 | a tile already visited when a call began, and not listed then, is still not listed when the call returns |
| Labyrinths.FewerFree | src/main/java/com/magicaleiling/labyrinth/Labyrinth.java:78-117 | entering a tile strictly shrinks the set of free tiles, which bounds the recursion |
| Labyrinths.EntriesWithin | src/main/java/com/magicaleiling/labyrinth/Labyrinth.java:79-81 | only interior tiles are visited, so at most width * height of them |
| Labyrinths.OrderWithin | src/main/java/com/magicaleiling/labyrinth/Labyrinth.java:115 | tileOrder never holds more tiles than were visited, so tileOrderIndex stays at most width * height |
| Labyrinths.Labyrinth.MaxDepth | src/main/java/com/magicaleiling/labyrinth/Labyrinth.java:59-61 | requires only the object invariant, so it can be read after generate with or without exits; the recorded depth lies between 0 and the number of visited tiles, hence at most width * height |
| Labyrinths.StartReady | src/main/java/com/magicaleiling/labyrinth/Labyrinth.java:68-69 | on the new grid, with the start's left wall set, the start is a free interior tile, the walk invariant holds, and the tile the first move comes from is blocked |
| Labyrinths.Covered | src/main/java/com/magicaleiling/labyrinth/Labyrinth.java:67-69 | a walk from the start that listed every tile it visited has visited and listed every interior tile, width * height in all |
| Labyrinths.PassagesHold | src/main/java/com/magicaleiling/labyrinth/Labyrinth.java:67-69 | once every interior tile is listed, the wall between two interior neighbours is set exactly when the walk went between them in neither direction |
| Labyrinths.WallsAgree | src/main/java/com/magicaleiling/labyrinth/Labyrinth.java:67-69 | in such a maze the wall between two interior neighbours is set on one side exactly when it is set on the other |
| Labyrinths.EnclosedHold | src/main/java/com/magicaleiling/labyrinth/Labyrinth.java:67-69 | every side of an interior tile that faces the border is walled |
| Labyrinths.Generated | src/main/java/com/magicaleiling/labyrinth/Labyrinth.java:67-69 | what the walk from the start promises makes the grid a complete, enclosed maze with no exits |
| Labyrinths.Labyrinth.Generate | src/main/java/com/magicaleiling/labyrinth/Labyrinth.java:67-76 | on a new grid: every interior tile is visited and listed once, with the start last; the tiles form the maze with or without exits; the passages form a tree rooted at the start (`Rooted`); 1 <= maxDepth <= width * height |
| Labyrinths.ExitCells | src/main/java/com/magicaleiling/labyrinth/Labyrinth.java:70-75 | the start and the last cell are interior, and the tiles left of the start and right of the last cell are the border tiles width + 2 and width + 1 + height * (width + 2) |
| Labyrinths.Labyrinth.OpenExits | src/main/java/com/magicaleiling/labyrinth/Labyrinth.java:70-75 | turns the maze without exits into the maze with exits, and changes no tile but the four named ones |
| Labyrinths.OpenEntrance | src/main/java/com/magicaleiling/labyrinth/Labyrinth.java:71 | storing UP\|DOWN at the entrance tile changes no interior fact and opens the entrance |
| Labyrinths.OpenLeft | src/main/java/com/magicaleiling/labyrinth/Labyrinth.java:72 | clearing the start's left wall opens exactly that side and keeps every other wall |
| Labyrinths.OpenRight | src/main/java/com/magicaleiling/labyrinth/Labyrinth.java:73 | clearing the last cell's right wall opens exactly that side and keeps every other wall |
| Labyrinths.OpenExit | src/main/java/com/magicaleiling/labyrinth/Labyrinth.java:74 | storing UP\|DOWN at the exit tile changes no interior fact and opens the exit |
| Labyrinths.MazeExits | src/main/java/com/magicaleiling/labyrinth/Labyrinth.java:67-75 | in the finished maze, the start keeps its left wall and the last cell its right wall exactly when there are no exits; the entrance and exit tiles are BLOCK, or UP\|DOWN with exits |
| Labyrinths.Labyrinth.ValidSound | src/main/java/com/magicaleiling/labyrinth/Labyrinth.java:12-45 | the walk invariant implies the object invariant: positive sizes, arrays of (width + 2) * (height + 2) entries, tileOrderIndex in range, maxDepth at most the number of visited tiles, and only interior tiles visited |
| Labyrinths.InteriorKeys | src/main/java/com/magicaleiling/labyrinth/Labyrinth.java:79-81 | a set of visited tiles that are all interior has at most width * height members |
| Labyrinths.SameMove | src/main/java/com/magicaleiling/labyrinth/Labyrinth.java:119-125 | two moves change the index alike exactly when they are the same move |
| Labyrinths.ParentAfter | src/main/java/com/magicaleiling/labyrinth/Labyrinth.java:78-117 | after generate, the tile any tile other than the start was entered from is listed strictly later in tileOrder |
| Labyrinths.PassageLinks | src/main/java/com/magicaleiling/labyrinth/Labyrinth.java:67-117 | after generate, the passage between two interior neighbours is open exactly when one of them was entered from the other |
| Labyrinths.PathFrom | src/main/java/com/magicaleiling/labyrinth/Labyrinth.java:67-117 | after generate, from the k-th listed tile there is a sequence of moves through open passages over interior tiles that ends at the start |
| Labyrinths.Connected | src/main/java/com/magicaleiling/labyrinth/Labyrinth.java:67-117 | after generate, every interior tile reaches the start through open passages |
| Labyrinths.Labyrinth.OrderArray | src/main/java/com/magicaleiling/labyrinth/Labyrinth.java:48-57 | a fresh array of tileOrderIndex entries holding the filled part of tileOrder in reverse; tileOrder is not changed |
| Grids.ReversedAt | src/main/java/com/magicaleiling/labyrinth/Labyrinth.java:51-55 | the reversal has the same length, and entry k is entry length - 1 - k of the input |
| Grids.ReversedTwice | src/main/java/com/magicaleiling/labyrinth/Labyrinth.java:51-55 | reversing twice gives the sequence back |
| Labyrinths.OrderStart | src/main/java/com/magicaleiling/labyrinth/Labyrinth.java:48-57 | after generate, orderArray lists every interior tile once, width * height in all, and its first entry is the start tile |

## Left out

- `html` and `tileHtml` (Labyrinth.java:135-195) are not modelled. They are file I/O and HTML templating.
- `Labyrinth.toString` (Labyrinth.java:197-209) is not modelled. It is a diagnostic dump that depends on the platform line separator and `Arrays.toString`.
- `random()`, `random(int)` and the `keepChance` comparison are nondeterministic choices (`:|`). No probability, uniformity or distribution claim is modelled.
- `ThreadLocalRandom` is not part of this model.
- `App.java` is not part of this model. It is a driver that builds a maze and prints it.
- `build.gradle.kts` is not part of this model. It has no logic.
- `generate()` without an argument is `Generate(false)`.
- `Labyrinths.Labyrinth.Generate`: it requires a newly constructed grid. Calling it twice on one instance is not supported by the program and is not modelled.
- `Labyrinths.Labyrinth.constructor`: it requires `width >= 1` and `height >= 1`. For smaller sizes the start index would not be an interior cell.
- `keepChance` is modelled as a `real`. The `double` comparison is only a coin flip here.
- Java `int` arithmetic on indices is modelled with unbounded integers. Overflow of `(width + 2) * (height + 2)` for huge sizes is not modelled.
- Stack overflow of the deep recursion on large grids is not modelled.
- `Tiles.GetDirections`: it is tied to the rotation reference only for arguments within bits 0..3. For other arguments the shift formula of the source lets bit 4 and higher into the first two entries, so there the contract only bounds those entries to bits 0..3. The walk only calls it with single direction bits.
- The maze predicates read the four direction bits, VISITED and BLOCK only.
  - The other bits (4 to 29) are not given a meaning, since the program never sets them.
  - `OpenExits` is stated by these predicates and by the "other tiles unchanged" clause. It does not give the exact new value of the start and last tiles, which are the same tile on a 1 by 1 grid.
- The one-flag calls of the walk are not modelled through the varargs class methods:
  - `apply(VISITED)`, `apply(move)` and `remove(direction)` are `ApplyVisited`, `ApplyWall` and `RemoveWall` on the tile's value;
  - `checkAny(VISITED, BLOCK)` is the predicate `Taken`.
  - `Tiles.Tile` states the varargs forms on their own.
- The tiles are a `bv32` array rather than an array of `Tile` objects, since each index holds its own tile and no tile is shared.
- `System.arraycopy` in the loop of `nextTile` is modelled by the elementwise loop the source gives as its equivalent (`ShiftDown`).
