# MazeGame in Dafny

A Dafny model of the logic of MazeGame, a console game. The player (`@`) walks
a 20x15 maze collecting cheese (`$`) while three cats (`!`) roam it. There are
four parts.

- **Maze generator** (`maze_generator.dfy`, module `MazeGenerator`):
  - fills a grid with walls and carves a randomised Prim's maze on the
    odd-coordinate lattice, from an `ArrayList`-like frontier;
  - forces open an L of three cells next to each corner;
  - knocks out extra walls that do not complete an all-open 2x2 block;
  - retries until no inner 2x2 window is uniform.
- **Game-state engine** (`game_state.dfy`, class `Engine.GameState`). It owns:
  - the single overlay grid, which holds terrain and entity glyphs in the same
    cells;
  - the player, cheese and cat positions and the cats' last positions;
  - the two cheese counters and the fog mask.

  Its methods change these in place, as the source's methods do.
- **Cat movement policy** (class `Engine.RandomMovementGenerator`): picks a
  legal step that does not go back to the last position, or steps back when
  there is none.
- **Turn sequencing** (`game.dfy`, class `GameLoop.Game`): the setup of `main`
  and one pass of its loop on a line the player typed.

`board.dfy` (module `Board`) holds the shared constants:
- the grid size;
- the glyphs;
- positions;
- the twelve corner-L cells.

Grids are `array2<char>` indexed `[y, x]`. Every use of `java.util.Random` is
an arbitrary choice (`:|`): `nextInt(n)` is some `0 <= r < n`, and
`nextDouble() < p` is a boolean coin. Every contract holds whatever the random
source returns.

Central invariants:
- `GameState.Valid()` holds in every state the game reaches. It covers:
  - the wall layout is fixed (`walls` is the set of wall cells at start, and no
    operation writes over a `#`);
  - the player, the cheese and every cat stand on walkable cells (inside the
    outer ring, not wall), and the cheese is not on the player;
  - each cat's last position is walkable, or is still the initial `(0, 0)`
    while the cat is on its start cell.
- `MazeShape` holds of every grid the generator returns. It covers:
  - every cell is `#` or ` `, and the outer ring is wall;
  - the corner L shapes are open;
  - every all-open 2x2 window contains a corner-L cell.

## Model

| member | source | states |
|---|---|---|
| MazeGenerator.GenerateValidMaze | src/model/MazeGenerator.java:21-30 | returns a fresh 15x20 grid with the generator's shape; `valid` holds exactly when `isMazeValid` accepts the grid, which is the retry loop's exit test |
| MazeGenerator.AcceptedMazeHasNoOpenWindow | src/model/MazeGenerator.java:186-208 | an accepted grid with a wall ring has no all-open 2x2 window anywhere, including the windows the scan skips |
| MazeGenerator.GenerateMaze | src/model/MazeGenerator.java:36-68 | a fresh grid of terrain only, with a wall ring and open corner L shapes, in which every all-open 2x2 window touches a corner L |
| MazeGenerator.FilledWithWalls | src/model/MazeGenerator.java:37-44 | a fresh 15x20 grid with every cell wall |
| MazeGenerator.Carve | src/model/MazeGenerator.java:51-63 | the frontier loop terminates, by the measure (walled lattice cells, entries naming open cells, entries naming walled cells); every frontier entry stays on the odd lattice, so every access is in bounds; the grid stays terrain with a wall ring and wall on even-even cells |
| MazeGenerator.CarveShapeMeans | src/model/MazeGenerator.java:54-63 | the carve invariant gives terrain, the wall ring and even-even walls, and a lattice cell is wall iff it is still in the walled set |
| MazeGenerator.CountInRemoveAt | src/model/MazeGenerator.java:55 | removing one frontier entry lowers the count of entries naming walled cells by one exactly when that entry names a walled cell |
| MazeGenerator.RemoveAt | src/model/MazeGenerator.java:55 | `List.remove(int)`: one entry shorter, earlier entries keep their index and later ones move down by one |
| MazeGenerator.CountInAppend | src/model/MazeGenerator.java:61 | the count of entries naming walled cells adds up over appended frontiers |
| MazeGenerator.CountInAll | src/model/MazeGenerator.java:61 | a frontier whose every entry names a walled cell has that count equal to its length |
| MazeGenerator.AddWalls | src/model/MazeGenerator.java:99-112 | appends to the frontier exactly the pushed neighbours, in the order west, east, north, south |
| MazeGenerator.PushListSpec | src/model/MazeGenerator.java:99-112 | at most four entries are pushed; a cell is pushed iff it is the two-step neighbour in a direction whose range guard holds and that is wall; each pushed cell is in the grid and wall |
| MazeGenerator.PushedFromLattice | src/model/MazeGenerator.java:99-112 | a cell pushed from a lattice cell is a lattice cell (odd x in [1,17], odd y in [1,13]) |
| MazeGenerator.PushedAreWalled | src/model/MazeGenerator.java:99-112 | under the carve invariant, every cell pushed for a lattice cell is a walled lattice cell |
| MazeGenerator.CountOneIffExactlyOne | src/model/MazeGenerator.java:121-136 | the count of in-range open two-step neighbours is 1 iff exactly one direction has one |
| MazeGenerator.CanBePath | src/model/MazeGenerator.java:121-136 | true iff exactly one in-range two-step neighbour of (x, y) is open |
| MazeGenerator.MakePath | src/model/MazeGenerator.java:144-158 | opens (x, y) and the corridor cell toward each in-range open two-step neighbour; every other cell is unchanged; at a lattice cell it keeps the carve invariant, with that cell no longer walled |
| MazeGenerator.CarvingKeepsShape | src/model/MazeGenerator.java:144-158 | opening what makePath opens at a lattice cell keeps every cell as the carve invariant requires |
| MazeGenerator.CarvedCellShape | src/model/MazeGenerator.java:144-158 | the cells makePath opens from a lattice cell lie inside the ring, have an odd coordinate, and are off the lattice, except the cell itself |
| MazeGenerator.EnsureCornerOpenness | src/model/MazeGenerator.java:74-90 | opens exactly the twelve corner-L cells and changes nothing else; on a carved grid the result has a wall ring, open corners, and only all-open windows that touch a corner L |
| MazeGenerator.CornerOpenedShape | src/model/MazeGenerator.java:74-90 | a grid whose corner L shapes are open and whose other cells are carve-shaped is terrain with a wall ring, and each all-open window holds a corner cell |
| MazeGenerator.CornersOpenCells | src/model/MazeGenerator.java:74-90 | open corner L shapes means the twelve listed cells are open |
| MazeGenerator.AddCycles | src/model/MazeGenerator.java:165-179 | keeps the generator's shape (terrain only, wall ring, open corners); every cell is unchanged or went from wall to open, so the ring and the corner L shapes are untouched; every all-open 2x2 window afterwards was already all open before: no opening completes a new one |
| MazeGenerator.Creates2x2OpenBlock | src/model/MazeGenerator.java:209-215 | true iff opening (x, y) would complete an all-open 2x2 window containing (x, y) |
| MazeGenerator.CompletesOpenWindowCases | src/model/MazeGenerator.java:209-215 | the four windows containing (x, y) are the only ones opening it can complete |
| MazeGenerator.IsMazeValid | src/model/MazeGenerator.java:186-208 | true iff no window with top-left (x, y), 1 <= x <= 18 and 1 <= y <= 13, is all open or all wall |
| Engine.KeyTarget | src/model/GameState.java:142-154 | W, A, S and D aim at (x, y-1), (x-1, y), (x, y+1) and (x+1, y), never at the player's own cell |
| Engine.NoneRevealed | src/model/GameState.java:36-39 | a fresh 15x20 fog mask with every flag false |
| Engine.CornersOutsideWalls | src/model/GameState.java:43-50 | when the corner L shapes of the start grid are open, none of their cells is a wall |
| Engine.GameState.constructor | src/model/GameState.java:29-52 | player on (1, 1); cheese on an inner open cell other than the player's; cats on (18, 1), (1, 13) and (18, 13) with last positions (0, 0); counters 0 and 5; nothing revealed; the invariant holds |
| Engine.GameState.GetRandomPosition | src/model/GameState.java:58-66 | an inner cell that is open and is not the player's cell |
| Engine.GameState.SetCell | src/model/GameState.java:72-78 | writing a non-wall glyph on a non-wall cell changes only that cell and keeps the wall layout |
| Engine.GameState.PlaceEntities | src/model/GameState.java:71-78 | each cell shows a cat if some cat stands on it, else the cheese, else the player, else what it held; later writes win |
| Engine.GameState.RevealCells | src/model/GameState.java:86-110 | each flag afterwards is its old value or-ed with "on the outer ring or one of the eight cells around the player"; the centre is not set and no flag is cleared |
| Engine.GameState.DisplayChar | src/model/GameState.java:120-124 | shows the cell's glyph iff it is revealed or holds `@`, `$` or `!`, and `.` otherwise |
| Engine.GameState.PlayerMove | src/model/GameState.java:135-166 | the move is made and true returned iff the key is W, A, S or D and its target passes isValidMove; then the player is on the target as updatePlayerPosition says; on false nothing changes |
| Engine.GameState.IsValidMove | src/model/GameState.java:198-202 | true iff (x, y) is inside the outer ring and not wall; cells showing `@`, `$` or `!` are enterable |
| Engine.GameState.ValidMoveIsWalkable | src/model/GameState.java:198-202 | in a valid state isValidMove accepts exactly the walkable cells, since the grid's walls are the fixed wall set |
| Engine.GameState.UpdatePlayerPosition | src/model/GameState.java:209-220 | the old player cell turns open and the new one shows the player; on the cheese, the counter rises by exactly 1 and the cheese moves to an inner cell that was open (or was the player's old cell) and is not the player's; otherwise cheese and counter are unchanged; the invariant holds |
| Engine.GameState.RespawnCheese | src/model/GameState.java:225-229 | the cheese moves to an inner cell that was open and is not the player's, that cell shows the cheese, and nothing else changes |
| Engine.GameState.UpdateCatPosition | src/model/GameState.java:245-255 | cat k stands on (x, y) and the other cats are unchanged; its old cell shows the cheese if it is the cheese's cell and is open otherwise; the new cell shows a cat; nothing else changes |
| Engine.GameState.CheckLoss | src/model/GameState.java:261-264 | true iff some cat stands on the player's cell |
| Engine.GameState.ChangeCheeseToWin | src/model/GameState.java:269-272 | cheeseToWin becomes 1 whatever it was; the invariant holds |
| Engine.GameState.RevealEntireMaze | src/model/GameState.java:277-283 | every flag is set, and when every flag was already set no flag changes |
| Engine.GameState.MoveCats | src/model/GameState.java:172-190 | the cats move in order 0, 1, 2; each one's last position becomes its old cell, and it has taken one step of the policy; the grid is the old grid with the three moves written over it in order; every cat stays walkable |
| Engine.GameState.MoveCat | src/model/GameState.java:175-188 | one cat's turn: its last position becomes its old cell, it takes one step of the policy onto a walkable cell, the grid changes as updateCatPosition says, and the other cats are untouched |
| Engine.GameState.MoveCatInTurn | src/model/GameState.java:174-189 | turn k of the loop turns the state after k moves into the state after k + 1 moves |
| Engine.CellAfterOneMoreMove | src/model/GameState.java:245-255 | one more cat move writes the cat on the cell entered, the cheese or open on the cell left, and keeps every other cell |
| Engine.CellAfterMovesWall | src/model/GameState.java:245-255 | cat moves never write a wall: a cell is wall afterwards iff it was wall and no cat left or entered it |
| Engine.EnteredCellShowsCat | src/model/GameState.java:245-255 | a cell entered by a cat that no later cat leaves shows a cat |
| Engine.VacatedCellShowsTerrain | src/model/GameState.java:245-255 | a cell that cats leave and none enters shows the cheese if it is the cheese's cell and is open otherwise; a cat does not eat the cheese |
| Engine.UntouchedCellKeepsGlyph | src/model/GameState.java:245-255 | a cell no cat leaves or enters keeps its glyph |
| Engine.GameState.StartHasExit | src/model/GameState.java:43-50 | a cat on its start cell with last position (0, 0) has a legal step into its corner L |
| Engine.GameState.PassesIffAdmissible | src/model/RandomMovementGenerator.java:39 | in a valid state a move passes the policy's filter iff its target is walkable and is not the last position |
| Engine.GameState.CatMoveLands | src/model/RandomMovementGenerator.java:39-47 | the move the policy returns takes a cat to a walkable cell: a passing move when one exists, otherwise back to a last position that is walkable, because a cat still on its start always has a passing move |
| Engine.RandomMovementGenerator.constructor | src/model/RandomMovementGenerator.java:14-22 | the generator refers to its game and holds the movement table UP, DOWN, LEFT, RIGHT |
| Engine.RandomMovementGenerator.IsBackTracking | src/model/RandomMovementGenerator.java:62-64 | true iff the move is exactly (lastX - catX, lastY - catY) |
| Engine.RandomMovementGenerator.PossibleMovesSpec | src/model/RandomMovementGenerator.java:36-42 | the gathered moves are exactly the table entries that pass the filter, no more than the table holds, and each occurs once when the table has no repeats |
| Engine.RandomMovementGenerator.GenerateRandomMove | src/model/RandomMovementGenerator.java:32-51 | when some table move passes isValidMove and is not backtracking, the result is one of those; otherwise it is (lastX - catX, lastY - catY); it changes nothing |
| GameLoop.ToUpper | src/model/Game.java:34 | lower-case ASCII letters map to their upper-case letter, every other character to itself |
| GameLoop.Game.constructor | src/model/Game.java:14-27 | a game on a generated maze: a freshly allocated game state with fresh arrays; entities placed over the terrain, where a cat's glyph wins over the cheese's, which wins over the player's; the outer ring and the cells around (1, 1) revealed, both loop flags at their initial values |
| GameLoop.Game.Step | src/model/Game.java:28-85 | an empty line changes nothing but the print flag; `?` changes nothing; `C` only sets the target to 1; `M` only reveals every cell; a rejected move changes nothing and clears validMove; an accepted move moves the player, reveals around it, then tests win (checkWin: at least cheeseToWin cheese collected) before loss (a cat on the player's cell), so reaching the target wins even with a cat on it; cats move only when neither holds, each by one step of the policy |

## Left out

- Console I/O is not modelled: the `Scanner` loop of `main`, every `System.out.println`, `printMaze` beyond its per-cell choice, and `src/view/UI.java`. `GameLoop.Game.Step` handles one line that has already been read.
- `src/model/Player.java`, `src/model/Cheese.java` and `src/model/Cat.java` hold only coordinates. They become `Pos` values.
- The streams and the `AtomicInteger` in `moveCats`, `placeEntities` and `checkLoss` are an indexed pass over three cats. They become loops and quantifiers.
- Probabilities are not stated: the uniformity of `nextInt`, and the 0.2 threshold of `addCycles`, which becomes an unconstrained coin.
- MazeGenerator.GenerateValidMaze: the source retries without bound. The model makes at most `retries` more attempts and reports in `valid` whether the last one was accepted.
- Engine.GameState.GetRandomPosition: the source's rejection loop is one choice among the cells it can accept. So it requires such a cell to exist; the source would loop forever without one. Callers can always meet this.
- Engine.GameState.constructor: requires the twelve corner-L cells to be open. `generateValidMaze` guarantees this. On other grids the source gives no walkability guarantee for the cats.
- Engine.GameState.UpdateCatPosition: requires the cat's last position to be walkable. `moveCats` sets it to the cat's current cell just before the call.
- GameLoop.ToUpper: only ASCII letters are upper-cased, one character at a time. Java's `toUpperCase` upper-cases the whole line, and some characters change into others that are commands: 'ß' and 'ﬆ' become strings starting with "S", and 'ſ' becomes 'S'. In the source a line starting with one of them is the S (down) command; the model rejects it as an invalid move. Only the first character of the upper-cased line is used.
- GameLoop.Game.Step: states the cats' step of the policy, but not the grid after the turn nor the cell the respawned cheese lands on. `Engine.GameState.PlayerMove` and `Engine.GameState.MoveCats` state them.
- GameLoop.Game.constructor: ignores the `valid` flag of `MazeGenerator.GenerateValidMaze`. When the `retries` budget runs out, the game can start on a maze that `isMazeValid` rejected, which the source never does because it retries without bound. The grid still has the generator's shape, which is all the game relies on.
- Integer width: `cheeseCollected` is unbounded. A Java `int` would wrap after 2^31 collections.
- Grids are `array2` rather than Java's arrays of rows. No row is shared or resized in the source.
- The source allows this, and the model keeps it: when a cat enters a cell that a later cat in the same round leaves, that cell shows open (or the cheese) while a cat stands on it. `Engine.CellAfterMoves` computes this. No lemma covers a cell that one cat enters and a later cat leaves.
