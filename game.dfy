/** One turn of the game loop: the command dispatch and the ordering of the
    player's move, the reveal, the win and loss tests and the cats' move. The
    console is not modelled: a turn receives the line the player typed. */
module GameLoop {
  import opened Board
  import opened Engine
  import MazeGenerator

  /** Whether the loop goes on, or has ended in a win or a loss. */
  datatype Status = Running | Won | Lost

  /** Upper-casing of one character, on the ASCII letters. */
  function ToUpper(c: char): (u: char)
    ensures !('a' <= u <= 'z')
    ensures 'a' <= c <= 'z' || u == c
    ensures 'a' <= c <= 'z' ==> u as int == c as int - 32
  {
    if 'a' <= c <= 'z' then (c as int - 32) as char else c
  }

  /** The command a non-empty line stands for: its first character, upper-cased. */
  function Command(line: string): char
    requires line != []
  {
    ToUpper(line[0])
  }

  /** The commands that are not moves: help, the cheese cheat and the map cheat. */
  predicate IsCheat(c: char)
  {
    c == '?' || c == 'C' || c == 'M'
  }

  class Game {
    const gameState: GameState
    /** Whether the last command was carried out; the maze is printed only then. */
    var validMove: bool
    /** Whether the next print of the maze is skipped. */
    var skipPrint: bool

    ghost predicate Valid()
      reads gameState, gameState.maze, gameState.cats, gameState.lastCatPositions
    {
      gameState.Valid()
    }

    /** No entity moved, no counter changed and no cell of the grid changed. */
    twostate predicate PositionsKept()
      reads gameState, gameState.maze, gameState.cats, gameState.lastCatPositions
    {
      gameState.player == old(gameState.player) && gameState.cheese == old(gameState.cheese) &&
      gameState.cheeseCollected == old(gameState.cheeseCollected) &&
      unchanged(gameState.maze) && unchanged(gameState.cats) && unchanged(gameState.lastCatPositions)
    }

    /** The setup of main: generate a maze, start a game on it, place the
        entities and reveal around the player. The grid then shows the cats,
        the cheese and the player over the terrain. */
    constructor(retries: nat)
      ensures fresh(gameState) && fresh(gameState.maze) && fresh(gameState.cats) &&
        fresh(gameState.lastCatPositions) && fresh(gameState.revealedCells)
      ensures Valid() && validMove && !skipPrint
      ensures gameState.player == Pos(1, 1) && gameState.cheeseCollected == 0 && gameState.cheeseToWin == 5
      ensures forall k :: 0 <= k < CAT_COUNT ==>
        gameState.cats[k] == CatStart(k) && gameState.lastCatPositions[k] == Pos(0, 0)
      ensures forall j, i :: 0 <= j < HEIGHT && 0 <= i < WIDTH ==> gameState.revealedCells[j, i] == Reveals(1, 1, i, j)
      ensures forall j, i :: 0 <= j < HEIGHT && 0 <= i < WIDTH ==>
        gameState.maze[j, i] == if exists k :: 0 <= k < CAT_COUNT && gameState.cats[k] == Pos(i, j) then CAT
                                else if gameState.cheese == Pos(i, j) then CHEESE
                                else if gameState.player == Pos(i, j) then PLAYER
                                else if Pos(i, j) in gameState.walls then WALL
                                else OPEN
    {
      var maze, _ := MazeGenerator.GenerateValidMaze(retries);
      MazeGenerator.CornersOpenCells(maze);
      var gs := new GameState(maze);
      gs.PlaceEntities();
      gs.RevealCells(gs.player.x, gs.player.y);
      gameState := gs;
      validMove := true;
      skipPrint := false;
    }

    /** One pass of the loop on the line the player typed. */
    method Step(line: string) returns (status: Status)
      requires Valid()
      modifies this, gameState, gameState.maze, gameState.cats, gameState.lastCatPositions, gameState.revealedCells
      ensures Valid()
      // An empty line changes nothing but the print flag.
      ensures line == [] ==>
        status == Running && skipPrint && validMove == old(validMove) && PositionsKept() &&
        gameState.cheeseToWin == old(gameState.cheeseToWin) && unchanged(gameState.revealedCells)
      // '?' changes nothing, 'C' only the target, 'M' only the fog.
      ensures line != [] && IsCheat(Command(line)) ==>
        status == Running && validMove && skipPrint == (Command(line) == '?') && PositionsKept()
      ensures line == [] || Command(line) != 'C' ==> gameState.cheeseToWin == old(gameState.cheeseToWin)
      ensures line != [] && Command(line) == 'C' ==> gameState.cheeseToWin == 1
      ensures line != [] && Command(line) == 'M' ==>
        forall j, i :: 0 <= j < HEIGHT && 0 <= i < WIDTH ==> gameState.revealedCells[j, i]
      ensures line != [] && Command(line) != 'M' && !old(IsMoveKey(Command(line)) &&
          gameState.IsValidMove(KeyTarget(gameState.player, Command(line)).x, KeyTarget(gameState.player, Command(line)).y)) ==>
        unchanged(gameState.revealedCells)
      // A rejected move: nothing changes and no cat moves.
      ensures line != [] && !IsCheat(Command(line)) && !old(IsMoveKey(Command(line)) &&
          gameState.IsValidMove(KeyTarget(gameState.player, Command(line)).x, KeyTarget(gameState.player, Command(line)).y)) ==>
        status == Running && !validMove && !skipPrint && PositionsKept()
      // An accepted move: the player moves, the fog lifts around it, the win
      // is tested before the loss, and the cats move only if neither holds.
      ensures line != [] && !IsCheat(Command(line)) && old(IsMoveKey(Command(line)) &&
          gameState.IsValidMove(KeyTarget(gameState.player, Command(line)).x, KeyTarget(gameState.player, Command(line)).y)) ==>
        validMove && !skipPrint &&
        gameState.player == old(KeyTarget(gameState.player, Command(line))) &&
        gameState.cheeseCollected == old(gameState.cheeseCollected) +
          (if old(gameState.cheese) == gameState.player then 1 else 0) &&
        (forall j, i :: 0 <= j < HEIGHT && 0 <= i < WIDTH ==>
          gameState.revealedCells[j, i] == (old(gameState.revealedCells[j, i]) || Reveals(gameState.player.x, gameState.player.y, i, j))) &&
        (status == Won <==> gameState.CheckWin()) &&
        (status == Lost <==> !gameState.CheckWin() && gameState.CheckLoss()) &&
        ((gameState.CheckWin() || exists k :: 0 <= k < CAT_COUNT && old(gameState.cats[k]) == gameState.player) ==>
          unchanged(gameState.cats) && unchanged(gameState.lastCatPositions)) &&
        ((!gameState.CheckWin() && !exists k :: 0 <= k < CAT_COUNT && old(gameState.cats[k]) == gameState.player) ==>
          forall k :: 0 <= k < CAT_COUNT ==>
            gameState.lastCatPositions[k] == old(gameState.cats[k]) &&
            gameState.CatStepped(old(gameState.cats[k]), old(gameState.lastCatPositions[k]), gameState.cats[k]))
    {
      if line == [] {
        skipPrint := true;
        return Running;
      }
      var move := Command(line);
      validMove := true;
      skipPrint := false;
      if move == '?' {
        skipPrint := true;
        return Running;
      }
      if move == 'C' {
        gameState.ChangeCheeseToWin();
        return Running;
      }
      if move == 'M' {
        gameState.RevealEntireMaze();
        return Running;
      }
      var moved := gameState.PlayerMove(move);
      if !moved {
        validMove := false;
        return Running;
      }
      gameState.RevealCells(gameState.player.x, gameState.player.y);
      if gameState.CheckWin() {
        return Won;
      }
      if gameState.CheckLoss() {
        return Lost;
      }
      gameState.MoveCats();
      if gameState.CheckLoss() {
        return Lost;
      }
      return Running;
    }
  }
}
