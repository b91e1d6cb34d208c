/** The game-state engine and the cats' movement policy. The grid holds the
    terrain and the overlay glyphs of the player, the cheese and the cats in the
    same cells; the entity positions are kept beside it. GameState and
    RandomMovementGenerator refer to each other, so they share this module. */
module Engine {
  import opened Board

  /** A unit displacement. */
  datatype Move = Move(dx: int, dy: int)

  /** The movement table, in the order UP, DOWN, LEFT, RIGHT. */
  const MOVES: seq<Move> := [Move(0, -1), Move(0, 1), Move(-1, 0), Move(1, 0)]

  const CAT_COUNT: int := 3

  function Shift(p: Pos, d: Move): Pos
  {
    Pos(p.x + d.dx, p.y + d.dy)
  }

  /** Where cat k starts: the corner elbows other than the player's (1, 1). */
  function CatStart(k: int): Pos
  {
    if k == 0 then Pos(WIDTH - 2, 1)
    else if k == 1 then Pos(1, HEIGHT - 2)
    else Pos(WIDTH - 2, HEIGHT - 2)
  }

  /** A player command W, A, S or D. */
  predicate IsMoveKey(c: char)
  {
    c == 'W' || c == 'A' || c == 'S' || c == 'D'
  }

  /** The cell a move key aims at from p: W up, A left, S down, D right. */
  function KeyTarget(p: Pos, c: char): (t: Pos)
    requires IsMoveKey(c)
    ensures t != p
    ensures c == 'W' ==> t == Pos(p.x, p.y - 1)
    ensures c == 'A' ==> t == Pos(p.x - 1, p.y)
    ensures c == 'S' ==> t == Pos(p.x, p.y + 1)
    ensures c == 'D' ==> t == Pos(p.x + 1, p.y)
  {
    match c
    case 'W' => Shift(p, Move(0, -1))
    case 'A' => Shift(p, Move(-1, 0))
    case 'S' => Shift(p, Move(0, 1))
    case 'D' => Shift(p, Move(1, 0))
  }

  // ---------------------------------------------------------------------------
  // What the cats write into the grid
  // ---------------------------------------------------------------------------

  /** The glyph of cell p after cats have moved, in order, from from[k] to
      to[k], starting from glyph c: each move writes the cheese glyph on the
      vacated cell if it is the cheese's cell and open otherwise, then a cat on
      the cell entered. */
  function CellAfterMoves(c: char, p: Pos, from: seq<Pos>, to: seq<Pos>, cheese: Pos): char
    requires |from| == |to|
  {
    if from == [] then c
    else
      var n := |from| - 1;
      var before := CellAfterMoves(c, p, from[..n], to[..n], cheese);
      if p == to[n] then CAT
      else if p == from[n] then (if from[n] == cheese then CHEESE else OPEN)
      else before
  }

  ghost predicate IsSnapshot(s: seq<seq<char>>)
  {
    |s| == HEIGHT && forall j :: 0 <= j < HEIGHT ==> |s[j]| == WIDTH
  }

  /** The contents of grid m, as a value. */
  ghost function Snapshot(m: array2<char>): (s: seq<seq<char>>)
    reads m
    requires IsGrid(m)
    ensures IsSnapshot(s)
    ensures forall j, i :: 0 <= j < HEIGHT && 0 <= i < WIDTH ==> s[j][i] == m[j, i]
  {
    seq(HEIGHT, j requires 0 <= j < HEIGHT reads m => seq(WIDTH, i requires 0 <= i < WIDTH reads m => m[j, i]))
  }

  /** One more move, by cat |to|, from from[|to|] to t. */
  lemma CellAfterOneMoreMove(c: char, p: Pos, from: seq<Pos>, to: seq<Pos>, t: Pos, cheese: Pos)
    requires |to| < |from|
    ensures CellAfterMoves(c, p, from[..|to| + 1], to + [t], cheese) ==
      if p == t then CAT
      else if p == from[|to|] then (if from[|to|] == cheese then CHEESE else OPEN)
      else CellAfterMoves(c, p, from[..|to|], to, cheese)
  {
    assert from[..|to| + 1][..|to|] == from[..|to|];
    assert (to + [t])[..|to|] == to;
  }

  /** Cat moves never write a wall: the cell is wall afterwards exactly when it
      was wall and no cat left or entered it. */
  lemma {:induction false} CellAfterMovesWall(c: char, p: Pos, from: seq<Pos>, to: seq<Pos>, cheese: Pos)
    requires |from| == |to|
    ensures CellAfterMoves(c, p, from, to, cheese) == WALL <==> c == WALL && p !in from && p !in to
  {
    if from != [] {
      var n := |from| - 1;
      assert from == from[..n] + [from[n]];
      assert to == to[..n] + [to[n]];
      CellAfterMovesWall(c, p, from[..n], to[..n], cheese);
    }
  }

  /** A cell entered by cat k and left by no later cat shows a cat. */
  lemma {:induction false} EnteredCellShowsCat(c: char, p: Pos, from: seq<Pos>, to: seq<Pos>, cheese: Pos, k: int)
    requires |from| == |to| && 0 <= k < |to| && to[k] == p
    requires forall m :: k < m < |from| ==> from[m] != p
    ensures CellAfterMoves(c, p, from, to, cheese) == CAT
  {
    var n := |from| - 1;
    if k < n {
      if p != to[n] {
        EnteredCellShowsCat(c, p, from[..n], to[..n], cheese, k);
      }
    }
  }

  /** A cell that cats leave but none enters shows the cheese if it is the
      cheese's cell and is open otherwise: a cat on the cheese does not eat it. */
  lemma {:induction false} VacatedCellShowsTerrain(c: char, p: Pos, from: seq<Pos>, to: seq<Pos>, cheese: Pos)
    requires |from| == |to| && p in from && p !in to
    ensures CellAfterMoves(c, p, from, to, cheese) == if p == cheese then CHEESE else OPEN
  {
    var n := |from| - 1;
    assert from == from[..n] + [from[n]];
    assert to == to[..n] + [to[n]];
    if p != from[n] {
      VacatedCellShowsTerrain(c, p, from[..n], to[..n], cheese);
    }
  }

  /** A cell no cat leaves or enters keeps its glyph. */
  lemma {:induction false} UntouchedCellKeepsGlyph(c: char, p: Pos, from: seq<Pos>, to: seq<Pos>, cheese: Pos)
    requires |from| == |to| && p !in from && p !in to
    ensures CellAfterMoves(c, p, from, to, cheese) == c
  {
    if from != [] {
      var n := |from| - 1;
      assert from == from[..n] + [from[n]];
      assert to == to[..n] + [to[n]];
      UntouchedCellKeepsGlyph(c, p, from[..n], to[..n], cheese);
    }
  }

  /** w holds exactly the wall cells of grid m. */
  ghost predicate WallsOf(m: array2<char>, w: set<Pos>)
    reads m
    requires IsGrid(m)
  {
    forall j, i :: 0 <= j < HEIGHT && 0 <= i < WIDTH ==> (m[j, i] == WALL <==> Pos(i, j) in w)
  }

  /** The cells of m that are wall. */
  ghost function WallCells(m: array2<char>): (w: set<Pos>)
    reads m
    requires IsGrid(m)
    ensures WallsOf(m, w)
  {
    var w := set i, j | 0 <= i < WIDTH && 0 <= j < HEIGHT && m[j, i] == WALL :: Pos(i, j);
    assert forall j, i :: 0 <= j < HEIGHT && 0 <= i < WIDTH && m[j, i] == WALL ==> Pos(i, j) in w;
    w
  }

  /** None of the twelve corner-L cells is in w. */
  predicate CornersClearOf(w: set<Pos>)
  {
    Pos(1, 1) !in w && Pos(2, 1) !in w && Pos(1, 2) !in w &&
    Pos(WIDTH - 2, 1) !in w && Pos(WIDTH - 3, 1) !in w && Pos(WIDTH - 2, 2) !in w &&
    Pos(1, HEIGHT - 2) !in w && Pos(1, HEIGHT - 3) !in w && Pos(2, HEIGHT - 2) !in w &&
    Pos(WIDTH - 2, HEIGHT - 2) !in w && Pos(WIDTH - 2, HEIGHT - 3) !in w && Pos(WIDTH - 3, HEIGHT - 2) !in w
  }

  /** A grid whose corner-L cells are open has none of them among its walls. */
  lemma CornersOutsideWalls(m: array2<char>, w: set<Pos>)
    requires IsGrid(m) && CornerCellsOpen(m) && WallsOf(m, w)
    ensures CornersClearOf(w)
  {
  }

  /** The outer ring of the grid. */
  predicate OnRing(i: int, j: int)
  {
    i == 0 || i == WIDTH - 1 || j == 0 || j == HEIGHT - 1
  }

  /** (i, j) is one of the eight cells around (px, py). */
  predicate Near(px: int, py: int, i: int, j: int)
  {
    Pos(i, j) != Pos(px, py) && -1 <= i - px <= 1 && -1 <= j - py <= 1
  }

  /** The cells revealCells(px, py) marks: the outer ring and the cells
      around (px, py). */
  predicate Reveals(px: int, py: int, i: int, j: int)
  {
    OnRing(i, j) || Near(px, py, i, j)
  }

  /** The fog mask of a new game: a fresh grid with every flag false. */
  method NoneRevealed() returns (r: array2<bool>)
    ensures fresh(r) && IsGrid(r)
    ensures forall j, i :: 0 <= j < HEIGHT && 0 <= i < WIDTH ==> !r[j, i]
  {
    r := new bool[HEIGHT, WIDTH];
    for j := 0 to HEIGHT
      invariant forall j', i :: 0 <= j' < j && 0 <= i < WIDTH ==> !r[j', i]
    {
      for i := 0 to WIDTH
        invariant forall j', i' :: (0 <= j' < j && 0 <= i' < WIDTH) || (j' == j && 0 <= i' < i) ==> !r[j', i']
      {
        r[j, i] := false;
      }
    }
  }

  // ---------------------------------------------------------------------------
  // The game state
  // ---------------------------------------------------------------------------

  class GameState {
    /** The shared grid of terrain and overlay glyphs. */
    const maze: array2<char>
    var player: Pos
    var cheese: Pos
    const cats: array<Pos>
    /** Each cat's position before its latest move; (0, 0) before the first. */
    const lastCatPositions: array<Pos>
    var cheeseCollected: int
    var cheeseToWin: int
    const revealedCells: array2<bool>
    var randomMovementGenerator: RandomMovementGenerator?

    /** The wall cells of the grid the game was started on. */
    ghost const walls: set<Pos>

    /** A cell an entity may stand on: inside the outer ring and not wall. */
    ghost predicate Walkable(p: Pos)
    {
      InInterior(p.x, p.y) && p !in walls
    }

    /** A cat may take move d from `from` when its target is walkable and is not
        the cell it came from. */
    ghost predicate Admissible(from: Pos, last: Pos, d: Move)
    {
      Walkable(Shift(from, d)) && Shift(from, d) != last
    }

    ghost predicate HasExit(from: Pos, last: Pos)
    {
      exists d :: d in MOVES && Admissible(from, last, d)
    }

    /** The position `to` of a cat after one move of the movement policy from
        `from`, having come from `last`. */
    ghost predicate CatStepped(from: Pos, last: Pos, to: Pos)
    {
      if HasExit(from, last) then exists d :: d in MOVES && Admissible(from, last, d) && to == Shift(from, d)
      else to == last
    }

    /** The grid shows a wall exactly on the cells of `walls`. */
    ghost predicate WallsFixed()
      reads maze
      requires IsGrid(maze)
    {
      WallsOf(maze, walls)
    }

    /** lastCatPositions[k] is a walkable cell, or still the initial (0, 0)
        while cat k has not left its start. */
    ghost predicate LastKnown(k: int)
      reads cats, lastCatPositions
      requires 0 <= k < cats.Length && k < lastCatPositions.Length
    {
      Walkable(lastCatPositions[k]) || (lastCatPositions[k] == Pos(0, 0) && cats[k] == CatStart(k))
    }

    /** Everything the operations keep, except that the cheese is off the
        player's cell. */
    ghost predicate Core()
      reads this, maze, cats, lastCatPositions
    {
      IsGrid(maze) && IsGrid(revealedCells) &&
      cats.Length == CAT_COUNT && lastCatPositions.Length == CAT_COUNT && cats != lastCatPositions &&
      randomMovementGenerator != null && randomMovementGenerator.gameState == this &&
      randomMovementGenerator.moves == MOVES &&
      WallsFixed() && CornersClearOf(walls) &&
      Walkable(player) && Walkable(cheese) &&
      (forall k :: 0 <= k < CAT_COUNT ==> Walkable(cats[k])) &&
      (forall k :: 0 <= k < CAT_COUNT ==> LastKnown(k))
    }

    ghost predicate Valid()
      reads this, maze, cats, lastCatPositions
    {
      Core() && cheese != player
    }

    /** The game starts with the player on (1, 1), the cheese on a random open
        cell, the cats on the other three corner elbows, nothing revealed, and
        five cheese needed to win. */
    constructor(maze: array2<char>)
      requires IsGrid(maze)
      requires CornerCellsOpen(maze)
      ensures Valid()
      ensures this.maze == maze && player == Pos(1, 1)
      ensures InInterior(cheese.x, cheese.y) && maze[cheese.y, cheese.x] == OPEN
      ensures forall k :: 0 <= k < CAT_COUNT ==> cats[k] == CatStart(k) && lastCatPositions[k] == Pos(0, 0)
      ensures cheeseCollected == 0 && cheeseToWin == 5
      ensures forall j, i :: 0 <= j < HEIGHT && 0 <= i < WIDTH ==> !revealedCells[j, i]
      ensures fresh(revealedCells) && fresh(cats) && fresh(lastCatPositions) && fresh(randomMovementGenerator)
    {
      this.maze := maze;
      var last := new Pos[CAT_COUNT](_ => Pos(0, 0));
      lastCatPositions := last;
      var fog := NoneRevealed();
      revealedCells := fog;
      player := Pos(1, 1);
      var c := new Pos[CAT_COUNT](CatStart);
      cats := c;
      cheeseCollected := 0;
      cheeseToWin := 5;
      ghost var w := WallCells(maze);
      CornersOutsideWalls(maze, w);
      walls := w;
      new;
      cheese := GetRandomPosition();
      assert WallsFixed();
      randomMovementGenerator := new RandomMovementGenerator(this);
    }

    /** Some inner cell other than the player's is open. */
    predicate FreeCellExists()
      reads this, maze
      requires IsGrid(maze)
    {
      exists x, y :: 1 <= x < WIDTH - 1 && 1 <= y < HEIGHT - 1 && maze[y, x] == OPEN && Pos(x, y) != player
    }

    /** getRandomPosition: an inner cell that is open and not the player's. The
        source draws cells until one qualifies; that rejection loop is
        collapsed into one choice among the cells it can accept. */
    method GetRandomPosition() returns (p: Pos)
      requires IsGrid(maze) && FreeCellExists()
      ensures InInterior(p.x, p.y) && maze[p.y, p.x] == OPEN && p != player
    {
      var x, y :| 1 <= x < WIDTH - 1 && 1 <= y < HEIGHT - 1 && maze[y, x] == OPEN && Pos(x, y) != player;
      p := Pos(x, y);
    }

    /** isValidMove: (x, y) is inside the outer ring and not wall; cells that
        show the player, the cheese or a cat are enterable. */
    function IsValidMove(x: int, y: int): (r: bool)
      reads maze
      requires IsGrid(maze)
      ensures r <==> InInterior(x, y) && maze[y, x] != WALL
      ensures InInterior(x, y) && IsEntityGlyph(maze[y, x]) ==> r
    {
      x >= 1 && x < maze.Length1 - 1 &&
      y >= 1 && y < maze.Length0 - 1 &&
      maze[y, x] != WALL
    }

    /** In a valid state a move is accepted exactly when its target is walkable. */
    lemma ValidMoveIsWalkable(x: int, y: int)
      requires Valid()
      ensures IsValidMove(x, y) <==> Walkable(Pos(x, y))
    {
    }

    /** checkWin: enough cheese has been collected. */
    function CheckWin(): bool
      reads this
    {
      cheeseCollected >= cheeseToWin
    }

    /** checkLoss: some cat is on the player's cell. */
    function CheckLoss(): (r: bool)
      reads this, cats
      requires cats.Length == CAT_COUNT
      ensures r <==> exists k :: 0 <= k < CAT_COUNT && cats[k] == player
    {
      player == cats[0] || player == cats[1] || player == cats[2]
    }

    /** The printMaze rule for one cell: the cell's glyph if it is revealed or
        holds an entity, the fog glyph otherwise. */
    function DisplayChar(x: int, y: int): (r: char)
      reads maze, revealedCells
      requires IsGrid(maze) && IsGrid(revealedCells) && InGrid(x, y)
      ensures r == maze[y, x] || r == FOG
      ensures IsEntityGlyph(maze[y, x]) ==> r == maze[y, x]
      ensures revealedCells[y, x] ==> r == maze[y, x]
      ensures !revealedCells[y, x] && !IsEntityGlyph(maze[y, x]) ==> r == FOG
    {
      if revealedCells[y, x] || maze[y, x] == PLAYER || maze[y, x] == CHEESE || maze[y, x] == CAT then maze[y, x]
      else FOG
    }

    /** Writes glyph g, which is not a wall, on cell (x, y), which is not one of
        the walls; every other cell keeps its glyph. */
    method SetCell(x: int, y: int, g: char)
      requires IsGrid(maze) && WallsFixed() && InGrid(x, y) && Pos(x, y) !in walls && g != WALL
      modifies maze
      ensures WallsFixed()
      ensures forall j, i :: 0 <= j < HEIGHT && 0 <= i < WIDTH ==>
        maze[j, i] == if j == y && i == x then g else old(maze[j, i])
    {
      maze[y, x] := g;
    }

    /** placeEntities: the player's glyph, then the cheese's, then one cat glyph
        per cat, each written over what the cell held. */
    method PlaceEntities()
      requires Valid()
      modifies maze
      ensures Valid()
      ensures forall j, i :: 0 <= j < HEIGHT && 0 <= i < WIDTH ==>
        maze[j, i] == if exists k :: 0 <= k < CAT_COUNT && cats[k] == Pos(i, j) then CAT
                      else if cheese == Pos(i, j) then CHEESE
                      else if player == Pos(i, j) then PLAYER
                      else old(maze[j, i])
    {
      SetCell(player.x, player.y, PLAYER);
      SetCell(cheese.x, cheese.y, CHEESE);
      for n := 0 to CAT_COUNT
        invariant Valid()
        invariant forall j, i :: 0 <= j < HEIGHT && 0 <= i < WIDTH ==>
          maze[j, i] == if exists k :: 0 <= k < n && cats[k] == Pos(i, j) then CAT
                        else if cheese == Pos(i, j) then CHEESE
                        else if player == Pos(i, j) then PLAYER
                        else old(maze[j, i])
      {
        SetCell(cats[n].x, cats[n].y, CAT);
      }
    }

    /** The state after the player has stepped onto (x, y): the player stands
        there; if it was the cheese's cell, one more cheese is counted and the
        cheese has moved to a cell that was open once the player had left its
        old cell; the grid shows the player, then the new cheese, then an open
        old player cell, over the old grid. */
    twostate predicate PlayerMovedTo(x: int, y: int)
      reads this, maze
      requires IsGrid(maze)
    {
      player == Pos(x, y) &&
      (old(cheese) != Pos(x, y) ==> cheese == old(cheese) && cheeseCollected == old(cheeseCollected)) &&
      (old(cheese) == Pos(x, y) ==>
        cheeseCollected == old(cheeseCollected) + 1 && InInterior(cheese.x, cheese.y) &&
        (var c := cheese; c == old(player) || old(maze[c.y, c.x]) == OPEN)) &&
      forall j, i :: 0 <= j < HEIGHT && 0 <= i < WIDTH ==>
        maze[j, i] == if Pos(i, j) == Pos(x, y) then PLAYER
                      else if old(cheese) == Pos(x, y) && Pos(i, j) == cheese then CHEESE
                      else if Pos(i, j) == old(player) then OPEN
                      else old(maze[j, i])
    }

    /** updatePlayerPosition: opens the old player cell, moves the player,
        collects and respawns the cheese when the player lands on it, and
        writes the player's glyph. */
    method UpdatePlayerPosition(x: int, y: int)
      requires Valid() && Walkable(Pos(x, y))
      modifies this`player, this`cheese, this`cheeseCollected, maze
      ensures Valid()
      ensures PlayerMovedTo(x, y)
    {
      var oldPlayer := player;
      SetCell(player.x, player.y, OPEN);
      player := Pos(x, y);
      if player == cheese {
        cheeseCollected := cheeseCollected + 1;
        assert 1 <= oldPlayer.x < WIDTH - 1 && 1 <= oldPlayer.y < HEIGHT - 1 &&
          maze[oldPlayer.y, oldPlayer.x] == OPEN && Pos(oldPlayer.x, oldPlayer.y) != player;
        RespawnCheese();
      }
      SetCell(player.x, player.y, PLAYER);
    }

    /** respawnCheese: the cheese moves to a random inner open cell other than
        the player's, and that cell shows the cheese. */
    method RespawnCheese()
      requires Core() && FreeCellExists()
      modifies this`cheese, maze
      ensures Valid()
      ensures InInterior(cheese.x, cheese.y) && (var c := cheese; old(maze[c.y, c.x]) == OPEN)
      ensures forall j, i :: 0 <= j < HEIGHT && 0 <= i < WIDTH ==>
        maze[j, i] == if Pos(i, j) == cheese then CHEESE else old(maze[j, i])
    {
      var newPosition := GetRandomPosition();
      cheese := newPosition;
      SetCell(cheese.x, cheese.y, CHEESE);
    }

    /** playerMove: W, A, S and D aim one cell up, left, down and right; the
        move is made, and true returned, exactly when the key is one of them
        and the target passes isValidMove. Otherwise nothing changes. */
    method PlayerMove(move: char) returns (moved: bool)
      requires Valid()
      modifies this`player, this`cheese, this`cheeseCollected, maze
      ensures Valid()
      ensures moved <==> IsMoveKey(move) && old(IsValidMove(KeyTarget(player, move).x, KeyTarget(player, move).y))
      ensures moved ==> PlayerMovedTo(old(KeyTarget(player, move).x), old(KeyTarget(player, move).y))
      ensures !moved ==>
        player == old(player) && cheese == old(cheese) && cheeseCollected == old(cheeseCollected) && unchanged(maze)
    {
      var x := player.x;
      var y := player.y;
      var newX := x;
      var newY := y;
      if move == 'W' {
        newY := y - 1;
      } else if move == 'A' {
        newX := x - 1;
      } else if move == 'S' {
        newY := y + 1;
      } else if move == 'D' {
        newX := x + 1;
      } else {
        return false;
      }
      if IsValidMove(newX, newY) {
        ValidMoveIsWalkable(newX, newY);
        UpdatePlayerPosition(newX, newY);
        return true;
      } else {
        return false;
      }
    }

    /** updateCatPosition for cat k: its old cell shows the cheese if it is the
        cheese's cell and is open otherwise, then the cat stands on (x, y) and
        that cell shows a cat. */
    method UpdateCatPosition(k: int, x: int, y: int)
      requires Valid() && 0 <= k < CAT_COUNT && Walkable(Pos(x, y)) && Walkable(lastCatPositions[k])
      modifies cats, maze
      ensures Valid()
      ensures cats[k] == Pos(x, y) && forall m :: 0 <= m < CAT_COUNT && m != k ==> cats[m] == old(cats[m])
      ensures forall j, i :: 0 <= j < HEIGHT && 0 <= i < WIDTH ==>
        maze[j, i] == if Pos(i, j) == Pos(x, y) then CAT
                      else if Pos(i, j) == old(cats[k]) then (if old(cats[k]) == cheese then CHEESE else OPEN)
                      else old(maze[j, i])
    {
      var cat := cats[k];
      if cat.x == cheese.x && cat.y == cheese.y {
        SetCell(cat.x, cat.y, CHEESE);
      } else {
        SetCell(cat.x, cat.y, OPEN);
      }
      cats[k] := Pos(x, y);
      SetCell(x, y, CAT);
      forall m | 0 <= m < CAT_COUNT
        ensures LastKnown(m)
      {
        assert old(LastKnown(m));
        assert m != k ==> cats[m] == old(cats[m]);
      }
    }

    /** Under the invariant a move passes the policy's filter exactly when it
        is admissible: isValidMove reads the walls through the grid. */
    lemma PassesIffAdmissible(from: Pos, last: Pos, d: Move)
      requires Valid()
      ensures randomMovementGenerator.Passes(from.x, from.y, last.x, last.y, d) <==> Admissible(from, last, d)
    {
      ValidMoveIsWalkable(from.x + d.dx, from.y + d.dy);
    }

    /** A cat on its start cell that has not moved yet, whose last position is
        still (0, 0), can step into its corner L. */
    lemma StartHasExit(k: int)
      requires CornersClearOf(walls) && 0 <= k < CAT_COUNT
      ensures HasExit(CatStart(k), Pos(0, 0))
    {
      var d := if k == 1 then MOVES[3] else MOVES[2];
      assert d in MOVES;
      assert Shift(CatStart(k), d) == if k == 0 then Pos(WIDTH - 3, 1) else if k == 1 then Pos(2, HEIGHT - 2) else Pos(WIDTH - 3, HEIGHT - 2);
      assert Admissible(CatStart(k), Pos(0, 0), d);
    }

    /** The move the policy returns for cat k takes it to a walkable cell, by
        one step of the policy: a passing move when there is one and back to
        its last position otherwise, which is walkable because a cat still on
        its start always has a passing move. */
    lemma CatMoveLands(k: int, move: Move)
      requires Valid() && 0 <= k < CAT_COUNT
      requires var c := cats[k]; var l := lastCatPositions[k];
        ((exists d :: d in MOVES && randomMovementGenerator.Passes(c.x, c.y, l.x, l.y, d)) ==>
          move in MOVES && randomMovementGenerator.Passes(c.x, c.y, l.x, l.y, move)) &&
        (!(exists d :: d in MOVES && randomMovementGenerator.Passes(c.x, c.y, l.x, l.y, d)) ==>
          move == Move(l.x - c.x, l.y - c.y))
      ensures Walkable(Shift(cats[k], move)) && CatStepped(cats[k], lastCatPositions[k], Shift(cats[k], move))
    {
      var c := cats[k];
      var l := lastCatPositions[k];
      forall d | d in MOVES
        ensures randomMovementGenerator.Passes(c.x, c.y, l.x, l.y, d) <==> Admissible(c, l, d)
      {
        PassesIffAdmissible(c, l, d);
      }
      PassesIffAdmissible(c, l, move);
      assert LastKnown(k);
      if !Walkable(l) {
        StartHasExit(k);
      }
    }

    /** One round of the cats, in index order: each cat's last position is
        where it stood, it has taken one step of the policy, and the grid is
        the old grid with the cats' moves written over it in order. */
    twostate predicate CatsMoved()
      reads this, maze, cats, lastCatPositions
      requires IsGrid(maze) && cats.Length == CAT_COUNT && lastCatPositions.Length == CAT_COUNT
    {
      (forall k :: 0 <= k < CAT_COUNT ==>
        lastCatPositions[k] == old(cats[k]) && CatStepped(old(cats[k]), old(lastCatPositions[k]), cats[k])) &&
      forall j, i :: 0 <= j < HEIGHT && 0 <= i < WIDTH ==>
        maze[j, i] == CellAfterMoves(old(maze[j, i]), Pos(i, j), old(cats[..]), cats[..], cheese)
    }

    /** The body moveCats runs for cat k: draw a move from the policy,
        record the cat's position as its last one and move it. */
    method MoveCat(k: int)
      requires Valid() && 0 <= k < CAT_COUNT
      modifies cats, lastCatPositions, maze
      ensures Valid()
      ensures lastCatPositions[k] == old(cats[k]) && CatStepped(old(cats[k]), old(lastCatPositions[k]), cats[k])
      ensures forall m :: 0 <= m < CAT_COUNT && m != k ==>
        cats[m] == old(cats[m]) && lastCatPositions[m] == old(lastCatPositions[m])
      ensures forall j, i :: 0 <= j < HEIGHT && 0 <= i < WIDTH ==>
        maze[j, i] == if Pos(i, j) == cats[k] then CAT
                      else if Pos(i, j) == old(cats[k]) then (if old(cats[k]) == cheese then CHEESE else OPEN)
                      else old(maze[j, i])
    {
      var catX := cats[k].x;
      var catY := cats[k].y;
      var move := randomMovementGenerator.GenerateRandomMove(catX, catY, lastCatPositions[k].x, lastCatPositions[k].y);
      CatMoveLands(k, move);
      lastCatPositions[k] := Pos(catX, catY);
      forall m | 0 <= m < CAT_COUNT
        ensures LastKnown(m)
      {
        assert old(LastKnown(m));
      }
      UpdateCatPosition(k, catX + move.dx, catY + move.dy);
    }

    /** After the first k turns of moveCats, starting from cats from,
        last positions last0 and grid maze0: cats 0..k-1 have stepped (and
        stand at to), the others have not moved, and the grid shows the
        first k moves. */
    ghost predicate MovedInTurn(k: int, from: seq<Pos>, to: seq<Pos>, last0: seq<Pos>, maze0: seq<seq<char>>)
      reads this, cats, lastCatPositions, maze
      requires IsGrid(maze) && cats.Length == CAT_COUNT && lastCatPositions.Length == CAT_COUNT
    {
      0 <= k <= CAT_COUNT && |from| == CAT_COUNT && |last0| == CAT_COUNT && |to| == k &&
      IsSnapshot(maze0) &&
      (forall m :: 0 <= m < k ==>
        to[m] == cats[m] && lastCatPositions[m] == from[m] && CatStepped(from[m], last0[m], cats[m])) &&
      (forall m :: k <= m < CAT_COUNT ==> cats[m] == from[m] && lastCatPositions[m] == last0[m]) &&
      forall j, i :: 0 <= j < HEIGHT && 0 <= i < WIDTH ==>
        maze[j, i] == CellAfterMoves(maze0[j][i], Pos(i, j), from[..k], to, cheese)
    }

    /** Turn k of moveCats: MoveCat(k), seen as one more step of MovedInTurn. */
    method MoveCatInTurn(k: int, ghost from: seq<Pos>, ghost to: seq<Pos>, ghost last0: seq<Pos>, ghost maze0: seq<seq<char>>)
      requires Valid() && 0 <= k < CAT_COUNT && MovedInTurn(k, from, to, last0, maze0)
      modifies cats, lastCatPositions, maze
      ensures Valid() && MovedInTurn(k + 1, from, to + [cats[k]], last0, maze0)
    {
      MoveCat(k);
      forall m | 0 <= m < k + 1
        ensures (to + [cats[k]])[m] == cats[m] && lastCatPositions[m] == from[m] && CatStepped(from[m], last0[m], cats[m])
      {
        if m < k {
          assert cats[m] == old(cats[m]) && lastCatPositions[m] == old(lastCatPositions[m]);
        }
      }
      forall j, i | 0 <= j < HEIGHT && 0 <= i < WIDTH
        ensures maze[j, i] == CellAfterMoves(maze0[j][i], Pos(i, j), from[..k + 1], to + [cats[k]], cheese)
      {
        CellAfterOneMoreMove(maze0[j][i], Pos(i, j), from, to, cats[k], cheese);
      }
    }

    /** moveCats: cats 0, 1 and 2 move in turn. */
    method MoveCats()
      requires Valid()
      modifies cats, lastCatPositions, maze
      ensures Valid()
      ensures CatsMoved()
    {
      ghost var from, last0, maze0 := cats[..], lastCatPositions[..], Snapshot(maze);
      ghost var to: seq<Pos> := [];
      for k := 0 to CAT_COUNT
        invariant Valid() && MovedInTurn(k, from, to, last0, maze0)
      {
        MoveCatInTurn(k, from, to, last0, maze0);
        to := to + [cats[k]];
      }
      assert from[..CAT_COUNT] == from;
      assert to == cats[..];
    }

    /** revealCells: the outer ring and the in-grid neighbours of (playerX,
        playerY) become revealed; the centre is skipped and no flag is
        cleared. */
    method RevealCells(playerX: int, playerY: int)
      requires IsGrid(revealedCells)
      modifies revealedCells
      ensures forall j, i :: 0 <= j < HEIGHT && 0 <= i < WIDTH ==>
        revealedCells[j, i] == (old(revealedCells[j, i]) || Reveals(playerX, playerY, i, j))
    {
      for x := 0 to WIDTH
        invariant forall j, i :: 0 <= j < HEIGHT && 0 <= i < WIDTH ==>
          revealedCells[j, i] == (old(revealedCells[j, i]) || ((j == 0 || j == HEIGHT - 1) && i < x))
      {
        revealedCells[0, x] := true;
        revealedCells[HEIGHT - 1, x] := true;
      }
      for y := 0 to HEIGHT
        invariant forall j, i :: 0 <= j < HEIGHT && 0 <= i < WIDTH ==>
          revealedCells[j, i] == (old(revealedCells[j, i]) || j == 0 || j == HEIGHT - 1 || ((i == 0 || i == WIDTH - 1) && j < y))
      {
        revealedCells[y, 0] := true;
        revealedCells[y, WIDTH - 1] := true;
      }
      for y := -1 to 2
        invariant forall j, i :: 0 <= j < HEIGHT && 0 <= i < WIDTH ==>
          revealedCells[j, i] == (old(revealedCells[j, i]) || OnRing(i, j) || (Near(playerX, playerY, i, j) && j - playerY < y))
      {
        for x := -1 to 2
          invariant forall j, i :: 0 <= j < HEIGHT && 0 <= i < WIDTH ==>
            revealedCells[j, i] == (old(revealedCells[j, i]) || OnRing(i, j) ||
              (Near(playerX, playerY, i, j) && (j - playerY < y || (j - playerY == y && i - playerX < x))))
        {
          if x == 0 && y == 0 {
            continue;
          }
          var newX := playerX + x;
          var newY := playerY + y;
          if newX >= 0 && newX < WIDTH && newY >= 0 && newY < HEIGHT {
            revealedCells[newY, newX] := true;
          }
        }
      }
    }

    ghost predicate AllRevealed()
      reads revealedCells
      requires IsGrid(revealedCells)
    {
      forall j, i :: 0 <= j < HEIGHT && 0 <= i < WIDTH ==> revealedCells[j, i]
    }

    /** revealEntireMaze: every flag is set, so a second call changes
        nothing. */
    method RevealEntireMaze()
      requires IsGrid(revealedCells)
      modifies revealedCells
      ensures AllRevealed()
      ensures old(AllRevealed()) ==> forall j, i :: 0 <= j < HEIGHT && 0 <= i < WIDTH ==>
        revealedCells[j, i] == old(revealedCells[j, i])
    {
      for y := 0 to HEIGHT
        invariant forall j, i :: 0 <= j < y && 0 <= i < WIDTH ==> revealedCells[j, i]
      {
        for x := 0 to WIDTH
          invariant forall j, i :: (0 <= j < y && 0 <= i < WIDTH) || (j == y && 0 <= i < x) ==> revealedCells[j, i]
        {
          revealedCells[y, x] := true;
        }
      }
    }

    /** changeCheeseToWin: one cheese is now enough, whatever the target was. */
    method ChangeCheeseToWin()
      requires Valid()
      modifies this`cheeseToWin
      ensures Valid() && cheeseToWin == 1
    {
      cheeseToWin := 1;
    }
  }

  // ---------------------------------------------------------------------------
  // The cats' movement policy
  // ---------------------------------------------------------------------------

  class RandomMovementGenerator {
    const gameState: GameState
    const moves: seq<Move>

    constructor(gameState: GameState)
      ensures this.gameState == gameState && moves == MOVES
    {
      this.gameState := gameState;
      moves := MOVES;
    }

    /** isBackTracking: move returns the cat to its last position. */
    function IsBackTracking(catX: int, catY: int, move: Move, lastX: int, lastY: int): (r: bool)
      ensures r <==> move == Move(lastX - catX, lastY - catY)
    {
      catX + move.dx == lastX && catY + move.dy == lastY
    }

    /** The filter of generateRandomMove: a valid target that is not a step back. */
    predicate Passes(catX: int, catY: int, lastX: int, lastY: int, move: Move)
      reads gameState, gameState.maze
      requires IsGrid(gameState.maze)
    {
      gameState.IsValidMove(catX + move.dx, catY + move.dy) && !IsBackTracking(catX, catY, move, lastX, lastY)
    }

    /** The entries of ms that pass the filter, in their order in ms. */
    function PossibleMoves(ms: seq<Move>, catX: int, catY: int, lastX: int, lastY: int): seq<Move>
      reads gameState, gameState.maze
      requires IsGrid(gameState.maze)
    {
      if ms == [] then []
      else
        var rest := PossibleMoves(ms[..|ms| - 1], catX, catY, lastX, lastY);
        if Passes(catX, catY, lastX, lastY, ms[|ms| - 1]) then rest + [ms[|ms| - 1]] else rest
    }

    /** The possible moves are exactly the passing entries of ms, no more
        than ms holds, and none twice when ms has no repeats. */
    lemma {:induction false} PossibleMovesSpec(ms: seq<Move>, catX: int, catY: int, lastX: int, lastY: int)
      requires IsGrid(gameState.maze)
      ensures forall d :: d in PossibleMoves(ms, catX, catY, lastX, lastY) <==>
        d in ms && Passes(catX, catY, lastX, lastY, d)
      ensures |PossibleMoves(ms, catX, catY, lastX, lastY)| <= |ms|
      ensures (forall i, j :: 0 <= i < j < |ms| ==> ms[i] != ms[j]) ==>
        forall i, j :: 0 <= i < j < |PossibleMoves(ms, catX, catY, lastX, lastY)| ==>
          PossibleMoves(ms, catX, catY, lastX, lastY)[i] != PossibleMoves(ms, catX, catY, lastX, lastY)[j]
    {
      if ms != [] {
        var n := |ms| - 1;
        assert ms == ms[..n] + [ms[n]];
        PossibleMovesSpec(ms[..n], catX, catY, lastX, lastY);
      }
    }

    /** generateRandomMove: gathers the moves that pass the filter in table
        order and picks one at random; with none, steps back to the last
        position. It reads the game only through isValidMove and changes
        nothing. */
    method GenerateRandomMove(catX: int, catY: int, lastX: int, lastY: int) returns (move: Move)
      requires IsGrid(gameState.maze) && moves == MOVES
      ensures (exists d :: d in moves && Passes(catX, catY, lastX, lastY, d)) ==>
        move in moves && Passes(catX, catY, lastX, lastY, move)
      ensures !(exists d :: d in moves && Passes(catX, catY, lastX, lastY, d)) ==>
        move == Move(lastX - catX, lastY - catY)
    {
      var possibleMoves: seq<Move> := [];
      for k := 0 to |moves|
        invariant possibleMoves == PossibleMoves(moves[..k], catX, catY, lastX, lastY)
      {
        assert moves[..k + 1][..k] == moves[..k];
        var potentialMove := moves[k];
        var newX := catX + potentialMove.dx;
        var newY := catY + potentialMove.dy;
        if gameState.IsValidMove(newX, newY) && !IsBackTracking(catX, catY, potentialMove, lastX, lastY) {
          possibleMoves := possibleMoves + [potentialMove];
        }
      }
      assert moves[..|moves|] == moves;
      PossibleMovesSpec(moves, catX, catY, lastX, lastY);
      if |possibleMoves| > 0 {
        var r :| 0 <= r < |possibleMoves|;
        move := possibleMoves[r];
      } else {
        move := Move(lastX - catX, lastY - catY);
      }
    }
  }
}
