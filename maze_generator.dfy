/** The maze generator: a randomised Prim's carve on the odd-coordinate
    lattice, four forced-open corner L shapes, random extra openings that never
    complete a 2x2 open block, and a retry loop that rejects any maze with a
    uniform 2x2 window. Every use of the random source is an arbitrary choice
    (`:|`), so each contract holds whatever the random source returns. */
module MazeGenerator {
  import opened Board

  // ---------------------------------------------------------------------------
  // Cells, directions and the lattice the carve walks on
  // ---------------------------------------------------------------------------

  function At(m: array2<char>, p: Pos): char
    reads m
    requires IsGrid(m) && InGrid(p.x, p.y)
  {
    m[p.y, p.x]
  }

  /** The four directions in which addWalls, canBePath and makePath look. */
  datatype Dir = West | East | North | South

  /** The cell two steps from (x, y) in direction d: the neighbouring lattice cell. */
  function TwoStep(x: int, y: int, d: Dir): Pos
  {
    match d
    case West => Pos(x - 2, y)
    case East => Pos(x + 2, y)
    case North => Pos(x, y - 2)
    case South => Pos(x, y + 2)
  }

  /** The cells the carve visits: odd x in [1, WIDTH-3] and odd y in [1, HEIGHT-2]. */
  predicate InLattice(p: Pos)
  {
    1 <= p.x <= WIDTH - 3 && 1 <= p.y <= HEIGHT - 2 && p.x % 2 == 1 && p.y % 2 == 1
  }

  /** The range guards of addWalls: east and south they stop one cell short of WIDTH - 2 and HEIGHT - 2, the bounds canBePath uses. */
  predicate PushReach(x: int, y: int, d: Dir)
  {
    match d
    case West => x > 1
    case East => x < WIDTH - 3
    case North => y > 1
    case South => y < HEIGHT - 3
  }

  /** The two-step neighbour of (x, y) in direction d is within the range
      guards of canBePath and open. */
  predicate OpenToward(m: array2<char>, x: int, y: int, d: Dir)
    reads m
    requires IsGrid(m) && InGrid(x, y)
  {
    match d
    case West => x > 1 && m[y, x - 2] == OPEN
    case East => x < WIDTH - 2 && m[y, x + 2] == OPEN
    case North => y > 1 && m[y - 2, x] == OPEN
    case South => y < HEIGHT - 2 && m[y + 2, x] == OPEN
  }

  /** addWalls pushes the two-step neighbour of (x, y) in direction d: it is
      within addWalls' range guards and wall. */
  predicate PushesToward(m: array2<char>, x: int, y: int, d: Dir)
    reads m
    requires IsGrid(m) && InGrid(x, y)
  {
    match d
    case West => x > 1 && m[y, x - 2] == WALL
    case East => x < WIDTH - 3 && m[y, x + 2] == WALL
    case North => y > 1 && m[y - 2, x] == WALL
    case South => y < HEIGHT - 3 && m[y + 2, x] == WALL
  }

  /** p is the two-step neighbour of (x, y) in a direction addWalls may push. */
  predicate PushedFrom(x: int, y: int, p: Pos)
  {
    (p == TwoStep(x, y, West) && PushReach(x, y, West)) ||
    (p == TwoStep(x, y, East) && PushReach(x, y, East)) ||
    (p == TwoStep(x, y, North) && PushReach(x, y, North)) ||
    (p == TwoStep(x, y, South) && PushReach(x, y, South))
  }

  lemma PushedFromLattice(x: int, y: int, p: Pos)
    requires InLattice(Pos(x, y)) && PushedFrom(x, y, p)
    ensures InLattice(p)
  {
  }

  // ---------------------------------------------------------------------------
  // Whole-grid properties
  // ---------------------------------------------------------------------------

  /** Every cell is a wall or open: no overlay glyph is in the grid. */
  predicate IsTerrain(m: array2<char>)
    reads m
    requires IsGrid(m)
  {
    forall j, i :: 0 <= j < HEIGHT && 0 <= i < WIDTH ==> m[j, i] == WALL || m[j, i] == OPEN
  }

  /** The outer ring (row 0, row HEIGHT-1, column 0, column WIDTH-1) is wall. */
  predicate BorderIsWall(m: array2<char>)
    reads m
    requires IsGrid(m)
  {
    forall j, i :: 0 <= j < HEIGHT && 0 <= i < WIDTH && !InInterior(i, j) ==> m[j, i] == WALL
  }

  predicate CornersOpen(m: array2<char>)
    reads m
    requires IsGrid(m)
  {
    forall j, i :: 0 <= j < HEIGHT && 0 <= i < WIDTH && IsCornerCell(Pos(i, j)) ==> m[j, i] == OPEN
  }

  /** Cells with both coordinates even are never carved. */
  predicate EvenCellsAreWall(m: array2<char>)
    reads m
    requires IsGrid(m)
  {
    forall j, i :: 0 <= j < HEIGHT && 0 <= i < WIDTH && i % 2 == 0 && j % 2 == 0 ==> m[j, i] == WALL
  }

  /** All four cells of the 2x2 window with top-left corner (i, j) hold c. */
  predicate WindowAll(m: array2<char>, i: int, j: int, c: char)
    reads m
    requires IsGrid(m) && 0 <= i < WIDTH - 1 && 0 <= j < HEIGHT - 1
  {
    m[j, i] == c && m[j, i + 1] == c && m[j + 1, i] == c && m[j + 1, i + 1] == c
  }

  predicate WindowHasCornerCell(i: int, j: int)
  {
    IsCornerCell(Pos(i, j)) || IsCornerCell(Pos(i + 1, j)) ||
    IsCornerCell(Pos(i, j + 1)) || IsCornerCell(Pos(i + 1, j + 1))
  }

  /** Every all-open 2x2 window of the grid contains a cell of a corner L. */
  predicate OpenWindowsAtCorners(m: array2<char>)
    reads m
    requires IsGrid(m)
  {
    forall j, i :: 0 <= j < HEIGHT - 1 && 0 <= i < WIDTH - 1 && WindowAll(m, i, j, OPEN) ==>
      WindowHasCornerCell(i, j)
  }

  /** The acceptance test of the retry loop: no window whose top-left corner
      (x, y) has 1 <= x <= WIDTH-2 and 1 <= y <= HEIGHT-2 is all open or all wall.
      These windows reach into the right column and the bottom row of the outer
      ring, but not into the left column or the top row. */
  ghost predicate MazeValid(m: array2<char>)
    reads m
    requires IsGrid(m)
  {
    forall y, x :: 1 <= y < HEIGHT - 1 && 1 <= x < WIDTH - 1 ==>
      !WindowAll(m, x, y, OPEN) && !WindowAll(m, x, y, WALL)
  }

  // ---------------------------------------------------------------------------
  // Read-only predicates of the generator
  // ---------------------------------------------------------------------------

  /** Exactly one in-range two-step neighbour of (x, y) is open. */
  predicate ExactlyOneOpenNeighbour(m: array2<char>, x: int, y: int)
    reads m
    requires IsGrid(m) && InGrid(x, y)
  {
    exists d :: OpenToward(m, x, y, d) && forall e :: OpenToward(m, x, y, e) ==> e == d
  }

  function Indicator(b: bool): int
  {
    if b then 1 else 0
  }

  lemma {:induction false} CountOneIffExactlyOne(m: array2<char>, x: int, y: int)
    requires IsGrid(m) && InGrid(x, y)
    ensures Indicator(OpenToward(m, x, y, West)) + Indicator(OpenToward(m, x, y, East)) +
            Indicator(OpenToward(m, x, y, North)) + Indicator(OpenToward(m, x, y, South)) == 1
            <==> ExactlyOneOpenNeighbour(m, x, y)
  {
    var w, e, n, s := OpenToward(m, x, y, West), OpenToward(m, x, y, East),
                      OpenToward(m, x, y, North), OpenToward(m, x, y, South);
    if Indicator(w) + Indicator(e) + Indicator(n) + Indicator(s) == 1 {
      var d := if w then West else if e then East else if n then North else South;
      forall e' ensures OpenToward(m, x, y, e') ==> e' == d {
        match e' {
          case West =>
          case East =>
          case North =>
          case South =>
        }
      }
      assert OpenToward(m, x, y, d);
    }
    if ExactlyOneOpenNeighbour(m, x, y) {
      var d :| OpenToward(m, x, y, d) && forall e' :: OpenToward(m, x, y, e') ==> e' == d;
      match d {
        case West =>
        case East =>
        case North =>
        case South =>
      }
    }
  }

  /** canBePath: exactly one in-range two-step neighbour of (x, y) is open. */
  function CanBePath(m: array2<char>, x: int, y: int): (r: bool)
    reads m
    requires IsGrid(m) && InGrid(x, y)
    ensures r <==> ExactlyOneOpenNeighbour(m, x, y)
  {
    var openCount :=
      (if x > 1 && m[y, x - 2] == OPEN then 1 else 0) +
      (if x < WIDTH - 2 && m[y, x + 2] == OPEN then 1 else 0) +
      (if y > 1 && m[y - 2, x] == OPEN then 1 else 0) +
      (if y < HEIGHT - 2 && m[y + 2, x] == OPEN then 1 else 0);
    CountOneIffExactlyOne(m, x, y);
    openCount == 1
  }

  /** Every cell of the window with top-left corner (i, j) is open, except
      possibly the cell (x, y) itself. */
  predicate OpenOnceFilled(m: array2<char>, i: int, j: int, x: int, y: int)
    reads m
    requires IsGrid(m) && 0 <= i < WIDTH - 1 && 0 <= j < HEIGHT - 1
  {
    (Pos(i, j) == Pos(x, y) || m[j, i] == OPEN) &&
    (Pos(i + 1, j) == Pos(x, y) || m[j, i + 1] == OPEN) &&
    (Pos(i, j + 1) == Pos(x, y) || m[j + 1, i] == OPEN) &&
    (Pos(i + 1, j + 1) == Pos(x, y) || m[j + 1, i + 1] == OPEN)
  }

  /** Opening (x, y) would complete some 2x2 window that contains it. */
  ghost predicate CompletesOpenWindow(m: array2<char>, x: int, y: int)
    reads m
    requires IsGrid(m) && InInterior(x, y)
  {
    exists i, j :: x - 1 <= i <= x && y - 1 <= j <= y && OpenOnceFilled(m, i, j, x, y)
  }

  lemma {:induction false} CompletesOpenWindowCases(m: array2<char>, x: int, y: int)
    requires IsGrid(m) && InInterior(x, y)
    ensures CompletesOpenWindow(m, x, y) <==>
      OpenOnceFilled(m, x - 1, y - 1, x, y) || OpenOnceFilled(m, x, y - 1, x, y) ||
      OpenOnceFilled(m, x - 1, y, x, y) || OpenOnceFilled(m, x, y, x, y)
  {
    if CompletesOpenWindow(m, x, y) {
      var i, j :| x - 1 <= i <= x && y - 1 <= j <= y && OpenOnceFilled(m, i, j, x, y);
      assert i == x - 1 || i == x;
      assert j == y - 1 || j == y;
    }
  }

  /** creates2x2OpenBlock: opening (x, y) would complete an all-open 2x2 window. */
  function Creates2x2OpenBlock(m: array2<char>, x: int, y: int): (r: bool)
    reads m
    requires IsGrid(m) && InInterior(x, y)
    ensures r <==> CompletesOpenWindow(m, x, y)
  {
    CompletesOpenWindowCases(m, x, y);
    (m[y - 1, x] == OPEN && m[y, x - 1] == OPEN && m[y - 1, x - 1] == OPEN) ||
    (m[y - 1, x] == OPEN && m[y, x + 1] == OPEN && m[y - 1, x + 1] == OPEN) ||
    (m[y + 1, x] == OPEN && m[y, x - 1] == OPEN && m[y + 1, x - 1] == OPEN) ||
    (m[y + 1, x] == OPEN && m[y, x + 1] == OPEN && m[y + 1, x + 1] == OPEN)
  }

  /** isMazeValid: scans the windows row by row and stops at the first uniform one. */
  method IsMazeValid(m: array2<char>) returns (valid: bool)
    requires IsGrid(m)
    ensures valid <==> MazeValid(m)
  {
    for y := 1 to HEIGHT - 1
      invariant forall y', x' :: 1 <= y' < y && 1 <= x' < WIDTH - 1 ==>
        !WindowAll(m, x', y', OPEN) && !WindowAll(m, x', y', WALL)
    {
      for x := 1 to WIDTH - 1
        invariant forall y', x' :: (1 <= y' < y && 1 <= x' < WIDTH - 1) || (y' == y && 1 <= x' < x) ==>
          !WindowAll(m, x', y', OPEN) && !WindowAll(m, x', y', WALL)
      {
        if m[y, x] == OPEN && m[y, x + 1] == OPEN && m[y + 1, x] == OPEN && m[y + 1, x + 1] == OPEN {
          assert WindowAll(m, x, y, OPEN);
          return false;
        }
        if m[y, x] == WALL && m[y, x + 1] == WALL && m[y + 1, x] == WALL && m[y + 1, x + 1] == WALL {
          assert WindowAll(m, x, y, WALL);
          return false;
        }
      }
    }
    return true;
  }

  // ---------------------------------------------------------------------------
  // The carve
  // ---------------------------------------------------------------------------

  /** The cells makePath at (x, y) opens: (x, y) itself and the corridor cell
      toward each in-range open two-step neighbour. */
  predicate Carved(m: array2<char>, x: int, y: int, p: Pos)
    reads m
    requires IsGrid(m) && InGrid(x, y)
  {
    p == Pos(x, y) ||
    (p == Pos(x - 1, y) && OpenToward(m, x, y, West)) ||
    (p == Pos(x + 1, y) && OpenToward(m, x, y, East)) ||
    (p == Pos(x, y - 1) && OpenToward(m, x, y, North)) ||
    (p == Pos(x, y + 1) && OpenToward(m, x, y, South))
  }

  /** The grid is the previous one with exactly the cells makePath at (x, y) opens set open. */
  twostate predicate CarvedFrom(m: array2<char>, x: int, y: int)
    reads m
    requires IsGrid(m) && InGrid(x, y)
  {
    forall j, i :: 0 <= j < HEIGHT && 0 <= i < WIDTH ==>
      m[j, i] == if old(Carved(m, x, y, Pos(i, j))) then OPEN else old(m[j, i])
  }

  /** Opening what makePath opens at a lattice cell keeps the carve shape,
      with that cell no longer walled. */
  lemma CarvingKeepsShape(m: array2<char>, x: int, y: int, walled: set<Pos>)
    requires IsGrid(m) && InLattice(Pos(x, y)) && CarveShape(m, walled)
    ensures forall j, i :: 0 <= j < HEIGHT && 0 <= i < WIDTH ==>
      CarveCell(if Carved(m, x, y, Pos(i, j)) then OPEN else m[j, i], Pos(i, j), walled - {Pos(x, y)})
  {
    forall j, i | 0 <= j < HEIGHT && 0 <= i < WIDTH
      ensures CarveCell(if Carved(m, x, y, Pos(i, j)) then OPEN else m[j, i], Pos(i, j), walled - {Pos(x, y)})
    {
      if Carved(m, x, y, Pos(i, j)) {
        CarvedCellShape(x, y, Pos(i, j));
      }
    }
  }

  /** makePath: opens (x, y) and the corridor cells toward its open two-step
      neighbours; nothing else changes. */
  method MakePath(m: array2<char>, x: int, y: int, ghost walled: set<Pos>)
    requires IsGrid(m) && InGrid(x, y)
    modifies m
    ensures CarvedFrom(m, x, y)
    ensures InLattice(Pos(x, y)) && old(CarveShape(m, walled)) ==> CarveShape(m, walled - {Pos(x, y)})
  {
    if InLattice(Pos(x, y)) && CarveShape(m, walled) {
      CarvingKeepsShape(m, x, y, walled);
    }
    ghost var west, east, north, south :=
      OpenToward(m, x, y, West), OpenToward(m, x, y, East), OpenToward(m, x, y, North), OpenToward(m, x, y, South);
    m[y, x] := OPEN;
    assert (x > 1 && m[y, x - 2] == OPEN) == west;
    if x > 1 && m[y, x - 2] == OPEN {
      m[y, x - 1] := OPEN;
    }
    assert (x < WIDTH - 2 && m[y, x + 2] == OPEN) == east;
    if x < WIDTH - 2 && m[y, x + 2] == OPEN {
      m[y, x + 1] := OPEN;
    }
    assert (y > 1 && m[y - 2, x] == OPEN) == north;
    if y > 1 && m[y - 2, x] == OPEN {
      m[y - 1, x] := OPEN;
    }
    assert (y < HEIGHT - 2 && m[y + 2, x] == OPEN) == south;
    if y < HEIGHT - 2 && m[y + 2, x] == OPEN {
      m[y + 1, x] := OPEN;
    }
    forall j, i | 0 <= j < HEIGHT && 0 <= i < WIDTH
      ensures m[j, i] == if old(Carved(m, x, y, Pos(i, j))) then OPEN else old(m[j, i])
    {
      assert old(Carved(m, x, y, Pos(i, j))) <==>
        (Pos(i, j) == Pos(x, y) || (Pos(i, j) == Pos(x - 1, y) && west) || (Pos(i, j) == Pos(x + 1, y) && east) ||
         (Pos(i, j) == Pos(x, y - 1) && north) || (Pos(i, j) == Pos(x, y + 1) && south));
    }
    assert CarvedFrom(m, x, y);
    if InLattice(Pos(x, y)) && old(CarveShape(m, walled)) {
      forall j, i | 0 <= j < HEIGHT && 0 <= i < WIDTH
        ensures CarveCell(m[j, i], Pos(i, j), walled - {Pos(x, y)})
      {
        assert m[j, i] == if old(Carved(m, x, y, Pos(i, j))) then OPEN else old(m[j, i]);
      }
    }
  }

  /** The frontier entries addWalls appends for (x, y), in its order west,
      east, north, south. */
  function PushList(m: array2<char>, x: int, y: int): seq<Pos>
    reads m
    requires IsGrid(m) && InGrid(x, y)
  {
    (if PushesToward(m, x, y, West) then [TwoStep(x, y, West)] else []) +
    (if PushesToward(m, x, y, East) then [TwoStep(x, y, East)] else []) +
    (if PushesToward(m, x, y, North) then [TwoStep(x, y, North)] else []) +
    (if PushesToward(m, x, y, South) then [TwoStep(x, y, South)] else [])
  }

  /** addWalls pushes each in-range wall two-step neighbour and nothing else,
      at most four entries, and every entry is a wall cell of the grid. */
  lemma {:induction false} PushListSpec(m: array2<char>, x: int, y: int)
    requires IsGrid(m) && InGrid(x, y)
    ensures |PushList(m, x, y)| <= 4
    ensures forall p :: p in PushList(m, x, y) <==> exists d :: PushesToward(m, x, y, d) && p == TwoStep(x, y, d)
    ensures forall p :: p in PushList(m, x, y) ==> PushedFrom(x, y, p) && InGrid(p.x, p.y) && At(m, p) == WALL
  {
    var l := PushList(m, x, y);
    forall p ensures p in l <==> exists d :: PushesToward(m, x, y, d) && p == TwoStep(x, y, d) {
      if p in l {
        if PushesToward(m, x, y, West) && p == TwoStep(x, y, West) {
        } else if PushesToward(m, x, y, East) && p == TwoStep(x, y, East) {
        } else if PushesToward(m, x, y, North) && p == TwoStep(x, y, North) {
        } else {
          assert PushesToward(m, x, y, South) && p == TwoStep(x, y, South);
        }
      }
      if exists d :: PushesToward(m, x, y, d) && p == TwoStep(x, y, d) {
        var d :| PushesToward(m, x, y, d) && p == TwoStep(x, y, d);
        match d {
          case West =>
          case East =>
          case North =>
          case South =>
        }
      }
    }
  }

  /** addWalls: appends to the frontier, in the order west, east, north, south,
      every two-step neighbour of (x, y) within its range guards that is wall. */
  method AddWalls(m: array2<char>, walls: seq<Pos>, x: int, y: int) returns (walls': seq<Pos>)
    requires IsGrid(m) && InGrid(x, y)
    ensures walls' == walls + PushList(m, x, y)
  {
    walls' := walls;
    if x > 1 && m[y, x - 2] == WALL {
      walls' := walls' + [Pos(x - 2, y)];
    }
    if x < WIDTH - 3 && m[y, x + 2] == WALL {
      walls' := walls' + [Pos(x + 2, y)];
    }
    if y > 1 && m[y - 2, x] == WALL {
      walls' := walls' + [Pos(x, y - 2)];
    }
    if y < HEIGHT - 3 && m[y + 2, x] == WALL {
      walls' := walls' + [Pos(x, y + 2)];
    }
  }

  /** Every entry addWalls pushes for a lattice cell is a lattice cell that is wall. */
  lemma PushedAreWalled(m: array2<char>, x: int, y: int, walled: set<Pos>)
    requires IsGrid(m) && InLattice(Pos(x, y)) && CarveShape(m, walled)
    ensures forall k :: 0 <= k < |PushList(m, x, y)| ==>
      InLattice(PushList(m, x, y)[k]) && PushList(m, x, y)[k] in walled
  {
    PushListSpec(m, x, y);
    CarveShapeMeans(m, walled);
    var l := PushList(m, x, y);
    forall k | 0 <= k < |l| ensures InLattice(l[k]) && l[k] in walled {
      assert l[k] in l;
      PushedFromLattice(x, y, l[k]);
    }
  }

  /** The number of frontier entries that name a cell of w. */
  function CountIn(s: seq<Pos>, w: set<Pos>): (n: nat)
    ensures n <= |s|
  {
    if s == [] then 0 else (if s[0] in w then 1 else 0) + CountIn(s[1..], w)
  }

  lemma {:induction false} CountInAppend(a: seq<Pos>, b: seq<Pos>, w: set<Pos>)
    ensures CountIn(a + b, w) == CountIn(a, w) + CountIn(b, w)
  {
    if a == [] {
      assert a + b == b;
    } else {
      assert (a + b)[0] == a[0];
      assert (a + b)[1..] == a[1..] + b;
      CountInAppend(a[1..], b, w);
    }
  }

  /** The frontier with entry r removed, as `List.remove(int)` leaves it: the
      entries before r keep their index, the later ones move down by one. */
  function RemoveAt(s: seq<Pos>, r: int): (t: seq<Pos>)
    requires 0 <= r < |s|
    ensures |t| == |s| - 1
    ensures forall k :: 0 <= k < |t| ==> t[k] == s[if k < r then k else k + 1]
  {
    s[..r] + s[r + 1..]
  }

  lemma CountInRemoveAt(s: seq<Pos>, r: int, w: set<Pos>)
    requires 0 <= r < |s|
    ensures CountIn(RemoveAt(s, r), w) == CountIn(s, w) - (if s[r] in w then 1 else 0)
  {
    assert s == s[..r] + [s[r]] + s[r + 1..];
    CountInAppend(s[..r] + [s[r]], s[r + 1..], w);
    CountInAppend(s[..r], [s[r]], w);
    CountInAppend(s[..r], s[r + 1..], w);
  }

  lemma {:induction false} CountInAll(s: seq<Pos>, w: set<Pos>)
    requires forall k :: 0 <= k < |s| ==> s[k] in w
    ensures CountIn(s, w) == |s|
  {
    if s != [] {
      CountInAll(s[1..], w);
    }
  }

  /** What the carve keeps true of the glyph c at cell p: terrain only, wall on
      the outer ring and on cells with two even coordinates, and for a lattice
      cell, wall exactly when p is in walled. */
  predicate CarveCell(c: char, p: Pos, walled: set<Pos>)
  {
    (c == WALL || c == OPEN) &&
    (!InInterior(p.x, p.y) ==> c == WALL) &&
    (p.x % 2 == 0 && p.y % 2 == 0 ==> c == WALL) &&
    (InLattice(p) ==> (p in walled <==> c == WALL))
  }

  ghost predicate CarveShape(m: array2<char>, walled: set<Pos>)
    reads m
    requires IsGrid(m)
  {
    forall j, i :: 0 <= j < HEIGHT && 0 <= i < WIDTH ==> CarveCell(m[j, i], Pos(i, j), walled)
  }

  /** The state the carve loop keeps: every cell as CarveCell says, and every
      frontier entry a lattice cell. */
  ghost predicate CarveInvariant(m: array2<char>, walls: seq<Pos>, walled: set<Pos>)
    reads m
    requires IsGrid(m)
  {
    CarveShape(m, walled) && forall k :: 0 <= k < |walls| ==> InLattice(walls[k])
  }

  lemma CarveShapeMeans(m: array2<char>, walled: set<Pos>)
    requires IsGrid(m) && CarveShape(m, walled)
    ensures IsTerrain(m) && BorderIsWall(m) && EvenCellsAreWall(m)
    ensures forall p :: InLattice(p) ==> (p in walled <==> m[p.y, p.x] == WALL)
  {
    forall p | InLattice(p) ensures p in walled <==> m[p.y, p.x] == WALL {
      assert CarveCell(m[p.y, p.x], Pos(p.x, p.y), walled);
    }
  }

  /** The cells makePath at a lattice cell can open stay inside the outer ring
      and have an odd coordinate. */
  lemma CarvedCellShape(x: int, y: int, p: Pos)
    requires InLattice(Pos(x, y))
    requires p == Pos(x, y) || (p == Pos(x - 1, y) && x > 1) || (p == Pos(x + 1, y) && x < WIDTH - 2) ||
             (p == Pos(x, y - 1) && y > 1) || (p == Pos(x, y + 1) && y < HEIGHT - 2)
    ensures InInterior(p.x, p.y)
    ensures p.x % 2 == 1 || p.y % 2 == 1
    ensures InLattice(p) ==> p == Pos(x, y)
  {
  }

  /** generateMaze: fill with walls, carve from a random lattice cell until the
      frontier is empty, then force the corner L shapes open. */
  method GenerateMaze() returns (m: array2<char>)
    ensures fresh(m) && IsGrid(m)
    ensures IsTerrain(m) && BorderIsWall(m) && CornersOpen(m)
    ensures OpenWindowsAtCorners(m)
  {
    m := FilledWithWalls();

    var rx :| 0 <= rx < (WIDTH - 2) / 2;
    var ry :| 0 <= ry < (HEIGHT - 2) / 2;
    var startingX := 1 + rx * 2;
    var startingY := 1 + ry * 2;
    m[startingY, startingX] := OPEN;

    var walls: seq<Pos> := [];
    walls := AddWalls(m, walls, startingX, startingY);
    PushListSpec(m, startingX, startingY);
    forall k | 0 <= k < |walls| ensures InLattice(walls[k]) {
      PushedFromLattice(startingX, startingY, walls[k]);
    }
    ghost var walled := set i, j | 0 <= i < WIDTH && 0 <= j < HEIGHT && InLattice(Pos(i, j)) && m[j, i] == WALL :: Pos(i, j);
    forall j, i | 0 <= j < HEIGHT && 0 <= i < WIDTH ensures CarveCell(m[j, i], Pos(i, j), walled) {
      if InLattice(Pos(i, j)) && m[j, i] == WALL {
        assert Pos(i, j) in walled;
      }
    }

    Carve(m, walls, walled);
    EnsureCornerOpenness(m);
  }

  /** The first step of generateMaze: a fresh grid of walls. */
  method FilledWithWalls() returns (m: array2<char>)
    ensures fresh(m) && IsGrid(m)
    ensures forall j, i :: 0 <= j < HEIGHT && 0 <= i < WIDTH ==> m[j, i] == WALL
  {
    m := new char[HEIGHT, WIDTH];
    for y := 0 to HEIGHT
      invariant forall j, i :: 0 <= j < y && 0 <= i < WIDTH ==> m[j, i] == WALL
    {
      for x := 0 to WIDTH
        invariant forall j, i :: (0 <= j < y && 0 <= i < WIDTH) || (j == y && 0 <= i < x) ==> m[j, i] == WALL
      {
        m[y, x] := WALL;
      }
    }
  }

  /** The carve loop of generateMaze: take a random frontier entry, and if
      exactly one of its two-step neighbours is open, open it with its corridor
      and push its wall neighbours; stop when the frontier is empty. The loop
      terminates because each round either opens a lattice cell or removes a
      frontier entry without adding one. */
  method Carve(m: array2<char>, walls0: seq<Pos>, ghost walled0: set<Pos>)
    requires IsGrid(m) && CarveInvariant(m, walls0, walled0)
    modifies m
    ensures IsTerrain(m) && BorderIsWall(m) && EvenCellsAreWall(m)
  {
    var walls := walls0;
    ghost var walled := walled0;
    while walls != []
      invariant CarveInvariant(m, walls, walled)
      decreases |walled|, |walls| - CountIn(walls, walled), CountIn(walls, walled)
    {
      ghost var lattice, onOpen, onWalled := |walled|, |walls| - CountIn(walls, walled), CountIn(walls, walled);
      var r :| 0 <= r < |walls|;
      var wall := walls[r];
      CountInRemoveAt(walls, r, walled);
      walls := RemoveAt(walls, r);
      ghost var rest := walls;

      if CanBePath(m, wall.x, wall.y) {
        MakePath(m, wall.x, wall.y, walled);
        ghost var added := PushList(m, wall.x, wall.y);
        walls := AddWalls(m, walls, wall.x, wall.y);
        PushedAreWalled(m, wall.x, wall.y, walled - {wall});
        if wall in walled {
          walled := walled - {wall};
          assert |walled| < lattice;
        } else {
          assert walled - {wall} == walled;
          CountInAppend(rest, added, walled);
          CountInAll(added, walled);
          assert |walls| - CountIn(walls, walled) < onOpen;
        }
      } else if wall in walled {
        assert |walls| - CountIn(walls, walled) == onOpen && CountIn(walls, walled) < onWalled;
      } else {
        assert |walls| - CountIn(walls, walled) < onOpen;
      }
    }
    CarveShapeMeans(m, walled);
  }

  /** ensureCornerOpenness: opens the three cells of each corner L; nothing
      else changes. */
  method EnsureCornerOpenness(m: array2<char>)
    requires IsGrid(m)
    modifies m
    ensures forall j, i :: 0 <= j < HEIGHT && 0 <= i < WIDTH ==>
      m[j, i] == if IsCornerCell(Pos(i, j)) then OPEN else old(m[j, i])
    ensures old(IsTerrain(m) && BorderIsWall(m) && EvenCellsAreWall(m)) ==>
      IsTerrain(m) && BorderIsWall(m) && CornersOpen(m) && OpenWindowsAtCorners(m)
  {
    m[1, 1] := OPEN;
    m[1, 2] := OPEN;
    m[2, 1] := OPEN;

    m[1, WIDTH - 2] := OPEN;
    m[1, WIDTH - 3] := OPEN;
    m[2, WIDTH - 2] := OPEN;

    m[HEIGHT - 2, 1] := OPEN;
    m[HEIGHT - 3, 1] := OPEN;
    m[HEIGHT - 2, 2] := OPEN;

    m[HEIGHT - 2, WIDTH - 2] := OPEN;
    m[HEIGHT - 3, WIDTH - 2] := OPEN;
    m[HEIGHT - 2, WIDTH - 3] := OPEN;
    forall j, i | 0 <= j < HEIGHT && 0 <= i < WIDTH
      ensures m[j, i] == if IsCornerCell(Pos(i, j)) then OPEN else old(m[j, i])
    {
    }
    if old(IsTerrain(m) && BorderIsWall(m) && EvenCellsAreWall(m)) {
      forall j, i | 0 <= j < HEIGHT && 0 <= i < WIDTH
        ensures CornerOpenedCell(m[j, i], i, j)
      {
        assert m[j, i] == if IsCornerCell(Pos(i, j)) then OPEN else old(m[j, i]);
      }
      CornerOpenedShape(m);
    }
  }

  /** A cell after ensureCornerOpenness on a carved grid: open on the corner
      L shapes, elsewhere terrain, wall on the outer ring and on cells with two
      even coordinates. */
  predicate CornerOpenedCell(c: char, i: int, j: int)
  {
    if IsCornerCell(Pos(i, j)) then c == OPEN
    else (c == WALL || c == OPEN) && (!InInterior(i, j) ==> c == WALL) && (i % 2 == 0 && j % 2 == 0 ==> c == WALL)
  }

  /** Such a grid is terrain with a wall ring and open corners, and each of
      its all-open 2x2 windows holds a corner cell, since every window holds a
      cell with two even coordinates. */
  lemma CornerOpenedShape(m: array2<char>)
    requires IsGrid(m)
    requires forall j, i :: 0 <= j < HEIGHT && 0 <= i < WIDTH ==> CornerOpenedCell(m[j, i], i, j)
    ensures IsTerrain(m) && BorderIsWall(m) && CornersOpen(m) && OpenWindowsAtCorners(m)
  {
    forall j, i | 0 <= j < HEIGHT - 1 && 0 <= i < WIDTH - 1 && WindowAll(m, i, j, OPEN)
      ensures WindowHasCornerCell(i, j)
    {
      var ei := if i % 2 == 0 then i else i + 1;
      var ej := if j % 2 == 0 then j else j + 1;
      assert CornerOpenedCell(m[ej, ei], ei, ej);
    }
  }

  // ---------------------------------------------------------------------------
  // Cycles and the retry loop
  // ---------------------------------------------------------------------------

  /** What generateMaze guarantees and addCycles keeps. */
  ghost predicate MazeShape(m: array2<char>)
    reads m
    requires IsGrid(m)
  {
    IsTerrain(m) && BorderIsWall(m) && CornersOpen(m) && OpenWindowsAtCorners(m)
  }

  /** Every cell is as before or was wall and is now open. */
  twostate predicate OnlyOpened(m: array2<char>)
    reads m
    requires IsGrid(m)
  {
    forall j, i :: 0 <= j < HEIGHT && 0 <= i < WIDTH ==>
      m[j, i] == old(m[j, i]) || (old(m[j, i]) == WALL && m[j, i] == OPEN)
  }

  /** Every all-open 2x2 window was already all open before. */
  twostate predicate NoNewOpenWindow(m: array2<char>)
    reads m
    requires IsGrid(m)
  {
    forall j, i :: 0 <= j < HEIGHT - 1 && 0 <= i < WIDTH - 1 && WindowAll(m, i, j, OPEN) ==>
      old(WindowAll(m, i, j, OPEN))
  }

  /** addCycles: five sweeps over the inner cells; each wall cell that the
      random source picks (with probability removalProbability in the source)
      is opened unless that would complete an all-open 2x2 window. */
  method AddCycles(m: array2<char>)
    requires IsGrid(m) && MazeShape(m)
    modifies m
    ensures MazeShape(m)
    ensures OnlyOpened(m) && NoNewOpenWindow(m)
  {
    for attempt := 0 to 5
      invariant MazeShape(m) && OnlyOpened(m) && NoNewOpenWindow(m)
    {
      for y := 1 to HEIGHT - 1
        invariant MazeShape(m) && OnlyOpened(m) && NoNewOpenWindow(m)
      {
        for x := 1 to WIDTH - 1
          invariant MazeShape(m) && OnlyOpened(m) && NoNewOpenWindow(m)
        {
          var picked: bool :| true;
          if m[y, x] == WALL && picked {
            if x > 0 && x < WIDTH - 1 && y > 0 && y < HEIGHT - 1 {
              if !Creates2x2OpenBlock(m, x, y) {
                label Before:
                m[y, x] := OPEN;
                forall j, i | x - 1 <= i <= x && y - 1 <= j <= y ensures !WindowAll(m, i, j, OPEN) {
                  assert !old@Before(OpenOnceFilled(m, i, j, x, y));
                }
                forall j, i | 0 <= j < HEIGHT - 1 && 0 <= i < WIDTH - 1 && !(x - 1 <= i <= x && y - 1 <= j <= y)
                  ensures WindowAll(m, i, j, OPEN) == old@Before(WindowAll(m, i, j, OPEN))
                {
                }
              }
            }
          }
        }
      }
    }
  }

  /** generateValidMaze: generate and add cycles until isMazeValid accepts the
      result. The source retries without bound; here at most `retries` more
      attempts are made after the first, and `valid` says whether the last
      attempt was accepted. */
  method GenerateValidMaze(retries: nat) returns (m: array2<char>, valid: bool)
    ensures fresh(m) && IsGrid(m) && MazeShape(m)
    ensures valid <==> MazeValid(m)
  {
    m := GenerateMaze();
    AddCycles(m);
    valid := IsMazeValid(m);
    var left := retries;
    while !valid && left > 0
      invariant fresh(m) && IsGrid(m) && MazeShape(m)
      invariant valid <==> MazeValid(m)
      decreases left
    {
      m := GenerateMaze();
      AddCycles(m);
      valid := IsMazeValid(m);
      left := left - 1;
    }
  }

  /** CornersOpen lists the same twelve cells as CornerCellsOpen. */
  lemma CornersOpenCells(m: array2<char>)
    requires IsGrid(m) && CornersOpen(m)
    ensures CornerCellsOpen(m)
  {
    assert IsCornerCell(Pos(1, 1)) && IsCornerCell(Pos(2, 1)) && IsCornerCell(Pos(1, 2));
    assert IsCornerCell(Pos(WIDTH - 2, 1)) && IsCornerCell(Pos(WIDTH - 3, 1)) && IsCornerCell(Pos(WIDTH - 2, 2));
    assert IsCornerCell(Pos(1, HEIGHT - 2)) && IsCornerCell(Pos(1, HEIGHT - 3)) && IsCornerCell(Pos(2, HEIGHT - 2));
    assert IsCornerCell(Pos(WIDTH - 2, HEIGHT - 2)) && IsCornerCell(Pos(WIDTH - 2, HEIGHT - 3));
    assert IsCornerCell(Pos(WIDTH - 3, HEIGHT - 2));
  }

  /** A maze that generateValidMaze accepts has no all-open 2x2 window anywhere
      in the grid: the windows isMazeValid skips reach into the wall ring. */
  lemma {:induction false} AcceptedMazeHasNoOpenWindow(m: array2<char>)
    requires IsGrid(m) && BorderIsWall(m) && MazeValid(m)
    ensures forall j, i :: 0 <= j < HEIGHT - 1 && 0 <= i < WIDTH - 1 ==> !WindowAll(m, i, j, OPEN)
  {
    forall j, i | 0 <= j < HEIGHT - 1 && 0 <= i < WIDTH - 1 ensures !WindowAll(m, i, j, OPEN) {
      if i == 0 || j == 0 {
        assert m[j, i] == WALL;
      }
    }
  }
}
