/** Shared vocabulary of the maze game: the fixed 20x15 grid, its cell glyphs
    and positions. A grid is an `array2<char>` indexed `[y, x]`, the Dafny form
    of the source's `char[HEIGHT][WIDTH]`. */
module Board {

  const WIDTH: int := 20
  const HEIGHT: int := 15

  /** Terrain glyphs. */
  const WALL: char := '#'
  const OPEN: char := ' '

  /** Overlay glyphs written into the same grid as the terrain. */
  const PLAYER: char := '@'
  const CHEESE: char := '$'
  const CAT: char := '!'

  /** What the display shows for a cell that is neither revealed nor occupied. */
  const FOG: char := '.'

  /** An `(x, y)` coordinate: x is the column, y the row. */
  datatype Pos = Pos(x: int, y: int)

  predicate IsGrid<T>(m: array2<T>)
  {
    m.Length0 == HEIGHT && m.Length1 == WIDTH
  }

  predicate InGrid(x: int, y: int)
  {
    0 <= x < WIDTH && 0 <= y < HEIGHT
  }

  /** The cells strictly inside the outer ring of the grid. */
  predicate InInterior(x: int, y: int)
  {
    1 <= x < WIDTH - 1 && 1 <= y < HEIGHT - 1
  }

  predicate IsEntityGlyph(c: char)
  {
    c == PLAYER || c == CHEESE || c == CAT
  }

  /** The twelve cells of the four L shapes the generator forces open, one L
      next to each corner of the grid; the player and the three cats start on
      the elbows of these L shapes. */
  predicate IsCornerCell(p: Pos)
  {
    p == Pos(1, 1) || p == Pos(2, 1) || p == Pos(1, 2) ||
    p == Pos(WIDTH - 2, 1) || p == Pos(WIDTH - 3, 1) || p == Pos(WIDTH - 2, 2) ||
    p == Pos(1, HEIGHT - 2) || p == Pos(1, HEIGHT - 3) || p == Pos(2, HEIGHT - 2) ||
    p == Pos(WIDTH - 2, HEIGHT - 2) || p == Pos(WIDTH - 2, HEIGHT - 3) || p == Pos(WIDTH - 3, HEIGHT - 2)
  }

  /** The twelve cells of IsCornerCell, listed, all open in m. */
  predicate CornerCellsOpen(m: array2<char>)
    reads m
    requires IsGrid(m)
  {
    m[1, 1] == OPEN && m[1, 2] == OPEN && m[2, 1] == OPEN &&
    m[1, WIDTH - 2] == OPEN && m[1, WIDTH - 3] == OPEN && m[2, WIDTH - 2] == OPEN &&
    m[HEIGHT - 2, 1] == OPEN && m[HEIGHT - 3, 1] == OPEN && m[HEIGHT - 2, 2] == OPEN &&
    m[HEIGHT - 2, WIDTH - 2] == OPEN && m[HEIGHT - 3, WIDTH - 2] == OPEN && m[HEIGHT - 2, WIDTH - 3] == OPEN
  }
}
