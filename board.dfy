// Grid geometry, cells, directions and the difficulty table of the Snake game.

module Board {

  datatype Option<T> = None | Some(value: T)

  /** A grid cell. Coordinates are plain integers: a head that left the grid is still a cell. */
  datatype Cell = Cell(x: int, y: int)

  datatype Direction = Up | Down | Left | Right

  datatype Difficulty = Normal | Medium | Hard

  /** Pixels per cell on the 400x400 canvas. */
  const CellSize: int := 20
  const GridWidth: int := 400 / CellSize
  const GridHeight: int := 400 / CellSize

  predicate InGrid(c: Cell)
  {
    0 <= c.x < GridWidth && 0 <= c.y < GridHeight
  }

  /** Tick interval in milliseconds that a run of difficulty d starts with. */
  function BaseSpeed(d: Difficulty): int
  {
    match d
    case Normal => 100
    case Medium => 80
    case Hard => 60
  }

  /** Number of obstacles a run of difficulty d places. */
  function ObstacleCount(d: Difficulty): nat
  {
    match d
    case Normal => 0
    case Medium => 3
    case Hard => 6
  }

  /** The snake every run starts with, head first, heading right. */
  function StartSnake(): seq<Cell>
  {
    [Cell(5, 10), Cell(4, 10), Cell(3, 10)]
  }

  function Abs(n: int): nat
  {
    if n < 0 then -n else n
  }

  /** The direct opposite of a direction. */
  function Opposite(d: Direction): (r: Direction)
    ensures r != d
  {
    match d
    case Up => Down
    case Down => Up
    case Left => Right
    case Right => Left
  }

  /** The neighbouring cell in direction d: up is y-1, down y+1, left x-1, right x+1. */
  function Step(c: Cell, d: Direction): (r: Cell)
    ensures Abs(r.x - c.x) + Abs(r.y - c.y) == 1
  {
    match d
    case Up => Cell(c.x, c.y - 1)
    case Down => Cell(c.x, c.y + 1)
    case Left => Cell(c.x - 1, c.y)
    case Right => Cell(c.x + 1, c.y)
  }

  lemma OppositeIsInvolution(d: Direction)
    ensures Opposite(Opposite(d)) == d
  {
  }

  /** Stepping back in the opposite direction returns to the cell one started from. */
  lemma StepThenBack(c: Cell, d: Direction)
    ensures Step(Step(c, d), Opposite(d)) == c
  {
  }

  /** Different directions lead to different neighbours. */
  lemma StepInjective(c: Cell, d1: Direction, d2: Direction)
    requires Step(c, d1) == Step(c, d2)
    ensures d1 == d2
  {
  }

  /**
   * Linear scan of a list of cells, stopping at the first match: the
   * `for (... of ...) { if (equal) { ...; break; } }` membership tests of the game.
   */
  method Contains(cells: seq<Cell>, p: Cell) returns (found: bool)
    ensures found <==> p in cells
  {
    var i := 0;
    while i < |cells|
      invariant 0 <= i <= |cells|
      invariant forall j :: 0 <= j < i ==> cells[j] != p
    {
      if cells[i] == p {
        return true;
      }
      i := i + 1;
    }
    return false;
  }
}
