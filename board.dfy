/** The board of the Snake game: screen constants, pixel cells, the four
    directions and the arrow keys that request them. */
module Board {

  datatype Option<T> = None | Some(value: T)

  // The screen is 640 x 480 pixels, cut into 20-pixel cells (32 x 24 cells).
  const ScreenWidth: int := 640
  const ScreenHeight: int := 480
  const GridSize: int := 20
  const GridWidth: int := ScreenWidth / GridSize
  const GridHeight: int := ScreenHeight / GridSize

  /** A cell is named by the pixel coordinates of its top-left corner. */
  datatype Cell = Cell(x: int, y: int)

  /** The starting cell of a snake: the centre of the screen, (320, 240). */
  const Center: Cell := Cell(ScreenWidth / 2, ScreenHeight / 2)

  /** A cell of the 32 x 24 lattice: both coordinates multiples of 20 inside the screen. */
  predicate OnBoard(c: Cell) {
    0 <= c.x < ScreenWidth && 0 <= c.y < ScreenHeight &&
    c.x % GridSize == 0 && c.y % GridSize == 0
  }

  predicate AllOnBoard(cells: seq<Cell>) {
    forall i :: 0 <= i < |cells| ==> OnBoard(cells[i])
  }

  /** No cell occurs twice. */
  predicate Distinct(cells: seq<Cell>) {
    forall i, j :: 0 <= i < j < |cells| ==> cells[i] != cells[j]
  }

  /** The four unit directions; the source writes them as the deltas
      (0, -1), (0, 1), (-1, 0) and (1, 0). */
  datatype Dir = Up | Down | Left | Right {

    function DX(): int {
      match this
      case Up => 0
      case Down => 0
      case Left => -1
      case Right => 1
    }

    function DY(): int {
      match this
      case Up => -1
      case Down => 1
      case Left => 0
      case Right => 0
    }

    /** The direction that undoes this one. */
    function Opposite(): (o: Dir)
      ensures o.DX() == -DX() && o.DY() == -DY()
      ensures o != this
    {
      match this
      case Up => Down
      case Down => Up
      case Left => Right
      case Right => Left
    }
  }

  /** The key of a key-down event; every key other than the four arrows is `Other`. */
  datatype Key = ArrowUp | ArrowDown | ArrowLeft | ArrowRight | Other
}
