/** The game's data model and its board dimensions (src/app/types.ts and
    the grid constants of src/app/constants.ts). */
module Types {

  /** Number of columns of the board. */
  const GridWidth: int := 20

  /** Number of rows of the board. */
  const GridHeight: int := 15

  /** A heading of the snake. */
  datatype Direction = Up | Down | Left | Right

  /** A cell of the board; x grows to the right, y grows downwards. */
  datatype Position = Position(x: int, y: int)

  /** One segment of the snake: a board cell plus an identifier that gives
      the segment a stable identity while the snake moves. */
  datatype SnakeCell = SnakeCell(id: int, x: int, y: int)
  {
    /** The board cell this segment covers. */
    function Pos(): Position
    {
      Position(x, y)
    }
  }

  /** The whole game: the snake head-first, the food cell, the committed
      heading, the heading queued for the next tick, and the flags and score
      shown to the player. */
  datatype GameState = GameState(
    snake: seq<SnakeCell>,
    food: Position,
    direction: Direction,
    nextDirection: Direction,
    gameOver: bool,
    score: int,
    isPaused: bool)

  /** The cell lies on the board. */
  predicate InBounds(p: Position)
  {
    0 <= p.x < GridWidth && 0 <= p.y < GridHeight
  }
}
