/** Food placement (generateFood in src/app/components/SnakeGame.tsx): draw
    a random board cell, and draw again while it lies on the snake.

    The random numbers are a parameter: `draws(k)` is the cell the k-th
    draw yields. The source floors a random fraction times the board size,
    so every draw is on the board; and a random source, run long enough,
    eventually yields every cell. Under those two facts, and a snake that
    does not fill the board, the retry loop ends. */
module Food {
  import opened Types
  import opened Engine

  /** The random draws are on the board and eventually hit every cell. */
  ghost predicate FairSource(draws: nat -> Position)
  {
    && (forall k: nat :: InBounds(draws(k)))
    && (forall p :: InBounds(p) ==> exists k: nat :: draws(k) == p)
  }

  /** The cells the snake covers. */
  function Covered(snake: seq<SnakeCell>): set<Position>
  {
    set c | c in snake :: c.Pos()
  }

  /** The cells of row `y` left of column `w`. */
  function Row(w: nat, y: int): set<Position>
  {
    set x | 0 <= x < w :: Position(x, y)
  }

  /** The cells of a `w` by `h` board. */
  function Board(w: nat, h: nat): set<Position>
  {
    set x, y | 0 <= x < w && 0 <= y < h :: Position(x, y)
  }

  /** A snake covers at most as many cells as it has segments. */
  lemma {:induction false} CoveredSize(snake: seq<SnakeCell>)
    ensures |Covered(snake)| <= |snake|
  {
    if snake != [] {
      CoveredSize(snake[1..]);
      assert Covered(snake) == Covered(snake[1..]) + {snake[0].Pos()} by {
        forall p | p in Covered(snake)
          ensures p in Covered(snake[1..]) + {snake[0].Pos()}
        {
          var c :| c in snake && c.Pos() == p;
          if c != snake[0] {
            assert c in snake[1..];
          }
        }
      }
    }
  }

  lemma {:induction false} RowSize(w: nat, y: int)
    ensures |Row(w, y)| == w
  {
    if w > 0 {
      RowSize(w - 1, y);
      assert Row(w, y) == Row(w - 1, y) + {Position(w - 1, y)};
    }
  }

  /** A `w` by `h` board has `w * h` cells. */
  lemma {:induction false} BoardSize(w: nat, h: nat)
    ensures |Board(w, h)| == w * h
  {
    if h > 0 {
      BoardSize(w, h - 1);
      RowSize(w, h - 1);
      BoardAddsRow(w, h - 1);
      assert w * h == w * (h - 1) + w;
    }
  }

  /** The board one row taller is the board plus a row it does not meet. */
  lemma BoardAddsRow(w: nat, h: nat)
    ensures Board(w, h + 1) == Board(w, h) + Row(w, h)
    ensures Board(w, h) !! Row(w, h)
  {
  }

  /** A snake with fewer segments than the board has cells leaves some
      board cell free. */
  lemma FreeCellExists(snake: seq<SnakeCell>)
    requires |snake| < GridWidth * GridHeight
    ensures exists p :: FoodFits(snake, p)
  {
    CoveredSize(snake);
    BoardSize(GridWidth, GridHeight);
    var board, covered := Board(GridWidth, GridHeight), Covered(snake);
    assert |board - covered| > 0;
    var p :| p in board - covered;
    assert InBounds(p);
    assert FoodFits(snake, p);
  }

  /** The retry loop: the first draw that misses the snake. */
  method GenerateFood(snake: seq<SnakeCell>, draws: nat -> Position) returns (food: Position)
    requires FairSource(draws)
    requires |snake| < GridWidth * GridHeight
    ensures FoodFits(snake, food)
    ensures exists t: nat :: food == draws(t) && forall k: nat :: k < t ==> Occupies(snake, draws(k))
  {
    FreeCellExists(snake);
    ghost var free :| FoodFits(snake, free);
    ghost var target: nat :| draws(target) == free;
    var tries: nat := 0;
    food := draws(tries);
    while Occupies(snake, food)
      invariant tries <= target
      invariant food == draws(tries)
      invariant forall k: nat :: k < tries ==> Occupies(snake, draws(k))
      decreases target - tries
    {
      tries := tries + 1;
      food := draws(tries);
    }
  }
}
