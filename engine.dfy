/** The game-state engine of src/app/components/SnakeGame.tsx as pure
    state-to-state functions: the per-tick step, the direction request, the
    pause flag and the reset, together with the invariant every reachable
    state keeps and the lemmas that it is kept. */
module Engine {
  import opened Types

  /** Points awarded for each food eaten. */
  const FoodPoints: int := 10

  // ---------------------------------------------------------------------
  // Directions and movement
  // ---------------------------------------------------------------------

  /** The heading that undoes `d`. */
  function Opposite(d: Direction): (r: Direction)
    ensures r != d
  {
    match d
    case Up => Down
    case Down => Up
    case Left => Right
    case Right => Left
  }

  /** The reversal test of the direction handler, written as its four
      explicit pairs. */
  predicate IsReversal(current: Direction, requested: Direction)
    ensures IsReversal(current, requested) ==> current != requested
    ensures IsReversal(current, requested) ==> Opposite(requested) == current
  {
    || (current == Up && requested == Down)
    || (current == Down && requested == Up)
    || (current == Left && requested == Right)
    || (current == Right && requested == Left)
  }

  /** JavaScript's `%` on a positive modulus: the remainder takes the sign
      of the dividend (truncated division), unlike Dafny's `%`. */
  function JsRem(a: int, n: int): (r: int)
    requires n > 0
    ensures a >= 0 ==> 0 <= r < n
    ensures a < 0 ==> -n < r <= 0
  {
    if a >= 0 then a % n else -((-a) % n)
  }

  /** The toroidal neighbour of `p` in heading `d`: one step, with the
      board's edges joined to the opposite edges. */
  function Neighbour(p: Position, d: Direction): Position
  {
    match d
    case Up => Position(p.x, (p.y - 1) % GridHeight)
    case Down => Position(p.x, (p.y + 1) % GridHeight)
    case Left => Position((p.x - 1) % GridWidth, p.y)
    case Right => Position((p.x + 1) % GridWidth, p.y)
  }

  /** The new head the tick computes: a copy of the old head with the next
      identifier, one coordinate shifted by the source's
      `(v - 1 + size) % size` or `(v + 1) % size`. On a head that lies on the
      board this is exactly the toroidal neighbour. */
  function MoveHead(head: SnakeCell, d: Direction): (r: SnakeCell)
    ensures r.id == head.id + 1
    ensures InBounds(head.Pos()) ==> r.Pos() == Neighbour(head.Pos(), d) && InBounds(r.Pos())
  {
    match d
    case Up => head.(id := head.id + 1, y := JsRem(head.y - 1 + GridHeight, GridHeight))
    case Down => head.(id := head.id + 1, y := JsRem(head.y + 1, GridHeight))
    case Left => head.(id := head.id + 1, x := JsRem(head.x - 1 + GridWidth, GridWidth))
    case Right => head.(id := head.id + 1, x := JsRem(head.x + 1, GridWidth))
  }

  /** Some segment of `snake` covers `p` (the source's `snake.some(...)`). */
  predicate Occupies(snake: seq<SnakeCell>, p: Position)
    ensures Occupies(snake, p) <==> exists i :: 0 <= i < |snake| && snake[i].Pos() == p
  {
    exists c :: c in snake && c.x == p.x && c.y == p.y
  }

  /** What food placement guarantees: the cell is on the board and off the
      snake. */
  predicate FoodFits(snake: seq<SnakeCell>, p: Position)
  {
    InBounds(p) && !Occupies(snake, p)
  }

  // ---------------------------------------------------------------------
  // The transitions
  // ---------------------------------------------------------------------

  /** The head the next tick would create. */
  function NewHead(s: GameState): (h: SnakeCell)
    requires s.snake != []
    ensures h.id == s.snake[0].id + 1
    ensures InBounds(s.snake[0].Pos()) ==>
              InBounds(h.Pos()) && h.Pos() == Neighbour(s.snake[0].Pos(), s.nextDirection)
  {
    MoveHead(s.snake[0], s.nextDirection)
  }

  /** The next tick runs into the snake (any segment, the tail included). */
  predicate Collides(s: GameState)
    requires s.snake != []
  {
    !s.gameOver && !s.isPaused && Occupies(s.snake, NewHead(s).Pos())
  }

  /** The next tick eats the food. */
  predicate Eats(s: GameState)
    requires s.snake != []
  {
    !s.gameOver && !s.isPaused && !Occupies(s.snake, NewHead(s).Pos()) && NewHead(s).Pos() == s.food
  }

  /** The snake after a tick that eats: the new head in front of the whole
      old snake. */
  function Grown(s: GameState): seq<SnakeCell>
    requires s.snake != []
  {
    [NewHead(s)] + s.snake
  }

  /** One tick. `placed` is the cell food placement returns when the food is
      eaten; it is not looked at otherwise. A paused or finished game stays
      as it is; a head that runs into the snake only ends the game; otherwise
      the head is prepended, the tail is dropped unless the food was eaten,
      and the queued heading becomes the committed one. */
  function Advance(s: GameState, placed: Position): (r: GameState)
    requires s.snake != []
    ensures r.isPaused == s.isPaused && r.nextDirection == s.nextDirection
    ensures r.score >= s.score
    ensures s.gameOver ==> r.gameOver
  {
    if s.gameOver || s.isPaused then s
    else
      var newHead := NewHead(s);
      if Occupies(s.snake, newHead.Pos()) then s.(gameOver := true)
      else
        var newSnake := [newHead] + s.snake;
        if newHead.x == s.food.x && newHead.y == s.food.y then
          s.(snake := newSnake, food := placed, score := s.score + FoodPoints, direction := s.nextDirection)
        else
          s.(snake := newSnake[..|newSnake| - 1], direction := s.nextDirection)
  }

  /** A direction request: a reversal of the committed heading is ignored,
      any other request replaces the queued heading. A finished game is not
      treated specially. */
  function SetDirection(s: GameState, requested: Direction): (r: GameState)
    ensures requested == Opposite(s.direction) ==> r == s
    ensures requested != Opposite(s.direction) ==> r == s.(nextDirection := requested)
  {
    if IsReversal(s.direction, requested) then s else s.(nextDirection := requested)
  }

  /** The pause button: flips the pause flag, whatever else holds. */
  function TogglePaused(s: GameState): (r: GameState)
    ensures r.isPaused != s.isPaused
    ensures r.(isPaused := s.isPaused) == s
  {
    s.(isPaused := !s.isPaused)
  }

  /** The snake every game starts with: three cells in row 5, heading right. */
  const InitialSnake: seq<SnakeCell> := [SnakeCell(2, 3, 5), SnakeCell(1, 2, 5), SnakeCell(0, 1, 5)]

  /** The initial game; its food cell is always replaced before use. */
  const InitialGameState: GameState :=
    GameState(InitialSnake, Position(10, 10), Right, Right, false, 0, false)

  /** A fresh game whose food is the placed cell. */
  function Reset(placed: Position): (r: GameState)
    ensures r.food == placed
    ensures r.snake == InitialSnake && |r.snake| == 3 && r.snake[0].Pos() == Position(3, 5)
    ensures r.direction == Right && r.nextDirection == Right
    ensures r.score == 0 && !r.gameOver && !r.isPaused
  {
    InitialGameState.(food := placed)
  }

  // ---------------------------------------------------------------------
  // The invariant of reachable states
  // ---------------------------------------------------------------------

  /** `to` is one toroidal step away from `from`. */
  predicate IsStep(from: Position, to: Position)
  {
    exists d :: Neighbour(from, d) == to
  }

  /** Every segment lies on the board. */
  predicate OnBoard(snake: seq<SnakeCell>)
  {
    forall i :: 0 <= i < |snake| ==> InBounds(snake[i].Pos())
  }

  /** No two segments share a cell. */
  predicate DistinctCells(snake: seq<SnakeCell>)
  {
    forall i, j :: 0 <= i < |snake| && 0 <= j < |snake| && i != j ==> snake[i].Pos() != snake[j].Pos()
  }

  /** Identifiers fall by one from the head to the tail, so the head's is
      the largest. */
  predicate ConsecutiveIds(snake: seq<SnakeCell>)
  {
    forall i :: 0 <= i < |snake| ==> snake[i].id == snake[0].id - i
  }

  /** Each segment is one step ahead of the segment behind it. */
  predicate Connected(snake: seq<SnakeCell>)
  {
    forall i :: 0 < i < |snake| ==> IsStep(snake[i].Pos(), snake[i - 1].Pos())
  }

  /** The shape a snake keeps in every reachable state. */
  predicate WellFormed(snake: seq<SnakeCell>)
  {
    snake != [] && OnBoard(snake) && DistinctCells(snake) && ConsecutiveIds(snake) && Connected(snake)
  }

  /** The invariant of every reachable state. */
  predicate Valid(s: GameState)
  {
    && WellFormed(s.snake)
    && (|s.snake| > 1 ==> s.snake[0].Pos() == Neighbour(s.snake[1].Pos(), s.direction))
    && FoodFits(s.snake, s.food)
    && s.score >= 0 && s.score % FoodPoints == 0
    && s.nextDirection != Opposite(s.direction)
  }

  // ---------------------------------------------------------------------
  // Lemmas
  // ---------------------------------------------------------------------

  /** The four-pair reversal test is exactly "the opposite heading". */
  lemma ReversalIsOpposite(current: Direction, requested: Direction)
    ensures IsReversal(current, requested) <==> requested == Opposite(current)
    ensures Opposite(Opposite(current)) == current
  {
  }

  /** Wraparound at each of the four edges. */
  lemma WrapsAtEdges(x: int, y: int)
    requires 0 <= x < GridWidth && 0 <= y < GridHeight
    ensures MoveHead(SnakeCell(0, GridWidth - 1, y), Right).Pos() == Position(0, y)
    ensures MoveHead(SnakeCell(0, 0, y), Left).Pos() == Position(GridWidth - 1, y)
    ensures MoveHead(SnakeCell(0, x, 0), Up).Pos() == Position(x, GridHeight - 1)
    ensures MoveHead(SnakeCell(0, x, GridHeight - 1), Down).Pos() == Position(x, 0)
  {
  }

  /** Two steps on the board never come back to the start unless the second
      undoes the first (the board is at least three cells wide and high). */
  lemma NoReturnWithoutReversal(p: Position, first: Direction, second: Direction)
    requires InBounds(p)
    requires second != Opposite(first)
    ensures Neighbour(Neighbour(p, first), second) != p
  {
  }

  /** A tick on a paused or finished game changes nothing. */
  lemma FrozenTickIsNoOp(s: GameState, placed: Position)
    requires s.snake != []
    requires s.gameOver || s.isPaused
    ensures Advance(s, placed) == s
  {
  }

  /** Running into the snake, the cell the tail is about to leave included,
      only sets the game-over flag. */
  lemma CollisionOnlyEndsGame(s: GameState, placed: Position)
    requires s.snake != [] && !s.gameOver && !s.isPaused
    requires exists i :: 0 <= i < |s.snake| && s.snake[i].Pos() == NewHead(s).Pos()
    ensures Advance(s, placed) == s.(gameOver := true)
  {
  }

  /** Growth law: eating prepends the head to the whole snake, adds the
      reward and takes the placed food; every other live tick shifts the
      snake by one cell and keeps food and score. */
  lemma GrowthLaw(s: GameState, placed: Position)
    requires s.snake != [] && !s.gameOver && !s.isPaused && !Collides(s)
    ensures var r := Advance(s, placed);
      && r.direction == s.nextDirection
      && !r.gameOver
      && r.snake[0] == NewHead(s) && r.snake[0].id == s.snake[0].id + 1
      && (Eats(s) ==>
            r.snake == Grown(s) && |r.snake| == |s.snake| + 1
            && r.score == s.score + FoodPoints && r.food == placed)
      && (!Eats(s) ==>
            r.snake == [NewHead(s)] + s.snake[..|s.snake| - 1] && |r.snake| == |s.snake|
            && r.score == s.score && r.food == s.food)
  {
  }

  /** A tick can never run the head back into the segment behind it: the
      queued heading is never the reverse of the committed one, and the
      head sits one committed step ahead of that segment. */
  lemma NeverRunsIntoNeck(s: GameState)
    requires Valid(s) && |s.snake| > 1
    ensures NewHead(s).Pos() != s.snake[1].Pos()
  {
  }

  /** A prefix of a well-formed snake is well formed and covers no cell the
      whole snake does not. */
  lemma PrefixWellFormed(snake: seq<SnakeCell>, n: int)
    requires WellFormed(snake) && 0 < n <= |snake|
    ensures WellFormed(snake[..n])
    ensures forall p :: Occupies(snake[..n], p) ==> Occupies(snake, p)
  {
  }

  /** Putting a fresh on-board cell one step ahead of the head, with the
      next identifier, keeps a snake well formed. */
  lemma ExtendWellFormed(snake: seq<SnakeCell>, h: SnakeCell)
    requires WellFormed(snake)
    requires InBounds(h.Pos()) && !Occupies(snake, h.Pos())
    requires h.id == snake[0].id + 1 && IsStep(snake[0].Pos(), h.Pos())
    ensures WellFormed([h] + snake)
  {
  }

  /** Every tick keeps the invariant, provided that when it eats, the placed
      food fits the grown snake (which is what food placement promises). */
  lemma AdvancePreservesValid(s: GameState, placed: Position)
    requires Valid(s)
    requires Eats(s) ==> FoodFits(Grown(s), placed)
    ensures Valid(Advance(s, placed))
  {
    if !s.gameOver && !s.isPaused {
      var h := NewHead(s);
      assert InBounds(s.snake[0].Pos());
      if !Occupies(s.snake, h.Pos()) {
        var grown := [h] + s.snake;
        assert IsStep(s.snake[0].Pos(), h.Pos()) by {
          assert Neighbour(s.snake[0].Pos(), s.nextDirection) == h.Pos();
        }
        ExtendWellFormed(s.snake, h);
        assert grown[1] == s.snake[0];
        var r := Advance(s, placed);
        if h.Pos() == s.food {
          assert r.snake == grown;
        } else {
          var n := |s.snake|;
          PrefixWellFormed(grown, n);
          assert r.snake == grown[..n];
          assert !Occupies(grown, s.food);
          if n > 1 {
            assert r.snake[1] == s.snake[0];
          }
        }
      }
    }
  }

  /** A direction request keeps the invariant. */
  lemma SetDirectionPreservesValid(s: GameState, requested: Direction)
    requires Valid(s)
    ensures Valid(SetDirection(s, requested))
  {
  }

  /** The pause button keeps the invariant, and pressing it twice restores
      the state. */
  lemma TogglePausedTwice(s: GameState)
    ensures Valid(s) ==> Valid(TogglePaused(s))
    ensures TogglePaused(TogglePaused(s)) == s
  {
  }

  /** A reset is valid when its food fits the initial snake; it fixes every
      field except the food. */
  lemma ResetIsValid(placed: Position)
    requires FoodFits(InitialSnake, placed)
    ensures var r := Reset(placed);
      && Valid(r)
      && r.snake == InitialSnake && |r.snake| == 3
      && r.direction == Right && r.nextDirection == Right
      && r.score == 0 && !r.gameOver && !r.isPaused && r.food == placed
  {
    var r := Reset(placed);
    assert IsStep(InitialSnake[1].Pos(), InitialSnake[0].Pos()) by {
      assert Neighbour(InitialSnake[1].Pos(), Right) == InitialSnake[0].Pos();
    }
    assert IsStep(InitialSnake[2].Pos(), InitialSnake[1].Pos()) by {
      assert Neighbour(InitialSnake[2].Pos(), Right) == InitialSnake[1].Pos();
    }
  }

  /** Two resets differ at most in the food cell. */
  lemma ResetsAgreeButFood(a: Position, b: Position)
    ensures Reset(a).(food := b) == Reset(b)
  {
  }

  /** A direction request touches only the queued heading, even once the
      game is over. */
  lemma SetDirectionIgnoresGameOver(s: GameState, requested: Direction)
    requires s.gameOver && requested != Opposite(s.direction)
    ensures SetDirection(s, requested).nextDirection == requested
    ensures SetDirection(s, requested).gameOver
  {
  }

  /** First tick of the documented end-to-end scenario: the initial snake,
      heading right, with the food just ahead, eats it. */
  lemma FirstTickEats(placed: Position)
    ensures var r := Advance(Reset(Position(4, 5)), placed);
      && r.snake == [SnakeCell(3, 4, 5), SnakeCell(2, 3, 5), SnakeCell(1, 2, 5), SnakeCell(0, 1, 5)]
      && r.score == 10 && r.food == placed && !r.gameOver
  {
  }

  /** A four-cell snake curled into a square whose head turns onto its own
      tail: the state is a valid one, the tail is counted even though it
      would move away, so the game ends and nothing else changes. */
  lemma TailChaseEndsGame(placed: Position)
    ensures var s := GameState(
        [SnakeCell(3, 1, 0), SnakeCell(2, 1, 1), SnakeCell(1, 0, 1), SnakeCell(0, 0, 0)],
        Position(5, 5), Up, Left, false, 30, false);
      Valid(s) && Advance(s, placed) == s.(gameOver := true)
  {
    var s := GameState(
      [SnakeCell(3, 1, 0), SnakeCell(2, 1, 1), SnakeCell(1, 0, 1), SnakeCell(0, 0, 0)],
      Position(5, 5), Up, Left, false, 30, false);
    assert Neighbour(Position(1, 1), Up) == Position(1, 0);
    assert Neighbour(Position(0, 1), Right) == Position(1, 1);
    assert Neighbour(Position(0, 0), Down) == Position(0, 1);
  }
}
