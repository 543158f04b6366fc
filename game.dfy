/** The component of src/app/components/SnakeGame.tsx as an object: one
    mutable game state, replaced by each transition, with the tick written
    step by step as the source writes it. Every method keeps the invariant
    `Engine.Valid` and says which pure transition it performed. */
module Game {
  import opened Types
  import opened Engine
  import opened Food

  class SnakeGame {
    /** The current game state. */
    var state: GameState

    /** The object invariant: the current state is a valid game state. */
    predicate Valid()
      reads this
    {
      Engine.Valid(state)
    }

    /** A new game: the initial snake with freshly placed food. */
    constructor (draws: nat -> Position)
      requires FairSource(draws)
      ensures Valid()
      ensures state == Reset(state.food)
    {
      var initial := InitialGameState;
      var food := GenerateFood(initial.snake, draws);
      initial := initial.(food := food);
      ResetIsValid(food);
      state := initial;
    }

    /** The reset button and the R key: a new game, food placed afresh. */
    method ResetGame(draws: nat -> Position)
      requires FairSource(draws)
      modifies this
      ensures Valid()
      ensures state == Reset(state.food)
    {
      var newState := InitialGameState;
      var food := GenerateFood(newState.snake, draws);
      newState := newState.(food := food);
      ResetIsValid(food);
      state := newState;
    }

    /** The pause button and the space bar. */
    method TogglePause()
      requires Valid()
      modifies this
      ensures Valid()
      ensures state == TogglePaused(old(state))
    {
      TogglePausedTwice(state);
      state := state.(isPaused := !state.isPaused);
    }

    /** A direction request from the arrow keys or the buttons. */
    method HandleDirectionChange(newDirection: Direction)
      requires Valid()
      modifies this
      ensures Valid()
      ensures state == SetDirection(old(state), newDirection)
    {
      SetDirectionPreservesValid(state, newDirection);
      var prev := state;
      if || (prev.direction == Up && newDirection == Down)
         || (prev.direction == Down && newDirection == Up)
         || (prev.direction == Left && newDirection == Right)
         || (prev.direction == Right && newDirection == Left)
      {
        return;
      }
      state := prev.(nextDirection := newDirection);
    }

    /** One timer tick. The food placed when the food is eaten is whatever
        the new state holds, so the new state is `Advance` of the old one
        with that cell. A tick that eats must leave room for food after
        growing, or the placement loop would never end. */
    method UpdateGameState(draws: nat -> Position)
      requires Valid() && FairSource(draws)
      requires Eats(state) ==> |state.snake| + 1 < GridWidth * GridHeight
      modifies this
      ensures Valid()
      ensures state == Advance(old(state), state.food)
    {
      if state.gameOver || state.isPaused {
        return;
      }
      var snake, food, nextDirection, score := state.snake, state.food, state.nextDirection, state.score;

      var head := snake[0];
      var newHead := head.(id := head.id + 1);
      match nextDirection {
        case Up => newHead := newHead.(y := JsRem(newHead.y - 1 + GridHeight, GridHeight));
        case Down => newHead := newHead.(y := JsRem(newHead.y + 1, GridHeight));
        case Left => newHead := newHead.(x := JsRem(newHead.x - 1 + GridWidth, GridWidth));
        case Right => newHead := newHead.(x := JsRem(newHead.x + 1, GridWidth));
      }
      assert newHead == NewHead(state);

      if Occupies(snake, newHead.Pos()) {
        AdvancePreservesValid(state, food);
        state := state.(gameOver := true);
        return;
      }

      var newSnake := [newHead] + snake;
      var newFood, newScore := food, score;
      if newHead.x == food.x && newHead.y == food.y {
        assert Eats(state);
        newScore := newScore + FoodPoints;
        newFood := GenerateFood(newSnake, draws);
      } else {
        newSnake := newSnake[..|newSnake| - 1];
      }
      AdvancePreservesValid(state, newFood);
      state := state.(snake := newSnake, food := newFood, score := newScore, direction := nextDirection);
    }

    /** The keyboard mapping: arrows request a heading, space toggles the
        pause, R or r resets, every other key is ignored. */
    method HandleKeyDown(key: string, draws: nat -> Position)
      requires Valid() && FairSource(draws)
      modifies this
      ensures Valid()
      ensures key == "ArrowUp" ==> state == SetDirection(old(state), Up)
      ensures key == "ArrowDown" ==> state == SetDirection(old(state), Down)
      ensures key == "ArrowLeft" ==> state == SetDirection(old(state), Left)
      ensures key == "ArrowRight" ==> state == SetDirection(old(state), Right)
      ensures key == " " ==> state == TogglePaused(old(state))
      ensures key == "r" || key == "R" ==> state == Reset(state.food)
      ensures key !in {"ArrowUp", "ArrowDown", "ArrowLeft", "ArrowRight", " ", "r", "R"} ==> state == old(state)
    {
      if key == "ArrowUp" {
        HandleDirectionChange(Up);
      } else if key == "ArrowDown" {
        HandleDirectionChange(Down);
      } else if key == "ArrowLeft" {
        HandleDirectionChange(Left);
      } else if key == "ArrowRight" {
        HandleDirectionChange(Right);
      } else if key == " " {
        TogglePause();
      } else if key == "r" || key == "R" {
        ResetGame(draws);
      }
    }
  }
}
