/** A game as the sequence of events the component reacts to: timer ticks,
    direction requests, pause presses and resets, each applied to the state
    left by the previous one. The lemmas here state what holds of every state
    reachable this way. */
module Play {
  import opened Types
  import opened Engine

  /** One event. A tick and a reset carry the cell food placement returns
      for them (used by a tick only when it eats). */
  datatype Event =
    | Tick(placed: Position)
    | Turn(requested: Direction)
    | Pause
    | Restart(placed: Position)

  /** The event can be applied to `s`, and any food it places fits, as food
      placement promises. */
  predicate Admissible(s: GameState, e: Event)
  {
    match e
    case Tick(p) => s.snake != [] && (Eats(s) ==> FoodFits(Grown(s), p))
    case Restart(p) => FoodFits(InitialSnake, p)
    case _ => true
  }

  /** The state after one event. */
  function Apply(s: GameState, e: Event): GameState
    requires Admissible(s, e)
  {
    match e
    case Tick(p) => Advance(s, p)
    case Turn(d) => SetDirection(s, d)
    case Pause => TogglePaused(s)
    case Restart(p) => Reset(p)
  }

  /** Every event of the run is admissible in the state it meets. */
  predicate AdmissibleRun(s: GameState, es: seq<Event>)
    decreases |es|
  {
    es == [] || (Admissible(s, es[0]) && AdmissibleRun(Apply(s, es[0]), es[1..]))
  }

  /** The state after all events of the run. */
  function Run(s: GameState, es: seq<Event>): GameState
    requires AdmissibleRun(s, es)
    decreases |es|
  {
    if es == [] then s else Run(Apply(s, es[0]), es[1..])
  }

  /** The run contains no reset. */
  predicate NoRestart(es: seq<Event>)
  {
    forall i :: 0 <= i < |es| ==> !es[i].Restart?
  }

  /** Every event keeps the invariant. */
  lemma ApplyPreservesValid(s: GameState, e: Event)
    requires Valid(s) && Admissible(s, e)
    ensures Valid(Apply(s, e))
  {
    match e
    case Tick(p) => AdvancePreservesValid(s, p);
    case Turn(d) => SetDirectionPreservesValid(s, d);
    case Pause => TogglePausedTwice(s);
    case Restart(p) => ResetIsValid(p);
  }

  /** Every run keeps the invariant: on board, distinct cells, consecutive
      identifiers, connected body, food off the snake, score a non-negative
      multiple of the reward, queued heading never the reverse of the
      committed one. */
  lemma {:induction false} RunPreservesValid(s: GameState, es: seq<Event>)
    requires Valid(s) && AdmissibleRun(s, es)
    ensures Valid(Run(s, es))
    decreases |es|
  {
    if es != [] {
      ApplyPreservesValid(s, es[0]);
      RunPreservesValid(Apply(s, es[0]), es[1..]);
    }
  }

  /** Every state reachable from a reset keeps the invariant. */
  lemma ReachableStatesAreValid(placed: Position, es: seq<Event>)
    requires FoodFits(InitialSnake, placed) && AdmissibleRun(Reset(placed), es)
    ensures Valid(Run(Reset(placed), es))
  {
    ResetIsValid(placed);
    RunPreservesValid(Reset(placed), es);
  }

  /** Without a reset the score never goes down. */
  lemma {:induction false} ScoreNeverDecreases(s: GameState, es: seq<Event>)
    requires AdmissibleRun(s, es) && NoRestart(es)
    ensures Run(s, es).score >= s.score
    decreases |es|
  {
    if es != [] {
      assert !es[0].Restart?;
      ScoreNeverDecreases(Apply(s, es[0]), es[1..]);
    }
  }

  /** Once the game is over, only a reset changes the board: the snake, the
      food, the score and the committed heading stay, and the game stays
      over (pause presses and direction requests still change their flags). */
  lemma {:induction false} GameOverIsFrozen(s: GameState, es: seq<Event>)
    requires s.gameOver && AdmissibleRun(s, es) && NoRestart(es)
    ensures var r := Run(s, es);
      r.gameOver && r.snake == s.snake && r.food == s.food && r.score == s.score && r.direction == s.direction
    decreases |es|
  {
    if es != [] {
      assert !es[0].Restart?;
      GameOverIsFrozen(Apply(s, es[0]), es[1..]);
    }
  }

  /** Between two ticks only the queued heading moves, and it ends up as the
      last request that was not the reverse of the committed heading, or
      as it was if every request was such a reverse. */
  lemma {:induction false} LastRequestWins(s: GameState, es: seq<Event>)
    requires forall i :: 0 <= i < |es| ==> es[i].Turn?
    ensures AdmissibleRun(s, es)
    ensures Run(s, es) == s.(nextDirection := Run(s, es).nextDirection)
    ensures (forall i :: 0 <= i < |es| ==> es[i].requested == Opposite(s.direction)) ==>
              Run(s, es).nextDirection == s.nextDirection
    ensures forall i :: 0 <= i < |es| && es[i].requested != Opposite(s.direction)
                        && (forall j :: i < j < |es| ==> es[j].requested == Opposite(s.direction)) ==>
              Run(s, es).nextDirection == es[i].requested
    decreases |es|
  {
    if es != [] {
      var s1 := SetDirection(s, es[0].requested);
      var rest := es[1..];
      LastRequestWins(s1, rest);
      assert s1.direction == s.direction;
      var r := Run(s, es);
      assert r == Run(s1, rest);
      forall i | 0 <= i < |es| && es[i].requested != Opposite(s.direction)
                 && (forall j :: i < j < |es| ==> es[j].requested == Opposite(s.direction))
        ensures r.nextDirection == es[i].requested
      {
        if i == 0 {
          assert forall j :: 0 <= j < |rest| ==> rest[j] == es[j + 1];
        } else {
          assert rest[i - 1] == es[i];
          assert forall j :: i - 1 < j < |rest| ==> rest[j] == es[j + 1];
        }
      }
      if forall i :: 0 <= i < |es| ==> es[i].requested == Opposite(s.direction) {
        assert s1 == s;
        assert forall j :: 0 <= j < |rest| ==> rest[j] == es[j + 1];
      }
    }
  }
}
