# Snake game engine in Dafny

This project models the game-state engine of a browser snake game: a snake
moves on a 20 by 15 board whose edges wrap around, grows by one cell and
scores 10 points for each food it eats, ends the game when its head runs into
any of its own cells, and takes direction requests, pause presses and resets
between timer ticks.

The model has five modules:

- `Types` (types.dfy): the data model (`Direction`, `Position`, `SnakeCell` with its identifier,
  `GameState`) and the board dimensions.
- `Engine` (engine.dfy): the transitions as pure functions:
  - `Advance`: the tick;
  - `SetDirection`: the direction request;
  - `TogglePaused`: the pause button;
  - `Reset`: a new game.

  It also holds the invariant `Valid` of every reachable state and the lemmas
  that each transition keeps it. `MoveHead` computes the new head with the
  source's wrap formula and JavaScript's truncating `%` (`JsRem`). Its contract
  ties it to an independent toroidal `Neighbour` defined with Dafny's `%`.
- `Food` (food.dfy): food placement as the source's retry loop (`GenerateFood`).
  It also proves, by counting cells, that a snake shorter than the board leaves
  a free cell.
- `Play` (play.dfy): a game as a sequence of events. It proves facts about
  every reachable state: the invariant holds, the score never falls, a finished
  game is frozen until a reset, and the last non-reversing request wins.
- `Game` (game.dfy): the component itself. The class `SnakeGame` holds one
  mutable `state`. It has one method per transition and the keyboard mapping.
  The tick is written step by step as in the source. Each method's contract
  says which pure transition it performed and that the invariant still holds.

The invariant `Engine.Valid` says:

- the snake is non-empty and lies on the board;
- no two of its cells share a coordinate;
- identifiers fall by one from head to tail;
- each cell is one step ahead of the one behind it;
- the head is one committed-heading step ahead of the second cell;
- the food is on the board and off the snake;
- the score is a non-negative multiple of 10;
- the queued heading is never the reverse of the committed heading.

Food placement uses `Math.random`. The model takes the random draws as a
parameter `draws: nat -> Position` (the cell of the k-th draw). It requires
that every draw is on the board, and that every cell is drawn at some point.

The code does not check the game-over flag before a direction request or a pause press, and the model follows it:

- A direction request is not ignored when the game is over (`SetDirectionIgnoresGameOver`).
- A pause press is not ignored when the game is over.
- So "frozen once over" holds for the snake, food, score and committed
  heading, not for the pause flag or the queued heading (`GameOverIsFrozen`).

Placing food on a full board loops forever rather than failing.

## Model

| member | source | states |
|---|---|---|
| `Engine.Opposite` | src/app/components/SnakeGame.tsx:75-84 | the reverse heading differs from the heading |
| `Engine.IsReversal` | src/app/components/SnakeGame.tsx:75-84 | the four-pair reversal test never pairs a heading with itself, and the current heading is the reverse of a rejected request |
| `Engine.ReversalIsOpposite` | src/app/components/SnakeGame.tsx:75-84 | the four-pair reversal test holds exactly when the request is the opposite heading, and opposite is an involution |
| `Engine.JsRem` | src/app/components/SnakeGame.tsx:110-119 | JavaScript's remainder lies in [0, n) for a non-negative dividend and in (-n, 0] for a negative one |
| `Engine.MoveHead` | src/app/components/SnakeGame.tsx:104-121 | the new head's id is the old head's plus 1; from an on-board head it is the toroidal neighbour in the heading, and it is on the board |
| `Engine.Occupies` | src/app/components/SnakeGame.tsx:124-127 | `snake.some(...)` holds exactly when some index of the snake holds a cell at the given coordinates |
| `Engine.NewHead` | src/app/components/SnakeGame.tsx:105-121 | the tick's new head carries the old head's id plus 1 and, from an on-board head, is the toroidal neighbour in the queued heading |
| `Engine.WrapsAtEdges` | src/app/components/SnakeGame.tsx:108-121 | RIGHT from x = W-1 gives x = 0, LEFT from 0 gives W-1, UP from y = 0 gives H-1, DOWN from H-1 gives 0 |
| `Engine.Advance` | src/app/components/SnakeGame.tsx:96-155 | a tick never touches the pause flag or the queued heading, never lowers the score, and never clears game over |
| `Engine.FrozenTickIsNoOp` | src/app/components/SnakeGame.tsx:98-100 | a tick on a paused or finished game returns the state unchanged |
| `Engine.CollisionOnlyEndsGame` | src/app/components/SnakeGame.tsx:124-130 | when the new head meets any cell of the pre-tick snake, tail included, the result is the old state with only game over set |
| `Engine.GrowthLaw` | src/app/components/SnakeGame.tsx:133-154 | a live, non-colliding tick: eating gives head plus whole snake, length +1, score +10, the placed food; otherwise head plus snake minus its last cell, same length, score and food; the committed heading becomes the queued one |
| `Engine.NoReturnWithoutReversal` | src/app/components/SnakeGame.tsx:108-121 | two on-board steps, the second not reversing the first, never return to the start |
| `Engine.NeverRunsIntoNeck` | src/app/components/SnakeGame.tsx:75-84 | in a valid state the next head is never the cell behind the head |
| `Engine.PrefixWellFormed` | src/app/components/SnakeGame.tsx:145 | dropping cells from the tail keeps the snake well formed and covers no new cell |
| `Engine.ExtendWellFormed` | src/app/components/SnakeGame.tsx:133 | prepending a free on-board cell, one step ahead of the head and carrying the next id, keeps the snake well formed |
| `Engine.AdvancePreservesValid` | src/app/components/SnakeGame.tsx:96-155 | a tick keeps the invariant (cells in bounds and distinct, food off the snake, score a multiple of 10) when the food it places fits the grown snake |
| `Engine.SetDirection` | src/app/components/SnakeGame.tsx:72-93 | a request for the opposite of the committed heading leaves the state unchanged; any other request changes only the queued heading, to the request |
| `Engine.SetDirectionPreservesValid` | src/app/components/SnakeGame.tsx:72-93 | a direction request keeps the invariant |
| `Engine.SetDirectionIgnoresGameOver` | src/app/components/SnakeGame.tsx:72-93 | a finished game still takes a non-reversing request, and stays over |
| `Engine.TogglePaused` | src/app/components/SnakeGame.tsx:64-69 | the pause flag flips and nothing else changes |
| `Engine.TogglePausedTwice` | src/app/components/SnakeGame.tsx:64-69 | toggling keeps the invariant, and toggling twice restores the state |
| `Engine.Reset` | src/app/components/SnakeGame.tsx:31-43 | a new game: the placed food, the three-cell initial snake with head at (3,5), both headings RIGHT, score 0, not over, not paused |
| `Engine.ResetIsValid` | src/app/components/SnakeGame.tsx:31-43 | a reset gives snake [(3,5,id 2),(2,5,id 1),(1,5,id 0)], headings RIGHT, score 0, not over, not paused, the placed food, and a valid state |
| `Engine.ResetsAgreeButFood` | src/app/components/SnakeGame.tsx:55-61 | two resets differ in nothing but the food cell |
| `Engine.FirstTickEats` | src/app/components/SnakeGame.tsx:133-142 | from the initial game with food at (4,5) one tick gives snake (4,5),(3,5),(2,5),(1,5), score 10 and the placed food |
| `Engine.TailChaseEndsGame` | src/app/components/SnakeGame.tsx:124-130 | in a valid four-cell state, a head turning onto the cell the tail is about to leave ends the game with the board unchanged |
| `Food.CoveredSize` | src/app/components/SnakeGame.tsx:23-25 | a snake covers at most as many cells as it has segments |
| `Food.RowSize` | src/app/components/SnakeGame.tsx:19 | a board row of width w has w cells |
| `Food.BoardAddsRow` | src/app/components/SnakeGame.tsx:18-21 | a board one row taller is the board plus a disjoint row |
| `Food.BoardSize` | src/app/components/SnakeGame.tsx:18-21 | the board has W times H cells |
| `Food.FreeCellExists` | src/app/components/SnakeGame.tsx:15-28 | a snake shorter than the board leaves an on-board cell it does not cover |
| `Food.GenerateFood` | src/app/components/SnakeGame.tsx:15-28 | the result is on the board and off the snake, and is the first draw that misses the snake |
| `Play.ApplyPreservesValid` | src/app/components/SnakeGame.tsx:55-155 | each event (tick, request, pause, reset) keeps the invariant |
| `Play.RunPreservesValid` | src/app/components/SnakeGame.tsx:55-155 | every sequence of events keeps the invariant |
| `Play.ReachableStatesAreValid` | src/app/components/SnakeGame.tsx:46-50 | every state reachable from a new game is valid: cells on the board and distinct, food off the snake |
| `Play.ScoreNeverDecreases` | src/app/components/SnakeGame.tsx:137-141 | without a reset the score never decreases |
| `Play.GameOverIsFrozen` | src/app/components/SnakeGame.tsx:98-100 | once over, no event but a reset changes snake, food, score or committed heading, and the game stays over |
| `Play.LastRequestWins` | src/app/components/SnakeGame.tsx:72-93 | between ticks only the queued heading changes; it ends as the last non-reversing request, or unchanged if every request was a reversal |
| `Game.SnakeGame.constructor` | src/app/components/SnakeGame.tsx:46-50 | the first state is a reset with fresh food, and is valid |
| `Game.SnakeGame.ResetGame` | src/app/components/SnakeGame.tsx:55-61 | the state becomes a reset with freshly placed food, and is valid |
| `Game.SnakeGame.TogglePause` | src/app/components/SnakeGame.tsx:64-69 | the state becomes the toggled old state, and stays valid |
| `Game.SnakeGame.HandleDirectionChange` | src/app/components/SnakeGame.tsx:72-93 | the state becomes the direction request applied to the old state, and stays valid |
| `Game.SnakeGame.UpdateGameState` | src/app/components/SnakeGame.tsx:96-156 | the state becomes the tick applied to the old state, with the placed food the new state holds, and stays valid |
| `Game.SnakeGame.HandleKeyDown` | src/app/components/SnakeGame.tsx:160-184 | arrow keys request their heading, space toggles the pause, r or R resets, other keys change nothing |

## Left out

- `Math.random`: the draws are a parameter. The model assumes every draw is on the board and every cell is drawn eventually. Under that assumption the retry loop ends.
- Food.GenerateFood: requires a snake shorter than the board. On a full board the source loops forever; the model does not describe that run.
- Game.SnakeGame.UpdateGameState: requires, for a tick that eats only, that the grown snake leave room for food, so that food placement ends. The source would hang when the last free cell is eaten; paused, finished, colliding and non-eating ticks have no such requirement.
- Engine.Advance: requires a non-empty snake. Every reachable state has one; the source's behaviour on an empty snake is not modelled.
- Engine.JsRem: its contract states only the range and sign of the remainder. `Engine.MoveHead` ties its use to the toroidal neighbour.
- Numbers are unbounded integers. JavaScript's double-precision numbers are not modelled; the identifiers and scores reached in a game stay far below 2^53.
- The timer (`setInterval`/`clearInterval`) and the registration of the keydown listener are host event plumbing. The key mapping itself is `HandleKeyDown`.
- React state hooks, callbacks and the markup: each `setGameState(prev => f(prev))` is modelled as replacing `state` with `f(state)`.
- The board renderer, the control buttons, the page shell and the build configuration: they hold no game logic.
- The pixel cell size, the two tick speeds and the colours: presentation and timing only.
