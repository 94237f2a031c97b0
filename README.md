# Snake game rules in Dafny

A model of the rules of a browser Snake game. The board is 24 × 24 cells and the walls wrap, so leaving one edge brings the snake back in at the opposite edge. The page keeps seven variables: the snake (a list of cells, head first), the direction of the next step, the food cell, the score, the step interval in milliseconds, a running flag and the best score. Four things change them:

- a timed step, which moves the head, ends the game on self-collision, and otherwise grows or slides the snake;
- food placement by rejection sampling;
- keyboard input, with a reversal guard;
- the play, pause, reset and speed controls.

Files:

- `grid.dfy` (module `SnakeGrid`): cells and direction vectors, and the wrap written with JavaScript's truncating `%`. It also holds the set of all 576 board cells with its size, and the retry search over random draws that places food (`FirstFree`). Its counting lemmas say when a free cell exists.
- `rules.dfy` (module `SnakeRules`): a snapshot datatype `State` and one function per transition: `StepState`, `ResetState`, `KeyState`, `PlayState`, `PauseState`, `SpeedState` and `TickState`. The invariant `Valid` says the snake is on the board, never covers a cell twice, has 3 + score segments, the food is on a free board cell, and the direction is a unit vector. Lemmas prove that each transition keeps `Valid`, and so does any run of events (`RunPreserves`). The best score never decreases.
- `game.dfy` (module `SnakeGame`): class `Game`, whose fields are the page's variables. Each function or handler of the page is a method with a `modifies` clause. Each method is proved to leave the object in the snapshot its rule computes from the old one: `Model() == StepState(old(Model()), draws)`. `SpawnFood` is the retry loop.
- `scenarios.dfy` (module `SnakeScenarios`): concrete runs. Two are the first steps of a fresh game. Three show behaviour that differs from classic Snake (see "Behaviour as written").

Randomness: `Math.floor(Math.random() * 24)` on both axes becomes a parameter `draws: seq<BoardCell>`. It lists the cells the sampler would draw, in order, and every one is on the board by its type. Placing food takes the first draw that is off the snake. The loop only returns if some draw is free: the precondition `Hits(snake, draws)`. `SpawnNeedsRoom` proves that, for a distinct snake on the board, such draws exist exactly when the snake is shorter than 576 cells.

## Behaviour as written

The model follows the code. In these places the game behaves differently from classic Snake:

- Collision is tested against the whole snake before it moves, tail included. Moving into the cell the tail is about to leave ends the game (`TailCellIsFatal`).
- The reversal guard does not compare the key's direction with the opposite of the current direction. It compares the unwrapped cell next to the head with the second segment. So pressing the opposite of a pending, not yet stepped direction is accepted when it does not reach the second segment. When head and second segment sit on opposite edges, a real reversal is accepted and the next step is fatal (`ReversalAcrossEdge`, `GuardExactInside`).
- The interval after eating is `max(55, interval - 2)`. A base interval below 55 is raised to 55, which slows the game (`SpedUp`, `FoodSlowsFastGame`).
- There is no separate idle, paused and game-over state; there is one `running` flag. The play button always starts a new game: there is no resume after pause. The reset button starts a new game but leaves `running` as it was, so a running game goes on from the start position.
- The best score is updated only when the snake collides. Play and reset end the game under way without folding its score in, so a score above the best is lost when the player restarts before dying (`ResetDropsScore`).
- On a full board the food loop never returns; the code has no "board full" outcome. The model rules that case out with the `Hits` precondition and does not invent an outcome.

## Model

| member | source | states |
|---|---|---|
| SnakeGrid.Wrap | game.js:53-54 | `(v + 24) % 24` with JavaScript's truncating remainder lands in [0, 24) and equals `v mod 24` whenever v >= -24; below that it is at most 0 |
| SnakeGrid.Move | game.js:51-54 | a unit step from a board cell stays on the board; it is the plain neighbour when that is on the board, and differs from it exactly when the step crosses an edge |
| SnakeGrid.BoardSpec | game.js:13 | the board is exactly the cells with both coordinates in [0, 24), and it has 576 of them |
| SnakeGrid.FirstFree | game.js:32-35 | the draw that food placement keeps is off the snake, and every earlier draw was on it |
| SnakeGrid.FreeCellExists | game.js:30-36 | a snake shorter than 576 segments leaves some board cell free |
| SnakeGrid.FullBoard | game.js:30-36 | a distinct snake on the board has at most 576 segments; with 576 it covers every cell, so no draw can succeed |
| SnakeGrid.SpawnNeedsRoom | game.js:30-36 | for a distinct snake on the board, some draw sequence lets food placement return if and only if the snake is shorter than 576 |
| SnakeRules.NextHead | game.js:51-54 | no contract of its own: the head moved one cell along the direction and wrapped; see SnakeGrid.Move and SnakeRules.StepHeadOnBoard |
| SnakeRules.Collides | game.js:57 | no contract of its own: the new head is on some current segment, tail included; see SnakeRules.StepOutcomes and SnakeScenarios.TailCellIsFatal |
| SnakeRules.Eats | game.js:68 | no contract of its own: no collision and the new head is the food; see SnakeRules.StepOutcomes, SnakeRules.StepLength and SnakeRules.EatCanComplete |
| SnakeRules.StepState | game.js:50-77 | no contract of its own: the snapshot after step(); see SnakeRules.StepOutcomes, SnakeRules.StepLength and SnakeRules.StepPreservesValid |
| SnakeRules.SpedUp | game.js:73 | the interval after eating is at least 55; it drops exactly when it was above 55 and rises exactly when it was below; from 57 up it drops by 2, and up to 57 it becomes exactly 55 |
| SnakeRules.EatCanComplete | game.js:30-71 | from a valid snapshot, an eating step has draws that let it complete exactly when the grown snake is shorter than 576 cells |
| SnakeRules.StepOutcomes | game.js:50-77 | collision (new head on any current segment, tail included): running off, best = max(best, score), snake, score, food, interval unchanged. Eating: head prepended, tail kept, score + 1, interval sped up, new food on the board off the new snake. Otherwise: head prepended, tail dropped, score, food and interval unchanged |
| SnakeRules.StepLength | game.js:67-76 | the snake grows by one exactly when it eats and otherwise keeps its length; the score moves with it |
| SnakeRules.StepHeadOnBoard | game.js:51-54 | from a valid snapshot, the head after a non-colliding step is on the board |
| SnakeRules.PrependDistinct | game.js:57-67 | a head that is not on a distinct snake keeps it distinct when put in front |
| SnakeRules.StepPreservesValid | game.js:57-76 | every step keeps the snake distinct and on the board, the food off it and on the board, the direction a unit vector, and the length at 3 + score |
| SnakeRules.ResetValid | game.js:39-47 | after reset the snake is (12,12),(11,12),(10,12), heading (1,0), score 0, interval = the base, food off the snake; the snapshot is valid and best and running are untouched |
| SnakeRules.ResetState | game.js:39-47 | no contract of its own: the snapshot after reset(); see SnakeRules.ResetValid, SnakeRules.ResetForgets and SnakeRules.ResetDropsScore |
| SnakeRules.ResetDropsScore | game.js:39-164 | reset and play keep best as it was and zero the score, so a score above the best is lost |
| SnakeRules.ResetForgets | game.js:39-47 | reset discards the previous game: two snapshots reset alike differ only in running and best, and resetting twice equals resetting once |
| SnakeRules.KeyDir | game.js:140-144 | a key code maps to a direction exactly when it is one of the eight table keys, and that direction is a unit vector |
| SnakeRules.KeysCoverUnits | game.js:140-141 | each arrow key and its WASD letter ask for the same direction, and the four arrows give all four unit vectors |
| SnakeRules.Accepts | game.js:147 | no contract of its own: the snake has fewer than two segments or the unwrapped next cell is not the second segment; see SnakeRules.GuardRejectsOnlyNeck and SnakeRules.GuardExactInside |
| SnakeRules.KeyState | game.js:142-149 | no contract of its own: the snapshot after a keydown; see SnakeRules.KeyEffect and SnakeRules.KeyPreservesValid |
| SnakeRules.KeyEffect | game.js:142-149 | a key changes only the direction; an unmapped key changes nothing; a mapped key's direction is taken exactly when the guard accepts it |
| SnakeRules.KeyPreservesValid | game.js:142-149 | a key press keeps the invariant |
| SnakeRules.GuardRejectsOnlyNeck | game.js:147 | the guard refuses a direction only when the step would put the head on the second segment |
| SnakeRules.GuardExactInside | game.js:147 | when the unwrapped next cell is on the board, the guard accepts iff the step misses the second segment; an accepted step onto the second segment always crosses an edge |
| SnakeRules.TickState | game.js:79-84 | no contract of its own: one step when running and due, otherwise the same snapshot; see SnakeRules.StoppedStaysPut and SnakeRules.ApplyPreserves |
| SnakeRules.PlayState | game.js:154-156 | no contract of its own: reset, then running; see SnakeRules.ResetDropsScore and SnakeRules.ApplyPreserves |
| SnakeRules.PauseState | game.js:160-162 | no contract of its own: running becomes false; see SnakeRules.ApplyPreserves |
| SnakeRules.SpeedState | game.js:167 | no contract of its own: the interval becomes the selected base; see SnakeRules.ApplyPreserves |
| SnakeRules.StoppedStaysPut | game.js:79-80 | a tick of a game that is not running changes nothing |
| SnakeRules.ApplyPreserves | game.js:142-167 | every event (tick, key, play, pause, reset, speed change) keeps the invariant, and none lowers the best score |
| SnakeRules.RunPreserves | game.js:50-167 | along any sequence of events from a valid snapshot, every snapshot is valid and the best score never decreases |
| SnakeRules.ValidFits | game.js:30-45 | a valid snake is shorter than the board (the food's cell is free), so some draws place food for it, and some draws always let a new game place its food |
| SnakeGame.Game.constructor | game.js:169-170 | page load: best is the stored value, not running, and reset() has set up a valid first game |
| SnakeGame.Game.SpawnFood | game.js:30-36 | the retry loop stops at the first draw off the snake and puts the food there, on the board and off the snake |
| SnakeGame.Game.Reset | game.js:39-47 | the object becomes the reset snapshot of its old state |
| SnakeGame.Game.Step | game.js:50-77 | the object becomes the step snapshot of its old state (unshift, then pop or grow and respawn), and a valid object stays valid |
| SnakeGame.Game.Tick | game.js:79-87 | stepping happens only while running and once the interval has elapsed |
| SnakeGame.Game.KeyDown | game.js:142-151 | the direction becomes the key's, if mapped and accepted by the guard; nothing else changes |
| SnakeGame.Game.Play | game.js:154-159 | a reset game that is running |
| SnakeGame.Game.Pause | game.js:160-162 | only the running flag changes, to false |
| SnakeGame.Game.ResetPressed | game.js:163-166 | a reset game, with running left as it was |
| SnakeGame.Game.SpeedChanged | game.js:167 | only the interval changes, to the selected base |
| SnakeScenarios.FirstStepSlides | game.js:50-77 | from the start position with food elsewhere, one step gives (13,12),(12,12),(11,12) and score 0 |
| SnakeScenarios.FirstStepEats | game.js:67-73 | with food at (13,12), one step gives the four-cell snake, score 1 and food off the snake |
| SnakeScenarios.TailCellIsFatal | game.js:57 | a valid four-cell square snake whose next head is its own tail cell, collides, although the tail would move away |
| SnakeScenarios.ReversalAcrossEdge | game.js:147 | from a valid snake with head (0,12), second segment (23,12), heading right, ArrowLeft is accepted, and the next head wraps onto (23,12), a collision |
| SnakeScenarios.ReversalInsideRefused | game.js:147 | from the start position, at any interval and best score, ArrowLeft and KeyA change nothing |
| SnakeScenarios.FoodSlowsFastGame | game.js:73 | eating at 40 ms gives 55 ms; 56 and 55 give 55; 100 gives 98 |

## Left out

- Theme toggle and theme storage (game.js:3-8): appearance only.
- Persistence of the best score (game.js:24, 62): the stored value is a constructor parameter, and saving is not modelled. A stored value that `parseInt` reads as NaN is not modelled; best is an integer.
- Drawing (game.js:89-137) and the score display updates (game.js:25, 43, 61, 70): presentation only.
- Animation scheduling (`requestAnimationFrame`, `cancelAnimationFrame`, `rafId`) and timestamps (`performance.now`, `lastStep`): host timers with fractional milliseconds. `Game.Tick` takes the test `now - lastStep >= stepMs` as a boolean `due`.
- `Math.random`: replaced by the sequence of draws. Whether a uniform sampler eventually hits a free cell is a probabilistic fact outside the model. The model needs a successful draw as a precondition and proves such draws exist exactly when a cell is free.
- `parseInt` of the speed selector (game.js:44, 167): the base interval is an integer parameter.
- `e.preventDefault()` (game.js:150): browser glue.
- The `snake &&` test in the keydown guard (game.js:147) is not modelled: the page resets before any event can arrive, so the snake is always set.
- SnakeGame.Game.Step requires `CanStep`: if the snake eats its way onto the last free cell, the source loops forever in spawnFood, and the model excludes that case instead of modelling a hang. `EatCanComplete` proves this is the only case excluded: from a valid snapshot, an eating step can complete exactly when the grown snake is shorter than 576 cells.
