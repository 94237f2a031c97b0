/**
 * The game object: the variables the page script keeps between events, and
 * one method per function or event handler that changes them. Each method is
 * proved to leave the object in the snapshot the matching rule of module
 * SnakeRules computes from the old one.
 */
module SnakeGame {
  import opened SnakeGrid
  import opened SnakeRules

  class Game {
    var snake: seq<Cell>
    var dir: Dir
    var food: Cell
    var score: int
    var stepMs: int
    var running: bool
    var best: int

    /** The current snapshot. */
    function Model(): State
      reads this
    {
      State(snake, dir, food, score, stepMs, running, best)
    }

    /**
     * Page load: the best score comes from storage, the game is not running,
     * and reset() sets up the first game.
     */
    constructor (storedBest: int, base: int, draws: seq<BoardCell>)
      requires Hits(Start, draws)
      ensures Model() == State(Start, Right, draws[FirstFree(Start, draws)], 0, base, false, storedBest)
      ensures Valid(Model())
    {
      best := storedBest;
      running := false;
      new;
      Reset(base, draws);
      ResetValid(Model(), base, draws);
    }

    /**
     * spawnFood(): keep drawing random cells until one is off the snake. The
     * food is the first draw not on the snake.
     */
    method SpawnFood(draws: seq<BoardCell>)
      requires Hits(snake, draws)
      modifies this`food
      ensures food == draws[FirstFree(snake, draws)]
      ensures food !in snake && OnBoard(food)
    {
      var i := 0;
      while draws[i] in snake
        invariant 0 <= i <= FirstFree(snake, draws)
        decreases FirstFree(snake, draws) - i
      {
        i := i + 1;
      }
      food := draws[i];
    }

    /** reset(): the start snake heading right, no score, the base interval, new food. */
    method Reset(base: int, draws: seq<BoardCell>)
      requires Hits(Start, draws)
      modifies this
      ensures Model() == ResetState(old(Model()), base, draws)
    {
      snake := Start;
      dir := Right;
      score := 0;
      stepMs := base;
      SpawnFood(draws);
    }

    /**
     * step(): move the head, end the game on a collision, otherwise put the
     * head in front and either grow (eating) or drop the tail.
     */
    method Step(draws: seq<BoardCell>)
      requires CanStep(Model(), draws)
      modifies this
      ensures Model() == StepState(old(Model()), draws)
      ensures Valid(old(Model())) ==> Valid(Model())
    {
      ghost var before := Model();
      var head := Move(snake[0], dir);
      if head in snake {
        running := false;
        best := Max(best, score);
      } else {
        snake := [head] + snake;
        if head == food {
          score := score + 1;
          SpawnFood(draws);
          stepMs := SpedUp(stepMs);
        } else {
          snake := snake[..|snake| - 1];
        }
      }
      if Valid(before) {
        StepPreservesValid(before, draws);
      }
    }

    /** One frame of the animation loop; due says the step interval has elapsed. */
    method Tick(due: bool, draws: seq<BoardCell>)
      requires CanTick(Model(), due, draws)
      modifies this
      ensures Model() == TickState(old(Model()), due, draws)
    {
      if !running {
        return;
      }
      if due {
        Step(draws);
      }
    }

    /** The keydown handler: look the key up, then apply the reversal guard. */
    method KeyDown(code: string)
      modifies this`dir
      ensures Model() == KeyState(old(Model()), code)
    {
      var d := KeyDir(code);
      if d.None? {
        return;
      }
      if Accepts(snake, d.value) {
        dir := d.value;
      }
    }

    /** The play button: a new game, running. */
    method Play(base: int, draws: seq<BoardCell>)
      requires Hits(Start, draws)
      modifies this
      ensures Model() == PlayState(old(Model()), base, draws)
    {
      Reset(base, draws);
      running := true;
    }

    /** The pause button. */
    method Pause()
      modifies this`running
      ensures Model() == PauseState(old(Model()))
    {
      running := false;
    }

    /** The reset button: a new game; whether it runs is left as it was. */
    method ResetPressed(base: int, draws: seq<BoardCell>)
      requires Hits(Start, draws)
      modifies this
      ensures Model() == ResetState(old(Model()), base, draws)
    {
      Reset(base, draws);
    }

    /** The speed selector. */
    method SpeedChanged(base: int)
      modifies this`stepMs
      ensures Model() == SpeedState(old(Model()), base)
    {
      stepMs := base;
    }
  }
}
