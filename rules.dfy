/**
 * The rules of the snake game as functions on a snapshot of its state: one
 * step of the snake, the reset to the start position, the direction keys with
 * their reversal guard, and the play, pause and speed controls. The class in
 * module SnakeGame runs these rules in place; this module states what each
 * one does and proves the invariants they keep.
 */
module SnakeRules {
  import opened SnakeGrid

  datatype Option<T> = None | Some(value: T)

  function Max(a: int, b: int): (r: int)
    ensures r >= a && r >= b
    ensures r == a || r == b
  {
    if a >= b then a else b
  }

  // ---------------------------------------------------------------------------
  // Snapshot of the game

  /** The variables the game keeps between events. */
  datatype State = State(
    snake: seq<Cell>,  // head first
    dir: Dir,          // direction of the next step
    food: Cell,
    score: int,
    stepMs: int,       // milliseconds between two steps
    running: bool,
    best: int)         // best score, kept across games

  /** The snake every game starts with: three cells in row 12, heading right. */
  const Start: seq<Cell> := [Cell(12, 12), Cell(11, 12), Cell(10, 12)]
  const Right: Dir := Dir(1, 0)

  /** The interval never drops below this many milliseconds by eating. */
  const MinStepMs: int := 55

  /**
   * What every snapshot the game reaches satisfies: the snake is on the board
   * and never covers a cell twice, the food is on a free cell, the direction
   * is a unit vector, and the snake has grown by one cell per point scored.
   */
  predicate Valid(s: State) {
    s.score >= 0 && |s.snake| == |Start| + s.score &&
    AllOnBoard(s.snake) && Distinct(s.snake) &&
    OnBoard(s.food) && s.food !in s.snake &&
    s.dir in Units
  }

  // ---------------------------------------------------------------------------
  // One step

  /** Where the head goes next: one cell along dir, wrapped on both axes. */
  function NextHead(s: State): Cell
    requires |s.snake| > 0
  {
    Move(s.snake[0], s.dir)
  }

  /** The new head lands on a segment of the snake before it moves, tail included. */
  predicate Collides(s: State)
    requires |s.snake| > 0
  {
    NextHead(s) in s.snake
  }

  /** The step does not collide and the new head lands on the food. */
  predicate Eats(s: State)
    requires |s.snake| > 0
  {
    !Collides(s) && NextHead(s) == s.food
  }

  /**
   * The step can complete: the snake has a head, and if it eats, the random
   * draws contain a cell off the grown snake where the new food goes. Without
   * one the retry loop of spawnFood never returns.
   */
  predicate CanStep(s: State, draws: seq<BoardCell>) {
    |s.snake| > 0 && (Eats(s) ==> Hits([NextHead(s)] + s.snake, draws))
  }

  /** The effect of step(). */
  function StepState(s: State, draws: seq<BoardCell>): State
    requires CanStep(s, draws)
  {
    var head := NextHead(s);
    if head in s.snake then
      s.(running := false, best := Max(s.best, s.score))
    else if head == s.food then
      var grown := [head] + s.snake;
      s.(snake := grown, score := s.score + 1,
         food := draws[FirstFree(grown, draws)], stepMs := SpedUp(s.stepMs))
    else
      s.(snake := [head] + s.snake[..|s.snake| - 1])
  }

  /**
   * The interval after eating, `max(55, ms - 2)`. It is never below the floor;
   * it shrinks only when it was above the floor, and a base interval below
   * the floor is raised to it, so eating then slows the game down.
   */
  function SpedUp(ms: int): (r: int)
    ensures r >= MinStepMs
    ensures r < ms <==> ms > MinStepMs
    ensures r > ms <==> ms < MinStepMs
    ensures ms >= MinStepMs + 2 ==> r == ms - 2
    ensures ms <= MinStepMs + 2 ==> r == MinStepMs
  {
    Max(MinStepMs, ms - 2)
  }

  /**
   * The three outcomes of a step. On a collision the game stops, the score is
   * folded into the best score, and nothing else changes. Otherwise the new
   * head goes in front; eating keeps the old tail, scores a point, speeds up
   * and places new food on a free cell; not eating drops the tail and leaves
   * score, food and interval alone.
   */
  lemma StepOutcomes(s: State, draws: seq<BoardCell>)
    requires CanStep(s, draws)
    ensures var r := StepState(s, draws);
      r.dir == s.dir &&
      (Collides(s) ==>
        !r.running && r.best == Max(s.best, s.score) &&
        r.snake == s.snake && r.score == s.score && r.food == s.food && r.stepMs == s.stepMs) &&
      (!Collides(s) ==>
        r.running == s.running && r.best == s.best && r.snake[0] == NextHead(s)) &&
      (Eats(s) ==>
        r.snake == [NextHead(s)] + s.snake && r.score == s.score + 1 &&
        r.stepMs == SpedUp(s.stepMs) && r.food !in r.snake && OnBoard(r.food)) &&
      (!Collides(s) && !Eats(s) ==>
        r.snake == [NextHead(s)] + s.snake[..|s.snake| - 1] &&
        r.score == s.score && r.food == s.food && r.stepMs == s.stepMs)
  {
  }

  /**
   * The length of the snake changes by one exactly when it eats, and by
   * nothing otherwise; the score follows it and never drops.
   */
  lemma StepLength(s: State, draws: seq<BoardCell>)
    requires CanStep(s, draws)
    ensures |StepState(s, draws).snake| == |s.snake| + (if Eats(s) then 1 else 0)
    ensures StepState(s, draws).score == s.score + (if Eats(s) then 1 else 0)
  {
  }

  /** From a valid snapshot, a step that does not collide puts the head on the board. */
  lemma StepHeadOnBoard(s: State, draws: seq<BoardCell>)
    requires Valid(s) && CanStep(s, draws) && !Collides(s)
    ensures OnBoard(StepState(s, draws).snake[0])
  {
  }

  /** Prepending a new cell keeps a distinct snake distinct. */
  lemma {:induction false} PrependDistinct(head: Cell, body: seq<Cell>)
    requires Distinct(body) && head !in body
    ensures Distinct([head] + body)
  {
    var t := [head] + body;
    forall i, j | 0 <= i < j < |t| ensures t[i] != t[j] {
      if i == 0 {
        assert t[j] == body[j - 1];
      } else {
        assert t[i] == body[i - 1] && t[j] == body[j - 1];
      }
    }
  }

  /** Every step keeps the invariant. */
  lemma StepPreservesValid(s: State, draws: seq<BoardCell>)
    requires Valid(s) && CanStep(s, draws)
    ensures Valid(StepState(s, draws))
  {
    var head := NextHead(s);
    if head !in s.snake {
      var body := if head == s.food then s.snake else s.snake[..|s.snake| - 1];
      assert Distinct(body);
      PrependDistinct(head, body);
      assert [head] + body == StepState(s, draws).snake;
    }
  }

  // ---------------------------------------------------------------------------
  // Reset

  /** The effect of reset(): a fresh game at the given base interval; running and best are kept. */
  function ResetState(s: State, base: int, draws: seq<BoardCell>): State
    requires Hits(Start, draws)
  {
    s.(snake := Start, dir := Right, score := 0, stepMs := base,
       food := draws[FirstFree(Start, draws)])
  }

  /**
   * A reset snapshot is valid whatever came before: the start snake, heading
   * right, no score, the base interval and food off the snake; the best score
   * and the running flag are left as they were.
   */
  lemma ResetValid(s: State, base: int, draws: seq<BoardCell>)
    requires Hits(Start, draws)
    ensures var r := ResetState(s, base, draws);
      Valid(r) && r.snake == Start && r.dir == Right && r.score == 0 && r.stepMs == base &&
      r.food !in Start && r.best == s.best && r.running == s.running
  {
  }

  /**
   * A reset forgets the game it ends: two snapshots reset with the same base
   * and draws differ at most in the running flag and the best score, so
   * resetting twice is the same as resetting once.
   */
  lemma ResetForgets(s: State, t: State, base: int, draws1: seq<BoardCell>, draws2: seq<BoardCell>)
    requires Hits(Start, draws1) && Hits(Start, draws2)
    ensures ResetState(s, base, draws2) == ResetState(t, base, draws2).(running := s.running, best := s.best)
    ensures ResetState(ResetState(s, base, draws1), base, draws2) == ResetState(s, base, draws2)
  {
  }

  /**
   * A reset or a press of play ends the game under way without folding its
   * score into the best score: only a collision does that. A score above the
   * best is lost.
   */
  lemma ResetDropsScore(s: State, base: int, draws: seq<BoardCell>)
    requires Hits(Start, draws)
    ensures ResetState(s, base, draws).best == s.best && ResetState(s, base, draws).score == 0
    ensures PlayState(s, base, draws).best == s.best && PlayState(s, base, draws).score == 0
    ensures s.score > s.best ==> ResetState(s, base, draws).best < s.score
  {
  }

  // ---------------------------------------------------------------------------
  // Direction keys

  /** The keys the game reacts to and the direction each one asks for (arrows and WASD). */
  const KeyTable: map<string, Dir> := map[
    "ArrowUp" := Dir(0, -1), "ArrowDown" := Dir(0, 1),
    "ArrowLeft" := Dir(-1, 0), "ArrowRight" := Dir(1, 0),
    "KeyW" := Dir(0, -1), "KeyS" := Dir(0, 1),
    "KeyA" := Dir(-1, 0), "KeyD" := Dir(1, 0)]

  /** The direction a key code asks for; every one is a unit vector. */
  function KeyDir(code: string): (r: Option<Dir>)
    ensures r.Some? ==> r.value in Units
    ensures r.Some? <==> code in KeyTable
  {
    if code in KeyTable then Some(KeyTable[code]) else None
  }

  /**
   * Each direction has an arrow key and a letter key, and each key of a pair
   * asks for the same direction; between them the arrow keys give all four.
   */
  lemma KeysCoverUnits()
    ensures KeyDir("ArrowUp") == KeyDir("KeyW") && KeyDir("ArrowDown") == KeyDir("KeyS")
    ensures KeyDir("ArrowLeft") == KeyDir("KeyA") && KeyDir("ArrowRight") == KeyDir("KeyD")
    ensures forall d :: d in Units <==>
      d in {KeyDir("ArrowUp").value, KeyDir("ArrowDown").value,
            KeyDir("ArrowLeft").value, KeyDir("ArrowRight").value}
  {
  }

  /**
   * The reversal guard of the keydown handler: a direction is taken when the
   * snake has one segment, or when the cell next to the head in that
   * direction, NOT wrapped, is not the second segment.
   */
  predicate Accepts(snake: seq<Cell>, d: Dir) {
    |snake| < 2 || Plus(snake[0], d) != snake[1]
  }

  /** The effect of a keydown event. */
  function KeyState(s: State, code: string): State {
    match KeyDir(code)
    case None => s
    case Some(d) => if Accepts(s.snake, d) then s.(dir := d) else s
  }

  /**
   * A key changes nothing but the direction; an unmapped key changes nothing;
   * the new direction is the key's own, and it is taken exactly when the
   * guard accepts it.
   */
  lemma KeyEffect(s: State, code: string)
    ensures var r := KeyState(s, code);
      r.(dir := s.dir) == s &&
      (code !in KeyTable ==> r == s) &&
      (code in KeyTable ==>
        r.dir == (if Accepts(s.snake, KeyTable[code]) then KeyTable[code] else s.dir))
  {
  }

  /** A key press keeps the invariant. */
  lemma KeyPreservesValid(s: State, code: string)
    requires Valid(s)
    ensures Valid(KeyState(s, code))
  {
  }

  /**
   * The guard refuses a direction only when the step would put the head onto
   * the second segment.
   */
  lemma GuardRejectsOnlyNeck(snake: seq<Cell>, d: Dir)
    requires |snake| >= 2 && AllOnBoard(snake) && d in Units
    requires !Accepts(snake, d)
    ensures Move(snake[0], d) == snake[1]
  {
  }

  /**
   * On the inner board the guard is exact: a direction whose plain neighbour
   * is on the board is accepted if and only if the step misses the second
   * segment. The one way an accepted step reaches the second segment is
   * across an edge of the board.
   */
  lemma GuardExactInside(snake: seq<Cell>, d: Dir)
    requires |snake| >= 2 && AllOnBoard(snake) && d in Units
    ensures OnBoard(Plus(snake[0], d)) ==> (Accepts(snake, d) <==> Move(snake[0], d) != snake[1])
    ensures Accepts(snake, d) && Move(snake[0], d) == snake[1] ==> !OnBoard(Plus(snake[0], d))
  {
  }

  // ---------------------------------------------------------------------------
  // Controls

  /** The play button: reset, then run. */
  function PlayState(s: State, base: int, draws: seq<BoardCell>): State
    requires Hits(Start, draws)
  {
    ResetState(s, base, draws).(running := true)
  }

  /** The pause button. */
  function PauseState(s: State): State {
    s.(running := false)
  }

  /** The speed selector: takes effect on the running game at once. */
  function SpeedState(s: State, base: int): State {
    s.(stepMs := base)
  }

  /**
   * A tick of the animation loop: when the game runs and the interval has
   * elapsed, one step.
   */
  predicate CanTick(s: State, due: bool, draws: seq<BoardCell>) {
    s.running && due ==> CanStep(s, draws)
  }

  function TickState(s: State, due: bool, draws: seq<BoardCell>): State
    requires CanTick(s, due, draws)
  {
    if s.running && due then StepState(s, draws) else s
  }

  /** A stopped game does not move however many ticks arrive. */
  lemma StoppedStaysPut(s: State, due: bool, draws: seq<BoardCell>)
    requires !s.running
    ensures TickState(s, due, draws) == s
  {
  }

  // ---------------------------------------------------------------------------
  // Whole runs

  /** Everything that can happen to the game, with the random draws it consumes. */
  datatype Event =
    | Tick(due: bool, tickDraws: seq<BoardCell>)
    | Key(code: string)
    | Play(playBase: int, playDraws: seq<BoardCell>)
    | Pause
    | ResetPressed(resetBase: int, resetDraws: seq<BoardCell>)
    | SpeedChanged(speedBase: int)

  predicate CanApply(s: State, e: Event) {
    match e
    case Tick(due, draws) => CanTick(s, due, draws)
    case Play(_, draws) => Hits(Start, draws)
    case ResetPressed(_, draws) => Hits(Start, draws)
    case _ => true
  }

  function Apply(s: State, e: Event): State
    requires CanApply(s, e)
  {
    match e
    case Tick(due, draws) => TickState(s, due, draws)
    case Key(code) => KeyState(s, code)
    case Play(base, draws) => PlayState(s, base, draws)
    case Pause => PauseState(s)
    case ResetPressed(base, draws) => ResetState(s, base, draws)
    case SpeedChanged(base) => SpeedState(s, base)
  }

  /** One event keeps the invariant and never lowers the best score. */
  lemma ApplyPreserves(s: State, e: Event)
    requires Valid(s) && CanApply(s, e)
    ensures Valid(Apply(s, e))
    ensures Apply(s, e).best >= s.best
  {
    match e
    case Tick(due, draws) =>
      if s.running && due { StepPreservesValid(s, draws); }
    case Play(base, draws) => ResetValid(s, base, draws);
    case ResetPressed(base, draws) => ResetValid(s, base, draws);
    case _ =>
  }

  /** Every event of the list can be handled in turn. */
  predicate CanRun(s: State, events: seq<Event>)
    decreases |events|
  {
    events == [] || (CanApply(s, events[0]) && CanRun(Apply(s, events[0]), events[1..]))
  }

  function Run(s: State, events: seq<Event>): State
    requires CanRun(s, events)
    decreases |events|
  {
    if events == [] then s else Run(Apply(s, events[0]), events[1..])
  }

  /**
   * Along any run from a valid snapshot, every snapshot is valid (so the snake
   * never covers a cell twice and the food is never on it), and the best score
   * never decreases.
   */
  lemma {:induction false} RunPreserves(s: State, events: seq<Event>)
    requires Valid(s) && CanRun(s, events)
    ensures Valid(Run(s, events))
    ensures Run(s, events).best >= s.best
    decreases |events|
  {
    if events != [] {
      ApplyPreserves(s, events[0]);
      RunPreserves(Apply(s, events[0]), events[1..]);
    }
  }

  /**
   * A valid snake leaves at least one board cell free (the food's), so some
   * draws let food placement return for it, and a new game can always place
   * its food.
   */
  lemma ValidFits(s: State)
    requires Valid(s)
    ensures |s.snake| < CellCount
    ensures exists draws: seq<BoardCell> :: Hits(s.snake, draws)
    ensures exists draws: seq<BoardCell> :: Hits(Start, draws)
  {
    FullBoard(s.snake);
    SpawnNeedsRoom(s.snake);
    SpawnNeedsRoom(Start);
  }

  /**
   * The one case a step cannot complete: from a valid snapshot, an eating
   * step has draws that place the new food exactly when the grown snake still
   * leaves a board cell free.
   */
  lemma EatCanComplete(s: State)
    requires Valid(s) && Eats(s)
    ensures (exists draws: seq<BoardCell> :: CanStep(s, draws)) <==> |s.snake| + 1 < CellCount
  {
    var grown := [NextHead(s)] + s.snake;
    PrependDistinct(NextHead(s), s.snake);
    assert AllOnBoard(grown) by {
      forall i | 0 <= i < |grown| ensures OnBoard(grown[i]) {
        if i > 0 { assert grown[i] == s.snake[i - 1]; }
      }
    }
    SpawnNeedsRoom(grown);
    forall draws: seq<BoardCell> ensures CanStep(s, draws) <==> Hits(grown, draws) {
    }
  }
}
