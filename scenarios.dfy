/**
 * Concrete runs of the rules: two first steps of a fresh game, and the
 * three places where the game behaves differently from the classic
 * rules one might expect (tail collision, reversal across the edge, a base
 * interval below the floor).
 */
module SnakeScenarios {
  import opened SnakeGrid
  import opened SnakeRules

  /** A fresh game one step on, food elsewhere: the snake slides one cell right. */
  lemma FirstStepSlides(food: Cell, ms: int, best: int, draws: seq<BoardCell>)
    requires food != Cell(13, 12)
    ensures var r := StepState(State(Start, Right, food, 0, ms, true, best), draws);
      r.snake == [Cell(13, 12), Cell(12, 12), Cell(11, 12)] && r.score == 0 && r.running
  {
  }

  /** A fresh game with food just ahead: the snake grows to four cells and scores. */
  lemma FirstStepEats(ms: int, best: int, draws: seq<BoardCell>)
    requires Hits([Cell(13, 12)] + Start, draws)
    ensures var s := State(Start, Right, Cell(13, 12), 0, ms, true, best);
      CanStep(s, draws) &&
      var r := StepState(s, draws);
      r.snake == [Cell(13, 12), Cell(12, 12), Cell(11, 12), Cell(10, 12)] &&
      r.score == 1 && r.food !in r.snake
  {
    var s := State(Start, Right, Cell(13, 12), 0, ms, true, best);
    assert NextHead(s) == Cell(13, 12);
  }

  /** A valid four-cell snake bent into a square, about to step onto its tail. */
  function Square(): State {
    State([Cell(0, 0), Cell(1, 0), Cell(1, 1), Cell(0, 1)], Dir(0, 1), Cell(5, 5), 1, 100, true, 0)
  }

  lemma SquareValid()
    ensures Valid(Square())
  {
    var snake := Square().snake;
    forall i, j | 0 <= i < j < |snake| ensures snake[i] != snake[j] {
      assert snake[i].x != snake[j].x || snake[i].y != snake[j].y;
    }
  }

  /**
   * The head moves into the cell the tail is about to leave: the collision
   * test runs against the whole snake before it moves, so the game ends.
   */
  lemma TailCellIsFatal()
    ensures NextHead(Square()) == Cell(0, 1)
    ensures Square().snake[|Square().snake| - 1] == Cell(0, 1)
    ensures Collides(Square())
  {
    var s := Square();
    assert s.snake[0] == Cell(0, 0) && s.dir == Dir(0, 1);
    assert Move(Cell(0, 0), Dir(0, 1)) == Cell(0, 1);
    assert s.snake[3] == Cell(0, 1);
  }

  /** A valid snake with its head on the left edge and its second segment across it. */
  function Straddling(): State {
    State([Cell(0, 12), Cell(23, 12), Cell(22, 12)], Right, Cell(5, 5), 0, 100, true, 0)
  }

  lemma StraddlingValid()
    ensures Valid(Straddling())
  {
  }

  /**
   * Head on the left edge, second segment across it on the right edge: the
   * guard compares the unwrapped cell (-1, 12) with (23, 12) and lets the
   * snake turn back left, and the next step wraps onto the second segment.
   */
  lemma ReversalAcrossEdge()
    ensures KeyState(Straddling(), "ArrowLeft") == Straddling().(dir := Dir(-1, 0))
    ensures NextHead(Straddling().(dir := Dir(-1, 0))) == Cell(23, 12)
    ensures Collides(Straddling().(dir := Dir(-1, 0)))
  {
    assert KeyDir("ArrowLeft") == Some(Dir(-1, 0));
    assert Accepts(Straddling().snake, Dir(-1, 0));
    assert Wrap(-1) == 23 && Wrap(12) == 12;
  }

  /** Away from the edge the same reversal is refused. */
  lemma ReversalInsideRefused(ms: int, best: int)
    ensures var s := State(Start, Right, Cell(5, 5), 0, ms, true, best);
      KeyState(s, "ArrowLeft") == s && KeyState(s, "KeyA") == s
  {
    assert KeyDir("ArrowLeft") == Some(Dir(-1, 0));
    assert KeyDir("KeyA") == Some(Dir(-1, 0));
  }

  /** With a base interval below the floor, eating raises the interval: the game slows down. */
  lemma FoodSlowsFastGame()
    ensures SpedUp(40) == 55 && SpedUp(56) == 55 && SpedUp(55) == 55 && SpedUp(100) == 98
  {
  }
}
