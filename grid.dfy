/**
 * Geometry of the snake board: cells, direction vectors, the toroidal wrap
 * written with JavaScript's remainder operator, the set of all board cells
 * and the counting facts that decide when a free cell exists.
 */
module SnakeGrid {

  /** Side of the square board, in cells. */
  const Grid: int := 24

  /** Number of cells on the board. */
  const CellCount: int := Grid * Grid

  /** A board position; the game stores it as an object `{x, y}`. */
  datatype Cell = Cell(x: int, y: int)

  /** A direction vector; the game stores it as an object `{x, y}` too. */
  datatype Dir = Dir(dx: int, dy: int)

  /** The four directions the game ever uses. */
  const Units: set<Dir> := {Dir(1, 0), Dir(-1, 0), Dir(0, 1), Dir(0, -1)}

  predicate OnBoard(c: Cell) {
    0 <= c.x < Grid && 0 <= c.y < Grid
  }

  /** A cell drawn as `Math.floor(Math.random() * grid)` on each axis: always on the board. */
  type BoardCell = c: Cell | OnBoard(c) witness Cell(0, 0)

  /**
   * One axis of the wrap `(v + grid) % grid`, with JavaScript's `%`: the
   * remainder is truncated toward zero, so it takes the sign of the dividend
   * (unlike Dafny's Euclidean `%`). It lands on the board, and agrees with the
   * mathematical remainder, exactly when v is at least -grid; the game only
   * ever feeds it values in [-1, grid].
   */
  function Wrap(v: int): (r: int)
    ensures v >= -Grid ==> 0 <= r < Grid && r == v % Grid
    ensures v < -Grid ==> -Grid < r <= 0
  {
    var t := v + Grid;
    if t >= 0 then t % Grid else -((-t) % Grid)
  }

  /** The cell next to c in direction d, without wrapping. */
  function Plus(c: Cell, d: Dir): Cell {
    Cell(c.x + d.dx, c.y + d.dy)
  }

  /**
   * The cell next to c in direction d on the torus: both coordinates are
   * wrapped. From a board cell, a unit step stays on the board, and it is the
   * plain neighbour whenever that neighbour is itself on the board.
   */
  function Move(c: Cell, d: Dir): (r: Cell)
    ensures OnBoard(c) && d in Units ==> OnBoard(r)
    ensures OnBoard(Plus(c, d)) ==> r == Plus(c, d)
    ensures OnBoard(c) && d in Units && !OnBoard(Plus(c, d)) ==> r != Plus(c, d)
  {
    Cell(Wrap(c.x + d.dx), Wrap(c.y + d.dy))
  }

  // ---------------------------------------------------------------------------
  // Counting the board

  /** The cells (0, y) .. (n - 1, y) of row y. */
  function RowCells(y: int, n: nat): set<Cell>
    decreases n
  {
    if n == 0 then {} else RowCells(y, n - 1) + {Cell(n - 1, y)}
  }

  lemma {:induction false} RowCellsMember(y: int, n: nat, c: Cell)
    ensures c in RowCells(y, n) <==> c.y == y && 0 <= c.x < n
    decreases n
  {
    if n > 0 {
      RowCellsMember(y, n - 1, c);
    }
  }

  lemma {:induction false} RowCellsSize(y: int, n: nat)
    ensures |RowCells(y, n)| == n
    decreases n
  {
    if n > 0 {
      RowCellsSize(y, n - 1);
      RowCellsMember(y, n - 1, Cell(n - 1, y));
    }
  }

  /** All cells (x, y) with 0 <= x < w and 0 <= y < m. */
  function BlockCells(w: nat, m: nat): set<Cell>
    decreases m
  {
    if m == 0 then {} else BlockCells(w, m - 1) + RowCells(m - 1, w)
  }

  lemma {:induction false} BlockCellsMember(w: nat, m: nat, c: Cell)
    ensures c in BlockCells(w, m) <==> 0 <= c.x < w && 0 <= c.y < m
    decreases m
  {
    if m > 0 {
      BlockCellsMember(w, m - 1, c);
      RowCellsMember(m - 1, w, c);
    }
  }

  /** w * m, as repeated addition. */
  function Area(w: nat, m: nat): nat
    decreases m
  {
    if m == 0 then 0 else Area(w, m - 1) + w
  }

  lemma {:induction false} AreaIsProduct(w: nat, m: nat)
    ensures Area(w, m) == w * m
    decreases m
  {
    if m > 0 {
      AreaIsProduct(w, m - 1);
      assert w * (m - 1) + w == w * m;
    }
  }

  lemma DisjointUnionSize(a: set<Cell>, b: set<Cell>)
    requires forall c :: c in a ==> c !in b
    ensures |a + b| == |a| + |b|
  {
    assert a * b == {};
  }

  lemma {:induction false} BlockCellsSize(w: nat, m: nat)
    ensures |BlockCells(w, m)| == Area(w, m)
    decreases m
  {
    if m > 0 {
      BlockCellsSize(w, m - 1);
      RowCellsSize(m - 1, w);
      var above, row := BlockCells(w, m - 1), RowCells(m - 1, w);
      forall c | c in above ensures c !in row {
        BlockCellsMember(w, m - 1, c);
        RowCellsMember(m - 1, w, c);
      }
      DisjointUnionSize(above, row);
    }
  }

  /** Every cell of the board. */
  function Board(): set<Cell> {
    set x, y | 0 <= x < Grid && 0 <= y < Grid :: Cell(x, y)
  }

  lemma BoardMember(c: Cell)
    ensures c in Board() <==> OnBoard(c)
  {
    if OnBoard(c) {
      assert c == Cell(c.x, c.y);
    }
  }

  lemma BoardSpec()
    ensures forall c :: c in Board() <==> OnBoard(c)
    ensures |Board()| == CellCount
  {
    forall c ensures c in Board() <==> OnBoard(c) {
      BoardMember(c);
    }
    var side: nat := Grid;
    forall c ensures c in Board() <==> c in BlockCells(side, side) {
      BoardMember(c);
      BlockCellsMember(side, side, c);
    }
    assert Board() == BlockCells(side, side);
    BlockCellsSize(side, side);
    AreaIsProduct(side, side);
  }

  // ---------------------------------------------------------------------------
  // Snakes as sequences of cells

  predicate AllOnBoard(s: seq<Cell>) {
    forall i :: 0 <= i < |s| ==> OnBoard(s[i])
  }

  /** No cell occurs twice. */
  predicate Distinct(s: seq<Cell>) {
    forall i, j :: 0 <= i < j < |s| ==> s[i] != s[j]
  }

  /** The set of cells a snake covers. */
  function Occupied(s: seq<Cell>): (r: set<Cell>)
    ensures forall c :: c in r <==> c in s
    decreases |s|
  {
    if s == [] then {} else {s[0]} + Occupied(s[1..])
  }

  /** A snake covers at most as many cells as it has segments, exactly as many when distinct. */
  lemma {:induction false} OccupiedSize(s: seq<Cell>)
    ensures |Occupied(s)| <= |s|
    ensures Distinct(s) ==> |Occupied(s)| == |s|
    decreases |s|
  {
    if s != [] {
      OccupiedSize(s[1..]);
      if Distinct(s) {
        assert Distinct(s[1..]);
        assert s[0] !in s[1..];
      }
    }
  }

  /** Fewer segments than cells leaves a free board cell. */
  lemma FreeCellExists(s: seq<Cell>)
    requires |s| < CellCount
    ensures exists c :: OnBoard(c) && c !in s
  {
    BoardSpec();
    OccupiedSize(s);
    var free := Board() - Occupied(s);
    assert |Board() * Occupied(s)| <= |Occupied(s)| by {
      assert |Occupied(s) - Board()| == |Occupied(s)| - |Occupied(s) * Board()|;
      assert Occupied(s) * Board() == Board() * Occupied(s);
    }
    assert |free| > 0;
    var c :| c in free;
    assert OnBoard(c) && c !in s;
  }

  /**
   * A distinct snake on the board has at most CellCount segments, and one
   * with exactly CellCount segments covers every board cell.
   */
  lemma FullBoard(s: seq<Cell>)
    requires AllOnBoard(s) && Distinct(s)
    ensures |s| <= CellCount
    ensures |s| == CellCount ==> forall c :: OnBoard(c) ==> c in s
  {
    BoardSpec();
    OccupiedSize(s);
    assert Occupied(s) <= Board() by {
      forall c | c in Occupied(s) ensures c in Board() {
        var i :| 0 <= i < |s| && s[i] == c;
      }
    }
    assert Board() * Occupied(s) == Occupied(s);
    assert |Occupied(s) - Board()| == |Occupied(s)| - |Occupied(s) * Board()|;
    assert Occupied(s) * Board() == Occupied(s);
    assert |Board() - Occupied(s)| == |Board()| - |s|;
    if |s| == CellCount {
      assert Board() - Occupied(s) == {};
      forall c | OnBoard(c) ensures c in s {
        assert c in Board();
      }
    }
  }

  // ---------------------------------------------------------------------------
  // Rejection sampling of a free cell

  /** Some of the random draws lands on a cell the snake does not cover. */
  predicate Hits(s: seq<Cell>, draws: seq<BoardCell>) {
    exists k :: 0 <= k < |draws| && draws[k] !in s
  }

  lemma HitsTail(s: seq<Cell>, draws: seq<BoardCell>)
    requires Hits(s, draws) && draws[0] in s
    ensures Hits(s, draws[1..])
  {
    var k :| 0 <= k < |draws| && draws[k] !in s;
    assert draws[1..][k - 1] == draws[k];
  }

  /**
   * The index of the draw the retry loop of spawnFood keeps: the first one
   * that is off the snake, every earlier one having been rejected.
   */
  function FirstFree(s: seq<Cell>, draws: seq<BoardCell>): (k: nat)
    requires Hits(s, draws)
    ensures k < |draws| && draws[k] !in s
    ensures forall j :: 0 <= j < k ==> draws[j] in s
    decreases |draws|
  {
    if draws[0] !in s then 0
    else
      HitsTail(s, draws);
      1 + FirstFree(s, draws[1..])
  }

  /**
   * Sampling can only succeed while a board cell is free: for a distinct
   * snake on the board, some draw sequence succeeds exactly when the snake is
   * shorter than the board, and on a full board no draw sequence does.
   */
  lemma {:induction false} SpawnNeedsRoom(s: seq<Cell>)
    requires AllOnBoard(s) && Distinct(s)
    ensures (exists draws: seq<BoardCell> :: Hits(s, draws)) <==> |s| < CellCount
  {
    FullBoard(s);
    if |s| < CellCount {
      FreeCellExists(s);
      var c :| OnBoard(c) && c !in s;
      var b: BoardCell := c;
      assert [b][0] !in s;
      assert Hits(s, [b]);
    } else {
      forall draws: seq<BoardCell> ensures !Hits(s, draws) {
        forall k | 0 <= k < |draws| ensures draws[k] in s {
          assert OnBoard(draws[k]);
        }
      }
    }
  }
}
