/** The 3x3 grid of cell marks, as plain values, and the queries that the game
    asks of it: which lines are complete and which cells are still empty. */
module Board {

  /** What one cell shows: the empty string, the human's symbol or the computer's. */
  datatype Mark = Empty | Human | Computer

  /** A (row, column) pair, as getEmptyCells hands them out. */
  datatype Cell = Cell(row: int, col: int) {
    predicate OnBoard() { 0 <= row < 3 && 0 <= col < 3 }
    /** Position of the cell in the row-major layout of the grid. */
    function Index(): int { 3 * row + col }
  }

  /** The nine cells, row by row: cell (r, c) is at index 3 * r + c. */
  type Grid = g: seq<Mark> | |g| == 9
    witness [Empty, Empty, Empty, Empty, Empty, Empty, Empty, Empty, Empty]

  /** Grids whose nine cells all show the empty string; there is exactly one. */
  type BlankGrid = g: Grid | forall i :: 0 <= i < 9 ==> g[i] == Empty
    witness [Empty, Empty, Empty, Empty, Empty, Empty, Empty, Empty, Empty]

  /** The board as clearBoard leaves it. */
  const EmptyGrid: BlankGrid

  function CellAt(i: int): (c: Cell)
    requires 0 <= i < 9
    ensures c.OnBoard() && c.Index() == i
  {
    Cell(i / 3, i % 3)
  }

  /** Every on-board cell is the one at its own index. */
  lemma CellAtIndex(c: Cell)
    requires c.OnBoard()
    ensures CellAt(c.Index()) == c
  {
    if c.row == 0 {
      assert c.Index() / 3 == 0;
    } else if c.row == 1 {
      assert c.Index() / 3 == 1;
    } else {
      assert c.Index() / 3 == 2;
    }
  }

  /** The grid with cell `c` set to `m` (a setText on one cell). */
  function Place(g: Grid, c: Cell, m: Mark): Grid
    requires c.OnBoard()
  {
    g[c.Index() := m]
  }

  /** The string a cell shows, given the two players' symbols. */
  function Text(m: Mark, human: string, comp: string): string {
    match m
    case Empty => ""
    case Human => human
    case Computer => comp
  }

  /** Comparing the shown strings is comparing the marks, as long as the two
      symbols differ from each other and from the empty string. */
  lemma TextIsFaithful(human: string, comp: string)
    requires human != comp && human != "" && comp != ""
    ensures forall a: Mark, b: Mark :: Text(a, human, comp) == Text(b, human, comp) <==> a == b
  {
  }

  /** Two entries show the same mark. */
  function AreEqual(a: Mark, b: Mark): bool {
    a == b
  }

  // ---------------------------------------------------------------------------
  // Lines and wins

  /** The k-th of the eight lines, in the order they are tried: rows 0-2,
      columns 0-2, the main diagonal, the anti-diagonal. */
  function Line(k: int): (l: (int, int, int))
    requires 0 <= k < 8
    ensures 0 <= l.0 < l.1 < l.2 < 9
  {
    if k < 3 then (3 * k, 3 * k + 1, 3 * k + 2)
    else if k < 6 then (k - 3, k, k + 3)
    else if k == 6 then (0, 4, 8)
    else (2, 4, 6)
  }

  /** All three cells of line k show `m`. */
  predicate Complete(g: Grid, m: Mark, k: int)
    requires 0 <= k < 8
  {
    var l := Line(k);
    g[l.0] == m && g[l.1] == m && g[l.2] == m
  }

  /** Some line is made of three `m` marks. */
  predicate Wins(g: Grid, m: Mark) {
    exists k :: 0 <= k < 8 && Complete(g, m, k)
  }

  /** The eight lines spelled out cell by cell. */
  lemma WinsByLines(g: Grid, m: Mark)
    ensures Wins(g, m) <==>
      (g[0] == m && g[1] == m && g[2] == m) ||
      (g[3] == m && g[4] == m && g[5] == m) ||
      (g[6] == m && g[7] == m && g[8] == m) ||
      (g[0] == m && g[3] == m && g[6] == m) ||
      (g[1] == m && g[4] == m && g[7] == m) ||
      (g[2] == m && g[5] == m && g[8] == m) ||
      (g[0] == m && g[4] == m && g[8] == m) ||
      (g[2] == m && g[4] == m && g[6] == m)
  {
    if Wins(g, m) {
      var k :| 0 <= k < 8 && Complete(g, m, k);
      if k == 0 {} else if k == 1 {} else if k == 2 {} else if k == 3 {}
      else if k == 4 {} else if k == 5 {} else if k == 6 {} else {}
    } else {
      assert !Complete(g, m, 0) && !Complete(g, m, 1) && !Complete(g, m, 2) && !Complete(g, m, 3);
      assert !Complete(g, m, 4) && !Complete(g, m, 5) && !Complete(g, m, 6) && !Complete(g, m, 7);
    }
  }

  /** Marking an empty cell for one player neither makes nor breaks a line
      of any other mark. */
  lemma PlaceKeepsOtherWins(g: Grid, c: Cell, m: Mark, other: Mark)
    requires c.OnBoard() && g[c.Index()] == Empty && m != other && other != Empty
    ensures Wins(Place(g, c, m), other) <==> Wins(g, other)
  {
    var g' := Place(g, c, m);
    if Wins(g', other) {
      var k :| 0 <= k < 8 && Complete(g', other, k);
      assert Complete(g, other, k);
    }
    if Wins(g, other) {
      var k :| 0 <= k < 8 && Complete(g, other, k);
      assert Complete(g', other, k);
    }
  }

  // ---------------------------------------------------------------------------
  // Empty cells

  /** The empty cells among the first n, in row-major order. */
  function EmptyCellsBelow(g: Grid, n: int): seq<Cell>
    requires 0 <= n <= 9
  {
    if n == 0 then []
    else EmptyCellsBelow(g, n - 1) + (if g[n - 1] == Empty then [CellAt(n - 1)] else [])
  }

  /** All empty cells, in row-major order. */
  function EmptyCells(g: Grid): seq<Cell> {
    EmptyCellsBelow(g, 9)
  }

  /** The cells listed are those among the first n that are empty, each
      once, in strictly increasing row-major position. */
  lemma {:induction false} EmptyCellsBelowSpec(g: Grid, n: int)
    requires 0 <= n <= 9
    ensures forall c :: c in EmptyCellsBelow(g, n) <==> c.OnBoard() && c.Index() < n && g[c.Index()] == Empty
    ensures forall i, j :: 0 <= i < j < |EmptyCellsBelow(g, n)| ==>
      EmptyCellsBelow(g, n)[i].Index() < EmptyCellsBelow(g, n)[j].Index()
  {
    if n > 0 {
      EmptyCellsBelowSpec(g, n - 1);
      var cur := EmptyCellsBelow(g, n);
      forall c
        ensures c in cur <==> c.OnBoard() && c.Index() < n && g[c.Index()] == Empty
      {
        if c.OnBoard() && c.Index() == n - 1 {
          assert c == CellAt(n - 1);
        }
      }
    }
  }

  /** getEmptyCells lists exactly the empty cells, each once, in row-major order. */
  lemma EmptyCellsSpec(g: Grid)
    ensures forall c :: c in EmptyCells(g) <==> c.OnBoard() && g[c.Index()] == Empty
    ensures forall i, j :: 0 <= i < j < |EmptyCells(g)| ==> EmptyCells(g)[i].Index() < EmptyCells(g)[j].Index()
  {
    EmptyCellsBelowSpec(g, 9);
  }

  /** Every listed cell is empty. */
  lemma ListedIsEmpty(g: Grid, i: int)
    requires 0 <= i < |EmptyCells(g)|
    ensures EmptyCells(g)[i].OnBoard() && g[EmptyCells(g)[i].Index()] == Empty
  {
    EmptyCellsSpec(g);
    assert EmptyCells(g)[i] in EmptyCells(g);
  }

  /** An empty cell sits at some position of the list of empty cells. */
  lemma ListedAt(g: Grid, e: Cell) returns (j: int)
    requires e.OnBoard() && g[e.Index()] == Empty
    ensures 0 <= j < |EmptyCells(g)| && EmptyCells(g)[j] == e
  {
    EmptyCellsSpec(g);
    assert e in EmptyCells(g);
    j :| 0 <= j < |EmptyCells(g)| && EmptyCells(g)[j] == e;
  }

  /** Positions in the list follow row-major order. */
  lemma ListedInOrder(g: Grid, j: int, i: int)
    requires 0 <= j < |EmptyCells(g)| && 0 <= i < |EmptyCells(g)|
    ensures EmptyCells(g)[j].Index() < EmptyCells(g)[i].Index() ==> j < i
  {
    EmptyCellsSpec(g);
  }

  /** With a single empty cell, getEmptyCells lists that cell alone. */
  lemma OneEmptyCell(g: Grid, a: Cell)
    requires a.OnBoard()
    requires forall i :: 0 <= i < 9 ==> (g[i] == Empty <==> i == a.Index())
    ensures EmptyCells(g) == [a]
  {
    OneEmptyCellBelow(g, a, 9);
  }

  lemma {:induction false} OneEmptyCellBelow(g: Grid, a: Cell, n: int)
    requires a.OnBoard() && 0 <= n <= 9
    requires forall i :: 0 <= i < 9 ==> (g[i] == Empty <==> i == a.Index())
    ensures EmptyCellsBelow(g, n) == if a.Index() < n then [a] else []
  {
    if n > 0 {
      OneEmptyCellBelow(g, a, n - 1);
      var i := n - 1;
      if i == a.Index() {
        CellAtIndex(a);
        assert EmptyCellsBelow(g, n) == EmptyCellsBelow(g, i) + [a];
      } else {
        assert g[i] != Empty;
        assert EmptyCellsBelow(g, n) == EmptyCellsBelow(g, i);
      }
    }
  }

  /** With exactly two empty cells, getEmptyCells lists both in row-major order. */
  lemma TwoEmptyCells(g: Grid, a: Cell, b: Cell)
    requires a.OnBoard() && b.OnBoard() && a.Index() < b.Index()
    requires forall i :: 0 <= i < 9 ==> (g[i] == Empty <==> i == a.Index() || i == b.Index())
    ensures EmptyCells(g) == [a, b]
  {
    TwoEmptyCellsBelow(g, a, b, 9);
  }

  lemma {:induction false} TwoEmptyCellsBelow(g: Grid, a: Cell, b: Cell, n: int)
    requires a.OnBoard() && b.OnBoard() && a.Index() < b.Index() && 0 <= n <= 9
    requires forall i :: 0 <= i < 9 ==> (g[i] == Empty <==> i == a.Index() || i == b.Index())
    ensures EmptyCellsBelow(g, n) == (if a.Index() < n then [a] else []) + (if b.Index() < n then [b] else [])
  {
    if n > 0 {
      TwoEmptyCellsBelow(g, a, b, n - 1);
      var i := n - 1;
      if i == a.Index() {
        CellAtIndex(a);
      } else if i == b.Index() {
        CellAtIndex(b);
      } else {
        assert g[i] != Empty;
      }
    }
  }

  /** The board is full exactly when no cell shows the empty string. */
  lemma FullBoard(g: Grid)
    ensures EmptyCells(g) == [] <==> forall i :: 0 <= i < 9 ==> g[i] != Empty
  {
    EmptyCellsSpec(g);
    if EmptyCells(g) == [] {
      forall i | 0 <= i < 9 ensures g[i] != Empty {
        assert CellAt(i) !in EmptyCells(g);
      }
    } else {
      var c := EmptyCells(g)[0];
      assert c in EmptyCells(g);
    }
  }
}
