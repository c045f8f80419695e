/** One turn of the game as a function of board values: the computer's reply
    (computerTurn) and the resolution of a human click, with the status
    message and the game-over flag it sets. */
module Turns {
  import opened Board
  import opened Minimax

  /** The game status message the window shows. */
  datatype Message = InGame | YouWin | YouLose | GameTied {
    function Display(): string {
      match this
      case InGame => "In Game"
      case YouWin => "You Win!!"
      case YouLose => "You Lose!"
      case GameTied => "Game Tied!"
    }
  }

  /** What a click can change: the cells, the game-over flag and the message. */
  datatype TurnState = TurnState(grid: Grid, gameOver: bool, message: Message)

  /** computerTurn: nothing on a full board; otherwise the computer's mark on
      the cell nextInt picks from the empty cells (normal difficulty, with the
      generator's draw reduced modulo their number) or on the cell
      optimalPlacement picks (impossible difficulty). */
  function ComputerMove(g: Grid, normal: bool, draw: nat): Grid {
    var cells := EmptyCells(g);
    if |cells| == 0 then g
    else
      EmptyCellsSpec(g);
      assert cells[draw % |cells|] in cells;
      if normal then Place(g, cells[draw % |cells|], Computer)
      else Place(g, OptimalChoice(g), Computer)
  }

  /** The computer's turn leaves a full board alone; otherwise it marks
      exactly one previously empty cell for the computer and changes nothing
      else. On the impossible difficulty that cell is the first one, in
      row-major order, with the highest minimax score. */
  lemma ComputerMoveSpec(g: Grid, normal: bool, draw: nat) returns (c: Cell)
    ensures EmptyCells(g) == [] ==> ComputerMove(g, normal, draw) == g
    ensures EmptyCells(g) != [] ==>
      && c.OnBoard() && g[c.Index()] == Empty
      && ComputerMove(g, normal, draw) == Place(g, c, Computer)
      && (!normal ==> forall e: Cell :: e.OnBoard() && g[e.Index()] == Empty ==> ChildValue(g, e, true) <= ChildValue(g, c, true))
  {
    var cells := EmptyCells(g);
    EmptyCellsSpec(g);
    c := Cell(0, 0);
    if cells != [] {
      if normal {
        c := cells[draw % |cells|];
        assert c in cells;
      } else {
        c := OptimalChoice(g);
        OptimalChoiceSpec(g);
      }
    }
  }

  /** Normal difficulty can reach every empty cell: for each one there is a
      draw of the generator that makes the computer mark it. */
  lemma NormalMoveReachesEveryEmptyCell(g: Grid, c: Cell)
    requires c.OnBoard() && g[c.Index()] == Empty
    ensures exists draw: nat :: ComputerMove(g, true, draw) == Place(g, c, Computer)
  {
    EmptyCellsSpec(g);
    var cells := EmptyCells(g);
    assert c in cells;
    var i :| 0 <= i < |cells| && cells[i] == c;
    SmallRemainder(i, |cells|);
    assert ComputerMove(g, true, i) == Place(g, cells[i % |cells|], Computer);
  }

  lemma SmallRemainder(i: nat, n: nat)
    requires i < n
    ensures i % n == i
  {
  }

  /** The click handler, as written: a click after the game is over or on a
      marked cell does nothing; otherwise the human's mark is placed and the
      three phases below run in turn, whatever the earlier ones found. */
  function ResolveClick(st: TurnState, c: Cell, normal: bool, draw: nat): TurnState
    requires c.OnBoard()
  {
    if st.gameOver || st.grid[c.Index()] != Empty then st
    else TieCheck(ComputerPhase(HumanPhase(st, c), normal, draw))
  }

  /** A click on an empty cell of a game in progress runs the three phases. */
  lemma ResolveClickByPhases(st: TurnState, c: Cell, normal: bool, draw: nat)
    requires c.OnBoard() && !st.gameOver && st.grid[c.Index()] == Empty
    ensures ResolveClick(st, c, normal, draw) == TieCheck(ComputerPhase(HumanPhase(st, c), normal, draw))
  {
  }

  /** The human's mark on c; a human line sets "You Win!!". */
  function HumanPhase(st: TurnState, c: Cell): TurnState
    requires c.OnBoard()
  {
    var g1 := Place(st.grid, c, Human);
    if Wins(g1, Human) then TurnState(g1, true, YouWin) else st.(grid := g1)
  }

  /** The computer's turn, taken even after a human line; a computer line
      sets "You Lose!", overwriting any earlier message. */
  function ComputerPhase(st: TurnState, normal: bool, draw: nat): TurnState {
    var g2 := ComputerMove(st.grid, normal, draw);
    if Wins(g2, Computer) then TurnState(g2, true, YouLose) else st.(grid := g2)
  }

  /** A full board sets "Game Tied!", overwriting any earlier message. */
  function TieCheck(st: TurnState): TurnState {
    if EmptyCells(st.grid) == [] then TurnState(st.grid, true, GameTied) else st
  }

  /** How many cells show `m`. */
  function Count(s: seq<Mark>, m: Mark): nat {
    if s == [] then 0 else (if s[0] == m then 1 else 0) + Count(s[1..], m)
  }

  /** A mark that no cell shows has count zero. */
  lemma {:induction false} CountAbsent(s: seq<Mark>, m: Mark)
    requires forall i :: 0 <= i < |s| ==> s[i] != m
    ensures Count(s, m) == 0
  {
    if s != [] {
      CountAbsent(s[1..], m);
    }
  }

  /** Overwriting one cell moves one unit of count from the old mark to the new. */
  lemma {:induction false} CountUpdate(s: seq<Mark>, i: int, v: Mark, m: Mark)
    requires 0 <= i < |s|
    ensures Count(s[i := v], m) + (if s[i] == m then 1 else 0) == Count(s, m) + (if v == m then 1 else 0)
  {
    if i > 0 {
      CountUpdate(s[1..], i - 1, v, m);
      assert s[i := v][1..] == s[1..][i - 1 := v];
    }
  }

  /** The board decides the game: a line for either player, or no empty
      cell left. */
  predicate Decided(g: Grid) {
    Wins(g, Human) || Wins(g, Computer) || EmptyCells(g) == []
  }

  /** Between clicks the game-over flag is set exactly when the board is
      decided, and a game that is not over has one computer mark for each
      human mark, plus the opening one when the computer went first. */
  predicate Consistent(st: TurnState, playerStarts: bool) {
    && (st.gameOver <==> Decided(st.grid))
    && (st.gameOver || InPlay(st.grid, playerStarts))
  }

  /** An undecided board whose counts fit the player who opened. */
  predicate InPlay(g: Grid, playerStarts: bool) {
    && !Decided(g)
    && Count(g, Computer) == Count(g, Human) + (if playerStarts then 0 else 1)
  }

  /** The board startGame leaves: empty cells everywhere, and the computer's
      opening move when the computer goes first. */
  function Opening(playerStarts: bool, normal: bool, draw: nat): Grid {
    if playerStarts then EmptyGrid else ComputerMove(EmptyGrid, normal, draw)
  }

  lemma PlaceCounts(g: Grid, c: Cell, m: Mark)
    requires c.OnBoard() && g[c.Index()] == Empty && m != Empty
    ensures Count(Place(g, c, m), m) == Count(g, m) + 1
    ensures forall other: Mark :: other != m && other != Empty ==> Count(Place(g, c, m), other) == Count(g, other)
  {
    CountUpdate(g, c.Index(), m, m);
    forall other: Mark | other != m && other != Empty
      ensures Count(Place(g, c, m), other) == Count(g, other)
    {
      CountUpdate(g, c.Index(), m, other);
    }
  }

  /** A mark on an empty cell leaves one empty cell fewer: the measure that
      bounds the depth of miniMax's recursion. */
  lemma PlaceLeavesFewerEmpty(g: Grid, c: Cell, m: Mark)
    requires c.OnBoard() && g[c.Index()] == Empty && m != Empty
    ensures Count(Place(g, c, m), Empty) < Count(g, Empty)
  {
    CountUpdate(g, c.Index(), m, Empty);
  }

  /** A fresh game is consistent, whoever opens. */
  lemma OpeningIsConsistent(playerStarts: bool, normal: bool, draw: nat)
    ensures Consistent(TurnState(Opening(playerStarts, normal, draw), false, InGame), playerStarts)
  {
    EmptyGridInPlay();
    if !playerStarts {
      FirstMoveInPlay(EmptyGrid, normal, draw);
    }
  }

  /** The fresh board is empty everywhere and in play with the human to move. */
  lemma EmptyGridInPlay()
    ensures forall i :: 0 <= i < 9 ==> EmptyGrid[i] == Empty
    ensures Count(EmptyGrid, Human) == 0 && Count(EmptyGrid, Computer) == 0
    ensures InPlay(EmptyGrid, true)
  {
    EmptyGridFacts();
    BlankBoardUndecided(EmptyGrid);
  }

  lemma EmptyGridFacts()
    ensures forall i :: 0 <= i < 9 ==> EmptyGrid[i] == Empty
    ensures Count(EmptyGrid, Human) == 0 && Count(EmptyGrid, Computer) == 0
  {
    CountAbsent(EmptyGrid, Human);
    CountAbsent(EmptyGrid, Computer);
  }

  /** A board with every cell empty decides nothing. */
  lemma BlankBoardUndecided(e: Grid)
    requires forall i :: 0 <= i < 9 ==> e[i] == Empty
    ensures !Decided(e)
  {
    WinsByLines(e, Human);
    WinsByLines(e, Computer);
    FullBoard(e);
  }

  /** The computer's opening move on an empty board leaves a game in play
      with one computer mark and no human mark. */
  lemma FirstMoveInPlay(e: Grid, normal: bool, draw: nat)
    requires forall i :: 0 <= i < 9 ==> e[i] == Empty
    requires Count(e, Human) == 0 && Count(e, Computer) == 0
    ensures InPlay(ComputerMove(e, normal, draw), false)
  {
    BlankBoardUndecided(e);
    var c := ComputerMoveSpec(e, normal, draw);
    var g := ComputerMove(e, normal, draw);
    PlaceKeepsOtherWins(e, c, Computer, Human);
    PlaceCounts(e, c, Computer);
    WinsByLines(g, Computer);
    FullBoard(g);
    assert g[if c.Index() == 0 then 1 else 0] == Empty;
  }

  /** Every click keeps the game consistent. */
  lemma ClickPreservesConsistency(st: TurnState, c: Cell, normal: bool, draw: nat, playerStarts: bool)
    requires c.OnBoard() && Consistent(st, playerStarts)
    ensures Consistent(ResolveClick(st, c, normal, draw), playerStarts)
  {
    if !st.gameOver && st.grid[c.Index()] == Empty {
      PlaceCounts(st.grid, c, Human);
      ReplyKeepsHumanLines(Place(st.grid, c, Human), normal, draw);
    }
  }

  /** The computer's reply neither makes nor breaks a human line; it adds one
      computer mark and no human mark, unless the board is full. */
  lemma ReplyKeepsHumanLines(g: Grid, normal: bool, draw: nat)
    ensures Wins(ComputerMove(g, normal, draw), Human) <==> Wins(g, Human)
    ensures EmptyCells(g) == [] ==> ComputerMove(g, normal, draw) == g
    ensures EmptyCells(g) != [] ==>
      && Count(ComputerMove(g, normal, draw), Computer) == Count(g, Computer) + 1
      && Count(ComputerMove(g, normal, draw), Human) == Count(g, Human)
  {
    var k := ComputerMoveSpec(g, normal, draw);
    if EmptyCells(g) != [] {
      PlaceKeepsOtherWins(g, k, Computer, Human);
      PlaceCounts(g, k, Computer);
    }
  }

  /** As written, the computer still moves after the human has completed a
      line, as long as a cell is free. */
  lemma ComputerMovesAfterHumanWin(st: TurnState, c: Cell, normal: bool, draw: nat)
    requires c.OnBoard() && !st.gameOver && st.grid[c.Index()] == Empty
    requires Wins(Place(st.grid, c, Human), Human) && EmptyCells(Place(st.grid, c, Human)) != []
    ensures var g1 := Place(st.grid, c, Human);
      var r := ResolveClick(st, c, normal, draw);
      && r.gameOver && Wins(r.grid, Human)
      && Count(r.grid, Computer) == Count(g1, Computer) + 1
      && (!normal ==> r.grid == Place(g1, OptimalChoice(g1), Computer) && OptimalChoice(g1) == EmptyCells(g1)[0])
  {
    var g1 := Place(st.grid, c, Human);
    var k := ComputerMoveSpec(g1, normal, draw);
    PlaceKeepsOtherWins(g1, k, Computer, Human);
    PlaceCounts(g1, k, Computer);
    if !normal {
      OptimalChoiceAfterHumanWin(g1);
    }
  }

  // ---------------------------------------------------------------------------
  // The handler's quirks

  /** As written, a click that fills the last free cell ends the game on
      "Game Tied!", even when it completes a human line: the computer has
      nowhere to play and the full-board check comes last. */
  lemma LastCellClickShowsTie(st: TurnState, c: Cell, normal: bool, draw: nat)
    requires c.OnBoard() && !st.gameOver && st.grid[c.Index()] == Empty
    requires EmptyCells(Place(st.grid, c, Human)) == []
    ensures ResolveClick(st, c, normal, draw) == TurnState(Place(st.grid, c, Human), true, GameTied)
  {
  }

  /** As written, when the human's click leaves exactly one free cell the
      computer fills it and the game ends on "Game Tied!", even when that
      reply completes a computer line. */
  lemma LastReplyShowsTie(st: TurnState, c: Cell, normal: bool, draw: nat, last: Cell)
    requires c.OnBoard() && !st.gameOver && st.grid[c.Index()] == Empty
    requires EmptyCells(Place(st.grid, c, Human)) == [last]
    ensures last.OnBoard()
    ensures ResolveClick(st, c, normal, draw) == TurnState(Place(Place(st.grid, c, Human), last, Computer), true, GameTied)
  {
    var g1 := Place(st.grid, c, Human);
    EmptyCellsSpec(g1);
    assert last in EmptyCells(g1);
    var k := ComputerMoveSpec(g1, normal, draw);
    assert k in EmptyCells(g1);
    var g2 := Place(g1, last, Computer);
    forall i | 0 <= i < 9 ensures g2[i] != Empty {
      assert CellAt(i) == last || CellAt(i) !in EmptyCells(g1);
    }
    FullBoard(g2);
  }

  /** As written, a computer line completed by the reply outranks a human line
      completed by the click: the game ends on "You Lose!" with both lines on
      the board, unless the board is then full. */
  lemma ComputerLineOverwritesHumanWin(st: TurnState, c: Cell, normal: bool, draw: nat)
    requires c.OnBoard() && !st.gameOver && st.grid[c.Index()] == Empty
    requires Wins(Place(st.grid, c, Human), Human)
    requires Wins(ComputerMove(Place(st.grid, c, Human), normal, draw), Computer)
    requires EmptyCells(ComputerMove(Place(st.grid, c, Human), normal, draw)) != []
    ensures var r := ResolveClick(st, c, normal, draw);
      && r == TurnState(ComputerMove(Place(st.grid, c, Human), normal, draw), true, YouLose)
      && Wins(r.grid, Human) && Wins(r.grid, Computer)
  {
    var g1 := Place(st.grid, c, Human);
    var k := ComputerMoveSpec(g1, normal, draw);
    PlaceKeepsOtherWins(g1, k, Computer, Human);
  }

  /** On normal difficulty the computer marks the empty cell at the draw's
      position, modulo their number, in row-major order. */
  lemma NormalMoveByDraw(g: Grid, draw: nat)
    requires EmptyCells(g) != []
    ensures var cells := EmptyCells(g);
      cells[draw % |cells|].OnBoard() && ComputerMove(g, true, draw) == Place(g, cells[draw % |cells|], Computer)
  {
    EmptyCellsSpec(g);
    assert EmptyCells(g)[draw % |EmptyCells(g)|] in EmptyCells(g);
  }

  // Each of the three quirks happens from a consistent position.

  /** Human to play (0, 1), the last free cell, which completes the top row. */
  const LastCellBefore: Grid := [Human, Empty, Human, Computer, Computer, Human, Human, Computer, Computer]
  const LastCellAfter: Grid := [Human, Human, Human, Computer, Computer, Human, Human, Computer, Computer]

  lemma LastCellBeforeLines()
    ensures !Wins(LastCellBefore, Human) && !Wins(LastCellBefore, Computer)
  {
    WinsByLines(LastCellBefore, Human);
    WinsByLines(LastCellBefore, Computer);
  }

  lemma LastCellBeforeCells()
    ensures EmptyCells(LastCellBefore) == [Cell(0, 1)]
  {
    OneEmptyCell(LastCellBefore, Cell(0, 1));
  }

  lemma LastCellBeforeCounts()
    ensures Count(LastCellBefore, Human) == 4 && Count(LastCellBefore, Computer) == 4
  {
  }

  lemma LastCellBeforeInPlay()
    ensures InPlay(LastCellBefore, true)
  {
    LastCellBeforeLines();
    LastCellBeforeCells();
    LastCellBeforeCounts();
  }

  lemma LastCellAfterFacts()
    ensures Wins(LastCellAfter, Human) && !Wins(LastCellAfter, Computer) && EmptyCells(LastCellAfter) == []
  {
    assert Complete(LastCellAfter, Human, 0);
    WinsByLines(LastCellAfter, Computer);
  }

  lemma LastCellMove()
    ensures Place(LastCellBefore, Cell(0, 1), Human) == LastCellAfter
  {
  }

  lemma HumanWinOnLastCellShowsTie(st: TurnState, normal: bool, draw: nat)
    requires st == TurnState(LastCellBefore, false, InGame)
    ensures Consistent(st, true)
    ensures ResolveClick(st, Cell(0, 1), normal, draw) == TurnState(LastCellAfter, true, GameTied)
    ensures Wins(LastCellAfter, Human) && !Wins(LastCellAfter, Computer)
  {
    LastCellBeforeInPlay();
    LastCellAfterFacts();
    LastCellMove();
    LastCellClickShowsTie(st, Cell(0, 1), normal, draw);
  }

  /** The computer went first; the human marks (2, 2) and the computer's only
      free cell, (0, 2), completes its top row. */
  const LastReplyBefore: Grid := [Computer, Computer, Empty, Human, Human, Computer, Computer, Human, Empty]
  const LastReplyMiddle: Grid := [Computer, Computer, Empty, Human, Human, Computer, Computer, Human, Human]
  const LastReplyAfter: Grid := [Computer, Computer, Computer, Human, Human, Computer, Computer, Human, Human]

  lemma LastReplyBeforeLines()
    ensures !Wins(LastReplyBefore, Human) && !Wins(LastReplyBefore, Computer)
  {
    WinsByLines(LastReplyBefore, Human);
    WinsByLines(LastReplyBefore, Computer);
  }

  lemma LastReplyBeforeCells()
    ensures EmptyCells(LastReplyBefore) != []
  {
    EmptyCellsSpec(LastReplyBefore);
    assert Cell(0, 2) in EmptyCells(LastReplyBefore);
  }

  lemma LastReplyBeforeCounts()
    ensures Count(LastReplyBefore, Human) == 3 && Count(LastReplyBefore, Computer) == 4
  {
  }

  lemma LastReplyBeforeInPlay()
    ensures InPlay(LastReplyBefore, false)
  {
    LastReplyBeforeLines();
    LastReplyBeforeCells();
    LastReplyBeforeCounts();
  }

  lemma LastReplyMiddleCells()
    ensures EmptyCells(LastReplyMiddle) == [Cell(0, 2)]
  {
    OneEmptyCell(LastReplyMiddle, Cell(0, 2));
  }

  lemma LastReplyAfterLines()
    ensures Wins(LastReplyAfter, Computer) && !Wins(LastReplyAfter, Human)
  {
    assert Complete(LastReplyAfter, Computer, 0);
    WinsByLines(LastReplyAfter, Human);
  }

  lemma LastReplyMoves()
    ensures Place(LastReplyBefore, Cell(2, 2), Human) == LastReplyMiddle
    ensures Place(LastReplyMiddle, Cell(0, 2), Computer) == LastReplyAfter
  {
  }

  lemma ComputerWinOnLastCellShowsTie(st: TurnState, normal: bool, draw: nat)
    requires st == TurnState(LastReplyBefore, false, InGame)
    ensures Consistent(st, false)
    ensures ResolveClick(st, Cell(2, 2), normal, draw) == TurnState(LastReplyAfter, true, GameTied)
    ensures Wins(LastReplyAfter, Computer) && !Wins(LastReplyAfter, Human)
  {
    LastReplyBeforeInPlay();
    LastReplyMoves();
    LastReplyMiddleCells();
    LastReplyShowsTie(st, Cell(2, 2), normal, draw, Cell(0, 2));
    LastReplyAfterLines();
  }

  /** Human to play (0, 2), completing the top row, while the computer holds
      two cells of the middle row whose third cell, (1, 2), is free. */
  const DoubleLineBefore: Grid := [Human, Human, Empty, Computer, Computer, Empty, Human, Empty, Computer]
  const DoubleLineMiddle: Grid := [Human, Human, Human, Computer, Computer, Empty, Human, Empty, Computer]
  const DoubleLineAfter: Grid := [Human, Human, Human, Computer, Computer, Computer, Human, Empty, Computer]

  lemma DoubleLineBeforeLines()
    ensures !Wins(DoubleLineBefore, Human) && !Wins(DoubleLineBefore, Computer)
  {
    WinsByLines(DoubleLineBefore, Human);
    WinsByLines(DoubleLineBefore, Computer);
  }

  lemma DoubleLineBeforeCells()
    ensures EmptyCells(DoubleLineBefore) != []
  {
    EmptyCellsSpec(DoubleLineBefore);
    assert Cell(0, 2) in EmptyCells(DoubleLineBefore);
  }

  lemma DoubleLineBeforeCounts()
    ensures Count(DoubleLineBefore, Human) == 3 && Count(DoubleLineBefore, Computer) == 3
  {
  }

  lemma DoubleLineBeforeInPlay()
    ensures InPlay(DoubleLineBefore, true)
  {
    DoubleLineBeforeLines();
    DoubleLineBeforeCells();
    DoubleLineBeforeCounts();
  }

  lemma DoubleLineMiddleLines()
    ensures Wins(DoubleLineMiddle, Human)
  {
    assert Complete(DoubleLineMiddle, Human, 0);
  }

  lemma DoubleLineMiddleCells()
    ensures EmptyCells(DoubleLineMiddle) == [Cell(1, 2), Cell(2, 1)]
  {
    TwoEmptyCells(DoubleLineMiddle, Cell(1, 2), Cell(2, 1));
  }

  lemma DoubleLineAfterFacts()
    ensures Wins(DoubleLineAfter, Human) && Wins(DoubleLineAfter, Computer) && EmptyCells(DoubleLineAfter) != []
  {
    assert Complete(DoubleLineAfter, Human, 0);
    assert Complete(DoubleLineAfter, Computer, 1);
    EmptyCellsSpec(DoubleLineAfter);
    assert Cell(2, 1) in EmptyCells(DoubleLineAfter);
  }

  lemma DoubleLineMoves()
    ensures Place(DoubleLineBefore, Cell(0, 2), Human) == DoubleLineMiddle
    ensures Place(DoubleLineMiddle, Cell(1, 2), Computer) == DoubleLineAfter
  {
  }

  lemma DoubleLineReply(draw: nat)
    requires draw % 2 == 0
    ensures ComputerMove(DoubleLineMiddle, true, draw) == DoubleLineAfter
  {
    DoubleLineMiddleCells();
    NormalMoveByDraw(DoubleLineMiddle, draw);
    DoubleLineMoves();
  }

  lemma DoubleLineShowsLoss(st: TurnState, draw: nat)
    requires st == TurnState(DoubleLineBefore, false, InGame) && draw % 2 == 0
    ensures Consistent(st, true)
    ensures var r := ResolveClick(st, Cell(0, 2), true, draw);
      r.grid == DoubleLineAfter && r.gameOver && r.message == YouLose
    ensures Wins(DoubleLineAfter, Human) && Wins(DoubleLineAfter, Computer)
  {
    DoubleLineBeforeInPlay();
    DoubleLineMiddleLines();
    DoubleLineAfterFacts();
    DoubleLineMoves();
    DoubleLineReply(draw);
    ComputerLineOverwritesHumanWin(st, Cell(0, 2), true, draw);
  }
}
