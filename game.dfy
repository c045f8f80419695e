/** The game object: the board of nine cells the window shows, the two
    players' symbols, the flags set by the pre-game options and the status
    message, with the methods that read and update them in place. Each method
    is proved to compute the board values of modules Board, Minimax and Turns. */
module TicTacToe {
  import opened Board
  import opened Minimax
  import opened Turns

  class Game {
    /** The cells, row by row: cell (r, c) is board[3 * r + c]. */
    const board: array<Mark>
    var humanSymbol: string
    var compSymbol: string
    var gameOver: bool
    var normalDifficulty: bool
    var playerStarts: bool
    var message: Message

    /** Nine cells; the human plays "x" and the computer "o" exactly when the
        human goes first. */
    ghost predicate Valid()
      reads this
    {
      && board.Length == 9
      && (humanSymbol, compSymbol) in {("x", "o"), ("o", "x")}
      && (playerStarts <==> humanSymbol == "x")
    }

    /** In a valid game the two symbols are distinct and non-empty, so
        comparing the strings the cells show is comparing their marks. */
    lemma SymbolsAreFaithful()
      requires Valid()
      ensures humanSymbol != compSymbol && humanSymbol != "" && compSymbol != ""
      ensures forall a: Mark, b: Mark :: Text(a, humanSymbol, compSymbol) == Text(b, humanSymbol, compSymbol) <==> a == b
    {
      TextIsFaithful(humanSymbol, compSymbol);
    }

    /** The board as a value. */
    function Cells(): Grid
      reads board
      requires board.Length == 9
    {
      board[..]
    }

    /** What a click can change, as a value. */
    function State(): TurnState
      reads this, board
      requires board.Length == 9
    {
      TurnState(Cells(), gameOver, message)
    }

    /** The defaults: an empty board, the human on "x" and moving first,
        normal difficulty, game not over. */
    constructor ()
      ensures Valid() && fresh(board)
      ensures Cells() == EmptyGrid
      ensures humanSymbol == "x" && compSymbol == "o"
      ensures !gameOver && normalDifficulty && playerStarts && message == InGame
    {
      board := new Mark[9](_ => Empty);
      humanSymbol := "x";
      compSymbol := "o";
      gameOver := false;
      normalDifficulty := true;
      playerStarts := true;
      message := InGame;
    }

    /** The cell at (row, col) shows the empty string. */
    predicate IsCellEmpty(row: int, col: int)
      reads this, board
      requires board.Length == 9 && 0 <= row < 3 && 0 <= col < 3
    {
      board[3 * row + col] == Empty
    }

    /** A cell is empty exactly when getEmptyCells lists it. */
    lemma IsCellEmptyIsListed(row: int, col: int)
      requires board.Length == 9 && 0 <= row < 3 && 0 <= col < 3
      ensures IsCellEmpty(row, col) <==> Cell(row, col) in EmptyCells(Cells())
    {
      EmptyCellsSpec(Cells());
    }

    /** The rows, then the columns, then the two diagonals, each tested as
        "first cell shows m and the next two equal it"; true exactly when some
        line is made of m. */
    method WinCheck(m: Mark) returns (won: bool)
      requires board.Length == 9
      ensures won <==> Wins(Cells(), m)
    {
      ghost var g := Cells();
      for row := 0 to 3
        invariant forall k :: 0 <= k < row ==> !Complete(g, m, k)
      {
        if board[3 * row] == m && AreEqual(board[3 * row], board[3 * row + 1]) && AreEqual(board[3 * row + 1], board[3 * row + 2]) {
          assert Complete(g, m, row);
          return true;
        }
      }
      for col := 0 to 3
        invariant forall k :: 0 <= k < 3 + col ==> !Complete(g, m, k)
      {
        if board[col] == m && AreEqual(board[col], board[3 + col]) && AreEqual(board[3 + col], board[6 + col]) {
          assert Complete(g, m, 3 + col);
          return true;
        }
      }
      if board[0] == m && AreEqual(board[0], board[4]) && AreEqual(board[4], board[8]) {
        assert Complete(g, m, 6);
        return true;
      } else if board[2] == m && AreEqual(board[2], board[4]) && AreEqual(board[4], board[6]) {
        assert Complete(g, m, 7);
        return true;
      }
      assert !Complete(g, m, 6) && !Complete(g, m, 7);
      return false;
    }

    /** The empty cells, scanned row by row and column by column. */
    method GetEmptyCells() returns (cells: seq<Cell>)
      requires board.Length == 9
      ensures cells == EmptyCells(Cells())
    {
      ghost var g := Cells();
      cells := [];
      for row := 0 to 3
        invariant cells == EmptyCellsBelow(g, 3 * row)
      {
        for col := 0 to 3
          invariant cells == EmptyCellsBelow(g, 3 * row + col)
        {
          assert CellAt(3 * row + col) == Cell(row, col);
          if board[3 * row + col] == Empty {
            cells := cells + [Cell(row, col)];
          }
        }
      }
    }

    /** The human's mark on (row, col). */
    method PlayerTurn(row: int, col: int)
      requires board.Length == 9 && 0 <= row < 3 && 0 <= col < 3
      modifies board
      ensures Cells() == Place(old(Cells()), Cell(row, col), Human)
    {
      board[3 * row + col] := Human;
    }

    /** Normal difficulty: the computer's mark on the empty cell at position
        `draw % n` of the n listed, where `draw` stands for the generator. */
    method NormalDiff(draw: nat)
      requires board.Length == 9 && EmptyCells(Cells()) != []
      modifies board
      ensures Cells() == ComputerMove(old(Cells()), true, draw)
    {
      var cells := GetEmptyCells();
      var index := draw % |cells|;
      var rowAndCol := cells[index];
      EmptyCellsSpec(Cells());
      assert rowAndCol in cells;
      board[3 * rowAndCol.row + rowAndCol.col] := Computer;
    }

    /** The computer's turn: nothing on a full board, otherwise the move of
        the chosen difficulty. */
    method ComputerTurn(draw: nat)
      requires board.Length == 9
      modifies board
      ensures Cells() == ComputerMove(old(Cells()), normalDifficulty, draw)
    {
      var cells := GetEmptyCells();
      if |cells| > 0 {
        if normalDifficulty {
          NormalDiff(draw);
        } else {
          OptimalPlacement();
        }
      }
    }

    /** Impossible difficulty: try each empty cell for the computer, score it
        with MiniMax, undo it, keep the first cell of strictly highest score,
        and mark that cell (cell (0, 0) if no cell was kept). */
    method OptimalPlacement()
      requires board.Length == 9
      modifies board
      ensures Cells() == Place(old(Cells()), OptimalChoice(old(Cells())), Computer)
    {
      ghost var g := Cells();
      var emptyCells := GetEmptyCells();
      EmptyCellsAreEmpty(g);
      var bestScore := MinInt;
      var move := Cell(0, 0);
      for i := 0 to |emptyCells|
        invariant Cells() == g && move.OnBoard()
        invariant ChoiceFold(g, emptyCells[i..], bestScore, move) == ChoiceFold(g, emptyCells, MinInt, Cell(0, 0))
      {
        var eCell := emptyCells[i];
        ChoiceFoldStep(g, emptyCells, i, bestScore, move);
        board[3 * eCell.row + eCell.col] := Computer;
        var score := MiniMax(false);
        board[3 * eCell.row + eCell.col] := Empty;
        assert Cells() == g;
        if score > bestScore {
          bestScore := score;
          move := eCell;
        }
      }
      board[3 * move.row + move.col] := Computer;
    }

    /** The score of the board with `isMax` telling whose turn it is: -10 if
        the human has a line, else 10 if the computer has one, else 0 on a full
        board, else the best score over the empty cells for the side to move,
        each tried in place and undone. The board is left as it was. */
    method MiniMax(isMax: bool) returns (score: int)
      requires board.Length == 9
      modifies board
      decreases Count(board[..], Empty)
      ensures Cells() == old(Cells())
      ensures score == MinimaxValue(old(Cells()), isMax)
    {
      var humanWon := WinCheck(Human);
      if humanWon {
        return -10;
      }
      var compWon := WinCheck(Computer);
      if compWon {
        return 10;
      }
      var remainingCells := GetEmptyCells();
      if |remainingCells| == 0 {
        return 0;
      }
      ghost var g := Cells();
      EmptyCellsAreEmpty(g);
      if isMax {
        var bestScore := MinInt;
        for i := 0 to |remainingCells|
          invariant Cells() == g
          invariant BestOf(g, remainingCells[i..], true, bestScore) == BestOf(g, remainingCells, true, MinInt)
        {
          var eCell := remainingCells[i];
          BestOfStep(g, remainingCells, i, true, bestScore);
          board[3 * eCell.row + eCell.col] := Computer;
          assert Cells() == Place(g, eCell, Computer);
          PlaceLeavesFewerEmpty(g, eCell, Computer);
          var s := MiniMax(false);
          assert s == ChildValue(g, eCell, true);
          board[3 * eCell.row + eCell.col] := Empty;
          assert Cells() == g;
          bestScore := Max(s, bestScore);
        }
        return bestScore;
      } else {
        var bestScore := MaxInt;
        for i := 0 to |remainingCells|
          invariant Cells() == g
          invariant BestOf(g, remainingCells[i..], false, bestScore) == BestOf(g, remainingCells, false, MaxInt)
        {
          var eCell := remainingCells[i];
          BestOfStep(g, remainingCells, i, false, bestScore);
          board[3 * eCell.row + eCell.col] := Human;
          assert Cells() == Place(g, eCell, Human);
          PlaceLeavesFewerEmpty(g, eCell, Human);
          var s := MiniMax(true);
          assert s == ChildValue(g, eCell, false);
          board[3 * eCell.row + eCell.col] := Empty;
          assert Cells() == g;
          bestScore := Min(s, bestScore);
        }
        return bestScore;
      }
    }

    /** Every cell back to the empty string. */
    method ClearBoard()
      requires board.Length == 9
      modifies board
      ensures Cells() == EmptyGrid
    {
      for row := 0 to 3
        invariant forall k :: 0 <= k < 3 * row ==> board[k] == Empty
      {
        for col := 0 to 3
          invariant forall k :: 0 <= k < 3 * row + col ==> board[k] == Empty
        {
          board[3 * row + col] := Empty;
        }
      }
    }

    /** The click on (row, col): ignored after the game is over or on a
        marked cell; otherwise the human plays, the computer replies, and the
        flag and message are set as the checks that follow dictate. The
        symbols and options are not touched. */
    method Click(row: int, col: int, draw: nat)
      requires board.Length == 9 && 0 <= row < 3 && 0 <= col < 3
      modifies this`gameOver, this`message, board
      ensures State() == ResolveClick(old(State()), Cell(row, col), normalDifficulty, draw)
      ensures old(gameOver || board[3 * row + col] != Empty) ==> State() == old(State())
    {
      ghost var st := State();
      if gameOver || !IsCellEmpty(row, col) {
        return;
      }
      ResolveClickByPhases(st, Cell(row, col), normalDifficulty, draw);
      PlayerTurn(row, col);
      var humanWon := WinCheck(Human);
      if humanWon {
        gameOver := true;
        message := YouWin;
      }
      ghost var st1 := State();
      assert st1 == HumanPhase(st, Cell(row, col));
      ComputerTurn(draw);
      var compWon := WinCheck(Computer);
      if compWon {
        gameOver := true;
        message := YouLose;
      }
      ghost var st2 := State();
      assert st2 == ComputerPhase(st1, normalDifficulty, draw);
      var cells := GetEmptyCells();
      if |cells| == 0 {
        gameOver := true;
        message := GameTied;
      }
      assert State() == TieCheck(st2);
    }

    /** The options chosen before a game: impossible difficulty turns normal
        difficulty off; the computer going first swaps the symbols, so that
        "x" always moves first. */
    method ChooseOptions(impossible: bool, compFirst: bool)
      requires Valid()
      modifies this
      ensures Valid()
      ensures normalDifficulty == (old(normalDifficulty) && !impossible)
      ensures compFirst ==> !playerStarts && humanSymbol == "o" && compSymbol == "x"
      ensures !compFirst ==> playerStarts == old(playerStarts) && humanSymbol == old(humanSymbol) && compSymbol == old(compSymbol)
      ensures gameOver == old(gameOver) && message == old(message)
    {
      if impossible {
        normalDifficulty := false;
      }
      if compFirst {
        playerStarts := false;
        humanSymbol := "o";
        compSymbol := "x";
      }
    }

    /** A new game: the message reads "In Game", every cell is empty, and the
        computer opens when it goes first. */
    method StartGame(draw: nat)
      requires Valid()
      modifies this`message, board
      ensures Valid()
      ensures Cells() == Opening(playerStarts, normalDifficulty, draw)
      ensures message == InGame && gameOver == old(gameOver)
      ensures humanSymbol == old(humanSymbol) && compSymbol == old(compSymbol)
      ensures normalDifficulty == old(normalDifficulty) && playerStarts == old(playerStarts)
    {
      message := InGame;
      ClearBoard();
      if !playerStarts {
        ComputerTurn(draw);
      }
    }

    /** Back to the defaults and an empty board. */
    method Restart()
      requires Valid()
      modifies this, board
      ensures Valid()
      ensures Cells() == EmptyGrid
      ensures !gameOver && normalDifficulty && playerStarts
      ensures humanSymbol == "x" && compSymbol == "o" && message == old(message)
    {
      gameOver := false;
      normalDifficulty := true;
      playerStarts := true;
      humanSymbol := "x";
      compSymbol := "o";
      ClearBoard();
    }
  }
}
