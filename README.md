# Tic-tac-toe against the computer: game core

This project models the game core of `TicTacToe.java`, a JavaFX tic-tac-toe
game in which a human plays against the computer, and proves properties of it.

The core consists of:

- the 3x3 board of cell texts;
- the queries on it: `isCellEmpty`, `areEqual`, `winCheck` and `getEmptyCells`;
- the two computer players:
  - *normal*, a random empty cell;
  - *impossible*, the cell chosen by the place-score-undo `minimax` search of
    `ImpossibleDifficulty`;
- the click handler that resolves one turn and sets the game-over flag and
  the status message;
- the option, start, clear and restart steps that set up a game.

It is laid out in four modules, one per concern:

- `Board` (board.dfy) holds the board as a value.
  - `Grid` is nine `Mark`s, `Empty`, `Human` or `Computer`, in row-major
    order.
  - It defines the eight lines, `Wins`, the row-major list of empty cells
    `EmptyCells`, and `Place`.
  - `EmptyGrid`, the cleared board, is given by its type: the grids whose
    nine cells are all empty, of which there is exactly one.
- `Minimax` (minimax.dfy) gives the value the impossible difficulty assigns
  to a board and the move it picks, as pure recursive functions:
  - `MinimaxValue`, `ChildValue` and `BestOf` for the value;
  - `ChoiceFold` and `OptimalChoice` for the move.
  - Lemmas show that the move scores highest, and that it blocks a cell where
    the human would complete a line when the computer has no immediate win
    and blocking does not lose anyway.
- `Turns` (turns.dfy) covers one turn as a function on values.
  - `ComputerMove` is `computerTurn`, and `ResolveClick` is the click handler
    as written, split into its three phases.
  - A `Consistent` invariant holds between clicks: the game-over flag is set
    exactly when a player has a line or the board is full, and a running game
    has one computer mark per human mark, plus the opening one when the
    computer went first.
  - It proves lemmas on the handler's behaviour at the end of a game.
- `TicTacToe` (game.dfy) has the class `Game`.
  - Its fields are the ones the program updates in place: a 9-cell
    `array<Mark>` board, the two symbols, `gameOver`, `normalDifficulty`,
    `playerStarts` and the status message.
  - Its methods mirror the Java methods, loop for loop.
  - Each method is proved against the functions above. For example,
    `MiniMax` returns `MinimaxValue` of the board it was called on and leaves
    the board as it found it. `Click` leaves exactly the state that
    `ResolveClick` computes.

The model follows the code, not the intended game rules, in three places:

- **The computer moves after a human win.** When the human's click completes a
  line and a cell is still free, the computer still moves. The impossible
  difficulty then takes the first free cell.
  - Lemma: `Turns.ComputerMovesAfterHumanWin`.
- **A computer line overwrites a human win.** When the computer's reply also
  completes a line, "You Lose!" replaces "You Win!!".
  - Lemmas: `Turns.ComputerLineOverwritesHumanWin` and
    `Turns.DoubleLineShowsLoss`.
- **A full board always shows "Game Tied!".** The full-board check runs last,
  so "Game Tied!" replaces a win or a loss on the move that fills the board.
  - Lemmas: `Turns.LastCellClickShowsTie`, `Turns.LastReplyShowsTie`,
    `Turns.HumanWinOnLastCellShowsTie` and
    `Turns.ComputerWinOnLastCellShowsTie`.
  - The concrete lemmas start from positions shown to be consistent, so each
    case can arise between two clicks.

A reading of the game as "resolve the human move, then the computer's if the
game is not over" would differ from the code in these three places.

The computer player never runs on a full board as written, because
`computerTurn` tests for an empty cell first. The normal difficulty's `nextInt`
would fail on zero cells, so `Game.NormalDiff` requires a non-empty board.

## Model

| member | source | states |
|---|---|---|
| Board.TextIsFaithful | TicTacToe.java:142-144 | comparing cell texts is comparing marks, in both directions, when the two symbols are distinct and non-empty |
| Board.WinsByLines | TicTacToe.java:106-134 | a mark wins exactly when one of the three rows, three columns or two diagonals is made of it |
| Board.PlaceKeepsOtherWins | TicTacToe.java:169-171 | marking an empty cell for one player neither creates nor removes a line of the other player |
| Board.EmptyCellsBelowSpec | TicTacToe.java:153-158 | after scanning the first n cells the list holds exactly the empty ones among them, in strictly increasing row-major position |
| Board.EmptyCellsSpec | TicTacToe.java:151-161 | the list of empty cells contains a cell iff it is on the board and empty, each once, in row-major order |
| Board.OneEmptyCell | TicTacToe.java:151-161 | a board with exactly one empty cell yields the one-element list of that cell |
| Board.TwoEmptyCells | TicTacToe.java:151-161 | a board with exactly two empty cells yields those two, in row-major order |
| Board.FullBoard | TicTacToe.java:83-86 | the list of empty cells is empty iff no cell is empty |
| Minimax.MinimaxValueRange | TicTacToe.java:245-281 | every minimax score is -10, 0 or 10 |
| Minimax.BestOfRange | TicTacToe.java:255-280 | the running max/min that starts from MIN_VALUE/MAX_VALUE ends on -10, 0 or 10 when at least one move exists |
| Minimax.BestOfIsExtreme | TicTacToe.java:255-280 | the folded Math.max (Math.min) is one of the child scores or the start, and bounds every child score from above (below) |
| Minimax.MinimaxValueSpec | TicTacToe.java:245-281 | human line gives -10, else computer line 10, else full board 0, else the maximum (computer to move) or minimum (human to move) over the moves available, attained by one of them |
| Minimax.ChoiceFoldSpec | TicTacToe.java:220-231 | the strict > update keeps the start move only if no cell beats the start score, and otherwise ends on the first cell of highest score |
| Minimax.OptimalChoiceSpec | TicTacToe.java:215-235 | on a board with a free cell, optimalPlacement marks an empty cell of the highest score, and every earlier empty cell scores strictly less |
| Minimax.OptimalChoiceFindsWin | TicTacToe.java:215-235 | when an immediate computer win exists and the human has no line, the chosen move scores 10 |
| Minimax.OptimalChoiceAfterHumanWin | TicTacToe.java:215-235 | once the human has a line every move scores -10, so optimalPlacement takes the first empty cell |
| Minimax.UnblockedThreatLoses | TicTacToe.java:245-281 | when the human can complete a line at one cell, marking any other empty cell that does not win at once for the computer scores -10 |
| Minimax.OptimalChoiceBlocks | TicTacToe.java:215-235 | when no empty cell wins at once for the computer and the human can complete a line at w, optimalPlacement marks w, unless blocking there loses anyway |
| Turns.ComputerMoveSpec | TicTacToe.java:178-188 | a full board is left alone; otherwise exactly one empty cell becomes the computer's, and on impossible difficulty it is a highest-scoring one |
| Turns.NormalMoveReachesEveryEmptyCell | TicTacToe.java:195-203 | for each empty cell some draw of the generator makes the normal computer mark it |
| Turns.ReplyKeepsHumanLines | TicTacToe.java:178-188 | the computer's reply neither creates nor removes a human line; it leaves a full board alone and otherwise adds exactly one computer mark |
| Turns.PlaceCounts | TicTacToe.java:169-171 | marking an empty cell adds one to that mark's count and leaves the other player's count alone |
| Turns.EmptyGridFacts | TicTacToe.java:299-305 | every cell of the fresh board shows the empty string and neither player has a mark |
| Turns.BlankBoardUndecided | TicTacToe.java:344-350 | a board of empty cells has no line for either player and a free cell |
| Turns.EmptyGridInPlay | TicTacToe.java:299-305 | the fresh board is in play with the human to move: no line, a free cell and no marks |
| Turns.FirstMoveInPlay | TicTacToe.java:331-333 | the computer's opening move leaves no line, a free cell and one computer mark more than human marks |
| Turns.OpeningIsConsistent | TicTacToe.java:296-333 | a new game is consistent whoever goes first: not over, no line, a free cell, and computer marks equal to human marks plus one if the computer opened |
| Turns.ClickPreservesConsistency | TicTacToe.java:64-88 | a click keeps the state consistent: the game-over flag is set exactly when a player has a line or the board is full, and a running game keeps one computer mark per human mark, plus the opening one when the computer went first |
| Turns.ComputerMovesAfterHumanWin | TicTacToe.java:71-80 | after a winning human click with a free cell left, the game is over with the human line kept and one more computer mark (the first free cell on impossible difficulty) |
| Turns.ComputerLineOverwritesHumanWin | TicTacToe.java:72-80 | if the reply also completes a computer line on a board not yet full, the game ends on "You Lose!" with both lines on the board |
| Turns.LastCellClickShowsTie | TicTacToe.java:71-86 | a click that fills the last free cell ends the game on "Game Tied!", whatever lines it completes |
| Turns.LastReplyShowsTie | TicTacToe.java:76-86 | a click that leaves one free cell makes the computer fill it and ends the game on "Game Tied!" |
| Turns.LastCellBeforeInPlay | TicTacToe.java:64-88 | the position before a human win on the last cell is consistent, with the human to play |
| Turns.HumanWinOnLastCellShowsTie | TicTacToe.java:71-86 | from a consistent position, a click completing the top row on the last cell shows "Game Tied!" though the human has a line |
| Turns.LastReplyBeforeInPlay | TicTacToe.java:64-88 | the position before a computer win on the last cell is consistent, with the computer having opened |
| Turns.ComputerWinOnLastCellShowsTie | TicTacToe.java:76-86 | from a consistent position, a reply completing the computer's top row on the last cell shows "Game Tied!" though the computer has a line |
| Turns.DoubleLineBeforeInPlay | TicTacToe.java:64-88 | the position before the double-line click is consistent, with the human to play |
| Turns.DoubleLineShowsLoss | TicTacToe.java:71-80 | from a consistent position, a human line then a computer line in one turn ends on "You Lose!" with both lines on the board |
| TicTacToe.Game.SymbolsAreFaithful | TicTacToe.java:416-420 | the symbol pairs the program sets are distinct and non-empty, so comparing cell texts is comparing marks |
| TicTacToe.Game.constructor | TicTacToe.java:43-50 | the defaults: human "x" moving first, computer "o", normal difficulty, game not over, empty board |
| TicTacToe.Game.IsCellEmptyIsListed | TicTacToe.java:95-97 | a cell is empty exactly when getEmptyCells lists it |
| TicTacToe.Game.WinCheck | TicTacToe.java:106-134 | returns true iff some row, column or diagonal of the board is made of the given mark |
| TicTacToe.Game.GetEmptyCells | TicTacToe.java:151-161 | returns exactly the empty cells, once each, in row-major order |
| TicTacToe.Game.PlayerTurn | TicTacToe.java:169-171 | the clicked cell becomes the human's and no other cell changes |
| TicTacToe.Game.NormalDiff | TicTacToe.java:195-203 | on a board with a free cell, exactly one empty cell, picked by the draw, becomes the computer's |
| TicTacToe.Game.ComputerTurn | TicTacToe.java:178-188 | a full board is untouched; otherwise the board becomes the computer move of the chosen difficulty |
| TicTacToe.Game.OptimalPlacement | TicTacToe.java:215-235 | after scoring and undoing every empty cell, only the first highest-scoring cell is marked for the computer |
| TicTacToe.Game.MiniMax | TicTacToe.java:245-281 | returns the minimax value of the board it was called on and leaves the board unchanged |
| TicTacToe.Game.ClearBoard | TicTacToe.java:344-350 | every cell ends empty |
| TicTacToe.Game.Click | TicTacToe.java:64-88 | the board, flag and message become the resolution of the click; a click on a marked cell or after the game is over changes nothing |
| TicTacToe.Game.ChooseOptions | TicTacToe.java:414-421 | "Impossible" turns normal difficulty off; "Computer" first swaps the symbols so that "x" always moves first; the symbol/first-player pairing is kept |
| TicTacToe.Game.StartGame | TicTacToe.java:296-333 | the message reads "In Game" and the board is the empty board, or the computer's opening move on it when the computer goes first |
| TicTacToe.Game.Restart | TicTacToe.java:357-365 | all options back to their defaults and every cell empty |

## Left out

- The JavaFX user interface is not modelled: the stage, scenes, panes, fonts,
  buttons, radio buttons and the event wiring of `start`, `preGameOptions` and
  `startGame`. `Game.ChooseOptions` models only the decision logic of the
  "Play Game!" handler. `Game.Click` is the body of the mouse handler, called
  with the clicked cell.
- `restart` ends by calling `preGameOptions`, which only builds a scene. It is
  not modelled.
- `java.util.Random` is not modelled. The generator's output is a `draw`
  parameter, and `nextInt(n)` becomes `draw % n`. Uniformity is not modelled.
  Instead, every empty cell is shown to be reachable by some draw.
- The cells are `Text` objects whose strings are "", "x" or "o". The model
  stores `Mark`s, and `Board.TextIsFaithful` shows that string equality on
  the two distinct symbols and "" is mark equality. `startGame` creates new
  `Text` objects; the model clears the same cells instead, so the identity
  and aliasing of those objects is not modelled.
- The two-dimensional `board[row][col]` is flattened to one 9-cell array,
  indexed `3 * row + col`.
- The `bo` parameter of `winCheck`, `getEmptyCells`, `optimalPlacement` and
  `miniMax` is always the `board` field itself, and `miniMax` ignores it, so
  the methods read the field.
- `Game.NormalDiff` requires a board with a free cell, because `nextInt(0)`
  throws. The exception is not modelled; its only caller checks for a free
  cell first.
- `Game.MiniMax` and `Minimax.MinimaxValue` do not model 32-bit arithmetic.
  `Integer.MIN_VALUE` and `Integer.MAX_VALUE` are constants with their Java
  values, and every score is -10, 0 or 10, so nothing can overflow.
- Minimax.OptimalChoiceFindsWin does not promise that the immediate win is
  taken. The scores carry no depth discount, so a later win scores the same.
  That is the code as written.
- The claim that the impossible difficulty never loses is not proved. Doing
  so would require evaluating the whole game tree, which is too costly to
  prove here.
- Game.Click and Game.StartGame do not state the `Consistent` invariant in
  their contracts. It is proved on the values they are tied to, by
  `Turns.ClickPreservesConsistency` and `Turns.OpeningIsConsistent`.
- Game.Click requires only the nine-cell board, not `Valid()`, and its
  `modifies` clause names only `gameOver`, `message` and the board. This
  states that the symbols and options are left alone.
- The status `Text` is modelled as the `Message` value it shows;
  `Message.Display` gives its string.
