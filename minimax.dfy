/** The value the impossible difficulty assigns to a board, and the move it
    picks, as pure functions over board values. The imperative search in
    TicTacToe.Game is proved to compute exactly these. */
module Minimax {
  import opened Board

  /** Integer.MIN_VALUE and Integer.MAX_VALUE, the starting points of the
      running best score. */
  const MinInt: int := -0x8000_0000
  const MaxInt: int := 0x7fff_ffff

  /** The mark of the side to move: the computer maximises, the human minimises. */
  function Mover(isMax: bool): Mark {
    if isMax then Computer else Human
  }

  function Max(a: int, b: int): int { if a >= b then a else b }
  function Min(a: int, b: int): int { if a <= b then a else b }

  /** Every listed cell is on the board and empty. */
  predicate AllEmpty(g: Grid, cells: seq<Cell>) {
    forall c <- cells :: c.OnBoard() && g[c.Index()] == Empty
  }

  /** The listed empty cells are all empty. */
  lemma EmptyCellsAreEmpty(g: Grid)
    ensures AllEmpty(g, EmptyCells(g))
  {
    EmptyCellsSpec(g);
  }

  /** Score of a board with `isMax` telling whose turn it is: the human's line
      first (-10), then the computer's (+10), then a full board (0); otherwise
      the best child for the side to move, with no discount for depth. */
  function MinimaxValue(g: Grid, isMax: bool): int
    decreases multiset(g)[Empty], 1, 0
  {
    if Wins(g, Human) then -10
    else if Wins(g, Computer) then 10
    else if EmptyCells(g) == [] then 0
    else
      EmptyCellsAreEmpty(g);
      BestOf(g, EmptyCells(g), isMax, if isMax then MinInt else MaxInt)
  }

  /** Score of the board after the side to move marks the empty cell `c`. */
  function ChildValue(g: Grid, c: Cell, isMax: bool): int
    requires c.OnBoard() && g[c.Index()] == Empty
    decreases multiset(g)[Empty], 0, 0
  {
    MinimaxValue(Place(g, c, Mover(isMax)), !isMax)
  }

  /** The running best over `cells`, folded left as the search loop does:
      Math.max for the computer, Math.min for the human. */
  function BestOf(g: Grid, cells: seq<Cell>, isMax: bool, best: int): int
    requires AllEmpty(g, cells)
    decreases multiset(g)[Empty], 0, |cells|
  {
    if cells == [] then best
    else
      var s := ChildValue(g, cells[0], isMax);
      BestOf(g, cells[1..], isMax, if isMax then Max(s, best) else Min(s, best))
  }

  /** One step of the fold from position i of the list, as one loop
      iteration of miniMax takes it. */
  lemma BestOfStep(g: Grid, cells: seq<Cell>, i: int, isMax: bool, best: int)
    requires AllEmpty(g, cells) && 0 <= i < |cells|
    ensures cells[i].OnBoard() && g[cells[i].Index()] == Empty
    ensures var s := ChildValue(g, cells[i], isMax);
      BestOf(g, cells[i..], isMax, best) == BestOf(g, cells[i + 1..], isMax, if isMax then Max(s, best) else Min(s, best))
  {
    assert cells[i] in cells;
    assert cells[i..][1..] == cells[i + 1..];
  }

  /** Every score is a loss, a tie or a win: -10, 0 or 10. */
  lemma {:induction false} MinimaxValueRange(g: Grid, isMax: bool)
    ensures MinimaxValue(g, isMax) in {-10, 0, 10}
    decreases multiset(g)[Empty], 1, 0
  {
    if !Wins(g, Human) && !Wins(g, Computer) && EmptyCells(g) != [] {
      EmptyCellsSpec(g);
      BestOfRange(g, EmptyCells(g), isMax, if isMax then MinInt else MaxInt);
    }
  }

  lemma {:induction false} BestOfRange(g: Grid, cells: seq<Cell>, isMax: bool, best: int)
    requires AllEmpty(g, cells)
    requires best in {-10, 0, 10} || (cells != [] && best == if isMax then MinInt else MaxInt)
    ensures BestOf(g, cells, isMax, best) in {-10, 0, 10}
    decreases multiset(g)[Empty], 0, |cells|
  {
    if cells != [] {
      var s := ChildValue(g, cells[0], isMax);
      MinimaxValueRange(Place(g, cells[0], Mover(isMax)), !isMax);
      BestOfRange(g, cells[1..], isMax, if isMax then Max(s, best) else Min(s, best));
    }
  }

  /** The fold ends on its starting value or on one of the children's scores,
      and bounds the starting value and every child's score from the side of
      the player to move. */
  lemma {:induction false} BestOfIsExtreme(g: Grid, cells: seq<Cell>, isMax: bool, best: int)
    requires AllEmpty(g, cells)
    ensures var r := BestOf(g, cells, isMax, best);
      && (r == best || exists c :: c in cells && r == ChildValue(g, c, isMax))
      && (isMax ==> r >= best && forall c :: c in cells ==> ChildValue(g, c, isMax) <= r)
      && (!isMax ==> r <= best && forall c :: c in cells ==> r <= ChildValue(g, c, isMax))
  {
    if cells != [] {
      var s := ChildValue(g, cells[0], isMax);
      var best' := if isMax then Max(s, best) else Min(s, best);
      BestOfIsExtreme(g, cells[1..], isMax, best');
      var r := BestOf(g, cells, isMax, best);
      assert r == BestOf(g, cells[1..], isMax, best');
      assert cells[0] in cells;
      forall c | c in cells[1..] ensures c in cells {}
      forall c | c in cells ensures c == cells[0] || c in cells[1..] {
        var i :| 0 <= i < |cells| && cells[i] == c;
        if i > 0 { assert cells[1..][i - 1] == c; }
      }
    }
  }

  /** miniMax's value: the three terminal cases in the order they are tested,
      and otherwise the maximum (computer to move) or minimum (human to move)
      of the scores of the moves available. */
  lemma MinimaxValueSpec(g: Grid, isMax: bool)
    ensures Wins(g, Human) ==> MinimaxValue(g, isMax) == -10
    ensures !Wins(g, Human) && Wins(g, Computer) ==> MinimaxValue(g, isMax) == 10
    ensures !Wins(g, Human) && !Wins(g, Computer) && EmptyCells(g) == [] ==> MinimaxValue(g, isMax) == 0
    ensures AllEmpty(g, EmptyCells(g))
    ensures !Wins(g, Human) && !Wins(g, Computer) && EmptyCells(g) != [] ==>
      && (exists c :: c in EmptyCells(g) && MinimaxValue(g, isMax) == ChildValue(g, c, isMax))
      && (isMax ==> forall c :: c in EmptyCells(g) ==> ChildValue(g, c, true) <= MinimaxValue(g, isMax))
      && (!isMax ==> forall c :: c in EmptyCells(g) ==> MinimaxValue(g, isMax) <= ChildValue(g, c, false))
  {
    EmptyCellsSpec(g);
    if !Wins(g, Human) && !Wins(g, Computer) && EmptyCells(g) != [] {
      var cells := EmptyCells(g);
      var init := if isMax then MinInt else MaxInt;
      BestOfIsExtreme(g, cells, isMax, init);
      assert cells[0] in cells;
      MinimaxValueRange(Place(g, cells[0], Mover(isMax)), !isMax);
    }
  }

  // ---------------------------------------------------------------------------
  // The move picked by optimalPlacement

  /** optimalPlacement's loop over `cells`: a cell replaces the current move
      only when its score is strictly higher than the best so far. */
  function ChoiceFold(g: Grid, cells: seq<Cell>, bestScore: int, move: Cell): (r: Cell)
    requires AllEmpty(g, cells) && move.OnBoard()
    ensures r.OnBoard()
  {
    if cells == [] then move
    else
      var s := ChildValue(g, cells[0], true);
      if s > bestScore then ChoiceFold(g, cells[1..], s, cells[0])
      else ChoiceFold(g, cells[1..], bestScore, move)
  }

  /** One step of the fold from position i of the list, as one loop
      iteration of optimalPlacement takes it. */
  lemma ChoiceFoldStep(g: Grid, cells: seq<Cell>, i: int, bestScore: int, move: Cell)
    requires AllEmpty(g, cells) && move.OnBoard() && 0 <= i < |cells|
    ensures cells[i].OnBoard() && g[cells[i].Index()] == Empty
    ensures var s := ChildValue(g, cells[i], true);
      ChoiceFold(g, cells[i..], bestScore, move) ==
        if s > bestScore then ChoiceFold(g, cells[i + 1..], s, cells[i]) else ChoiceFold(g, cells[i + 1..], bestScore, move)
  {
    assert cells[i] in cells;
    assert cells[i..][1..] == cells[i + 1..];
  }

  /** The cell optimalPlacement marks: the fold over the empty cells from
      Integer.MIN_VALUE and the default move (0, 0). */
  function OptimalChoice(g: Grid): (c: Cell)
    ensures c.OnBoard()
  {
    EmptyCellsAreEmpty(g);
    ChoiceFold(g, EmptyCells(g), MinInt, Cell(0, 0))
  }

  /** The fold keeps its starting move (i == -1) only if no cell beats the
      starting score; otherwise it ends on cells[i], the first cell in list
      order whose score is the highest, and that score beats the start. */
  lemma {:induction false} ChoiceFoldSpec(g: Grid, cells: seq<Cell>, bestScore: int, move: Cell) returns (i: int)
    requires AllEmpty(g, cells) && move.OnBoard()
    ensures -1 <= i < |cells|
    ensures i == -1 ==>
      && ChoiceFold(g, cells, bestScore, move) == move
      && (forall j :: 0 <= j < |cells| ==> ChildValue(g, cells[j], true) <= bestScore)
    ensures i >= 0 ==>
      && ChoiceFold(g, cells, bestScore, move) == cells[i]
      && ChildValue(g, cells[i], true) > bestScore
      && (forall j :: 0 <= j < |cells| ==> ChildValue(g, cells[j], true) <= ChildValue(g, cells[i], true))
      && (forall j :: 0 <= j < i ==> ChildValue(g, cells[j], true) < ChildValue(g, cells[i], true))
  {
    if cells == [] {
      return -1;
    }
    var s := ChildValue(g, cells[0], true);
    var tail := cells[1..];
    assert forall j :: 1 <= j < |cells| ==> cells[j] == tail[j - 1];
    if s > bestScore {
      var k := ChoiceFoldSpec(g, tail, s, cells[0]);
      i := if k == -1 then 0 else k + 1;
    } else {
      var k := ChoiceFoldSpec(g, tail, bestScore, move);
      i := if k == -1 then -1 else k + 1;
    }
  }

  /** With an empty cell on the board, optimalPlacement picks an empty cell
      whose score is the highest, and among those the first in row-major
      order. */
  lemma OptimalChoiceSpec(g: Grid)
    requires EmptyCells(g) != []
    ensures var c := OptimalChoice(g);
      && g[c.Index()] == Empty
      && (forall e: Cell :: e.OnBoard() && g[e.Index()] == Empty ==> ChildValue(g, e, true) <= ChildValue(g, c, true))
      && (forall e: Cell :: e.OnBoard() && g[e.Index()] == Empty && e.Index() < c.Index() ==>
            ChildValue(g, e, true) < ChildValue(g, c, true))
  {
    var cells := EmptyCells(g);
    FirstChildBeatsMinInt(g);
    var i := ChoiceFoldSpec(g, cells, MinInt, Cell(0, 0));
    ChoiceFoldMoves(g, cells, MinInt, i);
    ListedIsEmpty(g, i);
    forall e: Cell | e.OnBoard() && g[e.Index()] == Empty
      ensures ChildValue(g, e, true) <= ChildValue(g, cells[i], true)
      ensures e.Index() < cells[i].Index() ==> ChildValue(g, e, true) < ChildValue(g, cells[i], true)
    {
      var j := ListedAt(g, e);
      ListedInOrder(g, j, i);
    }
  }

  /** Every score exceeds Integer.MIN_VALUE, so the first empty cell always
      replaces the default move. */
  lemma FirstChildBeatsMinInt(g: Grid)
    requires EmptyCells(g) != []
    ensures AllEmpty(g, EmptyCells(g)) && ChildValue(g, EmptyCells(g)[0], true) > MinInt
  {
    EmptyCellsSpec(g);
    assert EmptyCells(g)[0] in EmptyCells(g);
    MinimaxValueRange(Place(g, EmptyCells(g)[0], Computer), false);
  }

  /** When the first cell beats the starting score, the fold does not keep
      its starting move. */
  lemma ChoiceFoldMoves(g: Grid, cells: seq<Cell>, bestScore: int, i: int)
    requires cells != [] && AllEmpty(g, cells) && ChildValue(g, cells[0], true) > bestScore
    requires i == -1 ==> forall j :: 0 <= j < |cells| ==> ChildValue(g, cells[j], true) <= bestScore
    ensures i != -1
  {
  }

  /** If a move wins for the computer outright and the human has no line, the
      move picked scores 10 (though, with no discount for depth, it need not
      be that immediate win). */
  lemma OptimalChoiceFindsWin(g: Grid, w: Cell)
    requires !Wins(g, Human)
    requires w.OnBoard() && g[w.Index()] == Empty && Wins(Place(g, w, Computer), Computer)
    ensures var c := OptimalChoice(g); g[c.Index()] == Empty && ChildValue(g, c, true) == 10
  {
    EmptyCellsSpec(g);
    assert w in EmptyCells(g);
    OptimalChoiceSpec(g);
    var c := OptimalChoice(g);
    PlaceKeepsOtherWins(g, w, Computer, Human);
    assert ChildValue(g, w, true) == 10;
    MinimaxValueRange(Place(g, c, Computer), false);
  }

  /** A move that neither wins for the computer nor takes the cell where the
      human would complete a line scores -10: the human completes it next. */
  lemma UnblockedThreatLoses(g: Grid, w: Cell, e: Cell)
    requires !Wins(g, Human)
    requires w.OnBoard() && g[w.Index()] == Empty && Wins(Place(g, w, Human), Human)
    requires e.OnBoard() && g[e.Index()] == Empty && e != w && !Wins(Place(g, e, Computer), Computer)
    ensures ChildValue(g, e, true) == -10
  {
    var g' := Place(g, e, Computer);
    PlaceKeepsOtherWins(g, e, Computer, Human);
    assert e.Index() != w.Index();
    var j := ListedAt(g', w);
    MinimaxValueSpec(g', false);
    assert Place(g', w, Human) == Place(Place(g, w, Human), e, Computer);
    PlaceKeepsOtherWins(Place(g, w, Human), e, Computer, Human);
    assert ChildValue(g', w, false) == -10;
    MinimaxValueRange(g', false);
  }

  /** With no line on the board and no immediate win for the computer, a cell
      where the human would complete a line is blocked: optimalPlacement picks
      it, unless blocking it loses anyway (another threat remains). */
  lemma OptimalChoiceBlocks(g: Grid, w: Cell)
    requires !Wins(g, Human) && !Wins(g, Computer)
    requires w.OnBoard() && g[w.Index()] == Empty && Wins(Place(g, w, Human), Human)
    requires forall e: Cell :: e.OnBoard() && g[e.Index()] == Empty ==> !Wins(Place(g, e, Computer), Computer)
    requires ChildValue(g, w, true) > -10
    ensures OptimalChoice(g) == w
  {
    var j := ListedAt(g, w);
    OptimalChoiceSpec(g);
    var c := OptimalChoice(g);
    if c != w {
      UnblockedThreatLoses(g, w, c);
    }
  }

  /** When the human already has a line, every move scores -10 and
      optimalPlacement falls back to the first empty cell. */
  lemma OptimalChoiceAfterHumanWin(g: Grid)
    requires Wins(g, Human) && EmptyCells(g) != []
    ensures OptimalChoice(g) == EmptyCells(g)[0]
  {
    EmptyCellsSpec(g);
    var cells := EmptyCells(g);
    OptimalChoiceSpec(g);
    var c := OptimalChoice(g);
    assert cells[0] in cells;
    forall e: Cell | e.OnBoard() && g[e.Index()] == Empty
      ensures ChildValue(g, e, true) == -10
    {
      PlaceKeepsOtherWins(g, e, Computer, Human);
    }
  }
}
