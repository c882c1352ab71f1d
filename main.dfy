/**
 The game controller of a browser tic-tac-toe game: whose turn it is, whether
 the game is still being played, and the 9-cell board, together with the
 operations that toggle the turn, accept a click on a cell and reset the game.

 The first half of the module states the controller on values (State, Click,
 Reset, Run) and proves the state-machine properties about them; the second
 half is the controller itself, a class whose methods update its fields in
 place and are proved against those functions.
 */
module TicTacToe {

  // ---------------------------------------------------------------------------
  // Data model
  // ---------------------------------------------------------------------------

  /** The player to move (the TURN constants). */
  datatype Turn = Cross | Circle

  /** The content of one board cell (the CELL_VALUE constants: '', 'X', 'O'). */
  datatype CellValue = Empty | X | O

  /** The game status (the GAME_STATUS constants). */
  datatype GameStatus = Playing | Ended | XWin | OWin

  /** What the evaluator says about a board: a status and, for a win, the winning cells. */
  datatype Verdict = Verdict(status: GameStatus, winPositions: seq<int>)

  /**
   The win/draw evaluator checkGameStatus. Its definition is not part of this
   model: it is any function from a board to a verdict.
   */
  type Evaluator = seq<CellValue> -> Verdict

  /** Normal completion, or the Error an operation throws. */
  datatype Outcome = Pass | Fail(error: string)

  /** The board has cells 0..8. */
  const BoardSize: nat := 9

  /** The message of the error thrown by HighlightWinCells. */
  const InvalidWinPositions: string := "Invalid win Positions"

  // ---------------------------------------------------------------------------
  // Turns, marks and the win-cell argument check
  // ---------------------------------------------------------------------------

  /** The turn after toggleTurn: CIRCLE becomes CROSS, anything else becomes CIRCLE. */
  function Toggled(t: Turn): (r: Turn)
    ensures r != t
    ensures t.Cross? <==> r.Circle?
  {
    if t == Circle then Cross else Circle
  }

  lemma ToggledTwice(t: Turn)
    ensures Toggled(Toggled(t)) == t
  {
  }

  /** The mark a player writes into a cell. */
  function Mark(t: Turn): (c: CellValue)
    ensures c != Empty
    ensures c.X? <==> t.Cross?
    ensures c.O? <==> t.Circle?
  {
    if t == Circle then O else X
  }

  /**
   The argument check of highlightWinCells: anything but exactly three
   positions throws. Highlighting the cells themselves is rendering only.
   */
  function HighlightWinCells(winPositions: seq<int>): (r: Outcome)
    ensures r.Pass? <==> |winPositions| == 3
    ensures r.Fail? ==> r.error == InvalidWinPositions
  {
    if |winPositions| != 3 then Fail(InvalidWinPositions) else Pass
  }

  lemma HighlightNothingFails()
    ensures HighlightWinCells([]) == Fail(InvalidWinPositions)
  {
  }

  /** A status that the click handler copies into the game status. */
  predicate IsFinal(status: GameStatus)
  {
    status == Ended || status == XWin || status == OWin
  }

  // ---------------------------------------------------------------------------
  // Counting cells
  // ---------------------------------------------------------------------------

  /** The number of cells holding c. */
  function Count(cells: seq<CellValue>, c: CellValue): (n: nat)
    ensures n <= |cells|
  {
    if cells == [] then 0 else (if cells[0] == c then 1 else 0) + Count(cells[1..], c)
  }

  /** The number of non-empty cells. */
  function Filled(cells: seq<CellValue>): nat
  {
    |cells| - Count(cells, Empty)
  }

  lemma {:induction false} CountUpdate(cells: seq<CellValue>, i: int, v: CellValue, c: CellValue)
    requires 0 <= i < |cells|
    ensures Count(cells[i := v], c)
         == Count(cells, c) - (if cells[i] == c then 1 else 0) + (if v == c then 1 else 0)
  {
    if i > 0 {
      assert cells[i := v][1..] == cells[1..][i - 1 := v];
      CountUpdate(cells[1..], i - 1, v, c);
    } else {
      assert cells[i := v][1..] == cells[1..];
    }
  }

  lemma {:induction false} CountAbsent(cells: seq<CellValue>, c: CellValue)
    requires forall k :: 0 <= k < |cells| ==> cells[k] != c
    ensures Count(cells, c) == 0
  {
    if cells != [] {
      CountAbsent(cells[1..], c);
    }
  }

  // ---------------------------------------------------------------------------
  // The controller on values
  // ---------------------------------------------------------------------------

  /** The three module-level variables currentTurn, gameStatus and cellValues. */
  datatype State = State(turn: Turn, status: GameStatus, cells: seq<CellValue>)

  /** The state when the page loads: CROSS to move, playing, nine empty cells. */
  const Initial: State := State(Cross, Playing, seq(BoardSize, _ => Empty))

  /** A click is handled unless the cell is already taken or the game is over. */
  predicate Accepts(s: State, index: int)
    requires 0 <= index < |s.cells|
  {
    s.cells[index] == Empty && s.status == Playing
  }

  /** The state after handleCellClick on cell index, with evaluator check. */
  function Click(s: State, index: int, check: Evaluator): (t: State)
    requires 0 <= index < |s.cells|
    ensures |t.cells| == |s.cells|
  {
    if !Accepts(s, index) then s
    else
      var cells := s.cells[index := Mark(s.turn)];
      var verdict := check(cells);
      State(Toggled(s.turn), if IsFinal(verdict.status) then verdict.status else s.status, cells)
  }

  /**
   Whether handleCellClick returns normally: it throws exactly when the click
   is accepted, the evaluator reports a win, and the winning positions are
   not three; by then the win is already recorded in the state.
   */
  function ClickOutcome(s: State, index: int, check: Evaluator): (r: Outcome)
    requires 0 <= index < |s.cells|
    ensures r.Fail? ==> Accepts(s, index)
    ensures r.Fail? ==> var t := Click(s, index, check);
                        (t.status == XWin || t.status == OWin) && |check(t.cells).winPositions| != 3
    ensures (Accepts(s, index) && (Click(s, index, check).status == XWin || Click(s, index, check).status == OWin)
             && |check(Click(s, index, check).cells).winPositions| != 3) ==> r.Fail?
  {
    if !Accepts(s, index) then Pass
    else
      var verdict := check(s.cells[index := Mark(s.turn)]);
      if verdict.status == XWin || verdict.status == OWin then HighlightWinCells(verdict.winPositions)
      else Pass
  }

  /** The state after resetGame: every cell emptied, CROSS to move, playing. */
  function Reset(s: State): (t: State)
    ensures t.turn == Cross && t.status == Playing
    ensures |t.cells| == |s.cells|
    ensures forall k :: 0 <= k < |t.cells| ==> t.cells[k] == Empty
  {
    State(Cross, Playing, seq(|s.cells|, _ => Empty))
  }

  /** The user's inputs: a click on one of the cells, or the replay button. */
  datatype Event = CellClick(index: int) | Replay

  predicate ValidEvents(events: seq<Event>)
  {
    forall k :: 0 <= k < |events| && events[k].CellClick? ==> 0 <= events[k].index < BoardSize
  }

  predicate NoReplay(events: seq<Event>)
  {
    forall k :: 0 <= k < |events| ==> events[k].CellClick?
  }

  function Step(s: State, e: Event, check: Evaluator): (t: State)
    requires |s.cells| == BoardSize
    requires e.CellClick? ==> 0 <= e.index < BoardSize
    ensures |t.cells| == BoardSize
  {
    match e
    case CellClick(index) => Click(s, index, check)
    case Replay => Reset(s)
  }

  /** The state after handling the events in order. */
  function Run(s: State, events: seq<Event>, check: Evaluator): (t: State)
    requires |s.cells| == BoardSize
    requires ValidEvents(events)
    ensures |t.cells| == BoardSize
    decreases |events|
  {
    if events == [] then s else Run(Step(s, events[0], check), events[1..], check)
  }

  // ---------------------------------------------------------------------------
  // Properties of one click and of a reset
  // ---------------------------------------------------------------------------

  /** A click on a taken cell, or any click once the game is over, changes nothing. */
  lemma ClickRejected(s: State, index: int, check: Evaluator)
    requires 0 <= index < |s.cells|
    requires s.cells[index] != Empty || s.status != Playing
    ensures Click(s, index, check) == s
    ensures ClickOutcome(s, index, check) == Pass
  {
  }

  /** An accepted click writes the mover's mark into the clicked cell and nowhere else. */
  lemma ClickWritesOneCell(s: State, index: int, check: Evaluator)
    requires 0 <= index < |s.cells|
    requires Accepts(s, index)
    ensures var t := Click(s, index, check);
            |t.cells| == |s.cells| && t.cells[index] == Mark(s.turn)
            && forall k :: 0 <= k < |s.cells| && k != index ==> t.cells[k] == s.cells[k]
  {
  }

  /** An accepted click hands the turn to the other player. */
  lemma ClickTogglesTurn(s: State, index: int, check: Evaluator)
    requires 0 <= index < |s.cells|
    requires Accepts(s, index)
    ensures Click(s, index, check).turn == Toggled(s.turn) != s.turn
  {
  }

  /**
   After an accepted click the status is the evaluator's verdict on the new
   board when that verdict is ENDED, X_WIN or O_WIN, and PLAYING otherwise.
   */
  lemma ClickStatus(s: State, index: int, check: Evaluator)
    requires 0 <= index < |s.cells|
    requires Accepts(s, index)
    ensures var t := Click(s, index, check);
            var v := check(t.cells).status;
            (IsFinal(v) ==> t.status == v) && (!IsFinal(v) ==> t.status == Playing)
  {
  }

  /** Every accepted click fills exactly one more cell; a rejected one fills none. */
  lemma ClickFillsOne(s: State, index: int, check: Evaluator)
    requires 0 <= index < |s.cells|
    ensures Filled(Click(s, index, check).cells)
         == Filled(s.cells) + (if Accepts(s, index) then 1 else 0)
  {
    if Accepts(s, index) {
      CountUpdate(s.cells, index, Mark(s.turn), Empty);
    }
  }

  /** A click never empties a cell nor overwrites a mark. */
  lemma ClickKeepsMarks(s: State, index: int, check: Evaluator, k: int)
    requires 0 <= index < |s.cells|
    requires 0 <= k < |s.cells| && s.cells[k] != Empty
    ensures Click(s, index, check).cells[k] == s.cells[k]
  {
  }

  /** After a reset the state of a 9-cell board is the initial state. */
  lemma ResetIsInitial(s: State)
    requires |s.cells| == BoardSize
    ensures Reset(s) == Initial
  {
  }

  // ---------------------------------------------------------------------------
  // Alternation of turns: the mark balance
  // ---------------------------------------------------------------------------

  /**
   With CROSS to move there are as many X marks as O marks; with CIRCLE to
   move there is one X more.
   */
  predicate Balanced(s: State)
  {
    (s.turn == Cross && Count(s.cells, X) == Count(s.cells, O))
    || (s.turn == Circle && Count(s.cells, X) == Count(s.cells, O) + 1)
  }

  lemma ResetBalanced(s: State)
    ensures Balanced(Reset(s))
  {
    CountAbsent(Reset(s).cells, X);
    CountAbsent(Reset(s).cells, O);
  }

  lemma InitialBalanced()
    ensures Balanced(Initial)
  {
    ResetBalanced(Initial);
  }

  lemma ClickBalanced(s: State, index: int, check: Evaluator)
    requires 0 <= index < |s.cells|
    requires Balanced(s)
    ensures Balanced(Click(s, index, check))
  {
    if Accepts(s, index) {
      CountUpdate(s.cells, index, Mark(s.turn), X);
      CountUpdate(s.cells, index, Mark(s.turn), O);
    }
  }

  lemma {:induction false} RunBalanced(s: State, events: seq<Event>, check: Evaluator)
    requires |s.cells| == BoardSize
    requires ValidEvents(events)
    requires Balanced(s)
    ensures Balanced(Run(s, events, check))
    decreases |events|
  {
    if events != [] {
      match events[0] {
        case CellClick(index) => ClickBalanced(s, index, check);
        case Replay => ResetBalanced(s);
      }
      assert ValidEvents(events[1..]);
      RunBalanced(Step(s, events[0], check), events[1..], check);
    }
  }

  /**
   From the initial state, whatever the clicks and replays, X has as many
   marks as O or exactly one more, and CROSS is to move exactly when the
   counts are equal.
   */
  lemma MarkBalance(events: seq<Event>, check: Evaluator)
    requires ValidEvents(events)
    ensures var t := Run(Initial, events, check);
            Count(t.cells, X) == Count(t.cells, O) || Count(t.cells, X) == Count(t.cells, O) + 1
    ensures var t := Run(Initial, events, check);
            t.turn == Cross <==> Count(t.cells, X) == Count(t.cells, O)
  {
    InitialBalanced();
    RunBalanced(Initial, events, check);
  }

  // ---------------------------------------------------------------------------
  // Runs of clicks without a reset
  // ---------------------------------------------------------------------------

  /** Once the game is over, no sequence of clicks changes anything. */
  lemma {:induction false} FrozenAfterEnd(s: State, events: seq<Event>, check: Evaluator)
    requires |s.cells| == BoardSize
    requires ValidEvents(events) && NoReplay(events)
    requires s.status != Playing
    ensures Run(s, events, check) == s
    decreases |events|
  {
    if events != [] {
      assert events[0].CellClick?;
      assert ValidEvents(events[1..]) && NoReplay(events[1..]);
      FrozenAfterEnd(s, events[1..], check);
    }
  }

  /** Without a reset, a cell that holds a mark keeps it. */
  lemma {:induction false} NoCellReverts(s: State, events: seq<Event>, check: Evaluator, k: int)
    requires |s.cells| == BoardSize
    requires ValidEvents(events) && NoReplay(events)
    requires 0 <= k < BoardSize && s.cells[k] != Empty
    ensures Run(s, events, check).cells[k] == s.cells[k]
    decreases |events|
  {
    if events != [] {
      assert events[0].CellClick?;
      ClickKeepsMarks(s, events[0].index, check, k);
      assert ValidEvents(events[1..]) && NoReplay(events[1..]);
      NoCellReverts(Step(s, events[0], check), events[1..], check, k);
    }
  }

  /** Without a reset, the number of filled cells never decreases. */
  lemma {:induction false} FilledGrows(s: State, events: seq<Event>, check: Evaluator)
    requires |s.cells| == BoardSize
    requires ValidEvents(events) && NoReplay(events)
    ensures Filled(Run(s, events, check).cells) >= Filled(s.cells)
    decreases |events|
  {
    if events != [] {
      assert events[0].CellClick?;
      ClickFillsOne(s, events[0].index, check);
      assert ValidEvents(events[1..]) && NoReplay(events[1..]);
      FilledGrows(Step(s, events[0], check), events[1..], check);
    }
  }

  // ---------------------------------------------------------------------------
  // The controller
  // ---------------------------------------------------------------------------

  /** The game controller: the module-level variables and the functions that update them. */
  class GameController {
    var currentTurn: Turn
    var gameStatus: GameStatus
    var cellValues: array<CellValue>
    /** The imported evaluator checkGameStatus. */
    const checkGameStatus: Evaluator

    /** The controller's variables as a value. */
    ghost function Snapshot(): State
      reads this, cellValues
    {
      State(currentTurn, gameStatus, cellValues[..])
    }

    /** The board has nine cells and the turn agrees with the mark counts. */
    ghost predicate Valid()
      reads this, cellValues
    {
      cellValues.Length == BoardSize && Balanced(Snapshot())
    }

    constructor (checkGameStatus: Evaluator)
      ensures Valid() && fresh(cellValues)
      ensures Snapshot() == Initial
      ensures this.checkGameStatus == checkGameStatus
    {
      this.checkGameStatus := checkGameStatus;
      currentTurn := Cross;
      gameStatus := Playing;
      cellValues := new CellValue[BoardSize](_ => Empty);
      new;
      assert cellValues[..] == Initial.cells;
      InitialBalanced();
    }

    /** toggleTurn: hand the move to the other player. */
    method ToggleTurn()
      modifies this`currentTurn
      ensures currentTurn == Toggled(old(currentTurn))
    {
      currentTurn := if currentTurn == Circle then Cross else Circle;
    }

    /** updateGameStatus, without the status text it renders. */
    method UpdateGameStatus(newGameStatus: GameStatus)
      modifies this`gameStatus
      ensures gameStatus == newGameStatus
    {
      gameStatus := newGameStatus;
    }

    /**
     handleCellClick: ignore a taken cell or a finished game; otherwise write
     the mover's mark, toggle the turn and record a final verdict.
     */
    method HandleCellClick(index: int) returns (r: Outcome)
      requires Valid()
      requires 0 <= index < BoardSize
      modifies this, cellValues
      ensures Valid() && cellValues == old(cellValues)
      ensures Snapshot() == Click(old(Snapshot()), index, checkGameStatus)
      ensures r == ClickOutcome(old(Snapshot()), index, checkGameStatus)
      ensures old(cellValues[index]) != Empty || old(gameStatus) != Playing ==>
                currentTurn == old(currentTurn) && gameStatus == old(gameStatus)
                && cellValues[..] == old(cellValues[..])
      ensures old(cellValues[index]) == Empty && old(gameStatus) == Playing ==>
                cellValues[..] == old(cellValues[..])[index := Mark(old(currentTurn))]
                && currentTurn == Toggled(old(currentTurn))
    {
      ghost var before := Snapshot();
      var isClicked := cellValues[index] != Empty;
      var isEndGame := gameStatus != Playing;
      if isClicked || isEndGame {
        return Pass;
      }

      cellValues[index] := if currentTurn == Circle then O else X;
      ToggleTurn();

      var game := checkGameStatus(cellValues[..]);
      r := Pass;
      match game.status {
        case Ended =>
          UpdateGameStatus(game.status);
        case XWin =>
          UpdateGameStatus(game.status);
          r := HighlightWinCells(game.winPositions);
        case OWin =>
          UpdateGameStatus(game.status);
          r := HighlightWinCells(game.winPositions);
        case Playing =>
      }
      ClickBalanced(before, index, checkGameStatus);
    }

    /**
     resetGame: back to the initial state on a fresh board of the same size,
     then the final highlightWinCells([]) throws.
     */
    method ResetGame() returns (r: Outcome)
      requires Valid()
      modifies this
      ensures Valid() && fresh(cellValues)
      ensures Snapshot() == Reset(old(Snapshot()))
      ensures Snapshot() == Initial
      ensures r == Fail(InvalidWinPositions)
    {
      ghost var before := Snapshot();
      currentTurn := Cross;
      gameStatus := Playing;
      cellValues := new CellValue[cellValues.Length](_ => Empty);
      UpdateGameStatus(Playing);
      assert cellValues[..] == Reset(before).cells;
      ResetBalanced(before);
      ResetIsInitial(before);
      r := HighlightWinCells([]);
    }
  }
}
