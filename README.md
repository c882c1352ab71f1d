# Tic-tac-toe game controller

A Dafny model of the game controller of a browser tic-tac-toe game
(`js/main.js`). The controller keeps three variables: `currentTurn` (whose
move it is, CROSS first), `gameStatus` (PLAYING until the evaluator reports a
draw or a win) and `cellValues` (the nine cells, numbered 0..8 row by row).
A click on a cell is ignored when the cell is taken or the game is over;
otherwise the mover's mark is written, the turn passes to the other player,
and a final verdict of the evaluator (ENDED, X_WIN, O_WIN) becomes the game
status. The replay button resets everything.

The model has two layers, both in module `TicTacToe` (`main.dfy`):

- the controller on values: `State`, and the functions `Click` (one cell
  click), `ClickOutcome` (whether the click handler throws), `Reset` and
  `Run` (a sequence of clicks and replays), with the state-machine
  properties proved about them as lemmas;
- the controller itself: class `GameController`, whose fields are the three
  variables (the board is a 9-element `array`), and whose methods
  `ToggleTurn`, `UpdateGameStatus`, `HandleCellClick` and `ResetGame` update
  them in place. Its invariant `Valid()` says the board has nine cells and the
  mark counts agree with the turn; each method is proved to leave exactly the
  state the value-level function describes.

The win/draw evaluator `checkGameStatus` lives in `js/utils.js`, which is
not part of this model. It is a parameter: any function from a board to a
`Verdict` (a status and the winning positions), fixed when the controller is
created. Every property here holds for every such evaluator.

Exceptions are results: `highlightWinCells` throws unless it is given exactly
three positions, and that is modelled as `Outcome.Fail("Invalid win
Positions")`. The state updates made before the throw stay made, as they do
in the source. In particular `resetGame` always ends by calling
`highlightWinCells([])`, so it always throws, but only after the reset itself
has happened.

The "already clicked" test of the click handler reads the cell's CSS classes.
Those classes are added together with the board write and cleared together
with the board, so the model tests `cellValues[index] != Empty` instead.

## Model

| member | source | states |
|---|---|---|
| TicTacToe.Toggled | js/main.js:23-29 | the toggled turn always differs from the old one: CROSS becomes CIRCLE and CIRCLE becomes CROSS |
| TicTacToe.ToggledTwice | js/main.js:25 | toggling twice gives back the original turn |
| TicTacToe.Mark | js/main.js:76 | the mark written is never empty, and it is X exactly for CROSS and O exactly for CIRCLE |
| TicTacToe.HighlightWinCells | js/main.js:54-57 | the win-cell check passes exactly when it gets three positions and otherwise fails with "Invalid win Positions" |
| TicTacToe.HighlightNothingFails | js/main.js:125 | the call with no positions made at the end of a reset always fails |
| TicTacToe.Click | js/main.js:67-101 | a click keeps the board at the same number of cells |
| TicTacToe.ClickOutcome | js/main.js:91-96 | the click handler throws if and only if the click is accepted, the win is recorded, and the evaluator's winning positions are not three |
| TicTacToe.Reset | js/main.js:112-115 | a reset gives CROSS to move, PLAYING, and a board of the same size with every cell empty |
| TicTacToe.Run | js/main.js:128-154 | a sequence of clicks and replays keeps the board at nine cells |
| TicTacToe.ClickRejected | js/main.js:68-70 | a click on a taken cell, or any click when the game is not PLAYING, leaves turn, status and board unchanged and does not throw |
| TicTacToe.ClickWritesOneCell | js/main.js:73-76 | an accepted click writes the mark of the player who was to move into the clicked cell, leaves every other cell as it was, and keeps the board length |
| TicTacToe.ClickTogglesTurn | js/main.js:76-79 | after an accepted click the turn is the opposite of the turn before it |
| TicTacToe.ClickStatus | js/main.js:82-100 | after an accepted click the status is the evaluator's verdict on the new board when that verdict is ENDED, X_WIN or O_WIN, and stays PLAYING otherwise |
| TicTacToe.ClickFillsOne | js/main.js:76 | an accepted click increases the number of filled cells by exactly one and a rejected click by none |
| TicTacToe.ClickKeepsMarks | js/main.js:68-76 | no click empties a filled cell or replaces its mark |
| TicTacToe.ResetIsInitial | js/main.js:112-121 | resetting a 9-cell state gives exactly the initial state of js/main.js:18-21 |
| TicTacToe.ResetBalanced | js/main.js:113-115 | after a reset the mark counts agree with the turn |
| TicTacToe.InitialBalanced | js/main.js:18-21 | in the initial state the mark counts agree with the turn |
| TicTacToe.ClickBalanced | js/main.js:76-79 | a click keeps the agreement: CROSS to move with equal X and O counts, CIRCLE to move with one X more |
| TicTacToe.RunBalanced | js/main.js:67-126 | any sequence of clicks and replays keeps that agreement |
| TicTacToe.MarkBalance | js/main.js:18-21 | from the initial state, after any clicks and replays, X has as many marks as O or one more, and CROSS is to move exactly when the counts are equal |
| TicTacToe.FrozenAfterEnd | js/main.js:69-70 | once the status is not PLAYING, no sequence of clicks changes turn, status or board |
| TicTacToe.NoCellReverts | js/main.js:68-76 | without a reset, a filled cell keeps its mark through any sequence of clicks |
| TicTacToe.FilledGrows | js/main.js:76 | without a reset, the number of filled cells never decreases |
| TicTacToe.GameController.constructor | js/main.js:18-21 | the controller starts with CROSS to move, PLAYING and nine empty cells |
| TicTacToe.GameController.ToggleTurn | js/main.js:23-29 | only the turn changes, to the toggled turn |
| TicTacToe.GameController.UpdateGameStatus | js/main.js:31-33 | only the status changes, to the given status |
| TicTacToe.GameController.HandleCellClick | js/main.js:67-101 | the board array is updated in place to the state `Click` gives and the result is `ClickOutcome`; a rejected click changes nothing; an accepted one writes the mover's mark at the index and toggles the turn; the mark-count invariant is kept |
| TicTacToe.GameController.ResetGame | js/main.js:112-126 | the controller is back in the initial state on a fresh 9-cell board, and the call then fails with "Invalid win Positions" |

## Left out

- The body of `checkGameStatus` (`js/utils.js` is not part of this model): the evaluator is an arbitrary function parameter.
- The constants module `js/constants.js` is not part of this model: `TURN`, `CELL_VALUE` and `GAME_STATUS` are plain enumerations.
- All DOM work: element selectors, `classList` and `className` edits, the status text, showing and hiding the replay button, highlighting the winning cells (the loop of `highlightWinCells` only adds a CSS class to each cell), and `updateCurrentTurn`, which only renders the turn.
- Event wiring (`initReplayButton`, `initCellElementList`, the start-up function): `Run` stands for the sequence of clicks and replays the listeners deliver; parsing the cell index from `dataset.idx` is replaced by the precondition `0 <= index < 9`.
- The debug `console.log` at start-up and the unused `isGameEnded` variable.
- The `Array.isArray` half of the argument check of `highlightWinCells`: in the model the positions are always a sequence.
- The `winPositions` of a verdict is passed to `highlightWinCells` without checking its values are cell indices; the model, like the source, only checks there are three.
- A thrown error propagates to the browser's event loop, which has no effect on the controller's state; the model returns it as an `Outcome`.
