# Jumping frogs: the puzzle engine

A Dafny model of the engine behind the "Frogs and Toads" jumping puzzle
(`js/game.js`). The board is an array of `n + 1` cells, with `n` a positive
even number of frogs. Each cell holds either the gap or a frog with an id and a
facing. At the start, right-facing frogs fill cells `0 .. n/2-1`, the gap sits at
`n/2`, and left-facing frogs fill `n/2+1 .. n`. Every frog's id is its starting
cell index. A frog may move into the gap when the gap lies one cell (a step) or
two cells (a jump) ahead in the direction it faces. The game is won when
left-facing frogs fill the lower half and right-facing frogs the upper half. It
is lost when no move is left and the layout is not winning.

`game.dfy` holds one module, `JumpingFrogs`:

- The board layer works on `seq<Cell>`. It has the move rule `IsMoveable`, the
  specification predicates `GapAt`, `CanMove`, `Winning` and `WellFormed` (the
  board invariant), and the lemmas about them.
- The class `Game` owns the board array `gameBoard`, the source's global
  variable. Its constructor fills the array as `initGameBoard` does. `MoveFrog`
  is the only method that changes the array. The other methods are the
  source's read-only scans.

The board invariant `WellFormed` says four things:
- the length is `n + 1` with `n` positive and even;
- there is exactly one gap;
- frog ids are distinct;
- the multiset of cells equals the starting board's, so frogs are neither
  created nor lost, and none ever turns around.

The constructor establishes it, and `MoveFrog` preserves it.

The frog ids follow the code: the left-facing frog in cell `i` gets id `i`. So
the ids are `0 .. n/2-1` and `n/2+1 .. n`, not `0 .. n-1`. The smallest
game (two frogs) cannot be lost. Either outer frog may step first, and the two
mirror-image plays that follow both end in the winning layout
(`TwoFrogsCannotLose`). A game with four frogs can be lost (`FourFrogsDeadEnd`).

## Model

| member | source | states |
|---|---|---|
| `JumpingFrogs.PositiveEven` | js/game.js:42-44 | an accepted frog count is positive and even, so the board has odd length and at least one frog on each side of the middle cell |
| `JumpingFrogs.Game.constructor` | js/game.js:71-85 | for a positive even count `n`, the board has `n+1` cells: `Frog(i, Right)` below `n/2`, the gap at `n/2`, `Frog(i, Left)` above; the board invariant holds |
| `JumpingFrogs.InitialBoardWellFormed` | js/game.js:71-82 | the starting board has exactly one gap (at `n/2`), distinct ids, and satisfies the board invariant |
| `JumpingFrogs.Game.FrogPosition` | js/game.js:93-100 | returns the least index holding a frog with the given id, or None when no cell holds one |
| `JumpingFrogs.Game.EmptyPosition` | js/game.js:108-115 | returns the least index holding the gap, or None when the board has no gap |
| `JumpingFrogs.IsMoveable` | js/game.js:171-187 | true iff `pos` is on the board and holds a frog, and the gap is one or two cells ahead of it (above it for a right-facing frog, below it for a left-facing one); false off the board and at the gap |
| `JumpingFrogs.MoveableNearGap` | js/game.js:156-187 | any position that can move into the gap is one of the four candidates `e-1`, `e-2`, `e+1`, `e+2` |
| `JumpingFrogs.JumpPassesOverFrog` | js/game.js:171-187 | a legal two-cell move always passes over a frog, although the rule never checks the middle cell |
| `JumpingFrogs.Game.HasValidMoves` | js/game.js:156-169 | trying the four candidates around the gap answers true iff some frog anywhere on the board can move into the gap |
| `JumpingFrogs.Game.HasReachedWinningPosition` | js/game.js:189-211 | true iff every cell below `n/2` holds a left-facing frog and every cell above holds a right-facing frog; a gap in either half makes it false |
| `JumpingFrogs.WinningHasNoMoves` | js/game.js:143-211 | on a well-formed winning board the gap is in the middle and no frog can move |
| `JumpingFrogs.Game.HasGameReachedAnEndState` | js/game.js:143-154 | Continue iff a move exists; Win iff no move exists and the layout is winning; Lose iff no move exists and it is not; moreover, Win iff the layout is winning |
| `JumpingFrogs.Game.MoveFrog` | js/game.js:124-141 | reports the frog's old position and the old gap position either way; a legal move puts the frog into the old gap, empties the frog's old cell, and leaves every other cell unchanged; an illegal move or an unknown id leaves the board identical; the board invariant is preserved; returns the end-of-turn outcome of the new board |
| `JumpingFrogs.MovePreservesWellFormed` | js/game.js:133-136 | moving a frog into the gap keeps the multiset of cells and the board invariant, and the vacated cell becomes the only gap |
| `JumpingFrogs.FacingFixed` | js/game.js:71-82 | on every well-formed board, each frog's id is a starting id, and the frog faces the direction it was created with: right iff its id is below `n/2` |
| `JumpingFrogs.EveryFrogPresent` | js/game.js:71-82 | on every well-formed board, every starting id is held by some cell, so `FrogPosition` finds it |
| `JumpingFrogs.InitialBoardCanMove` | js/game.js:71-82 | a fresh game is not over: the right-facing frog at `n/2-1` can step into the gap, and the layout is not winning |
| `JumpingFrogs.TwoFrogsWin` | js/game.js:124-136 | with two frogs, step, jump and step are each legal, and they reach the winning layout `[Frog(2, Left), Gap, Frog(0, Right)]` |
| `JumpingFrogs.TwoFrogsCannotLose` | js/game.js:124-154 | the two-frog start is one of six boards; every legal move from one of them leads to another, and the only one without a legal move is the winning layout, so no two-frog game is lost |
| `JumpingFrogs.FourFrogsDeadEnd` | js/game.js:143-154 | with four frogs, moving frog 1 and then frog 0 are both legal and leave a board with no move that is not winning, so the game is lost |

## Left out

- Page setup, the form handler, `alert` and `location.reload` (js/game.js:25-55) are user-interface plumbing and are left out. Only the positive-even test on the frog count (js/game.js:42-44) is kept, as `PositiveEven`. It is the precondition of the `Game` constructor.
- `startGame`'s show/hide calls (js/game.js:59-69) and every view function (js/game.js:218-312) are DOM rendering and are left out. In `MoveFrog`, the call to `updateGameBoardView` becomes the returned pair `(frogPos, emptyPos)`. The call to `hasGameReachedAnEndState` becomes the returned `Outcome`. The set of movable cells that `applyMoveableStyling` highlights is `IsMoveable` applied to each cell.
- The form value is a string, and JavaScript converts it when the code adds to it or compares it. That conversion is left out: the frog count is a mathematical integer.
- The source keeps the board in a global variable. Here it is the `gameBoard` field of a `Game` object. A new game is a new object (the source reloads the page).
- The JavaScript array starts with empty slots, which compare equal to `null`. The model pre-fills the array with `Gap`, so the cell neither loop writes is the gap.
- `JumpingFrogs.Game.MoveFrog`: on an illegal move or an unknown id, the source's view refresh (js/game.js:138, js/game.js:242-249) styles the still-empty gap cell as a frog and throws on `null`, so the end-state evaluation at js/game.js:140 never runs on that path. The board is unchanged either way, but the `Outcome` the model returns on that path has no counterpart in the source.
- `JumpingFrogs.IsMoveable`: requires that `emptyPos` is the board's only gap. On a board with a second empty cell, the source would read a field of `null` and crash. That crash is not modelled.
- `JumpingFrogs.Game.HasValidMoves`, `JumpingFrogs.Game.HasGameReachedAnEndState`, `JumpingFrogs.Game.MoveFrog`: require the board invariant. Without a gap, the source computes with `undefined`; that is not modelled.
- `JumpingFrogs.Game.HasReachedWinningPosition`: requires an odd board length. On an even-length board the source's loop bounds are fractional; that is not modelled.
- The source returns `undefined` when `frogPosition` or `emptyPosition` finds nothing. The model returns `None`.
