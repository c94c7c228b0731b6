# Tic-tac-toe minimax engine in Dafny

This project models the game engine of a browser tic-tac-toe game in which a
human (X) plays against the computer (O). The engine has two parts.

The **terminal-state evaluator** (module `Evaluator`) covers three operations:

- `checkWin` tests the eight fixed winning triples.
- `checkTie` tests whether no cell is empty.
- `getGameResult` combines the two, checking in this order: -1 when the human
  has won, +1 when the computer has won, 0 on a full board, and no result
  while play goes on.

The **minimax search** (module `Search`) covers three more:

- `getAvailableMoves` lists the empty cells in ascending order.
- `minimax` scores a board by writing each candidate mark into the shared
  9-cell board, recursing with the other player to move, and clearing the
  cell again.
- `getBestMoveIndex` tries every empty cell in the same way and keeps the
  first one that strictly improves the best score.

The board is a sequence of nine `Cell`s (`Empty | X | O`), in row-major
order, and the two sides are the `Player` values `Human | Ai`. JavaScript's
`null` becomes `Option.None`.

The search appears twice:

- as the pure recursive function `Search.Value`, the game value with a given
  player to move, together with `Search.BestMove`;
- as the methods `Search.Minimax`, `Search.TryMove` and
  `Search.GetBestMoveIndex`, which work in place on an `array<Cell>`.

Each method is proved to return the pure function's result and to hand the
array back exactly as it received it. Termination rests on the number of
empty cells. Placing a mark lowers that number by one (`Search.EmptyCountPlace`).

Two further modules state properties of the model:

- `Symmetry` proves that swapping X and O and the player to move negates the
  game value.
- `Scenarios` works out concrete positions: a drawn full board, and a
  position where the computer picks the first of two winning moves, the one
  that also blocks the human.

Files:

- `wrappers.dfy`: `Option`
- `evaluator.dfy`: `checkWin`, `checkTie`, `getGameResult`
- `search.dfy`: `getAvailableMoves`, `minimax`, `getBestMoveIndex`
- `symmetry.dfy`: the relabelling symmetry
- `scenarios.dfy`: concrete positions

## Model

| member | source | states |
|---|---|---|
| Evaluator.CheckWin | script.js:107-116 | definition: some listed triple has every one of its cells holding the player's mark (its meaning is proved in the next rows) |
| Evaluator.CheckWinUnrolled | script.js:107-116 | a player has won exactly when one of the eight listed triples (rows 012, 345, 678; columns 036, 147, 258; diagonals 048, 246) holds that player's mark in all three cells |
| Evaluator.CheckWinIsGridLine | script.js:107-116 | the listed triples are exactly the lines of the 3x3 grid: a player has won exactly when they fill some row, some column or one of the two diagonals |
| Evaluator.WinningLineIsGridLine | script.js:108-112 | every listed triple is a full row, column or diagonal of the grid |
| Evaluator.GridLineIsWinningLine | script.js:108-114 | every row, column and diagonal of the grid is one of the listed triples |
| Evaluator.CheckTie | script.js:119-121 | the tie check is true exactly when no cell of the board is empty |
| Evaluator.GetGameResult | script.js:93-104 | the result is none, -1, 0 or +1 |
| Evaluator.GameResultCases | script.js:93-104 | -1 exactly when the human owns a line; +1 exactly when the computer does and the human does not; 0 exactly when neither does and the board is full; none exactly when neither does and some cell is empty; a board with a completed line is never reported as a tie |
| Search.AvailableMoves | script.js:63-70 | definition: the empty indices collected left to right, as the accumulator of the `reduce` does (its meaning is proved in the next row) |
| Search.AvailableMovesExact | script.js:63-70 | the available moves are exactly the empty indices, strictly ascending, hence without duplicates |
| Search.AvailableMovesValid | script.js:63-70 | every available move is an index below 9 of an empty cell, and the list is strictly ascending |
| Search.GetAvailableMoves | script.js:63-70 | the one-pass accumulation over the array returns exactly the available moves of its contents |
| Search.InPlayHasMove | script.js:78-89 | when the game result is none, the list of available moves is non-empty, so the maximum and minimum are taken over a non-empty list |
| Search.EmptyCountPlace | script.js:80-81 | marking an empty cell lowers the number of empty cells by exactly one: the measure on which the recursion terminates |
| Search.SeqMax | script.js:86 | the maximum of a non-empty score list is one of its elements and is at least every element |
| Search.SeqMin | script.js:88 | the minimum of a non-empty score list is one of its elements and is at most every element |
| Search.Value | script.js:73-90 | the game value is always -1, 0 or +1 |
| Search.ChildValue | script.js:80-82 | the value after marking an empty cell, with the opponent to move, is -1, 0 or +1 |
| Search.Scores | script.js:79-84 | after n moves the score list has n entries, each in [-1, 1] |
| Search.ScoresAt | script.js:79-84 | the j-th score is the value of the board after the j-th move |
| Search.ValueIsMinimax | script.js:73-90 | on a finished board the value is the game result; otherwise some empty cell attains it and no empty cell does better for the player to move (higher for the computer, lower for the human) |
| Search.Minimax | script.js:73-90 | the in-place search returns the game value of the board it received and leaves the array exactly as it was |
| Search.TryMove | script.js:80-83 | marking a cell, searching and clearing the cell returns that cell's child value and restores the array |
| Search.BestOf | script.js:45-58 | definition: the best score and move after the first n moves, starting from the sentinel and replacing them only on a strict improvement (its meaning is proved in the next row) |
| Search.BestOfIsFirstBest | script.js:45-58 | after trying n moves the loop holds a move exactly when n > 0; that move was tried and its score is the one kept; no tried move scores better for the player; no smaller tried move scores the same |
| Search.BestMove | script.js:43-60 | definition: the move the loop holds after every available move has been scored (its meaning is proved in the rows that follow) |
| Search.BestMoveIsFirstBest | script.js:43-60 | no move is returned exactly when the board is full; otherwise the returned cell is empty, its score is the best among all empty cells, and no smaller empty cell reaches that score |
| Search.BestMoveNoneIffFull | script.js:44-59 | no move is returned exactly when no cell is empty |
| Search.BestMoveBeatsEveryCell | script.js:47-58 | a returned move is an empty cell, no empty cell scores better, and no smaller empty cell scores the same |
| Search.BestMoveAttainsValue | script.js:43-60 | on a board in play a move is returned and its child value equals the board's minimax value, so the chosen move is optimal |
| Search.GetBestMoveIndex | script.js:43-60 | the in-place chooser returns the first best move of the board it received and leaves the array exactly as it was |
| Symmetry.CheckWinRelabel | script.js:107-116 | after swapping X and O, a player has won exactly when the opponent had won before |
| Symmetry.AvailableMovesRelabel | script.js:63-70 | swapping X and O changes neither the available moves nor the tie check |
| Symmetry.PlaceKeepsOpponentLineless | script.js:80-81 | a player's mark never completes a line for the opponent |
| Symmetry.GameResultRelabel | script.js:93-104 | when not both players own a line, swapping X and O negates the game result |
| Symmetry.MaxOfNegated | script.js:85-89 | the maximum of the negated scores is minus the minimum, and the reverse |
| Symmetry.ValueRelabel | script.js:73-90 | when not both players own a line, swapping X and O and the player to move negates the game value |
| Symmetry.ScoresRelabel | script.js:79-84 | on a board still in play, swapping X and O and the player to move negates every score |
| Symmetry.ChildValueRelabel | script.js:80-82 | on a board still in play, swapping X and O and the player to move negates the value after each move |
| Scenarios.FullBoardWithoutLineIsTie | script.js:93-104 | the full board X O X / X O O / O X X, on which nobody owns a line, is a tie |
| Scenarios.BlockingMoveIsChosen | script.js:43-60 | on X X _ / O O _ / _ _ _ with the computer to move, the chosen move is cell 2: both 2 and 5 win, and the strict comparison keeps the first |
| Scenarios.DoubleThreatWins | script.js:73-90 | on X X O / O O _ / _ _ _ with the human to move, the computer wins whatever the human plays |
| Scenarios.HumanReplyLoses | script.js:73-90 | after each human reply in that position, the computer has a winning move |
| Scenarios.ImmediateWin | script.js:73-90 | on a board in play, a computer move that completes a line gives the board value +1 |

## Left out

- DOM wiring is not modelled because it is user interface, not logic. This covers the cell and restart listeners and the `textContent` updates (script.js:7-12, 21, 32).
- `handleCellClick` (script.js:15-40) is not modelled; it is event glue around the core. It calls `getBestMoveIndex` only after the tie check fails. By `Search.BestMoveNoneIffFull`, a move is therefore always returned in play.
- `endGame` and its `alert` (script.js:124-127) are not modelled because they are browser I/O.
- `resetGame` (script.js:130-133) is not modelled. Its only logic is clearing the board, and the rest is DOM.
- The global `board` array shared by the listeners is not modelled. Instead, the array is a parameter of the methods.
- `Search.GetBestMoveIndex`: its starting best score is -2 for the computer and +2 for the human, not -Infinity and +Infinity. Every score lies in [-1, 1], so the first score tried always improves on either value.
- Cells hold `Empty`, `X` and `O` rather than the strings `''`, `'X'` and `'O'`. No other value ever reaches the board.
- The game value from the empty board, and the claim that the computer never loses a full game, are not proved. Both need the whole game tree, which is far beyond what the verifier can unfold.
- `Symmetry.ValueRelabel`: the claim is stated only for boards where not both players own a line. When both do, the human's line is reported first either way, so the result is not negated. Such a board never arises in play.
