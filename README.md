# tictactoe-rs: the board state machine

A Dafny model of the two-player tic-tac-toe program in `src/main.rs`.
Two modules, following the program's two parts:

- `TicTacToe` (`board.dfy`): the tile marks `X` and `O`, the `Board` object
  with its `turn` counter (a `u8`) and its 3 x 3 grid of `Option<TileState>`
  cells, `Board::new`, `Board::mark`, and the cell enumeration of
  `bounds_iter` and `iter`. The enumeration walks `i` over `0..9` and maps
  it to `(i / 3, i % 3)`.
- `MainLoop` (`game.dfy`): the update part of one frame of the main loop.
  It selects the hovered cell, which is the first cell in row-major order
  that is empty and contains the pointer, and marks that cell when the left
  button went down. It also covers a finite run of frames. Beside them sits
  the game invariant that every frame keeps: `turn` equals the number of
  marked cells, and the X marks equal the O marks or exceed them by one.

`Board` is a class because `mark` updates `states` and `turn` in place.
The enumeration, `iter` and the hovered-cell search are pure functions,
since the source computes them as lazy iterator pipelines. The pointer
test `check_collision_point_rec(mouse_pos)` becomes a predicate
`contains: Cell -> bool` that the caller supplies. The button state
becomes a `clicked: bool`. `Step` and `Steps` restate one frame and a run
of frames as pure transitions on the entries of `iter` and the turn, and
`Frame` and `Run` are proved to follow them.

`TicTacToe.MarkDiagonal` is a worked example that relies only on the
contracts. It marks (0,0), (1,1) and (2,2) on a new board and proves that
they hold X, O and X, that `turn` is 3, and that (0,1) is still empty.

## Model

| member | source | states |
|---|---|---|
| `TicTacToe.CellOf` | src/main.rs:38-39 | step `i` of `0..9` yields a cell whose row and column are both below 3, and whose row-major index `3*row + col` is `i` |
| `TicTacToe.BoundsIter` | src/main.rs:31-50 | the enumeration has exactly 9 entries; entry `i` lies in {0,1,2}² and has row-major index `i` |
| `TicTacToe.CellIndexRoundTrip` | src/main.rs:38-39 | `i ↦ (i/3, i%3)` and `(r, c) ↦ 3r + c` are inverse bijections between 0..9 and {0,1,2}² |
| `TicTacToe.BoundsIterCovers` | src/main.rs:38-39 | every cell `(r, c)` of the grid is yielded, at position `3r + c` |
| `TicTacToe.BoundsIterRowMajor` | src/main.rs:38-39 | earlier entries come strictly before later ones in row-major order, so no cell is yielded twice |
| `TicTacToe.Board.constructor` | src/main.rs:18-24 | a new board has `turn == 0` and all nine cells empty |
| `TicTacToe.Board.Mark` | src/main.rs:26-29 | the cell gets X when the old `turn` is even and O when it is odd; `turn` grows by exactly 1; no other cell changes; the new `iter` is the old one with that one entry replaced |
| `TicTacToe.Board.Iter` | src/main.rs:52-58 | 9 entries in enumeration order, each cell paired with exactly its current state; every cell `(r, c)` appears at position `3r + c` with `states[r, c]` |
| `MainLoop.Hovered` | src/main.rs:75-79 | returns none exactly when no entry is both under the pointer and empty; otherwise it returns the cell of such an entry, and no earlier entry qualifies |
| `MainLoop.CountPartition` | src/main.rs:14 | every cell is empty, X or O, so the empty count plus the marked count is the number of cells |
| `MainLoop.EmptyConsistent` | src/main.rs:18-24 | a grid of empty cells satisfies the game invariant at turn 0 |
| `MainLoop.TurnBounded` | src/main.rs:11 | under the invariant, `turn` is at most the number of cells (9), so the `u8` increment cannot overflow |
| `MainLoop.FullBoardHoversNothing` | src/main.rs:75-79 | once all cells are marked (`turn == 9` under the invariant), no cell is hovered, whatever the pointer |
| `MainLoop.MarkKeepsConsistent` | src/main.rs:26-28 | marking an empty cell with the mark of the current turn keeps the invariant at the next turn |
| `MainLoop.NewGame` | src/main.rs:70 | the board built at program start has all cells empty and `turn == 0`, and satisfies the invariant |
| `MainLoop.HoveredAtIndex` | src/main.rs:75-79 | on the board's entries, the hovered cell `(r, c)` is in range and is the entry at position `3r + c`, which is empty and under the pointer |
| `MainLoop.StepClicked` | src/main.rs:81-85 | a click on a hovered cell `(r, c)` gives the board with exactly entry `3r + c`, which was empty, replaced by the mark of the current turn, and the turn advanced by one |
| `MainLoop.Step` | src/main.rs:75-85 | one frame as a transition: the turn advances by one exactly when the button went down and a cell is hovered, and then exactly one empty entry receives the mark of the old turn; otherwise entries and turn are unchanged; marked entries never change |
| `MainLoop.Steps` | src/main.rs:72-85 | frames applied in order: the turn grows by at most one per frame, never decreases, and marked entries keep their marks |
| `MainLoop.StepKeepsConsistent` | src/main.rs:75-85 | every frame keeps the game invariant |
| `MainLoop.StepsKeepConsistent` | src/main.rs:72-85 | after any finite run of frames the invariant holds and `turn` is at most 9 |
| `MainLoop.Frame` | src/main.rs:73-85 | the board after the frame, read through `iter`, and the new turn are exactly `Step` of the board before; the hovered cell is the `find_map` result before the frame, in range, empty and under the pointer; on a click with a hovered cell exactly that cell gets the mark of the old turn and `turn` grows by 1, otherwise nothing changes; the invariant is kept |
| `MainLoop.Run` | src/main.rs:72-85 | the final board and turn are exactly `Steps` of the initial board over the frames; the invariant holds, `turn` has not decreased and is at most 9, and every cell that was marked before keeps its mark |

## Left out

- The `bounds` rectangle, `FRAC_1_3` and every cell rectangle: this is `f32` geometry. The caller's `contains` predicate stands for the pointer test, so the claim that the nine rectangles tile the bounds without overlap is not modelled.
- Window creation, frame-rate targeting, mouse polling and all drawing, including the colour chosen per state: these are raylib I/O calls.
- The endless `while !rl.window_should_close()` loop itself: `Run` covers any finite prefix of frames.
- TicTacToe.Board.Mark: takes `turn < 255` as a precondition, in place of the overflow of `self.turn += 1` on a `u8` (a panic in a debug build, wrap-around in a release build). `Frame` and `Run` prove that `turn` stays at most 9, so the main loop always meets it.
- TicTacToe.Board.Mark: `row` and `col` are `nat` with a `< 3` precondition instead of `u8`. Out-of-range indices panic in the source, and the main loop only passes cells taken from the enumeration.
- `iter` yields a reference to each cell's state; the model yields the state's value, which is what the hovered-cell search reads.
