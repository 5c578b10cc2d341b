# Sudoku screen solver: verified model of the solver and the board I/O logic

The program reads a Sudoku board from a screenshot, solves it, and types the
solution back into the on-screen grid. This project models the parts of the
program that are logic rather than image processing or device I/O, and proves
properties of them in Dafny:

- **The constraint solver** (`src/lib.rs`). A `Sudoku` value keeps 27 u32 bit
  masks, one per row, column and 3x3 box. Bit `d` of a slot's mask is set when
  digit `d` is placed in that unit. `solve_sudoku` rebuilds the masks, picks
  the blank cell with the fewest candidates, and tries each accepted digit
  there in place, recursing. `solve` wraps it and returns the board or the
  error "No solution found".
  - Modules: `Boards` (9x9 grids, blank count), `Masks` (bits and slot
    arithmetic), `Rules` (Sudoku rules, validity of a solution), `Solver`.
  - The board is an `array2<int>` changed in place. The masks are the
    `array<bv32>` field of class `Sudoku`.
  - The search is proved sound: a `true` result is a full board that extends
    the input and keeps it consistent. It is also proved complete: a `false`
    result means the input has no solution, and the board is left as it was.
    Termination is proved on the number of blank cells.
- **The typing sequencer** (`type_numbers` in `main.py`, module `Typing`).
  - Keystrokes and delays are appended to an action log.
  - To state what the log achieves, it is replayed against a model of the
    on-screen grid. The model is a 9x9 display with a cursor that starts on
    (0, 0). Typing overwrites the cell under the cursor. An arrow key moves
    the cursor one cell, and the cursor stays put at the grid's edge.
- **The cell slicing and corner order** (`split_boxes` and `get_perspective`
  in `main.py`, module `Vision`).
  - The 81 cells are listed in row-major order and tile the board.
  - The four contour vertices are each paired with their own corner of the
    output image.

## Model

| member | source | states |
|---|---|---|
| Masks.HasOr | src/lib.rs:23-28 | OR-ing `1 << n` into a mask adds digit n and no other digit |
| Masks.BitsDisjoint | src/lib.rs:24 | the masks `1 << n` of different digits 0..9 share no bit |
| Masks.SlotIffUnit | src/lib.rs:25-27 | two cells share one of the 27 slots (row r, column 9+c, box 18+(r/3)*3+c/3) exactly when they share a row, column or 3x3 box |
| Solver.Sudoku.constructor | src/lib.rs:9-21 | after `new`, bit d of slot k is set exactly when d is non-zero and some cell of slot k holds d; blank cells set no bit |
| Solver.Sudoku.Set | src/lib.rs:23-28 | the row, column and box slots of the cell get `old | 1 << num`; the other 24 slots are unchanged |
| Solver.Sudoku.IsValid | src/lib.rs:30-42 | true exactly when the bit of num is clear in every slot containing (row, col) |
| Solver.Sudoku.IsValidIffUnused | src/lib.rs:30-42 | against masks built from a board, num is accepted at (row, col) exactly when no cell in its row, column or box holds num |
| Solver.Sudoku.CountFrom | src/lib.rs:60-67 | the count equals the size of the set of digits in from..9 that `is_valid` accepts |
| Solver.Sudoku.CandidateCount | src/lib.rs:60-67 | the candidate count is at most 9, and it is 0 exactly when no digit 1..9 is accepted |
| Solver.MostConstrained | src/lib.rs:56-75 | count 10 and cell (0,0) exactly when the board has no blank. Otherwise the chosen cell is blank and its count is that cell's candidate count. No blank cell has a smaller count, and every blank cell earlier in row-major order has a larger one (strict `<`, so the first minimum wins) |
| Solver.SolveSudoku | src/lib.rs:53-94 | see the list after this table |
| Solver.TryDigits | src/lib.rs:82-93 | the digit loop has the same guarantees as `solve_sudoku` for the chosen blank cell. It also returns false when every digit already appears in the cell's row, column or box |
| Solver.FailedDigit | src/lib.rs:84-89 | when the recursion with n placed finds no solution, no solution of the board puts n in that cell, so resetting the cell to 0 and moving on loses nothing |
| Solver.ClashedDigit | src/lib.rs:84 | a digit `is_valid` rejects is already in the cell's row, column or box, so no solution puts it there |
| Solver.Solve | src/lib.rs:45-51 | see the list after this table |
| Boards.PlaceDecreasesZeros | src/lib.rs:85-86 | placing a digit in a blank cell removes exactly one blank, so each recursive call has fewer blanks |
| Boards.ZeroCountZeroIffFull | src/lib.rs:77-80 | the blank count is 0 exactly when no cell is 0 |
| Rules.SolutionIsValid | src/lib.rs:45-51 | a full board with digits 1..9 that breaks no rule holds each digit 1..9 exactly once in every row, column and box |
| Typing.TypeRow | main.py:92-105 | the actions emitted for row i are the row's spec: each cell in serpentine order, then `down` and a delay |
| Typing.TypeNumbers | main.py:86-105 | see the list after this table |
| Typing.TypingFillsBoard | main.py:91-105 | replaying the whole log on the grid showing the board as read fills every blank with its solution digit, leaves every clue alone, and ends with the cursor on (8, 8) |
| Typing.CompletedIsSolution | main.py:94-95 | when the solution keeps the clues, the grid ends up showing exactly the solution |
| Typing.CursorBeforeCell | main.py:91-103 | just before the actions for the k-th cell of row i, the cursor is on (i, k) for even i and on (i, 8-k) for odd i |
| Typing.TypedCount | main.py:94-95 | the log types exactly as many digits as the board as read has blanks |
| Typing.MoveCounts | main.py:96-105 | 45 `right`, 36 `left` and 9 `down` presses, and 90 delays |
| Typing.ScriptPaced | main.py:96-105 | every key press is followed at once by a `DELAY` sleep, and every sleep follows a key press |
| Vision.PerspectivePairs | main.py:19-20 | location[0], [1], [2], [3] are paired with (0,0), (0,h), (w,h), (w,0) respectively. Every pair is one of these four |
| Vision.CornersDistinct | main.py:20 | on a non-empty output image the four destination corners are distinct, so each is used once |
| Vision.SidesMapToSides | main.py:19-20 | consecutive vertices of the quadrilateral, the closing pair included, go to corners joined by a side of the output rectangle, never by its diagonal |
| Vision.SplitBoxes | main.py:52-59 | exactly 81 cells. Cell p is horizontal band p / 9 crossed with vertical band p % 9, so the order is row-major |
| Vision.CellsTileBoard | main.py:52-55 | every pixel of a board whose sides are divisible by 9 lies in exactly one cell, the one with index 9*(y / (height/9)) + x / (width/9) |

`Solver.SolveSudoku` guarantees:

- the board stays within 0..9;
- on `true` the board is full and keeps every given cell;
- on `true` a rule-abiding input stays rule-abiding;
- on `false` the board is unchanged and the input has no solution;
- a board without blanks gives `true` and is left unchanged;
- a blank cell with no candidate at all gives `false`.

`Solver.Solve` guarantees:

- `Ok(b)` is a full board that extends the input;
- for a rule-abiding input, `b` is a solution and a valid Sudoku;
- `Err` carries the text "No solution found", and then no solution exists;
- a board without blanks gives `Ok` of the board itself.

`Typing.TypeNumbers` guarantees:

- the log equals the serpentine spec `Script`;
- replaying it fills the board;
- it types one digit per blank;
- it makes 45 `right`, 36 `left` and 9 `down` presses;
- it sleeps 90 times, and every press is followed by a sleep.

## Left out

- `find_board`, `get_numbers`, `main`: contour detection, the digit classifier, the screenshot capture and the hotkey loop are image processing, a neural network and device I/O.
- Vision.PerspectivePairs: only the pairing of points is modelled. `cv2.getPerspectiveTransform` and `warpPerspective` (floating-point resampling) are not. A missing contour (`location` is `None`) crashes in the source and is excluded by requiring four points.
- Vision.SplitBoxes: each cell is modelled as its pixel region. `cv2.resize` to 48x48 and the division by 255 are not modelled. The division of both sides by nine, which the array split demands, is a precondition.
- `print_board`, the `print("sai")` at the end of `type_numbers`, and the Python module glue of `src/lib.rs` are console output and language binding.
- Typing.TypeNumbers: the keyboard and `sleep` calls are recorded in a log, not performed. `str(d)` of a digit is recorded as the digit itself.
- Typing.TypingFillsBoard: the on-screen grid keeps the cursor in place when a move would leave the grid. This is an assumption about the external UI. The source's ninth horizontal move in each row and its final `down` rely on it.
- Solver.SolveSudoku: board values are required to be in 0..9. Rust's `1 << num` on a `u32` overflows for larger values, and the program only ever passes classifier digits.
- Solver.Solve: a board that already breaks the rules is not reported as unsolvable. The source runs the search on it regardless. A full board with duplicate clues comes back `Ok` unchanged, and a partial one may come back `Ok` with the duplicates kept. The model follows the code. It promises a valid Sudoku only for a rule-abiding input, and `Err` only when no solution exists.
- The design of the program describes the contour vertices as top-left, bottom-left, top-right, bottom-right. The code pairs them so that they must be top-left, bottom-left, bottom-right, top-right. The model follows the code.
- The design of the program counts 72 moves within rows for a blank board. The code emits 9 moves per row, 81 in total. The model follows the code: Typing.MoveCounts proves 45 + 36.
