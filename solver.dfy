/** The backtracking solver of src/lib.rs: a `Sudoku` value holding the 27
    constraint masks, the most-constrained-cell search `solve_sudoku` that
    fills a 9x9 board in place, and the `solve` wrapper. */
module Solver {
  import opened Boards
  import opened Masks
  import opened Rules

  datatype Result<T> = Ok(value: T) | Err(error: string)

  /** The contents of a 9x9 board array as a digit matrix. */
  function Cells(board: array2<int>): (g: Grid)
    requires board.Length0 == 9 && board.Length1 == 9
    reads board
    ensures IsBoard(g)
    ensures forall i, j :: 0 <= i < 9 && 0 <= j < 9 ==> g[i][j] == board[i, j]
  {
    seq(9, i requires 0 <= i < 9 reads board =>
      seq(9, j requires 0 <= j < 9 reads board => board[i, j]))
  }

  /** Some cell before (i, j) in row-major order, lying in slot k, holds d. */
  ghost predicate Seen(g: Grid, k: int, d: int, i: int, j: int)
    requires IsBoard(g)
  {
    exists a, b :: 0 <= a < 9 && 0 <= b < 9 && (a < i || (a == i && b < j)) &&
      InSlot(k, a, b) && g[a][b] == d
  }

  lemma SeenStep(g: Grid, k: int, d: int, i: int, j: int)
    requires IsBoard(g) && 0 <= i < 9 && 0 <= j < 9
    ensures Seen(g, k, d, i, j + 1) <==> Seen(g, k, d, i, j) || (InSlot(k, i, j) && g[i][j] == d)
  {
    if Seen(g, k, d, i, j + 1) && !(InSlot(k, i, j) && g[i][j] == d) {
      var a, b :| 0 <= a < 9 && 0 <= b < 9 && (a < i || (a == i && b < j + 1)) &&
        InSlot(k, a, b) && g[a][b] == d;
      assert a < i || (a == i && b < j);
    }
  }

  lemma SeenRowDone(g: Grid, k: int, d: int, i: int)
    requires IsBoard(g) && 0 <= i < 9
    ensures Seen(g, k, d, i, 9) <==> Seen(g, k, d, i + 1, 0)
  {
    if Seen(g, k, d, i + 1, 0) {
      var a, b :| 0 <= a < 9 && 0 <= b < 9 && (a < i + 1 || (a == i + 1 && b < 0)) &&
        InSlot(k, a, b) && g[a][b] == d;
      assert a < i || (a == i && b < 9);
    }
  }

  lemma SeenAll(g: Grid, k: int, d: int)
    requires IsBoard(g)
    ensures Seen(g, k, d, 9, 0) <==> Occupied(g, k, d)
  {
    if Occupied(g, k, d) {
      var a, b :| 0 <= a < 9 && 0 <= b < 9 && InSlot(k, a, b) && g[a][b] == d;
      assert a < 9;
    }
  }

  class Sudoku {
    /** One u32 mask per row (slots 0..8), column (9..17) and box (18..26). */
    var constraints: array<bv32>

    ghost predicate Valid()
      reads this
    {
      constraints.Length == 27
    }

    /** The masks record exactly the digits that g places in each slot; blank
        cells contribute no bit. */
    ghost predicate Reflects(g: Grid)
      requires Valid() && IsBoard(g)
      reads this, constraints
    {
      forall k, d :: 0 <= k < 27 && 0 <= d <= 9 ==>
        (Has(constraints[k], d) <==> d != 0 && Occupied(g, k, d))
    }

    /** `Sudoku::new`: start from all-clear masks and set the bit of every
        given digit. */
    constructor (board: array2<int>)
      requires board.Length0 == 9 && board.Length1 == 9 && InRange(Cells(board))
      ensures Valid() && fresh(constraints)
      ensures Reflects(Cells(board))
    {
      constraints := new bv32[27](_ => 0);
      new;
      ghost var g := Cells(board);
      forall k, d | 0 <= k < 27 && 0 <= d <= 9 ensures !Has(constraints[k], d) {
        HasNone(d);
      }
      for i := 0 to 9
        invariant Valid() && fresh(constraints)
        invariant forall k, d :: 0 <= k < 27 && 0 <= d <= 9 ==>
          (Has(constraints[k], d) <==> d != 0 && Seen(g, k, d, i, 0))
      {
        for j := 0 to 9
          invariant Valid() && fresh(constraints)
          invariant forall k, d :: 0 <= k < 27 && 0 <= d <= 9 ==>
            (Has(constraints[k], d) <==> d != 0 && Seen(g, k, d, i, j))
        {
          if board[i, j] != 0 {
            ghost var before := constraints[..];
            Set(i, j, board[i, j]);
            forall k, d | 0 <= k < 27 && 0 <= d <= 9
              ensures Has(constraints[k], d) <==> Has(before[k], d) || (InSlot(k, i, j) && d == g[i][j])
            {
              HasOr(before[k], g[i][j], d);
            }
          }
          forall k, d | 0 <= k < 27 && 0 <= d <= 9
            ensures Has(constraints[k], d) <==> d != 0 && Seen(g, k, d, i, j + 1)
          {
            SeenStep(g, k, d, i, j);
          }
        }
        forall k, d | 0 <= k < 27 && 0 <= d <= 9
          ensures Has(constraints[k], d) <==> d != 0 && Seen(g, k, d, i + 1, 0)
        {
          SeenRowDone(g, k, d, i);
        }
      }
      forall k, d | 0 <= k < 27 && 0 <= d <= 9
        ensures Has(constraints[k], d) <==> d != 0 && Occupied(g, k, d)
      {
        SeenAll(g, k, d);
      }
    }

    /** `set`: OR the bit of num into the row, column and box slots of
        (row, col); the other 24 slots keep their masks. */
    method Set(row: int, col: int, num: int)
      requires Valid() && 0 <= row < 9 && 0 <= col < 9 && 0 <= num <= 9
      modifies constraints
      ensures forall k :: 0 <= k < 27 ==>
        constraints[k] == (if InSlot(k, row, col) then old(constraints[k]) | Bit(num) else old(constraints[k]))
    {
      ghost var before := constraints[..];
      var mask := Bit(num);
      constraints[row] := constraints[row] | mask;
      constraints[9 + col] := constraints[9 + col] | mask;
      constraints[18 + (row / 3) * 3 + col / 3] := constraints[18 + (row / 3) * 3 + col / 3] | mask;
      assert 18 <= BoxSlot(row, col) < 27;
      forall k | 0 <= k < 27
        ensures constraints[k] == (if InSlot(k, row, col) then before[k] | mask else before[k])
      {
        if k == row {
        } else if k == 9 + col {
        } else if k == BoxSlot(row, col) {
        }
      }
    }

    /** `is_valid`: num may go in (row, col) when its bit is clear in every
        slot the cell belongs to. */
    function IsValid(row: int, col: int, num: int): (ok: bool)
      requires Valid() && 0 <= row < 9 && 0 <= col < 9 && 0 <= num <= 9
      reads this, constraints
      ensures ok <==> forall k :: 0 <= k < 27 && InSlot(k, row, col) ==> !Has(constraints[k], num)
    {
      var mask := Bit(num);
      if constraints[row] & mask != 0 then false
      else if constraints[9 + col] & mask != 0 then false
      else if constraints[18 + (row / 3) * 3 + col / 3] & mask != 0 then false
      else true
    }

    /** Against masks that reflect g, num is valid at (row, col) exactly when
        no cell sharing a row, column or box with it holds num. */
    lemma IsValidIffUnused(g: Grid, row: int, col: int, num: int)
      requires Valid() && IsBoard(g) && Reflects(g)
      requires 0 <= row < 9 && 0 <= col < 9 && 1 <= num <= 9
      ensures IsValid(row, col, num) <==> !Taken(g, row, col, num)
    {
      if IsValid(row, col, num) {
        forall a, b | 0 <= a < 9 && 0 <= b < 9 && SameUnit(a, b, row, col)
          ensures g[a][b] != num
        {
          SlotIffUnit(a, b, row, col);
          var k :| 0 <= k < 27 && InSlot(k, a, b) && InSlot(k, row, col);
          assert !Occupied(g, k, num);
        }
      } else {
        var k :| 0 <= k < 27 && InSlot(k, row, col) && Has(constraints[k], num);
        var a, b :| 0 <= a < 9 && 0 <= b < 9 && InSlot(k, a, b) && g[a][b] == num;
        SlotIffUnit(a, b, row, col);
      }
    }

    /** Number of digits in from..9 that `is_valid` accepts at (row, col). */
    function CountFrom(row: int, col: int, from: int): (n: nat)
      requires Valid() && 0 <= row < 9 && 0 <= col < 9 && 1 <= from <= 10
      reads this, constraints
      decreases 10 - from
      ensures n == |set num | from <= num <= 9 && IsValid(row, col, num)|
    {
      if from == 10 then
        0
      else
        var rest := set num | from + 1 <= num <= 9 && IsValid(row, col, num);
        assert (set num | from <= num <= 9 && IsValid(row, col, num)) ==
          rest + (if IsValid(row, col, from) then {from} else {});
        (if IsValid(row, col, from) then 1 else 0) + CountFrom(row, col, from + 1)
    }

    /** The candidate count of (row, col) used by the search: how many of the
        digits 1..9 `is_valid` accepts there. */
    function CandidateCount(row: int, col: int): (n: nat)
      requires Valid() && 0 <= row < 9 && 0 <= col < 9
      reads this, constraints
      ensures n <= 9
      ensures n == 0 <==> forall num :: 1 <= num <= 9 ==> !IsValid(row, col, num)
    {
      CountBounds(row, col);
      CountFrom(row, col, 1)
    }

    lemma CountBounds(row: int, col: int)
      requires Valid() && 0 <= row < 9 && 0 <= col < 9
      ensures CountFrom(row, col, 1) <= 9
      ensures CountFrom(row, col, 1) == 0 <==> forall num :: 1 <= num <= 9 ==> !IsValid(row, col, num)
    {
      var valid := set num | 1 <= num <= 9 && IsValid(row, col, num);
      var digits := {1, 2, 3, 4, 5, 6, 7, 8, 9};
      assert valid <= digits;
      assert |digits| == 9;
      CardinalityMono(valid, digits);
      if exists num :: 1 <= num <= 9 && IsValid(row, col, num) {
        var num :| 1 <= num <= 9 && IsValid(row, col, num);
        assert num in valid;
      }
    }
  }

  lemma CardinalityMono(a: set<int>, b: set<int>)
    requires a <= b
    ensures |a| <= |b|
  {
    assert b == a + (b - a);
  }

  /** Cell (r, c) is blank and every digit 1..9 already appears in its row,
      column or box: no candidate is left for it. */
  ghost predicate Blocked(g: Grid, r: int, c: int)
    requires IsBoard(g) && 0 <= r < 9 && 0 <= c < 9
  {
    g[r][c] == 0 && forall n :: 1 <= n <= 9 ==> Taken(g, r, c, n)
  }

  /** Some cell in the row, column or box of (r, c) holds n. */
  ghost predicate Taken(g: Grid, r: int, c: int, n: int)
    requires IsBoard(g)
  {
    exists a, b :: 0 <= a < 9 && 0 <= b < 9 && SameUnit(a, b, r, c) && g[a][b] == n
  }

  lemma CellsAre(board: array2<int>, g: Grid)
    requires board.Length0 == 9 && board.Length1 == 9 && IsBoard(g)
    requires forall i, j :: 0 <= i < 9 && 0 <= j < 9 ==> board[i, j] == g[i][j]
    ensures Cells(board) == g
  {
    var cells := Cells(board);
    forall i | 0 <= i < 9 ensures cells[i] == g[i] {
    }
  }

  /** The scan that opens `solve_sudoku`: among the blank cells, the first
      one in row-major order whose candidate count is strictly smallest;
      count 10 (and cell (0, 0)) when no cell is blank. */
  method MostConstrained(s: Sudoku, board: array2<int>) returns (minRow: int, minCol: int, minCount: int)
    requires s.Valid() && board.Length0 == 9 && board.Length1 == 9
    ensures 0 <= minRow < 9 && 0 <= minCol < 9
    ensures minCount == 10 <==> Full(Cells(board))
    ensures minCount == 10 ==> minRow == 0 && minCol == 0
    ensures minCount < 10 ==> board[minRow, minCol] == 0 && minCount == s.CandidateCount(minRow, minCol)
    ensures forall r, c :: 0 <= r < 9 && 0 <= c < 9 && board[r, c] == 0 ==>
      minCount <= s.CandidateCount(r, c) &&
      (r < minRow || (r == minRow && c < minCol) ==> minCount < s.CandidateCount(r, c))
  {
    minRow, minCol, minCount := 0, 0, 10;
    for row := 0 to 9
      invariant 0 <= minRow < 9 && 0 <= minCol < 9 && minCount <= 10
      invariant minCount == 10 ==>
        minRow == 0 && minCol == 0 && forall r, c :: 0 <= r < row && 0 <= c < 9 ==> board[r, c] != 0
      invariant minCount < 10 ==>
        minRow < row && board[minRow, minCol] == 0 && minCount == s.CandidateCount(minRow, minCol)
      invariant forall r, c :: 0 <= r < row && 0 <= c < 9 && board[r, c] == 0 ==>
        minCount <= s.CandidateCount(r, c) &&
        (r < minRow || (r == minRow && c < minCol) ==> minCount < s.CandidateCount(r, c))
    {
      for col := 0 to 9
        invariant 0 <= minRow < 9 && 0 <= minCol < 9 && minCount <= 10
        invariant minCount == 10 ==>
          minRow == 0 && minCol == 0 &&
          forall r, c :: 0 <= r < 9 && 0 <= c < 9 && (r < row || (r == row && c < col)) ==> board[r, c] != 0
        invariant minCount < 10 ==>
          (minRow < row || (minRow == row && minCol < col)) &&
          board[minRow, minCol] == 0 && minCount == s.CandidateCount(minRow, minCol)
        invariant forall r, c :: 0 <= r < 9 && 0 <= c < 9 && (r < row || (r == row && c < col)) && board[r, c] == 0 ==>
          minCount <= s.CandidateCount(r, c) &&
          (r < minRow || (r == minRow && c < minCol) ==> minCount < s.CandidateCount(r, c))
      {
        if board[row, col] == 0 {
          var count := s.CandidateCount(row, col);
          if count < minCount {
            minRow, minCol, minCount := row, col, count;
          }
        }
      }
    }
  }

  /** Placing n at a blank cell whose row, column and box do not hold n keeps
      the board rule-abiding. */
  lemma PlaceKeepsConsistent(g: Grid, r: int, c: int, n: int)
    requires IsBoard(g) && Consistent(g) && 0 <= r < 9 && 0 <= c < 9 && n != 0
    requires !Taken(g, r, c, n)
    ensures Consistent(Place(g, r, c, n))
  {
  }

  /** A filled board that extends g with n placed at (r, c), where n was
      free, extends g and keeps it rule-abiding. */
  lemma SolvedAfterPlace(h: Grid, g: Grid, r: int, c: int, n: int)
    requires IsBoard(g) && 0 <= r < 9 && 0 <= c < 9 && g[r][c] == 0 && n != 0
    requires !Taken(g, r, c, n)
    requires IsBoard(h) && Extends(h, Place(g, r, c, n))
    requires Consistent(Place(g, r, c, n)) ==> Consistent(h)
    ensures Extends(h, g)
    ensures Consistent(g) ==> Consistent(h)
  {
    if Consistent(g) {
      PlaceKeepsConsistent(g, r, c, n);
    }
  }

  /** If g with n placed at the blank cell (r, c) has no solution, no
      solution of g puts n there. */
  lemma FailedDigit(g: Grid, r: int, c: int, n: int)
    requires IsBoard(g) && 0 <= r < 9 && 0 <= c < 9 && g[r][c] == 0
    requires forall h :: !IsSolution(h, Place(g, r, c, n))
    ensures forall h :: IsSolution(h, g) ==> h[r][c] != n
  {
    forall h | IsSolution(h, g) ensures h[r][c] != n {
      if h[r][c] == n {
        SolutionKeepsPlaced(h, g, r, c, n);
      }
    }
  }

  lemma SolutionKeepsPlaced(h: Grid, g: Grid, r: int, c: int, n: int)
    requires IsSolution(h, g) && 0 <= r < 9 && 0 <= c < 9 && h[r][c] == n
    ensures IsSolution(h, Place(g, r, c, n))
  {
  }

  /** No solution of g puts n at a blank cell whose row, column or box
      already holds the clue n. */
  lemma ClashedDigit(g: Grid, r: int, c: int, n: int)
    requires IsBoard(g) && 0 <= r < 9 && 0 <= c < 9 && g[r][c] == 0 && n != 0
    requires Taken(g, r, c, n)
    ensures forall h :: IsSolution(h, g) ==> h[r][c] != n
  {
    var a, b :| 0 <= a < 9 && 0 <= b < 9 && SameUnit(a, b, r, c) && g[a][b] == n;
    forall h | IsSolution(h, g) ensures h[r][c] != n {
      assert h[a][b] == n;
    }
  }

  /** A blank cell that no digit 1..9 can fill in any solution leaves g
      without a solution. */
  lemma NoDigitLeft(g: Grid, r: int, c: int)
    requires IsBoard(g) && 0 <= r < 9 && 0 <= c < 9
    requires forall h :: IsSolution(h, g) ==> h[r][c] >= 10
    ensures forall h :: !IsSolution(h, g)
  {
  }

  /** `solve_sudoku`: rebuild the masks, pick the most constrained blank
      cell and try the digits there; a board without blanks is solved. */
  method SolveSudoku(board: array2<int>) returns (solved: bool)
    requires board.Length0 == 9 && board.Length1 == 9 && InRange(Cells(board))
    modifies board
    decreases ZeroCount(Cells(board)), 1
    ensures InRange(Cells(board))
    ensures solved ==> Full(Cells(board)) && Extends(Cells(board), old(Cells(board)))
    ensures solved && Consistent(old(Cells(board))) ==> Consistent(Cells(board))
    ensures !solved ==> Cells(board) == old(Cells(board))
    ensures !solved ==> forall h :: !IsSolution(h, old(Cells(board)))
    ensures Full(old(Cells(board))) ==> solved && Cells(board) == old(Cells(board))
    ensures (exists r, c :: 0 <= r < 9 && 0 <= c < 9 && Blocked(old(Cells(board)), r, c)) ==> !solved
  {
    ghost var start := Cells(board);
    var s := new Sudoku(board);
    var minRow, minCol, minCount := MostConstrained(s, board);
    if minCount == 10 {
      return true;
    }
    if exists r, c :: 0 <= r < 9 && 0 <= c < 9 && Blocked(start, r, c) {
      ghost var r, c :| 0 <= r < 9 && 0 <= c < 9 && Blocked(start, r, c);
      forall n | 1 <= n <= 9 ensures !s.IsValid(r, c, n) {
        s.IsValidIffUnused(start, r, c, n);
      }
      assert minCount == 0;
      forall n | 1 <= n <= 9 ensures Taken(start, minRow, minCol, n) {
        s.IsValidIffUnused(start, minRow, minCol, n);
      }
    }
    solved := TryDigits(s, board, minRow, minCol);
  }

  /** The loop of `solve_sudoku` over the digits 1..9 for the chosen blank
      cell (row, col): place each digit `is_valid` accepts, recurse, and reset
      the cell to 0 when the recursion fails. */
  method TryDigits(s: Sudoku, board: array2<int>, row: int, col: int) returns (solved: bool)
    requires board.Length0 == 9 && board.Length1 == 9 && InRange(Cells(board))
    requires 0 <= row < 9 && 0 <= col < 9 && board[row, col] == 0
    requires s.Valid() && s.Reflects(Cells(board))
    modifies board
    decreases ZeroCount(Cells(board)), 0
    ensures InRange(Cells(board))
    ensures solved ==> Full(Cells(board)) && Extends(Cells(board), old(Cells(board)))
    ensures solved && Consistent(old(Cells(board))) ==> Consistent(Cells(board))
    ensures !solved ==> Cells(board) == old(Cells(board))
    ensures !solved ==> forall h :: !IsSolution(h, old(Cells(board)))
    ensures Blocked(old(Cells(board)), row, col) ==> !solved
  {
    ghost var start := Cells(board);
    solved := false;
    for num := 1 to 10
      modifies board
      invariant Cells(board) == start && !solved
      invariant forall h :: IsSolution(h, start) ==> h[row][col] >= num
    {
      s.IsValidIffUnused(start, row, col, num);
      if s.IsValid(row, col, num) {
        board[row, col] := num;
        ghost var next := Place(start, row, col, num);
        CellsAre(board, next);
        PlaceDecreasesZeros(start, row, col, num);
        solved := SolveSudoku(board);
        if solved {
          SolvedAfterPlace(Cells(board), start, row, col, num);
          return;
        }
        board[row, col] := 0;
        CellsAre(board, start);
        FailedDigit(start, row, col, num);
      } else {
        ClashedDigit(start, row, col, num);
      }
    }
    NoDigitLeft(start, row, col);
  }

  /** `solve`: run the search on a copy of the board; `Ok` with the filled
      board, or the error "No solution found". */
  method Solve(board: Grid) returns (r: Result<Grid>)
    requires InRange(board)
    ensures r.Ok? ==> InRange(r.value) && Full(r.value) && Extends(r.value, board)
    ensures r.Ok? && Consistent(board) ==> IsSolution(r.value, board) && ValidSudoku(r.value)
    ensures r.Err? ==> r.error == "No solution found" && forall h :: !IsSolution(h, board)
    ensures Full(board) ==> r == Ok(board)
  {
    var a := new int[9, 9]((i, j) requires 0 <= i < 9 && 0 <= j < 9 => board[i][j]);
    CellsAre(a, board);
    var solved := SolveSudoku(a);
    if !solved {
      return Err("No solution found");
    }
    r := Ok(Cells(a));
    if Consistent(board) {
      SolutionIsValid(Cells(a));
    }
  }
}
