/** Shared vocabulary for 9x9 Sudoku boards: the digit matrices that both the
    solver and the keystroke sequencer work on. A cell holds 0 for "blank" and
    1..9 for a digit. */
module Boards {

  type Grid = seq<seq<int>>

  /** Nine rows of nine cells. */
  predicate IsBoard(g: Grid)
  {
    |g| == 9 && forall i :: 0 <= i < 9 ==> |g[i]| == 9
  }

  /** Every cell holds 0 (blank) or a digit 1..9. */
  predicate InRange(g: Grid)
  {
    IsBoard(g) && forall i, j :: 0 <= i < 9 && 0 <= j < 9 ==> 0 <= g[i][j] <= 9
  }

  /** No cell is blank. */
  predicate Full(g: Grid)
    requires IsBoard(g)
  {
    forall i, j :: 0 <= i < 9 && 0 <= j < 9 ==> g[i][j] != 0
  }

  /** g keeps every given (non-zero) cell of b. */
  predicate Extends(g: Grid, b: Grid)
    requires IsBoard(g) && IsBoard(b)
  {
    forall i, j :: 0 <= i < 9 && 0 <= j < 9 && b[i][j] != 0 ==> g[i][j] == b[i][j]
  }

  /** g with cell (i, j) replaced by v. */
  function Place(g: Grid, i: int, j: int, v: int): (h: Grid)
    requires IsBoard(g) && 0 <= i < 9 && 0 <= j < 9
    ensures IsBoard(h) && h[i][j] == v
    ensures forall a, b :: 0 <= a < 9 && 0 <= b < 9 && (a != i || b != j) ==> h[a][b] == g[a][b]
  {
    g[i := g[i][j := v]]
  }

  /** Number of blank cells in the first n rows. */
  function ZerosInRows(g: Grid, n: nat): nat
    requires n <= |g|
  {
    if n == 0 then 0 else ZerosInRows(g, n - 1) + multiset(g[n - 1])[0]
  }

  /** Number of blank cells on the board. */
  function ZeroCount(g: Grid): nat
  {
    ZerosInRows(g, |g|)
  }

  /** Filling one blank cell with a digit removes exactly one blank. */
  lemma {:induction false} PlaceDecreasesZeros(g: Grid, i: int, j: int, v: int)
    requires IsBoard(g) && 0 <= i < 9 && 0 <= j < 9 && g[i][j] == 0 && v != 0
    ensures ZeroCount(Place(g, i, j, v)) + 1 == ZeroCount(g)
  {
    var h := Place(g, i, j, v);
    assert multiset(h[i])[0] + 1 == multiset(g[i])[0] by {
      assert h[i] == g[i][j := v];
    }
    ZerosPrefixAfterPlace(g, i, j, v, 9);
  }

  lemma {:induction false} ZerosPrefixAfterPlace(g: Grid, i: int, j: int, v: int, n: nat)
    requires IsBoard(g) && 0 <= i < 9 && 0 <= j < 9 && g[i][j] == 0 && v != 0 && n <= 9
    ensures ZerosInRows(Place(g, i, j, v), n) + (if i < n then 1 else 0) == ZerosInRows(g, n)
  {
    var h := Place(g, i, j, v);
    if n > 0 {
      ZerosPrefixAfterPlace(g, i, j, v, n - 1);
      if n - 1 == i {
        assert h[i] == g[i][j := v];
      } else {
        assert h[n - 1] == g[n - 1];
      }
    }
  }

  /** A board has no blank cell exactly when its blank count is zero. */
  lemma {:induction false} ZeroCountZeroIffFull(g: Grid)
    requires IsBoard(g)
    ensures ZeroCount(g) == 0 <==> Full(g)
  {
    RowZeros(g, 9);
  }

  lemma {:induction false} RowZeros(g: Grid, n: nat)
    requires IsBoard(g) && n <= 9
    ensures ZerosInRows(g, n) == 0 <==> forall i, j :: 0 <= i < n && 0 <= j < 9 ==> g[i][j] != 0
  {
    if n > 0 {
      RowZeros(g, n - 1);
      var row := g[n - 1];
      if multiset(row)[0] == 0 {
        forall j | 0 <= j < 9 ensures row[j] != 0 {
          assert row[j] in multiset(row);
        }
      } else {
        assert 0 in multiset(row);
        var j :| 0 <= j < 9 && row[j] == 0;
        assert g[n - 1][j] == 0;
      }
    }
  }
}
