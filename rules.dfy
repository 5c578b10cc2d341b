/** What a solved Sudoku is: the rules the solver's masks encode. */
module Rules {
  import opened Boards
  import opened Masks

  /** No two distinct cells of a common row, column or box hold the same
      digit (blanks never clash). */
  predicate Consistent(g: Grid)
    requires IsBoard(g)
  {
    forall a, b, r, c ::
      0 <= a < 9 && 0 <= b < 9 && 0 <= r < 9 && 0 <= c < 9 &&
      (a != r || b != c) && SameUnit(a, b, r, c) && g[a][b] != 0
      ==> g[a][b] != g[r][c]
  }

  /** g is a completed, rule-abiding board that keeps every clue of b. */
  predicate IsSolution(g: Grid, b: Grid)
  {
    InRange(g) && IsBoard(b) && Full(g) && Consistent(g) && Extends(g, b)
  }

  /** Some cell of slot k holds digit d. */
  ghost predicate Occupied(g: Grid, k: int, d: int)
    requires IsBoard(g)
  {
    exists a, b :: 0 <= a < 9 && 0 <= b < 9 && InSlot(k, a, b) && g[a][b] == d
  }

  /** The t-th cell of slot k: row k, column k - 9, or box k - 18 read
      left to right, top to bottom. */
  function SlotCell(k: int, t: int): (p: (int, int))
    requires 0 <= k < 27 && 0 <= t < 9
    ensures 0 <= p.0 < 9 && 0 <= p.1 < 9 && InSlot(k, p.0, p.1)
  {
    if k < 9 then (k, t)
    else if k < 18 then (t, k - 9)
    else ((k - 18) / 3 * 3 + t / 3, (k - 18) % 3 * 3 + t % 3)
  }

  /** The nine digits of slot k of g. */
  function Unit(g: Grid, k: int): (u: seq<int>)
    requires IsBoard(g) && 0 <= k < 27
    ensures |u| == 9
  {
    seq(9, t requires 0 <= t < 9 => g[SlotCell(k, t).0][SlotCell(k, t).1])
  }

  /** Every row, column and box holds each of the digits 1..9 exactly once. */
  predicate ValidSudoku(g: Grid)
  {
    IsBoard(g) &&
    forall k :: 0 <= k < 27 ==> multiset(Unit(g, k)) == multiset{1, 2, 3, 4, 5, 6, 7, 8, 9}
  }

  /** Different positions of a slot are different cells. */
  lemma SlotCellsDistinct(k: int, t: int, u: int)
    requires 0 <= k < 27 && 0 <= t < 9 && 0 <= u < 9 && t != u
    ensures SlotCell(k, t) != SlotCell(k, u)
  {
  }

  /** Nine pairwise different values drawn from a nine-element set are that
      set, each once. */
  lemma {:induction false} DistinctCover(u: seq<int>, digits: set<int>)
    requires forall i, j :: 0 <= i < j < |u| ==> u[i] != u[j]
    requires forall i :: 0 <= i < |u| ==> u[i] in digits
    requires |u| == |digits|
    ensures multiset(u) == multiset(digits)
  {
    if |u| > 0 {
      var rest := digits - {u[0]};
      assert u == [u[0]] + u[1..];
      forall i | 0 <= i < |u[1..]| ensures u[1..][i] in rest {
        assert u[1..][i] == u[i + 1] != u[0];
      }
      DistinctCover(u[1..], rest);
      assert digits == rest + {u[0]};
      assert multiset(digits) == multiset(rest) + multiset{u[0]};
    }
  }

  /** A full board that breaks no rule is a valid Sudoku: each unit holds
      the digits 1..9 exactly once. */
  lemma SolutionIsValid(g: Grid)
    requires InRange(g) && Full(g) && Consistent(g)
    ensures ValidSudoku(g)
  {
    var digits := {1, 2, 3, 4, 5, 6, 7, 8, 9};
    forall k | 0 <= k < 27
      ensures multiset(Unit(g, k)) == multiset{1, 2, 3, 4, 5, 6, 7, 8, 9}
    {
      var u := Unit(g, k);
      forall i, j | 0 <= i < j < 9 ensures u[i] != u[j] {
        var p, q := SlotCell(k, i), SlotCell(k, j);
        SlotCellsDistinct(k, i, j);
        SlotIffUnit(p.0, p.1, q.0, q.1);
      }
      assert |digits| == 9;
      DistinctCover(u, digits);
      assert multiset(digits) == multiset{1, 2, 3, 4, 5, 6, 7, 8, 9};
    }
  }
}
