/** `type_numbers` of main.py: replay a solved board into an on-screen grid by
    walking it in a serpentine order with relative arrow-key moves, typing
    the solution into every cell that was blank in the board as read.

    Keyboard input and delays are recorded as entries of an action log. To
    say what the log achieves, `Replay` runs it against a model of the
    on-screen grid: a 9x9 display with a cursor that starts on cell (0, 0),
    where typing a digit overwrites the cell under the cursor and an arrow
    key moves the cursor one cell, staying put at the grid's edge. */
module Typing {
  import opened Boards

  datatype Key = Right | Left | Down

  /** `keyboard.write(str(digit))`, `keyboard.press_and_release(key)` and
      `sleep(seconds)`. */
  datatype Action = Write(digit: int) | Press(key: Key) | Sleep(seconds: real)

  /** DELAY: the settle time after every cursor move. */
  const Delay: real := 0.1

  /** Direction of travel along row i: rightwards on even rows, leftwards on
      odd rows. */
  function Heading(i: int): Key
  {
    if i % 2 == 0 then Right else Left
  }

  /** The column of the k-th cell visited in row i. */
  function Column(i: int, k: int): int
  {
    if i % 2 == 0 then k else 8 - k
  }

  /** The actions for one visited cell: type the solution digit if the cell
      was blank, then step in the row's direction and settle. */
  function CellActions(original: Grid, solved: Grid, i: int, j: int): seq<Action>
    requires IsBoard(original) && IsBoard(solved) && 0 <= i < 9 && 0 <= j < 9
  {
    (if original[i][j] == 0 then [Write(solved[i][j])] else []) + [Press(Heading(i)), Sleep(Delay)]
  }

  /** The actions for the first k cells visited in row i. */
  function RowPrefix(original: Grid, solved: Grid, i: int, k: int): seq<Action>
    requires IsBoard(original) && IsBoard(solved) && 0 <= i < 9 && 0 <= k <= 9
  {
    if k == 0 then []
    else RowPrefix(original, solved, i, k - 1) + CellActions(original, solved, i, Column(i, k - 1))
  }

  /** The actions for row i: all nine cells, then a move down and a settle. */
  function RowActions(original: Grid, solved: Grid, i: int): seq<Action>
    requires IsBoard(original) && IsBoard(solved) && 0 <= i < 9
  {
    RowPrefix(original, solved, i, 9) + [Press(Down), Sleep(Delay)]
  }

  /** The actions for rows 0..n-1, in order. */
  function Script(original: Grid, solved: Grid, n: int): seq<Action>
    requires IsBoard(original) && IsBoard(solved) && 0 <= n <= 9
  {
    if n == 0 then [] else Script(original, solved, n - 1) + RowActions(original, solved, n - 1)
  }

  // ---------------------------------------------------------------------
  // The on-screen grid the log is typed into.

  datatype Display = Display(cells: Grid, row: int, col: int)

  function Step(u: Display, a: Action): Display
  {
    match a
    case Write(d) =>
      if 0 <= u.row < |u.cells| && 0 <= u.col < |u.cells[u.row]|
      then u.(cells := u.cells[u.row := u.cells[u.row][u.col := d]])
      else u
    case Press(Right) => u.(col := if u.col < 8 then u.col + 1 else u.col)
    case Press(Left) => u.(col := if u.col > 0 then u.col - 1 else u.col)
    case Press(Down) => u.(row := if u.row < 8 then u.row + 1 else u.row)
    case Sleep(_) => u
  }

  function Replay(u: Display, log: seq<Action>): Display
    decreases |log|
  {
    if log == [] then u else Replay(Step(u, log[0]), log[1..])
  }

  /** What cell (a, b) should show once typing is done: the clue, or the
      solution digit where the board as read was blank. */
  function Filled(original: Grid, solved: Grid, a: int, b: int): int
    requires IsBoard(original) && IsBoard(solved) && 0 <= a < 9 && 0 <= b < 9
  {
    if original[a][b] == 0 then solved[a][b] else original[a][b]
  }

  /** The board as read with every blank filled from the solution. */
  function Completed(original: Grid, solved: Grid): (g: Grid)
    requires IsBoard(original) && IsBoard(solved)
    ensures IsBoard(g)
    ensures forall a, b :: 0 <= a < 9 && 0 <= b < 9 ==> g[a][b] == Filled(original, solved, a, b)
  {
    seq(9, a requires 0 <= a < 9 => seq(9, b requires 0 <= b < 9 => Filled(original, solved, a, b)))
  }

  /** Cell (a, b) has been visited once rows 0..n-1 and the first k cells of
      row n are done. */
  predicate Visited(n: int, k: int, a: int, b: int)
  {
    a < n || (a == n && if n % 2 == 0 then b < k else b >= 9 - k)
  }

  /** The display after rows 0..n-1 and the first k cells of row n. */
  function Progress(original: Grid, solved: Grid, n: int, k: int): (g: Grid)
    requires IsBoard(original) && IsBoard(solved)
    ensures IsBoard(g)
    ensures forall a, b :: 0 <= a < 9 && 0 <= b < 9 ==>
      g[a][b] == if Visited(n, k, a, b) then Filled(original, solved, a, b) else original[a][b]
  {
    seq(9, a requires 0 <= a < 9 => seq(9, b requires 0 <= b < 9 =>
      if Visited(n, k, a, b) then Filled(original, solved, a, b) else original[a][b]))
  }

  lemma SameGrid(g: Grid, h: Grid)
    requires IsBoard(g) && IsBoard(h)
    requires forall a, b :: 0 <= a < 9 && 0 <= b < 9 ==> g[a][b] == h[a][b]
    ensures g == h
  {
    forall a | 0 <= a < 9 ensures g[a] == h[a] {
    }
  }

  /** Replaying a concatenation replays its parts in turn. */
  lemma {:induction false} ReplayAppend(u: Display, a: seq<Action>, b: seq<Action>)
    ensures Replay(u, a + b) == Replay(Replay(u, a), b)
    decreases |a|
  {
    if a == [] {
      assert a + b == b;
    } else {
      assert (a + b)[1..] == a[1..] + b;
      ReplayAppend(Step(u, a[0]), a[1..], b);
    }
  }

  lemma ReplayOne(u: Display, x: Action)
    ensures Replay(u, [x]) == Step(u, x)
  {
    assert [x][1..] == [];
  }

  lemma ReplayTwo(u: Display, x: Action, y: Action)
    ensures Replay(u, [x, y]) == Step(Step(u, x), y)
  {
    assert [x, y][1..] == [y];
    ReplayOne(Step(u, x), y);
  }

  /** The actions of a visited cell, run with the cursor on that cell, type
      the solution digit into it if it was blank and step the cursor on. */
  lemma CellReplay(original: Grid, solved: Grid, g: Grid, i: int, j: int)
    requires IsBoard(original) && IsBoard(solved) && IsBoard(g) && 0 <= i < 9 && 0 <= j < 9
    ensures Replay(Display(g, i, j), CellActions(original, solved, i, j)) ==
      Display(if original[i][j] == 0 then Place(g, i, j, solved[i][j]) else g, i,
        if i % 2 == 0 then (if j < 8 then j + 1 else j) else (if j > 0 then j - 1 else j))
  {
    var u := Display(g, i, j);
    var moves := [Press(Heading(i)), Sleep(Delay)];
    if original[i][j] == 0 {
      ReplayAppend(u, [Write(solved[i][j])], moves);
      ReplayOne(u, Write(solved[i][j]));
      ReplayTwo(Step(u, Write(solved[i][j])), moves[0], moves[1]);
    } else {
      assert CellActions(original, solved, i, j) == moves;
      ReplayTwo(u, moves[0], moves[1]);
    }
  }

  /** Replaying the first k cells of row i from the row's first cell types
      those cells and leaves the cursor on the next cell of the row (on its
      last cell once all nine are done). */
  lemma {:induction false} RowReplay(original: Grid, solved: Grid, i: int, k: int)
    requires IsBoard(original) && IsBoard(solved) && 0 <= i < 9 && 0 <= k <= 9
    ensures Replay(Display(Progress(original, solved, i, 0), i, Column(i, 0)), RowPrefix(original, solved, i, k)) ==
      Display(Progress(original, solved, i, k), i, Column(i, if k < 9 then k else 8))
  {
    var start := Display(Progress(original, solved, i, 0), i, Column(i, 0));
    if k > 0 {
      var j := Column(i, k - 1);
      RowReplay(original, solved, i, k - 1);
      ReplayAppend(start, RowPrefix(original, solved, i, k - 1), CellActions(original, solved, i, j));
      var before := Progress(original, solved, i, k - 1);
      CellReplay(original, solved, before, i, j);
      var after := if original[i][j] == 0 then Place(before, i, j, solved[i][j]) else before;
      SameGrid(after, Progress(original, solved, i, k));
    }
  }

  /** Replaying the actions for rows 0..n-1 from cell (0, 0) types those
      rows and leaves the cursor where row n begins. */
  lemma {:induction false} ScriptReplay(original: Grid, solved: Grid, n: int)
    requires IsBoard(original) && IsBoard(solved) && 0 <= n <= 9
    ensures Replay(Display(original, 0, 0), Script(original, solved, n)) ==
      Display(Progress(original, solved, n, 0), if n < 9 then n else 8, Column(n, 0))
  {
    var u := Display(original, 0, 0);
    if n == 0 {
      SameGrid(original, Progress(original, solved, 0, 0));
    } else {
      var i := n - 1;
      ScriptReplay(original, solved, i);
      var row := RowPrefix(original, solved, i, 9);
      var down := [Press(Down), Sleep(Delay)];
      ReplayAppend(u, Script(original, solved, i), row + down);
      ReplayAppend(Replay(u, Script(original, solved, i)), row, down);
      RowReplay(original, solved, i, 9);
      var v := Display(Progress(original, solved, i, 9), i, Column(i, 8));
      ReplayTwo(v, down[0], down[1]);
      SameGrid(Progress(original, solved, i, 9), Progress(original, solved, n, 0));
    }
  }

  /** Typing the whole log into the grid showing the board as read, cursor on
      (0, 0), leaves every blank filled with its solution digit and every
      clue untouched, with the cursor on (8, 8). */
  lemma TypingFillsBoard(original: Grid, solved: Grid)
    requires IsBoard(original) && IsBoard(solved)
    ensures Replay(Display(original, 0, 0), Script(original, solved, 9)) ==
      Display(Completed(original, solved), 8, 8)
  {
    ScriptReplay(original, solved, 9);
    SameGrid(Progress(original, solved, 9, 0), Completed(original, solved));
  }

  /** When the solution keeps the clues, the grid ends up showing exactly the
      solution. */
  lemma CompletedIsSolution(original: Grid, solved: Grid)
    requires IsBoard(original) && IsBoard(solved) && Extends(solved, original)
    ensures Completed(original, solved) == solved
  {
    SameGrid(Completed(original, solved), solved);
  }

  /** Just before the actions of the k-th cell of row i run, the cursor is on
      that cell: rows are walked top to bottom, even rows left to right and
      odd rows right to left. */
  lemma CursorBeforeCell(original: Grid, solved: Grid, i: int, k: int)
    requires IsBoard(original) && IsBoard(solved) && 0 <= i < 9 && 0 <= k < 9
    ensures var u := Replay(Display(original, 0, 0), Script(original, solved, i) + RowPrefix(original, solved, i, k));
      u.row == i && u.col == Column(i, k)
  {
    ScriptReplay(original, solved, i);
    ReplayAppend(Display(original, 0, 0), Script(original, solved, i), RowPrefix(original, solved, i, k));
    RowReplay(original, solved, i, k);
  }

  // ---------------------------------------------------------------------
  // Counting the log.

  /** The digits a log types, in order. */
  function Typed(log: seq<Action>): seq<int>
    decreases |log|
  {
    if log == [] then [] else (if log[0].Write? then [log[0].digit] else []) + Typed(log[1..])
  }

  lemma {:induction false} TypedAppend(a: seq<Action>, b: seq<Action>)
    ensures Typed(a + b) == Typed(a) + Typed(b)
    decreases |a|
  {
    if a == [] {
      assert a + b == b;
    } else {
      assert (a + b)[1..] == a[1..] + b;
      TypedAppend(a[1..], b);
    }
  }

  lemma TypedMoves(k: Key)
    ensures Typed([Press(k), Sleep(Delay)]) == []
  {
    assert [Press(k), Sleep(Delay)][1..] == [Sleep(Delay)];
    assert [Sleep(Delay)][1..] == [];
    assert Typed([Sleep(Delay)]) == [];
  }

  /** A visited cell is typed exactly when it was blank, with its solution
      digit. */
  lemma CellTyped(original: Grid, solved: Grid, i: int, j: int)
    requires IsBoard(original) && IsBoard(solved) && 0 <= i < 9 && 0 <= j < 9
    ensures Typed(CellActions(original, solved, i, j)) ==
      if original[i][j] == 0 then [solved[i][j]] else []
  {
    var moves := [Press(Heading(i)), Sleep(Delay)];
    TypedMoves(Heading(i));
    if original[i][j] == 0 {
      TypedAppend([Write(solved[i][j])], moves);
      assert [Write(solved[i][j])][1..] == [];
    } else {
      assert CellActions(original, solved, i, j) == moves;
    }
  }

  /** The values of the first k cells visited in row i. */
  function VisitedCells(g: Grid, i: int, k: int): seq<int>
    requires IsBoard(g) && 0 <= i < 9 && 0 <= k <= 9
  {
    if i % 2 == 0 then g[i][..k] else g[i][9 - k..]
  }

  lemma VisitedStep(g: Grid, i: int, k: int)
    requires IsBoard(g) && 0 <= i < 9 && 0 < k <= 9
    ensures multiset(VisitedCells(g, i, k)) == multiset(VisitedCells(g, i, k - 1)) + multiset{g[i][Column(i, k - 1)]}
  {
    var row := g[i];
    if i % 2 == 0 {
      assert row[..k] == row[..k - 1] + [row[k - 1]];
    } else {
      assert row[9 - k..] == [row[9 - k]] + row[9 - (k - 1)..];
    }
  }

  lemma {:induction false} RowTyped(original: Grid, solved: Grid, i: int, k: int)
    requires IsBoard(original) && IsBoard(solved) && 0 <= i < 9 && 0 <= k <= 9
    ensures |Typed(RowPrefix(original, solved, i, k))| == multiset(VisitedCells(original, i, k))[0]
  {
    if k > 0 {
      var j := Column(i, k - 1);
      RowTyped(original, solved, i, k - 1);
      assert RowPrefix(original, solved, i, k) == RowPrefix(original, solved, i, k - 1) + CellActions(original, solved, i, j);
      TypedAppend(RowPrefix(original, solved, i, k - 1), CellActions(original, solved, i, j));
      CellTyped(original, solved, i, j);
      VisitedStep(original, i, k);
    }
  }

  lemma {:induction false} ScriptTyped(original: Grid, solved: Grid, n: int)
    requires IsBoard(original) && IsBoard(solved) && 0 <= n <= 9
    ensures |Typed(Script(original, solved, n))| == ZerosInRows(original, n)
  {
    if n > 0 {
      var i := n - 1;
      ScriptTyped(original, solved, i);
      TypedAppend(Script(original, solved, i), RowActions(original, solved, i));
      TypedAppend(RowPrefix(original, solved, i, 9), [Press(Down), Sleep(Delay)]);
      TypedMoves(Down);
      RowTyped(original, solved, i, 9);
      assert VisitedCells(original, i, 9) == original[i];
    }
  }

  /** One digit is typed per blank cell of the board as read. */
  lemma TypedCount(original: Grid, solved: Grid)
    requires IsBoard(original) && IsBoard(solved)
    ensures |Typed(Script(original, solved, 9))| == ZeroCount(original)
  {
    ScriptTyped(original, solved, 9);
  }

  /** Every row has one horizontal move per cell, in the row's direction,
      and one settle delay per move. */
  /** How many times action x occurs in a log. */
  function Count(log: seq<Action>, x: Action): nat
    decreases |log|
  {
    if log == [] then 0 else (if log[0] == x then 1 else 0) + Count(log[1..], x)
  }

  lemma {:induction false} CountAppend(a: seq<Action>, b: seq<Action>, x: Action)
    ensures Count(a + b, x) == Count(a, x) + Count(b, x)
    decreases |a|
  {
    if a == [] {
      assert a + b == b;
    } else {
      assert (a + b)[1..] == a[1..] + b;
      CountAppend(a[1..], b, x);
    }
  }

  /** The two actions that end every cell and every row: a move and a
      settle delay. */
  lemma CountMove(key: Key, x: Action)
    ensures Count([Press(key), Sleep(Delay)], x) == (if x == Press(key) then 1 else 0) + (if x == Sleep(Delay) then 1 else 0)
  {
    assert [Press(key), Sleep(Delay)][1..] == [Sleep(Delay)];
    assert [Sleep(Delay)][1..] == [];
    assert Count([Sleep(Delay)], x) == (if x == Sleep(Delay) then 1 else 0);
  }

  lemma CellMoves(original: Grid, solved: Grid, i: int, j: int, x: Action)
    requires IsBoard(original) && IsBoard(solved) && 0 <= i < 9 && 0 <= j < 9
    requires !x.Write?
    ensures Count(CellActions(original, solved, i, j), x) ==
      (if x == Press(Heading(i)) then 1 else 0) + (if x == Sleep(Delay) then 1 else 0)
  {
    var moves := [Press(Heading(i)), Sleep(Delay)];
    CountMove(Heading(i), x);
    if original[i][j] == 0 {
      var w := [Write(solved[i][j])];
      CountAppend(w, moves, x);
      assert w[1..] == [];
    } else {
      assert CellActions(original, solved, i, j) == moves;
    }
  }

  /** Every row has one horizontal move per cell, in the row's direction,
      and one settle delay per move. */
  lemma {:induction false} RowMoves(original: Grid, solved: Grid, i: int, k: int, x: Action)
    requires IsBoard(original) && IsBoard(solved) && 0 <= i < 9 && 0 <= k <= 9
    requires !x.Write?
    ensures Count(RowPrefix(original, solved, i, k), x) ==
      (if x == Press(Heading(i)) || x == Sleep(Delay) then k else 0)
  {
    if k > 0 {
      var j := Column(i, k - 1);
      RowMoves(original, solved, i, k - 1, x);
      CellMoves(original, solved, i, j, x);
      CountAppend(RowPrefix(original, solved, i, k - 1), CellActions(original, solved, i, j), x);
    }
  }

  lemma {:induction false} ScriptMoves(original: Grid, solved: Grid, n: int)
    requires IsBoard(original) && IsBoard(solved) && 0 <= n <= 9
    ensures Count(Script(original, solved, n), Press(Right)) == 9 * ((n + 1) / 2)
    ensures Count(Script(original, solved, n), Press(Left)) == 9 * (n / 2)
    ensures Count(Script(original, solved, n), Press(Down)) == n
    ensures Count(Script(original, solved, n), Sleep(Delay)) == 10 * n
  {
    if n > 0 {
      var i := n - 1;
      ScriptMoves(original, solved, i);
      var row := RowPrefix(original, solved, i, 9);
      var tail := [Press(Down), Sleep(Delay)];
      forall x: Action | !x.Write?
        ensures Count(Script(original, solved, n), x) ==
          Count(Script(original, solved, i), x) + Count(row, x) + Count(tail, x)
      {
        CountAppend(row, tail, x);
        CountAppend(Script(original, solved, i), row + tail, x);
      }
      RowMoves(original, solved, i, 9, Press(Right));
      RowMoves(original, solved, i, 9, Press(Left));
      RowMoves(original, solved, i, 9, Press(Down));
      RowMoves(original, solved, i, 9, Sleep(Delay));
      CountMove(Down, Press(Right));
      CountMove(Down, Press(Left));
      CountMove(Down, Press(Down));
      CountMove(Down, Sleep(Delay));
      if i % 2 == 0 {
        assert (n + 1) / 2 == (i + 1) / 2 + 1 && n / 2 == i / 2;
      } else {
        assert (n + 1) / 2 == (i + 1) / 2 && n / 2 == i / 2 + 1;
      }
    }
  }

  /** Whatever the boards: 45 moves right, 36 left, 9 down (one after every
      row, the last included), and one settle delay per move. */
  lemma MoveCounts(original: Grid, solved: Grid)
    requires IsBoard(original) && IsBoard(solved)
    ensures Count(Script(original, solved, 9), Press(Right)) == 45
    ensures Count(Script(original, solved, 9), Press(Left)) == 36
    ensures Count(Script(original, solved, 9), Press(Down)) == 9
    ensures Count(Script(original, solved, 9), Sleep(Delay)) == 90
  {
    ScriptMoves(original, solved, 9);
  }

  // ---------------------------------------------------------------------
  // Pacing.

  /** Every key press is followed at once by a settle delay, and a delay only
      ever follows a key press (so typing a digit is never followed by one). */
  predicate Paced(log: seq<Action>)
  {
    (forall k :: 0 <= k < |log| && log[k].Press? ==> k + 1 < |log| && log[k + 1] == Sleep(Delay)) &&
    (forall k :: 0 <= k < |log| && log[k].Sleep? ==> 0 < k && log[k - 1].Press?)
  }

  lemma PacedAppend(a: seq<Action>, b: seq<Action>)
    requires Paced(a) && Paced(b)
    ensures Paced(a + b)
  {
    var c := a + b;
    forall k | 0 <= k < |c| && c[k].Press? ensures k + 1 < |c| && c[k + 1] == Sleep(Delay) {
      if k < |a| {
        assert a[k].Press?;
      } else {
        assert b[k - |a|].Press?;
      }
    }
    forall k | 0 <= k < |c| && c[k].Sleep? ensures 0 < k && c[k - 1].Press? {
      if k < |a| {
        assert a[k].Sleep?;
      } else {
        assert b[k - |a|].Sleep?;
      }
    }
  }

  lemma {:induction false} RowPaced(original: Grid, solved: Grid, i: int, k: int)
    requires IsBoard(original) && IsBoard(solved) && 0 <= i < 9 && 0 <= k <= 9
    ensures Paced(RowPrefix(original, solved, i, k))
  {
    if k > 0 {
      RowPaced(original, solved, i, k - 1);
      PacedAppend(RowPrefix(original, solved, i, k - 1), CellActions(original, solved, i, Column(i, k - 1)));
    }
  }

  lemma {:induction false} ScriptPaced(original: Grid, solved: Grid, n: int)
    requires IsBoard(original) && IsBoard(solved) && 0 <= n <= 9
    ensures Paced(Script(original, solved, n))
  {
    if n > 0 {
      ScriptPaced(original, solved, n - 1);
      RowPaced(original, solved, n - 1, 9);
      PacedAppend(RowPrefix(original, solved, n - 1, 9), [Press(Down), Sleep(Delay)]);
      PacedAppend(Script(original, solved, n - 1), RowActions(original, solved, n - 1));
    }
  }

  /** What the whole script does, gathered for the sequencer. */
  lemma ScriptFacts(original: Grid, solved: Grid)
    requires IsBoard(original) && IsBoard(solved)
    ensures var log := Script(original, solved, 9);
      Replay(Display(original, 0, 0), log) == Display(Completed(original, solved), 8, 8) &&
      |Typed(log)| == ZeroCount(original) &&
      Count(log, Press(Right)) == 45 && Count(log, Press(Left)) == 36 &&
      Count(log, Press(Down)) == 9 && Count(log, Sleep(Delay)) == 90 &&
      Paced(log)
  {
    TypingFillsBoard(original, solved);
    TypedCount(original, solved);
    MoveCounts(original, solved);
    ScriptPaced(original, solved, 9);
  }

  // ---------------------------------------------------------------------
  // The sequencer itself.

  /** One row of `type_numbers`: even rows left to right, odd rows right to
      left; at each cell type the solution digit if the board as read had a
      blank there, then move on and settle; finally move down and settle. */
  method TypeRow(original: Grid, solved: Grid, i: int) returns (log: seq<Action>)
    requires IsBoard(original) && IsBoard(solved) && 0 <= i < 9
    ensures log == RowActions(original, solved, i)
  {
    log := [];
    if i % 2 == 0 {
      for j := 0 to 9
        invariant log == RowPrefix(original, solved, i, j)
      {
        if original[i][j] == 0 {
          log := log + [Write(solved[i][j])];
        }
        log := log + [Press(Right)];
        log := log + [Sleep(Delay)];
      }
    } else {
      for j := 9 downto 0
        invariant log == RowPrefix(original, solved, i, 9 - j)
      {
        if original[i][j] == 0 {
          log := log + [Write(solved[i][j])];
        }
        log := log + [Press(Left)];
        log := log + [Sleep(Delay)];
      }
    }
    log := log + [Press(Down)];
    log := log + [Sleep(Delay)];
  }

  /** `type_numbers`: the rows in order, top to bottom. The log fills every
      blank of the board as read with its solution digit and ends on the
      bottom-right cell, types one digit per blank, makes 90 moves, and
      settles after every move. */
  method TypeNumbers(original: Grid, solved: Grid) returns (log: seq<Action>)
    requires IsBoard(original) && IsBoard(solved)
    ensures log == Script(original, solved, 9)
    ensures Replay(Display(original, 0, 0), log) == Display(Completed(original, solved), 8, 8)
    ensures |Typed(log)| == ZeroCount(original)
    ensures Count(log, Press(Right)) == 45 && Count(log, Press(Left)) == 36
    ensures Count(log, Press(Down)) == 9 && Count(log, Sleep(Delay)) == 90
    ensures Paced(log)
  {
    log := [];
    for i := 0 to 9
      invariant log == Script(original, solved, i)
    {
      var row := TypeRow(original, solved, i);
      log := log + row;
    }
    ScriptFacts(original, solved);
  }
}
