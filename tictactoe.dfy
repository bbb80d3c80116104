/** Tic-tac-toe on a 3x3 board: turn order, legal moves, applying a move,
    win/terminal/utility detection, and minimax search with cut-off at +-1. */
module TicTacToe {
  import opened Wrappers

  /** The two players' marks. */
  datatype Mark = X | O

  /** A cell holds a mark or is EMPTY (Python's `None`). */
  type Cell = Option<Mark>

  const EMPTY: Cell := None

  /** A board is a list of rows; a well-formed one has three rows of three cells. */
  type Board = seq<seq<Cell>>

  /** A move `(i, j)`: row `i`, column `j`. Any pair of integers may be offered to `Result`. */
  type Action = (int, int)

  /** Why `Result` refused a move (the source raises `ValueError`). */
  datatype MoveError = NotAValidAction

  predicate IsBoard(b: Board)
  {
    |b| == 3 && forall i :: 0 <= i < 3 ==> |b[i]| == 3
  }

  predicate InRange(a: Action)
  {
    0 <= a.0 < 3 && 0 <= a.1 < 3
  }

  /* ---------------------------------------------------------------------- */
  /* Counting marks                                                          */

  /** Number of cells equal to `c` in one row (Python's `list.count`). */
  function CountRow(row: seq<Cell>, c: Cell): nat
  {
    if row == [] then 0 else (if row[0] == c then 1 else 0) + CountRow(row[1..], c)
  }

  /** Number of cells equal to `c` on the rows given, counted row by row from the first. */
  function CountRows(rows: seq<seq<Cell>>, c: Cell): nat
  {
    if rows == [] then 0 else CountRows(rows[..|rows| - 1], c) + CountRow(rows[|rows| - 1], c)
  }

  /** A line is entirely mark `m`. */
  predicate Full(line: seq<Cell>, m: Mark)
  {
    forall k :: 0 <= k < |line| ==> line[k] == Some(m)
  }

  /** On a line of three cells, a count of three is the same as the line being full. */
  lemma {:induction false} CountThreeIsFull(line: seq<Cell>, m: Mark)
    requires |line| == 3
    ensures CountRow(line, Some(m)) == 3 <==> Full(line, m)
  {
    var c := Some(m);
    assert line[1..][0] == line[1] && line[1..][1..][0] == line[2] && line[1..][1..][1..] == [];
    assert CountRow(line[1..][1..], c) == (if line[2] == c then 1 else 0);
    assert CountRow(line, c) == (if line[0] == c then 1 else 0) + (if line[1] == c then 1 else 0) + (if line[2] == c then 1 else 0);
  }

  /* ---------------------------------------------------------------------- */
  /* Specification functions                                                 */

  /** The mark whose turn it is: X when both players have placed equally many marks. */
  function NextPlayer(b: Board): Mark
  {
    if CountRows(b, Some(X)) == CountRows(b, Some(O)) then X else O
  }

  /** The empty cells of the board, as moves. */
  function EmptyCells(b: Board): set<Action>
    requires IsBoard(b)
  {
    set i, j | 0 <= i < 3 && 0 <= j < 3 && b[i][j] == EMPTY :: (i, j)
  }

  /** Marking an empty cell with any mark removes exactly that cell from the empty cells. */
  lemma MarkFillsOneCell(b: Board, a: Action, m: Mark)
    requires IsBoard(b) && a in EmptyCells(b)
    ensures IsBoard(b[a.0 := b[a.0][a.1 := Some(m)]])
    ensures EmptyCells(b[a.0 := b[a.0][a.1 := Some(m)]]) == EmptyCells(b) - {a}
  {
    var nb := b[a.0 := b[a.0][a.1 := Some(m)]];
    forall c | c in EmptyCells(nb) ensures c in EmptyCells(b) - {a} {
    }
    forall c | c in EmptyCells(b) - {a} ensures c in EmptyCells(nb) {
    }
  }

  /** The board after the player to move marks the legal move `a`: one empty cell fewer. */
  function Apply(b: Board, a: Action): (r: Board)
    requires IsBoard(b) && a in EmptyCells(b)
    ensures IsBoard(r)
    ensures EmptyCells(r) == EmptyCells(b) - {a}
    ensures |EmptyCells(r)| == |EmptyCells(b)| - 1
  {
    MarkFillsOneCell(b, a, NextPlayer(b));
    b[a.0 := b[a.0][a.1 := Some(NextPlayer(b))]]
  }

  /** The move `a` marks its own cell with the mark of the player to move and leaves every
      other cell as it was. */
  lemma ApplyMarksOneCell(b: Board, a: Action)
    requires IsBoard(b) && a in EmptyCells(b)
    ensures Apply(b, a)[a.0][a.1] == Some(NextPlayer(b))
    ensures forall i, j :: 0 <= i < 3 && 0 <= j < 3 && (i, j) != a ==> Apply(b, a)[i][j] == b[i][j]
  {
  }

  /** A cell is a legal move exactly when it is on the board and empty. */
  lemma EmptyCellsIff(b: Board, a: Action)
    requires IsBoard(b)
    ensures a in EmptyCells(b) <==> InRange(a) && b[a.0][a.1] == EMPTY
  {
  }

  /* ---------------------------------------------------------------------- */
  /* initial_state, player, actions, result                                  */

  /** The starting board: every cell empty. */
  function InitialState(): (b: Board)
    ensures IsBoard(b)
    ensures EmptyCells(b) == set i, j | 0 <= i < 3 && 0 <= j < 3 :: (i, j)
  {
    [[EMPTY, EMPTY, EMPTY], [EMPTY, EMPTY, EMPTY], [EMPTY, EMPTY, EMPTY]]
  }

  /** Whose turn it is: accumulates, row by row, the X count minus the O count. */
  method Player(b: Board) returns (p: Mark)
    ensures p == NextPlayer(b)
    ensures p == X <==> CountRows(b, Some(X)) == CountRows(b, Some(O))
  {
    var numberOfXO: int := 0;
    var i := 0;
    while i < |b|
      invariant 0 <= i <= |b|
      invariant numberOfXO == CountRows(b[..i], Some(X)) - CountRows(b[..i], Some(O))
    {
      assert b[..i + 1][..i] == b[..i];
      numberOfXO := numberOfXO + CountRow(b[i], Some(X)) - CountRow(b[i], Some(O));
      i := i + 1;
    }
    assert b[..|b|] == b;
    p := if numberOfXO == 0 then X else O;
  }

  /** A value absent from a row is counted zero times. */
  lemma {:induction false} AbsentCountZero(row: seq<Cell>, c: Cell)
    requires forall j :: 0 <= j < |row| ==> row[j] != c
    ensures CountRow(row, c) == 0
  {
    if row != [] {
      AbsentCountZero(row[1..], c);
    }
  }

  /** A value absent from every row is counted zero times on the board. */
  lemma {:induction false} NoMarksCountZero(rows: seq<seq<Cell>>, c: Cell)
    requires forall i, j :: 0 <= i < |rows| && 0 <= j < |rows[i]| ==> rows[i][j] != c
    ensures CountRows(rows, c) == 0
  {
    if rows != [] {
      AbsentCountZero(rows[|rows| - 1], c);
      NoMarksCountZero(rows[..|rows| - 1], c);
    }
  }

  /** X moves first on the empty board. */
  lemma InitialPlayerIsX()
    ensures NextPlayer(InitialState()) == X
  {
    NoMarksCountZero(InitialState(), Some(X));
    NoMarksCountZero(InitialState(), Some(O));
  }

  /** The legal moves: every `(i, j)` whose cell is empty, found by scanning all nine cells. */
  method Actions(b: Board) returns (r: set<Action>)
    requires IsBoard(b)
    ensures r == EmptyCells(b)
  {
    r := {};
    for i := 0 to 3
      invariant forall a :: a in r <==> 0 <= a.0 < i && 0 <= a.1 < 3 && b[a.0][a.1] == EMPTY
    {
      for j := 0 to 3
        invariant forall a :: a in r <==>
          (0 <= a.0 < i && 0 <= a.1 < 3 && b[a.0][a.1] == EMPTY) || (a.0 == i && 0 <= a.1 < j && b[i][a.1] == EMPTY)
      {
        if b[i][j] == EMPTY {
          r := r + {(i, j)};
        }
      }
    }
    assert forall a :: a in r <==> a in EmptyCells(b);
  }

  /** The board after move `a`: refused unless `a` is a legal move; otherwise a copy of the
      board whose cell `a` holds the mark of the player to move. */
  method Result(b: Board, a: Action) returns (r: Wrappers.Result<Board, MoveError>)
    requires IsBoard(b)
    ensures r.Err? <==> a !in EmptyCells(b)
    ensures r.Ok? ==> r.value == Apply(b, a)
  {
    var legal := Actions(b);
    if a !in legal {
      return Err(NotAValidAction);
    }
    var nextPlayer := Player(b);
    r := Ok(b[a.0 := b[a.0][a.1 := Some(nextPlayer)]]);
  }

  /* ---------------------------------------------------------------------- */
  /* winner, terminal, utility                                               */

  /** `m` occurs three times on the line (Python's `line.count(m) == 3`). */
  predicate ThreeOf(line: seq<Cell>, m: Mark)
  {
    CountRow(line, Some(m)) == 3
  }

  /** Some line of the group holds three of `m` (the source's `or` of `count` tests). */
  predicate AnyThreeOf(lines: seq<seq<Cell>>, m: Mark)
  {
    lines != [] && (ThreeOf(lines[0], m) || AnyThreeOf(lines[1..], m))
  }

  function Column(b: Board, j: nat): seq<Cell>
    requires IsBoard(b) && j < 3
  {
    [b[0][j], b[1][j], b[2][j]]
  }

  function Columns(b: Board): seq<seq<Cell>>
    requires IsBoard(b)
  {
    [Column(b, 0), Column(b, 1), Column(b, 2)]
  }

  function Diagonals(b: Board): seq<seq<Cell>>
    requires IsBoard(b)
  {
    [[b[0][0], b[1][1], b[2][2]], [b[0][2], b[1][1], b[2][0]]]
  }

  /** The eight lines of the board: rows 0-2, columns 3-5, the two diagonals 6 and 7. */
  function Line(b: Board, k: nat): (line: seq<Cell>)
    requires IsBoard(b) && k < 8
  {
    if k < 3 then b[k]
    else if k < 6 then Columns(b)[k - 3]
    else Diagonals(b)[k - 6]
  }

  /** Mark `m` fills some row, column or diagonal. */
  predicate HasLine(b: Board, m: Mark)
    requires IsBoard(b)
  {
    exists k :: 0 <= k < 8 && Full(Line(b, k), m)
  }

  /** The rows are scanned in order; a row full of X or full of O decides. */
  function RowsWinner(rows: seq<seq<Cell>>): Option<Mark>
  {
    if rows == [] then None
    else if ThreeOf(rows[0], X) then Some(X)
    else if ThreeOf(rows[0], O) then Some(O)
    else RowsWinner(rows[1..])
  }

  /** The groups of lines are scanned in order; in each group X is tested before O. */
  function GroupsWinner(groups: seq<seq<seq<Cell>>>): Option<Mark>
  {
    if groups == [] then None
    else if AnyThreeOf(groups[0], X) then Some(X)
    else if AnyThreeOf(groups[0], O) then Some(O)
    else GroupsWinner(groups[1..])
  }

  /** Winner by rows first, then by columns (X before O), then by diagonals (X before O). */
  function Winner(b: Board): Option<Mark>
    requires IsBoard(b)
  {
    var byRows := RowsWinner(b);
    if byRows.Some? then byRows else GroupsWinner([Columns(b), Diagonals(b)])
  }

  /** A group of three-cell lines holds three of `m` exactly when one of its lines is full of `m`. */
  lemma {:induction false} AnyThreeOfIff(lines: seq<seq<Cell>>, m: Mark)
    requires forall i :: 0 <= i < |lines| ==> |lines[i]| == 3
    ensures AnyThreeOf(lines, m) <==> exists i :: 0 <= i < |lines| && Full(lines[i], m)
  {
    if lines != [] {
      CountThreeIsFull(lines[0], m);
      AnyThreeOfIff(lines[1..], m);
      assert forall i :: 1 <= i < |lines| ==> lines[i] == lines[1..][i - 1];
      if Full(lines[0], m) {
        assert 0 < |lines| && Full(lines[0], m);
      }
      if AnyThreeOf(lines[1..], m) {
        var i :| 0 <= i < |lines[1..]| && Full(lines[1..][i], m);
        assert Full(lines[i + 1], m);
      }
    }
  }

  /** Scanning the rows from row `from` finds a mark only when that mark fills a row, and
      finds none only when no row is full. */
  lemma {:induction false} RowsWinnerCorrect(b: Board, from: nat)
    requires IsBoard(b) && from <= 3
    ensures RowsWinner(b[from..]).Some? ==>
      exists k :: from <= k < 3 && Full(b[k], RowsWinner(b[from..]).value)
    ensures RowsWinner(b[from..]).None? <==>
      forall k, m :: from <= k < 3 ==> !Full(b[k], m)
    decreases 3 - from
  {
    if from == 3 {
      assert b[from..] == [];
    } else {
      CountThreeIsFull(b[from], X);
      CountThreeIsFull(b[from], O);
      assert b[from..][0] == b[from];
      assert b[from..][1..] == b[from + 1..];
      RowsWinnerCorrect(b, from + 1);
      if RowsWinner(b[from..]).None? {
        assert !ThreeOf(b[from], X) && !ThreeOf(b[from], O);
        forall k, m | from <= k < 3 ensures !Full(b[k], m) {
          if k > from {
            assert from + 1 <= k < 3;
          } else {
            match m
            case X =>
            case O =>
          }
        }
      }
    }
  }

  /** A group of lines of the board that holds three of `m` gives `m` a full line. */
  lemma GroupGivesLine(b: Board, m: Mark, group: nat)
    requires IsBoard(b) && group < 2
    requires AnyThreeOf(if group == 0 then Columns(b) else Diagonals(b), m)
    ensures HasLine(b, m)
  {
    if group == 0 {
      AnyThreeOfIff(Columns(b), m);
      var i :| 0 <= i < 3 && Full(Columns(b)[i], m);
      assert Line(b, i + 3) == Columns(b)[i];
    } else {
      AnyThreeOfIff(Diagonals(b), m);
      var i :| 0 <= i < 2 && Full(Diagonals(b)[i], m);
      assert Line(b, i + 6) == Diagonals(b)[i];
    }
  }

  /** `Winner` reports a mark only if that mark fills a row, column or diagonal. */
  lemma WinnerHasLine(b: Board)
    requires IsBoard(b)
    ensures Winner(b).Some? ==> HasLine(b, Winner(b).value)
  {
    RowsWinnerCorrect(b, 0);
    assert b[0..] == b;
    if Winner(b).Some? {
      var m := Winner(b).value;
      if RowsWinner(b).Some? {
        var k :| 0 <= k < 3 && Full(b[k], m);
        assert Line(b, k) == b[k];
      } else {
        var groups := [Columns(b), Diagonals(b)];
        assert groups[1..][0] == Diagonals(b) && groups[1..][1..] == [];
        if AnyThreeOf(Columns(b), X) || AnyThreeOf(Columns(b), O) {
          assert AnyThreeOf(Columns(b), m);
          GroupGivesLine(b, m, 0);
        } else {
          var rest := groups[1..];
          assert GroupsWinner(rest) == Some(m);
          assert GroupsWinner(rest[1..]) == None;
          assert AnyThreeOf(Diagonals(b), m) by {
            match m
            case X =>
            case O =>
          }
          GroupGivesLine(b, m, 1);
        }
      }
    }
  }

  /** A mark that fills a row, column or diagonal makes `Winner` report some mark. */
  lemma HasLineHasWinner(b: Board, m: Mark)
    requires IsBoard(b) && HasLine(b, m)
    ensures Winner(b).Some?
  {
    RowsWinnerCorrect(b, 0);
    assert b[0..] == b;
    var groups := [Columns(b), Diagonals(b)];
    assert groups[1..][0] == Diagonals(b) && groups[1..][1..] == [];
    var k :| 0 <= k < 8 && Full(Line(b, k), m);
    if k < 3 {
      assert Full(b[k], m);
    } else if k < 6 {
      AnyThreeOfIff(Columns(b), m);
      assert Full(Columns(b)[k - 3], m);
    } else {
      AnyThreeOfIff(Diagonals(b), m);
      assert Full(Diagonals(b)[k - 6], m);
      if !AnyThreeOf(Columns(b), X) && !AnyThreeOf(Columns(b), O) {
        assert GroupsWinner(groups[1..]).Some?;
      }
    }
  }

  /** `Winner` reports a mark only if that mark fills a line, and reports none exactly when
      no line is full; a full row decides before any column or diagonal is looked at. */
  lemma WinnerCorrect(b: Board)
    requires IsBoard(b)
    ensures Winner(b).Some? ==> HasLine(b, Winner(b).value)
    ensures Winner(b).None? <==> !HasLine(b, X) && !HasLine(b, O)
    ensures (exists k, m :: 0 <= k < 3 && Full(b[k], m)) ==> Winner(b) == RowsWinner(b)
  {
    WinnerHasLine(b);
    if HasLine(b, X) {
      HasLineHasWinner(b, X);
    }
    if HasLine(b, O) {
      HasLineHasWinner(b, O);
    }
    RowsWinnerCorrect(b, 0);
    assert b[0..] == b;
    if Winner(b).Some? {
      match Winner(b).value
      case X =>
      case O =>
    }
  }

  /** With no full row, the columns decide before the diagonals, and within each group a
      full line of X wins over a full line of O. */
  lemma WinnerOrder(b: Board)
    requires IsBoard(b) && forall k, m :: 0 <= k < 3 ==> !Full(b[k], m)
    ensures (exists k :: 3 <= k < 6 && Full(Line(b, k), X)) ==> Winner(b) == Some(X)
    ensures ((forall k :: 3 <= k < 6 ==> !Full(Line(b, k), X)) &&
             (exists k :: 3 <= k < 6 && Full(Line(b, k), O))) ==> Winner(b) == Some(O)
    ensures ((forall k, m :: 3 <= k < 6 ==> !Full(Line(b, k), m)) &&
             (exists k :: 6 <= k < 8 && Full(Line(b, k), X))) ==> Winner(b) == Some(X)
    ensures ((forall k, m :: 3 <= k < 6 ==> !Full(Line(b, k), m)) &&
             (forall k :: 6 <= k < 8 ==> !Full(Line(b, k), X)) &&
             (exists k :: 6 <= k < 8 && Full(Line(b, k), O))) ==> Winner(b) == Some(O)
  {
    RowsWinnerCorrect(b, 0);
    assert b[0..] == b;
    var groups := [Columns(b), Diagonals(b)];
    assert groups[1..][0] == Diagonals(b) && groups[1..][1..] == [];
    assert forall k :: 3 <= k < 6 ==> Line(b, k) == Columns(b)[k - 3];
    assert forall k :: 6 <= k < 8 ==> Line(b, k) == Diagonals(b)[k - 6];
    forall m: Mark
      ensures AnyThreeOf(Columns(b), m) <==> exists k :: 3 <= k < 6 && Full(Line(b, k), m)
      ensures AnyThreeOf(Diagonals(b), m) <==> exists k :: 6 <= k < 8 && Full(Line(b, k), m)
    {
      AnyThreeOfIff(Columns(b), m);
      AnyThreeOfIff(Diagonals(b), m);
      if AnyThreeOf(Columns(b), m) {
        var i :| 0 <= i < 3 && Full(Columns(b)[i], m);
        assert Full(Line(b, i + 3), m);
      }
      if AnyThreeOf(Diagonals(b), m) {
        var i :| 0 <= i < 2 && Full(Diagonals(b)[i], m);
        assert Full(Line(b, i + 6), m);
      }
    }
    assert Winner(b) == GroupsWinner(groups);
    assert GroupsWinner(groups[1..]) ==
      if AnyThreeOf(Diagonals(b), X) then Some(X) else if AnyThreeOf(Diagonals(b), O) then Some(O) else None;
    if forall k, m :: 3 <= k < 6 ==> !Full(Line(b, k), m) {
      assert !AnyThreeOf(Columns(b), X) && !AnyThreeOf(Columns(b), O);
      assert Winner(b) == GroupsWinner(groups[1..]);
    }
  }

  /** Some cell is empty (Python's `EMPTY in` the flattened board). */
  predicate HasEmpty(b: Board)
    requires IsBoard(b)
  {
    exists i, j :: 0 <= i < 3 && 0 <= j < 3 && b[i][j] == EMPTY
  }

  /** The game is over unless there is no winner and some cell is still empty. */
  predicate Terminal(b: Board)
    requires IsBoard(b)
  {
    !(Winner(b).None? && HasEmpty(b))
  }

  /** The game is over exactly when someone has won or no legal move is left. */
  lemma TerminalIff(b: Board)
    requires IsBoard(b)
    ensures Terminal(b) <==> Winner(b).Some? || EmptyCells(b) == {}
  {
    if HasEmpty(b) {
      var i, j :| 0 <= i < 3 && 0 <= j < 3 && b[i][j] == EMPTY;
      assert (i, j) in EmptyCells(b);
    }
  }

  /** 1 if X has won, -1 if O has won, 0 otherwise. */
  function Utility(b: Board): (u: int)
    requires IsBoard(b)
    ensures -1 <= u <= 1
    ensures u == 1 <==> Winner(b) == Some(X)
    ensures u == -1 <==> Winner(b) == Some(O)
  {
    if Winner(b) == Some(X) then 1
    else if Winner(b) == Some(O) then -1
    else 0
  }

  /* ---------------------------------------------------------------------- */
  /* Minimax                                                                 */

  function Max(x: int, y: int): int { if x < y then y else x }
  function Min(x: int, y: int): int { if x < y then x else y }

  /** Some element of a non-empty set of moves (the order a Python set happens to yield). */
  ghost function Pick(s: set<Action>): (a: Action)
    requires s != {}
    ensures a in s
  {
    var a :| a in s; a
  }

  /** The game value when the maximiser is to move: the utility of a finished game, else
      the best of the minimiser's values over the legal moves. */
  ghost function MaxV(b: Board): (v: int)
    requires IsBoard(b)
    ensures -1 <= v <= 1
    decreases |EmptyCells(b)|, 1, 0
  {
    if Terminal(b) then Utility(b)
    else TerminalIff(b); MaxOver(b, EmptyCells(b))
  }

  /** The game value when the minimiser is to move. */
  ghost function MinV(b: Board): (v: int)
    requires IsBoard(b)
    ensures -1 <= v <= 1
    decreases |EmptyCells(b)|, 1, 0
  {
    if Terminal(b) then Utility(b)
    else TerminalIff(b); MinOver(b, EmptyCells(b))
  }

  /** The largest minimiser's value after one of the moves `s`. */
  ghost function MaxOver(b: Board, s: set<Action>): (v: int)
    requires IsBoard(b) && s != {} && s <= EmptyCells(b)
    ensures -1 <= v <= 1
    decreases |EmptyCells(b)|, 0, |s|
  {
    var a := Pick(s);
    if s == {a} then MinV(Apply(b, a))
    else Max(MinV(Apply(b, a)), MaxOver(b, s - {a}))
  }

  /** The smallest maximiser's value after one of the moves `s`. */
  ghost function MinOver(b: Board, s: set<Action>): (v: int)
    requires IsBoard(b) && s != {} && s <= EmptyCells(b)
    ensures -1 <= v <= 1
    decreases |EmptyCells(b)|, 0, |s|
  {
    var a := Pick(s);
    if s == {a} then MaxV(Apply(b, a))
    else Min(MaxV(Apply(b, a)), MinOver(b, s - {a}))
  }

  /** A value attained by one of the moves `s` and bounding all of them from above is
      their maximum. */
  lemma {:induction false} MaxOverIs(b: Board, s: set<Action>, v: int, w: Action)
    requires IsBoard(b) && s <= EmptyCells(b)
    requires w in s && MinV(Apply(b, w)) == v
    requires forall c {:trigger MinV(Apply(b, c))} :: c in s ==> MinV(Apply(b, c)) <= v
    ensures MaxOver(b, s) == v
    decreases |s|
  {
    var a := Pick(s);
    if s != {a} {
      var rest := s - {a};
      if w == a {
        MaxOverBounded(b, rest, v);
      } else {
        MaxOverIs(b, rest, v, w);
      }
    }
  }

  /** The maximum over the moves `s` is bounded by any common upper bound. */
  lemma {:induction false} MaxOverBounded(b: Board, s: set<Action>, v: int)
    requires IsBoard(b) && s != {} && s <= EmptyCells(b)
    requires forall c {:trigger MinV(Apply(b, c))} :: c in s ==> MinV(Apply(b, c)) <= v
    ensures MaxOver(b, s) <= v
    decreases |s|
  {
    var a := Pick(s);
    if s != {a} {
      MaxOverBounded(b, s - {a}, v);
    }
  }

  /** The dual of `MaxOverIs`. */
  lemma {:induction false} MinOverIs(b: Board, s: set<Action>, v: int, w: Action)
    requires IsBoard(b) && s <= EmptyCells(b)
    requires w in s && MaxV(Apply(b, w)) == v
    requires forall c {:trigger MaxV(Apply(b, c))} :: c in s ==> MaxV(Apply(b, c)) >= v
    ensures MinOver(b, s) == v
    decreases |s|
  {
    var a := Pick(s);
    if s != {a} {
      var rest := s - {a};
      if w == a {
        MinOverBounded(b, rest, v);
      } else {
        MinOverIs(b, rest, v, w);
      }
    }
  }

  /** The dual of `MaxOverBounded`. */
  lemma {:induction false} MinOverBounded(b: Board, s: set<Action>, v: int)
    requires IsBoard(b) && s != {} && s <= EmptyCells(b)
    requires forall c {:trigger MaxV(Apply(b, c))} :: c in s ==> MaxV(Apply(b, c)) >= v
    ensures MinOver(b, s) >= v
    decreases |s|
  {
    var a := Pick(s);
    if s != {a} {
      MinOverBounded(b, s - {a}, v);
    }
  }

  /** On a game in progress, a value that bounds every move's value from above and is
      attained by some move is the maximiser's game value. */
  lemma MaxVIs(b: Board, v: int, a: Action)
    requires IsBoard(b) && !Terminal(b)
    requires a in EmptyCells(b) && MinV(Apply(b, a)) == v
    requires forall c {:trigger MinV(Apply(b, c))} :: c in EmptyCells(b) ==> MinV(Apply(b, c)) <= v
    ensures MaxV(b) == v
  {
    MaxOverIs(b, EmptyCells(b), v, a);
  }

  /** The dual of `MaxVIs` for the minimiser. */
  lemma MinVIs(b: Board, v: int, a: Action)
    requires IsBoard(b) && !Terminal(b)
    requires a in EmptyCells(b) && MaxV(Apply(b, a)) == v
    requires forall c {:trigger MaxV(Apply(b, c))} :: c in EmptyCells(b) ==> MaxV(Apply(b, c)) >= v
    ensures MinV(b) == v
  {
    MinOverIs(b, EmptyCells(b), v, a);
  }

  /** The maximiser's search: on a finished game the utility and no move; otherwise the
      legal moves are tried in turn, keeping the first strictly better value, and the search
      stops early at value 1. Returns the exact game value and a move that achieves it. */
  method MaxValue(b: Board) returns (value: int, optimalMove: Option<Action>)
    requires IsBoard(b)
    ensures value == MaxV(b)
    ensures Terminal(b) ==> value == Utility(b) && optimalMove == None
    ensures !Terminal(b) ==> optimalMove.Some? && optimalMove.value in EmptyCells(b)
    ensures !Terminal(b) ==> MinV(Apply(b, optimalMove.value)) == value
    decreases |EmptyCells(b)|, 1
  {
    if Terminal(b) {
      return Utility(b), None;
    }
    TerminalIff(b);
    value := -50;
    optimalMove := None;
    var legal := Actions(b);
    var rest := legal;
    while rest != {}
      invariant rest <= legal
      invariant optimalMove.None? <==> rest == legal
      invariant optimalMove.None? ==> value == -50
      invariant optimalMove.Some? ==> optimalMove.value in legal - rest
      invariant optimalMove.Some? ==> MinV(Apply(b, optimalMove.value)) == value
      invariant forall a {:trigger MinV(Apply(b, a))} :: a in legal - rest ==> MinV(Apply(b, a)) <= value
    {
      var action :| action in rest;
      rest := rest - {action};
      var next := Result(b, action);
      var currentMax := MinValueOnly(next.value);
      if value < currentMax {
        value, optimalMove := currentMax, Some(action);
        if value == 1 {
          MaxVIs(b, value, action);
          return;
        }
      }
    }
    MaxVIs(b, value, optimalMove.value);
  }

  /** The minimiser's search, dual to `MaxValue`, stopping early at value -1. */
  method MinValue(b: Board) returns (value: int, optimalMove: Option<Action>)
    requires IsBoard(b)
    ensures value == MinV(b)
    ensures Terminal(b) ==> value == Utility(b) && optimalMove == None
    ensures !Terminal(b) ==> optimalMove.Some? && optimalMove.value in EmptyCells(b)
    ensures !Terminal(b) ==> MaxV(Apply(b, optimalMove.value)) == value
    decreases |EmptyCells(b)|, 1
  {
    if Terminal(b) {
      return Utility(b), None;
    }
    TerminalIff(b);
    value := 50;
    optimalMove := None;
    var legal := Actions(b);
    var rest := legal;
    while rest != {}
      invariant rest <= legal
      invariant optimalMove.None? <==> rest == legal
      invariant optimalMove.None? ==> value == 50
      invariant optimalMove.Some? ==> optimalMove.value in legal - rest
      invariant optimalMove.Some? ==> MaxV(Apply(b, optimalMove.value)) == value
      invariant forall a {:trigger MaxV(Apply(b, a))} :: a in legal - rest ==> MaxV(Apply(b, a)) >= value
    {
      var action :| action in rest;
      rest := rest - {action};
      var next := Result(b, action);
      var currentMin := MaxValueOnly(next.value);
      if value > currentMin {
        value, optimalMove := currentMin, Some(action);
        if value == -1 {
          MinVIs(b, value, action);
          return;
        }
      }
    }
    MinVIs(b, value, optimalMove.value);
  }

  /** The value component of `MaxValue` (the source's `max_value(board)[0]`). */
  method MaxValueOnly(b: Board) returns (value: int)
    requires IsBoard(b)
    ensures value == MaxV(b)
    decreases |EmptyCells(b)|, 2
  {
    var move;
    value, move := MaxValue(b);
  }

  /** The value component of `MinValue` (the source's `min_value(board)[0]`). */
  method MinValueOnly(b: Board) returns (value: int)
    requires IsBoard(b)
    ensures value == MinV(b)
    decreases |EmptyCells(b)|, 2
  {
    var move;
    value, move := MinValue(b);
  }

  /** The optimal move for the player to move: none on a finished game, otherwise a legal
      move that achieves the game value for that player. */
  method Minimax(b: Board) returns (move: Option<Action>)
    requires IsBoard(b)
    ensures move.None? <==> Terminal(b)
    ensures move.Some? ==> move.value in EmptyCells(b)
    ensures move.Some? && NextPlayer(b) == X ==> MinV(Apply(b, move.value)) == MaxV(b)
    ensures move.Some? && NextPlayer(b) == O ==> MaxV(Apply(b, move.value)) == MinV(b)
  {
    if Terminal(b) {
      return None;
    }
    var currentPlayer := Player(b);
    if currentPlayer == X {
      var _, optimal := MaxValue(b);
      move := optimal;
    } else {
      var _, optimal := MinValue(b);
      move := optimal;
    }
  }
}
