/**
 * The two-player page (js/script.js): both players click on one screen,
 * player 1 with O and player 2 with X.  After each mark only the lines of the
 * winning-squares table that pass through the square just marked are read,
 * cell by cell, stopping early; this module proves that the shortcut gives the
 * same verdict as the full eight-line test whenever the mover had no complete
 * line before.
 */
module HumanGame {
  import opened Grid

  type Square = i: nat | i < 9

  type Line = l: seq<Square> | |l| == 3 witness [0, 1, 2]

  /** The winningSquares table: rows, then columns, then the two diagonals. */
  const WINNING_SQUARES: seq<Line> :=
    [[0, 1, 2], [3, 4, 5], [6, 7, 8],
     [0, 3, 6], [1, 4, 7], [2, 5, 8],
     [0, 4, 8], [2, 4, 6]]

  /** The squares of row `r`, left to right. */
  function RowSquares(r: nat): seq<nat> {
    [3 * r, 3 * r + 1, 3 * r + 2]
  }

  /** The squares of column `c`, top to bottom. */
  function ColumnSquares(c: nat): seq<nat> {
    [c, c + 3, c + 6]
  }

  /** The table has eight lines of three distinct squares: three rows, three columns, two diagonals. */
  lemma TableShape()
    ensures |WINNING_SQUARES| == 8
    ensures forall i :: 0 <= i < 8 ==> WINNING_SQUARES[i][0] < WINNING_SQUARES[i][1] < WINNING_SQUARES[i][2]
    ensures forall r :: 0 <= r < 3 ==> WINNING_SQUARES[r] == RowSquares(r)
    ensures forall c :: 0 <= c < 3 ==> WINNING_SQUARES[c + 3] == ColumnSquares(c)
    ensures WINNING_SQUARES[6] == [0, 4, 8] && WINNING_SQUARES[7] == [2, 4, 6]
  {
  }

  /** The row and the column a square sits in, counted from the top left. */
  function RowOf(i: Square): nat {
    if i < 3 then 0 else if i < 6 then 1 else 2
  }

  function ColumnOf(i: Square): nat {
    i - 3 * RowOf(i)
  }

  /** Square `b` lies halfway between `a` and `c`: the three are in a straight line. */
  predicate Straight(a: Square, b: Square, c: Square) {
    RowOf(a) + RowOf(c) == 2 * RowOf(b) && ColumnOf(a) + ColumnOf(c) == 2 * ColumnOf(b)
  }

  /** Every table line lists three squares in a straight line, in ascending order. */
  lemma TableLinesAreStraight(i: nat)
    requires i < |WINNING_SQUARES|
    ensures var line := WINNING_SQUARES[i];
            line[0] < line[1] < line[2] && Straight(line[0], line[1], line[2])
  {
  }

  /** The eight lines of the grid, each by its squares in ascending order. */
  predicate GridLine(a: Square, b: Square, c: Square) {
    (a == 0 && b == 1 && c == 2) || (a == 3 && b == 4 && c == 5) || (a == 6 && b == 7 && c == 8) ||
    (a == 0 && b == 3 && c == 6) || (a == 1 && b == 4 && c == 7) || (a == 2 && b == 5 && c == 8) ||
    (a == 0 && b == 4 && c == 8) || (a == 2 && b == 4 && c == 6)
  }

  /** Three ascending squares in a straight line are one of the grid's eight lines. */
  lemma StraightTriples(a: Square, b: Square, c: Square)
    requires a < b < c && Straight(a, b, c)
    ensures GridLine(a, b, c)
  {
    // c continues the step from a to b, so a and b fix it
    assert RowOf(c) == 2 * RowOf(b) - RowOf(a) && ColumnOf(c) == 2 * ColumnOf(b) - ColumnOf(a);
    if RowOf(a) == RowOf(b) {
      assert RowOf(c) == RowOf(a);
    } else if ColumnOf(a) == ColumnOf(b) {
      assert ColumnOf(c) == ColumnOf(a);
    } else if a == 0 {
      assert b == 4;
    } else {
      assert a == 2 && b == 4;
    }
  }

  /** Each of the grid's eight lines is listed in the table; its position is returned. */
  lemma GridLineIsListed(a: Square, b: Square, c: Square) returns (i: nat)
    requires GridLine(a, b, c)
    ensures i < |WINNING_SQUARES| && WINNING_SQUARES[i] == [a, b, c]
  {
    if a == 0 && b == 1 {
      i := 0; assert WINNING_SQUARES[0] == [0, 1, 2];
    } else if a == 3 {
      i := 1; assert WINNING_SQUARES[1] == [3, 4, 5];
    } else if a == 6 {
      i := 2; assert WINNING_SQUARES[2] == [6, 7, 8];
    } else if a == 0 && b == 3 {
      i := 3; assert WINNING_SQUARES[3] == [0, 3, 6];
    } else if a == 1 {
      i := 4; assert WINNING_SQUARES[4] == [1, 4, 7];
    } else if a == 2 && b == 5 {
      i := 5; assert WINNING_SQUARES[5] == [2, 5, 8];
    } else if a == 0 {
      i := 6; assert WINNING_SQUARES[6] == [0, 4, 8];
    } else {
      i := 7; assert WINNING_SQUARES[7] == [2, 4, 6];
    }
  }

  /**
   * Every three squares in a straight line form a line of the table: none is
   * missing.  The line's position in the table is returned.
   */
  lemma StraightLineIsInTable(a: Square, b: Square, c: Square) returns (i: nat)
    requires a < b < c && Straight(a, b, c)
    ensures i < |WINNING_SQUARES| && WINNING_SQUARES[i] == [a, b, c]
  {
    StraightTriples(a, b, c);
    i := GridLineIsListed(a, b, c);
  }

  /**
   * jQuery.inArray(value, arr): the position of the first occurrence of
   * `value`, or -1 when there is none.
   */
  function InArray(value: nat, arr: seq<nat>): (r: int)
    ensures -1 <= r < |arr|
    ensures r == -1 <==> forall j :: 0 <= j < |arr| ==> arr[j] != value
    ensures r != -1 ==> arr[r] == value && forall j :: 0 <= j < r ==> arr[j] != value
  {
    if arr == [] then -1
    else if arr[0] == value then 0
    else
      var r := InArray(value, arr[1..]);
      if r == -1 then -1 else r + 1
  }

  /** Every square of `line` carries `m`. */
  predicate LineComplete(b: Board, line: seq<Square>, m: Mark) {
    forall t :: 0 <= t < |line| ==> b[line[t]] == m
  }

  /** A complete line of the eight-line test is a complete line of the table. */
  lemma WinningHasTableLine(b: Board, m: Mark)
    requires Winning(b, m)
    ensures exists i :: 0 <= i < |WINNING_SQUARES| && LineComplete(b, WINNING_SQUARES[i], m)
  {
    if b[0] == m && b[1] == m && b[2] == m { assert LineComplete(b, WINNING_SQUARES[0], m); }
    else if b[3] == m && b[4] == m && b[5] == m { assert LineComplete(b, WINNING_SQUARES[1], m); }
    else if b[6] == m && b[7] == m && b[8] == m { assert LineComplete(b, WINNING_SQUARES[2], m); }
    else if b[0] == m && b[3] == m && b[6] == m { assert LineComplete(b, WINNING_SQUARES[3], m); }
    else if b[1] == m && b[4] == m && b[7] == m { assert LineComplete(b, WINNING_SQUARES[4], m); }
    else if b[2] == m && b[5] == m && b[8] == m { assert LineComplete(b, WINNING_SQUARES[5], m); }
    else if b[0] == m && b[4] == m && b[8] == m { assert LineComplete(b, WINNING_SQUARES[6], m); }
    else { assert LineComplete(b, WINNING_SQUARES[7], m); }
  }

  /** A complete line of the table is a win for the eight-line test. */
  lemma TableLineIsWinning(b: Board, m: Mark, i: nat)
    requires i < |WINNING_SQUARES| && LineComplete(b, WINNING_SQUARES[i], m)
    ensures Winning(b, m)
  {
    var line := WINNING_SQUARES[i];
    assert b[line[0]] == m && b[line[1]] == m && b[line[2]] == m;
  }

  /** The table agrees with the fixed eight-line test. */
  lemma TableAgreesWithWinning(b: Board, m: Mark)
    ensures Winning(b, m) <==> exists i :: 0 <= i < |WINNING_SQUARES| && LineComplete(b, WINNING_SQUARES[i], m)
  {
    if Winning(b, m) {
      WinningHasTableLine(b, m);
    }
    if exists i :: 0 <= i < |WINNING_SQUARES| && LineComplete(b, WINNING_SQUARES[i], m) {
      var i :| 0 <= i < |WINNING_SQUARES| && LineComplete(b, WINNING_SQUARES[i], m);
      TableLineIsWinning(b, m, i);
    }
  }

  /** Some line through `box` is complete for `m`: the verdict checkGameStatus computes. */
  predicate WinsThrough(table: seq<Line>, b: Board, box: nat, m: Mark) {
    exists i :: 0 <= i < |table| && InArray(box, table[i]) != -1 && LineComplete(b, table[i], m)
  }

  /**
   * The indices, in table order, of the lines among the first `n` that pass
   * through `box`: the lines checkGameStatus looks at.
   */
  function LinesThrough(table: seq<Line>, box: nat, n: nat): (r: seq<nat>)
    requires n <= |table|
    ensures |r| <= n
    ensures forall t :: 0 <= t < |r| ==> r[t] < n && InArray(box, table[r[t]]) != -1
    ensures forall t, u :: 0 <= t < u < |r| ==> r[t] < r[u]
  {
    if n == 0 then []
    else LinesThrough(table, box, n - 1) + (if InArray(box, table[n - 1]) != -1 then [n - 1] else [])
  }

  /** Where a line through `box` sits in LinesThrough: no such line is left out. */
  ghost function LinePosition(table: seq<Line>, box: nat, n: nat, i: nat): (t: nat)
    requires i < n <= |table| && InArray(box, table[i]) != -1
    ensures t < |LinesThrough(table, box, n)| && LinesThrough(table, box, n)[t] == i
  {
    if i == n - 1 then |LinesThrough(table, box, n - 1)| else LinePosition(table, box, n - 1, i)
  }

  /** The lines through `box` among the first `n` are the first ones among them all. */
  lemma {:induction false} LinesThroughPrefix(table: seq<Line>, box: nat, n: nat)
    requires n <= |table|
    ensures |LinesThrough(table, box, n)| <= |LinesThrough(table, box, |table|)|
    ensures LinesThrough(table, box, n) == LinesThrough(table, box, |table|)[..|LinesThrough(table, box, n)|]
    decreases |table| - n
  {
    if n < |table| {
      var all, next, short := LinesThrough(table, box, |table|), LinesThrough(table, box, n + 1), LinesThrough(table, box, n);
      LinesThroughPrefix(table, box, n + 1);
      assert next[..|short|] == short;
      assert all[..|next|][..|short|] == all[..|short|];
    }
  }

  /**
   * How many cells of `line` the do/while reads: up to and including the first
   * one not marked `m`, or all of them.
   */
  function CellsRead(b: Board, line: seq<Square>, m: Mark): (n: nat)
    requires |line| > 0
    ensures 1 <= n <= |line|
    ensures forall t :: 0 <= t < n - 1 ==> b[line[t]] == m
    ensures n < |line| ==> b[line[n - 1]] != m
    ensures b[line[n - 1]] == m <==> LineComplete(b, line, m)
  {
    if b[line[0]] != m || |line| == 1 then 1
    else 1 + CellsRead(b, line[1..], m)
  }

  /** A read count that stops at the first unmarked cell, or reads every cell, is CellsRead. */
  lemma ReadCountIsCellsRead(b: Board, line: seq<Square>, m: Mark, n: nat)
    requires 1 <= n <= |line|
    requires forall t :: 0 <= t < n - 1 ==> b[line[t]] == m
    requires n < |line| ==> b[line[n - 1]] != m
    ensures n == CellsRead(b, line, m)
  {
  }

  /**
   * When the mover had no complete line before marking the empty square `box`,
   * the lines through `box` give the same verdict as all eight lines.
   */
  lemma IncrementalAgreesWithFull(b: Board, box: Square, m: Mark)
    requires b[box] == Empty && !Winning(b, m)
    ensures WinsThrough(WINNING_SQUARES, b[box := m], box, m) <==> Winning(b[box := m], m)
  {
    var after := b[box := m];
    TableAgreesWithWinning(b, m);
    TableAgreesWithWinning(after, m);
    if Winning(after, m) {
      var i :| 0 <= i < |WINNING_SQUARES| && LineComplete(after, WINNING_SQUARES[i], m);
    }
  }

  /** The page's state between clicks. */
  datatype Round = Round(squares: Board, currentPlayer: Player, announced: seq<Outcome>)

  /** The page as loaded: player 1 to move. */
  const INITIAL_ROUND := Round(EMPTY_BOARD, 1, [])

  /**
   * checkGameStatus after `mark` went on `box`: a complete line through `box`
   * shows the win screen; otherwise a full board shows the tie screen;
   * otherwise the turn passes.
   */
  function StatusChecked(r: Round, box: nat, mark: Mark): Round {
    if WinsThrough(WINNING_SQUARES, r.squares, box, mark) then r.(announced := r.announced + [Win(r.currentPlayer)])
    else if IsFull(r.squares) then r.(announced := r.announced + [Tie])
    else r.(currentPlayer := NextPlayer(r.currentPlayer))
  }

  /** setSquare: a marked square ignores the click; an empty one takes the current player's mark. */
  function Clicked(r: Round, cell: Square): Round {
    if r.squares[cell] != Empty then r
    else
      var mark := MarkOf(r.currentPlayer);
      StatusChecked(r.(squares := r.squares[cell := mark]), cell, mark)
  }

  /** newGame: a clear board, player 1 to move, the end screen hidden. */
  function Restarted(r: Round): (t: Round)
    ensures t == INITIAL_ROUND
  {
    Round(EMPTY_BOARD, 1, [])
  }

  /** A click on a marked square changes nothing. */
  lemma ClickOnMarkedSquareChangesNothing(r: Round, cell: Square)
    requires r.squares[cell] != Empty
    ensures Clicked(r, cell) == r
  {
  }

  /**
   * As long as the mover had no complete line, a click on an empty square is
   * judged exactly as by the full test: a win before a tie, otherwise the
   * other player moves next.
   */
  lemma ClickAgreesWithFullCheck(r: Round, cell: Square)
    requires r.squares[cell] == Empty && !Winning(r.squares, MarkOf(r.currentPlayer))
    ensures var mark := MarkOf(r.currentPlayer);
            var t := Clicked(r, cell);
            t.squares == r.squares[cell := mark] &&
            (Winning(t.squares, mark) ==> t.announced == r.announced + [Win(r.currentPlayer)] && t.currentPlayer == r.currentPlayer) &&
            (!Winning(t.squares, mark) && IsFull(t.squares) ==> t.announced == r.announced + [Tie] && t.currentPlayer == r.currentPlayer) &&
            (!Winning(t.squares, mark) && !IsFull(t.squares) ==> t.announced == r.announced && t.currentPlayer == NextPlayer(r.currentPlayer))
  {
    IncrementalAgreesWithFull(r.squares, cell, MarkOf(r.currentPlayer));
  }

  /**
   * A game in progress: no line completed for either player, and player 1 is
   * to move exactly when the number of empty squares is odd.
   */
  predicate InProgress(r: Round) {
    !Winning(r.squares, O) && !Winning(r.squares, X) &&
    (r.currentPlayer == 1 <==> |EmptyCells(r.squares)| % 2 == 1)
  }

  /** A new game is in progress. */
  lemma NewGameIsInProgress(r: Round)
    ensures InProgress(Restarted(r))
  {
    BlankListsEverySquare(EMPTY_BOARD);
  }

  /**
   * A click that ends nothing keeps the game in progress, so the incremental
   * check is exact on every click of a game (ClickAgreesWithFullCheck).
   */
  lemma ClickKeepsInProgress(r: Round, cell: Square)
    requires InProgress(r) && r.squares[cell] == Empty
    requires Clicked(r, cell).announced == r.announced
    ensures InProgress(Clicked(r, cell))
  {
    var mark := MarkOf(r.currentPlayer);
    var t := Clicked(r, cell);
    ClickAgreesWithFullCheck(r, cell);
    // nothing was announced, so the mover did not win and the other player moves next
    assert !Winning(t.squares, mark) && t.currentPlayer == NextPlayer(r.currentPlayer);
    MarkKeepsOpponentLines(r.squares, cell, mark);
    EmptyCountAfterMark(r.squares, cell, mark);
  }

  /**
   * Where the scan of checkGameStatus stands before line `i`: it has read,
   * in table order, exactly the lines through `box` before `i` (`cellsRead`
   * cells of each), and none of them was complete.
   */
  ghost predicate Scanned(table: seq<Line>, b: Board, box: nat, m: Mark, i: nat, inspected: seq<nat>, cellsRead: seq<nat>) {
    i <= |table| &&
    inspected == LinesThrough(table, box, i) &&
    |cellsRead| == |inspected| &&
    (forall t :: 0 <= t < |inspected| ==> cellsRead[t] == CellsRead(b, table[inspected[t]], m)) &&
    (forall l :: 0 <= l < i && InArray(box, table[l]) != -1 ==> !LineComplete(b, table[l], m))
  }

  /**
   * What the scan reports: the verdict, the lines read (the first ones through
   * `box`, all of them when there is no win), the cells read in each, and that
   * only the last line read, on a win, was complete.
   */
  ghost predicate ScanReport(table: seq<Line>, b: Board, box: nat, m: Mark, winner: bool, inspected: seq<nat>, cellsRead: seq<nat>) {
    var all := LinesThrough(table, box, |table|);
    (winner <==> WinsThrough(table, b, box, m)) &&
    |inspected| <= |all| && inspected == all[..|inspected|] &&
    (!winner ==> inspected == all) &&
    |cellsRead| == |inspected| &&
    (forall t :: 0 <= t < |inspected| ==> cellsRead[t] == CellsRead(b, table[inspected[t]], m)) &&
    (forall t :: 0 <= t < |inspected| ==> (LineComplete(b, table[inspected[t]], m) <==> winner && t == |inspected| - 1))
  }

  /** Passing over a line not through `box`. */
  lemma ScanSkips(table: seq<Line>, b: Board, box: nat, m: Mark, i: nat, inspected: seq<nat>, cellsRead: seq<nat>)
    requires Scanned(table, b, box, m, i, inspected, cellsRead)
    requires i < |table| && InArray(box, table[i]) == -1
    ensures Scanned(table, b, box, m, i + 1, inspected, cellsRead)
  {
  }

  /** Reading line `i`, through `box` and not complete. */
  lemma ScanReadsOn(table: seq<Line>, b: Board, box: nat, m: Mark, i: nat, inspected: seq<nat>, cellsRead: seq<nat>, j: nat)
    requires Scanned(table, b, box, m, i, inspected, cellsRead)
    requires i < |table| && InArray(box, table[i]) != -1
    requires j == CellsRead(b, table[i], m) && !LineComplete(b, table[i], m)
    ensures Scanned(table, b, box, m, i + 1, inspected + [i], cellsRead + [j])
  {
  }

  /** Reading line `i`, through `box` and complete: the scan stops with a win. */
  lemma ScanStopsAtWin(table: seq<Line>, b: Board, box: nat, m: Mark, i: nat, inspected: seq<nat>, cellsRead: seq<nat>, j: nat)
    requires Scanned(table, b, box, m, i, inspected, cellsRead)
    requires i < |table| && InArray(box, table[i]) != -1
    requires j == CellsRead(b, table[i], m) && LineComplete(b, table[i], m)
    ensures ScanReport(table, b, box, m, true, inspected + [i], cellsRead + [j])
  {
    LinesThroughPrefix(table, box, i + 1);
    var inspected', cellsRead' := inspected + [i], cellsRead + [j];
    assert forall t :: 0 <= t < |inspected| ==> inspected'[t] == inspected[t] && inspected[t] < i;
  }

  /** Past the last line with no complete one: no win. */
  lemma ScanEndsWithoutWin(table: seq<Line>, b: Board, box: nat, m: Mark, inspected: seq<nat>, cellsRead: seq<nat>)
    requires Scanned(table, b, box, m, |table|, inspected, cellsRead)
    ensures ScanReport(table, b, box, m, false, inspected, cellsRead)
  {
  }

  class TwoPlayerGame {
    const squares: array<Cell>
    var currentPlayer: Player
    var announced: seq<Outcome>

    ghost predicate Valid()
      reads this
    {
      squares.Length == 9
    }

    ghost function State(): Round
      reads this, squares
      requires Valid()
    {
      Round(squares[..], currentPlayer, announced)
    }

    /** The page as loaded. */
    constructor ()
      ensures Valid() && fresh(squares)
      ensures State() == INITIAL_ROUND
    {
      squares := new Cell[9](_ => Empty);
      currentPlayer := 1;
      announced := [];
      new;
      assert squares[..] == EMPTY_BOARD;
    }

    /** setCurrentPlayer: player 1 on a new game, otherwise the inactive player. */
    method SetCurrentPlayer(newGame: bool)
      requires Valid()
      modifies this
      ensures Valid()
      ensures currentPlayer == (if newGame then 1 else NextPlayer(old(currentPlayer)))
      ensures State() == old(State()).(currentPlayer := currentPlayer)
    {
      if newGame {
        currentPlayer := 1;
      } else {
        var inactivePlayerId := (currentPlayer % 2) + 1;
        currentPlayer := inactivePlayerId;
      }
    }

    /** checkTieGame: the marked squares number nine. */
    method CheckTieGame() returns (tie: bool)
      requires Valid()
      ensures tie <==> IsFull(squares[..])
    {
      FullIffNoEmptyCells(squares[..]);
      tie := 9 - |EmptyCells(squares[..])| == squares.Length;
    }

    /**
     * The do/while of checkGameStatus over one line: it reads cells until one
     * is not marked `boxFilled`, or until all are read.
     */
    method ReadLine(squareArray: Line, boxFilled: Mark) returns (winner: bool, j: nat)
      requires Valid()
      ensures winner <==> LineComplete(squares[..], squareArray, boxFilled)
      ensures j == CellsRead(squares[..], squareArray, boxFilled)
    {
      ghost var b: Board := squares[..];
      j := 0;
      winner := squares[squareArray[j]] == boxFilled;
      j := j + 1;
      while winner && j < |squareArray|
        invariant 1 <= j <= |squareArray|
        invariant forall t :: 0 <= t < j - 1 ==> b[squareArray[t]] == boxFilled
        invariant winner <==> b[squareArray[j - 1]] == boxFilled
      {
        winner := squares[squareArray[j]] == boxFilled;
        j := j + 1;
      }
      ReadCountIsCellsRead(b, squareArray, boxFilled, j);
    }

    /**
     * The loop of checkGameStatus.  It skips every line not through
     * `currentBox`, reads the others one by one and stops at the first complete
     * line.  `inspected` lists the lines it read, in order, and `cellsRead`
     * how many cells of each.
     */
    method ScanLines(table: seq<Line>, currentBox: nat, boxFilled: Mark) returns (winner: bool, ghost inspected: seq<nat>, ghost cellsRead: seq<nat>)
      requires Valid()
      ensures winner <==> WinsThrough(table, squares[..], currentBox, boxFilled)
      ensures ScanReport(table, squares[..], currentBox, boxFilled, winner, inspected, cellsRead)
    {
      ghost var b: Board := squares[..];
      winner := false;
      inspected, cellsRead := [], [];
      var i := 0;
      while i < |table|
        invariant !winner && Scanned(table, b, currentBox, boxFilled, i, inspected, cellsRead)
      {
        if InArray(currentBox, table[i]) != -1 {
          var j;
          winner, j := ReadLine(table[i], boxFilled);
          if winner {
            ScanStopsAtWin(table, b, currentBox, boxFilled, i, inspected, cellsRead, j);
            inspected, cellsRead := inspected + [i], cellsRead + [j];
            assert ScanReport(table, b, currentBox, boxFilled, winner, inspected, cellsRead);
            return;
          }
          ScanReadsOn(table, b, currentBox, boxFilled, i, inspected, cellsRead, j);
          inspected, cellsRead := inspected + [i], cellsRead + [j];
        } else {
          ScanSkips(table, b, currentBox, boxFilled, i, inspected, cellsRead);
        }
        i := i + 1;
      }
      ScanEndsWithoutWin(table, b, currentBox, boxFilled, inspected, cellsRead);
      assert ScanReport(table, b, currentBox, boxFilled, winner, inspected, cellsRead);
    }

    /** checkGameStatus: the win screen, the tie screen or the next player. */
    method CheckGameStatus(currentBox: nat, boxFilled: Mark)
      requires Valid()
      modifies this
      ensures Valid()
      ensures State() == StatusChecked(old(State()), currentBox, boxFilled)
    {
      var winner, _, _ := ScanLines(WINNING_SQUARES, currentBox, boxFilled);
      if winner {
        announced := announced + [Win(currentPlayer)];
      } else {
        var tie := CheckTieGame();
        if tie {
          announced := announced + [Tie];
        } else {
          SetCurrentPlayer(false);
        }
      }
    }

    /** setSquare: a click on square `cell`; a marked square ignores it. */
    method SetSquare(cell: Square)
      requires Valid()
      modifies this, squares
      ensures Valid()
      ensures State() == Clicked(old(State()), cell)
    {
      if squares[cell] == Empty {
        ghost var r := State();
        var boxFilled := MarkOf(currentPlayer);
        squares[cell] := boxFilled;
        assert squares[..] == r.squares[cell := boxFilled];
        CheckGameStatus(cell, boxFilled);
      }
    }

    /** newGame: clear every square and give the first move to player 1. */
    method NewGame()
      requires Valid()
      modifies this, squares
      ensures Valid()
      ensures State() == Restarted(old(State()))
    {
      for i := 0 to squares.Length
        modifies squares
        invariant forall j :: 0 <= j < i ==> squares[j] == Empty
      {
        squares[i] := Empty;
      }
      assert squares[..] == EMPTY_BOARD;
      SetCurrentPlayer(true);
      announced := [];
    }
  }
}
