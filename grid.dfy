/**
 * The board shared by both game engines: nine squares in row-major order
 * (0 1 2 / 3 4 5 / 6 7 8), each empty or showing one of the two marks.
 * In the page a mark is a CSS class on the square: box-filled-1 shows O,
 * the computer's mark; box-filled-2 shows X, the human's mark.
 */
module Grid {

  datatype Cell = Empty | O | X

  /** A mark that can be put on a square (a box-filled-N class). */
  type Mark = c: Cell | c != Empty witness O

  type Board = b: seq<Cell> | |b| == 9 witness [Empty, Empty, Empty, Empty, Empty, Empty, Empty, Empty, Empty]

  const EMPTY_BOARD: Board := [Empty, Empty, Empty, Empty, Empty, Empty, Empty, Empty, Empty]

  /** A player is numbered 1 (O) or 2 (X). */
  predicate IsPlayer(p: int) {
    p == 1 || p == 2
  }

  type Player = p: int | IsPlayer(p) witness 2

  /** The class 'box-filled-' + player that a player's click puts on a square. */
  function MarkOf(player: int): (m: Mark)
    requires IsPlayer(player)
    ensures m == O <==> player == 1
    ensures m == X <==> player == 2
  {
    if player == 1 then O else X
  }

  /**
   * setCurrentPlayer(false): the inactive player, (player % 2) + 1, becomes
   * the current one.
   */
  function NextPlayer(player: int): (next: int)
    requires IsPlayer(player)
    ensures IsPlayer(next) && next != player
  {
    (player % 2) + 1
  }

  /** What the end screen announces: winGame for the current player, or tieGame. */
  datatype Outcome = Win(player: int) | Tie

  /** The other player's mark. */
  function Opponent(m: Mark): (r: Mark)
    ensures r != m
  {
    if m == O then X else O
  }

  /**
   * The fixed test for a win: some row, column or diagonal holds `m` in all
   * three squares.
   */
  predicate Winning(b: Board, m: Mark) {
    (b[0] == m && b[1] == m && b[2] == m) ||
    (b[3] == m && b[4] == m && b[5] == m) ||
    (b[6] == m && b[7] == m && b[8] == m) ||
    (b[0] == m && b[3] == m && b[6] == m) ||
    (b[1] == m && b[4] == m && b[7] == m) ||
    (b[2] == m && b[5] == m && b[8] == m) ||
    (b[0] == m && b[4] == m && b[8] == m) ||
    (b[2] == m && b[4] == m && b[6] == m)
  }

  /** Putting down a mark never completes a line for the other player. */
  lemma MarkKeepsOpponentLines(b: Board, i: nat, m: Mark)
    requires i < 9
    ensures Winning(b[i := m], Opponent(m)) ==> Winning(b, Opponent(m))
  {
  }

  /**
   * The indices of the empty squares, in ascending order: every index listed is
   * an empty square and the list is strictly increasing (ListPosition adds
   * that every empty square is listed).
   */
  function EmptyCells(b: seq<Cell>): (r: seq<nat>)
    ensures |r| <= |b|
    ensures forall k :: 0 <= k < |r| ==> r[k] < |b| && b[r[k]] == Empty
    ensures forall k, l :: 0 <= k < l < |r| ==> r[k] < r[l]
  {
    if b == [] then []
    else
      var last := |b| - 1;
      EmptyCells(b[..last]) + (if b[last] == Empty then [last] else [])
  }

  /** Where an empty square sits in EmptyCells: every empty square is listed. */
  ghost function ListPosition(b: seq<Cell>, i: nat): (m: nat)
    requires i < |b| && b[i] == Empty
    ensures m < |EmptyCells(b)| && EmptyCells(b)[m] == i
  {
    var last := |b| - 1;
    if i == last then |EmptyCells(b[..last])| else ListPosition(b[..last], i)
  }

  /** Every square carries a mark (checkTieGame: the filled squares number nine). */
  predicate IsFull(b: Board) {
    forall i :: 0 <= i < 9 ==> b[i] != Empty
  }

  lemma FullIffNoEmptyCells(b: Board)
    ensures IsFull(b) <==> |EmptyCells(b)| == 0
  {
    if !IsFull(b) {
      var i :| 0 <= i < 9 && b[i] == Empty;
      assert EmptyCells(b)[ListPosition(b, i)] == i;
    }
    if |EmptyCells(b)| > 0 {
      assert b[EmptyCells(b)[0]] == Empty;
    }
  }

  /** Overwriting one square changes the number of empty squares by at most one. */
  lemma {:induction false} EmptyCountAfterUpdate(b: seq<Cell>, i: nat, c: Cell)
    requires i < |b|
    ensures |EmptyCells(b[i := c])| + (if b[i] == Empty then 1 else 0)
         == |EmptyCells(b)| + (if c == Empty then 1 else 0)
  {
    var last := |b| - 1;
    var b' := b[i := c];
    var tail := if b[last] == Empty then [last] else [];
    var tail' := if b'[last] == Empty then [last] else [];
    assert EmptyCells(b) == EmptyCells(b[..last]) + tail;
    assert EmptyCells(b') == EmptyCells(b'[..last]) + tail';
    if i == last {
      assert b'[..last] == b[..last];
    } else {
      assert b'[..last] == b[..last][i := c];
      assert tail' == tail;
      EmptyCountAfterUpdate(b[..last], i, c);
    }
  }

  /** Putting a mark on an empty square leaves one empty square fewer. */
  lemma EmptyCountAfterMark(b: Board, i: nat, m: Mark)
    requires i < 9 && b[i] == Empty
    ensures |EmptyCells(b[i := m])| == |EmptyCells(b)| - 1
  {
    EmptyCountAfterUpdate(b, i, m);
  }

  /** With exactly eight squares empty, a marked square is the only marked one. */
  lemma OnlyMarkAtEightEmpty(b: Board, i: nat, j: nat)
    requires |EmptyCells(b)| == 8
    requires i < 9 && j < 9 && i != j && b[i] != Empty
    ensures b[j] == Empty
  {
    var cleared := b[i := Empty];
    EmptyCountAfterUpdate(b, i, Empty);
    EmptyCountAfterUpdate(cleared, j, Empty);
    assert |EmptyCells(cleared[j := Empty])| <= 9;
  }

  /** On a blank board every square is listed. */
  lemma {:induction false} BlankListsEverySquare(b: seq<Cell>)
    requires forall i :: 0 <= i < |b| ==> b[i] == Empty
    ensures |EmptyCells(b)| == |b|
  {
    if b != [] {
      BlankListsEverySquare(b[..|b| - 1]);
    }
  }
}
