/**
 * The computer player's search: an exhaustive, unpruned minimax over the
 * board, with an opening book for the computer's first move.  O is the
 * computer and X the human; scores are the computer's view of the position.
 */
module Minimax {
  import opened Grid

  datatype Option<T> = None | Some(value: T)

  /**
   * What one search hands back.  The three shapes are the three objects the
   * search builds: the opening book's move carries an index and no score, a
   * decided or full board a score and no index, and a searched position the
   * chosen square with its score.
   */
  datatype Move =
    | Opening(index: nat)
    | Terminal(score: int)
    | Chosen(index: nat, score: int)

  /** One entry of the list of tried moves: the square and the score its reply search gave. */
  datatype Scored = Scored(index: nat, score: int)

  /** The squares the opening book prefers, in priority order: centre, then the corners. */
  const OPENING_MOVES: seq<nat> := [4, 0, 2, 6, 8]

  const HUMAN_WINS := -10
  const COMPUTER_WINS := 10
  const DRAW := 0

  predicate IsScore(s: int) {
    s == HUMAN_WINS || s == DRAW || s == COMPUTER_WINS
  }

  /** The first of `candidates` that is an empty square, if any. */
  function FirstFree(b: Board, candidates: seq<nat>): (r: Option<nat>)
    requires forall k :: 0 <= k < |candidates| ==> candidates[k] < 9
    ensures r.None? <==> forall k :: 0 <= k < |candidates| ==> b[candidates[k]] != Empty
    ensures r.Some? ==> r.value < 9 && b[r.value] == Empty
    ensures r.Some? ==> exists k :: 0 <= k < |candidates| && candidates[k] == r.value && b[r.value] == Empty &&
                                   forall j :: 0 <= j < k ==> b[candidates[j]] != Empty
  {
    if candidates == [] then None
    else if b[candidates[0]] == Empty then Some(candidates[0])
    else
      var r := FirstFree(b, candidates[1..]);
      assert r.Some? ==> exists k :: 0 <= k < |candidates| && candidates[k] == r.value && b[r.value] == Empty &&
                                   forall j :: 0 <= j < k ==> b[candidates[j]] != Empty by {
        if r.Some? {
          var k :| 0 <= k < |candidates| - 1 && candidates[1..][k] == r.value && b[r.value] == Empty &&
                   forall j :: 0 <= j < k ==> b[candidates[1..][j]] != Empty;
          assert forall j :: 0 <= j < k + 1 ==> b[candidates[j]] != Empty by {
            forall j | 0 <= j < k + 1 ensures b[candidates[j]] != Empty {
              if j > 0 { assert candidates[j] == candidates[1..][j - 1]; }
            }
          }
        }
      }
      r
  }

  /** The opening book's pick: the first empty square of OPENING_MOVES. */
  function OpeningBook(b: Board): Option<nat> {
    FirstFree(b, OPENING_MOVES)
  }

  /** The computer maximises the score and the human minimises it. */
  predicate Better(player: Mark, s: int, t: int) {
    if player == O then s > t else s < t
  }

  /**
   * The position of the move the selection loop keeps: the first one whose
   * score is the greatest (computer to move) or the least (human to move).
   */
  function FirstBest(player: Mark, moves: seq<Scored>): (k: nat)
    requires |moves| > 0
    ensures k < |moves|
    ensures player == O ==> forall j :: 0 <= j < |moves| ==> moves[j].score <= moves[k].score
    ensures player == X ==> forall j :: 0 <= j < |moves| ==> moves[k].score <= moves[j].score
    ensures forall j :: 0 <= j < k ==> moves[j].score != moves[k].score
  {
    if |moves| == 1 then 0
    else
      var last := |moves| - 1;
      var k := FirstBest(player, moves[..last]);
      assert forall j :: 0 <= j < last ==> moves[..last][j] == moves[j];
      if Better(player, moves[last].score, moves[k].score) then last else k
  }

  /**
   * The reference definition of the search.  In order: the opening book when
   * exactly eight squares are empty; a human win (-10) before a computer win
   * (+10) before a full board (0), scores not discounted by depth; otherwise
   * every empty square in ascending order is tried for `player` and scored by
   * the opponent's search, and the first best of them is returned.
   */
  function Search(b: Board, player: Mark): (r: Move)
    requires |EmptyCells(b)| <= 8
    ensures r.Opening? ==> |EmptyCells(b)| == 8
    ensures r.Opening? || r.Chosen? ==> r.index < 9 && b[r.index] == Empty
    ensures !r.Opening? ==> IsScore(r.score)
    decreases |EmptyCells(b)|, 1, 0
  {
    var spots := EmptyCells(b);
    var book := OpeningBook(b);
    if |spots| == 8 && book.Some? then Opening(book.value)
    else if Winning(b, X) then Terminal(HUMAN_WINS)
    else if Winning(b, O) then Terminal(COMPUTER_WINS)
    else if |spots| == 0 then Terminal(DRAW)
    else
      var moves := Candidates(b, player, spots);
      var k := FirstBest(player, moves);
      Chosen(moves[k].index, moves[k].score)
  }

  /** The score the search gives to `player` taking the empty square `i`: the opponent's search of the result. */
  function ScoreAfter(b: Board, player: Mark, i: nat): (s: int)
    requires |EmptyCells(b)| <= 8
    requires i < 9 && b[i] == Empty
    ensures IsScore(s)
    decreases |EmptyCells(b)|, 0, 0
  {
    EmptyCountAfterMark(b, i, player);
    Search(b[i := player], Opponent(player)).score
  }

  /** The list of tried moves for the squares `spots`, in their order, each with its score. */
  function Candidates(b: Board, player: Mark, spots: seq<nat>): (moves: seq<Scored>)
    requires |EmptyCells(b)| <= 8
    requires forall k :: 0 <= k < |spots| ==> spots[k] < 9 && b[spots[k]] == Empty
    ensures |moves| == |spots|
    ensures forall k :: 0 <= k < |spots| ==> moves[k] == Scored(spots[k], ScoreAfter(b, player, spots[k]))
    decreases |EmptyCells(b)|, 0, |spots|
  {
    if spots == [] then []
    else
      var last := |spots| - 1;
      Candidates(b, player, spots[..last]) + [Scored(spots[last], ScoreAfter(b, player, spots[last]))]
  }

  /** With exactly eight squares empty the search plays the centre, or corner 0 when the centre is taken. */
  lemma OpeningPicksCentreOrCorner(b: Board, player: Mark)
    requires |EmptyCells(b)| == 8
    ensures Search(b, player) == Opening(if b[4] == Empty then 4 else 0)
  {
    var book := OpeningBook(b);
    if b[4] == Empty {
      assert book == Some(4);
    } else {
      OnlyMarkAtEightEmpty(b, 4, 0);
      assert OPENING_MOVES[1..] == [0, 2, 6, 8];
      assert FirstFree(b, OPENING_MOVES[1..]) == Some(0);
    }
  }

  /**
   * Outside the opening, a decided or full board yields a bare score: a human
   * win first (even when the computer also has a line), then a computer win,
   * then a full board; any other board yields a square with its score.
   */
  lemma TerminalPrecedence(b: Board, player: Mark)
    requires |EmptyCells(b)| < 8
    ensures Winning(b, X) ==> Search(b, player) == Terminal(HUMAN_WINS)
    ensures !Winning(b, X) && Winning(b, O) ==> Search(b, player) == Terminal(COMPUTER_WINS)
    ensures !Winning(b, X) && !Winning(b, O) && IsFull(b) ==> Search(b, player) == Terminal(DRAW)
    ensures !Winning(b, X) && !Winning(b, O) && !IsFull(b) ==> Search(b, player).Chosen?
  {
    FullIffNoEmptyCells(b);
  }

  /**
   * On an undecided board the chosen square is listed among the empty squares,
   * and the move carries the score the search gives to taking it.
   */
  lemma ChosenIsListed(b: Board, player: Mark)
    requires |EmptyCells(b)| <= 8
    requires Search(b, player).Chosen?
    ensures Search(b, player).index in EmptyCells(b)
    ensures Search(b, player).score == ScoreAfter(b, player, Search(b, player).index)
  {
    SearchPicksFirstBest(b, player);
  }

  /**
   * The chosen score is the best over all empty squares: the greatest when the
   * computer moves, the least when the human moves.
   */
  lemma ChosenScoreIsBest(b: Board, player: Mark)
    requires |EmptyCells(b)| <= 8
    requires Search(b, player).Chosen?
    ensures forall j :: 0 <= j < 9 && b[j] == Empty && player == O ==> ScoreAfter(b, player, j) <= Search(b, player).score
    ensures forall j :: 0 <= j < 9 && b[j] == Empty && player == X ==> Search(b, player).score <= ScoreAfter(b, player, j)
  {
    var r := Search(b, player);
    var spots := EmptyCells(b);
    var moves := Candidates(b, player, spots);
    var k := FirstBest(player, moves);
    SearchPicksFirstBest(b, player);
    assert r.score == moves[k].score;
    forall j | 0 <= j < 9 && b[j] == Empty
      ensures player == O ==> ScoreAfter(b, player, j) <= r.score
      ensures player == X ==> r.score <= ScoreAfter(b, player, j)
    {
      var m := ListPosition(b, j);
      assert moves[m].score == ScoreAfter(b, player, j);
    }
  }

  /** Ties go to the lowest index: no empty square before the chosen one has its score. */
  lemma ChosenIsEarliest(b: Board, player: Mark)
    requires |EmptyCells(b)| <= 8
    requires Search(b, player).Chosen?
    ensures forall j :: 0 <= j < Search(b, player).index && b[j] == Empty ==> ScoreAfter(b, player, j) != Search(b, player).score
  {
    var r := Search(b, player);
    var spots := EmptyCells(b);
    var moves := Candidates(b, player, spots);
    var k := FirstBest(player, moves);
    SearchPicksFirstBest(b, player);
    assert r.index == spots[k] && r.score == moves[k].score;
    forall j | 0 <= j < r.index && b[j] == Empty
      ensures ScoreAfter(b, player, j) != r.score
    {
      var m := ListPosition(b, j);
      assert moves[m].score == ScoreAfter(b, player, j);
      EarlierSquareEarlierPosition(spots, m, k);
    }
  }

  /** Unfolds the search on a board it decides by trying moves. */
  lemma SearchPicksFirstBest(b: Board, player: Mark)
    requires |EmptyCells(b)| <= 8
    requires Search(b, player).Chosen?
    ensures var moves := Candidates(b, player, EmptyCells(b));
            Search(b, player) == Chosen(moves[FirstBest(player, moves)].index, moves[FirstBest(player, moves)].score)
  {
  }

  /** In a strictly increasing list, a smaller element sits at an earlier position. */
  lemma EarlierSquareEarlierPosition(s: seq<nat>, m: nat, k: nat)
    requires forall i, j :: 0 <= i < j < |s| ==> s[i] < s[j]
    requires m < |s| && k < |s| && s[m] < s[k]
    ensures m < k
  {
  }

  /**
   * When the player to move can complete a line at once, the search scores the
   * position as that player's win: +10 for the computer, -10 for the human.
   */
  lemma ImmediateWinIsScored(b: Board, player: Mark, j: nat)
    requires |EmptyCells(b)| < 8
    requires !Winning(b, X) && !Winning(b, O)
    requires j < 9 && b[j] == Empty && Winning(b[j := player], player)
    ensures Search(b, player).Chosen?
    ensures Search(b, player).score == if player == O then COMPUTER_WINS else HUMAN_WINS
  {
    FullIffNoEmptyCells(b);
    EmptyCountAfterMark(b, j, player);
    MarkKeepsOpponentLines(b, j, player);
    var after := b[j := player];
    assert Search(after, Opponent(player)).score == if player == O then COMPUTER_WINS else HUMAN_WINS;
    ChosenScoreIsBest(b, player);
  }

  /**
   * The opening-book scan: the first of OPENING_MOVES whose square is empty,
   * if any.
   */
  method ScanOpeningMoves(board: array<Cell>) returns (book: Option<nat>)
    requires board.Length == 9
    ensures book == OpeningBook(board[..])
  {
    var i := 0;
    while i < |OPENING_MOVES|
      invariant 0 <= i <= |OPENING_MOVES|
      invariant OpeningBook(board[..]) == FirstFree(board[..], OPENING_MOVES[i..])
    {
      if board[OPENING_MOVES[i]] == Empty {
        return Some(OPENING_MOVES[i]);
      }
      i := i + 1;
    }
    return None;
  }

  /**
   * The selection loop: scanning the tried moves in order, keep a move only
   * when it beats the best score so far (starting from -10000 for the computer
   * and 10000 for the human), so the first best one wins.
   */
  method SelectBest(player: Mark, moves: seq<Scored>) returns (bestMove: nat)
    requires |moves| > 0
    requires forall k :: 0 <= k < |moves| ==> IsScore(moves[k].score)
    ensures bestMove == FirstBest(player, moves)
  {
    var bestScore := if player == O then -10000 else 10000;
    bestMove := 0;
    var i := 0;
    while i < |moves|
      invariant 0 <= i <= |moves|
      invariant i == 0 ==> bestScore == if player == O then -10000 else 10000
      invariant i > 0 ==> bestMove == FirstBest(player, moves[..i]) && bestScore == moves[bestMove].score
    {
      assert moves[..i + 1][..i] == moves[..i];
      if Better(player, moves[i].score, bestScore) {
        bestScore := moves[i].score;
        bestMove := i;
      }
      i := i + 1;
    }
    assert moves[..i] == moves;
  }

  /**
   * The search as the program runs it, on the board array itself: each empty
   * square is marked for `player`, the opponent's reply is searched, and the
   * square is cleared again before the next one.  It returns what Search
   * specifies and leaves every square as it found it.
   */
  method Minimax(board: array<Cell>, player: Mark) returns (m: Move)
    requires board.Length == 9
    requires |EmptyCells(board[..])| <= 8
    modifies board
    ensures board[..] == old(board[..])
    ensures m == Search(old(board[..]), player)
    decreases |EmptyCells(board[..])|, 2
  {
    var b: Board := board[..];
    var availableSpots := EmptyCells(b);

    if |availableSpots| == 8 {
      var book := ScanOpeningMoves(board);
      if book.Some? {
        return Opening(book.value);
      }
    }

    if Winning(b, X) {
      return Terminal(HUMAN_WINS);
    } else if Winning(b, O) {
      return Terminal(COMPUTER_WINS);
    } else if |availableSpots| == 0 {
      return Terminal(DRAW);
    }

    var moves := TryMoves(board, player, availableSpots);
    var bestMove := SelectBest(player, moves);
    m := Chosen(moves[bestMove].index, moves[bestMove].score);
  }

  /**
   * The loop over the available squares: each is tried in turn and its score
   * recorded.
   */
  method TryMoves(board: array<Cell>, player: Mark, availableSpots: seq<nat>) returns (moves: seq<Scored>)
    requires board.Length == 9
    requires |EmptyCells(board[..])| <= 8
    requires availableSpots == EmptyCells(board[..])
    modifies board
    ensures board[..] == old(board[..])
    ensures moves == Candidates(old(board[..]), player, availableSpots)
    decreases |EmptyCells(board[..])|, 1
  {
    ghost var b: Board := board[..];
    moves := [];
    var i := 0;
    while i < |availableSpots|
      invariant 0 <= i <= |availableSpots|
      invariant board[..] == b
      invariant moves == Candidates(b, player, availableSpots[..i])
    {
      var index := availableSpots[i];
      var score := TryMove(board, player, index);
      CandidatesExtend(b, player, availableSpots, i);
      moves := moves + [Scored(index, score)];
      i := i + 1;
    }
    assert availableSpots[..i] == availableSpots;
  }

  /**
   * One pass of that loop: mark the square for `player`, search the
   * opponent's reply, and clear the square again.
   */
  method TryMove(board: array<Cell>, player: Mark, index: nat) returns (score: int)
    requires board.Length == 9
    requires |EmptyCells(board[..])| <= 8
    requires index < 9 && board[index] == Empty
    modifies board
    ensures board[..] == old(board[..])
    ensures score == ScoreAfter(old(board[..]), player, index)
    decreases |EmptyCells(board[..])|, 0
  {
    ghost var b: Board := board[..];
    board[index] := player;
    assert board[..] == b[index := player];
    EmptyCountAfterMark(b, index, player);
    var result := Minimax(board, Opponent(player));
    score := result.score;
    board[index] := Empty;
    assert board[..] == b[index := player][index := Empty] == b;
  }

  /** Trying one more square appends its scored entry to the list. */
  lemma CandidatesExtend(b: Board, player: Mark, spots: seq<nat>, i: nat)
    requires |EmptyCells(b)| <= 8
    requires forall k :: 0 <= k < |spots| ==> spots[k] < 9 && b[spots[k]] == Empty
    requires i < |spots|
    ensures Candidates(b, player, spots[..i + 1])
         == Candidates(b, player, spots[..i]) + [Scored(spots[i], ScoreAfter(b, player, spots[i]))]
  {
    assert spots[..i + 1][..i] == spots[..i];
  }

  /**
   * The easy opponent's pick: the `k`-th empty square, `k` standing for the
   * draw Math.floor(Math.random() * n) over the n empty squares.  With no empty
   * square the lookup finds nothing and the index is -1.
   */
  function RandomMove(b: Board, k: nat): (index: int)
    requires k < |EmptyCells(b)| || k == 0
    ensures index == -1 <==> |EmptyCells(b)| == 0
    ensures index != -1 ==> 0 <= index < 9 && b[index] == Empty
  {
    var availableSpots := EmptyCells(b);
    if |availableSpots| == 0 then -1 else availableSpots[k]
  }
}
