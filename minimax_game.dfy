/**
 * The page state of the game against the computer (js/minimax.js): the nine
 * squares, whose turn it is, whether the computer plays, how hard it plays,
 * and the end-of-game screens shown so far.  Each handler is specified by a
 * transition function on a Session value; the Game class holds the same state
 * in fields and its methods are proved to perform those transitions.
 */
module MinimaxGame {
  import opened Grid
  import opened Minimax

  datatype Difficulty = Easy | Expert

  /**
   * One snapshot of the page.  `announced` lists the end screens shown so far
   * (winGame or tieGame), oldest first; a new game hides the screen again.
   */
  datatype Session = Session(
    squares: Board,
    currentPlayer: Player,
    computerPlayer: bool,
    difficulty: Difficulty,
    announced: seq<Outcome>)

  /** The page as loaded: player 2 to move, no computer, expert level. */
  const INITIAL_SESSION := Session(EMPTY_BOARD, 2, false, Expert, [])

  /**
   * isWinner(board, mark): a completed line for `mark` shows the win screen
   * for the current player; otherwise a full board shows the tie screen;
   * otherwise the turn passes.
   */
  function Judged(s: Session, mark: Mark): (t: Session)
    ensures t.squares == s.squares && t.computerPlayer == s.computerPlayer && t.difficulty == s.difficulty
    ensures |t.announced| >= |s.announced|
  {
    if Winning(s.squares, mark) then s.(announced := s.announced + [Win(s.currentPlayer)])
    else if IsFull(s.squares) then s.(announced := s.announced + [Tie])
    else s.(currentPlayer := NextPlayer(s.currentPlayer))
  }

  /**
   * The square bestSpot marks, or -1 when it marks none: the search's index at
   * the expert level (a terminal board gives a move without an index), the
   * `k`-th empty square at the easy level.
   */
  function ComputerSquare(b: Board, difficulty: Difficulty, k: nat): (index: int)
    requires difficulty == Expert ==> |EmptyCells(b)| <= 8
    requires difficulty == Easy ==> k == 0 || k < |EmptyCells(b)|
    ensures index == -1 || (0 <= index < 9 && b[index] == Empty)
    ensures difficulty == Easy ==> (index == -1 <==> |EmptyCells(b)| == 0)
    ensures difficulty == Expert ==> (index == -1 <==> Search(b, O).Terminal?)
  {
    if difficulty == Expert then
      match Search(b, O)
      case Terminal(_) => -1
      case Opening(i) => i
      case Chosen(i, _) => i
    else
      RandomMove(b, k)
  }

  /** bestSpot: the computer's mark goes on the square it picks, if any. */
  function Replied(s: Session, k: nat): (t: Session)
    requires s.difficulty == Expert ==> |EmptyCells(s.squares)| <= 8
    requires s.difficulty == Easy ==> k == 0 || k < |EmptyCells(s.squares)|
  {
    var index := ComputerSquare(s.squares, s.difficulty, k);
    if index == -1 then s else s.(squares := s.squares[index := O])
  }

  /** The reply changes only the board, and there it marks no square already marked. */
  lemma ReplyKeepsMarks(s: Session, k: nat)
    requires s.difficulty == Expert ==> |EmptyCells(s.squares)| <= 8
    requires s.difficulty == Easy ==> k == 0 || k < |EmptyCells(s.squares)|
    ensures Replied(s, k).(squares := s.squares) == s
    ensures forall j :: 0 <= j < 9 && s.squares[j] != Empty ==> Replied(s, k).squares[j] == s.squares[j]
  {
    var index := ComputerSquare(s.squares, s.difficulty, k);
    assert index == -1 || s.squares[index] == Empty;
  }

  /**
   * setSquare for a click on `cell`: refused on a marked square; otherwise the
   * current player's mark goes down and is judged, and in a game against the
   * computer its reply follows and is judged too.  The pair's second half is
   * false exactly when the click is refused.
   */
  function Clicked(s: Session, cell: nat, k: nat): (r: (Session, bool))
    requires cell < 9
    requires k == 0 || k + 1 < |EmptyCells(s.squares)|
  {
    if s.squares[cell] != Empty then (s, false)
    else
      var mark := MarkOf(s.currentPlayer);
      var judged := Judged(s.(squares := s.squares[cell := mark]), mark);
      if !s.computerPlayer then (judged, true)
      else
        EmptyCountAfterMark(s.squares, cell, mark);
        (Judged(Replied(judged, k), O), true)
  }

  /**
   * newGame: the board is cleared, player 2 moves first, the end screen is
   * hidden and the computer plays when chosen.  The level becomes easy when
   * the computer plays and easy is chosen; nothing ever sets it back to expert.
   */
  function Restarted(s: Session, isAI: bool, easyChosen: bool): (t: Session)
    ensures t.squares == EMPTY_BOARD && t.currentPlayer == 2 && t.announced == []
    ensures t.computerPlayer == isAI
    ensures s.difficulty == Easy ==> t.difficulty == Easy
    ensures t.difficulty == Easy <==> s.difficulty == Easy || (isAI && easyChosen)
  {
    Session(EMPTY_BOARD, 2, isAI, if isAI && easyChosen then Easy else s.difficulty, [])
  }

  /** A run of new games, each with its own pair of (isAI, easyChosen) answers. */
  function Restarts(s: Session, choices: seq<(bool, bool)>): Session
    decreases |choices|
  {
    if choices == [] then s
    else Restarts(Restarted(s, choices[0].0, choices[0].1), choices[1..])
  }

  /** Only a run in which the easy level is never chosen leaves the level at expert. */
  lemma {:induction false} ExpertOnlyIfEasyNeverChosen(s: Session, choices: seq<(bool, bool)>)
    ensures Restarts(s, choices).difficulty == Expert <==>
            s.difficulty == Expert && forall i :: 0 <= i < |choices| ==> !(choices[i].0 && choices[i].1)
    decreases |choices|
  {
    if choices != [] {
      var next := Restarted(s, choices[0].0, choices[0].1);
      ExpertOnlyIfEasyNeverChosen(next, choices[1..]);
      assert forall i :: 1 <= i < |choices| ==> choices[i] == choices[1..][i - 1];
    }
  }

  /** A click on a marked square changes nothing and is refused. */
  lemma ClickOnMarkedSquareIsRefused(s: Session, cell: nat, k: nat)
    requires cell < 9 && s.squares[cell] != Empty
    requires k == 0 || k + 1 < |EmptyCells(s.squares)|
    ensures Clicked(s, cell, k) == (s, false)
  {
  }

  /**
   * A click never overwrites a mark: an accepted click puts the current
   * player's mark on the clicked square, and every square marked before keeps
   * its mark, whatever the computer replies.
   */
  lemma ClickNeverOverwrites(s: Session, cell: nat, k: nat)
    requires cell < 9
    requires k == 0 || k + 1 < |EmptyCells(s.squares)|
    ensures Clicked(s, cell, k).1 <==> s.squares[cell] == Empty
    ensures Clicked(s, cell, k).1 ==> Clicked(s, cell, k).0.squares[cell] == MarkOf(s.currentPlayer)
    ensures forall j :: 0 <= j < 9 && s.squares[j] != Empty ==> Clicked(s, cell, k).0.squares[j] == s.squares[j]
  {
    if s.squares[cell] == Empty && s.computerPlayer {
      var mark := MarkOf(s.currentPlayer);
      var judged := Judged(s.(squares := s.squares[cell := mark]), mark);
      EmptyCountAfterMark(s.squares, cell, mark);
      ReplyKeepsMarks(judged, k);
      assert Clicked(s, cell, k).0 == Judged(Replied(judged, k), O);
    }
  }

  /**
   * Two people at one screen: an accepted click is judged on the board with the
   * new mark, a win before a tie, and otherwise the other player moves next.
   */
  lemma TwoPlayerClickIsJudged(s: Session, cell: nat, k: nat)
    requires cell < 9 && s.squares[cell] == Empty && !s.computerPlayer
    requires k == 0 || k + 1 < |EmptyCells(s.squares)|
    ensures var mark := MarkOf(s.currentPlayer);
            var t := Clicked(s, cell, k).0;
            t.squares == s.squares[cell := mark] &&
            (Winning(t.squares, mark) ==> t.announced == s.announced + [Win(s.currentPlayer)] && t.currentPlayer == s.currentPlayer) &&
            (!Winning(t.squares, mark) && IsFull(t.squares) ==> t.announced == s.announced + [Tie] && t.currentPlayer == s.currentPlayer) &&
            (!Winning(t.squares, mark) && !IsFull(t.squares) ==> t.announced == s.announced && t.currentPlayer != s.currentPlayer)
  {
  }

  /**
   * The computer always has a move once the human's move leaves the game
   * open, provided the computer had no line before.
   */
  lemma ComputerCanReply(after: Board, difficulty: Difficulty, k: nat)
    requires |EmptyCells(after)| <= 8
    requires difficulty == Easy ==> k == 0 || k < |EmptyCells(after)|
    requires !Winning(after, X) && !Winning(after, O) && !IsFull(after)
    ensures ComputerSquare(after, difficulty, k) != -1
  {
    FullIffNoEmptyCells(after);
    if difficulty == Expert && |EmptyCells(after)| < 8 {
      TerminalPrecedence(after, O);
    }
  }

  /**
   * A full exchange against the computer: when the human's X leaves the game
   * open, the computer puts its O on a square that was empty (the search's
   * pick at the expert level), and if that does not end the game either, the
   * turn is the human's again with nothing announced.
   */
  lemma ExchangeReturnsTurnToHuman(s: Session, cell: nat, k: nat)
    requires cell < 9 && s.squares[cell] == Empty
    requires s.computerPlayer && s.currentPlayer == 2 && !Winning(s.squares, O)
    requires k == 0 || k + 1 < |EmptyCells(s.squares)|
    requires !Winning(s.squares[cell := X], X) && !IsFull(s.squares[cell := X])
    ensures |EmptyCells(s.squares[cell := X])| == |EmptyCells(s.squares)| - 1
    ensures var after := s.squares[cell := X];
            var index := ComputerSquare(after, s.difficulty, k);
            0 <= index < 9 && after[index] == Empty &&
            (s.difficulty == Expert ==> index == Search(after, O).index) &&
            Clicked(s, cell, k).0.squares == after[index := O]
    ensures var t := Clicked(s, cell, k).0;
            !Winning(t.squares, O) && !IsFull(t.squares) ==> t.currentPlayer == 2 && t.announced == s.announced
    ensures var t := Clicked(s, cell, k).0;
            Winning(t.squares, O) ==> t.currentPlayer == 1 && t.announced == s.announced + [Win(1)]
  {
    var after := s.squares[cell := X];
    EmptyCountAfterMark(s.squares, cell, X);
    MarkKeepsOpponentLines(s.squares, cell, X);
    ComputerCanReply(after, s.difficulty, k);
  }

  /**
   * Against the expert level a human win gets no reply, yet the computer's
   * check still runs: the turn passes to player 1 behind the win screen.
   */
  lemma HumanWinAgainstExpert(s: Session, cell: nat, k: nat)
    requires cell < 9 && s.squares[cell] == Empty
    requires s.computerPlayer && s.difficulty == Expert && s.currentPlayer == 2 && !Winning(s.squares, O)
    requires k == 0 || k + 1 < |EmptyCells(s.squares)|
    requires Winning(s.squares[cell := X], X) && !IsFull(s.squares[cell := X])
    ensures Clicked(s, cell, k) ==
            (s.(squares := s.squares[cell := X], currentPlayer := 1, announced := s.announced + [Win(2)]), true)
  {
    var after := s.squares[cell := X];
    EmptyCountAfterMark(s.squares, cell, X);
    MarkKeepsOpponentLines(s.squares, cell, X);
    if |EmptyCells(after)| == 8 {
      // A win needs three marks, so the board cannot have eight empty squares.
      var i :| 0 <= i < 9 && i != cell && after[i] == X;
      OnlyMarkAtEightEmpty(after, cell, i);
    }
    TerminalPrecedence(after, O);
  }

  /**
   * Against the easy level a human win is still answered: the computer puts
   * its O on the `k`-th square left empty.
   */
  lemma HumanWinAgainstEasy(s: Session, cell: nat, k: nat)
    requires cell < 9 && s.squares[cell] == Empty
    requires s.computerPlayer && s.difficulty == Easy && s.currentPlayer == 2
    requires k == 0 || k + 1 < |EmptyCells(s.squares)|
    requires Winning(s.squares[cell := X], X) && !IsFull(s.squares[cell := X])
    ensures |EmptyCells(s.squares[cell := X])| == |EmptyCells(s.squares)| - 1
    ensures var after := s.squares[cell := X];
            var index := RandomMove(after, k);
            0 <= index < 9 && after[index] == Empty &&
            Clicked(s, cell, k).0.squares == after[index := O] &&
            Clicked(s, cell, k).0.announced[..|s.announced| + 1] == s.announced + [Win(2)]
  {
    var after := s.squares[cell := X];
    EmptyCountAfterMark(s.squares, cell, X);
    FullIffNoEmptyCells(after);
  }

  /**
   * Against the expert level, a human win on the last empty square is
   * announced twice over: the win, then, since the computer's check still
   * runs on the full board, a tie.
   */
  lemma LastSquareWinAlsoAnnouncesTie(s: Session, cell: nat, k: nat)
    requires cell < 9 && s.squares[cell] == Empty && |EmptyCells(s.squares)| == 1
    requires s.computerPlayer && s.difficulty == Expert && s.currentPlayer == 2 && !Winning(s.squares, O)
    requires k == 0 || k + 1 < |EmptyCells(s.squares)|
    requires Winning(s.squares[cell := X], X)
    ensures Clicked(s, cell, k) ==
            (s.(squares := s.squares[cell := X], announced := s.announced + [Win(2), Tie]), true)
  {
    var after := s.squares[cell := X];
    EmptyCountAfterMark(s.squares, cell, X);
    MarkKeepsOpponentLines(s.squares, cell, X);
    FullIffNoEmptyCells(after);
    TerminalPrecedence(after, O);
    assert s.announced + [Win(2)] + [Tie] == s.announced + [Win(2), Tie];
  }

  /**
   * The human is to move in an open game against the computer: X's turn, no
   * line completed and an odd number of empty squares.
   */
  predicate HumanToMove(s: Session) {
    s.computerPlayer && s.currentPlayer == 2 &&
    !Winning(s.squares, X) && !Winning(s.squares, O) &&
    |EmptyCells(s.squares)| % 2 == 1
  }

  /** A new game against the computer starts with the human to move. */
  lemma NewComputerGameIsHumanToMove(s: Session, easyChosen: bool)
    ensures HumanToMove(Restarted(s, true, easyChosen))
  {
    BlankListsEverySquare(EMPTY_BOARD);
  }

  /**
   * Every exchange that announces nothing hands the turn back to the human:
   * each side has put down one mark, so the count of empty squares stays odd.
   */
  lemma ExchangeKeepsHumanToMove(s: Session, cell: nat, k: nat)
    requires HumanToMove(s)
    requires cell < 9 && s.squares[cell] == Empty
    requires k == 0 || k + 1 < |EmptyCells(s.squares)|
    requires Clicked(s, cell, k).0.announced == s.announced
    ensures HumanToMove(Clicked(s, cell, k).0)
    ensures |EmptyCells(Clicked(s, cell, k).0.squares)| == |EmptyCells(s.squares)| - 2
  {
    var after := s.squares[cell := X];
    EmptyCountAfterMark(s.squares, cell, X);
    MarkKeepsOpponentLines(s.squares, cell, X);
    var judged := Judged(s.(squares := after), X);
    var replied := Replied(judged, k);
    assert !Winning(after, X) && !IsFull(after) by {
      assert |Judged(replied, O).announced| >= |replied.announced|;
    }
    ComputerCanReply(after, s.difficulty, k);
    var index := ComputerSquare(after, s.difficulty, k);
    EmptyCountAfterMark(after, index, O);
    MarkKeepsOpponentLines(after, index, O);
  }

  /**
   * The page's state.  `squares` is the fixed list of nine squares; the other
   * fields are the page's variables.
   */
  class Game {
    const squares: array<Cell>
    var currentPlayer: Player
    var computerPlayer: bool
    var difficulty: Difficulty
    var announced: seq<Outcome>

    ghost predicate Valid()
      reads this
    {
      squares.Length == 9
    }

    ghost function State(): Session
      reads this, squares
      requires Valid()
    {
      Session(squares[..], currentPlayer, computerPlayer, difficulty, announced)
    }

    /** The page as loaded. */
    constructor ()
      ensures Valid() && fresh(squares)
      ensures State() == INITIAL_SESSION
    {
      squares := new Cell[9](_ => Empty);
      currentPlayer := 2;
      computerPlayer := false;
      difficulty := Expert;
      announced := [];
      new;
      assert squares[..] == EMPTY_BOARD;
    }

    /** setCurrentPlayer: player 2 on a new game, otherwise the inactive player. */
    method SetCurrentPlayer(newGame: bool)
      requires Valid()
      modifies this
      ensures Valid()
      ensures currentPlayer == (if newGame then 2 else NextPlayer(old(currentPlayer)))
      ensures State() == old(State()).(currentPlayer := currentPlayer)
    {
      if newGame {
        currentPlayer := 2;
      } else {
        var inactivePlayerId := (currentPlayer % 2) + 1;
        currentPlayer := inactivePlayerId;
      }
    }

    /** checkTieGame: the marked squares number nine. */
    method CheckTieGame() returns (tie: bool)
      requires Valid()
      ensures tie <==> IsFull(squares[..])
    {
      FullIffNoEmptyCells(squares[..]);
      tie := 9 - |EmptyCells(squares[..])| == squares.Length;
    }

    /** isWinner: the win screen, the tie screen or the next player. */
    method IsWinner(mark: Mark)
      requires Valid()
      modifies this
      ensures Valid()
      ensures State() == Judged(old(State()), mark)
    {
      if Winning(squares[..], mark) {
        announced := announced + [Win(currentPlayer)];
      } else {
        var tie := CheckTieGame();
        if tie {
          announced := announced + [Tie];
        } else {
          SetCurrentPlayer(false);
        }
      }
    }

    /** bestSpot: the search's move at the expert level, the `k`-th empty square at the easy one. */
    method BestSpot(k: nat)
      requires Valid()
      requires difficulty == Expert ==> |EmptyCells(squares[..])| <= 8
      requires difficulty == Easy ==> k == 0 || k < |EmptyCells(squares[..])|
      modifies squares
      ensures State() == Replied(old(State()), k)
    {
      var index: int;
      if difficulty == Expert {
        var computerMove := Minimax.Minimax(squares, O);
        index := if computerMove.Terminal? then -1 else computerMove.index;
      } else {
        index := RandomMove(squares[..], k);
      }
      if index != -1 {
        squares[index] := O;
      }
    }

    /** setSquare: a click on square `cell`; false when the square is already marked. */
    method SetSquare(cell: nat, k: nat) returns (accepted: bool)
      requires Valid() && cell < 9
      requires k == 0 || k + 1 < |EmptyCells(squares[..])|
      modifies this, squares
      ensures Valid()
      ensures (State(), accepted) == Clicked(old(State()), cell, k)
    {
      if squares[cell] != Empty {
        return false;
      }
      ghost var s := State();
      var boxFilled := MarkOf(currentPlayer);
      squares[cell] := boxFilled;
      assert squares[..] == s.squares[cell := boxFilled];
      IsWinner(boxFilled);
      if computerPlayer {
        EmptyCountAfterMark(s.squares, cell, boxFilled);
        BestSpot(k);
        IsWinner(O);
      }
      accepted := true;
    }

    /** newGame: clear every square, then set up the players and the level. */
    method NewGame(isAI: bool, easyChosen: bool)
      requires Valid()
      modifies this, squares
      ensures Valid()
      ensures State() == Restarted(old(State()), isAI, easyChosen)
    {
      for i := 0 to squares.Length
        modifies squares
        invariant forall j :: 0 <= j < i ==> squares[j] == Empty
      {
        squares[i] := Empty;
      }
      assert squares[..] == EMPTY_BOARD;
      computerPlayer := isAI;
      if computerPlayer && easyChosen {
        difficulty := Easy;
      }
      SetCurrentPlayer(true);
      announced := [];
    }
  }
}
