# Tic-tac-toe engine: minimax search and win checks

This project models the game engine of a browser tic-tac-toe app, without its jQuery page layer. The board has nine squares in row-major order. Each square is empty or carries O (class `box-filled-1`, player 1) or X (class `box-filled-2`, player 2).

The app has two pages:

- **`js/minimax.js`: the human (X, player 2) against the computer (O, player 1).**
  - The computer plays at one of two levels. At the expert level it runs an exhaustive minimax search:
    - an opening shortcut when eight squares are empty;
    - unweighted terminal scores: −10 for a human win (checked first), +10 for a computer win, 0 for a full board;
    - a place / recurse / retract loop over the empty squares in ascending order;
    - selection that keeps the first best move (maximum for O, minimum for X).
  - At the easy level it picks the `k`-th empty square.
  - Around the search sit the page's handlers: `setSquare`, `isWinner`, `bestSpot`, `checkTieGame`, `setCurrentPlayer` and `newGame`.
- **`js/script.js`: two humans at one screen.**
  - After each mark, `checkGameStatus` reads only the lines of its `winningSquares` table that pass through the square just marked.
  - Within a line it reads cell by cell and stops at the first cell without the mark. It stops scanning lines at the first complete one.

Modules:

- `Grid` (grid.dfy): cells, marks, players, the eight-line win test, the list of empty squares, and counting lemmas.
- `Minimax` (minimax.dfy):
  - `Search`, a recursive function that states what the search returns;
  - the in-place `Minimax` method, proved equal to `Search` and to restore the board;
  - the opening scan, the selection loop and the random pick;
  - lemmas for opening, terminal precedence, best score and earliest tie-break.
- `MinimaxGame` (minimax_game.dfy):
  - the minimax.js page as a `Session` value with transition functions (`Judged`, `ComputerSquare`, `Replied`, `Clicked`, `Restarted`) and lemmas about whole clicks;
  - class `Game`, whose fields and methods follow the page's variables and handlers, each method proved to perform its transition.
- `HumanGame` (script_game.dfy):
  - the winning-squares table and its geometry;
  - `jQuery.inArray`, the lines through a square, and the cells the do/while reads;
  - the proof that the incremental check agrees with the full test;
  - class `TwoPlayerGame` with the scanning loops and the page's handlers.

### Conventions

- The random draw `Math.floor(Math.random() * n)` is a parameter `k`.
- The page's `isAI()` and `$('#easy').hasClass('ai')` are also parameters, `isAI` and `easyChosen`.
- The end screens that `winGame` and `tieGame` show are recorded in a sequence `announced`: `Win(player)` or `Tie`. `newGame` hides the screen, so it empties the sequence.
- The search never runs on a board with nine empty squares. The human always moves first (player 2 to start, js/minimax.js:344), so the search is only called after a mark. The model therefore requires at most eight empty squares.

### Behaviour of the code that the model keeps

- **Computer's immediate win.** One would expect the computer to take a winning square whenever one is available. The code takes the first move, in square order, whose score is 10. Scores are not weighted by depth, so an earlier square that only wins later scores the same. `ImmediateWinIsScored` proves what the code guarantees: the move carries score 10.
- **Difficulty.** The level looks like a per-game choice. The code at js/minimax.js:301 can set `'easy'` but never sets `'expert'` again, so easy stays for the rest of the page's life. `ExpertOnlyIfEasyNeverChosen` states this.
- **`randomMove` on a full board.** It is reached there: after a human move on the last square, `bestSpot` still runs. What it then marks is jQuery's answer, not the model's (see "## Left out").
- **After a human win, the computer's side still runs.** `setSquare` calls `bestSpot` and `isWinner(squares, computer)` even when the human has just won or tied.
  - Against the expert level, a human win gets no computer move (the search returns a score without an index), but the turn passes to player 1 (`HumanWinAgainstExpert`).
  - Against the easy level, the computer still puts down an O (`HumanWinAgainstEasy`).
  - Against the expert level, a human win on the last square is followed by a tie screen (`LastSquareWinAlsoAnnouncesTie`).

## Model

| member | source | states |
|---|---|---|
| Grid.MarkOf | js/minimax.js:204 | the class `'box-filled-' + player`: O for player 1, X for player 2 |
| Grid.NextPlayer | js/minimax.js:350-353 | `(player % 2) + 1` is a player and is the other one |
| Grid.Opponent | js/minimax.js:115-121 | the recursion alternates marks: the opponent's mark is never the mover's |
| Grid.Winning | js/minimax.js:169-185 | `winning`: true exactly when one of the three rows, three columns or two diagonals carries the mark in all three squares |
| Grid.IsFull | js/minimax.js:328-330 | checkTieGame's test: every one of the nine squares carries a mark |
| Grid.EmptyCells | js/minimax.js:155-157 | only empty squares are listed, each below 9, strictly ascending |
| Grid.ListPosition | js/minimax.js:155-157 | every empty square is listed, at a position this function gives |
| Grid.FullIffNoEmptyCells | js/minimax.js:328-330 | the board is full (checkTieGame) exactly when no square is listed (`availableSpots.length === 0`) |
| Grid.EmptyCountAfterUpdate | js/minimax.js:112-124 | overwriting one square changes the count of empty squares by at most one, in the expected direction |
| Grid.EmptyCountAfterMark | js/minimax.js:112 | placing a mark on an empty square leaves one empty square fewer: the search's termination measure |
| Grid.OnlyMarkAtEightEmpty | js/minimax.js:80-88 | with eight empty squares, every square other than the one marked is empty |
| Grid.BlankListsEverySquare | js/minimax.js:267-269 | on a cleared board all squares are listed as empty |
| Minimax.FirstFree | js/minimax.js:83-88 | none exactly when every candidate is taken; otherwise an empty candidate with every candidate before it taken |
| Minimax.OpeningBook | js/minimax.js:80-88 | the first square of the opening list [4, 0, 2, 6, 8] that is empty, or none when all are marked (the search then goes on) |
| Minimax.FirstBest | js/minimax.js:133-149 | the selected position has the maximum score (O) or the minimum score (X), and no earlier move has that score |
| Minimax.Search | js/minimax.js:69-153 | an opening move only with eight empty squares; a move with an index names an empty square; every score is −10, 0 or 10 |
| Minimax.ScoreAfter | js/minimax.js:112-124 | the score of a tentative move is the opponent's search score on the board with that move, and is −10, 0 or 10 |
| Minimax.Candidates | js/minimax.js:106-128 | one move per listed square, in list order, each with its square and that square's score |
| Minimax.OpeningPicksCentreOrCorner | js/minimax.js:75-89 | with eight empty squares the search returns the centre if it is empty, else square 0, with no score |
| Minimax.TerminalPrecedence | js/minimax.js:92-100 | a human line gives −10 even when the computer also has one; else a computer line gives +10; else a full board gives 0; otherwise a move is chosen |
| Minimax.ChosenIsListed | js/minimax.js:106-128 | a chosen move is a listed empty square, and its score is that square's score |
| Minimax.ChosenScoreIsBest | js/minimax.js:133-149 | O's chosen score is at least, and X's at most, the score of every empty square |
| Minimax.ChosenIsEarliest | js/minimax.js:133-149 | no empty square below the chosen one has the chosen score (first-wins tie-break) |
| Grid.MarkKeepsOpponentLines | js/minimax.js:112 | placing one player's mark creates no line for the other player |
| Minimax.ImmediateWinIsScored | js/minimax.js:92-152 | on an open board where the mover can complete a line at once, the search chooses a move scored as a win for the mover (10 for O, −10 for X) |
| Minimax.ScanOpeningMoves | js/minimax.js:80-89 | the loop over the opening list returns the opening book's answer |
| Minimax.SelectBest | js/minimax.js:133-149 | both selection loops, from ±10000, return FirstBest's position |
| Minimax.Minimax | js/minimax.js:69-153 | the in-place search leaves every square as it was and returns exactly Search's result |
| Minimax.TryMoves | js/minimax.js:106-128 | the place / recurse / retract loop restores the board and builds exactly Candidates |
| Minimax.TryMove | js/minimax.js:108-124 | one pass of the loop restores the board and returns the square's score, ScoreAfter |
| Minimax.RandomMove | js/minimax.js:159-167 | the `k`-th listed square is an empty square; −1 exactly when no square is empty |
| MinimaxGame.Judged | js/minimax.js:224-231 | isWinner never changes the squares, the mode or the level, and never removes a screen already shown |
| MinimaxGame.ComputerSquare | js/minimax.js:187-197 | bestSpot's square is empty or none (−1); at the easy level none exactly on a full board, at the expert level none exactly for a terminal search |
| MinimaxGame.Replied | js/minimax.js:187-197 | bestSpot: O goes on ComputerSquare's square; when there is none (−1) the session is unchanged |
| MinimaxGame.Clicked | js/minimax.js:203-221 | setSquare: on a marked square the session is unchanged and the result false; otherwise the mover's mark goes down and is judged, and against the computer Replied follows and is judged for O; the result is true |
| MinimaxGame.Restarted | js/minimax.js:266-293 | newGame clears the board, gives player 2 the move, hides the screen, sets the mode; easy exactly when it was easy or easy is chosen against the computer |
| MinimaxGame.ExpertOnlyIfEasyNeverChosen | js/minimax.js:300-302 | after any run of new games the level is expert exactly when it started expert and easy was never chosen with the computer playing |
| MinimaxGame.ClickOnMarkedSquareIsRefused | js/minimax.js:208-212 | a click on a marked square changes nothing and returns false |
| MinimaxGame.ClickNeverOverwrites | js/minimax.js:203-221 | a click is accepted exactly on an empty square, puts the current player's mark there, and every marked square keeps its mark after the computer's reply |
| MinimaxGame.TwoPlayerClickIsJudged | js/minimax.js:203-231 | without the computer, a click is judged on the new board: a win screen before a tie screen, otherwise the other player moves |
| MinimaxGame.ReplyKeepsMarks | js/minimax.js:187-197 | bestSpot changes only the board, and every marked square keeps its mark |
| MinimaxGame.ComputerCanReply | js/minimax.js:187-197 | after a human move that leaves the game open, bestSpot always marks a square, at either level |
| MinimaxGame.ExchangeReturnsTurnToHuman | js/minimax.js:203-231 | when the human's X leaves the game open, the computer's O goes on an empty square (the search's pick at the expert level); the turn returns to player 2 unless the O wins (Win(1)) or fills the board |
| MinimaxGame.HumanWinAgainstExpert | js/minimax.js:215-219 | a human win against the expert level adds no O, shows Win(2), and leaves player 1 current |
| MinimaxGame.HumanWinAgainstEasy | js/minimax.js:215-219 | a human win against the easy level still gets an O on the `k`-th empty square, after Win(2) is shown |
| MinimaxGame.LastSquareWinAlsoAnnouncesTie | js/minimax.js:214-220 | a human win on the last empty square shows Win(2) and then a tie screen |
| MinimaxGame.NewComputerGameIsHumanToMove | js/minimax.js:266-293 | a new game against the computer starts with the human (player 2) to move on an odd number of empty squares and no line |
| MinimaxGame.ExchangeKeepsHumanToMove | js/minimax.js:203-231 | every exchange that ends nothing removes two empty squares and returns the move to the human with no line on the board |
| MinimaxGame.Game.constructor | js/minimax.js:21-28 | the page starts with player 2, no computer, the expert level, a clear board and no screen |
| MinimaxGame.Game.SetCurrentPlayer | js/minimax.js:338-355 | player 2 on a new game, otherwise the inactive player; nothing else changes |
| MinimaxGame.Game.CheckTieGame | js/minimax.js:328-330 | true exactly when every square is marked |
| MinimaxGame.Game.IsWinner | js/minimax.js:224-231 | performs Judged on the page's state |
| MinimaxGame.Game.BestSpot | js/minimax.js:187-197 | runs the in-place search (or the random pick) and performs Replied |
| MinimaxGame.Game.SetSquare | js/minimax.js:203-221 | performs Clicked, returning false exactly for a refused click |
| MinimaxGame.Game.NewGame | js/minimax.js:266-293 | clears every square in a loop and performs Restarted |
| HumanGame.TableShape | js/script.js:16-23 | eight lines of three ascending squares: rows 0–2, columns 0–2, then the two diagonals |
| HumanGame.TableLinesAreStraight | js/script.js:16-23 | every table line is three squares in a straight line on the grid |
| HumanGame.StraightLineIsInTable | js/script.js:16-23 | every three ascending squares in a straight line form a table line, whose position is returned: no line is missing |
| HumanGame.InArray | js/script.js:72 | jQuery.inArray gives −1 exactly when the value is absent, otherwise its first position |
| HumanGame.TableAgreesWithWinning | js/minimax.js:169-185 | the eight-line test is true exactly when some line of the table is complete |
| HumanGame.LinesThrough | js/script.js:70-72 | the lines looked at all pass through the square, in table order |
| HumanGame.LinePosition | js/script.js:70-72 | no line through the square is skipped |
| HumanGame.CellsRead | js/script.js:73-79 | the do/while reads 1 to 3 cells, every cell before the last read is marked, it stops early only at an unmarked cell, and the last cell read is marked exactly when the line is complete |
| HumanGame.IncrementalAgreesWithFull | js/script.js:67-86 | when the mover had no line before marking the empty square, a line through that square is complete exactly when the eight-line test holds |
| HumanGame.StatusChecked | js/script.js:68-93 | checkGameStatus: Win(current player) when a table line through the square is complete, otherwise Tie on a full board, otherwise the other player moves; the board is not changed |
| HumanGame.Clicked | js/script.js:56-65 | setSquare: a marked square leaves the round unchanged; an empty one takes the current player's mark and StatusChecked follows |
| HumanGame.Restarted | js/script.js:97-106 | newGame gives the page as loaded: clear board, player 1, no screen |
| HumanGame.ClickOnMarkedSquareChangesNothing | js/script.js:61-64 | a click on a marked square changes nothing |
| HumanGame.ClickAgreesWithFullCheck | js/script.js:56-93 | when the mover had no line, a click is judged as by the full test: a win screen, else a tie screen on a full board, else the other player |
| HumanGame.NewGameIsInProgress | js/script.js:97-106 | a new game has no line and player 1 to move on an odd number of empty squares |
| HumanGame.ClickKeepsInProgress | js/script.js:56-93 | a click that ends nothing keeps the game in progress, so the incremental check is exact on every click of a game |
| HumanGame.ScanStopsAtWin | js/script.js:81-84 | the scan breaks at the first complete line with a win, having read only the lines through the square up to it |
| HumanGame.ScanEndsWithoutWin | js/script.js:70-86 | a scan that reaches the end without a complete line reports no win, having read every line through the square |
| HumanGame.TwoPlayerGame.constructor | js/script.js:14-15 | the page starts with player 1, a clear board and no screen |
| HumanGame.TwoPlayerGame.SetCurrentPlayer | js/script.js:136-153 | player 1 on a new game, otherwise the inactive player; nothing else changes |
| HumanGame.TwoPlayerGame.CheckTieGame | js/script.js:126-128 | true exactly when every square is marked |
| HumanGame.TwoPlayerGame.ReadLine | js/script.js:73-79 | the do/while returns whether the line is complete and reads exactly CellsRead cells |
| HumanGame.TwoPlayerGame.ScanLines | js/script.js:68-86 | the verdict is "some line through the square is complete"; the lines read are the first lines through the square in table order (all of them without a win); each line's read count is CellsRead; only the last line read, on a win, is complete |
| HumanGame.TwoPlayerGame.CheckGameStatus | js/script.js:68-93 | performs StatusChecked: a win screen, else a tie screen, else the next player |
| HumanGame.TwoPlayerGame.SetSquare | js/script.js:56-65 | performs Clicked: only an empty square takes the mark |
| HumanGame.TwoPlayerGame.NewGame | js/script.js:97-106 | clears every square in a loop and performs Restarted |

## Left out

- The jQuery page layer: the squares' CSS classes become cells; hover previews, the name prompt and player names, status messages, screen styling, `addAIButton` and `modifyStartScreen` have no logic to model.
- `console.log` calls in the scan loop.
- `Math.random` and `Math.floor`: floating point; the draw is the parameter `k`, and only its use as an index into the empty squares is modelled.
- `isAI` and `getDifficultyLevel` read buttons on the page; their answers are the parameters `isAI` and `easyChosen`.
- Minimax.Search: the opening shortcut in the source reads the global `squares` rather than its board argument. Both are the same object at the only call site, so the model reads the board argument.
- Minimax.Search: a nine-empty-square board is excluded by precondition. No top-level call has one, since the human moves first. An inner call on such a board would return the opening move without a score.
- Minimax.RandomMove: with no empty square, the source computes `$(squares).index(undefined)` (js/minimax.js:164). jQuery's `.index` with no element gives the first square's position among its siblings (0 when the squares are the first children of their list), never −1. `bestSpot` then adds `box-filled-1` to that already-marked square (js/minimax.js:196), which from then on carries both marks' classes, and `isWinner(squares, computer)` (js/minimax.js:219) can find an O line through it and show the computer's win screen instead of the tie screen. A square carrying two marks is outside the model's cells, and the page's markup is not part of this model. The model returns −1 instead, and `bestSpot` then marks nothing, as for an expert-level move without an index.
- MinimaxGame.LastSquareWinAlsoAnnouncesTie: is stated against the expert level only. At the easy level, the source's reply on the full board is the doubly marked square described above, so which screen follows the win is not modelled.
- MinimaxGame.ReplyKeepsMarks: holds in the source on every board with an empty square. On a full board at the easy level, the source also puts the O class on a square already marked (see Minimax.RandomMove above); the model leaves the board as it is.
- MinimaxGame.ClickNeverOverwrites: the same gap: a click that fills the board at the easy level ends, in the source, with one marked square also carrying the O class.
- Both pages' end screens are tracked in `announced`; whether the board is visible is not. After an end screen the page hides the board, so no further click arrives, but the model lets clicks continue.
- Optimal-play claims (the computer always blocks a threatened line; two expert players always draw) are not proved. They would need facts about the whole game tree.
