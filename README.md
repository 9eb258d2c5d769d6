# Tic-Tac-Toe game model

This project models the game logic of `Tic-Tac-Toe.py`: the `TicTacToe` class, which owns the
board and the computer player, and the `GameStats` counter. Everything is proved in Dafny.

- `TicTacToe` is the class `Game.TicTacToe`. Its fields `board`, `currentPlayer`, `gameOver`,
  `winner`, `aiDifficulty` and `gameStats` are updated in place, as in the source.
- Each method is proved against a value-level specification:
  - `make_move`, `check_winner`, `reset` and the computer's choice of cell are transitions on a
    `Rules.State` value.
  - `minimax` and the trial loops of `make_best_move` are specified by the `Search` functions
    `Score` and `BestMove`.
  - Lines, the scan order of `check_winner`, empty cells and counts are in module `Board`.
- `minimax` writes and erases marks in `board` while it recurses. The model does the same, and
  proves that:
  - the board, `winner` and `game_over` are back as they were on entry;
  - the returned value is the game-tree value `Score`;
  - the recursion terminates because every step marks an empty cell.
- `GameStats` is the class `Stats.GameStats`. Its dictionary is a `map<string, nat>` field.

Randomness enters as parameters:
- `draw: real` in [0, 1) stands for `random.random()`;
- `pick: nat` is the index that `random.choice` takes in the row-major list of empty cells.

The sentinels `float('-inf')` and `float('inf')` are the integers -2 and 2. Every other score is
proved to lie in [-1, 1], so all comparisons come out the same.

The source's quirks are modelled as written:
- the trial O of `make_best_move` is scored without a `check_winner`;
- a trial that fills the last cell of an undecided game scores +inf;
- each loop body of `minimax` resets `winner` and `game_over` to None and False;
- `depth` is passed down and never read.

The code hardcodes the computer's mark as O, and the model follows the code. On the board
`X X _ / O O _ / _ _ _` the unchecked trial at (1, 2) scores -1 although it completes row 1, so
the engine never plays (1, 2). It plays (0, 2) there, which blocks row 0 and threatens two lines;
a scoring with the check plays (0, 2) as well. So that board shows a wrong trial score but not a
wrong move. The board `X X _ / _ _ X / _ O O` with O to move shows a wrong move: the engine as
written plays (0, 2), worth at most a tie, where (2, 0) wins at once. The game class plays the
trial scoring as written; the checked scoring that the Findings section proposes is defined and
proved beside it in module `Search`.

## Model

| member | source | states |
|---|---|---|
| Game.TicTacToe.constructor | Tic-Tac-Toe.py:41-47 | a new game is the initial state: empty board, X to move, not over, no winner, difficulty "medium", the given stats object |
| Game.TicTacToe.MakeMove | Tic-Tac-Toe.py:49-55 | returns true exactly when the cell is empty and the game is not over; the new state is `Move` of the old one, and the board stays 3x3 with `game_over` set exactly when a winner or tie is recorded |
| Rules.MoveEffects | Tic-Tac-Toe.py:49-55 | a rejected move changes nothing; an accepted one writes the mover's mark on that cell only, records the outcome of the new board and flips the player even when the game ended |
| Game.TicTacToe.CheckWinner | Tic-Tac-Toe.py:57-78 | the new state is `Check` of the old one: the outcome `Verdict` of the board is recorded with `game_over` set, or nothing changes when there is none |
| Game.TicTacToe.DeclareWinner | Tic-Tac-Toe.py:60-75 | when line k is the first complete line in scan order, recording its mark is what `Check` does |
| Board.FirstLine | Tic-Tac-Toe.py:59-75 | the scan never reports a tie, and reports no winner exactly when no line in the list is complete |
| Board.FirstLineIsFirst | Tic-Tac-Toe.py:59-75 | when line k is the first complete line, the scan reports its mark |
| Board.FirstCompleteDecides | Tic-Tac-Toe.py:59-75 | the first complete line in the order row i, column i (i = 0..2), main diagonal, anti-diagonal decides the outcome |
| Board.NoCompleteDecides | Tic-Tac-Toe.py:76-78 | with no complete line the outcome is a tie on a full board and no outcome otherwise |
| Board.VerdictCases | Tic-Tac-Toe.py:57-78 | no outcome iff no line and not full; tie iff no line and full; a win iff some line; when complete lines agree, a win goes to the mark of any complete line |
| Board.Place | Tic-Tac-Toe.py:51 | writing a cell changes that cell and no other |
| Board.EmptyGrid | Tic-Tac-Toe.py:42 | the fresh board is 3x3 and every cell is empty |
| Board.CountFromPlace | Tic-Tac-Toe.py:51 | overwriting one cell moves one unit of count from the old content to the new |
| Board.PlaceShrinks | Tic-Tac-Toe.py:124-125 | marking an empty cell leaves one empty cell fewer, one more of that mark and as many of the other |
| Board.UndoPlace | Tic-Tac-Toe.py:103-105 | writing a mark on an empty cell and erasing it gives back the same board |
| Board.EmptyFrom | Tic-Tac-Toe.py:92 | every listed cell is on the board and empty, and there are as many as there are empty cells |
| Board.EmptyFromComplete | Tic-Tac-Toe.py:92 | every empty cell is listed |
| Board.EmptyFromOrdered | Tic-Tac-Toe.py:92 | the list is in strictly increasing row-major order |
| Board.FullIffNoEmpty | Tic-Tac-Toe.py:76 | the board is full iff the empty-cell list is empty iff no cell counts as empty |
| Game.TicTacToe.AiMove | Tic-Tac-Toe.py:80-89 | the new state is the old one played at `AiCell`: random on "easy"; best when the draw is below 0.7 on "medium", random otherwise; best on any other difficulty |
| Rules.AiCellSpec | Tic-Tac-Toe.py:80-95 | whatever the difficulty and the random draws, the chosen cell is empty, and there is none exactly when the board is full |
| Rules.RandomCell | Tic-Tac-Toe.py:92-94 | the random choice is an empty cell on the board |
| Game.TicTacToe.MakeRandomMove | Tic-Tac-Toe.py:91-95 | plays the pick-th empty cell in row-major order through `make_move`, or changes nothing when there is none |
| Game.TicTacToe.MakeBestMove | Tic-Tac-Toe.py:97-110 | plays `BestMove` of the board through `make_move`, or changes nothing when there is none |
| Game.TicTacToe.ChooseBestMove | Tic-Tac-Toe.py:98-108 | the trial loops return `BestMove` of the board and leave board, `winner` and `game_over` as on entry |
| Game.TicTacToe.ChooseInRow | Tic-Tac-Toe.py:101-108 | the inner loop over row i advances the strictly-greater scan by the three cells of that row, leaving board, `winner` and `game_over` as on entry |
| Game.TicTacToe.ScoreTrial | Tic-Tac-Toe.py:102-105 | the trial on cell (i, j) returns entry 3i+j of `TrialScores` and undoes the trial |
| Search.TrialScores | Tic-Tac-Toe.py:100-105 | entry k is the trial score of cell k when it is empty and 0 otherwise |
| Search.TrialScoreRange | Tic-Tac-Toe.py:103-104 | a trial scores in [-1, 1], except that the trial filling the last cell of an undecided game scores +inf |
| Search.FirstMaxFromNone | Tic-Tac-Toe.py:98-108 | the strictly-greater scan ends on no cell exactly when it starts on none and meets no empty cell |
| Search.FirstMaxFromSpec | Tic-Tac-Toe.py:98-108 | a scan started on the first maximum so far ends on the first maximum of all empty cells |
| Search.FirstMaxSpec | Tic-Tac-Toe.py:98-108 | from -inf the scan picks nothing iff the board is full, and otherwise an empty cell of maximal score, strictly above every earlier empty cell |
| Search.FirstMaxUnique | Tic-Tac-Toe.py:98-108 | conversely, an empty cell of maximal score that is strictly above every earlier empty cell is the cell the scan picks |
| Search.BestMoveSpec | Tic-Tac-Toe.py:97-110 | `make_best_move` picks nothing iff the board is full, and otherwise an empty cell of maximal trial score with ties going to the earliest cell |
| Game.TicTacToe.Minimax | Tic-Tac-Toe.py:112-145 | returns `Score` of the board and `winner` on entry, and leaves board, `winner` and `game_over` as they were |
| Game.TicTacToe.SearchCell | Tic-Tac-Toe.py:124-131 | one loop body returns the score of the child position, with its outcome checked and the other side to move; afterwards the board is as before and `winner` and `game_over` are None and False |
| Search.FoldSkip | Tic-Tac-Toe.py:122-124 | an occupied cell leaves the best score of a search level unchanged |
| Search.FoldTake | Tic-Tac-Toe.py:124-131 | an empty cell folds its child's score into the best score by max (O to move) or min (X to move) |
| Search.ScoreBounded | Tic-Tac-Toe.py:112-145 | a decided position, or one with an empty cell, scores in [-1, 1] |
| Search.FullBoardScoresSentinel | Tic-Tac-Toe.py:120-145 | with no winner and no empty cell, minimax returns -inf when maximising and +inf when minimising |
| Search.FoldDominates | Tic-Tac-Toe.py:120-145 | a search level ends at least as good as its start and as every child it visits |
| Search.FoldAttained | Tic-Tac-Toe.py:120-145 | a search level ends on its start or on some child's score |
| Search.ScoreIsBestChild | Tic-Tac-Toe.py:120-145 | on an undecided board with an empty cell, minimax is the max (O) or min (X) over the children: as good as each, equal to one |
| Game.TicTacToe.Reset | Tic-Tac-Toe.py:147-151 | the state is the initial one again; difficulty and stats are untouched |
| Rules.InitialConsistent | Tic-Tac-Toe.py:41-47 | the initial state is consistent: no outcome, equal counts, X to move |
| Rules.NewLinesCarry | Tic-Tac-Toe.py:51-52 | on a board with no complete line, a placed mark completes only lines of that mark |
| Rules.PlaceOnOpenBoard | Tic-Tac-Toe.py:51-52 | such a board's complete lines agree, and a win it produces goes to the player who moved |
| Rules.MovePreservesConsistent | Tic-Tac-Toe.py:49-55 | `make_move` keeps `winner` equal to the board's outcome, `game_over` in step with it, the mark counts in step with the player to move, and the complete lines in agreement; only the mover can win |
| Rules.PlayAllPreservesConsistent | Tic-Tac-Toe.py:49-55 | any sequence of moves keeps a consistent game consistent |
| Rules.ReachableConsistent | Tic-Tac-Toe.py:49-55 | every game reached from a fresh start is consistent |
| Stats.Bump | Tic-Tac-Toe.py:38 | the counter of the result goes up by one; no key is added; no other counter changes |
| Stats.Tally | Tic-Tac-Toe.py:35-38 | the counters after any updates keep exactly the keys X, O and Tie |
| Stats.TallyCounts | Tic-Tac-Toe.py:35-38 | each counter equals the number of updates made with its key |
| Stats.TallyMonotone | Tic-Tac-Toe.py:35-38 | counters never decrease |
| Stats.GameStats.constructor | Tic-Tac-Toe.py:34-35 | the counters start at 0 for X, O and Tie |
| Stats.GameStats.Update | Tic-Tac-Toe.py:37-38 | the counters become `Bump` of the old ones, and the log of results grows by this one |
| Search.ShadowedWin | Tic-Tac-Toe.py:103-104 | on X X _ / O O _ / _ _ _ the trial at (1, 2) completes O's row, yet scores -1 without the check, so `make_best_move` never plays it |
| Search.GivenUpWin | Tic-Tac-Toe.py:97-108 | on X X _ / _ _ X / _ O O with O to move, (2, 0) wins at once and the minimax value is 1, yet `make_best_move` plays (0, 2), whose checked score is at most 0; the checked scoring plays (2, 0) |
| Search.GiveawayAsWritten | Tic-Tac-Toe.py:97-108 | on that board the unchecked trials at (1, 0), (1, 1) and (2, 0) score -1 at most, so `make_best_move` plays (0, 2) |
| Search.GiveawayCorrected | Tic-Tac-Toe.py:103-104 | on that board the checked scoring plays (2, 0), the only cell of score 1 |
| Search.GiveawayValue | Tic-Tac-Toe.py:112-145 | on that board minimax with O to move is 1 |
| Search.ThreatTrialScore | Tic-Tac-Toe.py:103-104 | the unchecked trial at (1, 2) on that board scores -1 |
| Search.ImmediateWinScoresOne | Tic-Tac-Toe.py:103-104 | with the check after the trial, a trial that completes a line of O scores 1 |
| Search.CorrectedBestMoveIsOptimal | Tic-Tac-Toe.py:103-104 | with the check after the trial, the chosen cell attains the minimax value of the position with O to move |
| Search.CorrectedTakesWin | Tic-Tac-Toe.py:103-104 | with the check after the trial, when some empty cell wins at once, the chosen cell scores 1 |

## Left out

- Pygame set-up, fonts, colours and every drawing function: these are display code with no game logic.
- The `main` event loop: the mouse-to-cell mapping, the difficulty keys, the once-per-game stats update and frame ticking are driven by the UI.
- The distributions of `random.random` and `random.choice`: the draw and the pick are parameters.
- Float scores: the sentinels are the integers -2 and 2, which compare with [-1, 1] as the floats do.
- Out-of-range or negative indices to `make_move`: `0 <= row, col < 3` is a precondition; Python would raise or wrap around.
- Stats.GameStats.Update: requires the key to be X, O or Tie; any other key raises KeyError in the source and is not modelled.
- The claim that the hardest level never loses: this needs an exhaustive argument over all games and is not stated.
- A parameter for the computer's mark: the code always plays O, and so does the model.
- Game.TicTacToe.Minimax: the source's two branches (O maximising, X minimising) are one shared loop that differs only in the mark, the starting sentinel and max against min.
- Aliasing of the `GameStats` object between the game and the caller: the game only stores the reference, and no method of the game updates it.

## Findings

| source | as written | input that shows it | evidently intended | confidence | as-written member | corrected member |
|---|---|---|---|---|---|---|
| Tic-Tac-Toe.py:103-104 | the trial O is placed and `minimax(0, False)` is called without `check_winner`, so a trial that completes O's line is scored only when the X reply's scan reaches it | board X X _ / _ _ X / _ O O, O to move: O at (2, 0) completes row 2, but the unchecked trial scores -1, because the X reply at (0, 2) completes row 0, which is scanned first; `make_best_move` plays (0, 2), worth at most a tie, and gives up the win | score each trial as the search's own loop body does: place, `check_winner`, search, undo; an immediate win then scores 1, the chosen cell attains the minimax value, and on this board (2, 0) is played | not executed | Search.GivenUpWin | Search.CorrectedBestMoveIsOptimal |
