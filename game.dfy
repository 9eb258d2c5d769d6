/** The game object `TicTacToe`: its fields change in place, and every method
    is proved to follow the transitions of module Rules and the search values
    of module Search. */
module Game {
  import opened Board
  import opened Search
  import opened Rules
  import opened Stats

  class TicTacToe {
    var board: Grid
    var currentPlayer: Player
    var gameOver: bool
    var winner: Winner
    var aiDifficulty: string
    var gameStats: GameStats

    /** A 3x3 board, and `game_over` set exactly when a winner or a tie is
        recorded: every method writes the two together. */
    ghost predicate Valid()
      reads this
    {
      WellFormed(board) && (gameOver <==> winner != NoWinner)
    }

    ghost function Snapshot(): State
      reads this
    {
      State(board, currentPlayer, gameOver, winner)
    }

    constructor (gameStats: GameStats)
      ensures Valid() && Snapshot() == Initial()
      ensures aiDifficulty == "medium" && this.gameStats == gameStats
    {
      board := EmptyGrid();
      currentPlayer := X;
      gameOver := false;
      winner := NoWinner;
      aiDifficulty := "medium";
      this.gameStats := gameStats;
    }

    /** `make_move(row, col)` */
    method MakeMove(row: int, col: int) returns (ok: bool)
      requires Valid() && 0 <= row < Size && 0 <= col < Size
      modifies this`board, this`currentPlayer, this`gameOver, this`winner
      ensures Valid()
      ensures ok == Accepts(old(Snapshot()), Pos(row, col))
      ensures Snapshot() == Move(old(Snapshot()), Pos(row, col))
    {
      if board[row][col] == Empty && !gameOver {
        board := Place(board, Pos(row, col), Mark(currentPlayer));
        CheckWinner();
        currentPlayer := Other(currentPlayer);
        return true;
      }
      return false;
    }

    /** `check_winner()`: rows and columns by index, then the diagonals, the
        first complete line deciding; else a tie on a full board. */
    method CheckWinner()
      requires Valid()
      modifies this`gameOver, this`winner
      ensures Valid()
      ensures Snapshot() == Check(old(Snapshot()))
    {
      for i := 0 to Size
        invariant forall k :: 0 <= k < 2 * i ==> !Complete(board, ScanOrder()[k])
      {
        assert ScanOrder()[2 * i] == Row(i) && ScanOrder()[2 * i + 1] == Column(i);
        if Complete(board, Row(i)) {
          DeclareWinner(2 * i, board[i][0].player);
          return;
        }
        if Complete(board, Column(i)) {
          DeclareWinner(2 * i + 1, board[0][i].player);
          return;
        }
      }
      assert ScanOrder()[6] == MainDiagonal && ScanOrder()[7] == AntiDiagonal;
      if Complete(board, MainDiagonal) {
        DeclareWinner(6, board[0][0].player);
        return;
      }
      if Complete(board, AntiDiagonal) {
        DeclareWinner(7, board[0][2].player);
        return;
      }
      NoCompleteDecides(board);
      if Full(board) {
        gameOver := true;
        winner := Tie;
      }
    }

    /** The assignments `winner = <mark of line k>` and `game_over = True` of
        `check_winner`, made when line k is the first complete one. */
    method DeclareWinner(k: int, m: Player)
      requires Valid() && 0 <= k < |ScanOrder()| && Complete(board, ScanOrder()[k])
      requires forall k' :: 0 <= k' < k ==> !Complete(board, ScanOrder()[k'])
      requires Mark(m) == At(board, ScanOrder()[k].a)
      modifies this`gameOver, this`winner
      ensures Valid()
      ensures Snapshot() == Check(old(Snapshot()))
    {
      FirstCompleteDecides(board, k);
      winner := Won(m);
      gameOver := true;
    }

    /** `ai_move()`, with the draw of `random.random()` and the index that
        `random.choice` picks given by the caller. */
    method AiMove(draw: real, pick: nat)
      requires Valid() && 0.0 <= draw < 1.0
      requires EmptyCells(board) != [] ==> pick < |EmptyCells(board)|
      modifies this`board, this`currentPlayer, this`gameOver, this`winner
      ensures Valid()
      ensures Snapshot() == Play(old(Snapshot()), AiCell(aiDifficulty, old(board), old(winner), draw, pick))
    {
      ghost var before := Snapshot();
      ghost var cell := AiCell(aiDifficulty, board, winner, draw, pick);
      if aiDifficulty == "easy" {
        assert cell == RandomCell(board, pick);
        MakeRandomMove(pick);
      } else if aiDifficulty == "medium" {
        if draw < 0.7 {
          assert cell == BestMove(board, winner);
          MakeBestMove();
        } else {
          assert cell == RandomCell(board, pick);
          MakeRandomMove(pick);
        }
      } else {
        assert cell == BestMove(board, winner);
        MakeBestMove();
      }
      assert Snapshot() == Play(before, cell);
    }

    /** `make_random_move()`, playing the pick-th empty cell in row-major order. */
    method MakeRandomMove(pick: nat)
      requires Valid()
      requires EmptyCells(board) != [] ==> pick < |EmptyCells(board)|
      modifies this`board, this`currentPlayer, this`gameOver, this`winner
      ensures Valid()
      ensures Snapshot() == Play(old(Snapshot()), RandomCell(old(board), pick))
    {
      var emptyCells := EmptyCells(board);
      if emptyCells != [] {
        var cell := emptyCells[pick];
        assert cell in emptyCells;
        var ok := MakeMove(cell.row, cell.col);
      }
    }

    /** `make_best_move()`: play the cell chosen by the trial loops, if any. */
    method MakeBestMove()
      requires Valid()
      modifies this`board, this`currentPlayer, this`gameOver, this`winner
      ensures Valid()
      ensures Snapshot() == Play(old(Snapshot()), BestMove(old(board), old(winner)))
    {
      var bestMove := ChooseBestMove();
      if bestMove.Some? {
        var ok := MakeMove(bestMove.value.row, bestMove.value.col);
      }
    }

    /** The loops of `make_best_move()`: try O on each empty cell, score it
        with `minimax(0, False)`, undo it, and keep the first cell of
        strictly greater score. */
    method ChooseBestMove() returns (bestMove: Option<Pos>)
      requires Valid()
      modifies this`board, this`winner, this`gameOver
      ensures board == old(board) && winner == old(winner) && gameOver == old(gameOver)
      ensures bestMove == BestMove(board, winner)
    {
      var bestScore := NegInf;
      bestMove := None;
      ghost var g := board;
      ghost var w := winner;
      ghost var target := BestMove(g, w);
      for i := 0 to Size
        invariant board == g && winner == w && gameOver == old(gameOver)
        invariant FirstMaxFrom(g, TrialScores(g, w), 3 * i, bestScore, bestMove) == target
      {
        bestScore, bestMove := ChooseInRow(i, bestScore, bestMove);
      }
    }

    /** The inner loop of `make_best_move()` over row i. */
    method ChooseInRow(i: int, score0: int, move0: Option<Pos>) returns (bestScore: int, bestMove: Option<Pos>)
      requires Valid() && 0 <= i < Size
      modifies this`board, this`winner, this`gameOver
      ensures board == old(board) && winner == old(winner) && gameOver == old(gameOver)
      ensures FirstMaxFrom(board, TrialScores(board, winner), 3 * i + 3, bestScore, bestMove) ==
              FirstMaxFrom(board, TrialScores(board, winner), 3 * i, score0, move0)
    {
      ghost var g := board;
      ghost var w := winner;
      ghost var scores := TrialScores(g, w);
      ghost var target := FirstMaxFrom(g, scores, 3 * i, score0, move0);
      bestScore, bestMove := score0, move0;
      for j := 0 to Size
        invariant board == g && winner == w && gameOver == old(gameOver)
        invariant FirstMaxFrom(g, scores, 3 * i + j, bestScore, bestMove) == target
      {
        if board[i][j] == Empty {
          FirstMaxTake(g, scores, i, j, bestScore, bestMove);
          var score := ScoreTrial(i, j);
          if score > bestScore {
            bestScore := score;
            bestMove := Some(Pos(i, j));
          }
        } else {
          FirstMaxSkip(g, scores, i, j, bestScore, bestMove);
        }
      }
    }

    /** The body of the loops of `make_best_move` on an empty cell (i, j):
        write O there, score the board with `minimax(0, False)`, erase the O. */
    method ScoreTrial(i: int, j: int) returns (score: int)
      requires Valid() && 0 <= i < Size && 0 <= j < Size && board[i][j] == Empty
      modifies this`board, this`winner, this`gameOver
      ensures board == old(board) && winner == old(winner) && gameOver == old(gameOver)
      ensures score == TrialScores(old(board), old(winner))[3 * i + j]
    {
      ghost var g := board;
      PosOfIndex(Pos(i, j));
      board := Place(board, Pos(i, j), Mark(O));
      score := Minimax(0, false);
      UndoPlace(g, Pos(i, j), Mark(O));
      board := Place(board, Pos(i, j), Empty);
    }

    /** `minimax(depth, is_maximizing)`: searches the game tree by writing and
        erasing marks in `board`; `depth` is passed down and never read. On
        return the board is as on entry, and so are `winner` and `game_over`
        (each loop body resets them to None and False, which is what they
        were on entry whenever the loops run). */
    method Minimax(depth: int, isMaximizing: bool) returns (score: int)
      requires Valid()
      modifies this`board, this`winner, this`gameOver
      ensures Valid()
      ensures board == old(board) && winner == old(winner) && gameOver == old(gameOver)
      ensures score == Score(old(board), old(winner), isMaximizing)
      decreases Count(board, Empty), 1
    {
      match winner {
        case Won(O) => return 1;
        case Won(X) => return -1;
        case Tie => return 0;
        case NoWinner =>
      }
      ghost var g := board;
      ghost var target := Score(g, NoWinner, isMaximizing);
      var bestScore := if isMaximizing then NegInf else PosInf;
      for i := 0 to Size
        invariant board == g && winner == NoWinner && !gameOver
        invariant Fold(g, isMaximizing, 3 * i, bestScore) == target
      {
        for j := 0 to Size
          invariant board == g && winner == NoWinner && !gameOver
          invariant Fold(g, isMaximizing, 3 * i + j, bestScore) == target
        {
          if board[i][j] == Empty {
            var s := SearchCell(depth, isMaximizing, i, j);
            FoldTake(g, isMaximizing, i, j, bestScore, s);
            bestScore := if isMaximizing then Max(s, bestScore) else Min(s, bestScore);
            assert Fold(g, isMaximizing, 3 * i + j + 1, bestScore) == target;
          } else {
            FoldSkip(g, isMaximizing, i, j, bestScore);
          }
        }
      }
      return bestScore;
    }

    /** The body of the loops of `minimax` on an empty cell (i, j): write the
        mark of the side to move, run `check_winner`, search on with the other
        side to move, erase the mark and set `winner` and `game_over` back to
        None and False. */
    method SearchCell(depth: int, isMaximizing: bool, i: int, j: int) returns (s: int)
      requires WellFormed(board) && winner == NoWinner && !gameOver
      requires 0 <= i < Size && 0 <= j < Size && board[i][j] == Empty
      modifies this`board, this`winner, this`gameOver
      ensures board == old(board) && winner == NoWinner && !gameOver
      ensures var child := Place(old(board), Pos(i, j), Mark(MoverMark(isMaximizing)));
              s == Score(child, Verdict(child), !isMaximizing)
      decreases Count(board, Empty), 0
    {
      ghost var g := board;
      var mark := MoverMark(isMaximizing);
      PlaceShrinks(g, Pos(i, j), mark);
      board := Place(board, Pos(i, j), Mark(mark));
      ghost var child := board;
      CheckWinner();
      assert winner == Verdict(child);
      s := Minimax(depth + 1, !isMaximizing);
      UndoPlace(g, Pos(i, j), Mark(mark));
      board := Place(board, Pos(i, j), Empty);
      winner := NoWinner;
      gameOver := false;
    }

    /** `reset()`: a fresh board, X to move, no winner; the difficulty and the
        stats are left as they are. */
    method Reset()
      modifies this`board, this`currentPlayer, this`gameOver, this`winner
      ensures Valid() && Snapshot() == Initial()
      ensures aiDifficulty == old(aiDifficulty) && gameStats == old(gameStats)
    {
      board := EmptyGrid();
      currentPlayer := X;
      gameOver := false;
      winner := NoWinner;
    }
  }
}
