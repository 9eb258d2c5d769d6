/** The value that `minimax` computes and the cell that `make_best_move`
    picks, as functions of the grid and the `winner` field. The in-place
    search of module Game is proved to compute exactly these. */
module Search {
  import opened Board

  /** float('-inf') and float('inf'). Every score the search produces other
      than these lies in [-1, 1], so the order between scores is the same. */
  const NegInf: int := -2
  const PosInf: int := 2

  /** The mark the side to move places: O maximises, X minimises. */
  function MoverMark(maximizing: bool): Player {
    if maximizing then O else X
  }

  /** The initial `best_score` of a search level. */
  function Start(maximizing: bool): int {
    if maximizing then NegInf else PosInf
  }

  function Max(a: int, b: int): int {
    if a >= b then a else b
  }

  function Min(a: int, b: int): int {
    if a <= b then a else b
  }

  /** `a` is at least as good as `b` for the side to move. */
  predicate AtLeastAsGood(maximizing: bool, a: int, b: int) {
    if maximizing then a >= b else a <= b
  }

  /** What `minimax(depth, maximizing)` returns on grid g with `winner == w`:
      1, -1 or 0 when w is O, X or Tie; otherwise the best child score over the
      empty cells in row-major order, starting from the sentinel. */
  function Score(g: Grid, w: Winner, maximizing: bool): int
    requires WellFormed(g)
    decreases Count(g, Empty), 2, 0
  {
    if w == Won(O) then 1
    else if w == Won(X) then -1
    else if w == Tie then 0
    else Fold(g, maximizing, 0, Start(maximizing))
  }

  /** The nested loops of one search level, from row-major index k on, with
      `best_score` equal to best so far. */
  function Fold(g: Grid, maximizing: bool, k: int, best: int): int
    requires WellFormed(g) && 0 <= k <= Size * Size
    decreases Count(g, Empty), 1, Size * Size - k
  {
    if k == Size * Size then best
    else if At(g, PosOf(k)) != Empty then Fold(g, maximizing, k + 1, best)
    else
      var s := ChildScore(g, maximizing, k);
      Fold(g, maximizing, k + 1, if maximizing then Max(s, best) else Min(s, best))
  }

  /** One loop body of the search: place the mover's mark at cell k, run
      `check_winner` (the winner is None at that point), search with the
      other side to move. */
  function ChildScore(g: Grid, maximizing: bool, k: int): int
    requires WellFormed(g) && 0 <= k < Size * Size && At(g, PosOf(k)) == Empty
    decreases Count(g, Empty), 0, 0
  {
    var child := Place(g, PosOf(k), Mark(MoverMark(maximizing)));
    PlaceShrinks(g, PosOf(k), MoverMark(maximizing));
    Score(child, Verdict(child), !maximizing)
  }

  /** One pass of the nested loops of a search level over an occupied cell
      (i, j): nothing happens. */
  lemma FoldSkip(g: Grid, maximizing: bool, i: int, j: int, best: int)
    requires WellFormed(g) && 0 <= i < Size && 0 <= j < Size && g[i][j] != Empty
    ensures Fold(g, maximizing, 3 * i + j, best) == Fold(g, maximizing, 3 * i + j + 1, best)
  {
    PosOfIndex(Pos(i, j));
  }

  /** One pass of the nested loops of a search level over an empty cell
      (i, j): the child's score s is folded into the best so far. */
  lemma FoldTake(g: Grid, maximizing: bool, i: int, j: int, best: int, s: int)
    requires WellFormed(g) && 0 <= i < Size && 0 <= j < Size && g[i][j] == Empty
    requires var child := Place(g, Pos(i, j), Mark(MoverMark(maximizing)));
             s == Score(child, Verdict(child), !maximizing)
    ensures Fold(g, maximizing, 3 * i + j, best) ==
              Fold(g, maximizing, 3 * i + j + 1, if maximizing then Max(s, best) else Min(s, best))
  {
    PosOfIndex(Pos(i, j));
  }

  /** A position that is decided, or still has an empty cell, scores in
      [-1, 1]: the infinite sentinels never escape from such a search. */
  lemma {:induction false} ScoreBounded(g: Grid, w: Winner, maximizing: bool)
    requires WellFormed(g) && (w != NoWinner || !Full(g))
    ensures -1 <= Score(g, w, maximizing) <= 1
    decreases Count(g, Empty), 2, 0
  {
    if w == NoWinner {
      FullIffNoEmpty(g);
      assert CountFrom(g, Empty, 0) > 0;
      FoldBounded(g, maximizing, 0, Start(maximizing));
      assert Score(g, w, maximizing) == Fold(g, maximizing, 0, Start(maximizing));
    } else {
      assert w.Won? || w.Tie?;
      assert w.Won? ==> w.player == X || w.player == O;
    }
  }

  lemma {:induction false} FoldBounded(g: Grid, maximizing: bool, k: int, best: int)
    requires WellFormed(g) && 0 <= k <= Size * Size
    requires -1 <= best <= 1 || (best == Start(maximizing) && CountFrom(g, Empty, k) > 0)
    ensures -1 <= Fold(g, maximizing, k, best) <= 1
    decreases Count(g, Empty), 1, Size * Size - k
  {
    if k < Size * Size {
      if At(g, PosOf(k)) == Empty {
        ChildBounded(g, maximizing, k);
      }
      FoldBounded(g, maximizing, k + 1,
        if At(g, PosOf(k)) != Empty then best
        else if maximizing then Max(ChildScore(g, maximizing, k), best)
        else Min(ChildScore(g, maximizing, k), best));
    }
  }

  lemma {:induction false} ChildBounded(g: Grid, maximizing: bool, k: int)
    requires WellFormed(g) && 0 <= k < Size * Size && At(g, PosOf(k)) == Empty
    ensures -1 <= ChildScore(g, maximizing, k) <= 1
    decreases Count(g, Empty), 0, 0
  {
    var child := Place(g, PosOf(k), Mark(MoverMark(maximizing)));
    PlaceShrinks(g, PosOf(k), MoverMark(maximizing));
    ScoreBounded(child, Verdict(child), !maximizing);
  }

  lemma {:induction false} FoldFull(g: Grid, maximizing: bool, k: int, best: int)
    requires WellFormed(g) && Full(g) && 0 <= k <= Size * Size
    ensures Fold(g, maximizing, k, best) == best
    decreases Size * Size - k
  {
    if k < Size * Size {
      FoldFull(g, maximizing, k + 1, best);
    }
  }

  /** With no winner recorded and no empty cell, the search loops over
      nothing and returns its sentinel: -inf when maximising, +inf when
      minimising. */
  lemma FullBoardScoresSentinel(g: Grid, maximizing: bool)
    requires WellFormed(g) && Full(g)
    ensures Score(g, NoWinner, maximizing) == Start(maximizing)
  {
    FoldFull(g, maximizing, 0, Start(maximizing));
  }

  /** A search level ends at least as good as its start and as every child
      it visits. */
  lemma {:induction false} FoldDominates(g: Grid, maximizing: bool, k: int, best: int)
    requires WellFormed(g) && 0 <= k <= Size * Size
    ensures AtLeastAsGood(maximizing, Fold(g, maximizing, k, best), best)
    ensures forall k' :: k <= k' < Size * Size && At(g, PosOf(k')) == Empty ==>
              AtLeastAsGood(maximizing, Fold(g, maximizing, k, best), ChildScore(g, maximizing, k'))
    decreases Size * Size - k
  {
    if k < Size * Size {
      if At(g, PosOf(k)) != Empty {
        FoldDominates(g, maximizing, k + 1, best);
      } else {
        var s := ChildScore(g, maximizing, k);
        var next := if maximizing then Max(s, best) else Min(s, best);
        FoldDominates(g, maximizing, k + 1, next);
        assert Fold(g, maximizing, k, best) == Fold(g, maximizing, k + 1, next);
        assert AtLeastAsGood(maximizing, next, s) && AtLeastAsGood(maximizing, next, best);
      }
    }
  }

  /** A search level ends on its start or on the score of a child it visits. */
  lemma {:induction false} FoldAttained(g: Grid, maximizing: bool, k: int, best: int)
    requires WellFormed(g) && 0 <= k <= Size * Size
    ensures Fold(g, maximizing, k, best) == best ||
            exists k' :: k <= k' < Size * Size && At(g, PosOf(k')) == Empty &&
              Fold(g, maximizing, k, best) == ChildScore(g, maximizing, k')
    decreases Size * Size - k
  {
    if k < Size * Size {
      if At(g, PosOf(k)) != Empty {
        FoldAttained(g, maximizing, k + 1, best);
      } else {
        var s := ChildScore(g, maximizing, k);
        var next := if maximizing then Max(s, best) else Min(s, best);
        FoldAttained(g, maximizing, k + 1, next);
        assert next == best || next == s;
      }
    }
  }

  /** On an undecided board with an empty cell, minimax returns the maximum
      (O to move) or minimum (X to move) of the child scores: it is at least
      as good as every child and equal to one of them. */
  lemma ScoreIsBestChild(g: Grid, maximizing: bool)
    requires WellFormed(g) && !Full(g)
    ensures forall k :: 0 <= k < Size * Size && At(g, PosOf(k)) == Empty ==>
              AtLeastAsGood(maximizing, Score(g, NoWinner, maximizing), ChildScore(g, maximizing, k))
    ensures exists k :: 0 <= k < Size * Size && At(g, PosOf(k)) == Empty &&
              Score(g, NoWinner, maximizing) == ChildScore(g, maximizing, k)
  {
    FoldDominates(g, maximizing, 0, Start(maximizing));
    FoldAttained(g, maximizing, 0, Start(maximizing));
    ScoreBounded(g, NoWinner, maximizing);
  }

  /** The score `make_best_move` gives cell k: the trial O is placed and
      `minimax(0, False)` is called without `check_winner`, so the winner is
      still the w recorded before the trial. */
  function TrialScore(g: Grid, w: Winner, k: int): int
    requires WellFormed(g) && 0 <= k < Size * Size && At(g, PosOf(k)) == Empty
  {
    Score(Place(g, PosOf(k), Mark(O)), w, false)
  }

  /** A trial scores in [-1, 1], except that the trial on the last empty
      cell of an undecided game always scores +inf. */
  lemma TrialScoreRange(g: Grid, w: Winner, k: int)
    requires WellFormed(g) && 0 <= k < Size * Size && At(g, PosOf(k)) == Empty
    ensures if w == NoWinner && Count(g, Empty) == 1
            then TrialScore(g, w, k) == PosInf
            else -1 <= TrialScore(g, w, k) <= 1
  {
    var t := Place(g, PosOf(k), Mark(O));
    PlaceShrinks(g, PosOf(k), O);
    FullIffNoEmpty(t);
    if w == NoWinner && Count(g, Empty) == 1 {
      FullBoardScoresSentinel(t, false);
    } else {
      ScoreBounded(t, w, false);
    }
  }

  /** The loops of `make_best_move` from row-major index k on: a cell
      replaces the best so far only when its score is strictly greater. */
  function FirstMaxFrom(g: Grid, scores: seq<int>, k: int, bestScore: int, bestMove: Option<Pos>): (r: Option<Pos>)
    requires WellFormed(g) && |scores| == Size * Size && 0 <= k <= Size * Size
    ensures r == bestMove || (r.Some? && InRange(r.value))
    decreases Size * Size - k
  {
    if k == Size * Size then bestMove
    else if At(g, PosOf(k)) == Empty && scores[k] > bestScore then
      FirstMaxFrom(g, scores, k + 1, scores[k], Some(PosOf(k)))
    else FirstMaxFrom(g, scores, k + 1, bestScore, bestMove)
  }

  function FirstMax(g: Grid, scores: seq<int>): (r: Option<Pos>)
    requires WellFormed(g) && |scores| == Size * Size
    ensures r.Some? ==> InRange(r.value)
  {
    FirstMaxFrom(g, scores, 0, NegInf, None)
  }

  /** p is an empty cell whose score is the greatest among the empty cells
      and strictly greater than that of every empty cell before it. */
  predicate IsFirstMax(g: Grid, scores: seq<int>, p: Pos)
    requires WellFormed(g) && |scores| == Size * Size
  {
    InRange(p) && At(g, p) == Empty &&
    forall k :: 0 <= k < Size * Size && At(g, PosOf(k)) == Empty ==>
      scores[k] <= scores[Index(p)] && (k < Index(p) ==> scores[k] < scores[Index(p)])
  }

  predicate AboveNegInf(g: Grid, scores: seq<int>)
    requires WellFormed(g) && |scores| == Size * Size
  {
    forall k :: 0 <= k < Size * Size && At(g, PosOf(k)) == Empty ==> scores[k] > NegInf
  }

  /** The scan from k ends on no cell exactly when it starts on none and
      meets no empty cell. */
  lemma {:induction false} FirstMaxFromNone(g: Grid, scores: seq<int>, k: int, bestScore: int, bestMove: Option<Pos>)
    requires WellFormed(g) && |scores| == Size * Size && 0 <= k <= Size * Size
    requires AboveNegInf(g, scores)
    requires bestMove.Some? ==> InRange(bestMove.value)
    requires bestMove == None ==> bestScore == NegInf
    ensures FirstMaxFrom(g, scores, k, bestScore, bestMove) == None <==>
              bestMove == None && forall k' :: k <= k' < Size * Size ==> At(g, PosOf(k')) != Empty
    decreases Size * Size - k
  {
    if k < Size * Size {
      if At(g, PosOf(k)) == Empty && scores[k] > bestScore {
        FirstMaxFromNone(g, scores, k + 1, scores[k], Some(PosOf(k)));
      } else {
        FirstMaxFromNone(g, scores, k + 1, bestScore, bestMove);
      }
    }
  }

  /** The scan from k, started on the first maximum of the cells before k,
      ends on the first maximum of all cells. */
  lemma {:induction false} FirstMaxFromSpec(g: Grid, scores: seq<int>, k: int, bestScore: int, bestMove: Option<Pos>)
    requires WellFormed(g) && |scores| == Size * Size && 0 <= k <= Size * Size
    requires AboveNegInf(g, scores)
    requires bestMove == None ==>
               bestScore == NegInf && forall k' :: 0 <= k' < k ==> At(g, PosOf(k')) != Empty
    requires bestMove.Some? ==>
               InRange(bestMove.value) && Index(bestMove.value) < k && At(g, bestMove.value) == Empty &&
               bestScore == scores[Index(bestMove.value)] &&
               forall k' :: 0 <= k' < k && At(g, PosOf(k')) == Empty ==>
                 scores[k'] <= bestScore && (k' < Index(bestMove.value) ==> scores[k'] < bestScore)
    ensures var r := FirstMaxFrom(g, scores, k, bestScore, bestMove);
            r.Some? ==> IsFirstMax(g, scores, r.value)
    decreases Size * Size - k
  {
    if k < Size * Size {
      if At(g, PosOf(k)) == Empty && scores[k] > bestScore {
        FirstMaxFromSpec(g, scores, k + 1, scores[k], Some(PosOf(k)));
      } else {
        FirstMaxFromSpec(g, scores, k + 1, bestScore, bestMove);
      }
    } else if bestMove.Some? {
      assert IsFirstMax(g, scores, bestMove.value);
    }
  }

  /** Choosing by strictly-greater comparison from -inf yields no cell exactly
      when the board is full, and otherwise the first empty cell of maximal score. */
  lemma FirstMaxSpec(g: Grid, scores: seq<int>)
    requires WellFormed(g) && |scores| == Size * Size && AboveNegInf(g, scores)
    ensures FirstMax(g, scores) == None <==> Full(g)
    ensures FirstMax(g, scores).Some? ==> IsFirstMax(g, scores, FirstMax(g, scores).value)
  {
    FirstMaxFromNone(g, scores, 0, NegInf, None);
    FirstMaxFromSpec(g, scores, 0, NegInf, None);
    if !Full(g) {
      var i, j :| 0 <= i < Size && 0 <= j < Size && g[i][j] == Empty;
      PosOfIndex(Pos(i, j));
    }
  }

  /** The first maximum is unique: an empty cell of maximal score, strictly
      above every earlier empty cell, is the one the scan picks. */
  lemma FirstMaxUnique(g: Grid, scores: seq<int>, p: Pos)
    requires WellFormed(g) && |scores| == Size * Size && AboveNegInf(g, scores)
    requires IsFirstMax(g, scores, p)
    ensures FirstMax(g, scores) == Some(p)
  {
    PosOfIndex(p);
    assert g[p.row][p.col] == Empty;
    FirstMaxSpec(g, scores);
    var q := FirstMax(g, scores).value;
    PosOfIndex(q);
    assert scores[Index(p)] <= scores[Index(q)] && scores[Index(q)] <= scores[Index(p)];
    assert Index(q) == Index(p);
  }

  /** One pass of the nested loops of `make_best_move` over an occupied cell
      (i, j): nothing happens. */
  lemma FirstMaxSkip(g: Grid, scores: seq<int>, i: int, j: int, bestScore: int, bestMove: Option<Pos>)
    requires WellFormed(g) && |scores| == Size * Size && 0 <= i < Size && 0 <= j < Size && g[i][j] != Empty
    ensures FirstMaxFrom(g, scores, 3 * i + j, bestScore, bestMove) ==
            FirstMaxFrom(g, scores, 3 * i + j + 1, bestScore, bestMove)
  {
    PosOfIndex(Pos(i, j));
  }

  /** One pass of the nested loops of `make_best_move` over an empty cell
      (i, j): the cell is kept when its score beats the best so far. */
  lemma FirstMaxTake(g: Grid, scores: seq<int>, i: int, j: int, bestScore: int, bestMove: Option<Pos>)
    requires WellFormed(g) && |scores| == Size * Size && 0 <= i < Size && 0 <= j < Size && g[i][j] == Empty
    ensures FirstMaxFrom(g, scores, 3 * i + j, bestScore, bestMove) ==
            if scores[3 * i + j] > bestScore
            then FirstMaxFrom(g, scores, 3 * i + j + 1, scores[3 * i + j], Some(Pos(i, j)))
            else FirstMaxFrom(g, scores, 3 * i + j + 1, bestScore, bestMove)
  {
    PosOfIndex(Pos(i, j));
  }

  /** The score of every cell as `make_best_move` computes it (0 for occupied
      cells, which it skips). */
  function TrialScores(g: Grid, w: Winner): (s: seq<int>)
    requires WellFormed(g)
    ensures |s| == Size * Size
    ensures forall k :: 0 <= k < Size * Size ==> s[k] == TrialEntry(g, w, k)
  {
    TrialScoresFrom(g, w, 0)
  }

  function TrialScoresFrom(g: Grid, w: Winner, k: int): (s: seq<int>)
    requires WellFormed(g) && 0 <= k <= Size * Size
    ensures |s| == Size * Size - k
    ensures forall i :: k <= i < Size * Size ==> s[i - k] == TrialEntry(g, w, i)
    decreases Size * Size - k
  {
    if k == Size * Size then []
    else
      var rest := TrialScoresFrom(g, w, k + 1);
      assert forall i :: k < i < Size * Size ==> ([TrialEntry(g, w, k)] + rest)[i - k] == TrialEntry(g, w, i);
      [TrialEntry(g, w, k)] + rest
  }

  /** Entry k of the trial scores: the trial score of an empty cell, 0 for
      an occupied one. */
  function TrialEntry(g: Grid, w: Winner, k: int): int
    requires WellFormed(g) && 0 <= k < Size * Size
  {
    if At(g, PosOf(k)) == Empty then TrialScore(g, w, k) else 0
  }

  /** The cell `make_best_move` plays, or None when it plays nothing. */
  function BestMove(g: Grid, w: Winner): (r: Option<Pos>)
    requires WellFormed(g)
    ensures r.Some? ==> InRange(r.value)
  {
    FirstMax(g, TrialScores(g, w))
  }

  /** `make_best_move` picks no cell exactly when the board is full; otherwise
      an empty cell whose trial score is maximal, ties going to the earliest
      cell in row-major order. */
  lemma BestMoveSpec(g: Grid, w: Winner)
    requires WellFormed(g)
    ensures BestMove(g, w) == None <==> Full(g)
    ensures BestMove(g, w).Some? ==> IsFirstMax(g, TrialScores(g, w), BestMove(g, w).value)
  {
    var scores := TrialScores(g, w);
    forall k | 0 <= k < Size * Size && At(g, PosOf(k)) == Empty
      ensures scores[k] > NegInf
    {
      TrialScoreRange(g, w, k);
    }
    FirstMaxSpec(g, scores);
  }

  // The trial move of `make_best_move` is not followed by `check_winner`.
  // The corrected scoring below does what the search's own loop body does:
  // place, check, search, so that a trial that completes a line of O is
  // scored as the win it is.

  /** Trial scores with `check_winner` run after the trial O. */
  function CheckedTrialScores(g: Grid): (s: seq<int>)
    requires WellFormed(g)
    ensures |s| == Size * Size
  {
    seq(Size * Size, k requires 0 <= k < Size * Size =>
      if At(g, PosOf(k)) == Empty then ChildScore(g, true, k) else 0)
  }

  function CorrectedBestMove(g: Grid): Option<Pos>
    requires WellFormed(g)
  {
    FirstMax(g, CheckedTrialScores(g))
  }

  /** With the check in place, the chosen cell attains the minimax value of
      the position with O to move; in particular a cell that wins at once
      is never passed over for a worse one. */
  lemma CorrectedBestMoveIsOptimal(g: Grid)
    requires WellFormed(g) && !Full(g)
    ensures CorrectedBestMove(g).Some?
    ensures var p := CorrectedBestMove(g).value;
            InRange(p) && At(g, p) == Empty && PosOf(Index(p)) == p &&
            ChildScore(g, true, Index(p)) == Score(g, NoWinner, true)
  {
    var scores := CheckedTrialScores(g);
    forall k | 0 <= k < Size * Size && At(g, PosOf(k)) == Empty
      ensures scores[k] > NegInf
    {
      ChildBounded(g, true, k);
    }
    FirstMaxSpec(g, scores);
    var p := CorrectedBestMove(g).value;
    PosOfIndex(p);
    ScoreIsBestChild(g, true);
    var k :| 0 <= k < Size * Size && At(g, PosOf(k)) == Empty &&
             Score(g, NoWinner, true) == ChildScore(g, true, k);
    assert scores[k] <= scores[Index(p)];
  }

  /** A trial that completes a line of O scores 1 once the check is run. */
  lemma ImmediateWinScoresOne(g: Grid, k: int)
    requires WellFormed(g) && 0 <= k < Size * Size && At(g, PosOf(k)) == Empty
    requires Verdict(Place(g, PosOf(k), Mark(O))) == Won(O)
    ensures ChildScore(g, true, k) == 1
  {
  }

  /** With the check in place, when some empty cell completes a line of O,
      the chosen cell scores 1. */
  lemma CorrectedTakesWin(g: Grid, k: int)
    requires WellFormed(g) && 0 <= k < Size * Size && At(g, PosOf(k)) == Empty
    requires Verdict(Place(g, PosOf(k), Mark(O))) == Won(O)
    ensures CorrectedBestMove(g).Some?
    ensures var p := CorrectedBestMove(g).value;
            InRange(p) && At(g, p) == Empty && PosOf(Index(p)) == p &&
            ChildScore(g, true, Index(p)) == 1
  {
    var p := PosOf(k);
    assert g[p.row][p.col] == Empty;
    CorrectedBestMoveIsOptimal(g);
    ImmediateWinScoresOne(g, k);
    ScoreIsBestChild(g, true);
    ScoreBounded(g, NoWinner, true);
    assert Score(g, NoWinner, true) >= ChildScore(g, true, k);
  }

  /** X X _ / O O _ / _ _ _ with O to move. */
  const Threat: Grid := [[Mark(X), Mark(X), Empty], [Mark(O), Mark(O), Empty], [Empty, Empty, Empty]]

  /** Threat after the trial O at (1, 2). */
  const ThreatTrial: Grid := [[Mark(X), Mark(X), Empty], [Mark(O), Mark(O), Mark(O)], [Empty, Empty, Empty]]

  /** ThreatTrial after the reply X at (0, 2). */
  const ThreatReply: Grid := [[Mark(X), Mark(X), Mark(X)], [Mark(O), Mark(O), Mark(O)], [Empty, Empty, Empty]]

  lemma ThreatBoards()
    ensures WellFormed(Threat) && WellFormed(ThreatTrial) && WellFormed(ThreatReply)
    ensures PosOf(5) == Pos(1, 2) && PosOf(2) == Pos(0, 2)
    ensures At(Threat, Pos(1, 2)) == Empty && At(Threat, Pos(0, 2)) == Empty
    ensures Place(Threat, Pos(1, 2), Mark(O)) == ThreatTrial
    ensures At(ThreatTrial, Pos(0, 2)) == Empty
    ensures Place(ThreatTrial, Pos(0, 2), Mark(X)) == ThreatReply
  {
    assert Threat[1][2 := Mark(O)] == ThreatTrial[1];
    assert ThreatTrial[0][2 := Mark(X)] == ThreatReply[0];
  }

  /** The trial completes row 1, but the reply completes row 0, which is scanned first. */
  lemma ThreatVerdicts()
    ensures WellFormed(ThreatTrial) && WellFormed(ThreatReply)
    ensures Verdict(ThreatTrial) == Won(O)
    ensures Verdict(ThreatReply) == Won(X)
  {
    ThreatBoards();
    assert Complete(ThreatTrial, ScanOrder()[2]);
    assert !Complete(ThreatTrial, ScanOrder()[0]) && !Complete(ThreatTrial, ScanOrder()[1]);
    FirstLineIsFirst(ThreatTrial, ScanOrder(), 2);
    assert Complete(ThreatReply, ScanOrder()[0]);
    FirstLineIsFirst(ThreatReply, ScanOrder(), 0);
  }

  /** With X to move on ThreatTrial, the first empty cell, (0, 2), already
      gives X the win, and nothing scores below -1. */
  lemma ThreatTrialFold()
    ensures WellFormed(ThreatTrial) && Fold(ThreatTrial, false, 0, PosInf) == -1
  {
    ThreatBoards();
    ThreatVerdicts();
    var t := ThreatTrial;
    FoldSkip(t, false, 0, 0, PosInf);
    FoldSkip(t, false, 0, 1, PosInf);
    FoldTake(t, false, 0, 2, PosInf, -1);
    FoldDominates(t, false, 3, -1);
    FoldBounded(t, false, 3, -1);
  }

  lemma ThreatTrialScore()
    ensures WellFormed(Threat) && At(Threat, PosOf(5)) == Empty
    ensures TrialScore(Threat, NoWinner, 5) == -1
  {
    ThreatBoards();
    ThreatTrialFold();
    assert TrialScore(Threat, NoWinner, 5) == Score(ThreatTrial, NoWinner, false);
  }

  /** On the Threat board the trial O at (1, 2) completes row 1, yet
      `make_best_move` scores it -1: the reply X at (0, 2) completes row 0,
      which `check_winner` scans before row 1. The cell is therefore never
      chosen, while the checked scoring gives it 1. */
  lemma ShadowedWin()
    ensures WellFormed(Threat) && At(Threat, Pos(1, 2)) == Empty && PosOf(5) == Pos(1, 2)
    ensures Verdict(Place(Threat, Pos(1, 2), Mark(O))) == Won(O)
    ensures TrialScore(Threat, NoWinner, 5) == -1
    ensures ChildScore(Threat, true, 5) == 1
    ensures BestMove(Threat, NoWinner) != Some(Pos(1, 2))
  {
    ThreatBoards();
    ThreatVerdicts();
    ThreatTrialScore();
    ImmediateWinScoresOne(Threat, 5);
    BestMoveSpec(Threat, NoWinner);
    TrialScoreRange(Threat, NoWinner, 2);
  }

  /** A position with X to move in which X completes row 0 at (0, 2) scores
      -1 at most: (0, 2) is a child of the search, and row 0 is scanned first. */
  lemma XTakesRowZero(t: Grid)
    requires WellFormed(t) && At(t, Pos(0, 0)) == Mark(X) && At(t, Pos(0, 1)) == Mark(X)
    requires At(t, Pos(0, 2)) == Empty
    ensures Score(t, NoWinner, false) <= -1
  {
    PosOfIndex(Pos(0, 2));
    var b := Place(t, Pos(0, 2), Mark(X));
    assert At(b, Pos(0, 0)) == Mark(X) && At(b, Pos(0, 1)) == Mark(X);
    assert Complete(b, ScanOrder()[0]);
    FirstCompleteDecides(b, 0);
    FoldDominates(t, false, 0, PosInf);
    assert ChildScore(t, false, 2) == -1;
  }

  /** X X _ / _ _ X / _ O O with O to move: O wins at once at (2, 0), while
      X threatens row 0. */
  const Giveaway: Grid := [[Mark(X), Mark(X), Empty], [Empty, Empty, Mark(X)], [Empty, Mark(O), Mark(O)]]

  /** Giveaway after O at (0, 2), which blocks row 0. */
  const GiveawayBlock: Grid := [[Mark(X), Mark(X), Mark(O)], [Empty, Empty, Mark(X)], [Empty, Mark(O), Mark(O)]]

  /** Giveaway after O at (2, 0), which completes row 2. */
  const GiveawayWin: Grid := [[Mark(X), Mark(X), Empty], [Empty, Empty, Mark(X)], [Mark(O), Mark(O), Mark(O)]]

  /** GiveawayBlock after X at (2, 0), which blocks row 2. */
  const GiveawayCorner: Grid := [[Mark(X), Mark(X), Mark(O)], [Empty, Empty, Mark(X)], [Mark(X), Mark(O), Mark(O)]]

  /** GiveawayCorner after O at (1, 0), and then after X at (1, 1): a tie. */
  const GiveawayEdge: Grid := [[Mark(X), Mark(X), Mark(O)], [Mark(O), Empty, Mark(X)], [Mark(X), Mark(O), Mark(O)]]
  const GiveawayTie: Grid := [[Mark(X), Mark(X), Mark(O)], [Mark(O), Mark(X), Mark(X)], [Mark(X), Mark(O), Mark(O)]]

  /** GiveawayCorner after O at (1, 1), and then after X at (1, 0): column 0. */
  const GiveawayCentre: Grid := [[Mark(X), Mark(X), Mark(O)], [Empty, Mark(O), Mark(X)], [Mark(X), Mark(O), Mark(O)]]
  const GiveawayLoss: Grid := [[Mark(X), Mark(X), Mark(O)], [Mark(X), Mark(O), Mark(X)], [Mark(X), Mark(O), Mark(O)]]

  lemma GiveawayBoards()
    ensures WellFormed(Giveaway) && WellFormed(GiveawayBlock) && WellFormed(GiveawayCorner)
    ensures WellFormed(GiveawayEdge) && WellFormed(GiveawayTie)
    ensures WellFormed(GiveawayCentre) && WellFormed(GiveawayLoss)
    ensures PosOf(2) == Pos(0, 2) && PosOf(3) == Pos(1, 0) && PosOf(4) == Pos(1, 1) && PosOf(6) == Pos(2, 0)
    ensures WellFormed(GiveawayWin) && Place(Giveaway, Pos(2, 0), Mark(O)) == GiveawayWin
    ensures Place(Giveaway, Pos(0, 2), Mark(O)) == GiveawayBlock
    ensures Place(GiveawayBlock, Pos(2, 0), Mark(X)) == GiveawayCorner
    ensures Place(GiveawayCorner, Pos(1, 0), Mark(O)) == GiveawayEdge
    ensures Place(GiveawayEdge, Pos(1, 1), Mark(X)) == GiveawayTie
    ensures Place(GiveawayCorner, Pos(1, 1), Mark(O)) == GiveawayCentre
    ensures Place(GiveawayCentre, Pos(1, 0), Mark(X)) == GiveawayLoss
  {
    assert Giveaway[2][0 := Mark(O)] == GiveawayWin[2];
    assert Giveaway[0][2 := Mark(O)] == GiveawayBlock[0];
    assert GiveawayBlock[2][0 := Mark(X)] == GiveawayCorner[2];
    assert GiveawayCorner[1][0 := Mark(O)] == GiveawayEdge[1];
    assert GiveawayEdge[1][1 := Mark(X)] == GiveawayTie[1];
    assert GiveawayCorner[1][1 := Mark(O)] == GiveawayCentre[1];
    assert GiveawayCentre[1][0 := Mark(X)] == GiveawayLoss[1];
  }

  /** A board on which no line is complete, read line by line in scan
      order: `check_winner` records a tie when it is full, nothing otherwise. */
  lemma NoLineVerdict(g: Grid)
    requires WellFormed(g)
    requires !Complete(g, Row(0)) && !Complete(g, Column(0)) && !Complete(g, Row(1))
    requires !Complete(g, Column(1)) && !Complete(g, Row(2)) && !Complete(g, Column(2))
    requires !Complete(g, MainDiagonal) && !Complete(g, AntiDiagonal)
    ensures Verdict(g) == if Full(g) then Tie else NoWinner
  {
    NoCompleteDecides(g);
  }

  /** O at (2, 0) completes row 2, the first complete line in scan order. */
  lemma GiveawayWinVerdict()
    ensures WellFormed(Giveaway) && At(Giveaway, Pos(2, 0)) == Empty
    ensures Verdict(Place(Giveaway, Pos(2, 0), Mark(O))) == Won(O)
  {
    GiveawayBoards();
    var t := GiveawayWin;
    assert !Complete(t, Row(0)) && !Complete(t, Column(0)) && !Complete(t, Row(1)) && !Complete(t, Column(1));
    assert Complete(t, ScanOrder()[4]);
    FirstCompleteDecides(t, 4);
  }

  /** None of the boards along the searched line has a complete line before
      the last move, so `check_winner` leaves the winner at None there. */
  lemma GiveawayBlockVerdict()
    ensures WellFormed(GiveawayBlock) && Verdict(GiveawayBlock) == NoWinner
  {
    GiveawayBoards();
    NoLineVerdict(GiveawayBlock);
    assert GiveawayBlock[1][1] == Empty;
  }

  lemma GiveawayCornerVerdict()
    ensures WellFormed(GiveawayCorner) && Verdict(GiveawayCorner) == NoWinner
  {
    GiveawayBoards();
    NoLineVerdict(GiveawayCorner);
    assert GiveawayCorner[1][1] == Empty;
  }

  lemma GiveawayEdgeVerdict()
    ensures WellFormed(GiveawayEdge) && Verdict(GiveawayEdge) == NoWinner
  {
    GiveawayBoards();
    NoLineVerdict(GiveawayEdge);
    assert GiveawayEdge[1][1] == Empty;
  }

  lemma GiveawayCentreVerdict()
    ensures WellFormed(GiveawayCentre) && Verdict(GiveawayCentre) == NoWinner
  {
    GiveawayBoards();
    NoLineVerdict(GiveawayCentre);
    assert GiveawayCentre[1][0] == Empty;
  }

  /** The two ends of the searched line: a full board with no line, and
      column 0 of X. */
  lemma GiveawayTieVerdict()
    ensures WellFormed(GiveawayTie) && Verdict(GiveawayTie) == Tie
  {
    GiveawayBoards();
    NoLineVerdict(GiveawayTie);
  }

  lemma GiveawayLossVerdict()
    ensures WellFormed(GiveawayLoss) && Verdict(GiveawayLoss) == Won(X)
  {
    GiveawayBoards();
    assert !Complete(GiveawayLoss, Row(0)) && Complete(GiveawayLoss, ScanOrder()[1]);
    FirstCompleteDecides(GiveawayLoss, 1);
  }

  /** O at (1, 0) lets X tie at (1, 1). */
  lemma GiveawayEdgeScore()
    ensures WellFormed(GiveawayEdge) && Score(GiveawayEdge, NoWinner, false) <= 0
  {
    GiveawayBoards();
    GiveawayTieVerdict();
    FoldDominates(GiveawayEdge, false, 0, PosInf);
    assert ChildScore(GiveawayEdge, false, 4) == 0;
  }

  /** O at (1, 1) lets X complete column 0 at (1, 0). */
  lemma GiveawayCentreScore()
    ensures WellFormed(GiveawayCentre) && Score(GiveawayCentre, NoWinner, false) <= -1
  {
    GiveawayBoards();
    GiveawayLossVerdict();
    FoldDominates(GiveawayCentre, false, 0, PosInf);
    assert ChildScore(GiveawayCentre, false, 3) == -1;
  }

  /** With O to move and no outcome recorded, a bound on every child score
      bounds the score of the position. */
  lemma MaximizerAtMost(g: Grid, bound: int)
    requires WellFormed(g) && NegInf <= bound
    requires forall k :: 0 <= k < Size * Size && At(g, PosOf(k)) == Empty ==> ChildScore(g, true, k) <= bound
    ensures Score(g, NoWinner, true) <= bound
  {
    FoldAttained(g, true, 0, NegInf);
  }

  /** The empty cells of GiveawayCorner, by row-major index. */
  lemma GiveawayCornerEmpties()
    ensures WellFormed(GiveawayCorner)
    ensures forall k :: 0 <= k < Size * Size && At(GiveawayCorner, PosOf(k)) == Empty ==> k == 3 || k == 4
  {
    GiveawayBoards();
    forall k | 0 <= k < Size * Size && At(GiveawayCorner, PosOf(k)) == Empty
      ensures k == 3 || k == 4
    {
      assert k == 0 || k == 1 || k == 2 || k == 3 || k == 4 || k == 5 || k == 6 || k == 7 || k == 8;
    }
  }

  /** After O blocks at (0, 2) and X blocks at (2, 0), O can reach no better
      than a tie: O at (1, 0) lets X tie, O at (1, 1) lets X win. */
  lemma GiveawayCornerScore()
    ensures WellFormed(GiveawayCorner) && Score(GiveawayCorner, NoWinner, true) <= 0
  {
    GiveawayBoards();
    GiveawayCornerEmpties();
    forall k | 0 <= k < Size * Size && At(GiveawayCorner, PosOf(k)) == Empty
      ensures ChildScore(GiveawayCorner, true, k) <= 0
    {
      if k == 3 {
        GiveawayEdgeVerdict();
        GiveawayEdgeScore();
      } else {
        GiveawayCentreVerdict();
        GiveawayCentreScore();
      }
    }
    MaximizerAtMost(GiveawayCorner, 0);
  }

  /** The cell that `make_best_move` plays on Giveaway, (0, 2), is worth no
      more than a tie once X replies at (2, 0). */
  lemma GiveawayBlockScore()
    ensures WellFormed(Giveaway) && At(Giveaway, PosOf(2)) == Empty
    ensures ChildScore(Giveaway, true, 2) <= 0
  {
    GiveawayBoards();
    GiveawayBlockVerdict();
    GiveawayCornerVerdict();
    GiveawayCornerScore();
    assert ChildScore(Giveaway, true, 2) == Score(GiveawayBlock, NoWinner, false);
    FoldDominates(GiveawayBlock, false, 0, PosInf);
    assert ChildScore(GiveawayBlock, false, 6) == Score(GiveawayCorner, NoWinner, true);
  }

  /** On Giveaway the other empty cells lose at once: X completes row 0
      whether or not the trial O is checked. */
  lemma GiveawayOthersLose(k: int)
    requires k == 3 || k == 4 || k == 6
    ensures WellFormed(Giveaway) && At(Giveaway, PosOf(k)) == Empty
    ensures TrialScore(Giveaway, NoWinner, k) <= -1
    ensures k != 6 ==> ChildScore(Giveaway, true, k) <= -1
  {
    GiveawayBoards();
    var t := Place(Giveaway, PosOf(k), Mark(O));
    XTakesRowZero(t);
    if k != 6 {
      NoLineVerdict(t);
      assert At(t, Pos(0, 2)) == Empty;
    }
  }

  /** On Giveaway O to move wins at once, so the minimax value is 1. */
  lemma GiveawayValue()
    ensures WellFormed(Giveaway) && Score(Giveaway, NoWinner, true) == 1
  {
    GiveawayBoards();
    GiveawayWinVerdict();
    ImmediateWinScoresOne(Giveaway, 6);
    ScoreIsBestChild(Giveaway, true);
    ScoreBounded(Giveaway, NoWinner, true);
  }

  /** The empty cells of Giveaway, by row-major index. */
  lemma GiveawayEmpties()
    ensures WellFormed(Giveaway)
    ensures forall k :: 0 <= k < Size * Size && At(Giveaway, PosOf(k)) == Empty ==>
              k == 2 || k == 3 || k == 4 || k == 6
  {
    GiveawayBoards();
    forall k | 0 <= k < Size * Size && At(Giveaway, PosOf(k)) == Empty
      ensures k == 2 || k == 3 || k == 4 || k == 6
    {
      assert k == 0 || k == 1 || k == 2 || k == 3 || k == 4 || k == 5 || k == 6 || k == 7 || k == 8;
    }
  }

  /** `make_best_move` as written plays (0, 2): every other trial scores -1
      at most, and (0, 2) is the first empty cell. */
  lemma GiveawayAsWritten()
    ensures WellFormed(Giveaway) && BestMove(Giveaway, NoWinner) == Some(Pos(0, 2))
  {
    var g := Giveaway;
    GiveawayBoards();
    GiveawayEmpties();
    var s := TrialScores(g, NoWinner);
    forall k | 0 <= k < Size * Size && At(g, PosOf(k)) == Empty
      ensures -1 <= s[k] && (k != 2 ==> s[k] <= -1)
    {
      TrialScoreRange(g, NoWinner, k);
      if k != 2 {
        GiveawayOthersLose(k);
      }
    }
    assert IsFirstMax(g, s, Pos(0, 2));
    FirstMaxUnique(g, s, Pos(0, 2));
  }

  /** The checked scores of the empty cells of Giveaway: only (2, 0) wins. */
  lemma GiveawayChildScores()
    ensures WellFormed(Giveaway)
    ensures forall k :: 0 <= k < Size * Size && At(Giveaway, PosOf(k)) == Empty ==>
              if k == 6 then ChildScore(Giveaway, true, k) == 1 else ChildScore(Giveaway, true, k) <= 0
  {
    GiveawayBoards();
    GiveawayEmpties();
    GiveawayWinVerdict();
    ImmediateWinScoresOne(Giveaway, 6);
    GiveawayBlockScore();
    GiveawayOthersLose(3);
    GiveawayOthersLose(4);
  }

  /** The checked scoring plays (2, 0): it alone attains the value 1. */
  lemma GiveawayCorrected()
    ensures WellFormed(Giveaway) && CorrectedBestMove(Giveaway) == Some(Pos(2, 0))
  {
    var g := Giveaway;
    GiveawayChildScores();
    var s := CheckedTrialScores(g);
    forall k | 0 <= k < Size * Size && At(g, PosOf(k)) == Empty
      ensures -1 <= s[k] <= 1 && (k != 6 ==> s[k] <= 0)
    {
      assert s[k] == ChildScore(g, true, k);
      ChildBounded(g, true, k);
    }
    PosOfIndex(Pos(2, 0));
    assert IsFirstMax(g, s, Pos(2, 0));
    FirstMaxUnique(g, s, Pos(2, 0));
  }

  /** On Giveaway, O to move wins at once at (2, 0), so the minimax value is 1.
      `make_best_move` as written plays (0, 2) instead, a cell worth at most a
      tie: its trial at (2, 0) is scored as the reply X at (0, 2) completing
      row 0, and the win is given up. The checked scoring plays (2, 0). */
  lemma GivenUpWin()
    ensures WellFormed(Giveaway) && At(Giveaway, Pos(2, 0)) == Empty
    ensures Verdict(Place(Giveaway, Pos(2, 0), Mark(O))) == Won(O)
    ensures Score(Giveaway, NoWinner, true) == 1
    ensures BestMove(Giveaway, NoWinner) == Some(Pos(0, 2)) && PosOf(2) == Pos(0, 2)
    ensures ChildScore(Giveaway, true, 2) <= 0
    ensures CorrectedBestMove(Giveaway) == Some(Pos(2, 0))
  {
    GiveawayBoards();
    GiveawayWinVerdict();
    GiveawayValue();
    GiveawayAsWritten();
    GiveawayBlockScore();
    GiveawayCorrected();
  }
}
