/** The game state as a value and the transitions `make_move`, `reset` and the
    computer's choice of cell; module Game's class is proved to follow these. */
module Rules {
  import opened Board
  import opened Search

  /** The fields `board`, `current_player`, `game_over` and `winner`. */
  datatype State = State(board: Grid, currentPlayer: Player, gameOver: bool, winner: Winner)

  /** A fresh game, and the state `reset` restores. */
  function Initial(): State {
    State(EmptyGrid(), X, false, NoWinner)
  }

  /** What `check_winner` does: record a detected outcome and end the game,
      or change nothing. It never clears `game_over`. */
  function Check(s: State): State
    requires WellFormed(s.board)
  {
    var v := Verdict(s.board);
    if v != NoWinner then s.(winner := v, gameOver := true) else s
  }

  /** `make_move` accepts a move on an empty cell of a game not yet over. */
  predicate Accepts(s: State, p: Pos)
    requires WellFormed(s.board) && InRange(p)
  {
    At(s.board, p) == Empty && !s.gameOver
  }

  /** The state after `make_move(p.row, p.col)`: on an accepted move the mark
      of the player to move is written, `check_winner` runs and the player
      switches, even when the move ended the game. */
  function Move(s: State, p: Pos): (r: State)
    requires WellFormed(s.board) && InRange(p)
    ensures WellFormed(r.board)
  {
    if !Accepts(s, p) then s
    else
      var placed := Check(s.(board := Place(s.board, p, Mark(s.currentPlayer))));
      placed.(currentPlayer := Other(s.currentPlayer))
  }

  /** What `make_move` does to a game whose `game_over` and `winner` agree:
      a rejected move changes nothing; an accepted one writes the mover's
      mark on that cell and on no other, records the outcome of the new
      board, and hands the turn to the other player even when the game
      has just ended. */
  lemma MoveEffects(s: State, p: Pos)
    requires WellFormed(s.board) && InRange(p) && (s.gameOver <==> s.winner != NoWinner)
    ensures !Accepts(s, p) ==> Move(s, p) == s
    ensures Accepts(s, p) ==>
              var r := Move(s, p);
              At(r.board, p) == Mark(s.currentPlayer) &&
              (forall q :: InRange(q) && q != p ==> At(r.board, q) == At(s.board, q)) &&
              r.currentPlayer == Other(s.currentPlayer) &&
              r.winner == Verdict(r.board) && (r.gameOver <==> r.winner != NoWinner)
  {
  }

  /** Play the chosen cell through `make_move`, or change nothing. */
  function Play(s: State, choice: Option<Pos>): (r: State)
    requires WellFormed(s.board) && (choice.Some? ==> InRange(choice.value))
    ensures WellFormed(r.board)
  {
    match choice
    case None => s
    case Some(p) => Move(s, p)
  }

  /** `random.choice(empty_cells)`, the random pick given as an index. */
  function RandomCell(g: Grid, pick: nat): (r: Option<Pos>)
    requires WellFormed(g) && (EmptyCells(g) != [] ==> pick < |EmptyCells(g)|)
    ensures r.Some? ==> InRange(r.value) && At(g, r.value) == Empty
  {
    if EmptyCells(g) == [] then None else Some(EmptyCells(g)[pick])
  }

  /** The cell `ai_move` plays: random on "easy"; on "medium" the best cell
      when the draw is below 0.7, else random; the best cell otherwise. */
  function AiCell(difficulty: string, g: Grid, w: Winner, draw: real, pick: nat): (r: Option<Pos>)
    requires WellFormed(g) && (EmptyCells(g) != [] ==> pick < |EmptyCells(g)|)
    ensures r.Some? ==> InRange(r.value)
  {
    if difficulty == "easy" then RandomCell(g, pick)
    else if difficulty == "medium" then
      (if draw < 0.7 then BestMove(g, w) else RandomCell(g, pick))
    else BestMove(g, w)
  }

  /** Whatever the difficulty and the random draws, the computer picks an
      empty cell, and picks none exactly when the board is full. */
  lemma AiCellSpec(difficulty: string, g: Grid, w: Winner, draw: real, pick: nat)
    requires WellFormed(g) && (EmptyCells(g) != [] ==> pick < |EmptyCells(g)|)
    ensures AiCell(difficulty, g, w, draw, pick) == None <==> Full(g)
    ensures AiCell(difficulty, g, w, draw, pick).Some? ==>
              InRange(AiCell(difficulty, g, w, draw, pick).value) &&
              At(g, AiCell(difficulty, g, w, draw, pick).value) == Empty
  {
    FullIffNoEmpty(g);
    BestMoveSpec(g, w);
    if EmptyCells(g) != [] {
      assert EmptyCells(g)[pick] in EmptyCells(g);
    }
  }

  /** What holds of every state a game reaches through `make_move` from a
      fresh start: `winner` is the outcome of the board, `game_over` is set
      exactly when there is one, X has moved once more than O or as often,
      as `current_player` says, and no two complete lines differ in mark. */
  predicate Consistent(s: State) {
    WellFormed(s.board) &&
    (s.gameOver <==> s.winner != NoWinner) &&
    s.winner == Verdict(s.board) &&
    Count(s.board, Mark(X)) == Count(s.board, Mark(O)) + (if s.currentPlayer == O then 1 else 0) &&
    LinesAgree(s.board)
  }

  lemma InitialConsistent()
    ensures Consistent(Initial())
  {
    var g := EmptyGrid();
    CountAbsent(g, Mark(X), 0);
    CountAbsent(g, Mark(O), 0);
    assert g[0][0] == Empty;
    assert NoLine(g);
    VerdictCases(g);
  }

  /** A mark placed on a board with no complete line completes only lines of
      that mark. */
  lemma NewLinesCarry(g: Grid, p: Pos, m: Player)
    requires WellFormed(g) && InRange(p) && NoLine(g)
    ensures forall k :: 0 <= k < |ScanOrder()| && Complete(Place(g, p, Mark(m)), ScanOrder()[k]) ==>
              At(Place(g, p, Mark(m)), ScanOrder()[k].a) == Mark(m)
  {
    forall k | 0 <= k < |ScanOrder()| && Complete(Place(g, p, Mark(m)), ScanOrder()[k])
      ensures At(Place(g, p, Mark(m)), ScanOrder()[k].a) == Mark(m)
    {
      NewLineCovers(g, p, Mark(m), ScanOrder()[k]);
    }
  }

  /** So the lines of such a board agree, and a win it produces goes to the
      player who placed the mark. */
  lemma PlaceOnOpenBoard(g: Grid, p: Pos, m: Player)
    requires WellFormed(g) && InRange(p) && NoLine(g)
    ensures LinesAgree(Place(g, p, Mark(m)))
    ensures Verdict(Place(g, p, Mark(m))).Won? ==> Verdict(Place(g, p, Mark(m))) == Won(m)
  {
    var b := Place(g, p, Mark(m));
    NewLinesCarry(g, p, m);
    VerdictCases(b);
    if Verdict(b).Won? {
      var k :| 0 <= k < |ScanOrder()| && Complete(b, ScanOrder()[k]);
    }
  }

  /** `make_move` keeps a consistent game consistent, and a game is only ever
      won by the player who just moved. */
  lemma MovePreservesConsistent(s: State, p: Pos)
    requires Consistent(s) && InRange(p)
    ensures Consistent(Move(s, p))
    ensures Accepts(s, p) && Move(s, p).winner.Won? ==> Move(s, p).winner == Won(s.currentPlayer)
  {
    if Accepts(s, p) {
      VerdictCases(s.board);
      PlaceOnOpenBoard(s.board, p, s.currentPlayer);
      PlaceShrinks(s.board, p, s.currentPlayer);
    }
  }

  /** The state after a sequence of clicks, each handed to `make_move`. */
  function PlayAll(s: State, moves: seq<Pos>): (r: State)
    requires WellFormed(s.board) && forall i :: 0 <= i < |moves| ==> InRange(moves[i])
    ensures WellFormed(r.board)
    decreases |moves|
  {
    if moves == [] then s else PlayAll(Move(s, moves[0]), moves[1..])
  }

  lemma {:induction false} PlayAllPreservesConsistent(s: State, moves: seq<Pos>)
    requires Consistent(s) && forall i :: 0 <= i < |moves| ==> InRange(moves[i])
    ensures Consistent(PlayAll(s, moves))
    decreases |moves|
  {
    if moves != [] {
      MovePreservesConsistent(s, moves[0]);
      PlayAllPreservesConsistent(Move(s, moves[0]), moves[1..]);
    }
  }

  /** Every state reachable from a fresh game is consistent: in particular
      its `winner` is what `check_winner` would report, and X and O never
      both hold a complete line. */
  lemma ReachableConsistent(moves: seq<Pos>)
    requires forall i :: 0 <= i < |moves| ==> InRange(moves[i])
    ensures Consistent(PlayAll(Initial(), moves))
  {
    InitialConsistent();
    PlayAllPreservesConsistent(Initial(), moves);
  }
}
