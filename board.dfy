/** The 3x3 grid, its cells in row-major order, the eight lines and the
    outcome that `check_winner` detects. Everything here is a value; the
    game object that owns a grid is in module Game. */
module Board {

  datatype Option<T> = None | Some(value: T)

  /** A player's mark, 'X' or 'O'. */
  datatype Player = X | O

  /** One cell of the grid: '' or a mark. */
  datatype Cell = Empty | Mark(player: Player)

  /** The game's `winner` field: None, 'X', 'O' or 'Tie'. */
  datatype Winner = NoWinner | Won(player: Player) | Tie

  datatype Pos = Pos(row: int, col: int)

  /** The board, a list of three rows of three cells. */
  type Grid = seq<seq<Cell>>

  /** BOARD_SIZE */
  const Size: nat := 3

  predicate WellFormed(g: Grid) {
    |g| == Size && forall i :: 0 <= i < Size ==> |g[i]| == Size
  }

  predicate InRange(p: Pos) {
    0 <= p.row < Size && 0 <= p.col < Size
  }

  function At(g: Grid, p: Pos): Cell
    requires WellFormed(g) && InRange(p)
  {
    g[p.row][p.col]
  }

  /** Position of a cell in the order of the nested loops `for i: for j:`. */
  function Index(p: Pos): int {
    Size * p.row + p.col
  }

  /** The k-th cell in row-major order. */
  function PosOf(k: int): (p: Pos)
    requires 0 <= k < Size * Size
    ensures InRange(p) && Index(p) == k
  {
    Pos(k / Size, k % Size)
  }

  lemma PosOfIndex(p: Pos)
    requires InRange(p)
    ensures PosOf(Index(p)) == p
  {
  }

  /** The assignment `board[row][col] = c`. */
  function Place(g: Grid, p: Pos, c: Cell): (r: Grid)
    requires WellFormed(g) && InRange(p)
    ensures WellFormed(r) && At(r, p) == c
    ensures forall q :: InRange(q) && q != p ==> At(r, q) == At(g, q)
  {
    g[p.row := g[p.row][p.col := c]]
  }

  /** `[['' for _ in range(3)] for _ in range(3)]` */
  function EmptyGrid(): (g: Grid)
    ensures WellFormed(g)
    ensures forall q :: InRange(q) ==> At(g, q) == Empty
  {
    seq(Size, _ => seq(Size, _ => Empty))
  }

  /** The number of cells, from row-major index k on, that hold c. */
  function CountFrom(g: Grid, c: Cell, k: int): (n: nat)
    requires WellFormed(g) && 0 <= k <= Size * Size
    ensures n <= Size * Size - k
    decreases Size * Size - k
  {
    if k == Size * Size then 0
    else (if At(g, PosOf(k)) == c then 1 else 0) + CountFrom(g, c, k + 1)
  }

  function Count(g: Grid, c: Cell): nat
    requires WellFormed(g)
  {
    CountFrom(g, c, 0)
  }

  /** Overwriting one cell moves one unit of count from the old content to
      the new one, among the cells at or after k. */
  lemma {:induction false} CountFromPlace(g: Grid, p: Pos, c: Cell, x: Cell, k: int)
    requires WellFormed(g) && InRange(p) && 0 <= k <= Size * Size
    ensures CountFrom(Place(g, p, c), x, k) + (if k <= Index(p) && At(g, p) == x then 1 else 0)
         == CountFrom(g, x, k) + (if k <= Index(p) && c == x then 1 else 0)
    decreases Size * Size - k
  {
    if k < Size * Size {
      CountFromPlace(g, p, c, x, k + 1);
    }
  }

  /** Erasing a mark just written to an empty cell gives back the grid. */
  lemma UndoPlace(g: Grid, p: Pos, c: Cell)
    requires WellFormed(g) && InRange(p) && At(g, p) == Empty
    ensures Place(Place(g, p, c), p, Empty) == g
  {
    assert Place(Place(g, p, c), p, Empty)[p.row] == g[p.row];
  }

  /** A grid holding no c counts no c. */
  lemma {:induction false} CountAbsent(g: Grid, c: Cell, k: int)
    requires WellFormed(g) && 0 <= k <= Size * Size
    requires forall q :: InRange(q) ==> At(g, q) != c
    ensures CountFrom(g, c, k) == 0
    decreases Size * Size - k
  {
    if k < Size * Size {
      CountAbsent(g, c, k + 1);
    }
  }

  /** Marking an empty cell leaves one empty cell fewer: this is what makes
      the game-tree search terminate. */
  lemma PlaceShrinks(g: Grid, p: Pos, m: Player)
    requires WellFormed(g) && InRange(p) && At(g, p) == Empty
    ensures Count(Place(g, p, Mark(m)), Empty) == Count(g, Empty) - 1
    ensures Count(Place(g, p, Mark(m)), Mark(m)) == Count(g, Mark(m)) + 1
    ensures Count(Place(g, p, Mark(m)), Mark(Other(m))) == Count(g, Mark(Other(m)))
  {
    CountFromPlace(g, p, Mark(m), Empty, 0);
    CountFromPlace(g, p, Mark(m), Mark(m), 0);
    CountFromPlace(g, p, Mark(m), Mark(Other(m)), 0);
  }

  function Other(m: Player): Player {
    if m == X then O else X
  }

  /** The empty cells from row-major index k on, in row-major order: the
      comprehension `[(i, j) for i in range(3) for j in range(3) if board[i][j] == '']`. */
  function EmptyFrom(g: Grid, k: int): (r: seq<Pos>)
    requires WellFormed(g) && 0 <= k <= Size * Size
    ensures forall a :: 0 <= a < |r| ==> InRange(r[a]) && k <= Index(r[a]) && At(g, r[a]) == Empty
    ensures |r| == CountFrom(g, Empty, k)
    decreases Size * Size - k
  {
    if k == Size * Size then []
    else
      var rest := EmptyFrom(g, k + 1);
      if At(g, PosOf(k)) == Empty then [PosOf(k)] + rest else rest
  }

  /** Every empty cell from index k on is listed. */
  lemma {:induction false} EmptyFromComplete(g: Grid, k: int)
    requires WellFormed(g) && 0 <= k <= Size * Size
    ensures forall q :: InRange(q) && k <= Index(q) && At(g, q) == Empty ==> q in EmptyFrom(g, k)
    decreases Size * Size - k
  {
    if k < Size * Size {
      EmptyFromComplete(g, k + 1);
      forall q | InRange(q) && k <= Index(q) && At(g, q) == Empty
        ensures q in EmptyFrom(g, k)
      {
        if Index(q) == k {
          PosOfIndex(q);
        }
      }
    }
  }

  /** The list is in strictly increasing row-major order. */
  lemma {:induction false} EmptyFromOrdered(g: Grid, k: int)
    requires WellFormed(g) && 0 <= k <= Size * Size
    ensures forall a, b :: 0 <= a < b < |EmptyFrom(g, k)| ==> Index(EmptyFrom(g, k)[a]) < Index(EmptyFrom(g, k)[b])
    decreases Size * Size - k
  {
    if k < Size * Size {
      EmptyFromOrdered(g, k + 1);
    }
  }

  function EmptyCells(g: Grid): seq<Pos>
    requires WellFormed(g)
  {
    EmptyFrom(g, 0)
  }

  /** The test `all(board[i][j] != '' for i in range(3) for j in range(3))`. */
  predicate Full(g: Grid)
    requires WellFormed(g)
  {
    forall i, j :: 0 <= i < Size && 0 <= j < Size ==> g[i][j] != Empty
  }

  /** A full board is one with no empty cell, counted or listed. */
  lemma FullIffNoEmpty(g: Grid)
    requires WellFormed(g)
    ensures Full(g) <==> EmptyCells(g) == []
    ensures Full(g) <==> Count(g, Empty) == 0
  {
    var cells := EmptyCells(g);
    assert |cells| == Count(g, Empty);
    if !Full(g) {
      var i, j :| 0 <= i < Size && 0 <= j < Size && g[i][j] == Empty;
      var p := Pos(i, j);
      assert InRange(p) && 0 <= Index(p) && At(g, p) == Empty;
      EmptyFromComplete(g, 0);
      assert p in cells;
    }
  }

  /** Three cells in a row, a column or a diagonal. */
  datatype Line = Line(a: Pos, b: Pos, c: Pos)

  function Row(i: int): Line {
    Line(Pos(i, 0), Pos(i, 1), Pos(i, 2))
  }

  function Column(i: int): Line {
    Line(Pos(0, i), Pos(1, i), Pos(2, i))
  }

  const MainDiagonal: Line := Line(Pos(0, 0), Pos(1, 1), Pos(2, 2))
  const AntiDiagonal: Line := Line(Pos(0, 2), Pos(1, 1), Pos(2, 0))

  /** The order in which `check_winner` examines the lines: row i, then
      column i, for i = 0, 1, 2; then the two diagonals. */
  function ScanOrder(): (r: seq<Line>)
    ensures |r| == 8 && forall k :: 0 <= k < |r| ==> OnBoard(r[k])
  {
    [Row(0), Column(0), Row(1), Column(1), Row(2), Column(2), MainDiagonal, AntiDiagonal]
  }

  predicate OnBoard(l: Line) {
    InRange(l.a) && InRange(l.b) && InRange(l.c)
  }

  predicate Covers(l: Line, p: Pos) {
    p == l.a || p == l.b || p == l.c
  }

  /** The test `a == b == c != ''` on the three cells of a line. */
  predicate Complete(g: Grid, l: Line)
    requires WellFormed(g) && OnBoard(l)
  {
    At(g, l.a) == At(g, l.b) && At(g, l.b) == At(g, l.c) && At(g, l.c) != Empty
  }

  /** The mark of the first complete line among `lines`, or NoWinner. */
  function FirstLine(g: Grid, lines: seq<Line>): (w: Winner)
    requires WellFormed(g) && forall k :: 0 <= k < |lines| ==> OnBoard(lines[k])
    ensures w != Tie
    ensures w == NoWinner <==> forall k :: 0 <= k < |lines| ==> !Complete(g, lines[k])
  {
    if lines == [] then NoWinner
    else if Complete(g, lines[0]) then Won(At(g, lines[0].a).player)
    else FirstLine(g, lines[1..])
  }

  /** When line k is the first complete one, its mark is what FirstLine reports. */
  lemma {:induction false} FirstLineIsFirst(g: Grid, lines: seq<Line>, k: int)
    requires WellFormed(g) && forall k' :: 0 <= k' < |lines| ==> OnBoard(lines[k'])
    requires 0 <= k < |lines| && Complete(g, lines[k])
    requires forall k' :: 0 <= k' < k ==> !Complete(g, lines[k'])
    ensures FirstLine(g, lines) == Won(At(g, lines[k].a).player)
  {
    if k > 0 {
      FirstLineIsFirst(g, lines[1..], k - 1);
    }
  }

  /** The first complete line in scan order decides the outcome. */
  lemma FirstCompleteDecides(g: Grid, k: int)
    requires WellFormed(g) && 0 <= k < |ScanOrder()| && Complete(g, ScanOrder()[k])
    requires forall k' :: 0 <= k' < k ==> !Complete(g, ScanOrder()[k'])
    ensures Verdict(g) == Won(At(g, ScanOrder()[k].a).player)
  {
    FirstLineIsFirst(g, ScanOrder(), k);
  }

  /** With no complete line the outcome is a tie on a full board, else none. */
  lemma NoCompleteDecides(g: Grid)
    requires WellFormed(g) && forall k :: 0 <= k < |ScanOrder()| ==> !Complete(g, ScanOrder()[k])
    ensures Verdict(g) == if Full(g) then Tie else NoWinner
  {
  }

  /** The outcome `check_winner` detects: the first complete line in scan
      order, else Tie on a full board, else NoWinner. */
  function Verdict(g: Grid): Winner
    requires WellFormed(g)
  {
    var w := FirstLine(g, ScanOrder());
    if w != NoWinner then w
    else if Full(g) then Tie
    else NoWinner
  }

  /** No line is complete. */
  predicate NoLine(g: Grid)
    requires WellFormed(g)
  {
    forall k :: 0 <= k < |ScanOrder()| ==> !Complete(g, ScanOrder()[k])
  }

  /** All complete lines carry the same mark. */
  predicate LinesAgree(g: Grid)
    requires WellFormed(g)
  {
    forall k1, k2 :: 0 <= k1 < |ScanOrder()| && 0 <= k2 < |ScanOrder()|
      && Complete(g, ScanOrder()[k1]) && Complete(g, ScanOrder()[k2])
      ==> At(g, ScanOrder()[k1].a) == At(g, ScanOrder()[k2].a)
  }

  /** The three outcomes of a scan, each characterised both ways; on a board
      whose complete lines agree, a win goes to the mark of any complete line. */
  lemma VerdictCases(g: Grid)
    requires WellFormed(g)
    ensures Verdict(g) == NoWinner <==> NoLine(g) && !Full(g)
    ensures Verdict(g) == Tie <==> NoLine(g) && Full(g)
    ensures Verdict(g).Won? <==> !NoLine(g)
    ensures LinesAgree(g) ==>
              (forall k :: 0 <= k < |ScanOrder()| && Complete(g, ScanOrder()[k])
                 ==> Verdict(g) == Won(At(g, ScanOrder()[k].a).player))
  {
    if LinesAgree(g) && !NoLine(g) {
      var k0 :| 0 <= k0 < |ScanOrder()| && Complete(g, ScanOrder()[k0]);
      var first := FirstIndexExists(g, k0);
      FirstLineIsFirst(g, ScanOrder(), first);
    }
  }

  /** The index of the first complete line, given that line k is complete. */
  lemma {:induction false} FirstIndexExists(g: Grid, k: int) returns (first: int)
    requires WellFormed(g) && 0 <= k < |ScanOrder()| && Complete(g, ScanOrder()[k])
    ensures 0 <= first <= k && Complete(g, ScanOrder()[first])
    ensures forall k' :: 0 <= k' < first ==> !Complete(g, ScanOrder()[k'])
    decreases k
  {
    if exists k' :: 0 <= k' < k && Complete(g, ScanOrder()[k']) {
      var k' :| 0 <= k' < k && Complete(g, ScanOrder()[k']);
      first := FirstIndexExists(g, k');
    } else {
      first := k;
    }
  }

  /** A line that one placement completes runs through the placed cell and
      carries the placed content. */
  lemma NewLineCovers(g: Grid, p: Pos, c: Cell, l: Line)
    requires WellFormed(g) && InRange(p) && OnBoard(l)
    requires !Complete(g, l) && Complete(Place(g, p, c), l)
    ensures Covers(l, p) && At(Place(g, p, c), l.a) == c
  {
  }
}
