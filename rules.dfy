/** The two helper functions of the game: the scan of the eight fixed lines
    of a 3x3 board for a winner (calculateWinner) and the conversion of a cell
    index into a 1-based row and column (calculateRowCol). */
module Rules {
  import opened Wrappers

  /** A player's mark, 'X' or 'O'. */
  datatype Player = X | O

  /** One square of the board: `null` while empty, otherwise a mark. */
  datatype Cell = Empty | Taken(player: Player)

  /** A line of three cell indices `[a, b, c]`. */
  datatype Line = Line(a: nat, b: nat, c: nat)

  /** The object calculateWinner returns when it finds a line: the mark
      and the line that wins. */
  datatype Win = Win(winner: Player, line: Line)

  /** A 1-based row and column. */
  datatype Coord = Coord(row: nat, col: nat)

  /** The eight lines in the order they are scanned: the three rows, the
      three columns, then the two diagonals. */
  const LINES: seq<Line> := [
    Line(0, 1, 2),
    Line(3, 4, 5),
    Line(6, 7, 8),
    Line(0, 3, 6),
    Line(1, 4, 7),
    Line(2, 5, 8),
    Line(0, 4, 8),
    Line(2, 4, 6)
  ]

  /** Line `l` is complete on `squares`: its three cells hold the same mark.
      A cell beyond the end of `squares` reads as empty, as an out-of-range
      array read does in the source. */
  predicate Complete(squares: seq<Cell>, l: Line) {
    && l.a < |squares| && l.b < |squares| && l.c < |squares|
    && squares[l.a].Taken?
    && squares[l.a] == squares[l.b]
    && squares[l.a] == squares[l.c]
  }

  /** Some line of the table is complete on `squares`. */
  predicate AnyLine(squares: seq<Cell>) {
    exists j :: 0 <= j < |LINES| && Complete(squares, LINES[j])
  }

  /** Line `j` is the first complete line at or after position `k` of the table. */
  predicate FirstCompleteFrom(squares: seq<Cell>, k: nat, j: nat) {
    && k <= j < |LINES|
    && Complete(squares, LINES[j])
    && forall i :: k <= i < j ==> !Complete(squares, LINES[i])
  }

  /** The result reported for complete line number `j`. */
  function WinOn(squares: seq<Cell>, j: nat): (w: Win)
    requires j < |LINES| && Complete(squares, LINES[j])
    ensures w.line == LINES[j]
    ensures squares[w.line.a] == squares[w.line.b] == squares[w.line.c] == Taken(w.winner)
  {
    Win(squares[LINES[j].a].player, LINES[j])
  }

  /** The scan of the table from position `k` on. */
  function ScanFrom(squares: seq<Cell>, k: nat): (r: Option<Win>)
    requires k <= |LINES|
    ensures r.None? <==> forall j :: k <= j < |LINES| ==> !Complete(squares, LINES[j])
    ensures r.Some? ==> exists j :: FirstCompleteFrom(squares, k, j) && r.value == WinOn(squares, j)
    decreases |LINES| - k
  {
    if k == |LINES| then None
    else if Complete(squares, LINES[k]) then Some(WinOn(squares, k))
    else ScanFrom(squares, k + 1)
  }

  /** The specification of calculateWinner: the first complete line of the
      table, in table order, with its mark; no result when no line is complete. */
  function Winner(squares: seq<Cell>): (r: Option<Win>)
    ensures r.None? <==> !AnyLine(squares)
    ensures r.Some? ==> exists j :: FirstCompleteFrom(squares, 0, j) && r.value == WinOn(squares, j)
  {
    ScanFrom(squares, 0)
  }

  /** Whichever line is the first complete one, that line and its mark are
      what Winner reports; in particular the earlier lines of the table win
      the tie when several lines are complete at once. */
  lemma {:induction false} ScanReportsFirstLine(squares: seq<Cell>, k: nat, j: nat)
    requires k <= |LINES| && FirstCompleteFrom(squares, k, j)
    ensures ScanFrom(squares, k) == Some(WinOn(squares, j))
    decreases |LINES| - k
  {
    if k < j {
      ScanReportsFirstLine(squares, k + 1, j);
    }
  }

  /** calculateWinner: walk the table in order and return at the first
      complete line. */
  method CalculateWinner(squares: seq<Cell>) returns (r: Option<Win>)
    ensures r == Winner(squares)
  {
    var i := 0;
    while i < |LINES|
      invariant 0 <= i <= |LINES|
      invariant ScanFrom(squares, i) == Winner(squares)
    {
      var l := LINES[i];
      if Complete(squares, l) {
        return Some(Win(squares[l.a].player, l));
      }
      i := i + 1;
    }
    return None;
  }

  /** The cell index of a 1-based row and column (the `i * 3 + j` of the
      board layout). */
  function CellIndex(c: Coord): nat
    requires c.row >= 1 && c.col >= 1
  {
    (c.row - 1) * 3 + (c.col - 1)
  }

  /** calculateRowCol: `row = floor(i / 3) + 1`, `col = i % 3 + 1`. */
  function CalculateRowCol(i: nat): (c: Coord)
    ensures c.row >= 1 && 1 <= c.col <= 3
    ensures i < 9 <==> c.row <= 3
    ensures CellIndex(c) == i
  {
    Coord(i / 3 + 1, i % 3 + 1)
  }

  /** The other direction of the round trip: every row and column of the
      board is the image of exactly its own cell index. */
  lemma RowColOfCellIndex(c: Coord)
    requires 1 <= c.row <= 3 && 1 <= c.col <= 3
    ensures CellIndex(c) < 9
    ensures CalculateRowCol(CellIndex(c)) == c
  {
    var i := CellIndex(c);
    assert i / 3 == c.row - 1 && i % 3 == c.col - 1;
  }
}
