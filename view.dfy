/** The values `Game.render` derives from the state: the board on display,
    the winning line to highlight, the status line and the move list. */
module View {
  import opened Wrappers
  import opened Rules
  import opened GameState

  /** One entry of the move list: the step it jumps to, its text, and
      whether it is the highlighted step. */
  datatype MoveEntry = MoveEntry(move: nat, text: string, selected: bool)

  /** The decimal digits of `n`, as JavaScript prints a number: digits
      only, with no leading zero. */
  function NatToString(n: nat): (s: string)
    ensures |s| >= 1
    ensures forall k :: 0 <= k < |s| ==> IsDigit(s[k])
    ensures s[0] == '0' ==> n == 0
    decreases n
  {
    if n < 10 then [Digit(n)] else NatToString(n / 10) + [Digit(n % 10)]
  }

  predicate IsDigit(c: char) {
    '0' <= c <= '9'
  }

  function DigitValue(c: char): nat
    requires IsDigit(c)
  {
    c as int - '0' as int
  }

  function Digit(d: nat): (c: char)
    requires d < 10
    ensures IsDigit(c) && DigitValue(c) == d
  {
    "0123456789"[d]
  }

  /** The number a string of decimal digits denotes. */
  function DigitsValue(s: string): nat
    requires forall k :: 0 <= k < |s| ==> IsDigit(s[k])
  {
    if s == [] then 0
    else DigitsValue(s[..|s| - 1]) * 10 + DigitValue(s[|s| - 1])
  }

  /** Reading the printed digits back gives the number. */
  lemma {:induction false} NatToStringRoundTrip(n: nat)
    ensures DigitsValue(NatToString(n)) == n
    decreases n
  {
    var s := NatToString(n);
    if n >= 10 {
      NatToStringRoundTrip(n / 10);
      assert s[..|s| - 1] == NatToString(n / 10);
    }
  }

  /** A player's mark as printed. */
  function PlayerName(p: Player): string {
    if p == X then "X" else "O"
  }

  /** The status line: the winner if the board on display has a complete
      line, else a draw when the history holds ten entries, else whose turn
      it is. */
  function Status(squares: seq<Cell>, historyLength: nat, xIsNext: bool): (r: string)
    ensures AnyLine(squares) <==> r == "Winner X" || r == "Winner O"
    ensures r == "Draw, no one wins" <==> !AnyLine(squares) && historyLength == 10
    ensures r == "Next player: X" <==> !AnyLine(squares) && historyLength != 10 && xIsNext
    ensures r == "Next player: O" <==> !AnyLine(squares) && historyLength != 10 && !xIsNext
  {
    match Winner(squares)
    case Some(w) => "Winner " + PlayerName(w.winner)
    case None =>
      if historyLength == 10 then "Draw, no one wins"
      else
        assert "Next player: X"[13] != "Next player: O"[13];
        "Next player: " + (if xIsNext then "X" else "O")
  }

  /** The winner the status names is the mark of the first complete line
      in table order. */
  lemma StatusNamesFirstLine(squares: seq<Cell>, historyLength: nat, xIsNext: bool, j: nat)
    requires FirstCompleteFrom(squares, 0, j)
    ensures Status(squares, historyLength, xIsNext) == "Winner " + PlayerName(squares[LINES[j].a].player)
  {
    ScanReportsFirstLine(squares, 0, j);
  }

  /** At the last step of a game, the draw status is shown exactly when the
      board is full and has no complete line. */
  lemma DrawAtLastStepIffFull(h: seq<Step>, xIsNext: bool)
    requires WellFormed(h)
    ensures Status(h[|h| - 1].squares, |h|, xIsNext) == "Draw, no one wins" <==>
      !AnyLine(h[|h| - 1].squares) && Full(h[|h| - 1].squares)
  {
    var b := h[|h| - 1].squares;
    HistoryAtMostTen(h);
    FilledAlongHistory(h, |h| - 1);
    if |h| == 10 {
      LastBoardFullAtTen(h);
    } else if Full(b) {
      FilledTaken(b);
    }
  }

  /** The draw test reads the length of the whole history, not the step on
      display: after jumping back in a game of ten entries to a step whose
      board has no complete line, the status still reads as a draw, though
      that board has an empty cell whenever the step is not the last. */
  lemma DrawShownAfterJumpBack(h: seq<Step>, step: nat, xIsNext: bool)
    requires WellFormed(h) && |h| == 10 && step < |h| && !AnyLine(h[step].squares)
    ensures Status(h[step].squares, |h|, xIsNext) == "Draw, no one wins"
    ensures step < 9 ==> exists j :: 0 <= j < 9 && h[step].squares[j] == Empty
  {
    FilledAlongHistory(h, step);
    if step < 9 && Full(h[step].squares) {
      FilledTaken(h[step].squares);
    }
  }

  /** The label text of move `move`: 'Go to game start' for step 0,
      'Go to move #n' otherwise. */
  function Description(move: nat): (r: string)
    ensures r == "Go to game start" <==> move == 0
  {
    if move != 0 then
      var r := "Go to move #" + NatToString(move);
      assert r[6] != "Go to game start"[6];
      r
    else "Go to game start"
  }

  /** The ' (row, col)' suffix, shown only when the entry's row is set (and,
      as a JavaScript truth test, not 0). A missing column prints as 'null'. */
  function Coordinates(step: Step): (r: string)
    ensures r == "" <==> step.row.None? || step.row.value == 0
    ensures step.row.Some? && step.row.value != 0 && step.col.None? ==>
      r == " (" + NatToString(step.row.value) + ", null)"
  {
    if step.row.Some? && step.row.value != 0 then
      " (" + NatToString(step.row.value) + ", " +
      (if step.col.Some? then NatToString(step.col.value) else "null") + ")"
    else ""
  }

  /** The move-list entry for history entry `move`. */
  function EntryFor(h: seq<Step>, move: nat, selectedStep: nat): MoveEntry
    requires move < |h|
  {
    MoveEntry(move, Description(move) + Coordinates(h[move]), move == selectedStep)
  }

  function Reverse<T>(s: seq<T>): (r: seq<T>)
    ensures |r| == |s|
  {
    if s == [] then [] else Reverse(s[1..]) + [s[0]]
  }

  /** Element `k` of the reversed sequence is element `|s| - 1 - k` of `s`. */
  lemma {:induction false} ReverseAt<T>(s: seq<T>)
    ensures forall k :: 0 <= k < |s| ==> Reverse(s)[k] == s[|s| - 1 - k]
  {
    if s != [] {
      ReverseAt(s[1..]);
      assert forall k :: 0 <= k < |s| - 1 ==> Reverse(s)[k] == Reverse(s[1..])[k];
    }
  }

  /** Reversing twice gives the sequence back. */
  lemma ReverseTwice<T>(s: seq<T>)
    ensures Reverse(Reverse(s)) == s
  {
    ReverseAt(s);
    ReverseAt(Reverse(s));
  }

  /** The move list: one entry per history entry, in history order under
      'ASC' and in reverse order otherwise. */
  function MoveList(h: seq<Step>, selectedStep: nat, order: SortOrder): (r: seq<MoveEntry>)
    ensures |r| == |h|
    ensures forall k :: 0 <= k < |h| ==>
      r[k] == EntryFor(h, if order == Asc then k else |h| - 1 - k, selectedStep)
  {
    var moves := seq(|h|, k requires 0 <= k < |h| => EntryFor(h, k, selectedStep));
    if order == Asc then moves
    else
      ReverseAt(moves);
      Reverse(moves)
  }

  /** Toggling the order twice gives back the same list, and the two
      orders list the same entries, one the reverse of the other. */
  lemma ToggleTwiceRestoresMoveList(h: seq<Step>, selectedStep: nat, order: SortOrder)
    ensures MoveList(h, selectedStep, Toggled(Toggled(order))) == MoveList(h, selectedStep, order)
    ensures MoveList(h, selectedStep, Toggled(order)) == Reverse(MoveList(h, selectedStep, order))
  {
    ToggledTwice(order);
    var asc := MoveList(h, selectedStep, Asc);
    var desc := MoveList(h, selectedStep, Desc);
    ReverseAt(asc);
    ReverseAt(desc);
    assert desc == Reverse(asc);
    assert asc == Reverse(desc);
  }

  /** Exactly the entry of the highlighted step is marked selected. */
  lemma SelectedEntry(h: seq<Step>, selectedStep: nat, order: SortOrder, k: nat)
    requires k < |h|
    ensures MoveList(h, selectedStep, order)[k].selected <==>
      MoveList(h, selectedStep, order)[k].move == selectedStep
  {
  }

  /** In a game's history, the starting entry carries no coordinates and
      every later entry shows the row and column of the cell its ply took. */
  lemma CoordinatesOfPly(h: seq<Step>, k: nat)
    requires WellFormed(h) && k < |h|
    ensures k == 0 ==> Coordinates(h[k]) == ""
    ensures k > 0 ==> exists i: nat :: (
      && i < 9
      && h[k - 1].squares[i] == Empty
      && h[k].squares == h[k - 1].squares[i := Taken(NextMark((k - 1) % 2 == 0))]
      && Coordinates(h[k]) == " (" + NatToString(CalculateRowCol(i).row) + ", " +
           NatToString(CalculateRowCol(i).col) + ")")
  {
    if k > 0 {
      assert FollowsAt(h, k);
      var c := Coord(h[k].row.value, h[k].col.value);
      RowColOfCellIndex(c);
      var i := CellIndex(c);
      assert CalculateRowCol(i) == c;
    }
  }

  /** What `render` computes from the state: the board of the displayed
      step, the line to highlight, the status line and the move list. */
  method Render(g: Game) returns (board: seq<Cell>, winnerLine: Option<Line>, status: string, moves: seq<MoveEntry>)
    requires g.Valid()
    ensures board == g.history[g.stepNumber].squares
    ensures winnerLine.Some? <==> AnyLine(board)
    ensures winnerLine.Some? ==> exists j: nat :: FirstCompleteFrom(board, 0, j) && winnerLine.value == LINES[j]
    ensures status == Status(board, |g.history|, g.xIsNext)
    ensures moves == MoveList(g.history, g.selectedStep, g.sortOrder)
  {
    var history := g.history;
    var current := history[g.stepNumber];
    board := current.squares;
    var winnerCalculation := CalculateWinner(board);
    winnerLine := if winnerCalculation.Some? then Some(winnerCalculation.value.line) else None;
    moves := MoveList(history, g.selectedStep, g.sortOrder);
    if winnerCalculation.Some? {
      status := "Winner " + PlayerName(winnerCalculation.value.winner);
    } else if |history| == 10 {
      status := "Draw, no one wins";
    } else {
      status := "Next player: " + (if g.xIsNext then "X" else "O");
    }
  }
}
