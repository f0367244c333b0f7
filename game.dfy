/** The state of the `Game` component: the history of boards, the step on
    display, whose turn it is, the highlighted step and the order of the
    move list, with the three event handlers that change it. */
module GameState {
  import opened Wrappers
  import opened Rules

  /** The order of the move list: 'ASC' or 'DESC'. */
  datatype SortOrder = Asc | Desc

  /** One history entry: the board after a ply and where that ply was
      placed (`null` row and column for the starting position). */
  datatype Step = Step(squares: seq<Cell>, row: Option<nat>, col: Option<nat>)

  /** The starting position: nine empty cells, no row, no column. */
  const INITIAL_STEP: Step :=
    Step([Empty, Empty, Empty, Empty, Empty, Empty, Empty, Empty, Empty], None, None)

  /** The mark placed by the player to move: `xIsNext ? 'X' : 'O'`. Ply `n`
      of a game, counting from 0, places `NextMark(n % 2 == 0)`: X starts. */
  function NextMark(xIsNext: bool): Player {
    if xIsNext then X else O
  }

  /** `next` is what a click produces from `prev` at ply `ply`: the click
      landed on the empty cell recorded by next's row and column, `prev` had
      no winner, and that cell now holds the mark of ply `ply`. */
  predicate Follows(prev: Step, next: Step, ply: nat) {
    && next.row.Some? && next.col.Some?
    && 1 <= next.row.value <= 3 && 1 <= next.col.value <= 3
    && |prev.squares| == 9
    && !AnyLine(prev.squares)
    && var i := CellIndex(Coord(next.row.value, next.col.value));
       && prev.squares[i] == Empty
       && next.squares == prev.squares[i := Taken(NextMark(ply % 2 == 0))]
  }

  /** Entry `k` of `h` follows entry `k - 1` by ply `k - 1`. */
  predicate FollowsAt(h: seq<Step>, k: nat)
    requires 0 < k < |h|
  {
    Follows(h[k - 1], h[k], k - 1)
  }

  /** The shape every history the game builds has: it starts at the empty
      board, every board has nine cells, and each entry follows the one
      before it by one ply. */
  predicate WellFormed(h: seq<Step>) {
    && |h| > 0
    && h[0] == INITIAL_STEP
    && (forall k :: 0 <= k < |h| ==> |h[k].squares| == 9)
    && (forall k :: 0 < k < |h| ==> FollowsAt(h, k))
  }

  /** The entry a click on cell `i` appends: the board with `p` at `i`, and
      the row and column of `i`. */
  function PlaceAt(prev: Step, i: nat, p: Player): (next: Step)
    requires i < |prev.squares|
    ensures next.row.Some? && next.col.Some?
    ensures next.row.value >= 1 && 1 <= next.col.value <= 3
    ensures CellIndex(Coord(next.row.value, next.col.value)) == i
  {
    var c := CalculateRowCol(i);
    Step(prev.squares[i := Taken(p)], Some(c.row), Some(c.col))
  }

  /** Dropping the entries after step `s` and appending an entry that follows
      step `s` keeps a history well-formed. */
  lemma KeepAndAppend(h: seq<Step>, s: nat, next: Step)
    requires WellFormed(h) && s < |h| && Follows(h[s], next, s)
    ensures WellFormed(h[..s + 1] + [next])
  {
    var h' := h[..s + 1] + [next];
    forall k | 0 < k < |h'|
      ensures FollowsAt(h', k)
    {
      if k <= s {
        assert FollowsAt(h, k);
      }
    }
  }

  /** Placing the mark of ply `s` on the empty cell `i` of the board at step
      `s`, which has no winner, gives an entry that follows it. */
  lemma PlaceFollows(prev: Step, i: nat, s: nat)
    requires |prev.squares| == 9 && i < 9 && prev.squares[i] == Empty
    requires !AnyLine(prev.squares)
    ensures Follows(prev, PlaceAt(prev, i, NextMark(s % 2 == 0)), s)
  {
  }

  /** A click that is not ignored keeps the history well-formed: the
      entries up to the displayed step `s`, then the board of step `s` with
      the mark of the player to move on the empty cell `i`. */
  lemma ClickKeepsWellFormed(h: seq<Step>, s: nat, x: bool, i: nat)
    requires WellFormed(h) && s < |h| && x == (s % 2 == 0) && i < 9
    requires h[s].squares[i] == Empty && !AnyLine(h[s].squares)
    ensures WellFormed(h[..s + 1] + [PlaceAt(h[s], i, NextMark(x))])
  {
    PlaceFollows(h[s], i, s);
    KeepAndAppend(h, s, PlaceAt(h[s], i, NextMark(x)));
  }

  /** No board before the last one of a well-formed history has a complete
      line: once a line is complete, no click adds an entry after it. */
  lemma NoWinBeforeLast(h: seq<Step>, k: nat)
    requires WellFormed(h) && k + 1 < |h|
    ensures !AnyLine(h[k].squares)
  {
    assert FollowsAt(h, k + 1);
  }

  /** The turn flag flips when the step advances by one. */
  lemma ParityFlips(s: nat, x: bool)
    requires x == (s % 2 == 0)
    ensures !x == ((s + 1) % 2 == 0)
  {
  }

  /** The number of occupied cells of a board. */
  function Filled(b: seq<Cell>): (n: nat)
    ensures n <= |b|
  {
    if b == [] then 0 else (if b[0].Taken? then 1 else 0) + Filled(b[1..])
  }

  lemma {:induction false} FilledNone(b: seq<Cell>)
    requires forall j :: 0 <= j < |b| ==> b[j] == Empty
    ensures Filled(b) == 0
  {
    if b != [] {
      FilledNone(b[1..]);
    }
  }

  /** Placing a mark on an empty cell fills exactly one more cell. */
  lemma {:induction false} FilledPlace(b: seq<Cell>, i: nat, p: Player)
    requires i < |b| && b[i] == Empty
    ensures Filled(b[i := Taken(p)]) == Filled(b) + 1
  {
    if i == 0 {
      assert b[i := Taken(p)][1..] == b[1..];
    } else {
      assert b[i := Taken(p)][1..] == b[1..][i - 1 := Taken(p)];
      FilledPlace(b[1..], i - 1, p);
    }
  }

  /** A board whose every cell is counted as filled has no empty cell. */
  lemma {:induction false} FilledAll(b: seq<Cell>)
    requires Filled(b) == |b|
    ensures Full(b)
  {
    if b != [] {
      FilledAll(b[1..]);
      assert forall j :: 1 <= j < |b| ==> b[j] == b[1..][j - 1];
    }
  }

  /** No cell of the board is empty. */
  predicate Full(b: seq<Cell>) {
    forall j :: 0 <= j < |b| ==> b[j].Taken?
  }

  /** A board with no empty cell counts every cell as filled. */
  lemma {:induction false} FilledTaken(b: seq<Cell>)
    requires Full(b)
    ensures Filled(b) == |b|
  {
    if b != [] {
      FilledTaken(b[1..]);
    }
  }

  /** In a well-formed history, the board at step `k` has exactly `k`
      occupied cells. */
  lemma {:induction false} FilledAlongHistory(h: seq<Step>, k: nat)
    requires WellFormed(h) && k < |h|
    ensures Filled(h[k].squares) == k
  {
    if k == 0 {
      FilledNone(h[0].squares);
    } else {
      FilledAlongHistory(h, k - 1);
      assert FollowsAt(h, k);
      var i := CellIndex(Coord(h[k].row.value, h[k].col.value));
      FilledPlace(h[k - 1].squares, i, NextMark((k - 1) % 2 == 0));
    }
  }

  /** A game never has more than ten history entries: one per ply on a
      nine-cell board plus the starting position. */
  lemma HistoryAtMostTen(h: seq<Step>)
    requires WellFormed(h)
    ensures |h| <= 10
  {
    FilledAlongHistory(h, |h| - 1);
  }

  /** Ten history entries mean the last board is full. */
  lemma LastBoardFullAtTen(h: seq<Step>)
    requires WellFormed(h) && |h| == 10
    ensures Full(h[9].squares)
  {
    FilledAlongHistory(h, 9);
    FilledAll(h[9].squares);
  }

  /** The turn parity the game keeps agrees with the board: X moves exactly
      when an even number of cells is occupied. */
  lemma TurnMatchesBoard(h: seq<Step>, step: nat)
    requires WellFormed(h) && step < |h|
    ensures NextMark(step % 2 == 0) == X <==> Filled(h[step].squares) % 2 == 0
  {
    FilledAlongHistory(h, step);
  }

  /** The toggle of the move-list order. */
  function Toggled(o: SortOrder): (r: SortOrder)
    ensures r != o
  {
    if o == Asc then Desc else Asc
  }

  lemma ToggledTwice(o: SortOrder)
    ensures Toggled(Toggled(o)) == o
  {
  }

  /** The `Game` component's state and its event handlers. Each handler is
      one atomic state update. */
  class Game {
    var history: seq<Step>
    var stepNumber: nat
    var xIsNext: bool
    var selectedStep: nat
    var sortOrder: SortOrder

    /** The invariant the constructor sets up and every handler keeps. */
    ghost predicate Valid()
      reads this
    {
      && WellFormed(history)
      && stepNumber < |history|
      && selectedStep == stepNumber
      && xIsNext == (stepNumber % 2 == 0)
    }

    /** The board on display, `history[stepNumber].squares`. */
    function CurrentBoard(): (b: seq<Cell>)
      reads this
      requires Valid()
      ensures |b| == 9
    {
      history[stepNumber].squares
    }

    constructor ()
      ensures Valid()
      ensures history == [INITIAL_STEP]
      ensures stepNumber == 0 && selectedStep == 0 && xIsNext
      ensures sortOrder == Asc
    {
      history := [INITIAL_STEP];
      stepNumber := 0;
      xIsNext := true;
      selectedStep := 0;
      sortOrder := Asc;
    }

    /** A click on cell `i`: ignored when the displayed board already has a
        winner or cell `i` is taken; otherwise the history after the
        displayed step is dropped and the board with the mark placed is
        appended and displayed. */
    method HandleClick(i: nat)
      requires Valid() && i < 9
      modifies this
      ensures Valid()
      ensures sortOrder == old(sortOrder)
      ensures old(Winner(CurrentBoard()).Some? || CurrentBoard()[i].Taken?) ==>
        && history == old(history)
        && stepNumber == old(stepNumber)
        && selectedStep == old(selectedStep)
        && xIsNext == old(xIsNext)
      ensures old(Winner(CurrentBoard()).None? && CurrentBoard()[i] == Empty) ==>
        && history == old(history)[..old(stepNumber) + 1] +
             [PlaceAt(old(history)[old(stepNumber)], i, NextMark(old(xIsNext)))]
        && stepNumber == selectedStep == old(stepNumber) + 1 == |history| - 1
        && xIsNext == !old(xIsNext)
        && forall k :: 0 <= k <= old(stepNumber) ==> history[k] == old(history)[k]
    {
      var h, s, x := history, stepNumber, xIsNext;
      var kept := h[..s + 1];
      assert |kept| == s + 1;
      var current := kept[|kept| - 1];
      var squares := new Cell[9](k => if 0 <= k < |current.squares| then current.squares[k] else Empty);
      assert squares[..] == current.squares;
      var win := CalculateWinner(squares[..]);
      if win.Some? || squares[i].Taken? {
        return;
      }
      squares[i] := Taken(NextMark(x));
      assert squares[..] == current.squares[i := Taken(NextMark(x))];
      var rowCol := CalculateRowCol(i);
      var next := Step(squares[..], Some(rowCol.row), Some(rowCol.col));
      ClickKeepsWellFormed(h, s, x, i);
      ParityFlips(s, x);
      assert next == PlaceAt(h[s], i, NextMark(x));
      history, stepNumber, xIsNext, selectedStep :=
        kept + [next], |kept|, !x, |kept|;
    }

    /** A click on a move of the list: display step `step`. */
    method JumpTo(step: nat)
      requires Valid() && step < |history|
      modifies this
      ensures Valid()
      ensures stepNumber == step && selectedStep == step
      ensures xIsNext == (step % 2 == 0)
      ensures history == old(history) && sortOrder == old(sortOrder)
    {
      stepNumber, xIsNext, selectedStep := step, step % 2 == 0, step;
    }

    /** A click on the order button: flip between 'ASC' and 'DESC'. */
    method ToggleSortOrder()
      modifies this
      ensures sortOrder == Toggled(old(sortOrder))
      ensures history == old(history) && stepNumber == old(stepNumber)
      ensures selectedStep == old(selectedStep) && xIsNext == old(xIsNext)
      ensures old(Valid()) ==> Valid()
    {
      sortOrder := if sortOrder == Asc then Desc else Asc;
    }
  }
}
