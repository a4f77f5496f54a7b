/** The game: the list of board snapshots, the cursor into it, and the two
    operations that change them (playing a move and jumping back in time). */
module History {
  import opened Board

  /** The mark of the player to move when the cursor is at history index
      `move`: `X` on even indices, `O` on odd ones. */
  function MarkFor(move: nat): (r: Mark) {
    if move % 2 == 0 then X else O
  }

  /** `next` follows `squares` by one legal move of the player to move at
      history index `move`: `squares` has no winner, and `next` is `squares`
      with one empty square given that player's mark. */
  ghost predicate IsMove(squares: Squares, next: Squares, move: nat) {
    Winner(squares) == None &&
    exists i: Index :: squares[i] == Empty && next == squares[i := Filled(MarkFor(move))]
  }

  /** A history starts at the empty board and each snapshot follows its
      predecessor by one legal move. */
  ghost predicate ValidHistory(history: seq<Squares>) {
    |history| > 0 && history[0] == EmptyBoard &&
    forall m :: 0 < m < |history| ==> IsMove(history[m - 1], history[m], m - 1)
  }

  /** The number of squares of `squares` holding `c`. */
  function Count(squares: seq<Cell>, c: Cell): (r: nat) {
    if squares == [] then 0
    else (if squares[0] == c then 1 else 0) + Count(squares[1..], c)
  }

  lemma {:induction false} CountUpdate(squares: seq<Cell>, i: nat, v: Cell, c: Cell)
    requires i < |squares|
    ensures Count(squares[i := v], c) ==
            Count(squares, c) - (if squares[i] == c then 1 else 0) + (if v == c then 1 else 0)
  {
    if i > 0 {
      assert squares[i := v][1..] == squares[1..][i - 1 := v];
      CountUpdate(squares[1..], i - 1, v, c);
    } else {
      assert squares[i := v][1..] == squares[1..];
    }
  }

  lemma CountEmptyBoard()
    ensures Count(EmptyBoard, Empty) == 9
    ensures Count(EmptyBoard, Filled(X)) == 0 && Count(EmptyBoard, Filled(O)) == 0
  {
    var s := EmptyBoard;
    assert s[1..][1..][1..][1..][1..][1..][1..][1..][1..] == [];
  }

  /** After `m` moves the board holds `m` marks: `X` has played (m + 1) / 2
      of them and `O` the other m / 2, so the players strictly alternate. */
  lemma {:induction false} HistoryCounts(history: seq<Squares>, m: nat)
    requires ValidHistory(history) && m < |history|
    ensures Count(history[m], Empty) == 9 - m
    ensures Count(history[m], Filled(X)) == (m + 1) / 2
    ensures Count(history[m], Filled(O)) == m / 2
  {
    if m == 0 {
      CountEmptyBoard();
    } else {
      HistoryCounts(history, m - 1);
      assert IsMove(history[m - 1], history[m], m - 1);
      var i: Index :| history[m - 1][i] == Empty && history[m] == history[m - 1][i := Filled(MarkFor(m - 1))];
      CountUpdate(history[m - 1], i, Filled(MarkFor(m - 1)), Empty);
      CountUpdate(history[m - 1], i, Filled(MarkFor(m - 1)), Filled(X));
      CountUpdate(history[m - 1], i, Filled(MarkFor(m - 1)), Filled(O));
    }
  }

  /** A game has at most nine moves, so at most ten snapshots. */
  lemma HistoryLength(history: seq<Squares>)
    requires ValidHistory(history)
    ensures |history| <= 10
  {
    HistoryCounts(history, |history| - 1);
  }

  /** Once a square is filled it keeps its mark in every later snapshot. */
  lemma {:induction false} MarksArePermanent(history: seq<Squares>, m: nat, n: nat, i: Index)
    requires ValidHistory(history) && m <= n < |history|
    requires history[m][i] != Empty
    ensures history[n][i] == history[m][i]
    decreases n - m
  {
    if m < n {
      MarksArePermanent(history, m, n - 1, i);
      assert IsMove(history[n - 1], history[n], n - 1);
      var j: Index :| history[n - 1][j] == Empty && history[n] == history[n - 1][j := Filled(MarkFor(n - 1))];
      assert j != i;
    }
  }

  /** The square filled on reaching history index `m` holds `X` when `m` is
      odd and `O` when `m` is even. */
  lemma TurnAlternation(history: seq<Squares>, m: nat)
    requires ValidHistory(history) && 0 < m < |history|
    ensures exists i: Index :: history[m - 1][i] == Empty && history[m][i] != Empty &&
              history[m] == history[m - 1][i := Filled(if m % 2 == 1 then X else O)]
  {
    assert IsMove(history[m - 1], history[m], m - 1);
    var i: Index :| history[m - 1][i] == Empty && history[m] == history[m - 1][i := Filled(MarkFor(m - 1))];
    assert history[m][i] != Empty;
  }

  /** Only the last snapshot of a history can have a winner: play stops once
      someone has won. */
  lemma NoWinnerBeforeLast(history: seq<Squares>, m: nat)
    requires ValidHistory(history) && m < |history| - 1
    ensures Winner(history[m]) == None
  {
    assert IsMove(history[m], history[m + 1], m);
  }

  class Game {
    /** The board snapshots, the empty board first. */
    var history: seq<Squares>
    /** The index of the snapshot on display. */
    var currentMove: nat

    ghost predicate Valid()
      reads this
    {
      ValidHistory(history) && currentMove < |history|
    }

    /** A new game: one empty board, cursor on it. */
    constructor ()
      ensures Valid()
      ensures history == [EmptyBoard] && currentMove == 0
    {
      history := [EmptyBoard];
      currentMove := 0;
    }

    /** `X` is to move exactly when the cursor is even. */
    function XIsNext(): (r: bool)
      reads this
      ensures r <==> currentMove % 2 == 0
    {
      MarkFor(currentMove) == X
    }

    /** The snapshot on display: the one the cursor selects, which holds
        exactly `currentMove` marks. */
    function CurrentSquares(): (r: Squares)
      reads this
      requires Valid()
      ensures r == history[currentMove]
      ensures Count(r, Empty) == 9 - currentMove
    {
      HistoryCounts(history, currentMove);
      history[currentMove]
    }

    /** Record a move: drop every snapshot after the cursor, append the new
        board and move the cursor onto it. */
    method HandlePlay(nextSquares: Squares)
      requires Valid()
      requires IsMove(CurrentSquares(), nextSquares, currentMove)
      modifies this
      ensures Valid()
      ensures history == old(history[..currentMove + 1]) + [nextSquares]
      ensures currentMove == |history| - 1 == old(currentMove) + 1
    {
      var nextHistory := history[..currentMove + 1] + [nextSquares];
      assert forall m :: 0 <= m <= currentMove ==> nextHistory[m] == history[m];
      history := nextHistory;
      currentMove := |nextHistory| - 1;
    }

    /** Show snapshot `nextMove`; the history itself is kept. */
    method JumpTo(nextMove: nat)
      requires Valid() && nextMove < |history|
      modifies this`currentMove
      ensures Valid()
      ensures history == old(history) && currentMove == nextMove
    {
      currentMove := nextMove;
    }

    /** A click on square `i` of the displayed board: the board's move rule,
        with an accepted move recorded through `HandlePlay`. */
    method Click(i: Index)
      requires Valid()
      modifies this
      ensures Valid()
      ensures old(Winner(CurrentSquares()) != None || CurrentSquares()[i] != Empty) ==>
                history == old(history) && currentMove == old(currentMove)
      ensures old(Winner(CurrentSquares()) == None && CurrentSquares()[i] == Empty) ==>
                history == old(history[..currentMove + 1] + [CurrentSquares()[i := Filled(MarkFor(currentMove))]]) &&
                currentMove == old(currentMove) + 1
    {
      var squares := CurrentSquares();
      var next := HandleClick(squares, XIsNext(), i);
      if next != None {
        assert next.value == squares[i := Filled(MarkFor(currentMove))];
        HandlePlay(next.value);
      }
    }
  }
}
