/** The rules of tic-tac-toe: the 3x3 grid of squares, winner detection over
    the eight fixed lines, and the move rule applied when a square is clicked. */
module Board {

  datatype Option<T> = None | Some(value: T)

  /** The mark a player places. */
  datatype Mark = X | O

  /** One square of the grid; `Empty` stands for the `null` (falsy) square. */
  datatype Cell = Empty | Filled(mark: Mark)

  /** A position on the grid, numbered row by row from the top left. */
  type Index = i: int | 0 <= i < 9

  /** A board snapshot: always exactly nine squares. */
  type Squares = s: seq<Cell> | |s| == 9
    witness [Empty, Empty, Empty, Empty, Empty, Empty, Empty, Empty, Empty]

  const EmptyBoard: Squares := [Empty, Empty, Empty, Empty, Empty, Empty, Empty, Empty, Empty]

  /** Three positions that win when they hold the same mark. */
  datatype Line = Line(a: Index, b: Index, c: Index)

  /** The eight winning lines, in the order they are examined:
      the three rows, the three columns, then the two diagonals. */
  const Lines: seq<Line> := [
    Line(0, 1, 2), Line(3, 4, 5), Line(6, 7, 8),
    Line(0, 3, 6), Line(1, 4, 7), Line(2, 5, 8),
    Line(0, 4, 8), Line(2, 4, 6)
  ]

  /** The three squares of `line` are non-empty and equal. */
  predicate Completes(squares: Squares, line: Line) {
    squares[line.a] != Empty && squares[line.a] == squares[line.b] && squares[line.a] == squares[line.c]
  }

  /** The mark on the first complete line among `Lines[k..]`, if any. */
  function WinnerFrom(squares: Squares, k: nat): (r: Option<Mark>)
    decreases |Lines| - k
  {
    if k >= |Lines| then None
    else if Completes(squares, Lines[k]) then Some(squares[Lines[k].a].mark)
    else WinnerFrom(squares, k + 1)
  }

  /** The winner of a board: the mark on its first complete line. */
  function Winner(squares: Squares): (r: Option<Mark>) {
    WinnerFrom(squares, 0)
  }

  /** Line `k` is complete and no line before it is. */
  predicate FirstCompleteLine(squares: Squares, k: nat) {
    k < |Lines| && Completes(squares, Lines[k]) &&
    forall j :: 0 <= j < k ==> !Completes(squares, Lines[j])
  }

  /** Scan the lines in order and return the mark of the first complete one. */
  method CalculateWinner(squares: Squares) returns (winner: Option<Mark>)
    ensures winner == Winner(squares)
  {
    for i := 0 to |Lines|
      invariant WinnerFrom(squares, i) == Winner(squares)
    {
      var line := Lines[i];
      if squares[line.a] != Empty && squares[line.a] == squares[line.b] && squares[line.a] == squares[line.c] {
        return Some(squares[line.a].mark);
      }
    }
    return None;
  }

  lemma {:induction false} WinnerFromNone(squares: Squares, k: nat)
    requires k <= |Lines|
    ensures WinnerFrom(squares, k) == None <==>
            forall j :: k <= j < |Lines| ==> !Completes(squares, Lines[j])
    decreases |Lines| - k
  {
    if k < |Lines| {
      WinnerFromNone(squares, k + 1);
    }
  }

  lemma {:induction false} WinnerFromSome(squares: Squares, k: nat, m: Mark)
    requires k <= |Lines|
    requires forall j :: 0 <= j < k ==> !Completes(squares, Lines[j])
    ensures WinnerFrom(squares, k) == Some(m) <==>
            exists j: nat :: k <= j && FirstCompleteLine(squares, j) && squares[Lines[j].a] == Filled(m)
    decreases |Lines| - k
  {
    if k < |Lines| {
      if Completes(squares, Lines[k]) {
        assert FirstCompleteLine(squares, k);
        if exists j: nat :: k <= j && FirstCompleteLine(squares, j) && squares[Lines[j].a] == Filled(m) {
          var j: nat :| k <= j && FirstCompleteLine(squares, j) && squares[Lines[j].a] == Filled(m);
          assert j == k;
        }
      } else {
        WinnerFromSome(squares, k + 1, m);
        if exists j: nat :: k <= j && FirstCompleteLine(squares, j) && squares[Lines[j].a] == Filled(m) {
          var j: nat :| k <= j && FirstCompleteLine(squares, j) && squares[Lines[j].a] == Filled(m);
          assert j != k;
        }
      }
    }
  }

  /** There is no winner exactly when none of the eight lines is complete. */
  lemma WinnerNoneIff(squares: Squares)
    ensures Winner(squares) == None <==>
            forall j :: 0 <= j < |Lines| ==> !Completes(squares, Lines[j])
  {
    WinnerFromNone(squares, 0);
  }

  /** The winner is `m` exactly when the first complete line holds `m`. */
  lemma WinnerSomeIff(squares: Squares, m: Mark)
    ensures Winner(squares) == Some(m) <==>
            exists j: nat :: FirstCompleteLine(squares, j) && squares[Lines[j].a] == Filled(m)
  {
    WinnerFromSome(squares, 0, m);
  }

  /** The starting board has no winner. */
  lemma EmptyBoardHasNoWinner()
    ensures Winner(EmptyBoard) == None
  {
    WinnerNoneIff(EmptyBoard);
  }

  /** When every complete line carries the same mark `m`, the winner is `m`,
      whichever complete line the scan reaches first. */
  lemma WinnerOfSingleMark(squares: Squares, k: nat, m: Mark)
    requires k < |Lines| && Completes(squares, Lines[k]) && squares[Lines[k].a] == Filled(m)
    requires forall j :: 0 <= j < |Lines| && Completes(squares, Lines[j]) ==> squares[Lines[j].a] == Filled(m)
    ensures Winner(squares) == Some(m)
  {
    WinnerNoneIff(squares);
    var w := Winner(squares).value;
    WinnerSomeIff(squares, w);
    var j: nat :| FirstCompleteLine(squares, j) && squares[Lines[j].a] == Filled(w);
    assert w == m;
  }

  /** The board holding `m` on line `k` and nothing else. */
  function LineBoard(k: nat, m: Mark): (r: Squares)
    requires k < |Lines|
  {
    var line := Lines[k];
    seq(9, i => if i == line.a || i == line.b || i == line.c then Filled(m) else Empty)
  }

  /** Each of the eight lines, filled with one mark on an otherwise empty
      board, makes that mark the winner. */
  lemma EachLineWins(k: nat, m: Mark)
    requires k < |Lines|
    ensures Winner(LineBoard(k, m)) == Some(m)
  {
    var squares := LineBoard(k, m);
    forall j | 0 <= j < |Lines| && Completes(squares, Lines[j])
      ensures squares[Lines[j].a] == Filled(m)
    {
    }
    WinnerOfSingleMark(squares, k, m);
  }

  /** A click on square `i`: refused (`None`) once the board has a winner or
      when the square is already filled; otherwise a copy of the board with
      square `i` set to the mark of the player to move. */
  method HandleClick(squares: Squares, xIsNext: bool, i: Index) returns (next: Option<Squares>)
    ensures next == None <==> Winner(squares) != None || squares[i] != Empty
    ensures next != None ==> next.value[i] == Filled(if xIsNext then X else O)
    ensures next != None ==> forall j: Index :: j != i ==> next.value[j] == squares[j]
  {
    var winner := CalculateWinner(squares);
    if winner != None || squares[i] != Empty {
      return None;
    }
    var nextSquares := new Cell[9](j requires 0 <= j < 9 => squares[j]);
    if xIsNext {
      nextSquares[i] := Filled(X);
    } else {
      nextSquares[i] := Filled(O);
    }
    return Some(nextSquares[..]);
  }
}
