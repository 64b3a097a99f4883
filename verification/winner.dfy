/**
 * `calculateWinner`: the scan of the eight fixed lines (rows, then columns,
 * then diagonals) for one whose three cells hold the same mark.
 */
module WinnerDetector {
  import opened Cells

  /** Three square indices that, uniformly marked, win the game. */
  datatype Line = Line(a: Index, b: Index, c: Index)

  /** The `lines` table, in the order the scan visits it. */
  const Lines: seq<Line> := [
    Line(0, 1, 2), Line(3, 4, 5), Line(6, 7, 8),
    Line(0, 3, 6), Line(1, 4, 7), Line(2, 5, 8),
    Line(0, 4, 8), Line(2, 4, 6)
  ]

  /** The scan's test: the first cell is occupied and the other two equal it. */
  predicate Completes(squares: Board, line: Line)
  {
    squares[line.a] != Empty && squares[line.a] == squares[line.b] && squares[line.a] == squares[line.c]
  }

  /** No line of the table is completed. */
  ghost predicate NoLineCompleted(squares: Board)
  {
    forall k :: 0 <= k < |Lines| ==> !Completes(squares, Lines[k])
  }

  /** Line `j` is the first completed line of the table from line `k` on. */
  ghost predicate IsFirstCompletedFrom(squares: Board, k: nat, j: nat)
  {
    k <= j < |Lines| && Completes(squares, Lines[j])
    && forall i :: k <= i < j ==> !Completes(squares, Lines[i])
  }

  /** Line `k` is completed and no line before it in the table is. */
  ghost predicate IsFirstCompleted(squares: Board, k: nat)
  {
    IsFirstCompletedFrom(squares, 0, k)
  }

  /** The result of the scan started at line `k`. */
  function WinnerFrom(squares: Board, k: nat): (w: Cell)
    requires k <= |Lines|
    decreases |Lines| - k
  {
    if k == |Lines| then Empty
    else if Completes(squares, Lines[k]) then squares[Lines[k].a]
    else WinnerFrom(squares, k + 1)
  }

  /** `calculateWinner(squares)`; `Empty` stands for `null`. */
  function Winner(squares: Board): Cell
  {
    WinnerFrom(squares, 0)
  }

  /**
   * The scan from line `k` gives `Empty` exactly when no line from `k` on is
   * completed, and otherwise the mark of the first completed line from `k` on.
   */
  lemma {:induction false} WinnerFromSpec(squares: Board, k: nat)
    requires k <= |Lines|
    ensures WinnerFrom(squares, k) == Empty
      <==> forall j :: k <= j < |Lines| ==> !Completes(squares, Lines[j])
    ensures forall j: nat :: IsFirstCompletedFrom(squares, k, j) ==> WinnerFrom(squares, k) == squares[Lines[j].a]
    decreases |Lines| - k
  {
    if k < |Lines| {
      WinnerFromSpec(squares, k + 1);
    }
  }

  /**
   * What `calculateWinner` promises: `null` exactly when no line is
   * completed; otherwise the mark held by the first completed line in table
   * order.
   */
  lemma WinnerSpec(squares: Board)
    ensures Winner(squares) == Empty <==> NoLineCompleted(squares)
    ensures forall k: nat :: IsFirstCompleted(squares, k) ==> Winner(squares) == squares[Lines[k].a]
    ensures Winner(squares) != Empty ==>
      exists k: nat :: IsFirstCompleted(squares, k) && Winner(squares) == squares[Lines[k].a]
  {
    WinnerFromSpec(squares, 0);
    if Winner(squares) != Empty {
      var k := FirstCompleted(squares, 0);
      assert IsFirstCompleted(squares, k);
    }
  }

  /** The index of the first completed line from `k` on, when there is one. */
  lemma {:induction false} FirstCompleted(squares: Board, k: nat) returns (j: nat)
    requires k <= |Lines|
    requires forall i :: 0 <= i < k ==> !Completes(squares, Lines[i])
    requires exists i :: k <= i < |Lines| && Completes(squares, Lines[i])
    ensures IsFirstCompleted(squares, j) && k <= j
    decreases |Lines| - k
  {
    if Completes(squares, Lines[k]) {
      j := k;
    } else {
      j := FirstCompleted(squares, k + 1);
    }
  }

  /** The empty board has no winner. */
  lemma EmptyBoardHasNoWinner()
    ensures Winner(EmptyBoard) == Empty
  {
    WinnerSpec(EmptyBoard);
  }

  /**
   * On a board where no line is completed, writing mark `m` into a cell can
   * only complete lines of `m`: afterwards every completed line holds `m`, and
   * the winner is `m` or nobody.
   */
  lemma MoveWinsOnlyForMover(squares: Board, i: Index, m: Mark)
    requires NoLineCompleted(squares)
    ensures forall k :: 0 <= k < |Lines| && Completes(squares[i := m], Lines[k]) ==> squares[i := m][Lines[k].a] == m
    ensures Winner(squares[i := m]) in {Empty, m}
  {
    var next: Board := squares[i := m];
    forall k | 0 <= k < |Lines| && Completes(next, Lines[k])
      ensures next[Lines[k].a] == m
    {
      var line := Lines[k];
      assert line.a == i || line.b == i || line.c == i;
    }
    WinnerSpec(next);
  }

  /**
   * The loop of `calculateWinner`: visits the lines in table order and
   * returns the mark of the first completed one, or `Empty` after the last.
   */
  method CalculateWinner(squares: Board) returns (w: Cell)
    ensures w == Empty <==> NoLineCompleted(squares)
    ensures w != Empty ==> exists k: nat :: IsFirstCompleted(squares, k) && w == squares[Lines[k].a]
    ensures w == Winner(squares)
  {
    WinnerSpec(squares);
    for i := 0 to |Lines|
      invariant forall j :: 0 <= j < i ==> !Completes(squares, Lines[j])
    {
      var line := Lines[i];
      if squares[line.a] != Empty && squares[line.a] == squares[line.b] && squares[line.a] == squares[line.c] {
        assert IsFirstCompleted(squares, i);
        return squares[line.a];
      }
    }
    return Empty;
  }
}
