/**
 * `calculateNextValue`: whose turn it is, from the parity of the number of
 * occupied squares alone.
 */
module TurnCalculator {
  import opened Cells

  /** X moves when an even number of squares is occupied, O when an odd number is. */
  function NextValue(squares: seq<Cell>): Mark
  {
    if Occupied(squares) % 2 == 0 then X else O
  }

  /** X and O occur equally often, or X once more: the balance alternate play keeps. */
  predicate Balanced(squares: seq<Cell>)
  {
    Count(squares, X) == Count(squares, O) || Count(squares, X) == Count(squares, O) + 1
  }

  /** The empty board is balanced and X moves first on it. */
  lemma EmptyBoardTurn()
    ensures Balanced(EmptyBoard) && NextValue(EmptyBoard) == X
  {
  }

  /** Turns alternate: after the mover fills an empty square, the other mark moves. */
  lemma NextValueAlternates(squares: seq<Cell>, i: nat)
    requires i < |squares| && squares[i] == Empty
    ensures NextValue(squares[i := NextValue(squares)]) != NextValue(squares)
  {
    OccupiedAfterMove(squares, i, NextValue(squares));
  }

  /** On a balanced board, X moves exactly when X and O occur equally often. */
  lemma NextValueFromCounts(squares: seq<Cell>)
    requires Balanced(squares)
    ensures NextValue(squares) == X <==> Count(squares, X) == Count(squares, O)
  {
    OccupiedIsMarkCount(squares);
  }

  /** A move by the player whose turn it is keeps the board balanced. */
  lemma BalancedAfterMove(squares: seq<Cell>, i: nat)
    requires Balanced(squares)
    requires i < |squares| && squares[i] == Empty
    ensures Balanced(squares[i := NextValue(squares)])
  {
    var m := NextValue(squares);
    NextValueFromCounts(squares);
    CountAfterWrite(squares, i, m, X);
    CountAfterWrite(squares, i, m, O);
  }
}
