/**
 * The helpers evaluated on concrete boards from sample games.
 */
module Scenarios {
  import opened Cells
  import opened WinnerDetector
  import opened TurnCalculator
  import opened StatusFormatter

  /** After X opens in the centre, nobody has won and O is to move. */
  lemma CentreOpening()
    ensures var b := [Empty, Empty, Empty, Empty, X, Empty, Empty, Empty, Empty];
      Winner(b) == Empty && NextValue(b) == O
      && Status(Winner(b), b, NextValue(b)) == "Next player: O"
  {
    var b := [Empty, Empty, Empty, Empty, X, Empty, Empty, Empty, Empty];
    assert b[0] == Empty;
  }

  /** After X:0, O:3, X:1, O:4, X:2 the top row wins for X. */
  lemma TopRowWin()
    ensures var b := [X, X, X, O, O, Empty, Empty, Empty, Empty];
      Winner(b) == X && Status(Winner(b), b, NextValue(b)) == "Winner: X"
  {
  }

  /** A full board with no completed line is a cat's game. */
  lemma FullBoardDraw()
    ensures var b := [X, O, X, X, O, O, O, X, X];
      Winner(b) == Empty && Status(Winner(b), b, NextValue(b)) == "Scratch: Cat's game"
  {
    var b := [X, O, X, X, O, O, O, X, X];
    assert Full(b) by {
      forall k | 0 <= k < |b| ensures b[k] != Empty { }
    }
  }

  /** A winner takes priority over a full board. */
  lemma WinOnFullBoard()
    ensures var b := [X, O, X, O, X, O, O, X, X];
      Full(b) && Winner(b) == X && Status(Winner(b), b, NextValue(b)) == "Winner: X"
  {
    var b := [X, O, X, O, X, O, O, X, X];
    assert Full(b) by {
      forall k | 0 <= k < |b| ensures b[k] != Empty { }
    }
  }

  /**
   * On boards that play cannot reach, where both marks complete a column, the
   * column earlier in the table decides.
   */
  lemma FirstLineInTableOrder()
    ensures Winner([O, X, Empty, O, X, Empty, O, X, Empty]) == O
    ensures Winner([Empty, O, X, Empty, O, X, Empty, O, X]) == O
  {
  }
}
