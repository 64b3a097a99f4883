/**
 * `calculateStatus`: the status line, chosen by priority — a winner, then a
 * full board, then the player to move.
 */
module StatusFormatter {
  import opened Cells

  /** The text of a mark, as the template literals interpolate it. */
  function MarkChar(m: Mark): (ch: char)
    ensures ch == 'X' <==> m == X
    ensures ch == 'O' <==> m == O
  {
    if m == X then 'X' else 'O'
  }

  const ScratchText: string := "Scratch: Cat's game"

  /**
   * The status for `winner` (`Empty` for `null`), the board and the mark to
   * move. The string tells which rule fired, and the winner's or the next
   * player's mark can be read back from its last character.
   */
  function Status(winner: Cell, squares: seq<Cell>, nextValue: Mark): (r: string)
    ensures "Winner: " <= r <==> winner != Empty
    ensures r == ScratchText <==> winner == Empty && Full(squares)
    ensures "Next player: " <= r <==> winner == Empty && !Full(squares)
    ensures winner != Empty ==> |r| == 9 && r[8] == MarkChar(winner)
    ensures winner == Empty && !Full(squares) ==> |r| == 14 && r[13] == MarkChar(nextValue)
  {
    if winner != Empty then "Winner: " + [MarkChar(winner)]
    else if Full(squares) then assert ScratchText[0] == 'S'; ScratchText
    else "Next player: " + [MarkChar(nextValue)]
  }

  /** The status line determines whose name it carries: equal statuses name the same mark. */
  lemma StatusNamesOneMark(w1: Cell, s1: seq<Cell>, n1: Mark, w2: Cell, s2: seq<Cell>, n2: Mark)
    requires Status(w1, s1, n1) == Status(w2, s2, n2)
    ensures w1 == w2
    ensures w1 == Empty ==> (Full(s1) <==> Full(s2))
    ensures w1 == Empty && !Full(s1) ==> n1 == n2
  {
    var r := Status(w1, s1, n1);
    if w1 != Empty {
      assert r[8] == MarkChar(w1) == MarkChar(w2);
    } else if !Full(s1) {
      assert r[13] == MarkChar(n1) == MarkChar(n2);
    }
  }
}
