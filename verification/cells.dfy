/**
 * The board of the tic-tac-toe slice: nine squares in row-major order,
 * each either empty or holding a player's mark.
 */
module Cells {

  /** A square. `Empty` is the `null` the slice fills its squares with. */
  datatype Cell = Empty | X | O

  /** A player's mark: a cell that is not empty. */
  type Mark = c: Cell | c != Empty witness X

  /** A square index, 0..8 in row-major order. */
  type Index = i: nat | i < 9

  /** The nine squares. */
  type Board = s: seq<Cell> | |s| == 9
    witness [Empty, Empty, Empty, Empty, Empty, Empty, Empty, Empty, Empty]

  /** `Array(9).fill(null)`. */
  const EmptyBoard: Board := [Empty, Empty, Empty, Empty, Empty, Empty, Empty, Empty, Empty]

  /** How many cells of `s` equal `c`. */
  function Count(s: seq<Cell>, c: Cell): (n: nat)
    ensures n <= |s|
  {
    if s == [] then 0 else (if s[0] == c then 1 else 0) + Count(s[1..], c)
  }

  /** The length of `squares.filter(Boolean)`: the number of non-empty cells. */
  function Occupied(s: seq<Cell>): (n: nat)
    ensures n <= |s|
  {
    if s == [] then 0 else (if s[0] != Empty then 1 else 0) + Occupied(s[1..])
  }

  /** `squares.every(Boolean)`: no cell is empty. */
  predicate Full(s: seq<Cell>)
  {
    forall k :: 0 <= k < |s| ==> s[k] != Empty
  }

  /** The occupied cells are exactly the X cells and the O cells. */
  lemma {:induction false} OccupiedIsMarkCount(s: seq<Cell>)
    ensures Occupied(s) == Count(s, X) + Count(s, O)
    ensures Occupied(s) + Count(s, Empty) == |s|
  {
    if s != [] {
      OccupiedIsMarkCount(s[1..]);
    }
  }

  /** A board is full exactly when every one of its cells is counted as occupied. */
  lemma {:induction false} FullIffAllOccupied(s: seq<Cell>)
    ensures Full(s) <==> Occupied(s) == |s|
  {
    if s != [] {
      FullIffAllOccupied(s[1..]);
      assert Full(s) <==> s[0] != Empty && Full(s[1..]) by {
        if s[0] != Empty && Full(s[1..]) {
          forall k | 0 <= k < |s| ensures s[k] != Empty {
            if k > 0 { assert s[k] == s[1..][k - 1]; }
          }
        }
        if Full(s) {
          forall k | 0 <= k < |s| - 1 ensures s[1..][k] != Empty {
            assert s[1..][k] == s[k + 1];
          }
        }
      }
    }
  }

  /** Writing `c` over cell `i` moves one unit of count from the old cell value to `c`. */
  lemma {:induction false} CountAfterWrite(s: seq<Cell>, i: nat, c: Cell, d: Cell)
    requires i < |s|
    ensures Count(s[i := c], d)
      == Count(s, d) - (if s[i] == d then 1 else 0) + (if c == d then 1 else 0)
  {
    if i > 0 {
      assert s[i := c][1..] == s[1..][i - 1 := c];
      CountAfterWrite(s[1..], i - 1, c, d);
    } else {
      assert s[i := c][1..] == s[1..];
    }
  }

  /** Writing a mark into an empty cell raises the occupied count by exactly one. */
  lemma OccupiedAfterMove(s: seq<Cell>, i: nat, m: Mark)
    requires i < |s| && s[i] == Empty
    ensures Occupied(s[i := m]) == Occupied(s) + 1
  {
    OccupiedIsMarkCount(s);
    OccupiedIsMarkCount(s[i := m]);
    CountAfterWrite(s, i, m, X);
    CountAfterWrite(s, i, m, O);
  }
}
