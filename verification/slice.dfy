/**
 * The `ticTacToe` slice: its state, its initial state and its two reducers,
 * `selectSquare` and `restart`, as functions from the old state to the new.
 */
module TicTacToeSlice {
  import opened Cells
  import opened WinnerDetector
  import opened TurnCalculator
  import opened StatusFormatter

  /**
   * The slice state. `winner` is `Empty` for `null`; `nextValue`, `winner`
   * and `status` are cached projections of `squares`.
   */
  datatype State = State(squares: Board, winner: Cell, nextValue: Mark, status: string)

  /** `initialState`, without the `currentStep` field that no reducer keeps. */
  const InitialState: State := State(EmptyBoard, Empty, X, "Next player: X")

  /** The cached fields are what the helpers compute from `squares`. */
  predicate Consistent(s: State)
  {
    s.winner == Winner(s.squares)
    && s.nextValue == NextValue(s.squares)
    && s.status == Status(s.winner, s.squares, s.nextValue)
  }

  /**
   * What every state the reducers reach satisfies: the cached fields are
   * consistent, the marks are balanced, and every completed line holds the
   * recorded winner, so the order of the line scan never matters.
   */
  ghost predicate WellFormed(s: State)
  {
    Consistent(s)
    && Balanced(s.squares)
    && forall k :: 0 <= k < |Lines| && Completes(s.squares, Lines[k]) ==> s.squares[Lines[k].a] == s.winner
  }

  /** `selectSquare` takes the move only while nobody has won and the square is empty. */
  predicate Accepts(s: State, i: Index)
  {
    s.winner == Empty && s.squares[i] == Empty
  }

  /**
   * The `selectSquare` reducer. A refused move returns nothing, which keeps
   * the state. An accepted move writes the pre-move next mark into square
   * `i` of a copy of the board, leaves the other squares alone and
   * recomputes every cached field from the new board.
   */
  function SelectSquare(s: State, i: Index): (r: State)
    ensures !Accepts(s, i) ==> r == s
    ensures Accepts(s, i) ==> r.squares[i] == NextValue(s.squares)
    ensures Accepts(s, i) ==> forall j :: 0 <= j < 9 && j != i ==> r.squares[j] == s.squares[j]
    ensures Accepts(s, i) ==> Occupied(r.squares) == Occupied(s.squares) + 1
    ensures Accepts(s, i) ==> Consistent(r)
  {
    if s.winner == Empty && s.squares[i] == Empty then
      var nextSquares: Board := s.squares[i := NextValue(s.squares)];
      var winner := Winner(nextSquares);
      var nextValue := NextValue(nextSquares);
      var status := Status(winner, nextSquares, nextValue);
      OccupiedAfterMove(s.squares, i, NextValue(s.squares));
      State(nextSquares, winner, nextValue, status)
    else
      s
  }

  /**
   * The `restart` reducer: rebuilds the state from an empty board, whatever
   * the prior state; the result is the initial state.
   */
  function Restart(s: State): (r: State)
    ensures r == InitialState
    ensures Consistent(r)
  {
    var nextSquares := EmptyBoard;
    var winner := Winner(nextSquares);
    var nextValue := NextValue(nextSquares);
    var status := Status(winner, nextSquares, nextValue);
    EmptyBoardHasNoWinner();
    EmptyBoardTurn();
    State(nextSquares, winner, nextValue, status)
  }

  /** The actions the slice handles. */
  datatype Action = SelectSquareAction(i: Index) | RestartAction

  /** The slice reducer: dispatches an action to its case reducer. */
  function Reduce(s: State, a: Action): State
  {
    match a
    case SelectSquareAction(i) => SelectSquare(s, i)
    case RestartAction => Restart(s)
  }

  /** The state after dispatching `actions` in order, starting from `s`. */
  function Run(s: State, actions: seq<Action>): State
    decreases |actions|
  {
    if actions == [] then s else Run(Reduce(s, actions[0]), actions[1..])
  }

  /** The initial state is well formed. */
  lemma InitialStateWellFormed()
    ensures WellFormed(InitialState)
  {
    assert Consistent(Restart(InitialState));
    EmptyBoardTurn();
    WinnerSpec(EmptyBoard);
  }

  /** `selectSquare` keeps the state well formed, on accepted and refused moves alike. */
  lemma SelectSquarePreservesWellFormed(s: State, i: Index)
    requires WellFormed(s)
    ensures WellFormed(SelectSquare(s, i))
  {
    if Accepts(s, i) {
      var m := NextValue(s.squares);
      var next: Board := s.squares[i := m];
      WinnerSpec(s.squares);
      MoveWinsOnlyForMover(s.squares, i, m);
      WinnerSpec(next);
      BalancedAfterMove(s.squares, i);
      var r := SelectSquare(s, i);
      forall k | 0 <= k < |Lines| && Completes(r.squares, Lines[k])
        ensures r.squares[Lines[k].a] == r.winner
      {
        assert !NoLineCompleted(next);
      }
    }
  }

  /** Every sequence of `selectSquare` and `restart` keeps the state well formed. */
  lemma {:induction false} RunPreservesWellFormed(s: State, actions: seq<Action>)
    requires WellFormed(s)
    ensures WellFormed(Run(s, actions))
    decreases |actions|
  {
    if actions != [] {
      match actions[0] {
        case SelectSquareAction(i) => SelectSquarePreservesWellFormed(s, i);
        case RestartAction => InitialStateWellFormed();
      }
      RunPreservesWellFormed(Reduce(s, actions[0]), actions[1..]);
    }
  }

  /**
   * From the initial state, any sequence of actions leaves X and O equally
   * often on the board or X once more, the cached fields consistent, X to
   * move exactly when the counts are equal, and every completed line holding
   * the recorded winner.
   */
  lemma ReachableStates(actions: seq<Action>)
    ensures var s := Run(InitialState, actions);
      Consistent(s) && Balanced(s.squares)
      && (s.nextValue == X <==> Count(s.squares, X) == Count(s.squares, O))
      && forall k :: 0 <= k < |Lines| && Completes(s.squares, Lines[k]) ==> s.squares[Lines[k].a] == s.winner
  {
    InitialStateWellFormed();
    RunPreservesWellFormed(InitialState, actions);
    NextValueFromCounts(Run(InitialState, actions).squares);
  }

  /** Once a winner is recorded, no sequence of `selectSquare` actions changes the state. */
  lemma {:induction false} WinnerPersists(s: State, actions: seq<Action>)
    requires s.winner != Empty
    requires forall k :: 0 <= k < |actions| ==> actions[k].SelectSquareAction?
    ensures Run(s, actions) == s
    decreases |actions|
  {
    if actions != [] {
      WinnerPersists(s, actions[1..]);
    }
  }

  /**
   * On a consistent state the status reads "Winner: " exactly when some
   * line is completed, and reads the scratch text exactly when the board is
   * full and no line is completed.
   */
  lemma StatusMeaning(s: State)
    requires Consistent(s)
    ensures "Winner: " <= s.status <==> !NoLineCompleted(s.squares)
    ensures s.status == ScratchText <==> Full(s.squares) && NoLineCompleted(s.squares)
  {
    WinnerSpec(s.squares);
  }
}
