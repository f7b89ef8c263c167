/** `InteractiveSudokuSolver`: runs the same search on a copy of its grid,
    keeps a snapshot record of the grid after every placement and backtrack
    in `solutionStates`, and lets the user step through those records. */
module InteractiveSudoku {
  import opened Grid
  import opened Backtracking

  /** An entry of `solutionStates`: a copy of the grid right after the event,
      its cell, its digit (kept for a backtrack too) and its action. */
  datatype State = State(grid: Snapshot, row: Index, col: Index, num: int, action: Action)

  /** A copy of a well-formed grid. */
  type Snapshot = g: Board | WellFormed(g) witness seq(9, _ => seq(9, _ => 0))

  /** The records the solver appends for the events es, run from grid g. */
  function Records(g: Board, es: seq<Event>): (rs: seq<State>)
    requires WellFormed(g)
    ensures |rs| == |es|
    decreases |es|
  {
    if es == [] then []
    else
      var h := Apply(g, es[0]);
      [State(h, es[0].row, es[0].col, es[0].num, es[0].action)] + Records(h, es[1..])
  }

  /** The records carry the events, in order. */
  lemma {:induction false} RecordsEvents(g: Board, es: seq<Event>)
    requires WellFormed(g)
    ensures var rs := Records(g, es);
      forall k | 0 <= k < |es| :: Event(rs[k].row, rs[k].col, rs[k].num, rs[k].action) == es[k]
    decreases |es|
  {
    if es != [] {
      var h := Apply(g, es[0]);
      RecordsEvents(h, es[1..]);
      var rs, tail := Records(g, es), Records(h, es[1..]);
      assert forall k | 1 <= k < |es| :: rs[k] == tail[k - 1];
    }
  }

  lemma {:induction false} RecordsConcat(g: Board, a: seq<Event>, b: seq<Event>)
    requires WellFormed(g)
    ensures Records(g, a + b) == Records(g, a) + Records(Replay(g, a), b)
    decreases |a|
  {
    if a == [] {
      assert a + b == b;
    } else {
      assert (a + b)[0] == a[0] && (a + b)[1..] == a[1..] + b;
      RecordsConcat(Apply(g, a[0]), a[1..], b);
    }
  }

  /** Appending one event to a trace appends one record to a log: the
      snapshot after applying it to the grid the earlier events left. */
  lemma RecordsSnoc(log: seq<State>, g: Board, es: seq<Event>, e: Event)
    requires WellFormed(g)
    ensures log + Records(g, es) + [State(Apply(Replay(g, es), e), e.row, e.col, e.num, e.action)]
         == log + Records(g, es + [e])
    ensures Replay(g, es + [e]) == Apply(Replay(g, es), e)
  {
    RecordsConcat(g, es, [e]);
    ReplayConcat(g, es, [e]);
  }

  /** Appending events to a trace appends their records to a log. */
  lemma RecordsAppend(log: seq<State>, g: Board, es: seq<Event>, more: seq<Event>)
    requires WellFormed(g)
    ensures log + Records(g, es) + Records(Replay(g, es), more) == log + Records(g, es + more)
    ensures Replay(g, es + more) == Replay(Replay(g, es), more)
  {
    RecordsConcat(g, es, more);
    ReplayConcat(g, es, more);
  }

  /** The records one turn of the digit loop appends to a log, seen from the
      grid g that the earlier events of the loop, done, leave unchanged: a
      place record with d in (r, c), the records of the search below it and,
      if that search fails, a backtrack record showing g again. */
  lemma RecordsTurn(log: seq<State>, g: Board, done: seq<Event>, r: Index, c: Index, d: int)
    requires WellFormed(g) && g[r][c] == 0 && Replay(g, done) == g
    ensures var h := Set(g, r, c, d); var sub := Search(h);
      var p := Event(r, c, d, Place);
      log + Records(g, done) + [State(h, r, c, d, Place)] + Records(h, sub.trace)
        == log + Records(g, done + [p] + sub.trace) &&
      (!sub.solved ==>
        var b := Event(r, c, d, Backtrack);
        log + Records(g, done + [p] + sub.trace) + [State(g, r, c, d, Backtrack)]
          == log + Records(g, done + [p] + sub.trace + [b]) &&
        Replay(g, done + [p] + sub.trace + [b]) == g)
  {
    var h := Set(g, r, c, d);
    var sub := Search(h);
    var p, b := Event(r, c, d, Place), Event(r, c, d, Backtrack);
    assert Apply(g, p) == h;
    RecordsSnoc(log, g, done, p);
    RecordsAppend(log, g, done + [p], sub.trace);
    if !sub.solved {
      SearchReplays(h);
      SetUndo(g, r, c, d);
      assert Apply(h, b) == g;
      RecordsSnoc(log, g, done + [p] + sub.trace, b);
    }
  }

  /** Each snapshot is the one before it (the input grid for the first) with
      the record's event applied. */
  lemma {:induction false} RecordsChain(g: Board, es: seq<Event>)
    requires WellFormed(g)
    ensures var rs := Records(g, es);
      (es != [] ==> rs[0].grid == Apply(g, es[0])) &&
      forall k | 0 <= k < |es| - 1 :: rs[k + 1].grid == Apply(rs[k].grid, es[k + 1])
    decreases |es|
  {
    if es != [] {
      var h := Apply(g, es[0]);
      RecordsChain(h, es[1..]);
      var rs, tail := Records(g, es), Records(h, es[1..]);
      assert forall k | 0 <= k < |es| - 1 :: rs[k + 1] == tail[k];
    }
  }

  /** The last snapshot is the grid the whole trace replays to. */
  lemma {:induction false} RecordsLast(g: Board, es: seq<Event>)
    requires WellFormed(g) && es != []
    ensures Records(g, es)[|es| - 1].grid == Replay(g, es)
    decreases |es|
  {
    var h := Apply(g, es[0]);
    if |es| > 1 {
      RecordsLast(h, es[1..]);
      assert Records(g, es)[|es| - 1] == Records(h, es[1..])[|es| - 2];
    }
  }

  /** The records as a replay log: a place record shows its digit in its cell,
      a backtrack record shows 0 there, and each snapshot differs from the one
      before it (from g, for the first) in the record's own cell at most. */
  lemma SnapshotsStep(g: Board, es: seq<Event>)
    requires WellFormed(g)
    ensures var rs := Records(g, es);
      (forall k | 0 <= k < |rs| ::
        rs[k].grid[rs[k].row][rs[k].col] == if rs[k].action == Place then rs[k].num else 0) &&
      (rs != [] ==> forall i, j | InBounds(i, j) && (i != rs[0].row || j != rs[0].col) ::
        rs[0].grid[i][j] == g[i][j]) &&
      (forall k, i, j | 1 <= k < |rs| && InBounds(i, j) && (i != rs[k].row || j != rs[k].col) ::
        rs[k].grid[i][j] == rs[k - 1].grid[i][j])
  {
    RecordsChain(g, es);
    RecordsEvents(g, es);
    var rs := Records(g, es);
    forall k | 0 <= k < |rs|
      ensures rs[k].grid[rs[k].row][rs[k].col] == if rs[k].action == Place then rs[k].num else 0
    {
      assert Event(rs[k].row, rs[k].col, rs[k].num, rs[k].action) == es[k];
      if k > 0 {
        assert rs[k].grid == Apply(rs[k - 1].grid, es[k]);
      }
    }
  }

  /** What the records of one `solve_algorithm` call on grid g say: their
      events are the search's trace, the last snapshot is the grid the search
      leaves (a solution of g when the clues of g are conflict-free and the
      search succeeded), a successful search that recorded anything ends with
      a place record, a full grid records nothing, and on failure every place
      record is closed by a matching backtrack record. */
  lemma SolveRecords(g: Board)
    requires WellFormed(g)
    ensures var o := Search(g); var rs := Records(g, o.trace);
      (forall k | 0 <= k < |rs| :: Event(rs[k].row, rs[k].col, rs[k].num, rs[k].action) == o.trace[k]) &&
      (rs != [] ==> rs[|rs| - 1].grid == o.grid) &&
      (o.solved && rs != [] && Digits(g) && Consistent(g) ==>
        IsSolution(rs[|rs| - 1].grid) && Extends(g, rs[|rs| - 1].grid)) &&
      (o.solved && rs != [] ==> rs[|rs| - 1].action == Place) &&
      (Full(g) ==> o.solved && rs == []) &&
      (!o.solved ==> Unmatched([], o.trace) == Some([]))
  {
    var o := Search(g);
    if o.trace != [] {
      RecordsLast(g, o.trace);
      SearchReplays(g);
    }
    if Digits(g) && Consistent(g) {
      SearchSound(g);
    }
    RecordsEvents(g, o.trace);
    SearchEnds(g);
    SearchPairs(g, []);
  }

  /** The grid the program starts with and resets to: every cell empty. */
  const EmptyBoard: Board := seq(9, _ => seq(9, _ => 0))

  /** The puzzle `load_example` loads. */
  const Example: Board := [
    [5, 3, 0, 0, 7, 0, 0, 0, 0],
    [6, 0, 0, 1, 9, 5, 0, 0, 0],
    [0, 9, 8, 0, 0, 0, 0, 6, 0],
    [8, 0, 0, 0, 6, 0, 0, 0, 3],
    [4, 0, 0, 8, 0, 3, 0, 0, 1],
    [7, 0, 0, 0, 2, 0, 0, 0, 6],
    [0, 6, 0, 0, 0, 0, 2, 8, 0],
    [0, 0, 0, 4, 1, 9, 0, 0, 5],
    [0, 0, 0, 0, 8, 0, 0, 7, 9]
  ]

  class InteractiveSudokuSolver {
    var grid: array2<int>
    var originalGrid: array2<int>
    var solutionStates: seq<State>
    var currentStateIndex: int
    var selectedCell: Option<(Index, Index)>
    var solving: bool
    var solved: bool

    /** Two distinct 9x9 arrays, well-formed snapshots, and a current index
        that is -1 or names the record whose snapshot the grid shows. */
    ghost predicate Valid()
      reads this, grid
    {
      Is9x9(grid) && Is9x9(originalGrid) && grid != originalGrid &&
      -1 <= currentStateIndex < |solutionStates| &&
      (0 <= currentStateIndex ==> Contents(grid) == solutionStates[currentStateIndex].grid)
    }

    /** `__init__` without the figure and widgets: an empty grid, no records,
        nothing selected, not solving and not solved. */
    constructor()
      ensures Valid() && fresh(grid) && fresh(originalGrid)
      ensures Contents(grid) == EmptyBoard && Contents(originalGrid) == EmptyBoard
      ensures solutionStates == [] && currentStateIndex == -1 && selectedCell == None
      ensures !solving && !solved
    {
      var a := NewArray(EmptyBoard);
      var b := NewArray(EmptyBoard);
      grid, originalGrid := a, b;
      solutionStates, currentStateIndex, selectedCell := [], -1, None;
      solving, solved := false, false;
    }

    /** `solve_algorithm`: the backtracking search on the array `a`, in place.
        The result and the grid it leaves are those of Search on the grid it
        started from, and it appends one snapshot record per event of that
        search. */
    method SolveAlgorithm(a: array2<int>) returns (ok: bool)
      requires Is9x9(a)
      modifies a, this`solutionStates
      ensures var o := Search(old(Contents(a)));
        ok == o.solved && Contents(a) == o.grid &&
        solutionStates == old(solutionStates) + Records(old(Contents(a)), o.trace)
      decreases ZeroCount(Contents(a))
    {
      ghost var g := Contents(a);
      var cell := FindEmpty(a);
      if cell == None {
        return true;
      }
      var (row, col) := cell.value;
      ghost var done: seq<Event> := [];
      for num := 1 to 10
        invariant Contents(a) == g && Replay(g, done) == g
        invariant solutionStates == old(solutionStates) + Records(g, done)
        invariant Search(g) == Prefixed(done, TryDigits(g, row, col, num))
      {
        DigitStep(g, row, col, num, done);
        if IsValid(a, row, col, num) {
          ghost var sub := Search(Set(g, row, col, num));
          ghost var p, b := Event(row, col, num, Place), Event(row, col, num, Backtrack);
          RecordsTurn(old(solutionStates), g, done, row, col, num);
          Write(a, row, col, num);
          var placed := Contents(a);
          solutionStates := solutionStates + [State(placed, row, col, num, Place)];
          ok := SolveAlgorithm(a);
          if ok {
            return;
          }
          Write(a, row, col, 0);
          var cleared := Contents(a);
          solutionStates := solutionStates + [State(cleared, row, col, num, Backtrack)];
          BacktrackRestores(g, row, col, num);
          done := done + [p] + sub.trace + [b];
        }
      }
      DigitsExhausted(g, row, col, done);
      return false;
    }

    /** The part of `show_state` that is not drawing: an index naming a record
        loads a copy of its snapshot into the grid, selects its cell and makes
        it current; any other index changes nothing. */
    method ShowState(index: int)
      requires Valid()
      modifies this
      ensures Valid()
      ensures if 0 <= index < |old(solutionStates)|
        then solutionStates == old(solutionStates) &&
             fresh(grid) && Contents(grid) == solutionStates[index].grid &&
             selectedCell == Some((solutionStates[index].row, solutionStates[index].col)) &&
             currentStateIndex == index &&
             originalGrid == old(originalGrid) && solving == old(solving) && solved == old(solved)
        else unchanged(this)
    {
      if 0 <= index < |solutionStates| {
        var state := solutionStates[index];
        grid := NewArray(state.grid);
        selectedCell := Some((state.row, state.col));
        currentStateIndex := index;
      }
    }

    /** `previous_state`: after a successful solve, steps back one record
        unless the first is shown. */
    method PreviousState()
      requires Valid()
      modifies this
      ensures Valid()
      ensures if old(solved) && old(currentStateIndex) > 0
        then currentStateIndex == old(currentStateIndex) - 1 &&
             solutionStates == old(solutionStates) && solved &&
             Contents(grid) == solutionStates[currentStateIndex].grid &&
             selectedCell == Some((solutionStates[currentStateIndex].row, solutionStates[currentStateIndex].col)) &&
             originalGrid == old(originalGrid) && solving == old(solving)
        else unchanged(this)
    {
      if solved && currentStateIndex > 0 {
        ShowState(currentStateIndex - 1);
      }
    }

    /** `next_state`: after a successful solve, steps forward one record
        unless the last is shown. */
    method NextState()
      requires Valid()
      modifies this
      ensures Valid()
      ensures if old(solved) && old(currentStateIndex) < |old(solutionStates)| - 1
        then currentStateIndex == old(currentStateIndex) + 1 &&
             solutionStates == old(solutionStates) && solved &&
             Contents(grid) == solutionStates[currentStateIndex].grid &&
             selectedCell == Some((solutionStates[currentStateIndex].row, solutionStates[currentStateIndex].col)) &&
             originalGrid == old(originalGrid) && solving == old(solving)
        else unchanged(this)
    {
      if solved && currentStateIndex < |solutionStates| - 1 {
        ShowState(currentStateIndex + 1);
      }
    }

    /** The search of `start_solving`, run on a fresh copy of the grid g: it
        appends the records of the search of g, and on success the last of
        them, if any, shows the solution. */
    method SolveCopy(g: Board) returns (success: bool)
      requires WellFormed(g)
      modifies this`solutionStates
      ensures var o := Search(g);
        success == o.solved && solutionStates == old(solutionStates) + Records(g, o.trace) &&
        (success && o.trace != [] ==> solutionStates[|solutionStates| - 1].grid == o.grid)
    {
      var work := NewArray(g);
      success := SolveAlgorithm(work);
      ghost var o := Search(g);
      if success && o.trace != [] {
        RecordsLast(g, o.trace);
        SearchReplays(g);
      }
    }

    /** The step of `start_solving` after a successful search: the last
        record, when there is one, is shown. */
    method ShowLast()
      requires Valid()
      modifies this
      ensures Valid()
      ensures solutionStates == old(solutionStates) && originalGrid == old(originalGrid)
      ensures solving == old(solving) && solved == old(solved)
      ensures if old(solutionStates) != []
        then currentStateIndex == |solutionStates| - 1 &&
             Contents(grid) == solutionStates[|solutionStates| - 1].grid &&
             selectedCell == Some((solutionStates[|solutionStates| - 1].row, solutionStates[|solutionStates| - 1].col))
        else unchanged(this)
    {
      if |solutionStates| > 0 {
        ShowState(|solutionStates| - 1);
      }
    }

    /** `start_solving` without the timing, printing and drawing. Unless a
        solve is running or done, the grid is saved as the original, the
        records are cleared, and the search runs on a copy of the grid; on
        success the last record, if any, is shown, so the grid then holds the
        solution. On failure the grid is left as it was. */
    method StartSolving()
      requires Valid()
      modifies this
      ensures Valid()
      ensures old(solving) || old(solved) ==> unchanged(this)
      ensures !old(solving) && !old(solved) ==>
        var g := old(Contents(grid)); var o := Search(g);
        !solving && Contents(originalGrid) == g && solutionStates == Records(g, o.trace) && solved == o.solved &&
        if o.solved && o.trace != []
        then currentStateIndex == |o.trace| - 1 && Contents(grid) == o.grid
        else currentStateIndex == -1 && grid == old(grid) && Contents(grid) == g
      ensures !old(solving) && !old(solved) ==>
        if currentStateIndex >= 0
        then selectedCell == Some((solutionStates[currentStateIndex].row, solutionStates[currentStateIndex].col))
        else selectedCell == old(selectedCell)
    {
      if !solving && !solved {
        var g := Contents(grid);
        originalGrid := NewArray(g);
        solutionStates := [];
        currentStateIndex := -1;
        solving := true;
        var success := SolveCopy(g);
        assert Contents(grid) == g && Contents(originalGrid) == g;
        if success {
          solved := true;
          ShowLast();
        }
        solving := false;
      }
    }

    /** `reset_puzzle` without the drawing: empty grid and original, no
        records, nothing selected, not solving and not solved. */
    method ResetPuzzle()
      modifies this
      ensures Valid() && fresh(grid) && fresh(originalGrid)
      ensures Contents(grid) == EmptyBoard && Contents(originalGrid) == EmptyBoard
      ensures solutionStates == [] && currentStateIndex == -1 && selectedCell == None
      ensures !solving && !solved
    {
      var a := NewArray(EmptyBoard);
      var b := NewArray(EmptyBoard);
      grid, originalGrid := a, b;
      solutionStates, currentStateIndex, selectedCell := [], -1, None;
      solving, solved := false, false;
    }

    /** `load_example` without the drawing: a reset, then the example puzzle in
        the grid; the original stays empty until solving starts. */
    method LoadExample()
      modifies this
      ensures Valid() && fresh(grid) && fresh(originalGrid)
      ensures Contents(grid) == Example && Contents(originalGrid) == EmptyBoard
      ensures solutionStates == [] && currentStateIndex == -1 && selectedCell == None
      ensures !solving && !solved
    {
      ResetPuzzle();
      grid := NewArray(Example);
    }
  }
}
