/** `SudokuSolver`: solves its own grid in place and logs every placement and
    backtrack in `steps`, a backtrack with the digit 0. */
module Sudoku {
  import opened Grid
  import opened Backtracking

  /** An entry of `steps`: the cell, the value written there (0 for a
      backtrack) and whether it was a placement. */
  datatype Step = Step(row: Index, col: Index, num: int, placed: bool)

  function StepOf(e: Event): Step {
    Step(e.row, e.col, Written(e), e.action == Place)
  }

  /** The steps the solver logs for the events of a search. */
  function StepsOf(es: seq<Event>): (ss: seq<Step>)
    ensures |ss| == |es| && forall k | 0 <= k < |es| :: ss[k] == StepOf(es[k])
  {
    seq(|es|, k requires 0 <= k < |es| => StepOf(es[k]))
  }

  lemma StepsOfConcat(a: seq<Event>, b: seq<Event>)
    ensures StepsOf(a + b) == StepsOf(a) + StepsOf(b)
  {
    assert forall k | 0 <= k < |a + b| :: StepsOf(a + b)[k] == (StepsOf(a) + StepsOf(b))[k];
  }

  /** The steps one turn of the digit loop appends to a log: a placement of
      d at (r, c), the steps of the search below it and, if that search fails,
      a backtrack step carrying 0. */
  lemma StepsTurn(log: seq<Step>, g: Board, done: seq<Event>, r: Index, c: Index, d: int)
    requires WellFormed(g)
    ensures var sub := Search(Set(g, r, c, d));
      var p, b := Event(r, c, d, Place), Event(r, c, d, Backtrack);
      log + StepsOf(done) + [Step(r, c, d, true)] + StepsOf(sub.trace) == log + StepsOf(done + [p] + sub.trace) &&
      log + StepsOf(done + [p] + sub.trace) + [Step(r, c, 0, false)] == log + StepsOf(done + [p] + sub.trace + [b])
  {
    var sub := Search(Set(g, r, c, d));
    var p, b := Event(r, c, d, Place), Event(r, c, d, Backtrack);
    assert StepOf(p) == Step(r, c, d, true) && StepOf(b) == Step(r, c, 0, false);
    StepsOfConcat(done, [p]);
    StepsOfConcat(done + [p], sub.trace);
    StepsOfConcat(done + [p] + sub.trace, [b]);
  }

  /** The grid after writing each step's value into its cell, in order. */
  function ReplaySteps(g: Board, ss: seq<Step>): (h: Board)
    requires WellFormed(g)
    ensures WellFormed(h)
    decreases |ss|
  {
    if ss == [] then g else ReplaySteps(Set(g, ss[0].row, ss[0].col, ss[0].num), ss[1..])
  }

  /** The steps are a replay log: writing their values back in order gives the
      same grid as replaying the events they come from. */
  lemma {:induction false} ReplayStepsOf(g: Board, es: seq<Event>)
    requires WellFormed(g)
    ensures ReplaySteps(g, StepsOf(es)) == Replay(g, es)
    decreases |es|
  {
    if es != [] {
      assert StepsOf(es)[1..] == StepsOf(es[1..]);
      ReplayStepsOf(Apply(g, es[0]), es[1..]);
    }
  }

  /** The number of steps that are placements (placed) or backtracks. */
  function CountSteps(ss: seq<Step>, placed: bool): (n: nat)
    ensures n <= |ss|
  {
    if ss == [] then 0 else (if ss[0].placed == placed then 1 else 0) + CountSteps(ss[1..], placed)
  }

  lemma {:induction false} CountStepsOf(es: seq<Event>, a: Action)
    ensures CountSteps(StepsOf(es), a == Place) == Count(es, a)
    decreases |es|
  {
    if es != [] {
      assert StepsOf(es)[1..] == StepsOf(es[1..]);
      CountStepsOf(es[1..], a);
    }
  }

  /** What the steps logged by one `solve` call on grid g say: they replay to
      the grid it leaves, each is at a cell empty in g, a backtrack step
      carries 0, a full grid logs nothing, and a failed call logs as many
      backtracks as placements. */
  lemma SolveSteps(g: Board)
    requires WellFormed(g)
    ensures var o := Search(g); var ss := StepsOf(o.trace);
      ReplaySteps(g, ss) == o.grid &&
      (forall k | 0 <= k < |ss| :: g[ss[k].row][ss[k].col] == 0) &&
      (forall k | 0 <= k < |ss| :: !ss[k].placed ==> ss[k].num == 0) &&
      (Full(g) ==> o.solved && ss == []) &&
      (!o.solved ==> CountSteps(ss, true) == CountSteps(ss, false))
  {
    var o := Search(g);
    ReplayStepsOf(g, o.trace);
    SearchReplays(g);
    SearchOnEmptyCells(g);
    assert forall k | 0 <= k < |o.trace| :: o.trace[k] in o.trace;
    SearchEnds(g);
    SearchCounts(g);
    CountStepsOf(o.trace, Place);
    CountStepsOf(o.trace, Backtrack);
  }

  class SudokuSolver {
    var grid: array2<int>
    var originalGrid: array2<int>
    var steps: seq<Step>

    /** The working grid and the copy of the puzzle are two distinct 9x9
        arrays. */
    ghost predicate Valid()
      reads this
    {
      Is9x9(grid) && Is9x9(originalGrid) && grid != originalGrid
    }

    /** `__init__`: the working grid and the original are two separate copies
        of the puzzle, and no step is logged yet. */
    constructor(puzzle: Board)
      requires WellFormed(puzzle)
      ensures Valid() && fresh(grid) && fresh(originalGrid)
      ensures Contents(grid) == puzzle && Contents(originalGrid) == puzzle && steps == []
    {
      var a := NewArray(puzzle);
      var b := NewArray(puzzle);
      grid, originalGrid, steps := a, b, [];
    }

    /** `solve`: the backtracking search on `grid`, in place. The result, the
        grid it leaves and the steps it appends are those of Search on the
        grid it started from; the original copy is never touched. */
    method Solve() returns (solved: bool)
      requires Valid()
      modifies grid, this`steps
      ensures Valid() && unchanged(originalGrid)
      ensures var o := Search(old(Contents(grid)));
        solved == o.solved && Contents(grid) == o.grid && steps == old(steps) + StepsOf(o.trace)
      decreases ZeroCount(Contents(grid))
    {
      ghost var g := Contents(grid);
      var cell := FindEmpty(grid);
      if cell == None {
        return true;
      }
      var (row, col) := cell.value;
      ghost var done: seq<Event> := [];
      for num := 1 to 10
        invariant Contents(grid) == g
        invariant steps == old(steps) + StepsOf(done)
        invariant Search(g) == Prefixed(done, TryDigits(g, row, col, num))
      {
        DigitStep(g, row, col, num, done);
        if IsValid(grid, row, col, num) {
          ghost var sub := Search(Set(g, row, col, num));
          ghost var p, b := Event(row, col, num, Place), Event(row, col, num, Backtrack);
          StepsTurn(old(steps), g, done, row, col, num);
          Write(grid, row, col, num);
          steps := steps + [Step(row, col, num, true)];
          solved := Solve();
          if solved {
            return;
          }
          Write(grid, row, col, 0);
          steps := steps + [Step(row, col, 0, false)];
          BacktrackRestores(g, row, col, num);
          done := done + [p] + sub.trace + [b];
        }
      }
      DigitsExhausted(g, row, col, done);
      return false;
    }

    /** `solve_and_visualize` without the timing, printing and drawing: the
        log is cleared and the search run, so afterwards `steps` holds exactly
        the steps of this search. */
    method SolveAndVisualize() returns (solved: bool)
      requires Valid()
      modifies grid, this`steps
      ensures Valid() && unchanged(originalGrid)
      ensures var o := Search(old(Contents(grid)));
        solved == o.solved && Contents(grid) == o.grid && steps == StepsOf(o.trace)
    {
      steps := [];
      solved := Solve();
    }
  }
}
