/** The backtracking search shared by both solvers, as a pure function of the
    grid, with the trace of placements and backtracks it records, and what is
    proved about it: the trace replays to the grid, placements and backtracks
    pair up, a failed search leaves the grid as it found it, and a successful
    one fills every empty cell with a solution that keeps the clues. */
module Backtracking {
  import opened Grid

  datatype Action = Place | Backtrack

  /** One recorded step: digit `num` written into, or cleared from, a cell. */
  datatype Event = Event(row: Index, col: Index, num: int, action: Action)

  /** The result of a search: whether it succeeded, the grid it leaves behind
      and the events it recorded, oldest first. */
  datatype Outcome = Outcome(solved: bool, grid: Board, trace: seq<Event>)

  /** The value an event leaves in its cell: the digit for a placement, 0 for
      a backtrack. */
  function Written(e: Event): int {
    if e.action == Place then e.num else 0
  }

  // ---------------------------------------------------------------------------
  // The search

  /** `solve`: find the first empty cell; if there is none the grid is solved,
      otherwise try the digits 1..9 in that cell. A failed search gives the
      grid back as it found it. */
  ghost function Search(g: Board): (o: Outcome)
    requires WellFormed(g)
    ensures WellFormed(o.grid)
    ensures !o.solved ==> o.grid == g
    decreases ZeroCount(g), 1, 0
  {
    match FirstEmpty(g)
    case None => Outcome(true, g, [])
    case Some((r, c)) => TryDigits(g, r, c, 1)
  }

  /** The digit loop of `solve` from digit d on, at the empty cell (r, c):
      digits the rule rejects are skipped, an allowed one is placed and the
      search recurses (see Turn). */
  ghost function TryDigits(g: Board, r: Index, c: Index, d: int): (o: Outcome)
    requires WellFormed(g) && g[r][c] == 0 && 1 <= d <= 10
    ensures WellFormed(o.grid)
    ensures !o.solved ==> o.grid == g
    decreases ZeroCount(g), 0, 10 - d
  {
    if d == 10 then Outcome(false, g, [])
    else if !Allowed(g, r, c, d) then TryDigits(g, r, c, d + 1)
    else
      ZeroCountFill(g, r, c, d);
      Turn(r, c, d, Search(Set(g, r, c, d)), TryDigits(g, r, c, d + 1))
  }

  /** One turn of the digit loop: digit d was placed at (r, c) and the search
      below it gave `sub`. On success the loop stops; on failure the cell is
      cleared again (which gives back the grid the loop started from, see
      BacktrackRestores), the backtrack is recorded and the loop goes on with
      the later digits, whose outcome is `rest`. */
  function Turn(r: Index, c: Index, d: int, sub: Outcome, rest: Outcome): (o: Outcome)
    ensures o.trace != [] && o.trace[0] == Event(r, c, d, Place)
    ensures o.solved == (sub.solved || rest.solved)
  {
    var p := Event(r, c, d, Place);
    if sub.solved then Outcome(true, sub.grid, [p] + sub.trace)
    else Outcome(rest.solved, rest.grid, [p] + sub.trace + [Event(r, c, d, Backtrack)] + rest.trace)
  }

  /** When the search below a placement fails, clearing the cell again gives
      back the grid the digit loop started from. */
  lemma BacktrackRestores(g: Board, r: Index, c: Index, d: int)
    requires WellFormed(g) && g[r][c] == 0 && 1 <= d <= 9
    requires !Search(Set(g, r, c, d)).solved
    ensures Set(Search(Set(g, r, c, d)).grid, r, c, 0) == g
  {
    SetUndo(g, r, c, d);
  }

  /** o with the events `done` recorded before its own. */
  function Prefixed(done: seq<Event>, o: Outcome): Outcome {
    Outcome(o.solved, o.grid, done + o.trace)
  }

  /** One pass of the digit loop at digit d, seen from a search of g that has
      reached it after recording `done`: a digit the rule rejects is skipped;
      an allowed one either ends the search with the outcome below it, or
      adds its placement, the events below it and its backtrack to `done`. */
  lemma DigitStep(g: Board, r: Index, c: Index, d: int, done: seq<Event>)
    requires WellFormed(g) && g[r][c] == 0 && 1 <= d < 10
    requires Search(g) == Prefixed(done, TryDigits(g, r, c, d))
    ensures ZeroCount(Set(g, r, c, d)) < ZeroCount(g)
    ensures !Allowed(g, r, c, d) ==> Search(g) == Prefixed(done, TryDigits(g, r, c, d + 1))
    ensures Allowed(g, r, c, d) && Search(Set(g, r, c, d)).solved ==>
      Search(g) == Prefixed(done + [Event(r, c, d, Place)], Search(Set(g, r, c, d)))
    ensures Allowed(g, r, c, d) && !Search(Set(g, r, c, d)).solved ==>
      Search(g) == Prefixed(done + [Event(r, c, d, Place)] + Search(Set(g, r, c, d)).trace
                            + [Event(r, c, d, Backtrack)], TryDigits(g, r, c, d + 1))
  {
    ZeroCountFill(g, r, c, d);
    if Allowed(g, r, c, d) {
      var sub := Search(Set(g, r, c, d));
      var rest := TryDigits(g, r, c, d + 1);
      var p, b := Event(r, c, d, Place), Event(r, c, d, Backtrack);
      if sub.solved {
        assert done + ([p] + sub.trace) == done + [p] + sub.trace;
      } else {
        assert done + ([p] + sub.trace + [b] + rest.trace) == done + [p] + sub.trace + [b] + rest.trace;
      }
    }
  }

  /** The digit loop past digit 9 has nothing left to try. */
  lemma DigitsExhausted(g: Board, r: Index, c: Index, done: seq<Event>)
    requires WellFormed(g) && g[r][c] == 0
    requires Search(g) == Prefixed(done, TryDigits(g, r, c, 10))
    ensures Search(g) == Outcome(false, g, done)
  {
    assert done + [] == done;
  }

  // ---------------------------------------------------------------------------
  // Replaying a trace

  function Apply(g: Board, e: Event): (h: Board)
    requires WellFormed(g)
    ensures WellFormed(h) && h[e.row][e.col] == Written(e)
  {
    Set(g, e.row, e.col, Written(e))
  }

  /** The grid after applying the events of es to g in order. */
  ghost function Replay(g: Board, es: seq<Event>): (h: Board)
    requires WellFormed(g)
    ensures WellFormed(h)
    decreases |es|
  {
    if es == [] then g else Replay(Apply(g, es[0]), es[1..])
  }

  lemma {:induction false} ReplayConcat(g: Board, a: seq<Event>, b: seq<Event>)
    requires WellFormed(g)
    ensures Replay(g, a + b) == Replay(Replay(g, a), b)
    decreases |a|
  {
    if a == [] {
      assert a + b == b;
    } else {
      assert (a + b)[0] == a[0] && (a + b)[1..] == a[1..] + b;
      ReplayConcat(Apply(g, a[0]), a[1..], b);
    }
  }

  lemma ReplaysTurn(g: Board, r: Index, c: Index, d: int, sub: Outcome, rest: Outcome)
    requires WellFormed(g) && g[r][c] == 0
    requires Replay(Set(g, r, c, d), sub.trace) == sub.grid
    requires !sub.solved ==> sub.grid == Set(g, r, c, d) && Replay(g, rest.trace) == rest.grid
    ensures Replay(g, Turn(r, c, d, sub, rest).trace) == Turn(r, c, d, sub, rest).grid
  {
    var p := Event(r, c, d, Place);
    assert Replay(g, [p]) == Set(g, r, c, d);
    ReplayConcat(g, [p], sub.trace);
    if !sub.solved {
      var b := Event(r, c, d, Backtrack);
      SetUndo(g, r, c, d);
      assert Replay(sub.grid, [b]) == g;
      ReplayConcat(g, [p] + sub.trace, [b]);
      ReplayConcat(g, [p] + sub.trace + [b], rest.trace);
    }
  }

  /** Replaying the trace of a search from its input grid gives the grid the
      search leaves behind. */
  lemma {:induction false} SearchReplays(g: Board)
    requires WellFormed(g)
    ensures Replay(g, Search(g).trace) == Search(g).grid
    decreases ZeroCount(g), 1, 0
  {
    if FirstEmpty(g).Some? {
      var (r, c) := FirstEmpty(g).value;
      TryDigitsReplays(g, r, c, 1);
    }
  }

  lemma {:induction false} TryDigitsReplays(g: Board, r: Index, c: Index, d: int)
    requires WellFormed(g) && g[r][c] == 0 && 1 <= d <= 10
    ensures Replay(g, TryDigits(g, r, c, d).trace) == TryDigits(g, r, c, d).grid
    decreases ZeroCount(g), 0, 10 - d
  {
    if d < 10 && !Allowed(g, r, c, d) {
      TryDigitsReplays(g, r, c, d + 1);
    } else if d < 10 {
      ZeroCountFill(g, r, c, d);
      SearchReplays(Set(g, r, c, d));
      TryDigitsReplays(g, r, c, d + 1);
      ReplaysTurn(g, r, c, d, Search(Set(g, r, c, d)), TryDigits(g, r, c, d + 1));
    }
  }

  // ---------------------------------------------------------------------------
  // The cells a search writes

  /** Every event of es is at a cell that is empty in g. */
  ghost predicate OnEmptyCells(g: Board, es: seq<Event>)
    requires WellFormed(g)
  {
    forall e | e in es :: g[e.row][e.col] == 0
  }

  lemma OnEmptyCellsTurn(g: Board, r: Index, c: Index, d: int, sub: Outcome, rest: Outcome)
    requires WellFormed(g) && g[r][c] == 0
    requires OnEmptyCells(Set(g, r, c, d), sub.trace)
    requires !sub.solved ==> OnEmptyCells(g, rest.trace)
    ensures OnEmptyCells(g, Turn(r, c, d, sub, rest).trace)
  {
    assert OnEmptyCells(g, sub.trace);
  }

  /** A search only writes cells that were empty in its input: the clues are
      never touched. */
  lemma {:induction false} SearchOnEmptyCells(g: Board)
    requires WellFormed(g)
    ensures OnEmptyCells(g, Search(g).trace)
    decreases ZeroCount(g), 1, 0
  {
    if FirstEmpty(g).Some? {
      var (r, c) := FirstEmpty(g).value;
      TryDigitsOnEmptyCells(g, r, c, 1);
    }
  }

  lemma {:induction false} TryDigitsOnEmptyCells(g: Board, r: Index, c: Index, d: int)
    requires WellFormed(g) && g[r][c] == 0 && 1 <= d <= 10
    ensures OnEmptyCells(g, TryDigits(g, r, c, d).trace)
    decreases ZeroCount(g), 0, 10 - d
  {
    if d < 10 && !Allowed(g, r, c, d) {
      TryDigitsOnEmptyCells(g, r, c, d + 1);
    } else if d < 10 {
      ZeroCountFill(g, r, c, d);
      SearchOnEmptyCells(Set(g, r, c, d));
      TryDigitsOnEmptyCells(g, r, c, d + 1);
      OnEmptyCellsTurn(g, r, c, d, Search(Set(g, r, c, d)), TryDigits(g, r, c, d + 1));
    }
  }

  // ---------------------------------------------------------------------------
  // A successful search fills the grid and keeps the clues; a failed one
  // changes nothing (the ensures of Search)

  lemma FillsTurn(g: Board, r: Index, c: Index, d: int, sub: Outcome, rest: Outcome)
    requires WellFormed(g) && g[r][c] == 0
    requires WellFormed(sub.grid) && WellFormed(rest.grid)
    requires sub.solved ==> Full(sub.grid) && Extends(Set(g, r, c, d), sub.grid)
    requires !sub.solved && rest.solved ==> Full(rest.grid) && Extends(g, rest.grid)
    ensures var o := Turn(r, c, d, sub, rest); o.solved ==> Full(o.grid) && Extends(g, o.grid)
  {
  }

  /** On success no cell is left empty and every clue of the input survives. */
  lemma {:induction false} SearchFills(g: Board)
    requires WellFormed(g)
    ensures Search(g).solved ==> Full(Search(g).grid) && Extends(g, Search(g).grid)
    decreases ZeroCount(g), 1, 0
  {
    if FirstEmpty(g).Some? {
      var (r, c) := FirstEmpty(g).value;
      TryDigitsFills(g, r, c, 1);
    }
  }

  lemma {:induction false} TryDigitsFills(g: Board, r: Index, c: Index, d: int)
    requires WellFormed(g) && g[r][c] == 0 && 1 <= d <= 10
    ensures var o := TryDigits(g, r, c, d); o.solved ==> Full(o.grid) && Extends(g, o.grid)
    decreases ZeroCount(g), 0, 10 - d
  {
    if d < 10 && !Allowed(g, r, c, d) {
      TryDigitsFills(g, r, c, d + 1);
    } else if d < 10 {
      ZeroCountFill(g, r, c, d);
      SearchFills(Set(g, r, c, d));
      TryDigitsFills(g, r, c, d + 1);
      FillsTurn(g, r, c, d, Search(Set(g, r, c, d)), TryDigits(g, r, c, d + 1));
    }
  }

  /** Every placement passes the rule, so a search that starts from clues
      obeying the rule ends, on success, in a grid obeying it. */
  lemma {:induction false} SearchKeepsConsistent(g: Board)
    requires WellFormed(g) && Digits(g) && Consistent(g)
    ensures Search(g).solved ==> Digits(Search(g).grid) && Consistent(Search(g).grid)
    decreases ZeroCount(g), 1, 0
  {
    if FirstEmpty(g).Some? {
      var (r, c) := FirstEmpty(g).value;
      TryDigitsKeepsConsistent(g, r, c, 1);
    }
  }

  lemma KeepsConsistentTurn(r: Index, c: Index, d: int, sub: Outcome, rest: Outcome)
    requires sub.solved ==> WellFormed(sub.grid) && Digits(sub.grid) && Consistent(sub.grid)
    requires !sub.solved && rest.solved ==> WellFormed(rest.grid) && Digits(rest.grid) && Consistent(rest.grid)
    ensures var o := Turn(r, c, d, sub, rest);
      o.solved ==> WellFormed(o.grid) && Digits(o.grid) && Consistent(o.grid)
  {
  }

  lemma {:induction false} TryDigitsKeepsConsistent(g: Board, r: Index, c: Index, d: int)
    requires WellFormed(g) && Digits(g) && Consistent(g) && g[r][c] == 0 && 1 <= d <= 10
    ensures var o := TryDigits(g, r, c, d); o.solved ==> Digits(o.grid) && Consistent(o.grid)
    decreases ZeroCount(g), 0, 10 - d
  {
    if d < 10 && !Allowed(g, r, c, d) {
      TryDigitsKeepsConsistent(g, r, c, d + 1);
    } else if d < 10 {
      ZeroCountFill(g, r, c, d);
      PlaceKeepsConsistent(g, r, c, d);
      SearchKeepsConsistent(Set(g, r, c, d));
      TryDigitsKeepsConsistent(g, r, c, d + 1);
      KeepsConsistentTurn(r, c, d, Search(Set(g, r, c, d)), TryDigits(g, r, c, d + 1));
    }
  }

  /** Soundness: from conflict-free clues, a successful search returns a
      solution of the puzzle. */
  lemma SearchSound(g: Board)
    requires WellFormed(g) && Digits(g) && Consistent(g)
    ensures Search(g).solved ==> IsSolution(Search(g).grid) && Extends(g, Search(g).grid)
  {
    SearchFills(g);
    SearchKeepsConsistent(g);
  }

  /** Completeness: if the puzzle has a solution at all, the search succeeds. */
  lemma {:induction false} SearchComplete(g: Board, s: Board)
    requires WellFormed(g) && IsSolution(s) && Extends(g, s)
    ensures Search(g).solved
    decreases ZeroCount(g), 1, 0
  {
    if FirstEmpty(g).Some? {
      var (r, c) := FirstEmpty(g).value;
      SolutionDigitAllowed(g, s, r, c);
      TryDigitsComplete(g, r, c, 1, s);
    }
  }

  lemma {:induction false} TryDigitsComplete(g: Board, r: Index, c: Index, d: int, s: Board)
    requires WellFormed(g) && IsSolution(s) && Extends(g, s)
    requires g[r][c] == 0 && 1 <= d <= s[r][c] && d <= 10
    ensures TryDigits(g, r, c, d).solved
    decreases ZeroCount(g), 0, 10 - d
  {
    SolutionDigitAllowed(g, s, r, c);
    if !Allowed(g, r, c, d) {
      TryDigitsComplete(g, r, c, d + 1, s);
    } else {
      ZeroCountFill(g, r, c, d);
      if d == s[r][c] {
        SolutionExtendsSet(g, s, r, c);
        SearchComplete(Set(g, r, c, d), s);
      } else {
        TryDigitsComplete(g, r, c, d + 1, s);
      }
      assert TryDigits(g, r, c, d) == Turn(r, c, d, Search(Set(g, r, c, d)), TryDigits(g, r, c, d + 1));
    }
  }

  /** For conflict-free clues the search succeeds exactly when the puzzle has a
      solution, and what it returns is one. */
  lemma SearchCorrect(g: Board)
    requires WellFormed(g) && Digits(g) && Consistent(g)
    ensures Search(g).solved <==> exists s :: IsSolution(s) && Extends(g, s)
    ensures Search(g).solved ==> IsSolution(Search(g).grid) && Extends(g, Search(g).grid)
  {
    SearchSound(g);
    if exists s :: IsSolution(s) && Extends(g, s) {
      var s :| IsSolution(s) && Extends(g, s);
      SearchComplete(g, s);
    }
  }

  // ---------------------------------------------------------------------------
  // Each recorded step is one the solver may take at that point

  /** Each Place writes an allowed digit 1..9 into a cell that is empty at that
      point of the replay, and each Backtrack clears a cell that holds exactly
      its digit. */
  ghost predicate Legal(g: Board, es: seq<Event>)
    requires WellFormed(g)
    decreases |es|
  {
    es != [] ==>
      var e := es[0];
      (if e.action == Place
       then g[e.row][e.col] == 0 && 1 <= e.num <= 9 && Allowed(g, e.row, e.col, e.num)
       else g[e.row][e.col] == e.num) &&
      Legal(Apply(g, e), es[1..])
  }

  lemma {:induction false} LegalConcat(g: Board, a: seq<Event>, b: seq<Event>)
    requires WellFormed(g)
    ensures Legal(g, a + b) <==> Legal(g, a) && Legal(Replay(g, a), b)
    decreases |a|
  {
    if a == [] {
      assert a + b == b;
    } else {
      assert (a + b)[0] == a[0] && (a + b)[1..] == a[1..] + b;
      LegalConcat(Apply(g, a[0]), a[1..], b);
    }
  }

  lemma LegalTurn(g: Board, r: Index, c: Index, d: int, sub: Outcome, rest: Outcome)
    requires WellFormed(g) && g[r][c] == 0 && 1 <= d <= 9 && Allowed(g, r, c, d)
    requires Legal(Set(g, r, c, d), sub.trace) && Replay(Set(g, r, c, d), sub.trace) == sub.grid
    requires !sub.solved ==> sub.grid == Set(g, r, c, d) && Legal(g, rest.trace)
    ensures Legal(g, Turn(r, c, d, sub, rest).trace)
  {
    var p := Event(r, c, d, Place);
    var placed := Set(g, r, c, d);
    assert Legal(placed, []) && [p][1..] == [];
    assert Legal(g, [p]) && Replay(g, [p]) == placed;
    LegalConcat(g, [p], sub.trace);
    ReplayConcat(g, [p], sub.trace);
    if !sub.solved {
      var b := Event(r, c, d, Backtrack);
      SetUndo(g, r, c, d);
      assert Legal(g, []) && [b][1..] == [];
      assert Legal(placed, [b]) && Replay(placed, [b]) == g;
      LegalConcat(g, [p] + sub.trace, [b]);
      ReplayConcat(g, [p] + sub.trace, [b]);
      LegalConcat(g, [p] + sub.trace + [b], rest.trace);
    }
  }

  /** Every placement in a search's trace passed the rule in the grid of that
      moment, and every backtrack undoes a placement of the same digit. */
  lemma {:induction false} SearchLegal(g: Board)
    requires WellFormed(g)
    ensures Legal(g, Search(g).trace)
    decreases ZeroCount(g), 1, 0
  {
    if FirstEmpty(g).Some? {
      var (r, c) := FirstEmpty(g).value;
      TryDigitsLegal(g, r, c, 1);
    }
  }

  lemma {:induction false} TryDigitsLegal(g: Board, r: Index, c: Index, d: int)
    requires WellFormed(g) && g[r][c] == 0 && 1 <= d <= 10
    ensures Legal(g, TryDigits(g, r, c, d).trace)
    decreases ZeroCount(g), 0, 10 - d
  {
    if d < 10 && !Allowed(g, r, c, d) {
      TryDigitsLegal(g, r, c, d + 1);
    } else if d < 10 {
      ZeroCountFill(g, r, c, d);
      SearchLegal(Set(g, r, c, d));
      SearchReplays(Set(g, r, c, d));
      TryDigitsLegal(g, r, c, d + 1);
      LegalTurn(g, r, c, d, Search(Set(g, r, c, d)), TryDigits(g, r, c, d + 1));
    }
  }

  // ---------------------------------------------------------------------------
  // Placements and backtracks pair up

  /** Matches each Backtrack with the latest still unmatched Place of the same
      cell and digit, starting from the unmatched Places in `open`: the Places
      left unmatched at the end, or None when some Backtrack has no partner. */
  function Unmatched(open: seq<Event>, es: seq<Event>): Option<seq<Event>>
    decreases |es|
  {
    if es == [] then Some(open)
    else
      var e := es[0];
      if e.action == Place then Unmatched(open + [e], es[1..])
      else if open != [] && open[|open| - 1] == Event(e.row, e.col, e.num, Place)
      then Unmatched(open[..|open| - 1], es[1..])
      else None
  }

  lemma {:induction false} UnmatchedConcat(open: seq<Event>, a: seq<Event>, b: seq<Event>)
    ensures Unmatched(open, a + b) ==
            if Unmatched(open, a).None? then None else Unmatched(Unmatched(open, a).value, b)
    decreases |a|
  {
    if a == [] {
      assert a + b == b;
    } else {
      assert (a + b)[0] == a[0] && (a + b)[1..] == a[1..] + b;
      var e := a[0];
      if e.action == Place {
        UnmatchedConcat(open + [e], a[1..], b);
      } else if open != [] && open[|open| - 1] == Event(e.row, e.col, e.num, Place) {
        UnmatchedConcat(open[..|open| - 1], a[1..], b);
      }
    }
  }

  /** What a search of a grid with n empty cells leaves of the open
      placements: all of them and n more on success, exactly them on failure. */
  ghost predicate Pairs(open: seq<Event>, o: Outcome, n: int) {
    if o.solved
    then Unmatched(open, o.trace).Some? && open <= Unmatched(open, o.trace).value &&
         |Unmatched(open, o.trace).value| == |open| + n
    else Unmatched(open, o.trace) == Some(open)
  }

  lemma PairsTurn(open: seq<Event>, r: Index, c: Index, d: int, sub: Outcome, rest: Outcome, n: int)
    requires Pairs(open + [Event(r, c, d, Place)], sub, n - 1)
    requires !sub.solved ==> Pairs(open, rest, n)
    ensures Pairs(open, Turn(r, c, d, sub, rest), n)
  {
    var p := Event(r, c, d, Place);
    assert Unmatched(open, [p]) == Some(open + [p]);
    UnmatchedConcat(open, [p], sub.trace);
    if !sub.solved {
      var b := Event(r, c, d, Backtrack);
      assert (open + [p])[..|open + [p]| - 1] == open;
      assert Unmatched(open + [p], [b]) == Some(open);
      UnmatchedConcat(open, [p] + sub.trace, [b]);
      UnmatchedConcat(open, [p] + sub.trace + [b], rest.trace);
    }
  }

  /** A failed search closes every placement it makes with a matching
      backtrack; a successful one leaves exactly one placement per empty cell
      of its input unmatched. */
  lemma {:induction false} SearchPairs(g: Board, open: seq<Event>)
    requires WellFormed(g)
    ensures Pairs(open, Search(g), ZeroCount(g))
    decreases ZeroCount(g), 1, 0
  {
    if FirstEmpty(g).Some? {
      var (r, c) := FirstEmpty(g).value;
      TryDigitsPairs(g, r, c, 1, open);
    } else {
      ZeroCountNone(g);
    }
  }

  lemma {:induction false} TryDigitsPairs(g: Board, r: Index, c: Index, d: int, open: seq<Event>)
    requires WellFormed(g) && g[r][c] == 0 && 1 <= d <= 10
    ensures Pairs(open, TryDigits(g, r, c, d), ZeroCount(g))
    decreases ZeroCount(g), 0, 10 - d
  {
    if d < 10 && !Allowed(g, r, c, d) {
      TryDigitsPairs(g, r, c, d + 1, open);
    } else if d < 10 {
      ZeroCountFill(g, r, c, d);
      SearchPairs(Set(g, r, c, d), open + [Event(r, c, d, Place)]);
      TryDigitsPairs(g, r, c, d + 1, open);
      PairsTurn(open, r, c, d, Search(Set(g, r, c, d)), TryDigits(g, r, c, d + 1), ZeroCount(g));
    }
  }

  /** The number of events in es with the given action. */
  function Count(es: seq<Event>, a: Action): (n: nat)
    ensures n <= |es|
  {
    if es == [] then 0 else (if es[0].action == a then 1 else 0) + Count(es[1..], a)
  }

  lemma {:induction false} UnmatchedCount(open: seq<Event>, es: seq<Event>)
    requires Unmatched(open, es).Some?
    ensures |open| + Count(es, Place) == |Unmatched(open, es).value| + Count(es, Backtrack)
    decreases |es|
  {
    if es != [] {
      var e := es[0];
      if e.action == Place {
        UnmatchedCount(open + [e], es[1..]);
      } else {
        UnmatchedCount(open[..|open| - 1], es[1..]);
      }
    }
  }

  /** A failed search records as many backtracks as placements; a successful
      one records one more placement than backtrack per empty cell. */
  lemma SearchCounts(g: Board)
    requires WellFormed(g)
    ensures var o := Search(g);
      Count(o.trace, Place) == Count(o.trace, Backtrack) + (if o.solved then ZeroCount(g) else 0)
  {
    SearchPairs(g, []);
    UnmatchedCount([], Search(g).trace);
  }

  // ---------------------------------------------------------------------------
  // How a trace ends and in which order digits are tried

  /** A trace ends with a placement when the search succeeded and with a
      backtrack when it failed, unless it is empty. */
  ghost predicate EndsByOutcome(o: Outcome) {
    o.trace != [] ==> o.trace[|o.trace| - 1].action == if o.solved then Place else Backtrack
  }

  lemma LastOfConcat(a: seq<Event>, b: seq<Event>)
    requires a != []
    ensures (a + b)[|a + b| - 1] == if b == [] then a[|a| - 1] else b[|b| - 1]
  {
    if b == [] {
      assert a + b == a;
    }
  }

  lemma EndsTurn(r: Index, c: Index, d: int, sub: Outcome, rest: Outcome)
    requires EndsByOutcome(sub)
    requires !sub.solved ==> EndsByOutcome(rest) && (rest.solved ==> rest.trace != [])
    ensures EndsByOutcome(Turn(r, c, d, sub, rest))
  {
    var p := Event(r, c, d, Place);
    if sub.solved {
      LastOfConcat([p], sub.trace);
    } else {
      var b := Event(r, c, d, Backtrack);
      assert ([p] + sub.trace + [b])[|[p] + sub.trace + [b]| - 1] == b;
      LastOfConcat([p] + sub.trace + [b], rest.trace);
    }
  }

  /** A successful search records nothing exactly when the grid was already
      full; otherwise its last event is a placement. A failed search that
      recorded anything ends with a backtrack. */
  lemma {:induction false} SearchEnds(g: Board)
    requires WellFormed(g)
    ensures Search(g).solved ==> (Search(g).trace == [] <==> Full(g))
    ensures EndsByOutcome(Search(g))
    decreases ZeroCount(g), 1, 0
  {
    if FirstEmpty(g).Some? {
      var (r, c) := FirstEmpty(g).value;
      TryDigitsEnds(g, r, c, 1);
    }
  }

  lemma {:induction false} TryDigitsEnds(g: Board, r: Index, c: Index, d: int)
    requires WellFormed(g) && g[r][c] == 0 && 1 <= d <= 10
    ensures TryDigits(g, r, c, d).solved ==> TryDigits(g, r, c, d).trace != []
    ensures EndsByOutcome(TryDigits(g, r, c, d))
    decreases ZeroCount(g), 0, 10 - d
  {
    if d < 10 && !Allowed(g, r, c, d) {
      TryDigitsEnds(g, r, c, d + 1);
    } else if d < 10 {
      ZeroCountFill(g, r, c, d);
      SearchEnds(Set(g, r, c, d));
      TryDigitsEnds(g, r, c, d + 1);
      EndsTurn(r, c, d, Search(Set(g, r, c, d)), TryDigits(g, r, c, d + 1));
    }
  }

  /** The digits placed at (r, c), in the order of es. */
  function PlacedAt(es: seq<Event>, r: int, c: int): seq<int>
    decreases |es|
  {
    if es == [] then []
    else (if es[0].action == Place && es[0].row == r && es[0].col == c then [es[0].num] else [])
         + PlacedAt(es[1..], r, c)
  }

  lemma {:induction false} PlacedAtConcat(a: seq<Event>, b: seq<Event>, r: int, c: int)
    ensures PlacedAt(a + b, r, c) == PlacedAt(a, r, c) + PlacedAt(b, r, c)
    decreases |a|
  {
    if a == [] {
      assert a + b == b;
    } else {
      assert (a + b)[0] == a[0] && (a + b)[1..] == a[1..] + b;
      PlacedAtConcat(a[1..], b, r, c);
    }
  }

  lemma {:induction false} PlacedAtElsewhere(es: seq<Event>, r: int, c: int)
    requires forall e | e in es :: e.row != r || e.col != c
    ensures PlacedAt(es, r, c) == []
    decreases |es|
  {
    if es != [] {
      assert es[0] in es;
      assert forall e | e in es[1..] :: e in es;
      PlacedAtElsewhere(es[1..], r, c);
    }
  }

  /** The digits from d to 9 that the rule allows at (r, c), ascending. */
  ghost function AllowedFrom(g: Board, r: int, c: int, d: int): seq<int>
    requires WellFormed(g)
    decreases 10 - d
  {
    if d >= 10 then []
    else (if Allowed(g, r, c, d) then [d] else []) + AllowedFrom(g, r, c, d + 1)
  }

  /** The digits a digit loop at (r, c) places there, against the digits it
      may try: all of them when it fails, a non-empty initial run of them when
      it succeeds. */
  ghost predicate TriesInOrder(o: Outcome, r: int, c: int, digits: seq<int>) {
    if o.solved
    then PlacedAt(o.trace, r, c) != [] && PlacedAt(o.trace, r, c) <= digits
    else PlacedAt(o.trace, r, c) == digits
  }

  lemma OrderTurn(g: Board, r: Index, c: Index, d: int, sub: Outcome, rest: Outcome, later: seq<int>)
    requires WellFormed(g) && d != 0 && OnEmptyCells(Set(g, r, c, d), sub.trace)
    requires !sub.solved ==> TriesInOrder(rest, r, c, later)
    ensures TriesInOrder(Turn(r, c, d, sub, rest), r, c, [d] + later)
  {
    var p := Event(r, c, d, Place);
    assert forall e | e in sub.trace :: e.row != r || e.col != c;
    PlacedAtElsewhere(sub.trace, r, c);
    PlacedAtConcat([p], sub.trace, r, c);
    if !sub.solved {
      var b := Event(r, c, d, Backtrack);
      PlacedAtConcat([p] + sub.trace, [b], r, c);
      PlacedAtConcat([p] + sub.trace + [b], rest.trace, r, c);
    }
  }

  /** At its cell the digit loop starts the trace and places digits in
      ascending order: all allowed ones when it fails, an initial run of them
      ending at the digit that leads to a solution when it succeeds. */
  lemma {:induction false} TryDigitsOrder(g: Board, r: Index, c: Index, d: int)
    requires WellFormed(g) && g[r][c] == 0 && 1 <= d <= 10
    ensures var o := TryDigits(g, r, c, d);
      (o.trace != [] ==> o.trace[0] == Event(r, c, o.trace[0].num, Place)) &&
      TriesInOrder(o, r, c, AllowedFrom(g, r, c, d))
    decreases 10 - d
  {
    if d < 10 && !Allowed(g, r, c, d) {
      TryDigitsOrder(g, r, c, d + 1);
    } else if d < 10 {
      ZeroCountFill(g, r, c, d);
      SearchOnEmptyCells(Set(g, r, c, d));
      TryDigitsOrder(g, r, c, d + 1);
      OrderTurn(g, r, c, d, Search(Set(g, r, c, d)), TryDigits(g, r, c, d + 1), AllowedFrom(g, r, c, d + 1));
    }
  }

  /** The search starts at the first empty cell in row-major order and tries
      there, in ascending order, the digits the rule allows. */
  lemma SearchOrder(g: Board)
    requires WellFormed(g) && !Full(g)
    ensures var (r, c) := FirstEmpty(g).value; var o := Search(g);
      (o.trace != [] ==> o.trace[0] == Event(r, c, o.trace[0].num, Place)) &&
      TriesInOrder(o, r, c, AllowedFrom(g, r, c, 1))
  {
    var (r, c) := FirstEmpty(g).value;
    TryDigitsOrder(g, r, c, 1);
  }
}
