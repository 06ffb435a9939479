/**
  The 0hh1 solver as the source runs it: a problem object whose `cells`
  map and `state` are overwritten in place by the propagators, the
  evaluator and `refine`, copied by `choose` for each branch, and a
  recursive `Solve`. Every method is proved to compute the pure function
  of the modules `Contiguous`, `Balance`, `Feasibility` and `Search` that
  specifies it.
*/
module Ohhi {
  import opened Common
  import opened Grid
  import opened Contiguous
  import opened Balance
  import opened Feasibility
  import opened Search

  class Problem {
    const size: nat
    var cells: Cells
    var state: State

    /** The cells are exactly those of a `size × size` grid. */
    ghost predicate Valid()
      reads this
    {
      Square(cells, size)
    }

    constructor (size: nat, cells: Cells, state: State)
      requires Square(cells, size)
      ensures Valid() && this.size == size && this.cells == cells && this.state == state
    {
      this.size := size;
      this.cells := cells;
      this.state := state;
    }

    /**
      `eliminate_contiguous_line`: scan `rows × cols` row by row; an unset
      cell whose two masked neighbours are both red becomes blue, both blue
      becomes red. Reports whether any cell was written.
    */
    method EliminateContiguousLine(w: Window) returns (changes: bool)
      requires Valid() && Fits(w, size)
      modifies this`cells
      ensures Valid() && cells == LinePass(old(cells), size, w)
      ensures changes <==> cells != old(cells)
    {
      changes := false;
      var row := w.rows.lo;
      while row < w.rows.hi
        invariant w.rows.lo <= row <= End(w.rows)
        invariant Square(cells, size) && cells == WindowPass(old(cells), size, w, row)
        invariant changes <==> cells != old(cells)
      {
        ghost var start := cells;
        var ch := EliminateRow(w, row);
        WindowStep(old(cells), start, cells, size, w, row, changes, changes || ch);
        changes := changes || ch;
        row := row + 1;
      }
    }

    /** The inner loop of `eliminate_contiguous_line`: one row of the window, column by column. */
    method EliminateRow(w: Window, row: int) returns (changes: bool)
      requires Valid() && Fits(w, size) && InRange(w.rows, row)
      modifies this`cells
      ensures Valid() && cells == RowPass(old(cells), size, w, row, End(w.cols))
      ensures changes <==> cells != old(cells)
    {
      ghost var start := cells;
      changes := false;
      var col := w.cols.lo;
      while col < w.cols.hi
        invariant w.cols.lo <= col <= End(w.cols)
        invariant Square(cells, size) && cells == RowPass(start, size, w, row, col)
        invariant changes <==> cells != start
      {
        ghost var before := cells;
        var written := EliminateAt(w, (row, col));
        ForceStep(start, before, cells, size, w, row, col, changes, changes || written);
        changes := changes || written;
        col := col + 1;
      }
      assert col == End(w.cols);
    }

    /** One visit of the inner loop of `eliminate_contiguous_line`, at `p`. */
    method EliminateAt(w: Window, p: Coord) returns (written: bool)
      requires Valid() && Fits(w, size) && InWindow(w, p)
      modifies this`cells
      ensures Valid() && p in old(cells) && Shift(p, w.d0) in old(cells) && Shift(p, w.d1) in old(cells)
      ensures cells == Force(old(cells), p, w)
      ensures written <==> cells != old(cells)
    {
      NeighboursInGrid(cells, size, w, p);
      written := false;
      if cells[p] == Unset {
        var cell1 := cells[Shift(p, w.d0)];
        var cell2 := cells[Shift(p, w.d1)];
        if cell1 == cell2 && cell2 == Red {
          cells := cells[p := Blue];
          written := true;
        } else if cell1 == cell2 && cell2 == Blue {
          cells := cells[p := Red];
          written := true;
        }
      }
      assert written ==> cells[p] != old(cells)[p];
    }

    /**
      `eliminate_contiguous`: the six scans of `Windows(size)` in order
      (along the columns up, down and across a gap, then along the rows
      likewise); reports whether any of them changed a cell.
    */
    method EliminateContiguous() returns (changes: bool)
      requires Valid()
      modifies this`cells
      ensures Valid() && cells == Contiguous.EliminateContiguous(old(cells), size)
      ensures changes <==> cells != old(cells)
    {
      var ws := Windows(size);
      changes := false;
      var ch := EliminateContiguousLine(ws[0]);
      changes := changes || ch;
      ghost var c1 := cells;
      ch := EliminateContiguousLine(ws[1]);
      changes := changes || ch;
      ghost var c2 := cells;
      ch := EliminateContiguousLine(ws[2]);
      changes := changes || ch;
      ghost var c3 := cells;
      ch := EliminateContiguousLine(ws[3]);
      changes := changes || ch;
      ghost var c4 := cells;
      ch := EliminateContiguousLine(ws[4]);
      changes := changes || ch;
      ghost var c5 := cells;
      ch := EliminateContiguousLine(ws[5]);
      changes := changes || ch;
      SixScans(old(cells), c1, c2, c3, c4, c5, cells, size);
    }

    /**
      One line of `full_colour`: when the reds have reached `size / 2` and
      the blues have not, every unset cell of the line becomes blue; when
      only the blues have, red; otherwise the line is left alone.
    */
    method FullColourLine(a: Axis, i: nat) returns (changes: bool)
      requires Valid() && i < size
      modifies this`cells
      ensures Valid() && cells == BalanceLine(old(cells), size, a, i)
      ensures changes <==> cells != old(cells)
    {
      changes := false;
      var half := size / 2;
      var reds := Count(cells, size, a, i, Red, size);
      var blues := Count(cells, size, a, i, Blue, size);
      if reds == half && blues == half {
        return;
      }
      var newColour;
      if reds == half {
        newColour := Blue;
      } else if blues == half {
        newColour := Red;
      } else {
        return;
      }
      changes := FillUnset(a, i, newColour);
    }

    /** The loop of `full_colour` over one line: every unset cell of line `i` becomes `colour`. */
    method FillUnset(a: Axis, i: nat, colour: Cell) returns (changes: bool)
      requires Valid() && i < size && colour != Unset
      modifies this`cells
      ensures Valid() && cells == FillLine(old(cells), a, i, colour)
      ensures changes <==> cells != old(cells)
    {
      ghost var start := cells;
      changes := false;
      var j := 0;
      while j < size
        invariant 0 <= j <= size && cells.Keys == start.Keys
        invariant forall k :: k in cells ==>
                    cells[k] == if OnLine(k, a, i) && Along(a, k) < j && start[k] == Unset
                                then colour else start[k]
        invariant changes <==> cells != start
      {
        if cells[Pos(a, i, j)] == Unset {
          cells := cells[Pos(a, i, j) := colour];
          changes := true;
        }
        j := j + 1;
      }
      assert cells == FillLine(start, a, i, colour);
    }

    /** `full_colour`: every row, then every column; reports whether any cell was written. */
    method FullColour() returns (changes: bool)
      requires Valid()
      modifies this`cells
      ensures Valid() && cells == Balance.FullColour(old(cells), size)
      ensures changes <==> cells != old(cells)
    {
      changes := FullColourAxis(Row);
      ghost var mid := cells;
      var ch := FullColourAxis(Col);
      changes := changes || ch;
      NarrowedChain(old(cells), mid, cells);
    }

    /** One of the two loops of `full_colour`: the lines of axis `a`, in order. */
    method FullColourAxis(a: Axis) returns (changes: bool)
      requires Valid()
      modifies this`cells
      ensures Valid() && cells == BalanceAxis(old(cells), size, a, size)
      ensures changes <==> cells != old(cells)
    {
      changes := false;
      var i := 0;
      while i < size
        invariant 0 <= i <= size && Valid()
        invariant cells == BalanceAxis(old(cells), size, a, i)
        invariant changes <==> cells != old(cells)
      {
        ghost var before, changed := cells, changes;
        var ch := FullColourLine(a, i);
        changes := changes || ch;
        BalanceStep(old(cells), before, cells, size, a, i, changed, changes);
        i := i + 1;
      }
    }

    /**
      The checks of `check_feasibility` for one line: too many reds, too
      many blues, three equal set cells in a row, or a later line of the
      same axis that shares `size / 2` red or blue places with it.
    */
    method LineViolated(a: Axis, i: nat) returns (bad: bool)
      requires Valid() && i < size
      ensures bad <==> LineViolation(cells, size, a, i)
    {
      var n: int := size;
      if Count(cells, n, a, i, Red, n) > n / 2 {
        return true;
      }
      if Count(cells, n, a, i, Blue, n) > n / 2 {
        return true;
      }
      var s := 0;
      while s < n - 2
        invariant 0 <= s && (s <= n - 2 || s == 0)
        invariant forall t :: 0 <= t < s ==> !RunAt(cells, n, a, i, t)
      {
        if RunAt(cells, n, a, i, s) {
          return true;
        }
        s := s + 1;
      }
      var other := i + 1;
      while other < n
        invariant i + 1 <= other <= n
        invariant forall j :: i < j < other ==> !Duplicate(cells, n, a, i, j)
      {
        if Duplicate(cells, n, a, i, other) {
          return true;
        }
        other := other + 1;
      }
      return false;
    }

    /**
      `check_feasibility`: for each index, the column then the row of that
      index; the first violation makes the problem infeasible; with none,
      a grid with every cell set is solved; otherwise the state stays.
    */
    method CheckFeasibility()
      requires Valid()
      modifies this`state
      ensures state == Evaluate(cells, size, old(state))
    {
      var rowOrCol := 0;
      while rowOrCol < size
        invariant 0 <= rowOrCol <= size && state == old(state)
        invariant forall a: Axis, i :: 0 <= i < rowOrCol ==> !LineViolation(cells, size, a, i)
      {
        var bad := LineViolated(Col, rowOrCol);
        if bad {
          state := Infeasible;
          return;
        }
        bad := LineViolated(Row, rowOrCol);
        if bad {
          state := Infeasible;
          return;
        }
        rowOrCol := rowOrCol + 1;
      }
      if AllCellsSet(cells) {
        state := Solved;
      }
    }

    /** `get_undecided_cell`: the first unset cell in row-major order, if any. */
    method GetUndecidedCell() returns (res: Option<Coord>)
      requires Valid()
      ensures res == FirstUnset(cells, size)
    {
      var r := 0;
      while r < size
        invariant 0 <= r <= size
        invariant FirstUnsetFrom(cells, size, r, 0) == FirstUnset(cells, size)
      {
        var c := 0;
        while c < size
          invariant 0 <= c <= size
          invariant FirstUnsetFrom(cells, size, r, c) == FirstUnset(cells, size)
        {
          if cells[(r, c)] == Unset {
            return Some((r, c));
          }
          c := c + 1;
        }
        r := r + 1;
      }
      return None;
    }

    /** `choose`: a new problem, equal to this one except that cell `(r, c)` is `colour`. */
    method Choose(r: int, c: int, colour: Cell) returns (p: Problem)
      requires Valid() && (r, c) in cells
      ensures fresh(p) && p.Valid()
      ensures p.size == size && p.state == state && p.cells == cells[(r, c) := colour]
    {
      p := new Problem(size, cells[(r, c) := colour], state);
    }

    /**
      `refine`: run both propagators until a cycle changes nothing
      (`Propagate`), then evaluate.
    */
    method Refine()
      requires Valid()
      modifies this`cells, this`state
      ensures Valid() && cells == RefineCells(old(cells), size)
      ensures state == Evaluate(cells, size, old(state))
    {
      Propagate();
      CheckFeasibility();
    }

    /** The loop of `refine`: cycles until one changes nothing. */
    method Propagate()
      requires Valid()
      modifies this`cells
      ensures Valid() && cells == RefineCells(old(cells), size)
    {
      ghost var target := RefineCells(cells, size);
      var changes := true;
      while changes
        invariant RefineLoop(cells, size, target, changes)
        decreases UnsetCount(cells), changes
      {
        ghost var before := cells;
        changes := RefineCycle();
        RefineStep(before, cells, size, changes, target);
      }
    }

    /** The body of `refine`'s loop: `eliminate_contiguous`, then `full_colour`. */
    method RefineCycle() returns (changes: bool)
      requires Valid()
      modifies this`cells
      ensures Valid() && cells == Cycle(old(cells), size)
      ensures changes <==> cells != old(cells)
    {
      changes := false;
      var ch := EliminateContiguous();
      changes := changes || ch;
      ghost var mid := cells;
      ch := FullColour();
      changes := changes || ch;
      NarrowedChain(old(cells), mid, cells);
    }

  }

  /**
    One visit of the inner loop of `eliminate_contiguous_line`: the grid
    after it is the row scan one column further, still narrows the input of
    the whole scan, and the flag still says whether that input was changed.
  */
  lemma ForceStep(start: Cells, before: Cells, after: Cells, n: int, w: Window,
                  r: int, c: int, changed: bool, changes: bool)
    requires Square(start, n) && Fits(w, n) && InRange(w.rows, r)
    requires w.cols.lo <= c < w.cols.hi && before == RowPass(start, n, w, r, c)
    requires changed <==> before != start
    requires after == Force(before, (r, c), w)
    requires changes <==> changed || after != before
    ensures after == RowPass(start, n, w, r, c + 1)
    ensures changes <==> after != start
  {
    var p := (r, c);
    NeighboursInGrid(before, n, w, p);
    if after != before {
      assert before[p] == Unset && start[p] == Unset;
    }
  }

  /** A finished row scan is the window scan one row further; a changing row changes the window's input. */
  lemma WindowStep(c0: Cells, start: Cells, cells: Cells, n: int, w: Window, r: int,
                   changed: bool, changes: bool)
    requires Square(c0, n) && Fits(w, n) && w.rows.lo <= r < w.rows.hi
    requires start == WindowPass(c0, n, w, r) && (changed <==> start != c0)
    requires cells == RowPass(start, n, w, r, End(w.cols))
    requires changes <==> changed || cells != start
    ensures cells == WindowPass(c0, n, w, r + 1)
    ensures changes <==> cells != c0
  {
    if cells != start {
      var k :| k in start && start[k] != cells[k];
      assert start[k] == Unset && c0[k] == Unset;
    }
  }

  /**
    One line of a loop of `full_colour`: the grid after it is the axis
    treatment one line further, and the flag still says whether the grid
    differs from the one the loop started from.
  */
  lemma BalanceStep(start: Cells, before: Cells, after: Cells, n: int, a: Axis, i: int,
                    changed: bool, changes: bool)
    requires Square(start, n) && 0 <= i < n
    requires before == BalanceAxis(start, n, a, i) && (changed <==> before != start)
    requires after == BalanceLine(before, n, a, i) && (changes <==> changed || after != before)
    ensures after == BalanceAxis(start, n, a, i + 1)
    ensures changes <==> after != start
  {
    NarrowedChain(start, before, after);
  }

  /**
    The invariant of `refine`'s loop: the grid is square, `refine` reaches
    `target` from it, and once a cycle has changed nothing it is `target`.
  */
  ghost predicate RefineLoop(cells: Cells, n: nat, target: Cells, changes: bool) {
    Square(cells, n) && RefineCells(cells, n) == target && (!changes ==> cells == target)
  }

  /**
    One cycle of `refine`'s loop: a changing cycle removes unset cells, the
    fixpoint that `refine` reaches is the same before and after the cycle,
    and a cycle that changes nothing has reached it.
  */
  lemma RefineStep(before: Cells, after: Cells, n: nat, changes: bool, target: Cells)
    requires RefineLoop(before, n, target, true) && after == Cycle(before, n)
    requires changes <==> after != before
    ensures RefineLoop(after, n, target, changes)
    ensures changes ==> UnsetCount(after) < UnsetCount(before)
  {
    NarrowedUnsetCount(before, after);
  }

  /** The `Sweep` of `ws[k..]` is one scan followed by the `Sweep` of `ws[k + 1..]`. */
  lemma SweepStep(cells: Cells, n: int, ws: seq<Window>, k: int)
    requires Square(cells, n) && 0 <= k < |ws| && forall w :: w in ws ==> Fits(w, n)
    ensures Sweep(cells, n, ws[k..]) == Sweep(LinePass(cells, n, ws[k]), n, ws[k + 1..])
  {
    assert ws[k..][1..] == ws[k + 1..];
  }

  /**
    The six scans of `eliminate_contiguous`, one after the other, are
    `Contiguous.EliminateContiguous`, and they change the grid exactly when
    one of them does.
  */
  lemma SixScans(c0: Cells, c1: Cells, c2: Cells, c3: Cells, c4: Cells, c5: Cells, c6: Cells, n: nat)
    requires Square(c0, n)
    requires c1 == LinePass(c0, n, Windows(n)[0]) && c2 == LinePass(c1, n, Windows(n)[1])
    requires c3 == LinePass(c2, n, Windows(n)[2]) && c4 == LinePass(c3, n, Windows(n)[3])
    requires c5 == LinePass(c4, n, Windows(n)[4]) && c6 == LinePass(c5, n, Windows(n)[5])
    ensures c6 == Contiguous.EliminateContiguous(c0, n)
    ensures c6 != c0 <==> (c1 != c0 || c2 != c1 || c3 != c2 || c4 != c3 || c5 != c4 || c6 != c5)
  {
    var ws := Windows(n);
    SweepStep(c0, n, ws, 0);
    SweepStep(c1, n, ws, 1);
    SweepStep(c2, n, ws, 2);
    SweepStep(c3, n, ws, 3);
    SweepStep(c4, n, ws, 4);
    SweepStep(c5, n, ws, 5);
    assert ws[6..] == [];
    ScanChanges(c0, c1, c2, c3, c4, c5, c6);
  }

  /** Six narrowing steps change the grid exactly when one of them does. */
  lemma ScanChanges(c0: Cells, c1: Cells, c2: Cells, c3: Cells, c4: Cells, c5: Cells, c6: Cells)
    requires Narrowed(c0, c1) && Narrowed(c1, c2) && Narrowed(c2, c3)
    requires Narrowed(c3, c4) && Narrowed(c4, c5) && Narrowed(c5, c6)
    ensures c6 != c0 <==> (c1 != c0 || c2 != c1 || c3 != c2 || c4 != c3 || c5 != c4 || c6 != c5)
  {
    NarrowedChain(c0, c1, c2);
    NarrowedTrans(c0, c1, c2);
    NarrowedChain(c0, c2, c3);
    NarrowedTrans(c0, c2, c3);
    NarrowedChain(c0, c3, c4);
    NarrowedTrans(c0, c3, c4);
    NarrowedChain(c0, c4, c5);
    NarrowedTrans(c0, c4, c5);
    NarrowedChain(c0, c5, c6);
  }

  /**
    `solve`: refine; return the problem when it is solved or infeasible;
    otherwise branch on the first unset cell, red first, and return the red
    branch's result if it is solved, the blue branch's otherwise. The result
    is always solved or infeasible, and it is what `SolveSpec` describes.
    The argument itself is left refined and evaluated: branches work on
    copies of it.
  */
  method Solve(problem: Problem) returns (res: Problem)
    requires problem.Valid()
    modifies problem
    ensures res.Valid() && res.size == problem.size
    ensures Outcome(res.cells, res.state) == SolveSpec(old(problem.cells), problem.size, old(problem.state))
    ensures Terminal(res.state)
    ensures problem.cells == RefineCells(old(problem.cells), problem.size)
    ensures problem.state == Evaluate(problem.cells, problem.size, old(problem.state))
    decreases UnsetCount(problem.cells), 1
  {
    ghost var c0, s0 := problem.cells, problem.state;
    problem.Refine();
    if problem.state == Solved || problem.state == Infeasible {
      SolveSpecStops(c0, problem.size, s0, problem.cells, problem.state);
      return problem;
    }
    var rc := problem.GetUndecidedCell();
    assert rc.Some?;
    var (r, c) := rc.value;
    SolveSpecBranches(c0, problem.size, s0, problem.cells, problem.state, (r, c));
    var candidateSol := SolveChoice(problem, r, c, Red);
    if candidateSol.state == Solved {
      return candidateSol;
    }
    candidateSol := SolveChoice(problem, r, c, Blue);
    return candidateSol;
  }

  /**
    One branch of `solve`: `solve(choose(problem, r, c, colour))`, the
    problem copied with the unset cell `(r, c)` set to `colour`, then solved.
    The input problem is left as it is.
  */
  method SolveChoice(problem: Problem, r: int, c: int, colour: Cell) returns (res: Problem)
    requires problem.Valid() && (r, c) in problem.cells && problem.cells[(r, c)] == Unset
    requires colour != Unset
    ensures res.Valid() && res.size == problem.size
    ensures Outcome(res.cells, res.state) == SolveSpec(problem.cells[(r, c) := colour], problem.size, problem.state)
    ensures Terminal(res.state)
    decreases UnsetCount(problem.cells), 0
  {
    SetCellNarrows(problem.cells, (r, c), colour);
    var newProblem := problem.Choose(r, c, colour);
    res := Solve(newProblem);
  }
}
