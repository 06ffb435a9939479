/**
  The search of the 0hh1 solver as pure functions: `refine` (propagation
  to a fixpoint, then evaluation), the choice of the branching cell, and
  the depth-first `solve` that tries red before blue. The lemmas at the end
  show that the search always concludes, that a solved result is a valid
  solution extending the input, and that the search finds a solution
  whenever one extends the input.
*/
module Search {
  import opened Common
  import opened Grid
  import opened Contiguous
  import opened Balance
  import opened Feasibility

  /** One cycle of `refine`'s loop: both propagators, in order. */
  ghost function Cycle(cells: Cells, n: nat): (res: Cells)
    requires Square(cells, n)
    ensures Square(res, n) && Narrowed(cells, res)
  {
    FullColour(EliminateContiguous(cells, n), n)
  }

  /** `refine`'s loop: repeat cycles until one changes nothing. */
  ghost function RefineCells(cells: Cells, n: nat): (res: Cells)
    requires Square(cells, n)
    ensures Square(res, n) && Narrowed(cells, res)
    decreases UnsetCount(cells)
  {
    var next := Cycle(cells, n);
    if next == cells then cells
    else
      NarrowedUnsetCount(cells, next);
      RefineCells(next, n)
  }

  /**
    Once `refine` stops, one more pass of either propagator changes nothing,
    and neither does one more cycle.
  */
  lemma {:induction false} RefineIsFixpoint(cells: Cells, n: nat)
    requires Square(cells, n)
    ensures var f := RefineCells(cells, n);
            Cycle(f, n) == f && EliminateContiguous(f, n) == f && FullColour(f, n) == f
    decreases UnsetCount(cells)
  {
    var next := Cycle(cells, n);
    if next == cells {
      var e := EliminateContiguous(cells, n);
      NarrowedChain(cells, e, next);
    } else {
      NarrowedUnsetCount(cells, next);
      RefineIsFixpoint(next, n);
    }
  }

  /** Row-major order on coordinates. */
  predicate Before(p: Coord, q: Coord) {
    p.0 < q.0 || (p.0 == q.0 && p.1 < q.1)
  }

  /** The first unset cell at or after `(r, c)` in row-major order. */
  function FirstUnsetFrom(cells: Cells, n: nat, r: nat, c: nat): (res: Option<Coord>)
    requires Square(cells, n) && r <= n && c <= n
    ensures res.None? ==>
              forall k :: k in cells && !Before(k, (r, c)) ==> cells[k] != Unset
    ensures res.Some? ==>
              res.value in cells && cells[res.value] == Unset && !Before(res.value, (r, c)) &&
              forall k :: k in cells && !Before(k, (r, c)) && Before(k, res.value) ==> cells[k] != Unset
    decreases n - r, n - c
  {
    if r == n then None
    else if c == n then FirstUnsetFrom(cells, n, r + 1, 0)
    else if cells[(r, c)] == Unset then Some((r, c))
    else FirstUnsetFrom(cells, n, r, c + 1)
  }

  /**
    The cell `solve` branches on: the first unset cell in row-major order;
    none only when every cell is set.
  */
  function FirstUnset(cells: Cells, n: nat): (res: Option<Coord>)
    requires Square(cells, n)
    ensures res.None? <==> AllCellsSet(cells)
    ensures res.Some? ==>
              res.value in cells && cells[res.value] == Unset &&
              forall k :: k in cells && Before(k, res.value) ==> cells[k] != Unset
  {
    FirstUnsetFrom(cells, n, 0, 0)
  }

  /** What `solve` returns: the final cells and the final state. */
  datatype Outcome = Outcome(cells: Cells, state: State)

  /**
    `solve`: refine; stop if solved or infeasible; otherwise branch on the
    first unset cell, red first, and keep the red result if it is solved.
  */
  ghost function SolveSpec(cells: Cells, n: nat, st: State): (o: Outcome)
    requires Square(cells, n)
    ensures Square(o.cells, n) && Narrowed(cells, o.cells)
    decreases UnsetCount(cells)
  {
    var refined := RefineCells(cells, n);
    var st1 := Evaluate(refined, n, st);
    if Terminal(st1) then Outcome(refined, st1)
    else
      match FirstUnset(refined, n)
      case None => Outcome(refined, st1)
      case Some(p) =>
        NarrowedUnsetCount(cells, refined);
        SetCellNarrows(refined, p, Red);
        SetCellNarrows(refined, p, Blue);
        var red := SolveSpec(refined[p := Red], n, st1);
        if red.state == Solved then red
        else SolveSpec(refined[p := Blue], n, st1)
  }

  /** When refining ends the search, `SolveSpec` is the refined grid with its evaluated state. */
  lemma SolveSpecStops(cells: Cells, n: nat, st: State, refined: Cells, st1: State)
    requires Square(cells, n) && refined == RefineCells(cells, n)
    requires st1 == Evaluate(refined, n, st) && Terminal(st1)
    ensures SolveSpec(cells, n, st) == Outcome(refined, st1)
  {}

  /**
    When refining does not end the search, the first unset cell `p` of the
    refined grid is where `SolveSpec` branches: it is the red branch if that
    one is solved and the blue branch otherwise.
  */
  lemma SolveSpecBranches(cells: Cells, n: nat, st: State, refined: Cells, st1: State, p: Coord)
    requires Square(cells, n) && refined == RefineCells(cells, n)
    requires st1 == Evaluate(refined, n, st) && !Terminal(st1)
    requires FirstUnset(refined, n) == Some(p)
    ensures p in refined && refined[p] == Unset && Square(refined, n)
    ensures UnsetCount(refined) <= UnsetCount(cells)
    ensures SolveSpec(cells, n, st) ==
              if SolveSpec(refined[p := Red], n, st1).state == Solved then SolveSpec(refined[p := Red], n, st1)
              else SolveSpec(refined[p := Blue], n, st1)
  {
    NarrowedUnsetCount(cells, refined);
  }

  /** `solve` always ends solved or infeasible. */
  lemma {:induction false} SolveConcludes(cells: Cells, n: nat, st: State)
    requires Square(cells, n)
    ensures Terminal(SolveSpec(cells, n, st).state)
    decreases UnsetCount(cells)
  {
    var refined := RefineCells(cells, n);
    var st1 := Evaluate(refined, n, st);
    if !Terminal(st1) {
      var p := FirstUnset(refined, n).value;
      NarrowedUnsetCount(cells, refined);
      SetCellNarrows(refined, p, Red);
      SetCellNarrows(refined, p, Blue);
      SolveConcludes(refined[p := Red], n, st1);
      SolveConcludes(refined[p := Blue], n, st1);
    }
  }

  /** A solved result of `solve` is a valid solution (for even `n`) that keeps every cell set in the input. */
  lemma {:induction false} SolveSound(cells: Cells, n: nat, st: State)
    requires Square(cells, n) && n % 2 == 0 && st != Solved
    requires SolveSpec(cells, n, st).state == Solved
    ensures ValidSolution(SolveSpec(cells, n, st).cells, n)
    ensures Narrowed(cells, SolveSpec(cells, n, st).cells)
    decreases UnsetCount(cells)
  {
    var refined := RefineCells(cells, n);
    var st1 := Evaluate(refined, n, st);
    if Terminal(st1) {
      SolvedIsValid(refined, n, st);
    } else {
      var p := FirstUnset(refined, n).value;
      NarrowedUnsetCount(cells, refined);
      SetCellNarrows(refined, p, Red);
      SetCellNarrows(refined, p, Blue);
      var red := SolveSpec(refined[p := Red], n, st1);
      if red.state == Solved {
        SolveSound(refined[p := Red], n, st1);
      } else {
        SolveSound(refined[p := Blue], n, st1);
      }
    }
  }

  /** A valid solution has no three equal cells along any of the six windows. */
  lemma ValidNoRun(s: Cells, n: nat, w: Window)
    requires Square(s, n) && ValidSolution(s, n) && w in Windows(n)
    ensures NoRun(s, n, w)
  {
    var ws := Windows(n);
    if w == ws[0] || w == ws[1] || w == ws[2] {
      ValidNoRunColumns(s, n, w);
    } else {
      ValidNoRunRows(s, n, w);
    }
  }

  /** The three windows along the columns. */
  lemma ValidNoRunColumns(s: Cells, n: nat, w: Window)
    requires Square(s, n) && ValidSolution(s, n)
    requires w == Windows(n)[0] || w == Windows(n)[1] || w == Windows(n)[2]
    ensures NoRun(s, n, w)
  {
    var ws := Windows(n);
    forall p | InWindow(w, p)
      ensures !(s[p] == s[Shift(p, w.d0)] && s[p] == s[Shift(p, w.d1)])
    {
      if w == ws[0] {
        assert !RunAt(s, n, Col, p.1, p.0);
      } else if w == ws[1] {
        assert !RunAt(s, n, Col, p.1, p.0 - 2);
      } else {
        assert !RunAt(s, n, Col, p.1, p.0 - 1);
      }
    }
  }

  /** The three windows along the rows. */
  lemma ValidNoRunRows(s: Cells, n: nat, w: Window)
    requires Square(s, n) && ValidSolution(s, n)
    requires w == Windows(n)[3] || w == Windows(n)[4] || w == Windows(n)[5]
    ensures NoRun(s, n, w)
  {
    var ws := Windows(n);
    forall p | InWindow(w, p)
      ensures !(s[p] == s[Shift(p, w.d0)] && s[p] == s[Shift(p, w.d1)])
    {
      if w == ws[3] {
        assert !RunAt(s, n, Row, p.0, p.1);
      } else if w == ws[4] {
        assert !RunAt(s, n, Row, p.0, p.1 - 2);
      } else {
        assert !RunAt(s, n, Row, p.0, p.1 - 1);
      }
    }
  }

  /** Propagation never contradicts a valid solution that extends its input. */
  lemma {:induction false} RefineExtends(cells: Cells, n: nat, s: Cells)
    requires Square(cells, n) && Narrowed(cells, s) && Square(s, n) && ValidSolution(s, n)
    ensures Narrowed(RefineCells(cells, n), s)
    decreases UnsetCount(cells)
  {
    forall w | w in Windows(n) ensures NoRun(s, n, w) {
      ValidNoRun(s, n, w);
    }
    SweepExtends(cells, n, Windows(n), s);
    FullColourExtends(EliminateContiguous(cells, n), n, s);
    var next := Cycle(cells, n);
    if next != cells {
      NarrowedUnsetCount(cells, next);
      RefineExtends(next, n, s);
    }
  }

  /** Setting a cell to its colour in `s` keeps `s` an extension. */
  lemma NarrowedToward(cells: Cells, p: Coord, s: Cells)
    requires Narrowed(cells, s) && p in cells
    ensures Narrowed(cells[p := s[p]], s)
  {}

  /** Completeness: when a valid solution extends the input, `solve` ends solved. */
  lemma {:induction false} SolveComplete(cells: Cells, n: nat, s: Cells)
    requires Square(cells, n) && n % 2 == 0
    requires Narrowed(cells, s) && Square(s, n) && ValidSolution(s, n)
    ensures SolveSpec(cells, n, Unsolved).state == Solved
    decreases UnsetCount(cells)
  {
    var refined := RefineCells(cells, n);
    RefineExtends(cells, n, s);
    ExtendableNoViolation(refined, n, s);
    var st1 := Evaluate(refined, n, Unsolved);
    if !Terminal(st1) {
      assert st1 == Unsolved;
      var p := FirstUnset(refined, n).value;
      NarrowedUnsetCount(cells, refined);
      SetCellNarrows(refined, p, Red);
      SetCellNarrows(refined, p, Blue);
      var red := SolveSpec(refined[p := Red], n, Unsolved);
      var blue := SolveSpec(refined[p := Blue], n, Unsolved);
      assert SolveSpec(cells, n, Unsolved) == if red.state == Solved then red else blue;
      assert s[p] in {Red, Blue};
      if s[p] == Red {
        NarrowedToward(refined, p, s);
        SolveComplete(refined[p := Red], n, s);
      } else if red.state != Solved {
        NarrowedToward(refined, p, s);
        SolveComplete(refined[p := Blue], n, s);
      }
    }
  }

  /**
    For even `n` and an unsolved input, `solve` ends infeasible exactly when
    no valid solution keeps every cell set in the input.
  */
  lemma SolveInfeasibleIffNoSolution(cells: Cells, n: nat)
    requires Square(cells, n) && n % 2 == 0
    ensures SolveSpec(cells, n, Unsolved).state == Infeasible <==>
            !exists s :: Narrowed(cells, s) && Square(s, n) && ValidSolution(s, n)
  {
    var o := SolveSpec(cells, n, Unsolved);
    SolveConcludes(cells, n, Unsolved);
    if o.state == Solved {
      SolveSound(cells, n, Unsolved);
      assert Square(o.cells, n);
    }
    if exists s :: Narrowed(cells, s) && Square(s, n) && ValidSolution(s, n) {
      var s :| Narrowed(cells, s) && Square(s, n) && ValidSolution(s, n);
      SolveComplete(cells, n, s);
    }
  }
}
