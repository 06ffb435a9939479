/**
  The evaluator (`check_feasibility`) as pure predicates, and an
  independent statement of what a solved 0hh1 grid is, `ValidSolution`.
  The evaluator's verdict does not depend on the order in which it scans
  the lines: it stops at the first violation, and the only effect of the
  order is which violation the (unmodelled) report would print.
*/
module Feasibility {
  import opened Common
  import opened Grid
  import opened Balance

  /** The number of places `t < hi` where line `i` holds `c1` and line `j` holds `c2`. */
  function Agree(cells: Cells, n: int, a: Axis, i: int, j: int, c1: Cell, c2: Cell, hi: int): (r: nat)
    requires Square(cells, n) && 0 <= i < n && 0 <= j < n && 0 <= hi <= n
    ensures r <= hi
    decreases hi
  {
    if hi == 0 then 0
    else
      Agree(cells, n, a, i, j, c1, c2, hi - 1) +
      (if cells[Pos(a, i, hi - 1)] == c1 && cells[Pos(a, j, hi - 1)] == c2 then 1 else 0)
  }

  /** Cells `t`, `t + 1`, `t + 2` of line `i` are set and of one colour. */
  predicate RunAt(cells: Cells, n: int, a: Axis, i: int, t: int)
    requires Square(cells, n) && 0 <= i < n && 0 <= t && t + 2 < n
  {
    cells[Pos(a, i, t)] == cells[Pos(a, i, t + 1)] &&
    cells[Pos(a, i, t + 1)] == cells[Pos(a, i, t + 2)] &&
    cells[Pos(a, i, t)] != Unset
  }

  ghost predicate HasRun(cells: Cells, n: int, a: Axis, i: int)
    requires Square(cells, n) && 0 <= i < n
  {
    exists t :: 0 <= t < n - 2 && RunAt(cells, n, a, i, t)
  }

  /**
    Lines `i` and `j` share at least `n / 2` red places or at least `n / 2`
    blue places: since each line holds `n / 2` of each colour when complete,
    the two would have to end equal.
  */
  predicate Duplicate(cells: Cells, n: int, a: Axis, i: int, j: int)
    requires Square(cells, n) && 0 <= i < n && 0 <= j < n
  {
    Agree(cells, n, a, i, j, Red, Red, n) >= n / 2 || Agree(cells, n, a, i, j, Blue, Blue, n) >= n / 2
  }

  /** The four checks the evaluator makes for line `i` of axis `a`. */
  ghost predicate LineViolation(cells: Cells, n: int, a: Axis, i: int)
    requires Square(cells, n) && 0 <= i < n
  {
    Count(cells, n, a, i, Red, n) > n / 2 ||
    Count(cells, n, a, i, Blue, n) > n / 2 ||
    HasRun(cells, n, a, i) ||
    exists j :: i < j < n && Duplicate(cells, n, a, i, j)
  }

  ghost predicate Violation(cells: Cells, n: int)
    requires Square(cells, n)
  {
    exists a: Axis, i :: 0 <= i < n && LineViolation(cells, n, a, i)
  }

  /**
    The state `check_feasibility` leaves: infeasible on any violation,
    otherwise solved when every cell is set, otherwise the state it had.
  */
  ghost function Evaluate(cells: Cells, n: int, st: State): State
    requires Square(cells, n)
  {
    if Violation(cells, n) then Infeasible
    else if AllCellsSet(cells) then Solved
    else st
  }

  /** Lines `i` and `j` of axis `a` are equal. */
  ghost predicate SameLine(s: Cells, n: int, a: Axis, i: int, j: int)
    requires Square(s, n) && 0 <= i < n && 0 <= j < n
  {
    forall t :: 0 <= t < n ==> s[Pos(a, i, t)] == s[Pos(a, j, t)]
  }

  /**
    A solved 0hh1 grid: every cell set, every row and column with `n / 2`
    cells of each colour, no three equal cells in a row in any line, and no
    two equal rows and no two equal columns.
  */
  ghost predicate ValidSolution(s: Cells, n: int)
    requires Square(s, n)
  {
    AllCellsSet(s) &&
    AxisBalanced(s, n, Row) && AxisBalanced(s, n, Col) &&
    (forall a, i, t :: 0 <= i < n && 0 <= t < n - 2 ==> !RunAt(s, n, a, i, t)) &&
    (forall a, i, j :: 0 <= i < j < n ==> !SameLine(s, n, a, i, j))
  }

  // ------------------------------------------------------ counting

  lemma {:induction false} AgreeSplit(cells: Cells, n: int, a: Axis, i: int, j: int, c: Cell, hi: int)
    requires Square(cells, n) && 0 <= i < n && 0 <= j < n && 0 <= hi <= n
    ensures Count(cells, n, a, i, c, hi) ==
            Agree(cells, n, a, i, j, c, Red, hi) + Agree(cells, n, a, i, j, c, Blue, hi) +
            Agree(cells, n, a, i, j, c, Unset, hi)
    decreases hi
  {
    if hi > 0 {
      AgreeSplit(cells, n, a, i, j, c, hi - 1);
    }
  }

  lemma {:induction false} AgreeSwap(cells: Cells, n: int, a: Axis, i: int, j: int, c1: Cell, c2: Cell, hi: int)
    requires Square(cells, n) && 0 <= i < n && 0 <= j < n && 0 <= hi <= n
    ensures Agree(cells, n, a, i, j, c1, c2, hi) == Agree(cells, n, a, j, i, c2, c1, hi)
    decreases hi
  {
    if hi > 0 {
      AgreeSwap(cells, n, a, i, j, c1, c2, hi - 1);
    }
  }

  lemma {:induction false} AgreeZero(cells: Cells, n: int, a: Axis, i: int, j: int, c1: Cell, c2: Cell, hi: int)
    requires Square(cells, n) && 0 <= i < n && 0 <= j < n && 0 <= hi <= n
    requires Agree(cells, n, a, i, j, c1, c2, hi) == 0
    ensures forall t :: 0 <= t < hi ==> !(cells[Pos(a, i, t)] == c1 && cells[Pos(a, j, t)] == c2)
    decreases hi
  {
    if hi > 0 {
      AgreeZero(cells, n, a, i, j, c1, c2, hi - 1);
    }
  }

  lemma {:induction false} AgreeFull(cells: Cells, n: int, a: Axis, i: int, j: int, c: Cell, hi: int)
    requires Square(cells, n) && 0 <= i < n && 0 <= j < n && 0 <= hi <= n && AllCellsSet(cells)
    ensures Agree(cells, n, a, i, j, c, Unset, hi) == 0
    decreases hi
  {
    if hi > 0 {
      AgreeFull(cells, n, a, i, j, c, hi - 1);
      assert cells[Pos(a, j, hi - 1)] in {Red, Blue};
    }
  }

  lemma {:induction false} AgreeSameLine(cells: Cells, n: int, a: Axis, i: int, j: int, c: Cell, hi: int)
    requires Square(cells, n) && 0 <= i < n && 0 <= j < n && 0 <= hi <= n
    requires forall t :: 0 <= t < hi ==> cells[Pos(a, i, t)] == cells[Pos(a, j, t)]
    ensures Agree(cells, n, a, i, j, c, c, hi) == Count(cells, n, a, i, c, hi)
    decreases hi
  {
    if hi > 0 {
      AgreeSameLine(cells, n, a, i, j, c, hi - 1);
    }
  }

  lemma {:induction false} AgreeNarrowed(cells: Cells, s: Cells, n: int, a: Axis, i: int, j: int, c1: Cell, c2: Cell, hi: int)
    requires Square(cells, n) && Narrowed(cells, s) && 0 <= i < n && 0 <= j < n && 0 <= hi <= n
    requires c1 != Unset && c2 != Unset
    ensures Square(s, n)
    ensures Agree(cells, n, a, i, j, c1, c2, hi) <= Agree(s, n, a, i, j, c1, c2, hi)
    decreases hi
  {
    assert s.Keys == cells.Keys;
    if hi > 0 {
      AgreeNarrowed(cells, s, n, a, i, j, c1, c2, hi - 1);
    }
  }

  // --------------------------------------------------- duplicates

  /** In a full balanced grid, two lines flagged as duplicates are equal. */
  lemma DuplicateMeansSame(s: Cells, n: int, a: Axis, i: int, j: int)
    requires Square(s, n) && AllCellsSet(s) && AxisBalanced(s, n, a)
    requires 0 <= i < n && 0 <= j < n && Duplicate(s, n, a, i, j)
    ensures SameLine(s, n, a, i, j)
  {
    var c := if Agree(s, n, a, i, j, Red, Red, n) >= n / 2 then Red else Blue;
    var o := Opposite(c);
    AgreeSplit(s, n, a, i, j, c, n);
    AgreeSplit(s, n, a, j, i, c, n);
    AgreeFull(s, n, a, i, j, c, n);
    AgreeFull(s, n, a, j, i, c, n);
    AgreeSwap(s, n, a, i, j, c, c, n);
    AgreeSwap(s, n, a, i, j, o, c, n);
    assert Agree(s, n, a, i, j, c, o, n) == 0;
    assert Agree(s, n, a, i, j, o, c, n) == 0;
    AgreeZero(s, n, a, i, j, c, o, n);
    AgreeZero(s, n, a, i, j, o, c, n);
    forall t | 0 <= t < n
      ensures s[Pos(a, i, t)] == s[Pos(a, j, t)]
    {
      assert s[Pos(a, i, t)] in {Red, Blue} && s[Pos(a, j, t)] in {Red, Blue};
    }
  }

  // ---------------------------------------------------- soundness

  /**
    When the evaluator declares a grid solved (it was not already) and `n`
    is even, the grid is a valid solution: every row and column holds
    exactly `n / 2` reds and `n / 2` blues, no line has three equal cells in
    a row, and no two rows and no two columns are equal.
  */
  lemma SolvedIsValid(s: Cells, n: int, st: State)
    requires Square(s, n) && n % 2 == 0 && st != Solved
    requires Evaluate(s, n, st) == Solved
    ensures ValidSolution(s, n)
  {
    assert !Violation(s, n) && AllCellsSet(s);
    forall a: Axis, i | 0 <= i < n
      ensures Count(s, n, a, i, Red, n) == n / 2 && Count(s, n, a, i, Blue, n) == n / 2
    {
      assert !LineViolation(s, n, a, i);
      forall j | 0 <= j < n ensures s[Pos(a, i, j)] != Unset {
        assert s[Pos(a, i, j)] in {Red, Blue};
      }
      CountFullLine(s, n, a, i, n);
    }
    forall a: Axis, i, t | 0 <= i < n && 0 <= t < n - 2
      ensures !RunAt(s, n, a, i, t)
    {
      assert !LineViolation(s, n, a, i);
    }
    forall a: Axis, i, j | 0 <= i < j < n
      ensures !SameLine(s, n, a, i, j)
    {
      assert !LineViolation(s, n, a, i);
      if SameLine(s, n, a, i, j) {
        AgreeSameLine(s, n, a, i, j, Red, n);
        assert Duplicate(s, n, a, i, j);
        assert false;
      }
    }
  }

  /**
    No check of the evaluator fires on a grid that some valid solution
    extends: the checks discard only grids that cannot be completed.
  */
  lemma ExtendableNoViolation(cells: Cells, n: int, s: Cells)
    requires Square(cells, n) && Narrowed(cells, s) && Square(s, n) && ValidSolution(s, n)
    ensures !Violation(cells, n)
  {
    forall a: Axis, i | 0 <= i < n
      ensures !LineViolation(cells, n, a, i)
    {
      CountNarrowed(cells, s, n, a, i, Red, n);
      CountNarrowed(cells, s, n, a, i, Blue, n);
      forall t | 0 <= t < n - 2
        ensures !RunAt(cells, n, a, i, t)
      {
        assert !RunAt(s, n, a, i, t);
      }
      forall j | i < j < n
        ensures !Duplicate(cells, n, a, i, j)
      {
        AgreeNarrowed(cells, s, n, a, i, j, Red, Red, n);
        AgreeNarrowed(cells, s, n, a, i, j, Blue, Blue, n);
        if Duplicate(cells, n, a, i, j) {
          DuplicateMeansSame(s, n, a, i, j);
          assert false;
        }
      }
    }
  }

  /** For even `n`, the evaluator declares a grid solved exactly when it is a valid solution. */
  lemma SolvedIffValid(s: Cells, n: int, st: State)
    requires Square(s, n) && n % 2 == 0 && st != Solved
    ensures Evaluate(s, n, st) == Solved <==> ValidSolution(s, n)
  {
    if Evaluate(s, n, st) == Solved {
      SolvedIsValid(s, n, st);
    }
    if ValidSolution(s, n) {
      NarrowedRefl(s);
      ExtendableNoViolation(s, n, s);
    }
  }
}
