/**
  The line-balance propagator (`full_colour`) as pure functions: once a
  row or a column holds `n / 2` cells of one colour, its unset cells get the
  other colour. All rows are treated first, then all columns, so the
  columns see what the rows wrote.
*/
module Balance {
  import opened Common
  import opened Grid

  /** The index of the line of axis `a` that `k` lies on, and its place along that line. */
  function LineOf(a: Axis, k: Coord): int {
    if a == Row then k.0 else k.1
  }

  function Along(a: Axis, k: Coord): int {
    if a == Row then k.1 else k.0
  }

  predicate OnLine(k: Coord, a: Axis, i: int) {
    LineOf(a, k) == i
  }

  /**
    The colour line `i` forces on its unset cells: blue when the reds have
    reached `n / 2` and the blues have not, red when only the blues have;
    none when neither or both have.
  */
  function Forced(cells: Cells, n: int, a: Axis, i: int): (f: Option<Cell>)
    requires Square(cells, n) && 0 <= i < n
    ensures f.Some? ==> f.value != Unset
  {
    var half := n / 2;
    var reds := Count(cells, n, a, i, Red, n);
    var blues := Count(cells, n, a, i, Blue, n);
    if reds == half && blues == half then None
    else if reds == half then Some(Blue)
    else if blues == half then Some(Red)
    else None
  }

  /** Every unset cell of line `i` set to `c`. */
  ghost function FillLine(cells: Cells, a: Axis, i: int, c: Cell): Cells {
    map k | k in cells :: if OnLine(k, a, i) && cells[k] == Unset then c else cells[k]
  }

  /** The treatment of one line by `full_colour`. */
  ghost function BalanceLine(cells: Cells, n: int, a: Axis, i: int): (res: Cells)
    requires Square(cells, n) && 0 <= i < n
    ensures Square(res, n) && Narrowed(cells, res)
  {
    match Forced(cells, n, a, i)
    case None => cells
    case Some(c) => FillLine(cells, a, i, c)
  }

  /** Lines `0 .. hi - 1` of axis `a`, in order. */
  ghost function BalanceAxis(cells: Cells, n: int, a: Axis, hi: int): (res: Cells)
    requires Square(cells, n) && 0 <= hi <= n
    ensures Square(res, n) && Narrowed(cells, res)
    decreases hi
  {
    if hi == 0 then cells
    else BalanceLine(BalanceAxis(cells, n, a, hi - 1), n, a, hi - 1)
  }

  /** `full_colour`: every row, then every column. */
  ghost function FullColour(cells: Cells, n: int): (res: Cells)
    requires Square(cells, n) && 0 <= n
    ensures Square(res, n) && Narrowed(cells, res)
  {
    BalanceAxis(BalanceAxis(cells, n, Row, n), n, Col, n)
  }

  /** What one line's treatment does to cell `k` of that line, from the counts of `cells`. */
  ghost function LineEffect(cells: Cells, n: int, a: Axis, k: Coord): Cell
    requires Square(cells, n) && k in cells
  {
    match Forced(cells, n, a, LineOf(a, k))
    case Some(c) => if cells[k] == Unset then c else cells[k]
    case None => cells[k]
  }

  lemma PosOnLine(n: int, a: Axis, k: Coord)
    ensures Pos(a, LineOf(a, k), Along(a, k)) == k
  {}

  /**
    After the lines `0 .. hi - 1` of axis `a` are treated, a cell on one of
    them is what its line's counts in the INPUT force (lines of one axis are
    disjoint, so treating one never changes another's counts), and every
    other cell is untouched.
  */
  lemma {:induction false} BalanceAxisEffect(cells: Cells, n: int, a: Axis, hi: int, k: Coord)
    requires Square(cells, n) && 0 <= hi <= n && k in cells
    ensures var res := BalanceAxis(cells, n, a, hi);
            if LineOf(a, k) < hi then res[k] == LineEffect(cells, n, a, k) else res[k] == cells[k]
    decreases hi, 0
  {
    if hi > 0 {
      var line := hi - 1;
      var mid := BalanceAxis(cells, n, a, line);
      BalanceAxisEffect(cells, n, a, line, k);
      BalanceLineEffect(mid, n, a, line, k);
      if LineOf(a, k) == line {
        BalanceAxisForced(cells, n, a, line);
      }
    }
  }

  /** The lines before line `i` leave its counts, and so what it forces, as in the input. */
  lemma {:induction false} BalanceAxisForced(cells: Cells, n: int, a: Axis, i: int)
    requires Square(cells, n) && 0 <= i < n
    ensures Forced(BalanceAxis(cells, n, a, i), n, a, i) == Forced(cells, n, a, i)
    decreases i, 1
  {
    var mid := BalanceAxis(cells, n, a, i);
    forall j | 0 <= j < n
      ensures mid[Pos(a, i, j)] == cells[Pos(a, i, j)]
    {
      BalanceAxisEffect(cells, n, a, i, Pos(a, i, j));
    }
    CountSameLine(mid, cells, n, a, i, Red, n);
    CountSameLine(mid, cells, n, a, i, Blue, n);
  }

  /** One line's treatment changes only that line, each cell as the line's counts force. */
  lemma BalanceLineEffect(cells: Cells, n: int, a: Axis, i: int, k: Coord)
    requires Square(cells, n) && 0 <= i < n && k in cells
    ensures BalanceLine(cells, n, a, i)[k] == if OnLine(k, a, i) then LineEffect(cells, n, a, k) else cells[k]
  {}

  /**
    `full_colour` on the whole grid: every row cell as its row's counts in
    the input force, then every column cell as its column's counts after the
    rows were treated force.
  */
  lemma FullColourEffect(cells: Cells, n: int, k: Coord)
    requires Square(cells, n) && 0 <= n && k in cells
    ensures var rows := BalanceAxis(cells, n, Row, n);
            rows[k] == LineEffect(cells, n, Row, k) &&
            FullColour(cells, n)[k] == LineEffect(rows, n, Col, k)
  {
    BalanceAxisEffect(cells, n, Row, n, k);
    BalanceAxisEffect(BalanceAxis(cells, n, Row, n), n, Col, n, k);
  }

  /** Every line of axis `a` has `n / 2` reds and `n / 2` blues. */
  ghost predicate AxisBalanced(s: Cells, n: int, a: Axis)
    requires Square(s, n)
  {
    forall i :: 0 <= i < n ==> Count(s, n, a, i, Red, n) == n / 2 && Count(s, n, a, i, Blue, n) == n / 2
  }

  /** `s` is a full grid every line of whose axis `a` is balanced. */
  ghost predicate BalancedFull(s: Cells, n: int, a: Axis) {
    AllCellsSet(s) && Square(s, n) && AxisBalanced(s, n, a)
  }

  /** Treating a line never contradicts a full balanced grid that extends the input. */
  lemma BalanceLineExtends(cells: Cells, n: int, a: Axis, i: int, s: Cells)
    requires Square(cells, n) && 0 <= i < n
    requires Narrowed(cells, s) && BalancedFull(s, n, a)
    ensures Narrowed(BalanceLine(cells, n, a, i), s)
  {
    match Forced(cells, n, a, i)
    case None =>
    case Some(c) =>
      var o := Opposite(c);
      CountNarrowed(cells, s, n, a, i, o, n);
      forall k | k in cells && OnLine(k, a, i) && cells[k] == Unset
        ensures s[k] == c
      {
        PosOnLine(n, a, k);
        assert s[k] != o;
        assert s[k] in {Red, Blue};
      }
  }

  /**
    Treating the lines `0 .. hi - 1` never contradicts such a grid either:
    each cell it sets is what its line's treatment of the input sets.
  */
  lemma BalanceAxisExtends(cells: Cells, n: int, a: Axis, hi: int, s: Cells)
    requires Square(cells, n) && 0 <= hi <= n
    requires Narrowed(cells, s) && BalancedFull(s, n, a)
    ensures Narrowed(BalanceAxis(cells, n, a, hi), s)
  {
    var res := BalanceAxis(cells, n, a, hi);
    forall k | k in res && res[k] != Unset
      ensures s[k] == res[k]
    {
      BalanceAxisEffect(cells, n, a, hi, k);
      if LineOf(a, k) < hi {
        BalanceLineExtends(cells, n, a, LineOf(a, k), s);
        BalanceLineEffect(cells, n, a, LineOf(a, k), k);
      }
    }
  }

  /** `full_colour` never contradicts a full grid, extending its input, whose lines are all balanced. */
  lemma FullColourExtends(cells: Cells, n: int, s: Cells)
    requires Square(cells, n) && 0 <= n
    requires Narrowed(cells, s) && AllCellsSet(s) && Square(s, n)
    requires AxisBalanced(s, n, Row) && AxisBalanced(s, n, Col)
    ensures Narrowed(FullColour(cells, n), s)
  {
    BalanceAxisExtends(cells, n, Row, n, s);
    BalanceAxisExtends(BalanceAxis(cells, n, Row, n), n, Col, n, s);
  }
}
