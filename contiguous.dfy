/**
  The no-three-in-a-row propagator (`eliminate_contiguous_line` and
  `eliminate_contiguous`) as pure functions. A window is a block of cells
  visited in row-major order together with a mask naming the two cells
  that count as contiguous with each visited cell. Cells are overwritten
  as the scan goes, so a cell set early in a scan can force a later one:
  the passes below are left folds of one visit, `Force`, in that order.
*/
module Contiguous {
  import opened Grid

  /** A Python `range(lo, hi)`: empty when `hi <= lo`. */
  datatype Range = Range(lo: int, hi: int)

  type Offset = (int, int)

  /** The cells `rows × cols` and the two neighbour offsets of the mask. */
  datatype Window = Window(rows: Range, cols: Range, d0: Offset, d1: Offset)

  /** Where a loop over the range stops. */
  function End(rg: Range): int {
    if rg.hi < rg.lo then rg.lo else rg.hi
  }

  predicate InRange(rg: Range, x: int) {
    rg.lo <= x < rg.hi
  }

  predicate InWindow(w: Window, p: Coord) {
    InRange(w.rows, p.0) && InRange(w.cols, p.1)
  }

  function Shift(p: Coord, d: Offset): Coord {
    (p.0 + d.0, p.1 + d.1)
  }

  /** Each index of a non-empty range, shifted by either offset, stays in `[0, n)`. */
  predicate RangeFits(rg: Range, e0: int, e1: int, n: int) {
    rg.hi <= rg.lo ||
    (0 <= rg.lo && rg.hi <= n &&
     0 <= rg.lo + e0 && rg.hi + e0 <= n &&
     0 <= rg.lo + e1 && rg.hi + e1 <= n)
  }

  predicate Fits(w: Window, n: int) {
    RangeFits(w.rows, w.d0.0, w.d1.0, n) && RangeFits(w.cols, w.d0.1, w.d1.1, n)
  }

  /** Every visited cell and both its masked neighbours are cells of the `n × n` grid. */
  lemma NeighboursInGrid(cells: Cells, n: int, w: Window, p: Coord)
    requires Square(cells, n) && Fits(w, n) && InWindow(w, p)
    ensures p in cells && Shift(p, w.d0) in cells && Shift(p, w.d1) in cells
  {}

  /**
    The six windows `eliminate_contiguous` scans, in its order: along the
    columns with the two cells below, the two above and the two around; then
    along the rows with the two to the right, the two to the left and the
    two around.
  */
  function Windows(n: int): (ws: seq<Window>)
    ensures |ws| == 6
    ensures forall w :: w in ws ==> Fits(w, n)
    ensures forall k :: 0 <= k < |ws| ==> Fits(ws[k], n)
    ensures forall w :: w in ws ==> w.d0 != (0, 0) && w.d1 != (0, 0) && w.d0 != w.d1
  {
    [ Window(Range(0, n - 2), Range(0, n), (1, 0), (2, 0)),
      Window(Range(2, n), Range(0, n), (-1, 0), (-2, 0)),
      Window(Range(1, n - 1), Range(0, n), (1, 0), (-1, 0)),
      Window(Range(0, n), Range(0, n - 2), (0, 1), (0, 2)),
      Window(Range(0, n), Range(2, n), (0, -1), (0, -2)),
      Window(Range(0, n), Range(1, n - 1), (0, 1), (0, -1)) ]
  }

  /**
    One visit at `p`: a set cell is skipped; an unset cell whose two masked
    neighbours are both red becomes blue, both blue becomes red.
  */
  function Force(cells: Cells, p: Coord, w: Window): (res: Cells)
    requires p in cells && Shift(p, w.d0) in cells && Shift(p, w.d1) in cells
    ensures Narrowed(cells, res) && res == cells[p := res[p]]
  {
    if cells[p] != Unset then cells
    else
      var c1, c2 := cells[Shift(p, w.d0)], cells[Shift(p, w.d1)];
      if c1 == c2 && c2 == Red then cells[p := Blue]
      else if c1 == c2 && c2 == Blue then cells[p := Red]
      else cells
  }

  /** Visits `(r, c)` for `c` from `w.cols.lo` up to `hi - 1`, in order. */
  ghost function RowPass(cells: Cells, n: int, w: Window, r: int, hi: int): (res: Cells)
    requires Square(cells, n) && Fits(w, n) && InRange(w.rows, r)
    requires w.cols.lo <= hi <= End(w.cols)
    ensures Square(res, n) && Narrowed(cells, res)
    decreases hi - w.cols.lo
  {
    if hi == w.cols.lo then cells
    else
      var mid := RowPass(cells, n, w, r, hi - 1);
      NeighboursInGrid(mid, n, w, (r, hi - 1));
      Force(mid, (r, hi - 1), w)
  }

  /** Visits the rows of the window from `w.rows.lo` up to `hi - 1`, in order. */
  ghost function WindowPass(cells: Cells, n: int, w: Window, hi: int): (res: Cells)
    requires Square(cells, n) && Fits(w, n)
    requires w.rows.lo <= hi <= End(w.rows)
    ensures Square(res, n) && Narrowed(cells, res)
    decreases hi - w.rows.lo
  {
    if hi == w.rows.lo then cells
    else RowPass(WindowPass(cells, n, w, hi - 1), n, w, hi - 1, End(w.cols))
  }

  /** The whole scan of one window: `eliminate_contiguous_line`. */
  ghost function LinePass(cells: Cells, n: int, w: Window): (res: Cells)
    requires Square(cells, n) && Fits(w, n)
    ensures Square(res, n) && Narrowed(cells, res)
  {
    WindowPass(cells, n, w, End(w.rows))
  }

  /** The scans of `ws`, one after the other. */
  ghost function Sweep(cells: Cells, n: int, ws: seq<Window>): (res: Cells)
    requires Square(cells, n) && forall w :: w in ws ==> Fits(w, n)
    ensures Square(res, n) && Narrowed(cells, res)
    decreases |ws|
  {
    if ws == [] then cells
    else Sweep(LinePass(cells, n, ws[0]), n, ws[1..])
  }

  /** `eliminate_contiguous`: the six scans in order. */
  ghost function EliminateContiguous(cells: Cells, n: int): (res: Cells)
    requires Square(cells, n)
    ensures Square(res, n) && Narrowed(cells, res)
  {
    Sweep(cells, n, Windows(n))
  }

  // ------------------------------------------------------------ frame

  /** A row scan writes only the cells it has visited. */
  lemma {:induction false} RowPassFrame(cells: Cells, n: int, w: Window, r: int, hi: int, p: Coord)
    requires Square(cells, n) && Fits(w, n) && InRange(w.rows, r)
    requires w.cols.lo <= hi <= End(w.cols)
    requires p in cells && !(p.0 == r && w.cols.lo <= p.1 < hi)
    ensures RowPass(cells, n, w, r, hi)[p] == cells[p]
    decreases hi - w.cols.lo
  {
    if hi > w.cols.lo {
      RowPassFrame(cells, n, w, r, hi - 1, p);
    }
  }

  /** A window scan writes only cells of the rows it has visited. */
  lemma {:induction false} WindowPassFrame(cells: Cells, n: int, w: Window, hi: int, p: Coord)
    requires Square(cells, n) && Fits(w, n)
    requires w.rows.lo <= hi <= End(w.rows)
    requires p in cells && !(w.rows.lo <= p.0 < hi)
    ensures WindowPass(cells, n, w, hi)[p] == cells[p]
    decreases hi - w.rows.lo
  {
    if hi > w.rows.lo {
      WindowPassFrame(cells, n, w, hi - 1, p);
      RowPassFrame(WindowPass(cells, n, w, hi - 1), n, w, hi - 1, End(w.cols), p);
    }
  }

  /** `eliminate_contiguous_line` leaves every cell outside its `rows × cols` alone. */
  lemma LinePassFrame(cells: Cells, n: int, w: Window, p: Coord)
    requires Square(cells, n) && Fits(w, n)
    requires p in cells && !InWindow(w, p)
    ensures LinePass(cells, n, w)[p] == cells[p]
  {
    if w.rows.lo <= p.0 < End(w.rows) {
      assert !InRange(w.cols, p.1);
      LinePassColumnsFrame(cells, n, w, End(w.rows), p);
    } else {
      WindowPassFrame(cells, n, w, End(w.rows), p);
    }
  }

  lemma {:induction false} LinePassColumnsFrame(cells: Cells, n: int, w: Window, hi: int, p: Coord)
    requires Square(cells, n) && Fits(w, n)
    requires w.rows.lo <= hi <= End(w.rows)
    requires p in cells && !InRange(w.cols, p.1)
    ensures WindowPass(cells, n, w, hi)[p] == cells[p]
    decreases hi - w.rows.lo
  {
    if hi > w.rows.lo {
      LinePassColumnsFrame(cells, n, w, hi - 1, p);
      RowPassFrame(WindowPass(cells, n, w, hi - 1), n, w, hi - 1, End(w.cols), p);
    }
  }

  // ---------------------------------------------------------- forcing

  /** A longer row scan only narrows a shorter one. */
  lemma {:induction false} RowPassGrows(cells: Cells, n: int, w: Window, r: int, lo: int, hi: int)
    requires Square(cells, n) && Fits(w, n) && InRange(w.rows, r)
    requires w.cols.lo <= lo <= hi <= End(w.cols)
    ensures Narrowed(RowPass(cells, n, w, r, lo), RowPass(cells, n, w, r, hi))
    decreases hi - lo
  {
    if lo == hi {
      NarrowedRefl(RowPass(cells, n, w, r, lo));
    } else {
      RowPassGrows(cells, n, w, r, lo, hi - 1);
      NarrowedTrans(RowPass(cells, n, w, r, lo), RowPass(cells, n, w, r, hi - 1), RowPass(cells, n, w, r, hi));
    }
  }

  /** A longer window scan only narrows a shorter one. */
  lemma {:induction false} WindowPassGrows(cells: Cells, n: int, w: Window, lo: int, hi: int)
    requires Square(cells, n) && Fits(w, n)
    requires w.rows.lo <= lo <= hi <= End(w.rows)
    ensures Narrowed(WindowPass(cells, n, w, lo), WindowPass(cells, n, w, hi))
    decreases hi - lo
  {
    if lo == hi {
      NarrowedRefl(WindowPass(cells, n, w, lo));
    } else {
      WindowPassGrows(cells, n, w, lo, hi - 1);
      NarrowedTrans(WindowPass(cells, n, w, lo), WindowPass(cells, n, w, hi - 1), WindowPass(cells, n, w, hi));
    }
  }

  /** The visit of `p` in the scan of its row: the cells before it leave `p` and its neighbours as they were. */
  lemma RowPassForces(cells: Cells, n: int, w: Window, p: Coord, c: Cell)
    requires Square(cells, n) && Fits(w, n) && InWindow(w, p)
    requires c != Unset && cells[p] == Unset
    requires cells[Shift(p, w.d0)] == c && cells[Shift(p, w.d1)] == c
    ensures RowPass(cells, n, w, p.0, p.1 + 1)[p] == Opposite(c)
  {
    var mid := RowPass(cells, n, w, p.0, p.1);
    NeighboursInGrid(cells, n, w, p);
    RowPassFrame(cells, n, w, p.0, p.1, p);
    assert mid[Shift(p, w.d0)] == c && mid[Shift(p, w.d1)] == c;
  }

  /** The row of `p` in a window scan: the rows before it leave `p` and its neighbours' colours as they were. */
  lemma RowScanForces(cells: Cells, n: int, w: Window, p: Coord, c: Cell)
    requires Square(cells, n) && Fits(w, n) && InWindow(w, p)
    requires c != Unset && cells[p] == Unset
    requires cells[Shift(p, w.d0)] == c && cells[Shift(p, w.d1)] == c
    ensures WindowPass(cells, n, w, p.0 + 1)[p] == Opposite(c)
  {
    var mid := WindowPass(cells, n, w, p.0);
    NeighboursInGrid(cells, n, w, p);
    WindowPassFrame(cells, n, w, p.0, p);
    assert mid[Shift(p, w.d0)] == c && mid[Shift(p, w.d1)] == c;
    RowPassForces(mid, n, w, p, c);
    RowPassGrows(mid, n, w, p.0, p.1 + 1, End(w.cols));
  }

  /**
    `eliminate_contiguous_line`: an unset cell of `rows × cols` whose two
    masked neighbours are both red becomes blue, both blue becomes red.
  */
  lemma LinePassForces(cells: Cells, n: int, w: Window, p: Coord, c: Cell)
    requires Square(cells, n) && Fits(w, n) && InWindow(w, p)
    requires c != Unset && cells[p] == Unset
    requires cells[Shift(p, w.d0)] == c && cells[Shift(p, w.d1)] == c
    ensures LinePass(cells, n, w)[p] == Opposite(c)
  {
    RowScanForces(cells, n, w, p, c);
    WindowPassGrows(cells, n, w, p.0 + 1, End(w.rows));
  }

  // ---------------------------------------------------- justification

  /** `p` is set and both its masked neighbours hold the other colour. */
  ghost predicate Justified(s: Cells, p: Coord, w: Window) {
    p in s && Shift(p, w.d0) in s && Shift(p, w.d1) in s && s[p] != Unset &&
    s[Shift(p, w.d0)] == Opposite(s[p]) && s[Shift(p, w.d1)] == Opposite(s[p])
  }

  /** A justified cell stays justified under any narrowing. */
  lemma JustifiedKept(a: Cells, b: Cells, p: Coord, w: Window)
    requires Narrowed(a, b) && Justified(a, p, w)
    ensures Justified(b, p, w)
  {
    assert b[p] == a[p];
  }

  /** A visit that writes its cell justifies it. */
  lemma ForceJustified(cells: Cells, p: Coord, w: Window)
    requires p in cells && Shift(p, w.d0) in cells && Shift(p, w.d1) in cells
    requires Force(cells, p, w)[p] != cells[p]
    ensures Justified(Force(cells, p, w), p, w)
  {}

  /** A cell a row scan sets was visited, and is justified at the end of the scan. */
  lemma {:induction false} RowPassJustified(cells: Cells, n: int, w: Window, r: int, hi: int, p: Coord)
    requires Square(cells, n) && Fits(w, n) && InRange(w.rows, r)
    requires w.cols.lo <= hi <= End(w.cols)
    requires p in cells && cells[p] == Unset
    requires RowPass(cells, n, w, r, hi)[p] != Unset
    ensures p.0 == r && w.cols.lo <= p.1 < hi
    ensures Justified(RowPass(cells, n, w, r, hi), p, w)
    decreases hi - w.cols.lo
  {
    var mid := RowPass(cells, n, w, r, hi - 1);
    NeighboursInGrid(cells, n, w, (r, hi - 1));
    if mid[p] != Unset {
      RowPassJustified(cells, n, w, r, hi - 1, p);
      JustifiedKept(mid, RowPass(cells, n, w, r, hi), p, w);
    } else {
      assert p == (r, hi - 1);
      ForceJustified(mid, p, w);
    }
  }

  lemma {:induction false} WindowPassJustified(cells: Cells, n: int, w: Window, hi: int, p: Coord)
    requires Square(cells, n) && Fits(w, n)
    requires w.rows.lo <= hi <= End(w.rows)
    requires p in cells && cells[p] == Unset
    requires WindowPass(cells, n, w, hi)[p] != Unset
    ensures w.rows.lo <= p.0 < hi && InRange(w.cols, p.1)
    ensures Justified(WindowPass(cells, n, w, hi), p, w)
    decreases hi - w.rows.lo
  {
    var mid := WindowPass(cells, n, w, hi - 1);
    if mid[p] != Unset {
      WindowPassJustified(cells, n, w, hi - 1, p);
      JustifiedKept(mid, WindowPass(cells, n, w, hi), p, w);
    } else {
      RowPassJustified(mid, n, w, hi - 1, End(w.cols), p);
    }
  }

  /**
    `eliminate_contiguous_line` sets a cell only if it lies in `rows × cols`,
    and then both its masked neighbours hold the other colour.
  */
  lemma LinePassJustified(cells: Cells, n: int, w: Window, p: Coord)
    requires Square(cells, n) && Fits(w, n)
    requires p in cells && cells[p] == Unset && LinePass(cells, n, w)[p] != Unset
    ensures InWindow(w, p)
    ensures var res := LinePass(cells, n, w);
            res[Shift(p, w.d0)] == Opposite(res[p]) && res[Shift(p, w.d1)] == Opposite(res[p])
  {
    WindowPassJustified(cells, n, w, End(w.rows), p);
  }

  // -------------------------------------------------------- soundness

  /** No visited cell of `w` has, in `s`, the colour of both its masked neighbours. */
  ghost predicate NoRun(s: Cells, n: int, w: Window)
    requires Square(s, n) && Fits(w, n)
  {
    forall p :: InWindow(w, p) ==> !(s[p] == s[Shift(p, w.d0)] && s[p] == s[Shift(p, w.d1)])
  }

  /** A row scan never contradicts a full grid `s` that extends its input and has no run through `w`. */
  lemma {:induction false} RowPassExtends(cells: Cells, n: int, w: Window, r: int, hi: int, s: Cells)
    requires Square(cells, n) && Fits(w, n) && InRange(w.rows, r)
    requires w.cols.lo <= hi <= End(w.cols)
    requires Narrowed(cells, s) && AllCellsSet(s) && Square(s, n) && NoRun(s, n, w)
    ensures Narrowed(RowPass(cells, n, w, r, hi), s)
    decreases hi - w.cols.lo
  {
    if hi > w.cols.lo {
      RowPassExtends(cells, n, w, r, hi - 1, s);
      var mid := RowPass(cells, n, w, r, hi - 1);
      var p := (r, hi - 1);
      NeighboursInGrid(mid, n, w, p);
      assert InWindow(w, p);
      assert s[p] in {Red, Blue};
    }
  }

  lemma {:induction false} WindowPassExtends(cells: Cells, n: int, w: Window, hi: int, s: Cells)
    requires Square(cells, n) && Fits(w, n)
    requires w.rows.lo <= hi <= End(w.rows)
    requires Narrowed(cells, s) && AllCellsSet(s) && Square(s, n) && NoRun(s, n, w)
    ensures Narrowed(WindowPass(cells, n, w, hi), s)
    decreases hi - w.rows.lo
  {
    if hi > w.rows.lo {
      WindowPassExtends(cells, n, w, hi - 1, s);
      RowPassExtends(WindowPass(cells, n, w, hi - 1), n, w, hi - 1, End(w.cols), s);
    }
  }

  /** The six scans never contradict a full grid that extends the input and has no run through any window. */
  lemma {:induction false} SweepExtends(cells: Cells, n: int, ws: seq<Window>, s: Cells)
    requires Square(cells, n) && forall w :: w in ws ==> Fits(w, n)
    requires Narrowed(cells, s) && AllCellsSet(s) && Square(s, n)
    requires forall w :: w in ws ==> NoRun(s, n, w)
    ensures Narrowed(Sweep(cells, n, ws), s)
    decreases |ws|
  {
    if ws != [] {
      WindowPassExtends(cells, n, ws[0], End(ws[0].rows), s);
      SweepExtends(LinePass(cells, n, ws[0]), n, ws[1..], s);
    }
  }
}
