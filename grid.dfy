/**
  The 0hh1 grid: an `n × n` map from (row, column) to a cell that is red,
  blue or still unset, together with the counting functions on one line
  (a row or a column) that the propagators and the evaluator share.
*/
module Grid {

  datatype Cell = Red | Blue | Unset

  type Coord = (int, int)
  type Cells = map<Coord, Cell>

  /** The other colour; `Unset` has none. */
  function Opposite(c: Cell): (o: Cell)
    requires c != Unset
    ensures o != Unset && o != c
  {
    if c == Red then Blue else Red
  }

  /** The keys are exactly the coordinates of an `n × n` grid. */
  ghost predicate Square(cells: Cells, n: int) {
    forall k :: k in cells <==> 0 <= k.0 < n && 0 <= k.1 < n
  }

  /** `after` is `before` with some unset cells set to a colour: no decided cell changed. */
  ghost predicate Narrowed(before: Cells, after: Cells) {
    after.Keys == before.Keys &&
    forall k :: k in before && before[k] != Unset ==> after[k] == before[k]
  }

  /** Every cell is red or blue (`solved` of the source). */
  function AllCellsSet(cells: Cells): (b: bool) {
    forall k :: k in cells ==> cells[k] in {Red, Blue}
  }

  ghost function UnsetKeys(cells: Cells): set<Coord> {
    set k | k in cells && cells[k] == Unset
  }

  /** The number of `'.'` cells: the termination measure of propagation and search. */
  ghost function UnsetCount(cells: Cells): nat {
    |UnsetKeys(cells)|
  }

  lemma AllCellsSetIffNoUnset(cells: Cells)
    ensures AllCellsSet(cells) <==> UnsetCount(cells) == 0
  {
    if !AllCellsSet(cells) {
      var k :| k in cells && cells[k] !in {Red, Blue};
      assert k in UnsetKeys(cells);
    }
  }

  lemma NarrowedRefl(c: Cells)
    ensures Narrowed(c, c)
  {}

  lemma NarrowedTrans(a: Cells, b: Cells, c: Cells)
    requires Narrowed(a, b) && Narrowed(b, c)
    ensures Narrowed(a, c)
  {}

  /** Narrowing never increases the number of unset cells, and any change decreases it strictly. */
  lemma NarrowedUnsetCount(a: Cells, b: Cells)
    requires Narrowed(a, b)
    ensures UnsetCount(b) <= UnsetCount(a)
    ensures a != b ==> UnsetCount(b) < UnsetCount(a)
  {
    SubsetCard(UnsetKeys(b), UnsetKeys(a));
    if a != b {
      var k :| k in a && a[k] != b[k];
      assert k in UnsetKeys(a) && k !in UnsetKeys(b);
      SubsetCard(UnsetKeys(b), UnsetKeys(a) - {k});
    }
  }

  lemma SubsetCard<T>(s: set<T>, t: set<T>)
    requires s <= t
    ensures |s| <= |t|
  {
    assert t == s + (t - s);
    assert |t| == |s| + |t - s|;
  }

  /** Two narrowing steps change the grid exactly when one of them does. */
  lemma NarrowedChain(a: Cells, b: Cells, c: Cells)
    requires Narrowed(a, b) && Narrowed(b, c)
    ensures a != c <==> (a != b || b != c)
  {
    if a != b {
      var k :| k in a && a[k] != b[k];
      assert c[k] == b[k];
    }
  }

  /** Setting an unset cell to a colour narrows the grid and removes one unset cell. */
  lemma SetCellNarrows(cells: Cells, k: Coord, c: Cell)
    requires k in cells && cells[k] == Unset && c != Unset
    ensures Narrowed(cells, cells[k := c])
    ensures UnsetCount(cells[k := c]) < UnsetCount(cells)
  {
    NarrowedUnsetCount(cells, cells[k := c]);
  }

  // ---------------------------------------------------------------- lines

  /** A line is a row or a column; `Pos(a, i, j)` is the `j`-th cell of line `i` on axis `a`. */
  datatype Axis = Row | Col

  function Pos(a: Axis, i: int, j: int): Coord {
    if a == Row then (i, j) else (j, i)
  }

  /** The number of cells among the first `hi` of line `i` whose colour is `c`. */
  function Count(cells: Cells, n: int, a: Axis, i: int, c: Cell, hi: int): (r: nat)
    requires Square(cells, n) && 0 <= i < n && 0 <= hi <= n
    ensures r <= hi
    decreases hi
  {
    if hi == 0 then 0
    else Count(cells, n, a, i, c, hi - 1) + (if cells[Pos(a, i, hi - 1)] == c then 1 else 0)
  }

  /** On a line with no unset cell, the reds and the blues together fill the line. */
  lemma {:induction false} CountFullLine(cells: Cells, n: int, a: Axis, i: int, hi: int)
    requires Square(cells, n) && 0 <= i < n && 0 <= hi <= n
    requires forall j :: 0 <= j < hi ==> cells[Pos(a, i, j)] != Unset
    ensures Count(cells, n, a, i, Red, hi) + Count(cells, n, a, i, Blue, hi) == hi
    decreases hi
  {
    if hi > 0 {
      CountFullLine(cells, n, a, i, hi - 1);
    }
  }

  /** Counts of one line depend on that line only. */
  lemma {:induction false} CountSameLine(c1: Cells, c2: Cells, n: int, a: Axis, i: int, c: Cell, hi: int)
    requires Square(c1, n) && Square(c2, n) && 0 <= i < n && 0 <= hi <= n
    requires forall j :: 0 <= j < hi ==> c1[Pos(a, i, j)] == c2[Pos(a, i, j)]
    ensures Count(c1, n, a, i, c, hi) == Count(c2, n, a, i, c, hi)
    decreases hi
  {
    if hi > 0 {
      CountSameLine(c1, c2, n, a, i, c, hi - 1);
    }
  }

  /**
    Narrowing can only add cells of a colour; when the count of that colour
    stays the same, every cell of that colour was already there.
  */
  lemma {:induction false} CountNarrowed(before: Cells, after: Cells, n: int, a: Axis, i: int, c: Cell, hi: int)
    requires Square(before, n) && Narrowed(before, after) && 0 <= i < n && 0 <= hi <= n && c != Unset
    ensures Square(after, n)
    ensures Count(before, n, a, i, c, hi) <= Count(after, n, a, i, c, hi)
    ensures Count(before, n, a, i, c, hi) == Count(after, n, a, i, c, hi) ==>
              forall j :: 0 <= j < hi && after[Pos(a, i, j)] == c ==> before[Pos(a, i, j)] == c
    decreases hi
  {
    assert after.Keys == before.Keys;
    if hi > 0 {
      CountNarrowed(before, after, n, a, i, c, hi - 1);
    }
  }
}
