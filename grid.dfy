/** The playing field: a rectangle of cells, 0 for empty and 1..Colours for a
    colour index, stored row by row. */
module Grid {

  /** Pixels per cell on the canvas; the arena size is derived from it. */
  const Scale: int := 24
  /** Columns of the arena: 12 * 20 pixels over Scale (see ArenaSize). */
  const Width: int := 10
  /** Rows of the arena: 20 * 20 pixels over Scale, truncated (see ArenaSize). */
  const Height: int := 16
  /** Palette entries 1..7; entry 0 of the palette is "no colour". */
  const Colours: int := 7

  /** createMatrix(12 * 20 / SCALE | 0, 20 * 20 / SCALE | 0): the operands are
      positive, so truncation is integer division. */
  lemma ArenaSize()
    ensures Width == 12 * 20 / Scale && Height == 20 * 20 / Scale
  {
  }

  /** A snapshot of a matrix: a sequence of rows. */
  type Grid = seq<seq<int>>

  ghost predicate IsGrid(g: Grid, h: nat, w: nat) {
    |g| == h && forall i :: 0 <= i < h ==> |g[i]| == w
  }

  /** Every cell is empty or a palette colour. */
  ghost predicate IsColourGrid(g: Grid) {
    forall i, j :: 0 <= i < |g| && 0 <= j < |g[i]| ==> 0 <= g[i][j] <= Colours
  }

  predicate OnGrid(g: Grid, x: int, y: int) {
    0 <= y < |g| && 0 <= x < |g[y]|
  }

  /** The first `n` cells of row `i` of an array. */
  function RowPrefix(a: array2<int>, i: nat, n: nat): (r: seq<int>)
    requires i < a.Length0 && n <= a.Length1
    reads a
    ensures |r| == n
  {
    if n == 0 then [] else RowPrefix(a, i, n - 1) + [a[i, n - 1]]
  }

  lemma {:induction false} RowPrefixAt(a: array2<int>, i: nat, n: nat)
    requires i < a.Length0 && n <= a.Length1
    ensures forall j :: 0 <= j < n ==> RowPrefix(a, i, n)[j] == a[i, j]
  {
    if n > 0 {
      RowPrefixAt(a, i, n - 1);
    }
  }

  /** The first `n` rows of an array. */
  function RowsPrefix(a: array2<int>, n: nat): (g: seq<seq<int>>)
    requires n <= a.Length0
    reads a
    ensures |g| == n
  {
    if n == 0 then [] else RowsPrefix(a, n - 1) + [RowPrefix(a, n - 1, a.Length1)]
  }

  lemma {:induction false} RowsPrefixAt(a: array2<int>, n: nat)
    requires n <= a.Length0
    ensures forall i :: 0 <= i < n ==> RowsPrefix(a, n)[i] == RowPrefix(a, i, a.Length1)
  {
    if n > 0 {
      RowsPrefixAt(a, n - 1);
    }
  }

  lemma CellsAt(a: array2<int>)
    ensures forall i :: 0 <= i < a.Length0 ==> |RowsPrefix(a, a.Length0)[i]| == a.Length1
    ensures forall i, j :: 0 <= i < a.Length0 && 0 <= j < a.Length1 ==> RowsPrefix(a, a.Length0)[i][j] == a[i, j]
  {
    RowsPrefixAt(a, a.Length0);
    forall i | 0 <= i < a.Length0
      ensures forall j :: 0 <= j < a.Length1 ==> RowsPrefix(a, a.Length0)[i][j] == a[i, j]
    {
      RowPrefixAt(a, i, a.Length1);
    }
  }

  /** The value of a two-dimensional array, row by row. */
  function Cells(a: array2<int>): (g: Grid)
    reads a
    ensures IsGrid(g, a.Length0, a.Length1)
    ensures forall i, j {:trigger a[i, j]} {:trigger g[i][j]} :: 0 <= i < a.Length0 && 0 <= j < a.Length1 ==> g[i][j] == a[i, j]
  {
    CellsAt(a);
    RowsPrefix(a, a.Length0)
  }

  /** Two grids of the same shape that agree on every cell are equal. */
  lemma GridExt(g: Grid, h: Grid, rows: nat, cols: nat)
    requires IsGrid(g, rows, cols) && IsGrid(h, rows, cols)
    requires forall i, j :: 0 <= i < rows && 0 <= j < cols ==> g[i][j] == h[i][j]
    ensures g == h
  {
    forall i | 0 <= i < rows ensures g[i] == h[i] {
      assert |g[i]| == |h[i]| == cols;
    }
  }

  /** The array holds exactly the grid `g`. */
  ghost predicate Holds(a: array2<int>, g: Grid)
    reads a
  {
    IsGrid(g, a.Length0, a.Length1) &&
    forall i, j :: 0 <= i < a.Length0 && 0 <= j < a.Length1 ==> a[i, j] == g[i][j]
  }

  lemma HoldsCells(a: array2<int>, g: Grid)
    requires Holds(a, g)
    ensures Cells(a) == g
  {
    GridExt(Cells(a), g, a.Length0, a.Length1);
  }

  /** `g` with the cell in row `y`, column `x` replaced by `v`. */
  function Set(g: Grid, y: nat, x: nat, v: int): (r: Grid)
    requires y < |g| && x < |g[y]|
    ensures |r| == |g| && forall i :: 0 <= i < |g| ==> |r[i]| == |g[i]|
    ensures forall i, j :: 0 <= i < |g| && 0 <= j < |g[i]| ==>
      r[i][j] == if i == y && j == x then v else g[i][j]
  {
    g[y := g[y][x := v]]
  }

  /** An array whose elements did not change has the same snapshot. */
  twostate lemma Unchanged(a: array2<int>)
    requires unchanged(a)
    ensures Cells(a) == old(Cells(a))
  {
    GridExt(Cells(a), old(Cells(a)), a.Length0, a.Length1);
  }

  /** One array write, seen on the grid. */
  method Put(a: array2<int>, y: nat, x: nat, v: int)
    requires y < a.Length0 && x < a.Length1
    modifies a
    ensures Cells(a) == Set(old(Cells(a)), y, x, v)
  {
    ghost var before := Cells(a);
    a[y, x] := v;
    GridExt(Cells(a), Set(before, y, x, v), a.Length0, a.Length1);
  }

  /** The grid of `h` rows of `w` zeros. */
  function Empty(h: nat, w: nat): (g: Grid)
    ensures IsGrid(g, h, w)
  {
    seq(h, _ => seq(w, _ => 0))
  }

  ghost predicate IsEmpty(g: Grid) {
    forall i, j :: 0 <= i < |g| && 0 <= j < |g[i]| ==> g[i][j] == 0
  }

  // ---------------------------------------------------------------- columns

  /** Column `x` of `g`, top row first. */
  function Column(g: Grid, x: nat): (c: seq<int>)
    requires forall i :: 0 <= i < |g| ==> x < |g[i]|
    ensures |c| == |g| && forall i :: 0 <= i < |g| ==> c[i] == g[i][x]
  {
    seq(|g|, i requires 0 <= i < |g| => g[i][x])
  }

  /** The non-empty values of `s`, in order. */
  function NonZeros(s: seq<int>): (r: seq<int>)
    ensures |r| <= |s|
    ensures forall k :: 0 <= k < |r| ==> r[k] != 0
    ensures forall v :: v in r ==> v in s
  {
    if s == [] then []
    else if s[0] == 0 then NonZeros(s[1..])
    else [s[0]] + NonZeros(s[1..])
  }

  function Zeros(n: nat): (r: seq<int>)
    ensures |r| == n && forall k :: 0 <= k < n ==> r[k] == 0
  {
    seq(n, _ => 0)
  }

  function Sum(s: seq<nat>): nat {
    if s == [] then 0 else s[0] + Sum(s[1..])
  }

  /** Changing one entry changes the sum by the difference. */
  lemma {:induction false} SumSet(s: seq<nat>, k: nat, v: nat)
    requires k < |s|
    ensures Sum(s[k := v]) + s[k] == Sum(s) + v
  {
    if k > 0 {
      assert s[k := v][1..] == s[1..][k - 1 := v];
      SumSet(s[1..], k - 1, v);
    } else {
      assert s[k := v][1..] == s[1..];
    }
  }

  /** Number of non-empty cells in each of the `w` columns. */
  ghost function ColumnCounts(g: Grid, w: nat): (r: seq<nat>)
    requires IsGrid(g, |g|, w)
    ensures |r| == w
  {
    seq(w, x requires 0 <= x < w => |NonZeros(Column(g, x))|)
  }

  /** Number of non-empty cells of the grid. */
  ghost function Count(g: Grid, w: nat): nat
    requires IsGrid(g, |g|, w)
  {
    Sum(ColumnCounts(g, w))
  }

  /** Grids whose columns hold the same non-empty values have the same count. */
  lemma CountSameColumns(g: Grid, h: Grid, w: nat)
    requires IsGrid(g, |g|, w) && IsGrid(h, |h|, w)
    requires forall x :: 0 <= x < w ==> NonZeros(Column(g, x)) == NonZeros(Column(h, x))
    ensures Count(g, w) == Count(h, w)
  {
    assert ColumnCounts(g, w) == ColumnCounts(h, w);
  }

  /** Writing a value into a cell changes only that cell's column, at that row. */
  lemma ColumnsAfterSet(g: Grid, w: nat, y: nat, x: nat, v: int)
    requires IsGrid(g, |g|, w) && y < |g| && x < w
    ensures IsGrid(Set(g, y, x, v), |g|, w)
    ensures Column(Set(g, y, x, v), x) == Column(g, x)[y := v]
    ensures forall x' :: 0 <= x' < w && x' != x ==> Column(Set(g, y, x, v), x') == Column(g, x')
  {
    var r := Set(g, y, x, v);
    assert Column(r, x) == Column(g, x)[y := v];
    forall x' | 0 <= x' < w && x' != x ensures Column(r, x') == Column(g, x') {
    }
  }

  lemma {:induction false} NonZerosSetZero(s: seq<int>, k: nat)
    requires k < |s|
    ensures |NonZeros(s[k := 0])| + (if s[k] != 0 then 1 else 0) == |NonZeros(s)|
  {
    if k > 0 {
      assert s[k := 0][1..] == s[1..][k - 1 := 0];
      NonZerosSetZero(s[1..], k - 1);
    } else {
      assert s[k := 0][1..] == s[1..];
    }
  }

  /** Emptying a cell lowers the count by one exactly when the cell was occupied. */
  lemma CountSetZero(g: Grid, w: nat, y: nat, x: nat)
    requires IsGrid(g, |g|, w) && y < |g| && x < w
    ensures IsGrid(Set(g, y, x, 0), |g|, w)
    ensures Count(Set(g, y, x, 0), w) + (if g[y][x] != 0 then 1 else 0) == Count(g, w)
  {
    var r := Set(g, y, x, 0);
    ColumnsAfterSet(g, w, y, x, 0);
    NonZerosSetZero(Column(g, x), y);
    var cs := ColumnCounts(g, w);
    assert ColumnCounts(r, w) == cs[x := |NonZeros(Column(r, x))|];
    SumSet(cs, x, |NonZeros(Column(r, x))|);
  }

  // ---------------------------------------------------------------- creation

  /** createMatrix: `h` rows of `w` zeros, built one row at a time. */
  method CreateMatrix(w: nat, h: nat) returns (m: array2<int>)
    ensures fresh(m)
    ensures m.Length0 == h && m.Length1 == w
    ensures Cells(m) == Empty(h, w)
  {
    m := new int[h, w];
    var y := 0;
    while y < h
      invariant 0 <= y <= h
      invariant forall i, j :: 0 <= i < y && 0 <= j < w ==> m[i, j] == 0
    {
      var x := 0;
      while x < w
        invariant 0 <= x <= w
        invariant forall i, j :: 0 <= i < y && 0 <= j < w ==> m[i, j] == 0
        invariant forall j :: 0 <= j < x ==> m[y, j] == 0
      {
        m[y, x] := 0;
        x := x + 1;
      }
      y := y + 1;
    }
    GridExt(Cells(m), Empty(h, w), h, w);
  }

  /** Sets every cell of `a` to 0 (the reset after a top-out). */
  method Clear(a: array2<int>)
    modifies a
    ensures Cells(a) == Empty(a.Length0, a.Length1)
  {
    var y := 0;
    while y < a.Length0
      invariant 0 <= y <= a.Length0
      invariant forall i, j :: 0 <= i < y && 0 <= j < a.Length1 ==> a[i, j] == 0
    {
      var x := 0;
      while x < a.Length1
        invariant 0 <= x <= a.Length1
        invariant forall i, j :: 0 <= i < y && 0 <= j < a.Length1 ==> a[i, j] == 0
        invariant forall j :: 0 <= j < x ==> a[y, j] == 0
      {
        a[y, x] := 0;
        x := x + 1;
      }
      y := y + 1;
    }
    GridExt(Cells(a), Empty(a.Length0, a.Length1), a.Length0, a.Length1);
  }
}
