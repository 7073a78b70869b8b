/** toNormal: repeated top-to-bottom passes that move a non-empty cell one row
    down into an empty cell below it, until a pass moves nothing. */
module Gravity {
  import opened Grid

  /** No non-empty value sits directly above an empty one. */
  ghost predicate ColumnSettled(s: seq<int>) {
    forall i :: 0 <= i < |s| - 1 && s[i] != 0 ==> s[i + 1] != 0
  }

  /** The cell at row y, column x is non-empty and the one below it is empty. */
  ghost predicate Unsupported(g: Grid, y: nat, x: nat)
    requires y + 1 < |g| && x < |g[y]| && x < |g[y + 1]|
  {
    g[y][x] != 0 && g[y + 1][x] == 0
  }

  /** No non-empty cell of the grid sits directly above an empty one. */
  ghost predicate Settled(g: Grid, w: nat)
    requires IsGrid(g, |g|, w)
  {
    forall y, x :: 0 <= y < |g| - 1 && 0 <= x < w ==> !Unsupported(g, y, x)
  }

  /** Every column of a settled grid is settled. */
  lemma SettledColumns(g: Grid, w: nat)
    requires IsGrid(g, |g|, w) && Settled(g, w)
    ensures forall x :: 0 <= x < w ==> ColumnSettled(Column(g, x))
  {
    forall x, i | 0 <= x < w && 0 <= i < |g| - 1 && Column(g, x)[i] != 0
      ensures Column(g, x)[i + 1] != 0
    {
      assert !Unsupported(g, i, x);
    }
  }

  /** A column after everything in it has fallen: its empty cells on top, then
      its non-empty values in their original order. */
  function SettleColumn(s: seq<int>): (r: seq<int>)
    ensures |r| == |s|
  {
    Zeros(|s| - |NonZeros(s)|) + NonZeros(s)
  }

  // ---------------------------------------------------------------- columns

  lemma {:induction false} NonZerosAfterZeros(k: nat, t: seq<int>)
    ensures NonZeros(Zeros(k) + t) == NonZeros(t)
  {
    if k > 0 {
      var z := Zeros(k) + t;
      assert z[0] == 0 && z[1..] == Zeros(k - 1) + t;
      assert NonZeros(z) == NonZeros(z[1..]);
      NonZerosAfterZeros(k - 1, t);
    } else {
      assert Zeros(k) + t == t;
    }
  }

  lemma {:induction false} NonZerosOfNonZero(t: seq<int>)
    requires forall i :: 0 <= i < |t| ==> t[i] != 0
    ensures NonZeros(t) == t
  {
    if t != [] {
      NonZerosOfNonZero(t[1..]);
    }
  }

  /** A settled column keeps its non-empty values, and nothing is left unsupported. */
  lemma SettleColumnProps(s: seq<int>)
    ensures ColumnSettled(SettleColumn(s))
    ensures NonZeros(SettleColumn(s)) == NonZeros(s)
  {
    NonZerosAfterZeros(|s| - |NonZeros(s)|, NonZeros(s));
    NonZerosOfNonZero(NonZeros(s));
  }

  lemma {:induction false} AllNonZeroBelow(t: seq<int>)
    requires ColumnSettled(t) && t != [] && t[0] != 0
    ensures forall i :: 0 <= i < |t| ==> t[i] != 0
  {
    if |t| > 1 {
      assert ColumnSettled(t[1..]);
      AllNonZeroBelow(t[1..]);
      forall i | 0 <= i < |t| ensures t[i] != 0 {
        if i > 0 { assert t[i] == t[1..][i - 1]; }
      }
    }
  }

  /** A column with nothing unsupported is already its own settled form. */
  lemma {:induction false} SettledColumnIsSettle(t: seq<int>)
    requires ColumnSettled(t)
    ensures t == SettleColumn(t)
  {
    if t == [] {
    } else if t[0] == 0 {
      assert ColumnSettled(t[1..]);
      SettledColumnIsSettle(t[1..]);
      assert t == [0] + t[1..];
      assert NonZeros(t) == NonZeros(t[1..]);
      assert Zeros(|t| - |NonZeros(t)|) == [0] + Zeros(|t[1..]| - |NonZeros(t[1..])|);
    } else {
      AllNonZeroBelow(t);
      NonZerosOfNonZero(t);
    }
  }

  /** Settling is determined by the non-empty values: any settled column with the
      same length and the same non-empty values is the settled form. */
  lemma SettleUnique(s: seq<int>, t: seq<int>)
    requires |t| == |s| && ColumnSettled(t) && NonZeros(t) == NonZeros(s)
    ensures t == SettleColumn(s)
  {
    SettledColumnIsSettle(t);
  }

  /** Settling twice is settling once. */
  lemma SettleIdempotent(s: seq<int>)
    ensures SettleColumn(SettleColumn(s)) == SettleColumn(s)
  {
    SettleColumnProps(s);
    SettledColumnIsSettle(SettleColumn(s));
  }

  // ---------------------------------------------------------------- the potential

  /** Sum of the heights above the floor of the non-empty cells of a column
      (a cell at index i of n counts n - i). Every move down lowers it by one. */
  function ColumnPotential(s: seq<int>): nat {
    if s == [] then 0 else (if s[0] != 0 then |s| else 0) + ColumnPotential(s[1..])
  }

  /** One non-empty value moved down into the empty cell below it. */
  function SwapDown(s: seq<int>, i: nat): (r: seq<int>)
    requires i + 1 < |s|
    ensures |r| == |s|
  {
    s[i := 0][i + 1 := s[i]]
  }

  lemma {:induction false} SwapDownColumn(s: seq<int>, i: nat)
    requires i + 1 < |s| && s[i] != 0 && s[i + 1] == 0
    ensures NonZeros(SwapDown(s, i)) == NonZeros(s)
    ensures ColumnPotential(SwapDown(s, i)) + 1 == ColumnPotential(s)
  {
    var t := SwapDown(s, i);
    if i == 0 {
      assert t[1..][1..] == s[1..][1..];
      assert t[1..][0] == s[0];
    } else {
      assert t[1..] == SwapDown(s[1..], i - 1);
      SwapDownColumn(s[1..], i - 1);
    }
  }

  ghost function Potentials(g: Grid, w: nat): (r: seq<nat>)
    requires IsGrid(g, |g|, w)
    ensures |r| == w
  {
    seq(w, x requires 0 <= x < w => ColumnPotential(Column(g, x)))
  }

  ghost function Potential(g: Grid, w: nat): nat
    requires IsGrid(g, |g|, w)
  {
    Sum(Potentials(g, w))
  }

  /** The grid after toNormal's swap at row y, column x. */
  function SwapDownAt(g: Grid, y: nat, x: nat): (r: Grid)
    requires y + 1 < |g| && x < |g[y]| && x < |g[y + 1]|
  {
    Set(Set(g, y, x, 0), y + 1, x, g[y][x])
  }

  /** A swap keeps every column's non-empty values and lowers the potential by one. */
  lemma SwapDownGrid(g: Grid, w: nat, y: nat, x: nat)
    requires IsGrid(g, |g|, w) && y + 1 < |g| && x < w
    requires g[y][x] != 0 && g[y + 1][x] == 0
    ensures IsGrid(SwapDownAt(g, y, x), |g|, w)
    ensures forall x' :: 0 <= x' < w ==> NonZeros(Column(SwapDownAt(g, y, x), x')) == NonZeros(Column(g, x'))
    ensures Potential(SwapDownAt(g, y, x), w) + 1 == Potential(g, w)
  {
    var g1 := Set(g, y, x, 0);
    var r := SwapDownAt(g, y, x);
    ColumnsAfterSet(g, w, y, x, 0);
    ColumnsAfterSet(g1, w, y + 1, x, g[y][x]);
    assert Column(r, x) == SwapDown(Column(g, x), y);
    SwapDownColumn(Column(g, x), y);
    var ps := Potentials(g, w);
    assert Potentials(r, w) == ps[x := ColumnPotential(Column(r, x))];
    SumSet(ps, x, ColumnPotential(Column(r, x)));
  }

  // ---------------------------------------------------------------- the method

  /** The inner loop of one pass over row y: every cell of the row that has an
      empty cell below it moves down. */
  method PassRow(a: array2<int>, y: nat) returns (moved: bool)
    requires y + 1 < a.Length0
    modifies a
    ensures forall x :: 0 <= x < a.Length1 ==>
      NonZeros(Column(Cells(a), x)) == NonZeros(Column(old(Cells(a)), x))
    ensures moved ==> Potential(Cells(a), a.Length1) < Potential(old(Cells(a)), a.Length1)
    ensures !moved ==> Cells(a) == old(Cells(a))
    ensures !moved ==> forall j :: 0 <= j < a.Length1 ==> !Unsupported(Cells(a), y, j)
  {
    ghost var start := Cells(a);
    var h, w := a.Length0, a.Length1;
    moved := false;
    var x := 0;
    while x < w
      invariant 0 <= x <= w
      invariant forall x :: 0 <= x < w ==> NonZeros(Column(Cells(a), x)) == NonZeros(Column(start, x))
      invariant moved ==> Potential(Cells(a), w) < Potential(start, w)
      invariant !moved ==> Cells(a) == start
      invariant !moved ==> forall j :: 0 <= j < x ==> !Unsupported(start, y, j)
    {
      if a[y, x] != 0 && a[y + 1, x] == 0 {
        ghost var before := Cells(a);
        MoveDown(a, y, x);
        SwapDownGrid(before, w, y, x);
        moved := true;
      }
      x := x + 1;
    }
  }

  /** The cell at (y, x) falls into the empty cell below it. */
  method MoveDown(a: array2<int>, y: nat, x: nat)
    requires y + 1 < a.Length0 && x < a.Length1
    modifies a
    ensures Cells(a) == SwapDownAt(old(Cells(a)), y, x)
  {
    ghost var before := Cells(a);
    a[y + 1, x], a[y, x] := a[y, x], 0;
    GridExt(Cells(a), SwapDownAt(before, y, x), a.Length0, a.Length1);
  }

  /** One pass of the outer loop: rows 0 .. h - 2, top to bottom. */
  method Pass(a: array2<int>) returns (flag: bool)
    modifies a
    ensures forall x :: 0 <= x < a.Length1 ==>
      NonZeros(Column(Cells(a), x)) == NonZeros(Column(old(Cells(a)), x))
    ensures flag ==> Potential(Cells(a), a.Length1) < Potential(old(Cells(a)), a.Length1)
    ensures !flag ==> Cells(a) == old(Cells(a)) && Settled(Cells(a), a.Length1)
  {
    ghost var start := Cells(a);
    var h, w := a.Length0, a.Length1;
    flag := false;
    var y := 0;
    while y < h - 1
      invariant 0 <= y <= if h > 0 then h - 1 else 0
      invariant forall x :: 0 <= x < w ==> NonZeros(Column(Cells(a), x)) == NonZeros(Column(start, x))
      invariant flag ==> Potential(Cells(a), w) < Potential(start, w)
      invariant !flag ==> Cells(a) == start
      invariant !flag ==> forall i, j :: 0 <= i < y && 0 <= j < w ==> !Unsupported(start, i, j)
    {
      var moved := PassRow(a, y);
      if moved {
        flag := true;
      }
      y := y + 1;
    }
  }

  /** toNormal(arena). */
  method ToNormal(a: array2<int>)
    modifies a
    ensures Settled(Cells(a), a.Length1)
    ensures forall x :: 0 <= x < a.Length1 ==> Column(Cells(a), x) == SettleColumn(Column(old(Cells(a)), x))
  {
    ghost var g0 := Cells(a);
    var w := a.Length1;
    var flag := true;
    while flag
      invariant forall x :: 0 <= x < w ==> NonZeros(Column(Cells(a), x)) == NonZeros(Column(g0, x))
      invariant !flag ==> Settled(Cells(a), w)
      decreases Potential(Cells(a), w), if flag then 1 else 0
    {
      flag := Pass(a);
    }
    SettledColumns(Cells(a), w);
    forall x | 0 <= x < w
      ensures Column(Cells(a), x) == SettleColumn(Column(g0, x))
    {
      SettleUnique(Column(g0, x), Column(Cells(a), x));
    }
  }

  // ---------------------------------------------------------------- what follows for the grid

  /** Settling every column keeps the number of non-empty cells and the palette range. */
  lemma SettleKeepsCells(g: Grid, r: Grid, w: nat)
    requires IsGrid(g, |g|, w) && IsGrid(r, |g|, w)
    requires forall x :: 0 <= x < w ==> Column(r, x) == SettleColumn(Column(g, x))
    ensures Count(r, w) == Count(g, w)
    ensures IsColourGrid(g) ==> IsColourGrid(r)
  {
    forall x | 0 <= x < w ensures NonZeros(Column(r, x)) == NonZeros(Column(g, x)) {
      SettleColumnProps(Column(g, x));
    }
    CountSameColumns(r, g, w);
    if IsColourGrid(g) {
      forall i, j | 0 <= i < |r| && 0 <= j < |r[i]| ensures 0 <= r[i][j] <= Colours {
        var c := Column(g, j);
        assert r[i][j] == SettleColumn(c)[i];
        if r[i][j] != 0 {
          var k := i - (|c| - |NonZeros(c)|);
          assert r[i][j] == NonZeros(c)[k];
          assert r[i][j] in c;
        }
      }
    }
  }

  /** A grid that is already settled is left as it is. */
  lemma SettledIsFixed(g: Grid, r: Grid, w: nat)
    requires IsGrid(g, |g|, w) && IsGrid(r, |g|, w) && Settled(g, w)
    requires forall x :: 0 <= x < w ==> Column(r, x) == SettleColumn(Column(g, x))
    ensures r == g
  {
    forall i, j | 0 <= i < |g| && 0 <= j < w ensures r[i][j] == g[i][j] {
      var c := Column(g, j);
      SettledColumns(g, w);
      SettledColumnIsSettle(c);
      assert r[i][j] == Column(r, j)[i];
    }
    GridExt(r, g, |g|, w);
  }

  /** `h` is what toNormal leaves of `g`: every column of `h` is the settled form
      of the same column of `g`. */
  ghost predicate SettledFrom(h: Grid, g: Grid, w: nat) {
    IsGrid(g, |g|, w) && IsGrid(h, |g|, w) &&
    forall x :: 0 <= x < w ==> Column(h, x) == SettleColumn(Column(g, x))
  }

  /** toNormal's result is determined by the arena it starts from. */
  lemma SettledFromUnique(h: Grid, h': Grid, g: Grid, w: nat)
    requires SettledFrom(h, g, w) && SettledFrom(h', g, w)
    ensures h == h'
  {
    forall i, j | 0 <= i < |g| && 0 <= j < w ensures h[i][j] == h'[i][j] {
      assert h[i][j] == Column(h, j)[i];
      assert h'[i][j] == Column(h', j)[i];
    }
    GridExt(h, h', |g|, w);
  }
}
