/** rotate: the in-place turn of a square matrix. Each swap of the transpose is
    followed at once by a reversal of every row (dir > 0) or of the row order
    (otherwise), so the result is not transpose-then-reverse. */
module Rotation {
  import opened Grid
  import opened Piece

  ghost predicate IsSquare(m: Grid) {
    IsGrid(m, |m|, |m|)
  }

  /** Entries (y, x) and (x, y) exchanged. */
  ghost function Swap(m: Grid, y: nat, x: nat): (r: Grid)
    requires IsSquare(m) && y < |m| && x < |m|
    ensures IsGrid(r, |m|, |m|)
    ensures forall i, j :: 0 <= i < |m| && 0 <= j < |m| ==>
      r[i][j] == if i == y && j == x then m[x][y] else if i == x && j == y then m[y][x] else m[i][j]
  {
    Set(Set(m, y, x, m[x][y]), x, y, m[y][x])
  }

  /** Every row reversed. */
  ghost function ReverseRows(m: Grid): (r: Grid)
    requires IsSquare(m)
    ensures IsGrid(r, |m|, |m|)
    ensures forall i, j :: 0 <= i < |m| && 0 <= j < |m| ==> r[i][j] == m[i][|m| - 1 - j]
  {
    seq(|m|, i requires 0 <= i < |m| => seq(|m|, j requires 0 <= j < |m| => m[i][|m| - 1 - j]))
  }

  /** The rows in reverse order. */
  ghost function ReverseOrder(m: Grid): (r: Grid)
    requires IsSquare(m)
    ensures IsGrid(r, |m|, |m|)
    ensures forall i, j :: 0 <= i < |m| && 0 <= j < |m| ==> r[i][j] == m[|m| - 1 - i][j]
  {
    seq(|m|, i requires 0 <= i < |m| => m[|m| - 1 - i])
  }

  /** One pass of the inner loop: the swap, then the reversal chosen by `dir`. */
  ghost function Step(m: Grid, y: nat, x: nat, dir: int): (r: Grid)
    requires IsSquare(m) && y < |m| && x < |m|
    ensures IsGrid(r, |m|, |m|)
  {
    if dir > 0 then ReverseRows(Swap(m, y, x)) else ReverseOrder(Swap(m, y, x))
  }

  /** The matrix after the loops have done every (row, column) pair before row `y`
      and the pairs (y, 0) .. (y, x - 1). */
  ghost function Done(m: Grid, dir: int, y: nat, x: nat): (r: Grid)
    requires IsSquare(m) && x <= y && (y < |m| || (y == |m| && x == 0))
    ensures IsGrid(r, |m|, |m|)
    decreases y, x
  {
    if x > 0 then Step(Done(m, dir, y, x - 1), y, x - 1, dir)
    else if y == 0 then m
    else Done(m, dir, y - 1, y - 1)
  }

  /** What rotate leaves in the matrix. */
  ghost function Rotated(m: Grid, dir: int): (r: Grid)
    requires IsSquare(m)
    ensures IsGrid(r, |m|, |m|)
  {
    Done(m, dir, |m|, 0)
  }

  /** The 3 by 3 turn written out cell by cell: for dir > 0 the edge cells move a
      quarter-turn clockwise and the corners a quarter-turn counter-clockwise;
      otherwise both move the other way. */
  function Turn(m: Grid, dir: int): (r: Grid)
    requires IsGrid(m, 3, 3)
  {
    if dir > 0 then
      [[m[0][2], m[1][0], m[2][2]],
       [m[2][1], m[1][1], m[0][1]],
       [m[0][0], m[1][2], m[2][0]]]
    else
      [[m[2][0], m[1][2], m[0][0]],
       [m[0][1], m[1][1], m[2][1]],
       [m[2][2], m[1][0], m[0][2]]]
  }

  // ---------------------------------------------------------------- the method

  method SwapCells(a: array2<int>, y: nat, x: nat)
    requires a.Length0 == a.Length1 && y < a.Length0 && x < a.Length0
    modifies a
    ensures Cells(a) == Swap(old(Cells(a)), y, x)
  {
    ghost var m := Cells(a);
    a[y, x], a[x, y] := a[x, y], a[y, x];
    GridExt(Cells(a), Swap(m, y, x), a.Length0, a.Length0);
  }

  /** matrix.forEach(row => row.reverse()). */
  method ReverseEachRow(a: array2<int>)
    requires a.Length0 == a.Length1
    modifies a
    ensures Cells(a) == ReverseRows(old(Cells(a)))
  {
    ghost var m := Cells(a);
    var n := a.Length0;
    var i := 0;
    while i < n
      invariant 0 <= i <= n
      invariant forall p, q :: 0 <= p < i && 0 <= q < n ==> a[p, q] == m[p][n - 1 - q]
      invariant forall p, q :: i <= p < n && 0 <= q < n ==> a[p, q] == m[p][q]
    {
      ReverseRow(a, i);
      i := i + 1;
    }
    GridExt(Cells(a), ReverseRows(m), n, n);
  }

  /** row.reverse() on row `i`. */
  method ReverseRow(a: array2<int>, i: nat)
    requires a.Length0 == a.Length1 && i < a.Length0
    modifies a
    ensures forall p, q :: 0 <= p < a.Length0 && 0 <= q < a.Length1 ==>
      a[p, q] == if p == i then old(a[p, a.Length1 - 1 - q]) else old(a[p, q])
  {
    var n := a.Length1;
    var j := 0;
    while j < n / 2
      invariant 0 <= j <= n / 2
      invariant forall p, q :: 0 <= p < n && 0 <= q < n && p != i ==> a[p, q] == old(a[p, q])
      invariant forall q :: 0 <= q < j ==> a[i, q] == old(a[i, n - 1 - q]) && a[i, n - 1 - q] == old(a[i, q])
      invariant forall q :: j <= q < n - j ==> a[i, q] == old(a[i, q])
    {
      a[i, j], a[i, n - 1 - j] := a[i, n - 1 - j], a[i, j];
      j := j + 1;
    }
  }

  /** Rows `p` and `q` change places. */
  method SwapRows(a: array2<int>, p: nat, q: nat)
    requires p < q < a.Length0
    modifies a
    ensures forall r, c :: 0 <= r < a.Length0 && 0 <= c < a.Length1 ==>
      a[r, c] == if r == p then old(a[q, c]) else if r == q then old(a[p, c]) else old(a[r, c])
  {
    var j := 0;
    while j < a.Length1
      invariant 0 <= j <= a.Length1
      invariant forall r, c :: 0 <= r < a.Length0 && 0 <= c < a.Length1 ==>
        a[r, c] == if r == p && c < j then old(a[q, c]) else if r == q && c < j then old(a[p, c]) else old(a[r, c])
    {
      a[p, j], a[q, j] := a[q, j], a[p, j];
      j := j + 1;
    }
  }

  /** matrix.reverse(): row k and row n - 1 - k change places. */
  method ReverseRowOrder(a: array2<int>)
    requires a.Length0 == a.Length1
    modifies a
    ensures Cells(a) == ReverseOrder(old(Cells(a)))
  {
    ghost var m := Cells(a);
    var n := a.Length0;
    var i := 0;
    while i < n / 2
      invariant 0 <= i <= n / 2
      invariant forall p, q :: 0 <= p < n && 0 <= q < n ==>
        a[p, q] == if p < i || n - 1 - i < p then m[n - 1 - p][q] else m[p][q]
    {
      SwapRows(a, i, n - 1 - i);
      i := i + 1;
    }
    GridExt(Cells(a), ReverseOrder(m), n, n);
  }

  /** rotate(matrix, dir). */
  method Rotate(a: array2<int>, dir: int)
    requires a.Length0 == a.Length1
    modifies a
    ensures Cells(a) == Rotated(old(Cells(a)), dir)
  {
    ghost var m := Cells(a);
    var n := a.Length0;
    var y := 0;
    while y < n
      invariant 0 <= y <= n
      invariant Cells(a) == Done(m, dir, y, 0)
    {
      RotateRow(a, m, dir, y);
      y := y + 1;
    }
  }

  /** One pass of the outer loop of rotate: the pairs (y, 0) .. (y, y - 1). */
  method RotateRow(a: array2<int>, ghost m: Grid, dir: int, y: nat)
    requires a.Length0 == a.Length1 == |m| && IsSquare(m) && y < |m|
    requires Cells(a) == Done(m, dir, y, 0)
    modifies a
    ensures Cells(a) == Done(m, dir, y + 1, 0)
  {
    var x := 0;
    while x < y
      invariant 0 <= x <= y
      invariant Cells(a) == Done(m, dir, y, x)
    {
      RotateStep(a, m, dir, y, x);
      x := x + 1;
    }
  }

  /** One pass of the inner loop of rotate. */
  method RotateStep(a: array2<int>, ghost m: Grid, dir: int, y: nat, x: nat)
    requires a.Length0 == a.Length1 == |m| && IsSquare(m) && x < y < |m|
    requires Cells(a) == Done(m, dir, y, x)
    modifies a
    ensures Cells(a) == Done(m, dir, y, x + 1)
  {
    ghost var before := Cells(a);
    SwapCells(a, y, x);
    if dir > 0 {
      ReverseEachRow(a);
    } else {
      ReverseRowOrder(a);
    }
    assert Cells(a) == Step(before, y, x, dir);
  }

  // ---------------------------------------------------------------- 3 by 3 properties

  /** On a 3 by 3 matrix the three swap-and-reverse steps give the turn table. */
  lemma RotatedIsTurn(m: Grid, dir: int)
    requires IsGrid(m, 3, 3)
    ensures Rotated(m, dir) == Turn(m, dir)
  {
    var s1 := Step(m, 1, 0, dir);
    var s2 := Step(s1, 2, 0, dir);
    var s3 := Step(s2, 2, 1, dir);
    assert Done(m, dir, 1, 0) == m;
    assert Done(m, dir, 2, 0) == s1;
    assert Done(m, dir, 2, 1) == s2;
    assert Rotated(m, dir) == s3;
    GridExt(s3, Turn(m, dir), 3, 3);
  }

  /** rotate on a piece matrix, stated with the written-out turn. */
  method RotatePiece(a: array2<int>, dir: int)
    requires a.Length0 == 3 && a.Length1 == 3
    modifies a
    ensures Cells(a) == Turn(old(Cells(a)), dir)
  {
    ghost var m := Cells(a);
    Rotate(a, dir);
    RotatedIsTurn(m, dir);
  }

  /** The centre stays put and the edge cells turn a quarter: clockwise
      (top to right to bottom to left) for dir > 0, counter-clockwise otherwise. */
  lemma RotateEdges(m: Grid, dir: int)
    requires IsGrid(m, 3, 3)
    ensures Rotated(m, dir)[1][1] == m[1][1]
    ensures dir > 0 ==> Rotated(m, dir)[1][2] == m[0][1] && Rotated(m, dir)[2][1] == m[1][2] &&
                        Rotated(m, dir)[1][0] == m[2][1] && Rotated(m, dir)[0][1] == m[1][0]
    ensures dir <= 0 ==> Rotated(m, dir)[1][0] == m[0][1] && Rotated(m, dir)[2][1] == m[1][0] &&
                         Rotated(m, dir)[1][2] == m[2][1] && Rotated(m, dir)[0][1] == m[1][2]
  {
    RotatedIsTurn(m, dir);
  }

  /** The corners follow their own 4-cycle, in the opposite sense to the edges. */
  lemma RotateCorners(m: Grid, dir: int)
    requires IsGrid(m, 3, 3)
    ensures dir > 0 ==> Rotated(m, dir)[2][0] == m[0][0] && Rotated(m, dir)[2][2] == m[2][0] &&
                        Rotated(m, dir)[0][2] == m[2][2] && Rotated(m, dir)[0][0] == m[0][2]
    ensures dir <= 0 ==> Rotated(m, dir)[0][2] == m[0][0] && Rotated(m, dir)[2][2] == m[0][2] &&
                         Rotated(m, dir)[2][0] == m[2][2] && Rotated(m, dir)[0][0] == m[2][0]
  {
    RotatedIsTurn(m, dir);
  }

  /** rotate(m, -dir) undoes rotate(m, dir) for every direction but 0. */
  lemma RotateInverse(m: Grid, dir: int)
    requires IsGrid(m, 3, 3) && dir != 0
    ensures Rotated(Rotated(m, dir), -dir) == m
  {
    var r := Rotated(m, dir);
    RotatedIsTurn(m, dir);
    RotatedIsTurn(r, -dir);
    TurnInverse(m, dir);
  }

  lemma TurnInverse(m: Grid, dir: int)
    requires IsGrid(m, 3, 3) && dir != 0
    ensures Turn(Turn(m, dir), -dir) == m
  {
    GridExt(Turn(Turn(m, dir), -dir), m, 3, 3);
  }

  /** For direction 0 the "undo" is a second counter-clockwise turn: it does not restore. */
  lemma RotateZeroNotInverse()
    ensures Rotated(Fresh(1, 2), 0) == Turn(Fresh(1, 2), 0)
    ensures Rotated(Rotated(Fresh(1, 2), 0), 0) != Fresh(1, 2)
  {
    RotatedIsTurn(Fresh(1, 2), 0);
    RotatedIsTurn(Rotated(Fresh(1, 2), 0), 0);
    assert Turn(Turn(Fresh(1, 2), 0), 0)[1][0] == 2;
  }

  /** Four turns in the same direction give the matrix back. */
  lemma RotateFourTimes(m: Grid, dir: int)
    requires IsGrid(m, 3, 3)
    ensures Rotated(Rotated(Rotated(Rotated(m, dir), dir), dir), dir) == m
  {
    var r1 := Rotated(m, dir);
    var r2 := Rotated(r1, dir);
    var r3 := Rotated(r2, dir);
    RotatedIsTurn(m, dir);
    RotatedIsTurn(r1, dir);
    RotatedIsTurn(r2, dir);
    RotatedIsTurn(r3, dir);
    TurnFourTimes(m, dir);
  }

  lemma TurnFourTimes(m: Grid, dir: int)
    requires IsGrid(m, 3, 3)
    ensures Turn(Turn(Turn(Turn(m, dir), dir), dir), dir) == m
  {
    GridExt(Turn(Turn(Turn(Turn(m, dir), dir), dir), dir), m, 3, 3);
  }

  /** Turning keeps the piece shape: empty corners, the same centre, one coloured edge. */
  lemma RotateKeepsPiece(m: Grid, dir: int)
    requires IsPiece(m)
    ensures IsPiece(Rotated(m, dir))
    ensures Rotated(m, dir)[1][1] == m[1][1]
  {
    RotatedIsTurn(m, dir);
    TurnKeepsPiece(m, dir);
  }

  lemma TurnKeepsPiece(m: Grid, dir: int)
    requires IsPiece(m)
    ensures IsPiece(Turn(m, dir))
  {
    var t := Turn(m, dir);
    assert EdgeCount(t) == EdgeCount(m);
    forall i, j | 0 <= i < 3 && 0 <= j < 3 ensures 0 <= t[i][j] <= Colours {
      assert exists i', j' :: 0 <= i' < 3 && 0 <= j' < 3 && t[i][j] == m[i'][j'];
    }
  }
}
