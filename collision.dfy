/** collide: does the piece, placed at (px, py), overlap the arena or leave it? */
module Collision {
  import opened Grid

  /** A probe is blocked when it falls outside the arena on any side (a missing
      row or a missing column reads as "not 0") or lands on an occupied cell. */
  predicate Blocked(g: Grid, x: int, y: int) {
    !OnGrid(g, x, y) || g[y][x] != 0
  }

  /** The probe for piece cell (i, j) at (px, py): the cell is not empty and
      lands on a blocked place. */
  predicate Hits(g: Grid, m: Grid, px: int, py: int, i: nat, j: nat)
    requires i < |m| && j < |m[i]|
  {
    m[i][j] != 0 && Blocked(g, px + j, py + i)
  }

  /** The collision test: some piece cell in row >= 1 and column >= 1 hits.
      Row 0 and column 0 of the piece are never looked at. */
  ghost predicate Collides(g: Grid, m: Grid, px: int, py: int) {
    exists i: nat, j: nat :: 1 <= i < |m| && 1 <= j < |m[i]| && Hits(g, m, px, py, i, j)
  }

  /** collide, with its two nested loops starting at 1 and its early return. */
  method Collide(arena: array2<int>, m: array2<int>, px: int, py: int) returns (hit: bool)
    ensures hit == Collides(Cells(arena), Cells(m), px, py)
  {
    ghost var g, p := Cells(arena), Cells(m);
    var y := 1;
    while y < m.Length0
      invariant 1 <= y
      invariant forall i, j :: 1 <= i < y && i < m.Length0 && 1 <= j < m.Length1 ==>
        !Hits(g, p, px, py, i, j)
    {
      var x := 1;
      while x < m.Length1
        invariant 1 <= x
        invariant forall i, j :: 1 <= i < y && 1 <= j < m.Length1 ==>
          !Hits(g, p, px, py, i, j)
        invariant forall j :: 1 <= j < x && j < m.Length1 ==>
          !Hits(g, p, px, py, y, j)
      {
        var r, c := py + y, px + x;
        if m[y, x] != 0 && (!(0 <= r < arena.Length0 && 0 <= c < arena.Length1) || arena[r, c] != 0) {
          assert Hits(g, p, px, py, y, x);
          return true;
        }
        x := x + 1;
      }
      y := y + 1;
    }
    return false;
  }

  /** Only the cells in row >= 1 and column >= 1 of the piece decide a collision:
      two pieces that agree there collide in exactly the same places. */
  lemma IgnoresBorder(g: Grid, m: Grid, m': Grid, px: int, py: int)
    requires IsGrid(m, |m|, |m|) && IsGrid(m', |m|, |m|)
    requires forall i, j :: 1 <= i < |m| && 1 <= j < |m| ==> m[i][j] == m'[i][j]
    ensures Collides(g, m, px, py) == Collides(g, m', px, py)
  {
    if Collides(g, m, px, py) {
      var i: nat, j: nat :| 1 <= i < |m| && 1 <= j < |m[i]| && Hits(g, m, px, py, i, j);
      assert Hits(g, m', px, py, i, j);
    }
    if Collides(g, m', px, py) {
      var i: nat, j: nat :| 1 <= i < |m'| && 1 <= j < |m'[i]| && Hits(g, m', px, py, i, j);
      assert Hits(g, m, px, py, i, j);
    }
  }

  /** A collision-free placement puts every examined non-empty piece cell on an
      empty arena cell, so no probe above, below, left or right of the grid passed. */
  lemma FreeMeansInside(g: Grid, m: Grid, px: int, py: int, i: int, j: int)
    requires !Collides(g, m, px, py)
    requires 1 <= i < |m| && 1 <= j < |m[i]| && m[i][j] != 0
    ensures 0 <= py + i < |g| && 0 <= px + j < |g[py + i]| && g[py + i][px + j] == 0
  {
    assert !Hits(g, m, px, py, i, j);
  }
}
