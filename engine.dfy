/** merge and check: the two operations that write the arena when a piece lands. */
module Engine {
  import opened Grid
  import opened Collision
  import opened Piece
  import opened Gravity
  import opened Matching

  // ---------------------------------------------------------------- merge

  /** The piece cell (i - py, j - px) lies over arena cell (i, j) and is non-empty. */
  predicate Covers(m: Grid, px: int, py: int, i: int, j: int)
    requires IsGrid(m, 3, 3)
  {
    0 <= i - py < 3 && 0 <= j - px < 3 && m[i - py][j - px] != 0
  }

  /** The arena with every non-empty piece cell written over the cell beneath it. */
  ghost function Merged(g: Grid, m: Grid, px: int, py: int): (r: Grid)
    requires IsGrid(m, 3, 3)
    ensures |r| == |g| && forall i :: 0 <= i < |g| ==> |r[i]| == |g[i]|
    ensures forall i, j :: 0 <= i < |g| && 0 <= j < |g[i]| ==>
      r[i][j] == if Covers(m, px, py, i, j) then m[i - py][j - px] else g[i][j]
  {
    seq(|g|, i requires 0 <= i < |g| =>
      seq(|g[i]|, j requires 0 <= j < |g[i]| =>
        if Covers(m, px, py, i, j) then m[i - py][j - px] else g[i][j]))
  }

  /** A resting piece has its centre on the arena. */
  lemma CentreInside(g: Grid, m: Grid, px: int, py: int)
    requires IsPiece(m) && !Collides(g, m, px, py)
    ensures 0 <= py + 1 < |g| && 0 <= px + 1 < |g[py + 1]|
  {
    FreeMeansInside(g, m, px, py, 1, 1);
  }

  /** Piece cell (a, b) comes before cell (y, x) in row-major order. */
  predicate Before(a: int, b: int, y: int, x: int) {
    a < y || (a == y && b < x)
  }

  /** Piece cell (y, x) considered by merge: written over the arena cell beneath it
      when it is non-empty and that cell exists. */
  ghost function Advance(prev: Grid, g: Grid, m: Grid, px: int, py: int, y: int, x: int): (r: Grid)
    requires IsGrid(m, 3, 3) && 0 <= y < 3 && 0 <= x < 3
    requires |prev| == |g| && forall i :: 0 <= i < |g| ==> |prev[i]| == |g[i]|
    ensures |r| == |g| && forall i :: 0 <= i < |g| ==> |r[i]| == |g[i]|
  {
    if m[y][x] != 0 && OnGrid(g, px + x, py + y) then Set(prev, py + y, px + x, m[y][x]) else prev
  }

  /** The arena once merge has considered every piece cell before (y, x), row by row. */
  ghost function Partial(g: Grid, m: Grid, px: int, py: int, y: int, x: int): (r: Grid)
    requires IsGrid(m, 3, 3) && 0 <= y <= 3 && 0 <= x <= 3 && (y == 3 ==> x == 0)
    ensures |r| == |g| && forall i :: 0 <= i < |g| ==> |r[i]| == |g[i]|
    decreases y, x
  {
    if x > 0 then Advance(Partial(g, m, px, py, y, x - 1), g, m, px, py, y, x - 1)
    else if y == 0 then g
    else Partial(g, m, px, py, y - 1, 3)
  }

  /** Cell by cell, merge up to (y, x) has written exactly the covered cells before it. */
  lemma {:induction false} PartialCells(g: Grid, m: Grid, px: int, py: int, y: int, x: int)
    requires IsGrid(m, 3, 3) && 0 <= y <= 3 && 0 <= x <= 3 && (y == 3 ==> x == 0)
    ensures forall i, j :: 0 <= i < |g| && 0 <= j < |g[i]| ==>
      Partial(g, m, px, py, y, x)[i][j] ==
        if Covers(m, px, py, i, j) && Before(i - py, j - px, y, x) then m[i - py][j - px] else g[i][j]
    decreases y, x
  {
    if x > 0 {
      PartialCells(g, m, px, py, y, x - 1);
    } else if y > 0 {
      PartialCells(g, m, px, py, y - 1, 3);
    }
  }

  /** Considering all nine cells gives the merged arena. */
  lemma PartialMerged(g: Grid, m: Grid, px: int, py: int)
    requires IsGrid(m, 3, 3) && IsGrid(g, |g|, Width)
    ensures Partial(g, m, px, py, 3, 0) == Merged(g, m, px, py)
  {
    PartialCells(g, m, px, py, 3, 0);
    GridExt(Partial(g, m, px, py, 3, 0), Merged(g, m, px, py), |g|, Width);
  }

  /** Where merge can write the piece: it stands at row -1 or lower down, every
      non-empty cell below its top row has its arena row, and no non-empty cell
      lies right of the arena. */
  ghost predicate Fits(m: Grid, px: int, py: int, h: int, w: int)
    requires IsGrid(m, 3, 3)
  {
    -1 <= py < h &&
    forall i, j :: 0 <= i < 3 && 0 <= j < 3 && m[i][j] != 0 ==> (i > 0 ==> py + i < h) && px + j < w
  }

  /** A piece that does not collide where it stands fits there. */
  lemma RestingFits(g: Grid, m: Grid, px: int, py: int)
    requires IsPiece(m) && !Collides(g, m, px, py) && IsGrid(g, |g|, Width)
    ensures Fits(m, px, py, |g|, Width)
  {
    CentreInside(g, m, px, py);
    if m[2][1] != 0 { FreeMeansInside(g, m, px, py, 2, 1); }
    if m[1][2] != 0 { FreeMeansInside(g, m, px, py, 1, 2); }
  }

  /** merge. The source walks the piece row by row; a non-empty cell whose arena
      row does not exist makes the assignment throw. For a piece that fits, that
      can only be the top edge cell with the piece at row -1, and it comes before
      any write. A non-empty cell in column -1 is not written (see README). */
  method Merge(arena: array2<int>, m: array2<int>, px: int, py: int) returns (thrown: bool)
    requires arena != m && m.Length0 == 3 && m.Length1 == 3 && m[0, 0] == 0 && m[0, 2] == 0
    requires arena.Length1 == Width && Fits(Cells(m), px, py, arena.Length0, Width)
    modifies arena
    ensures thrown == (py == -1 && m[0, 1] != 0)
    ensures thrown ==> Cells(arena) == old(Cells(arena))
    ensures !thrown ==> Cells(arena) == Merged(old(Cells(arena)), Cells(m), px, py)
  {
    ghost var g, p := Cells(arena), Cells(m);
    PartialMerged(g, p, px, py);
    thrown := false;
    var y := 0;
    while y < 3
      invariant 0 <= y <= 3
      invariant y > 0 ==> !(py == -1 && p[0][1] != 0)
      invariant Cells(arena) == Partial(g, p, px, py, y, 0)
    {
      thrown := MergeRow(arena, m, px, py, y, g, p);
      if thrown {
        Unchanged(m);
        return;
      }
      y := y + 1;
    }
    Unchanged(m);
  }

  /** One row of merge: piece cells (y, 0), (y, 1) and (y, 2). */
  method MergeRow(arena: array2<int>, m: array2<int>, px: int, py: int, y: int,
                  ghost g: Grid, ghost p: Grid) returns (thrown: bool)
    requires arena != m && m.Length0 == 3 && m.Length1 == 3 && IsGrid(p, 3, 3) && p[0][0] == 0 && p[0][2] == 0
    requires arena.Length1 == Width && IsGrid(g, arena.Length0, Width) && Fits(p, px, py, arena.Length0, Width)
    requires 0 <= y < 3 && m[y, 0] == p[y][0] && m[y, 1] == p[y][1] && m[y, 2] == p[y][2]
    requires Cells(arena) == Partial(g, p, px, py, y, 0)
    requires y > 0 ==> !(py == -1 && p[0][1] != 0)
    modifies arena
    ensures thrown == (y == 0 && py == -1 && p[0][1] != 0)
    ensures thrown ==> Cells(arena) == g
    ensures !thrown ==> Cells(arena) == Partial(g, p, px, py, y + 1, 0) && !(py == -1 && p[0][1] != 0)
  {
    var x := 0;
    while x < 3
      invariant 0 <= x <= 3
      invariant y > 0 || x > 1 ==> !(py == -1 && p[0][1] != 0)
      invariant Cells(arena) == Partial(g, p, px, py, y, x)
    {
      thrown := MergeCell(arena, m, px, py, y, x, g, p);
      if thrown {
        return;
      }
      x := x + 1;
    }
    thrown := false;
  }

  /** One step of merge: piece cell (y, x). */
  method MergeCell(arena: array2<int>, m: array2<int>, px: int, py: int, y: int, x: int,
                   ghost g: Grid, ghost p: Grid) returns (thrown: bool)
    requires arena != m && m.Length0 == 3 && m.Length1 == 3 && IsGrid(p, 3, 3) && p[0][0] == 0 && p[0][2] == 0
    requires arena.Length1 == Width && IsGrid(g, arena.Length0, Width) && Fits(p, px, py, arena.Length0, Width)
    requires 0 <= y < 3 && 0 <= x < 3 && m[y, x] == p[y][x]
    requires Cells(arena) == Partial(g, p, px, py, y, x)
    modifies arena
    ensures thrown == (py + y == -1 && p[y][x] != 0)
    ensures thrown ==> y == 0 && x == 1 && Cells(arena) == g
    ensures !thrown ==> Cells(arena) == Partial(g, p, px, py, y, x + 1)
  {
    var v := m[y, x];
    if v != 0 {
      var r, c := py + y, px + x;
      if !(0 <= r < arena.Length0) {
        assert y == 0 && x == 1;
        return true;
      }
      if 0 <= c < arena.Length1 {
        Put(arena, r, c, v);
      }
    }
    return false;
  }

  /** Merging puts the piece's colours into the arena and nothing else. */
  lemma MergedIsColourGrid(g: Grid, m: Grid, px: int, py: int)
    requires IsColourGrid(g) && IsPiece(m)
    ensures IsColourGrid(Merged(g, m, px, py))
  {
  }

  /** After merging, the piece collides where it stood: its centre now lies on
      its own colour. */
  lemma MergedBlocksPiece(g: Grid, m: Grid, px: int, py: int)
    requires IsPiece(m) && !Collides(g, m, px, py)
    ensures Collides(Merged(g, m, px, py), m, px, py)
  {
    CentreInside(g, m, px, py);
    assert Covers(m, px, py, py + 1, px + 1);
    assert Hits(Merged(g, m, px, py), m, px, py, 1, 1);
  }

  // ---------------------------------------------------------------- clearing

  /** Some record of `bs` names cell (i, j). */
  predicate Listed(bs: seq<Block>, i: int, j: int) {
    exists k :: 0 <= k < |bs| && bs[k].y == i && bs[k].x == j
  }

  /** The grid with every cell named by a record emptied. */
  ghost function Cleared(g: Grid, bs: seq<Block>): (r: Grid)
    ensures |r| == |g| && forall i :: 0 <= i < |g| ==> |r[i]| == |g[i]|
    ensures forall i, j :: 0 <= i < |g| && 0 <= j < |g[i]| ==>
      r[i][j] == if Listed(bs, i, j) then 0 else g[i][j]
  {
    seq(|g|, i requires 0 <= i < |g| =>
      seq(|g[i]|, j requires 0 <= j < |g[i]| => if Listed(bs, i, j) then 0 else g[i][j]))
  }

  /** Clearing one more record empties its cell. */
  lemma ClearedStep(g: Grid, w: nat, bs: seq<Block>, k: nat)
    requires IsGrid(g, |g|, w) && k < |bs| && 0 <= bs[k].y < |g| && 0 <= bs[k].x < w
    ensures Cleared(g, bs[..k + 1]) == Set(Cleared(g, bs[..k]), bs[k].y, bs[k].x, 0)
  {
    var b := bs[k];
    forall i, j | 0 <= i < |g| && 0 <= j < w
      ensures Listed(bs[..k + 1], i, j) == (Listed(bs[..k], i, j) || (i == b.y && j == b.x))
    {
      assert bs[..k + 1][k] == b;
      if Listed(bs[..k + 1], i, j) && !(i == b.y && j == b.x) {
        var n :| 0 <= n < k + 1 && bs[..k + 1][n].y == i && bs[..k + 1][n].x == j;
        assert bs[..k][n] == bs[n];
      }
      if Listed(bs[..k], i, j) {
        var n :| 0 <= n < k && bs[..k][n].y == i && bs[..k][n].x == j;
        assert bs[..k + 1][n] == bs[n];
      }
    }
    GridExt(Cleared(g, bs[..k + 1]), Set(Cleared(g, bs[..k]), b.y, b.x, 0), |g|, w);
  }

  lemma ClearedNone(g: Grid, w: nat, bs: seq<Block>)
    requires IsGrid(g, |g|, w)
    ensures Cleared(g, bs[..0]) == g
  {
    GridExt(Cleared(g, bs[..0]), g, |g|, w);
  }

  /** blocks.forEach(e => arena[e.y][e.x] = 0). */
  method ClearBlocks(arena: array2<int>, bs: seq<Block>)
    requires forall k :: 0 <= k < |bs| ==> 0 <= bs[k].y < arena.Length0 && 0 <= bs[k].x < arena.Length1
    modifies arena
    ensures Cells(arena) == Cleared(old(Cells(arena)), bs)
    ensures Count(old(Cells(arena)), arena.Length1) - |bs| <= Count(Cells(arena), arena.Length1)
    ensures Count(Cells(arena), arena.Length1) <= Count(old(Cells(arena)), arena.Length1)
    ensures bs != [] && old(arena[bs[0].y, bs[0].x]) != 0 ==>
      Count(Cells(arena), arena.Length1) < Count(old(Cells(arena)), arena.Length1)
  {
    ghost var g := Cells(arena);
    ghost var w := arena.Length1;
    ClearedNone(g, w, bs);
    var k := 0;
    while k < |bs|
      invariant 0 <= k <= |bs|
      invariant Cells(arena) == Cleared(g, bs[..k])
      invariant Count(g, w) - k <= Count(Cells(arena), w) <= Count(g, w)
      invariant k > 0 && g[bs[0].y][bs[0].x] != 0 ==> Count(Cells(arena), w) < Count(g, w)
    {
      ghost var before := Cells(arena);
      var b := bs[k];
      Put(arena, b.y, b.x, 0);
      CountSetZero(before, w, b.y, b.x);
      ClearedStep(g, w, bs, k);
      k := k + 1;
    }
    assert bs[..|bs|] == bs;
  }

  // ---------------------------------------------------------------- check

  /** Depth bound for the walk: one more than the number of cells of the arena. */
  const Fuel: nat := Height * Width + 1

  /** Cell (y, x) does not start a clear: it is empty, or the walk from it ends
      with fewer than three records. */
  predicate Fine(g: Grid, y: int, x: int): (b: bool)
    requires OnGrid(g, x, y)
    ensures g[y][x] == 0 ==> b
    ensures g[y][x] != 0 ==>
      (b <==> var r := CollectBlocks(g, x, y, Seed, None, Fuel); r.Some? && 1 <= |r.value| <= 2)
  {
    g[y][x] == 0 ||
    (var r := CollectBlocks(g, x, y, Seed, None, Fuel); r.Some? && |r.value| < 3)
  }

  /** No cell of the arena starts a clear; check leaves such an arena alone. */
  ghost predicate Stable(g: Grid) {
    forall i, j :: 0 <= i < |g| && 0 <= j < |g[i]| ==> Fine(g, i, j)
  }

  /** In a stable arena every walk from a non-empty cell ends with one or two
      records, so check clears nothing on it. */
  lemma StableWalksEnd(g: Grid, i: int, j: int)
    requires Stable(g) && 0 <= i < |g| && 0 <= j < |g[i]| && g[i][j] != 0
    ensures CollectBlocks(g, j, i, Seed, None, Fuel).Some?
    ensures 1 <= |CollectBlocks(g, j, i, Seed, None, Fuel).value| <= 2
  {
    assert Fine(g, i, j);
  }

  /** One clear made by check: the walk from cell (y, x) gave `blocks`. */
  datatype Sweep = Sweep(x: int, y: int, blocks: seq<Block>)

  /** `h` is what one clear makes of `g`: the walk from the non-empty cell
      (c.y, c.x) gives c.blocks, at least three records; their cells are emptied
      and the arena settles. */
  ghost predicate Clears(g: Grid, h: Grid, c: Sweep, w: nat) {
    IsGrid(g, |g|, w) && OnGrid(g, c.x, c.y) && g[c.y][c.x] != 0 && ScannedFine(g, c.y, c.x) &&
    CollectBlocks(g, c.x, c.y, Seed, None, Fuel) == Some(c.blocks) && |c.blocks| >= 3 &&
    SettledFrom(h, Cleared(g, c.blocks), w)
  }

  /** The first cell of the row-major scan that is not fine is non-empty and its
      walk does not end: check stops with the script's exception there. */
  ghost predicate Diverges(g: Grid) {
    exists i, j :: 0 <= i < |g| && 0 <= j < |g[i]| && g[i][j] != 0 && ScannedFine(g, i, j) &&
      CollectBlocks(g, j, i, Seed, None, Fuel).None?
  }

  /** Where check stops: the arena is stable, or its walk does not end. */
  ghost predicate Ended(g: Grid) {
    Stable(g) || Diverges(g)
  }

  /** The arenas check passes through, `trace[i + 1]` made from `trace[i]` by the
      clear `walks[i]`. */
  ghost predicate Chain(trace: seq<Grid>, walks: seq<Sweep>, w: nat) {
    |trace| == |walks| + 1 &&
    forall i :: 0 <= i < |walks| ==> Clears(trace[i], trace[i + 1], walks[i], w)
  }

  function Final(trace: seq<Grid>): Grid
    requires trace != []
  {
    trace[|trace| - 1]
  }

  /** The number of records of all the clears: the score grows by ten for each. */
  function Total(walks: seq<Sweep>): nat {
    if walks == [] then 0 else |walks[0].blocks| + Total(walks[1..])
  }

  lemma {:induction false} TotalAppend(a: seq<Sweep>, b: seq<Sweep>)
    ensures Total(a + b) == Total(a) + Total(b)
  {
    if a == [] {
      assert a + b == b;
    } else {
      assert (a + b)[1..] == a[1..] + b;
      TotalAppend(a[1..], b);
    }
  }

  /** Every clear takes at least three records. */
  lemma {:induction false} TotalBound(trace: seq<Grid>, walks: seq<Sweep>, w: nat)
    requires Chain(trace, walks, w)
    ensures Total(walks) >= 3 * |walks|
    ensures Total(walks) == 0 <==> walks == []
    decreases |walks|
  {
    if walks != [] {
      assert Clears(trace[0], trace[1], walks[0], w);
      forall i | 0 <= i < |walks| - 1 ensures Clears(trace[1..][i], trace[1..][i + 1], walks[1..][i], w) {
        assert Clears(trace[i + 1], trace[i + 2], walks[i + 1], w);
      }
      TotalBound(trace[1..], walks[1..], w);
    }
  }

  /** A clear followed by a chain of clears is a chain. */
  lemma ChainCons(g: Grid, c: Sweep, trace: seq<Grid>, walks: seq<Sweep>, w: nat)
    requires Chain(trace, walks, w) && Clears(g, trace[0], c, w)
    ensures Chain([g] + trace, [c] + walks, w) && Final([g] + trace) == Final(trace)
    ensures Total([c] + walks) == |c.blocks| + Total(walks)
  {
    assert ([c] + walks)[1..] == walks;
    forall i | 0 <= i < |walks| + 1 ensures Clears(([g] + trace)[i], ([g] + trace)[i + 1], ([c] + walks)[i], w) {
      if i > 0 {
        assert Clears(trace[i - 1], trace[i], walks[i - 1], w);
      }
    }
  }

  /** Two chains, the second starting where the first ends, make one chain. */
  lemma ChainAppend(t1: seq<Grid>, w1: seq<Sweep>, t2: seq<Grid>, w2: seq<Sweep>, w: nat)
    requires Chain(t1, w1, w) && Chain(t2, w2, w) && Final(t1) == t2[0]
    ensures Chain(t1 + t2[1..], w1 + w2, w)
    ensures (t1 + t2[1..])[0] == t1[0] && Final(t1 + t2[1..]) == Final(t2)
    ensures Total(w1 + w2) == Total(w1) + Total(w2)
  {
    var t := t1 + t2[1..];
    forall i | 0 <= i < |w1| + |w2| ensures Clears(t[i], t[i + 1], (w1 + w2)[i], w) {
      if i < |w1| {
        assert t[i] == t1[i] && t[i + 1] == t1[i + 1];
        assert Clears(t1[i], t1[i + 1], w1[i], w);
      } else {
        var k := i - |w1|;
        assert t[i] == t2[k] && t[i + 1] == t2[k + 1];
        assert Clears(t2[k], t2[k + 1], w2[k], w);
      }
    }
    TotalAppend(w1, w2);
  }

  /** A non-empty cell reached by the scan whose walk does not end. */
  lemma DivergesAt(g: Grid, y: int, x: int)
    requires OnGrid(g, x, y) && g[y][x] != 0 && ScannedFine(g, y, x)
    requires CollectBlocks(g, x, y, Seed, None, Fuel).None?
    ensures Diverges(g) && !Stable(g)
  {
    NotFine(g, y, x);
  }

  /** An arena whose walk does not end is not stable: check never returns on it. */
  lemma DivergesNotStable(g: Grid)
    requires Diverges(g)
    ensures !Stable(g)
  {
    var i, j :| 0 <= i < |g| && 0 <= j < |g[i]| && g[i][j] != 0 && ScannedFine(g, i, j) &&
      CollectBlocks(g, j, i, Seed, None, Fuel).None?;
    NotFine(g, i, j);
  }

  /** At most one cell is both not fine and preceded in row-major order by fine
      cells only. */
  lemma FirstUnfineUnique(g: Grid, y: int, x: int, y': int, x': int)
    requires OnGrid(g, x, y) && OnGrid(g, x', y') && !Fine(g, y, x) && !Fine(g, y', x')
    requires ScannedFine(g, y, x) && ScannedFine(g, y', x')
    ensures y == y' && x == x'
  {
  }

  /** An arena that a clear starts from is neither stable nor diverging. */
  lemma ClearsNotEnded(g: Grid, h: Grid, c: Sweep, w: nat)
    requires Clears(g, h, c, w)
    ensures !Ended(g)
  {
    NotFine(g, c.y, c.x);
    if Diverges(g) {
      var i, j :| 0 <= i < |g| && 0 <= j < |g[i]| && g[i][j] != 0 && ScannedFine(g, i, j) &&
        CollectBlocks(g, j, i, Seed, None, Fuel).None?;
      FirstUnfineUnique(g, i, j, c.y, c.x);
    }
  }

  /** The next clear is determined by the arena: its cell is the first one the
      scan finds not fine, and the settled result is unique. */
  lemma ClearsUnique(g: Grid, h: Grid, c: Sweep, h': Grid, c': Sweep, w: nat)
    requires Clears(g, h, c, w) && Clears(g, h', c', w)
    ensures c == c' && h == h'
  {
    FirstUnfineUnique(g, c.y, c.x, c'.y, c'.x);
    SettledFromUnique(h, h', Cleared(g, c.blocks), w);
  }

  /** A chain without its first clear. */
  lemma ChainTail(trace: seq<Grid>, walks: seq<Sweep>, w: nat)
    requires Chain(trace, walks, w) && walks != []
    ensures Clears(trace[0], trace[1], walks[0], w)
    ensures Chain(trace[1..], walks[1..], w) && Final(trace[1..]) == Final(trace)
  {
    forall i | 0 <= i < |walks| - 1 ensures Clears(trace[1..][i], trace[1..][i + 1], walks[1..][i], w) {
      assert Clears(trace[i + 1], trace[i + 2], walks[i + 1], w);
    }
  }

  /** From a given arena there is exactly one chain of clears that ends where
      check stops, so check's result is determined by the arena it starts on. */
  lemma {:induction false} ChainUnique(t1: seq<Grid>, w1: seq<Sweep>, t2: seq<Grid>, w2: seq<Sweep>, w: nat)
    requires Chain(t1, w1, w) && Chain(t2, w2, w) && t1[0] == t2[0]
    requires Ended(Final(t1)) && Ended(Final(t2))
    ensures t1 == t2 && w1 == w2
    decreases |w1|
  {
    if w1 != [] && w2 != [] {
      ChainTail(t1, w1, w);
      ChainTail(t2, w2, w);
      ClearsUnique(t1[0], t1[1], w1[0], t2[1], w2[0], w);
      ChainUnique(t1[1..], w1[1..], t2[1..], w2[1..], w);
      assert t1 == [t1[0]] + t1[1..] && t2 == [t2[0]] + t2[1..];
      assert w1 == [w1[0]] + w1[1..] && w2 == [w2[0]] + w2[1..];
    } else if w1 != [] {
      ChainTail(t1, w1, w);
      ClearsNotEnded(t1[0], t1[1], w1[0], w);
      assert false;
    } else if w2 != [] {
      ChainTail(t2, w2, w);
      ClearsNotEnded(t2[0], t2[1], w2[0], w);
      assert false;
    }
  }

  /** check(arena, player): scans the arena row by row; every non-empty cell whose
      walk gives at least three records starts a clear (ClearAt) before the scan
      goes on. `records` counts the records cleared, ten points each. `ok` is false
      when a walk never ends; the arena and the score are then as the scan left
      them at that walk. */
  method Check(arena: array2<int>, score: int)
    returns (ok: bool, score': int, ghost records: nat, ghost trace: seq<Grid>, ghost walks: seq<Sweep>)
    requires IsColourGrid(Cells(arena))
    modifies arena
    ensures IsColourGrid(Cells(arena))
    ensures Chain(trace, walks, arena.Length1) && trace[0] == old(Cells(arena)) && Final(trace) == Cells(arena)
    ensures records == Total(walks) && score' == score + 10 * records
    ensures Count(old(Cells(arena)), arena.Length1) - records <= Count(Cells(arena), arena.Length1)
    ensures Count(Cells(arena), arena.Length1) <= Count(old(Cells(arena)), arena.Length1)
    ensures ok ==> Stable(Cells(arena))
    ensures !ok ==> Diverges(Cells(arena))
    ensures ok ==> (records == 0 <==> Cells(arena) == old(Cells(arena)))
    ensures Stable(old(Cells(arena))) ==> ok && Cells(arena) == old(Cells(arena)) && records == 0 && walks == []
    decreases Count(Cells(arena), arena.Length1), 2
  {
    ghost var g0 := Cells(arena);
    ghost var w := arena.Length1;
    records := 0;
    trace, walks := [g0], [];
    score' := score;
    var y := 0;
    while y < arena.Length0
      invariant 0 <= y <= arena.Length0
      invariant Invariant(arena, g0, records) && score' == score + 10 * records
      invariant Chain(trace, walks, w) && trace[0] == g0 && Final(trace) == Cells(arena) && records == Total(walks)
      invariant records == 0 ==> ScannedFine(g0, y, 0)
    {
      ok, score', records, trace, walks := CheckRow(arena, y, score', g0, score, records, trace, walks);
      if !ok {
        return;
      }
      y := y + 1;
    }
    if records == 0 {
      ScanAll(g0);
      GridExt(Cells(arena), g0, arena.Length0, w);
      TotalBound(trace, walks, w);
    }
    ok := true;
  }

  /** Row y of the scan in check, from column 0 on. */
  method CheckRow(arena: array2<int>, y: int, score: int, ghost g0: Grid, ghost base: int,
                  ghost records0: nat, ghost trace0: seq<Grid>, ghost walks0: seq<Sweep>)
    returns (ok: bool, score': int, ghost records: nat, ghost trace: seq<Grid>, ghost walks: seq<Sweep>)
    requires 0 <= y < arena.Length0
    requires Invariant(arena, g0, records0) && score == base + 10 * records0
    requires Chain(trace0, walks0, arena.Length1) && trace0[0] == g0 && Final(trace0) == Cells(arena)
    requires records0 == Total(walks0) && (records0 == 0 ==> ScannedFine(g0, y, 0))
    modifies arena
    ensures ok ==> Invariant(arena, g0, records)
    ensures !ok ==> !Stable(g0) && IsColourGrid(Cells(arena)) && Diverges(Cells(arena))
    ensures !ok ==> Count(g0, arena.Length1) - records <= Count(Cells(arena), arena.Length1) <= Count(g0, arena.Length1)
    ensures score' == base + 10 * records
    ensures Chain(trace, walks, arena.Length1) && trace[0] == g0 && Final(trace) == Cells(arena)
    ensures records == Total(walks) && (ok && records == 0 ==> ScannedFine(g0, y + 1, 0))
    decreases Count(Cells(arena), arena.Length1), 1
  {
    ghost var w := arena.Length1;
    ghost var c0 := Count(Cells(arena), w);
    score', records, trace, walks := score, records0, trace0, walks0;
    var x := 0;
    while x < arena.Length1
      invariant 0 <= x <= arena.Length1 && Count(Cells(arena), w) <= c0
      invariant Invariant(arena, g0, records) && score' == base + 10 * records
      invariant Chain(trace, walks, w) && trace[0] == g0 && Final(trace) == Cells(arena) && records == Total(walks)
      invariant records == 0 ==> ScannedFine(g0, y, x)
    {
      if arena[y, x] != 0 {
        var r := CollectBlocks(Cells(arena), x, y, Seed, None, Fuel);
        if r.None? {
          DivergesAt(Cells(arena), y, x);
          return false, score', records, trace, walks;
        }
        if |r.value| >= 3 {
          NotFine(Cells(arena), y, x);
          assert !Stable(g0);
          var ok', s, more, t', w' := ClearAt(arena, x, y, r.value, score');
          ChainAppend(trace, walks, t', w', w);
          score', records := s, records + more;
          trace, walks := trace + t'[1..], walks + w';
          if !ok' {
            return false, score', records, trace, walks;
          }
        }
      }
      if records == 0 {
        ScanStep(g0, y, x);
      }
      x := x + 1;
    }
    if records == 0 {
      ScanRow(g0, y);
    }
    ok := true;
  }

  /** One clear: the walk's cells are emptied, ten points per record are added,
      gravity is applied and check runs again on the result. */
  method ClearAt(arena: array2<int>, x: int, y: int, bs: seq<Block>, score: int)
    returns (ok: bool, score': int, ghost records: nat, ghost trace: seq<Grid>, ghost walks: seq<Sweep>)
    requires IsColourGrid(Cells(arena)) && OnGrid(Cells(arena), x, y) && arena[y, x] != 0
    requires CollectBlocks(Cells(arena), x, y, Seed, None, Fuel) == Some(bs) && |bs| >= 3
    requires ScannedFine(Cells(arena), y, x)
    modifies arena
    ensures IsColourGrid(Cells(arena))
    ensures Chain(trace, walks, arena.Length1) && trace[0] == old(Cells(arena)) && Final(trace) == Cells(arena)
    ensures walks != [] && walks[0] == Sweep(x, y, bs) && records == Total(walks)
    ensures score' == score + 10 * records && records >= |bs|
    ensures Count(old(Cells(arena)), arena.Length1) - records <= Count(Cells(arena), arena.Length1)
    ensures Count(Cells(arena), arena.Length1) < Count(old(Cells(arena)), arena.Length1)
    ensures ok ==> Stable(Cells(arena))
    ensures !ok ==> Diverges(Cells(arena))
    decreases Count(Cells(arena), arena.Length1), 0
  {
    ghost var g := Cells(arena);
    Remove(arena, x, y, bs);
    ghost var more, t, ws;
    ok, score', more, t, ws := Check(arena, score + |bs| * 10);
    records := |bs| + more;
    ChainCons(g, Sweep(x, y, bs), t, ws, arena.Length1);
    trace, walks := [g] + t, [Sweep(x, y, bs)] + ws;
  }

  /** The walk's cells emptied and gravity applied: the arena loses at least one
      and at most |bs| cells. */
  method Remove(arena: array2<int>, x: int, y: int, bs: seq<Block>)
    requires IsColourGrid(Cells(arena)) && OnGrid(Cells(arena), x, y) && arena[y, x] != 0
    requires CollectBlocks(Cells(arena), x, y, Seed, None, Fuel) == Some(bs)
    modifies arena
    ensures IsColourGrid(Cells(arena))
    ensures Count(old(Cells(arena)), arena.Length1) - |bs| <= Count(Cells(arena), arena.Length1)
    ensures Count(Cells(arena), arena.Length1) < Count(old(Cells(arena)), arena.Length1)
    ensures SettledFrom(Cells(arena), Cleared(old(Cells(arena)), bs), arena.Length1)
  {
    ghost var before := Cells(arena);
    ghost var w := arena.Length1;
    forall k | 0 <= k < |bs| ensures 0 <= bs[k].y < arena.Length0 && 0 <= bs[k].x < arena.Length1 {
      CollectedInColour(before, x, y, Seed, None, Fuel, bs[k]);
    }
    ClearBlocks(arena, bs);
    ghost var emptied := Cells(arena);
    assert IsColourGrid(emptied);
    ToNormal(arena);
    SettleKeepsCells(emptied, Cells(arena), w);
  }

  /** Every cell before (y, x) in row-major order is fine. */
  ghost predicate ScannedFine(g: Grid, y: int, x: int) {
    forall i, j :: 0 <= i < |g| && 0 <= j < |g[i]| && (i < y || (i == y && j < x)) ==> Fine(g, i, j)
  }

  /** A cell that starts a clear, or whose walk never ends, makes the arena unstable. */
  lemma NotFine(g: Grid, y: int, x: int)
    requires OnGrid(g, x, y) && !Fine(g, y, x)
    ensures !Stable(g)
  {
  }

  lemma ScanStep(g: Grid, y: int, x: int)
    requires ScannedFine(g, y, x) && OnGrid(g, x, y) && Fine(g, y, x)
    ensures ScannedFine(g, y, x + 1)
  {
  }

  lemma ScanRow(g: Grid, y: int)
    requires 0 <= y < |g| && ScannedFine(g, y, |g[y]|)
    ensures ScannedFine(g, y + 1, 0)
  {
  }

  lemma ScanAll(g: Grid)
    requires ScannedFine(g, |g|, 0)
    ensures Stable(g)
  {
  }

  /** What holds at every point of the scan in Check: before the first clear
      nothing has changed; after it the arena is stable and has lost at least one
      and at most `records` cells. */
  ghost predicate Invariant(arena: array2<int>, g0: Grid, records: nat)
    reads arena
  {
    IsGrid(g0, arena.Length0, arena.Length1) &&
    IsColourGrid(Cells(arena)) &&
    Count(g0, arena.Length1) - records <= Count(Cells(arena), arena.Length1) <= Count(g0, arena.Length1) &&
    (records == 0 ==> Cells(arena) == g0) &&
    (records > 0 ==> Stable(Cells(arena)) && Count(Cells(arena), arena.Length1) < Count(g0, arena.Length1)) &&
    (Stable(g0) ==> records == 0)
  }

  // ---------------------------------------------------------------- what check leaves

  /** A stable arena holds no same-colour 2 by 2 square: the walk from such a square
      never ends, so check stops there instead of returning. */
  lemma StableHasNoSquare(g: Grid, sx: int, sy: int, c: int)
    requires Stable(g) && c != 0
    ensures !Square(g, sx, sy, c)
  {
    if Square(g, sx, sy, c) {
      assert InColour(g, c, Pos(sx, sy));
      assert Fine(g, sy, sx);
      SquareNeverEnds(g, sx, sy, sx, sy, Fuel);
    }
  }

  /** A non-empty cell with no same-colour neighbour never starts a clear. */
  lemma IsolatedIsFine(g: Grid, x: int, y: int)
    requires OnGrid(g, x, y)
    requires !IsSame(g, x - 1, y, Some(g[y][x])) && !IsSame(g, x + 1, y, Some(g[y][x]))
    requires !IsSame(g, x, y - 1, Some(g[y][x])) && !IsSame(g, x, y + 1, Some(g[y][x]))
    ensures Fine(g, y, x)
  {
    IsolatedCell(g, x, y, Fuel);
  }

  /** An empty arena is stable. */
  lemma EmptyIsStable(h: nat, w: nat)
    ensures Stable(Empty(h, w))
  {
  }
}
