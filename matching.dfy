/** isSame and collectBlocks: the depth-first walk over same-colour neighbours
    that never steps straight back the way it came and keeps no visited set. */
module Matching {
  import opened Grid

  datatype Option<T> = None | Some(value: T)

  /** The direction object {x, y} a call of the walk receives: {0, 0} for the
      seed call, one step left, right, up (towards row 0) or down otherwise. */
  datatype Dir = Seed | Left | Right | Up | Down

  function DX(d: Dir): int {
    match d
    case Left => -1
    case Right => 1
    case _ => 0
  }

  function DY(d: Dir): int {
    match d
    case Up => -1
    case Down => 1
    case _ => 0
  }

  function Reverse(d: Dir): Dir {
    match d
    case Seed => Seed
    case Left => Right
    case Right => Left
    case Up => Down
    case Down => Up
  }

  /** One record of the walk: {y, x, color}. */
  datatype Block = Block(y: int, x: int, colour: int)

  datatype Pos = Pos(x: int, y: int)

  function Step(a: Pos, d: Dir): Pos {
    Pos(a.x + DX(d), a.y + DY(d))
  }

  /** isSame: with no colour yet (the seed) every probe matches; otherwise the
      probe must be on the grid and hold colour `c`. The ensures is the source
      predicate itself, with `arena[y] &&` read as the probe lying on the grid. */
  predicate IsSame(g: Grid, x: int, y: int, c: Option<int>): (b: bool)
    ensures b <==> c.None? || (OnGrid(g, x, y) && g[y][x] == c.value)
  {
    c.None? || (OnGrid(g, x, y) && g[y][x] == c.value)
  }

  /** The calls made from a cell reached in direction `d`, in the source's order:
      left, right, up, down from the seed; the two sideways steps and then
      straight on otherwise. */
  function Branches(d: Dir): (r: seq<Dir>)
    ensures d == Seed ==> |r| == 4 && r[1] == Reverse(r[0]) && r[3] == Reverse(r[2])
    ensures d != Seed ==> |r| == 3 && r[2] == d && r[1] == Reverse(r[0]) && r[0] != d && r[0] != Reverse(d)
  {
    match d
    case Seed => [Left, Right, Up, Down]
    case Up => [Left, Right, Up]
    case Down => [Left, Right, Down]
    case Left => [Up, Down, Left]
    case Right => [Up, Down, Right]
  }

  /** From the seed the walk tries all four steps; from any other cell it tries
      exactly the three steps other than straight back. */
  lemma BranchesAreForward(d: Dir, e: Dir)
    ensures e in Branches(d) <==> e != Seed && e != Reverse(d)
    ensures |Branches(d)| == if d == Seed then 4 else 3
  {
  }

  /** collectBlocks(arena, x, y, dirs, initialColor). The recursion is bounded by
      `fuel` calls deep; None means the bound was reached, standing for a walk the
      source never finishes. Some(records) is the source's result. */
  function CollectBlocks(g: Grid, x: int, y: int, d: Dir, initial: Option<int>, fuel: nat): (r: Option<seq<Block>>)
    requires initial.None? ==> OnGrid(g, x, y)
    ensures r.Some? && IsSame(g, x, y, initial) ==> r.value != [] && r.value[0] == Block(y, x, g[y][x])
    ensures r.Some? && !IsSame(g, x, y, initial) ==> r.value == []
    decreases fuel, 0
  {
    if fuel == 0 then None
    else if !IsSame(g, x, y, initial) then Some([])
    else
      var colour := g[y][x];
      match Explore(g, x, y, d, 0, colour, fuel - 1)
      case None => None
      case Some(rest) => Some([Block(y, x, colour)] + rest)
  }

  /** The concatenation of the calls towards branches k, k + 1, ... of `d`, in order. */
  function Explore(g: Grid, x: int, y: int, d: Dir, k: nat, colour: int, fuel: nat): (r: Option<seq<Block>>)
    requires k <= |Branches(d)|
    ensures k == |Branches(d)| ==> r == Some([])
    ensures k < |Branches(d)| && Towards(g, x, y, Branches(d)[k], colour, fuel).None? ==> r.None?
    ensures k < |Branches(d)| && r.Some? ==>
      Towards(g, x, y, Branches(d)[k], colour, fuel).Some? &&
      Towards(g, x, y, Branches(d)[k], colour, fuel).value <= r.value
    decreases fuel, |Branches(d)| - k + 2
  {
    if k == |Branches(d)| then Some([])
    else
      match Towards(g, x, y, Branches(d)[k], colour, fuel)
      case None => None
      case Some(first) =>
        match Explore(g, x, y, d, k + 1, colour, fuel)
        case None => None
        case Some(rest) => Some(first + rest)
  }

  /** getStash: the call one step `e` away, looking for `colour`. */
  function Towards(g: Grid, x: int, y: int, e: Dir, colour: int, fuel: nat): (r: Option<seq<Block>>)
    ensures r.Some? && IsSame(g, x + DX(e), y + DY(e), Some(colour)) ==>
      r.value != [] && r.value[0] == Block(y + DY(e), x + DX(e), colour)
    ensures r.Some? && !IsSame(g, x + DX(e), y + DY(e), Some(colour)) ==> r.value == []
    decreases fuel, 1
  {
    CollectBlocks(g, x + DX(e), y + DY(e), e, Some(colour), fuel)
  }

  // ---------------------------------------------------------------- walks

  function Last(p: seq<Pos>): Pos
    requires p != []
  {
    p[|p| - 1]
  }

  predicate Adjacent(a: Pos, b: Pos) {
    (a.x == b.x && (b.y == a.y + 1 || b.y == a.y - 1)) ||
    (a.y == b.y && (b.x == a.x + 1 || b.x == a.x - 1))
  }

  /** The step that leads from `a` to its neighbour `b`. */
  function DirOf(a: Pos, b: Pos): (e: Dir)
    requires Adjacent(a, b)
    ensures e != Seed && Step(a, e) == b
  {
    if b.x == a.x + 1 then Right
    else if b.x == a.x - 1 then Left
    else if b.y == a.y + 1 then Down
    else Up
  }

  ghost predicate InColour(g: Grid, c: int, a: Pos) {
    OnGrid(g, a.x, a.y) && g[a.y][a.x] == c
  }

  ghost predicate ColourAt(g: Grid, c: int, p: seq<Pos>, i: nat)
    requires i < |p|
  {
    InColour(g, c, p[i])
  }

  /** Step i of `p` goes straight back: p[i + 2] == p[i]. */
  predicate TurnsBack(p: seq<Pos>, i: nat)
    requires i + 2 < |p|
  {
    p[i + 2] == p[i]
  }

  predicate Links(p: seq<Pos>, i: nat)
    requires i + 1 < |p|
  {
    Adjacent(p[i], p[i + 1])
  }

  /** A path of same-colour 4-neighbours. */
  ghost predicate IsPath(g: Grid, c: int, p: seq<Pos>) {
    p != [] &&
    (forall i :: 0 <= i < |p| ==> ColourAt(g, c, p, i)) &&
    (forall i :: 0 <= i < |p| - 1 ==> Links(p, i))
  }

  /** A path that never steps straight back. */
  ghost predicate NoReversal(p: seq<Pos>) {
    forall i :: 0 <= i < |p| - 2 ==> !TurnsBack(p, i)
  }

  /** The first step of `p` is not the reverse of the arrival direction `d`. */
  predicate StartsAway(p: seq<Pos>, d: Dir) {
    d == Seed || |p| < 2 || p[1] != Step(p[0], Reverse(d))
  }

  /** A path that does not turn back, led by a step `e` from `a` other than the
      reverse of `d`, is again such a path. */
  lemma Prepend(g: Grid, c: int, a: Pos, d: Dir, e: Dir, q: seq<Pos>)
    requires e != Seed && e != Reverse(d) && InColour(g, c, a)
    requires IsPath(g, c, q) && NoReversal(q) && StartsAway(q, e) && q[0] == Step(a, e)
    ensures IsPath(g, c, [a] + q) && NoReversal([a] + q) && StartsAway([a] + q, d)
    ensures ([a] + q)[0] == a && Last([a] + q) == Last(q)
  {
    var p := [a] + q;
    assert forall i :: 0 < i < |p| ==> p[i] == q[i - 1];
    forall i | 0 <= i < |p| ensures ColourAt(g, c, p, i) {
      if i > 0 {
        assert ColourAt(g, c, q, i - 1);
      }
    }
    assert Links(p, 0);
    forall i | 0 < i < |p| - 1 ensures Links(p, i) {
      assert Links(q, i - 1);
    }
    if |q| > 1 {
      assert !TurnsBack(p, 0);
    }
    forall i | 0 < i < |p| - 2 ensures !TurnsBack(p, i) {
      assert !TurnsBack(q, i - 1);
    }
  }

  /** Dropping the first cell of a path that does not turn back leaves such a path,
      which does not begin against its own first step. */
  lemma Behead(g: Grid, c: int, p: seq<Pos>)
    requires |p| > 1 && IsPath(g, c, p) && NoReversal(p)
    ensures Adjacent(p[0], p[1])
    ensures IsPath(g, c, p[1..]) && NoReversal(p[1..])
    ensures StartsAway(p[1..], DirOf(p[0], p[1]))
    ensures Last(p[1..]) == Last(p)
  {
    var q := p[1..];
    assert Links(p, 0);
    forall i | 0 <= i < |q| ensures ColourAt(g, c, q, i) {
      assert ColourAt(g, c, p, i + 1);
    }
    forall i | 0 <= i < |q| - 1 ensures Links(q, i) {
      assert Links(p, i + 1);
    }
    if |q| > 1 {
      assert !TurnsBack(p, 0);
    }
    forall i | 0 <= i < |q| - 2 ensures !TurnsBack(q, i) {
      assert !TurnsBack(p, i + 1);
    }
  }

  /** Any same-colour path can be cut down to one that never steps straight back,
      with the same two ends. */
  lemma Straighten(g: Grid, c: int, p: seq<Pos>) returns (q: seq<Pos>)
    requires IsPath(g, c, p)
    ensures IsPath(g, c, q) && NoReversal(q) && q[0] == p[0] && Last(q) == Last(p)
    decreases |p|
  {
    if i :| 0 <= i < |p| - 2 && TurnsBack(p, i) {
      var p' := p[..i + 1] + p[i + 3..];
      assert |p'| == |p| - 2;
      assert forall k :: 0 <= k <= i ==> p'[k] == p[k];
      assert forall k :: i < k < |p'| ==> p'[k] == p[k + 2];
      forall k | 0 <= k < |p'| - 1 ensures Links(p', k) {
        if k < i {
          assert Links(p, k);
        } else if k == i {
          assert Links(p, i + 2);
          assert p[i + 2] == p[i];
        } else {
          assert Links(p, k + 2);
        }
      }
      forall k | 0 <= k < |p'| ensures ColourAt(g, c, p', k) {
        if k <= i { assert ColourAt(g, c, p, k); } else { assert ColourAt(g, c, p, k + 2); }
      }
      assert Last(p') == Last(p) by {
        if |p'| - 1 <= i {
          assert i == |p| - 3;
          assert Last(p) == p[i + 2];
        }
      }
      q := Straighten(g, c, p');
    } else {
      q := p;
    }
  }

  // ---------------------------------------------------------------- one call of the walk

  /** One call of the walk on a matching cell: its own record, then the calls
      towards its branches. */
  lemma CollectUnfold(g: Grid, x: int, y: int, d: Dir, initial: Option<int>, fuel: nat)
    requires initial.None? ==> OnGrid(g, x, y)
    requires fuel > 0 && IsSame(g, x, y, initial)
    ensures CollectBlocks(g, x, y, d, initial, fuel).Some? == Explore(g, x, y, d, 0, g[y][x], fuel - 1).Some?
    ensures CollectBlocks(g, x, y, d, initial, fuel).Some? ==>
      CollectBlocks(g, x, y, d, initial, fuel).value ==
        [Block(y, x, g[y][x])] + Explore(g, x, y, d, 0, g[y][x], fuel - 1).value
  {
  }

  /** Every branch from k on is explored, and its records are among the result. */
  lemma {:induction false} ExploreHas(g: Grid, x: int, y: int, d: Dir, k: nat, c: int, fuel: nat, j: nat)
    requires k <= j < |Branches(d)|
    requires Explore(g, x, y, d, k, c, fuel).Some?
    ensures Towards(g, x, y, Branches(d)[j], c, fuel).Some?
    ensures forall b :: b in Towards(g, x, y, Branches(d)[j], c, fuel).value ==>
      b in Explore(g, x, y, d, k, c, fuel).value
    decreases |Branches(d)| - k
  {
    if j != k {
      ExploreHas(g, x, y, d, k + 1, c, fuel, j);
    }
  }

  /** Every record of the result comes from the call towards some branch j >= k. */
  lemma {:induction false} ExploreFrom(g: Grid, x: int, y: int, d: Dir, k: nat, c: int, fuel: nat, b: Block) returns (j: nat)
    requires k <= |Branches(d)|
    requires Explore(g, x, y, d, k, c, fuel).Some? && b in Explore(g, x, y, d, k, c, fuel).value
    ensures k <= j < |Branches(d)| && Towards(g, x, y, Branches(d)[j], c, fuel).Some?
    ensures b in Towards(g, x, y, Branches(d)[j], c, fuel).value
    decreases |Branches(d)| - k
  {
    if b in Towards(g, x, y, Branches(d)[k], c, fuel).value {
      j := k;
    } else {
      j := ExploreFrom(g, x, y, d, k + 1, c, fuel, b);
    }
  }

  /** If the call towards one branch never ends, neither does the whole. */
  lemma {:induction false} ExploreNone(g: Grid, x: int, y: int, d: Dir, k: nat, c: int, fuel: nat, j: nat)
    requires k <= j < |Branches(d)| && Towards(g, x, y, Branches(d)[j], c, fuel).None?
    ensures Explore(g, x, y, d, k, c, fuel).None?
    decreases |Branches(d)| - k
  {
    if j != k && Towards(g, x, y, Branches(d)[k], c, fuel).Some? {
      ExploreNone(g, x, y, d, k + 1, c, fuel, j);
    }
  }

  /** When no branch finds a matching cell, the branches record nothing. */
  lemma {:induction false} ExploreEmpty(g: Grid, x: int, y: int, d: Dir, k: nat, c: int, fuel: nat)
    requires k <= |Branches(d)|
    requires forall j :: k <= j < |Branches(d)| ==> Towards(g, x, y, Branches(d)[j], c, fuel) == Some([])
    ensures Explore(g, x, y, d, k, c, fuel) == Some([])
    decreases |Branches(d)| - k
  {
    if k < |Branches(d)| {
      ExploreEmpty(g, x, y, d, k + 1, c, fuel);
      var none: seq<Block> := [];
      assert Towards(g, x, y, Branches(d)[k], c, fuel) == Some(none);
      assert none + none == none;
    }
  }

  /** A record other than the starting cell comes from the call towards one of
      the forward steps. */
  lemma CameFrom(g: Grid, x: int, y: int, d: Dir, initial: Option<int>, fuel: nat, b: Block) returns (e: Dir)
    requires initial.None? ==> OnGrid(g, x, y)
    requires CollectBlocks(g, x, y, d, initial, fuel).Some?
    requires b in CollectBlocks(g, x, y, d, initial, fuel).value
    requires fuel > 0 && IsSame(g, x, y, initial) && b != Block(y, x, g[y][x])
    ensures e != Seed && e != Reverse(d)
    ensures Towards(g, x, y, e, g[y][x], fuel - 1).Some? && b in Towards(g, x, y, e, g[y][x], fuel - 1).value
  {
    CollectUnfold(g, x, y, d, initial, fuel);
    var j := ExploreFrom(g, x, y, d, 0, g[y][x], fuel - 1, b);
    e := Branches(d)[j];
    BranchesAreForward(d, e);
  }

  /** The call towards every forward step is made, and its records are kept. */
  lemma Into(g: Grid, x: int, y: int, d: Dir, initial: Option<int>, fuel: nat, e: Dir)
    requires initial.None? ==> OnGrid(g, x, y)
    requires CollectBlocks(g, x, y, d, initial, fuel).Some?
    requires fuel > 0 && IsSame(g, x, y, initial) && e != Seed && e != Reverse(d)
    ensures Towards(g, x, y, e, g[y][x], fuel - 1).Some?
    ensures forall b :: b in Towards(g, x, y, e, g[y][x], fuel - 1).value ==>
      b in CollectBlocks(g, x, y, d, initial, fuel).value
  {
    CollectUnfold(g, x, y, d, initial, fuel);
    BranchesAreForward(d, e);
    var j :| 0 <= j < |Branches(d)| && Branches(d)[j] == e;
    ExploreHas(g, x, y, d, 0, g[y][x], fuel - 1, j);
  }

  /** A call towards a forward step that never ends stops the whole walk ending. */
  lemma Diverts(g: Grid, x: int, y: int, d: Dir, initial: Option<int>, fuel: nat, e: Dir)
    requires initial.None? ==> OnGrid(g, x, y)
    requires fuel > 0 && IsSame(g, x, y, initial) && e != Seed && e != Reverse(d)
    requires Towards(g, x, y, e, g[y][x], fuel - 1).None?
    ensures CollectBlocks(g, x, y, d, initial, fuel).None?
  {
    CollectUnfold(g, x, y, d, initial, fuel);
    BranchesAreForward(d, e);
    var j :| 0 <= j < |Branches(d)| && Branches(d)[j] == e;
    ExploreNone(g, x, y, d, 0, g[y][x], fuel - 1, j);
  }

  // ---------------------------------------------------------------- soundness and completeness

  /** The colour every record carries: the seed's, or the one the call was given. */
  function ColourOf(g: Grid, x: int, y: int, initial: Option<int>): int
    requires initial.None? ==> OnGrid(g, x, y)
  {
    if initial.Some? then initial.value else g[y][x]
  }

  /** The path behind a record: a same-colour path from the starting cell that
      never steps straight back and does not begin against the arrival direction. */
  lemma {:induction false} PathTo(g: Grid, x: int, y: int, d: Dir, initial: Option<int>, fuel: nat, b: Block)
    returns (p: seq<Pos>)
    requires initial.None? ==> OnGrid(g, x, y)
    requires CollectBlocks(g, x, y, d, initial, fuel).Some?
    requires b in CollectBlocks(g, x, y, d, initial, fuel).value
    ensures b.colour == ColourOf(g, x, y, initial)
    ensures IsPath(g, b.colour, p) && NoReversal(p) && StartsAway(p, d)
    ensures p[0] == Pos(x, y) && Last(p) == Pos(b.x, b.y)
    decreases fuel
  {
    assert fuel > 0 && IsSame(g, x, y, initial);
    var colour := g[y][x];
    if b == Block(y, x, colour) {
      p := [Pos(x, y)];
      assert ColourAt(g, b.colour, p, 0);
    } else {
      var e := CameFrom(g, x, y, d, initial, fuel, b);
      var q := PathTo(g, x + DX(e), y + DY(e), e, Some(colour), fuel - 1, b);
      assert InColour(g, b.colour, Pos(x, y));
      Prepend(g, b.colour, Pos(x, y), d, e, q);
      p := [Pos(x, y)] + q;
    }
    assert IsPath(g, b.colour, p) && NoReversal(p) && StartsAway(p, d);
    assert p[0] == Pos(x, y) && Last(p) == Pos(b.x, b.y);
  }

  /** Every record lies on the grid and holds the colour of the walk. */
  lemma CollectedInColour(g: Grid, x: int, y: int, d: Dir, initial: Option<int>, fuel: nat, b: Block)
    requires initial.None? ==> OnGrid(g, x, y)
    requires CollectBlocks(g, x, y, d, initial, fuel).Some?
    requires b in CollectBlocks(g, x, y, d, initial, fuel).value
    ensures OnGrid(g, b.x, b.y) && g[b.y][b.x] == b.colour == ColourOf(g, x, y, initial)
  {
    var p := PathTo(g, x, y, d, initial, fuel, b);
    assert ColourAt(g, b.colour, p, |p| - 1);
  }

  /** Every record is the end of a same-colour path from the starting cell that
      never steps straight back and does not begin against the arrival direction. */
  lemma CollectedAreReachable(g: Grid, x: int, y: int, d: Dir, initial: Option<int>, fuel: nat, b: Block)
    requires initial.None? ==> OnGrid(g, x, y)
    requires CollectBlocks(g, x, y, d, initial, fuel).Some?
    requires b in CollectBlocks(g, x, y, d, initial, fuel).value
    ensures exists p :: (IsPath(g, b.colour, p) && NoReversal(p) && StartsAway(p, d) &&
      p[0] == Pos(x, y) && Last(p) == Pos(b.x, b.y))
  {
    var p := PathTo(g, x, y, d, initial, fuel, b);
  }

  /** Every same-colour path from the starting cell that never steps straight back
      (and does not begin against the arrival direction) ends at a recorded cell. */
  lemma {:induction false} ReachableAreCollected(g: Grid, x: int, y: int, d: Dir, initial: Option<int>, fuel: nat, p: seq<Pos>)
    requires initial.None? ==> OnGrid(g, x, y)
    requires CollectBlocks(g, x, y, d, initial, fuel).Some?
    requires IsPath(g, ColourOf(g, x, y, initial), p)
    requires NoReversal(p) && StartsAway(p, d) && p[0] == Pos(x, y)
    ensures Block(Last(p).y, Last(p).x, ColourOf(g, x, y, initial)) in CollectBlocks(g, x, y, d, initial, fuel).value
    decreases |p|
  {
    var c := ColourOf(g, x, y, initial);
    assert ColourAt(g, c, p, 0);
    assert fuel > 0 && IsSame(g, x, y, initial);
    if |p| > 1 {
      Behead(g, c, p);
      var e := DirOf(p[0], p[1]);
      Into(g, x, y, d, initial, fuel, e);
      ReachableAreCollected(g, x + DX(e), y + DY(e), e, Some(g[y][x]), fuel - 1, p[1..]);
    } else {
      assert Last(p) == Pos(x, y);
    }
  }

  /** The walk from a seed cell records every cell joined to it by same-colour
      4-neighbours: no member of the region is missed. */
  lemma ConnectedAreCollected(g: Grid, x: int, y: int, fuel: nat, p: seq<Pos>)
    requires OnGrid(g, x, y)
    requires CollectBlocks(g, x, y, Seed, None, fuel).Some?
    requires IsPath(g, g[y][x], p) && p[0] == Pos(x, y)
    ensures Block(Last(p).y, Last(p).x, g[y][x]) in CollectBlocks(g, x, y, Seed, None, fuel).value
  {
    var q := Straighten(g, g[y][x], p);
    ReachableAreCollected(g, x, y, Seed, None, fuel, q);
  }

  // ---------------------------------------------------------------- small regions

  /** A seed whose four branches all record nothing is recorded alone. */
  lemma SeedAlone(g: Grid, x: int, y: int, fuel: nat)
    requires OnGrid(g, x, y) && fuel >= 2
    requires Towards(g, x, y, Left, g[y][x], fuel - 1) == Some([])
    requires Towards(g, x, y, Right, g[y][x], fuel - 1) == Some([])
    requires Towards(g, x, y, Up, g[y][x], fuel - 1) == Some([])
    requires Towards(g, x, y, Down, g[y][x], fuel - 1) == Some([])
    ensures CollectBlocks(g, x, y, Seed, None, fuel) == Some([Block(y, x, g[y][x])])
  {
    ExploreEmpty(g, x, y, Seed, 0, g[y][x], fuel - 1);
    CollectUnfold(g, x, y, Seed, None, fuel);
    assert [Block(y, x, g[y][x])] + [] == [Block(y, x, g[y][x])];
  }

  /** A cell with no neighbour of its own colour gives exactly one record. */
  lemma IsolatedCell(g: Grid, x: int, y: int, fuel: nat)
    requires OnGrid(g, x, y) && fuel >= 2
    requires !IsSame(g, x - 1, y, Some(g[y][x])) && !IsSame(g, x + 1, y, Some(g[y][x]))
    requires !IsSame(g, x, y - 1, Some(g[y][x])) && !IsSame(g, x, y + 1, Some(g[y][x]))
    ensures CollectBlocks(g, x, y, Seed, None, fuel) == Some([Block(y, x, g[y][x])])
  {
    var c := g[y][x];
    assert Towards(g, x, y, Left, c, fuel - 1) == Some([]);
    assert Towards(g, x, y, Right, c, fuel - 1) == Some([]);
    assert Towards(g, x, y, Up, c, fuel - 1) == Some([]);
    assert Towards(g, x, y, Down, c, fuel - 1) == Some([]);
    SeedAlone(g, x, y, fuel);
  }

  // ---------------------------------------------------------------- the walk around a square

  /** Four cells with top-left corner (sx, sy), all of colour c. */
  ghost predicate Square(g: Grid, sx: int, sy: int, c: int) {
    InColour(g, c, Pos(sx, sy)) && InColour(g, c, Pos(sx + 1, sy)) &&
    InColour(g, c, Pos(sx, sy + 1)) && InColour(g, c, Pos(sx + 1, sy + 1))
  }

  /** Reaching any cell of a same-colour square, from any direction, the walk turns
      into the square and goes round it without end. */
  lemma {:induction false} SquareLoops(g: Grid, sx: int, sy: int, c: int, x: int, y: int, d: Dir, fuel: nat)
    requires Square(g, sx, sy, c)
    requires (x == sx || x == sx + 1) && (y == sy || y == sy + 1)
    ensures CollectBlocks(g, x, y, d, Some(c), fuel).None?
    decreases fuel
  {
    if fuel > 0 {
      var e := if d == Left || d == Right then (if y == sy then Down else Up) else (if x == sx then Right else Left);
      assert InColour(g, c, Pos(x, y));
      SquareLoops(g, sx, sy, c, x + DX(e), y + DY(e), e, fuel - 1);
      Diverts(g, x, y, d, Some(c), fuel, e);
    }
  }

  /** A seed inside a same-colour 2 by 2 square never finishes its walk, whatever
      the bound: two same-colour pieces lying side by side are enough. */
  lemma SquareNeverEnds(g: Grid, sx: int, sy: int, x: int, y: int, fuel: nat)
    requires OnGrid(g, x, y) && Square(g, sx, sy, g[y][x])
    requires (x == sx || x == sx + 1) && (y == sy || y == sy + 1)
    ensures CollectBlocks(g, x, y, Seed, None, fuel).None?
  {
    if fuel > 0 {
      var e := if y == sy then Down else Up;
      SquareLoops(g, sx, sy, g[y][x], x + DX(e), y + DY(e), e, fuel - 1);
      Diverts(g, x, y, Seed, None, fuel, e);
    }
  }
}
