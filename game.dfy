/** The game state and the event handlers: the arena, the player record
    (piece, position, score) and the drop timer. */
module Play {
  import opened Grid
  import opened Collision
  import opened Piece
  import opened Rotation
  import opened Gravity
  import opened Matching
  import opened Engine

  /** Milliseconds between two automatic drops. */
  const DropInterval: int := 1000

  /** Horizontal shifts, relative to the column before the turn, at which
      playerRotate tests the turned piece, in order. */
  const Kicks: seq<int> := [0, 1, -1, 2]

  /** The first of the shifts Kicks[k..] at which the piece `m`, with its
      reference column at x0 + shift, does not collide; None when all collide. */
  ghost function FirstFree(g: Grid, m: Grid, x0: int, y: int, k: nat): (r: Option<nat>)
    requires k <= 4
    ensures r.Some? ==> k <= r.value < 4 && !Collides(g, m, x0 + Kicks[r.value], y)
    decreases 4 - k
  {
    if k == 4 then None
    else if !Collides(g, m, x0 + Kicks[k], y) then Some(k)
    else FirstFree(g, m, x0, y, k + 1)
  }

  /** FirstFree is the first free shift: every shift before it collides, and
      when there is none every shift collides. */
  lemma {:induction false} FirstFreeIsFirst(g: Grid, m: Grid, x0: int, y: int, k: nat)
    requires k <= 4
    ensures FirstFree(g, m, x0, y, k).Some? ==>
      forall j :: k <= j < FirstFree(g, m, x0, y, k).value ==> Collides(g, m, x0 + Kicks[j], y)
    ensures FirstFree(g, m, x0, y, k).None? ==> forall j :: k <= j < 4 ==> Collides(g, m, x0 + Kicks[j], y)
    decreases 4 - k
  {
    if k < 4 && Collides(g, m, x0 + Kicks[k], y) {
      FirstFreeIsFirst(g, m, x0, y, k + 1);
    }
  }

  /** What a call of playerDrop led to. */
  datatype Outcome =
    | Idle      // nothing dropped
    | Fell      // the piece moved one row down
    | Locked    // the piece was merged into the arena and a new one was spawned
    | Thrown    // merge wrote to row -1 and the call stopped with an exception
    | Diverged  // the walk in check did not end and the call stopped with an exception

  /** The arena is the player's empty field after a spawn collision. */
  lemma SpawnFree(m: Grid)
    requires IsPiece(m)
    ensures !Collides(Empty(Height, Width), m, 3, -1)
  {
  }

  /** The array work of playerReset: a new piece, its column
      (Width / 2) - (3 / 2) - 1, and the arena emptied when the piece collides
      at row -1 of that column. */
  method Spawn(arena: array2<int>, a: int, b: int) returns (m: array2<int>, x: int, hit: bool)
    requires IsColour(a) && IsColour(b)
    requires arena.Length0 == Height && arena.Length1 == Width && IsColourGrid(Cells(arena))
    modifies arena
    ensures fresh(m) && m.Length0 == Size && m.Length1 == Size && Cells(m) == Fresh(a, b)
    ensures x == 3 && hit == Collides(old(Cells(arena)), Fresh(a, b), 3, -1)
    ensures Cells(arena) == if hit then Empty(Height, Width) else old(Cells(arena))
    ensures IsColourGrid(Cells(arena)) && !Collides(Cells(arena), Fresh(a, b), 3, -1)
  {
    m := CreatePiece(a, b);
    x := arena.Length1 / 2 - m.Length1 / 2 - 1;
    hit := Collide(arena, m, x, -1);
    if hit {
      Clear(arena);
      FreshIsPiece(a, b);
      SpawnFree(Fresh(a, b));
    }
  }

  /** The loop of playerRotate: starting at column x0, shift the (already
      turned) piece by 1, -2, 3, -4 columns in turn while it collides, and give
      up once the next shift would exceed the width of the piece. Returns the
      first free column and true, or x0 and false. */
  method Kick(arena: array2<int>, piece: array2<int>, x0: int, y: int) returns (x: int, found: bool)
    requires piece.Length1 == Size
    ensures match FirstFree(Cells(arena), Cells(piece), x0, y, 0)
      case Some(k) => found && x == x0 + Kicks[k]
      case None => !found && x == x0
  {
    ghost var g, r := Cells(arena), Cells(piece);
    var offset := 1;
    x := x0;
    ghost var t := 0;
    var hit := Collide(arena, piece, x, y);
    while hit
      invariant 0 <= t < 4 && x == x0 + Kicks[t] && offset == [1, -2, 3, -4][t]
      invariant hit == Collides(g, r, x, y)
      invariant FirstFree(g, r, x0, y, t) == FirstFree(g, r, x0, y, 0)
      decreases 4 - t
    {
      x := x + offset;
      offset := -(offset + (if offset > 0 then 1 else -1));
      if offset > piece.Length1 {
        return x0, false;
      }
      t := t + 1;
      hit := Collide(arena, piece, x, y);
    }
    found := true;
  }

  /** playerRotate on the arrays: turn `piece` by `dir`, look for a free column
      with Kick, and turn the piece back by -dir when there is none. */
  method TurnAndKick(arena: array2<int>, piece: array2<int>, x0: int, y: int, dir: int) returns (x: int)
    requires arena != piece && piece.Length0 == Size && piece.Length1 == Size && IsPiece(Cells(piece))
    modifies piece
    ensures var r := Turn(old(Cells(piece)), dir);
      match FirstFree(Cells(arena), r, x0, y, 0)
      case Some(k) => Cells(piece) == r && x == x0 + Kicks[k]
      case None => Cells(piece) == Turn(r, -dir) && x == x0
    ensures IsPiece(Cells(piece))
    ensures dir != 0 && !Collides(Cells(arena), old(Cells(piece)), x0, y) ==>
      !Collides(Cells(arena), Cells(piece), x, y)
  {
    ghost var p := Cells(piece);
    RotatePiece(piece, dir);
    TurnKeepsPiece(p, dir);
    var found;
    x, found := Kick(arena, piece, x0, y);
    if !found {
      RotatePiece(piece, -dir);
      TurnKeepsPiece(Turn(p, dir), -dir);
      if dir != 0 {
        TurnInverse(p, dir);
      }
    }
  }

  /** The landing part of playerDrop: merge the piece into the arena,
      let the arena settle (toNormal), then run check. `thrown` is merge's
      exception, `ok` is false when the walk in check did not end. `trace` starts
      at the settled merged arena and lists the arenas check passes through. The
      piece need only fit where it stands: after a walk that did not end, the
      keys go on with the piece where it was merged, and it may overlap cells. */
  method Land(arena: array2<int>, piece: array2<int>, px: int, py: int, score: int)
    returns (thrown: bool, ok: bool, score': int, ghost records: nat,
             ghost trace: seq<Grid>, ghost walks: seq<Sweep>)
    requires arena != piece && arena.Length0 == Height && arena.Length1 == Width
    requires piece.Length0 == Size && piece.Length1 == Size && IsPiece(Cells(piece))
    requires IsColourGrid(Cells(arena)) && Fits(Cells(piece), px, py, Height, Width)
    modifies arena
    ensures thrown == (py == -1 && Cells(piece)[0][1] != 0)
    ensures thrown ==> Cells(arena) == old(Cells(arena))
    ensures !thrown ==>
      Chain(trace, walks, Width) && Final(trace) == Cells(arena) &&
      SettledFrom(trace[0], Merged(old(Cells(arena)), Cells(piece), px, py), Width)
    ensures !thrown ==> IsColourGrid(Cells(arena)) && records == Total(walks) && score' == score + 10 * records
    ensures !thrown ==> Count(Cells(arena), Width) <= Count(Merged(old(Cells(arena)), Cells(piece), px, py), Width)
    ensures !thrown && ok ==> Stable(Cells(arena))
    ensures !thrown && !ok ==> Diverges(Final(trace))
    ensures !thrown && Stable(trace[0]) ==> ok && walks == [] && Cells(arena) == trace[0]
  {
    ghost var g, p := Cells(arena), Cells(piece);
    thrown := Merge(arena, piece, px, py);
    if thrown {
      return true, true, score, 0, [g], [];
    }
    MergedIsColourGrid(g, p, px, py);
    ghost var merged := Cells(arena);
    ToNormal(arena);
    SettleKeepsCells(merged, Cells(arena), Width);
    ok, score', records, trace, walks := Check(arena, score);
  }

  class Game {
    /** The arena: Height rows of Width cells. */
    const arena: array2<int>
    /** player.matrix, player.pos.x, player.pos.y and player.score. */
    var piece: array2<int>
    var posX: int
    var posY: int
    var score: int
    /** Milliseconds since the last drop, and the time stamp of the last frame. */
    var dropCounter: int
    var lastTime: int

    /** Shapes and contents every state of the game has. */
    ghost predicate Wellformed()
      reads this`piece, arena, piece
    {
      arena.Length0 == Height && arena.Length1 == Width &&
      piece.Length0 == Size && piece.Length1 == Size && arena != piece &&
      IsPiece(Cells(piece)) && IsColourGrid(Cells(arena))
    }

    /** The piece does not collide where it stands. */
    ghost predicate Resting()
      reads this`piece, this`posX, this`posY, arena, piece
    {
      !Collides(Cells(arena), Cells(piece), posX, posY)
    }

    ghost predicate Valid()
      reads this`piece, this`posX, this`posY, arena, piece
    {
      Wellformed() && Resting()
    }

    /** The piece can be merged where it stands: every state the handlers reach
        when play goes on after a walk that did not end. */
    ghost predicate Placed()
      reads this`piece, this`posX, this`posY, arena, piece
    {
      Wellformed() && Fits(Cells(piece), posX, posY, Height, Width)
    }

    lemma ValidIsPlaced()
      requires Valid()
      ensures Placed()
    {
      RestingFits(Cells(arena), Cells(piece), posX, posY);
    }

    /** The start of the script: an empty arena, the initial matrix, then
        playerReset() and a first update() at time 0, which drops nothing. */
    constructor (a: int, b: int)
      requires IsColour(a) && IsColour(b)
      ensures Valid() && fresh(arena) && fresh(piece)
      ensures Cells(arena) == Empty(Height, Width) && Cells(piece) == Fresh(a, b)
      ensures posX == 3 && posY == -1 && score == 0 && dropCounter == 0 && lastTime == 0
    {
      var field := CreateMatrix(Width, Height);
      var first := CreatePiece(1, 1);
      arena := field;
      piece := first;
      posX, posY, score := 0, 0, 0;
      dropCounter, lastTime := 0, 0;
      new;
      PlayerReset(a, b);
    }

    /** playerReset: a new piece with colours `a` and `b` at row -1, column
        (Width / 2) - (3 / 2) - 1; when it collides there the score is reset
        and the arena emptied. */
    method PlayerReset(a: int, b: int)
      requires IsColour(a) && IsColour(b)
      requires arena.Length0 == Height && arena.Length1 == Width && IsColourGrid(Cells(arena))
      modifies this, arena
      ensures fresh(piece) && Cells(piece) == Fresh(a, b)
      ensures posX == 3 && posY == -1 && Valid()
      ensures Collides(old(Cells(arena)), Fresh(a, b), 3, -1) ==>
        score == 0 && Cells(arena) == Empty(Height, Width)
      ensures !Collides(old(Cells(arena)), Fresh(a, b), 3, -1) ==>
        score == old(score) && Cells(arena) == old(Cells(arena))
      ensures dropCounter == old(dropCounter) && lastTime == old(lastTime)
    {
      var m, x, hit := Spawn(arena, a, b);
      FreshIsPiece(a, b);
      if hit {
        score := 0;
      }
      piece, posX, posY := m, x, -1;
    }

    /** playerMove: one column to the side, undone when the piece then collides. */
    method PlayerMove(dir: int)
      requires Wellformed()
      modifies this
      ensures posX == if Collides(Cells(arena), Cells(piece), old(posX) + dir, posY)
                      then old(posX) else old(posX) + dir
      ensures posY == old(posY) && piece == old(piece) && score == old(score)
      ensures dropCounter == old(dropCounter) && lastTime == old(lastTime)
      ensures Wellformed() && (old(Resting()) ==> Resting()) && (old(Placed()) ==> Placed())
    {
      posX := posX + dir;
      var hit := Collide(arena, piece, posX, posY);
      if hit {
        posX := posX - dir;
      } else {
        RestingFits(Cells(arena), Cells(piece), posX, posY);
      }
    }

    /** playerRotate: turn the piece, then shift it by 1, -2, 3, -4 columns in
        turn while it collides; once the next shift would exceed the width of
        the piece, turn it back by -dir and restore the column. */
    method PlayerRotate(dir: int)
      requires Wellformed()
      modifies this, piece
      ensures piece == old(piece) && posY == old(posY) && score == old(score)
      ensures dropCounter == old(dropCounter) && lastTime == old(lastTime)
      ensures var r := Turn(old(Cells(piece)), dir);
        match FirstFree(Cells(arena), r, old(posX), posY, 0)
        case Some(k) => Cells(piece) == r && posX == old(posX) + Kicks[k]
        case None => Cells(piece) == Turn(r, -dir) && posX == old(posX)
      ensures Wellformed()
      ensures dir != 0 && old(Resting()) ==> Resting()
      ensures dir != 0 && old(Placed()) ==> Placed()
    {
      ghost var p := Cells(piece);
      posX := TurnAndKick(arena, piece, posX, posY, dir);
      match FirstFree(Cells(arena), Turn(p, dir), old(posX), posY, 0)
      case Some(k) => RestingFits(Cells(arena), Cells(piece), posX, posY);
      case None => if dir != 0 { TurnInverse(p, dir); }
    }

    /** playerDrop: one row down; on a collision the piece goes back up, is
        merged, the arena settles and is checked, and a new piece is spawned.
        The drop counter restarts unless a call in between threw. */
    method PlayerDrop(a: int, b: int)
      returns (outcome: Outcome, ghost records: nat, ghost trace: seq<Grid>, ghost walks: seq<Sweep>)
      requires Placed() && IsColour(a) && IsColour(b)
      modifies this, arena
      ensures outcome != Idle
      ensures (outcome == Fell) == !Collides(old(Cells(arena)), old(Cells(piece)), old(posX), old(posY) + 1)
      ensures outcome == Fell ==>
        posY == old(posY) + 1 && posX == old(posX) && piece == old(piece) &&
        Cells(arena) == old(Cells(arena)) && score == old(score) && dropCounter == 0
      ensures outcome == Thrown <==>
        Collides(old(Cells(arena)), old(Cells(piece)), old(posX), old(posY) + 1) &&
        old(posY) == -1 && old(Cells(piece))[0][1] != 0
      ensures outcome == Thrown ==>
        posY == old(posY) && posX == old(posX) && piece == old(piece) &&
        Cells(arena) == old(Cells(arena)) && score == old(score) && dropCounter == old(dropCounter)
      ensures outcome == Locked || outcome == Diverged ==>
        Chain(trace, walks, Width) && records == Total(walks) &&
        SettledFrom(trace[0], Merged(old(Cells(arena)), old(Cells(piece)), old(posX), old(posY)), Width)
      ensures outcome == Locked ==>
        fresh(piece) && Cells(piece) == Fresh(a, b) && posX == 3 && posY == -1 && dropCounter == 0 &&
        Stable(Final(trace)) &&
        (Collides(Final(trace), Fresh(a, b), 3, -1) ==> score == 0 && Cells(arena) == Empty(Height, Width)) &&
        (!Collides(Final(trace), Fresh(a, b), 3, -1) ==>
          score == old(score) + 10 * records && Cells(arena) == Final(trace))
      ensures outcome == Diverged ==>
        posY == old(posY) && posX == old(posX) && piece == old(piece) && Cells(arena) == Final(trace) &&
        Diverges(Final(trace)) && score == old(score) + 10 * records && dropCounter == old(dropCounter)
      ensures Placed() && (outcome == Fell || outcome == Locked ==> Valid())
      ensures lastTime == old(lastTime)
    {
      posY := posY + 1;
      var hit := Collide(arena, piece, posX, posY);
      if !hit {
        dropCounter := 0;
        RestingFits(Cells(arena), Cells(piece), posX, posY);
        return Fell, 0, [], [];
      }
      posY := posY - 1;
      outcome, records, trace, walks := LockPiece(a, b);
    }

    /** The collision branch of playerDrop, once the piece is back in its row:
        merge, settle and check the arena (Land), then spawn the next piece and
        restart the drop counter. */
    method LockPiece(a: int, b: int)
      returns (outcome: Outcome, ghost records: nat, ghost trace: seq<Grid>, ghost walks: seq<Sweep>)
      requires Placed() && IsColour(a) && IsColour(b)
      modifies this, arena
      ensures outcome == Thrown || outcome == Locked || outcome == Diverged
      ensures outcome == Thrown <==> old(posY) == -1 && old(Cells(piece))[0][1] != 0
      ensures outcome == Thrown ==>
        posY == old(posY) && posX == old(posX) && piece == old(piece) &&
        Cells(arena) == old(Cells(arena)) && score == old(score) && dropCounter == old(dropCounter)
      ensures outcome != Thrown ==>
        Chain(trace, walks, Width) && records == Total(walks) &&
        SettledFrom(trace[0], Merged(old(Cells(arena)), old(Cells(piece)), old(posX), old(posY)), Width)
      ensures outcome == Locked ==>
        fresh(piece) && Cells(piece) == Fresh(a, b) && posX == 3 && posY == -1 && dropCounter == 0 &&
        Stable(Final(trace)) &&
        (Collides(Final(trace), Fresh(a, b), 3, -1) ==> score == 0 && Cells(arena) == Empty(Height, Width)) &&
        (!Collides(Final(trace), Fresh(a, b), 3, -1) ==>
          score == old(score) + 10 * records && Cells(arena) == Final(trace))
      ensures outcome == Diverged ==>
        posY == old(posY) && posX == old(posX) && piece == old(piece) && Cells(arena) == Final(trace) &&
        Diverges(Final(trace)) && score == old(score) + 10 * records && dropCounter == old(dropCounter)
      ensures Placed() && (outcome == Locked ==> Valid())
      ensures lastTime == old(lastTime)
    {
      records, trace, walks := 0, [], [];
      var thrown, ok, s, n, t, ws := Land(arena, piece, posX, posY, score);
      if thrown {
        return Thrown, 0, [], [];
      }
      score, records, trace, walks := s, n, t, ws;
      if !ok {
        return Diverged, n, t, ws;
      }
      Respawn(a, b);
      outcome := Locked;
    }

    /** The end of the collision branch: playerReset, then the drop counter
        restarts. */
    method Respawn(a: int, b: int)
      requires IsColour(a) && IsColour(b)
      requires arena.Length0 == Height && arena.Length1 == Width && IsColourGrid(Cells(arena))
      modifies this, arena
      ensures fresh(piece) && Cells(piece) == Fresh(a, b) && posX == 3 && posY == -1 && dropCounter == 0
      ensures Collides(old(Cells(arena)), Fresh(a, b), 3, -1) ==>
        score == 0 && Cells(arena) == Empty(Height, Width)
      ensures !Collides(old(Cells(arena)), Fresh(a, b), 3, -1) ==>
        score == old(score) && Cells(arena) == old(Cells(arena))
      ensures Valid() && Placed() && lastTime == old(lastTime)
    {
      PlayerReset(a, b);
      dropCounter := 0;
      ValidIsPlaced();
    }

    /** update(time): the counter grows by the time since the last frame and
        a drop happens once it exceeds DropInterval; the drop is playerDrop on
        the state before the call, apart from the two timer fields. */
    method Update(time: int, a: int, b: int)
      returns (outcome: Outcome, ghost records: nat, ghost trace: seq<Grid>, ghost walks: seq<Sweep>)
      requires Placed() && IsColour(a) && IsColour(b)
      modifies this, arena
      ensures lastTime == time
      ensures (outcome == Idle) == (old(dropCounter) + (time - old(lastTime)) <= DropInterval)
      ensures outcome == Idle ==>
        dropCounter == old(dropCounter) + (time - old(lastTime)) && piece == old(piece) &&
        posX == old(posX) && posY == old(posY) && score == old(score) && Cells(arena) == old(Cells(arena))
      ensures outcome != Idle ==>
        ((outcome == Fell) == !Collides(old(Cells(arena)), old(Cells(piece)), old(posX), old(posY) + 1))
      ensures outcome == Fell ==>
        posY == old(posY) + 1 && posX == old(posX) && piece == old(piece) &&
        Cells(arena) == old(Cells(arena)) && score == old(score) && dropCounter == 0
      ensures outcome == Thrown <==>
        old(dropCounter) + (time - old(lastTime)) > DropInterval &&
        Collides(old(Cells(arena)), old(Cells(piece)), old(posX), old(posY) + 1) &&
        old(posY) == -1 && old(Cells(piece))[0][1] != 0
      ensures outcome == Thrown ==>
        posY == old(posY) && posX == old(posX) && piece == old(piece) &&
        Cells(arena) == old(Cells(arena)) && score == old(score)
      ensures outcome == Locked || outcome == Diverged ==>
        Chain(trace, walks, Width) && records == Total(walks) &&
        SettledFrom(trace[0], Merged(old(Cells(arena)), old(Cells(piece)), old(posX), old(posY)), Width)
      ensures outcome == Locked ==>
        fresh(piece) && Cells(piece) == Fresh(a, b) && posX == 3 && posY == -1 && dropCounter == 0 &&
        Stable(Final(trace)) &&
        (Collides(Final(trace), Fresh(a, b), 3, -1) ==> score == 0 && Cells(arena) == Empty(Height, Width)) &&
        (!Collides(Final(trace), Fresh(a, b), 3, -1) ==>
          score == old(score) + 10 * records && Cells(arena) == Final(trace))
      ensures outcome == Diverged ==>
        posY == old(posY) && posX == old(posX) && piece == old(piece) && Cells(arena) == Final(trace) &&
        Diverges(Final(trace)) && score == old(score) + 10 * records
      ensures outcome == Thrown || outcome == Diverged ==>
        dropCounter == old(dropCounter) + (time - old(lastTime))
      ensures Placed() && (outcome == Fell || outcome == Locked ==> Valid())
    {
      ghost var g, p := Cells(arena), Cells(piece);
      var delta := time - lastTime;
      lastTime := time;
      dropCounter := dropCounter + delta;
      assert Cells(arena) == g && Cells(piece) == p;
      if dropCounter > DropInterval {
        outcome, records, trace, walks := PlayerDrop(a, b);
      } else {
        outcome, records, trace, walks := Idle, 0, [], [];
      }
    }
  }
}
