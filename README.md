# beatle-tetris grid engine in Dafny

A model of the grid engine of beatle-tetris, a browser game in one script
(`index.js`). The arena is 16 rows by 10 columns of cells. Each cell holds 0
(empty) or a colour 1..7. The player steers a 3 by 3 piece with a coloured
centre and one coloured edge cell. The piece can be moved sideways, turned and
dropped. When it lands it is merged into the arena and the arena settles under
gravity: every cell falls until it rests on another cell or on the floor.
Then `check` scans the arena. Every cell whose same-colour walk (`collectBlocks`)
yields three or more records is cleared, for ten points per record, and after
each clear the arena settles and is checked again. Then a new piece is spawned
at row -1, column 3. A spawn that collides empties the arena and zeroes the
score.

The model keeps the script's own algorithms and their quirks:

- **Arena and piece.** Both are `array2<int>`. The arena is a `const` field of
  the `Play.Game` class. The piece is a field that `playerReset` replaces with a
  fresh array.
- **`Grid.Cells`.** The spec functions read the arrays through `Grid.Cells`,
  which gives a value snapshot (`seq<seq<int>>`).
- **`collide`.** It only tests piece rows and columns 1 and 2. Every probe off
  the arena counts as a hit, on all four sides.
- **`rotate`.** The row reversal sits inside the inner swap loop. On a 3 by 3
  piece the edge cells turn a true quarter turn, but the corners follow another
  4-cycle. `Rotation.Rotated` states what the loop computes, and
  `Rotation.Turn` states the same thing as an explicit permutation.
- **`playerRotate`.** It tests the columns x0, x0+1, x0-1 and x0+2, in that
  order (`Play.Kicks`). The next shift, to x0-2, is never tested: the loop gives
  up once the offset passes the width of the piece.
- **`collectBlocks`.** It never steps straight back the way it came and keeps no
  visited set, so on a same-colour component with a cycle it never ends. In the
  script this ends in a stack overflow. Here it is a function with a fuel
  parameter that returns `None` when the fuel runs out. `Matching.SquareNeverEnds`
  proves that a 2 by 2 same-colour square gives `None` for every fuel.
- **`merge`.** It throws when it writes a non-empty piece cell to arena row -1.
  This can only happen for the unchecked top edge cell while the piece stands at
  row -1. The model reports it as the `Thrown` outcome and leaves every field as
  the exception leaves it.
- **`check`.** It returns `ok == false` when its row-major scan reaches, before
  any cell that starts a clear, a non-empty cell whose walk does not end.
  `playerDrop` then reports `Diverged`, with the fields as the scan left them.
  The keys can still move, turn and drop the piece, which stays where it
  was merged; the handlers only need it to fit there (`Play.Game.Placed`).

Files and modules:

| file | module | contents |
|---|---|---|
| grid.dfy | Grid | arena size, value view of arrays, `createMatrix`, cell counts |
| collision.dfy | Collision | `collide` |
| piece.dfy | Piece | piece shape, `createPiece` |
| rotation.dfy | Rotation | `rotate` and its permutation lemmas |
| gravity.dfy | Gravity | `toNormal` and what a settled column is |
| matching.dfy | Matching | `isSame`, `collectBlocks`, walks and paths |
| engine.dfy | Engine | `merge`, `check` |
| game.dfy | Play | player state, `playerReset`, `playerMove`, `playerRotate`, `playerDrop`, `update` |

Inputs that the script takes from the environment are parameters here:

- the two random colours of `createPiece`, as `a` and `b` in 1..7;
- the frame time stamp of `update`, as an integer number of milliseconds.

## Model

| member | source | states |
|---|---|---|
| Grid.ArenaSize | index.js:26 | the arena has 12 * 20 / 24 truncated = 10 columns and 20 * 20 / 24 truncated = 16 rows (Width and Height), with the scale 24 of line 7 |
| Grid.Put | index.js:146 | one arena write changes exactly that cell of the arena |
| Grid.CreateMatrix | index.js:217-222 | createMatrix(w, h) gives a new h by w matrix of zeros |
| Grid.Clear | index.js:56 | `row.fill(0)` on every row empties the whole arena and keeps its shape |
| Grid.CountSetZero | index.js:146 | emptying one cell lowers the number of non-empty cells by one exactly when that cell was non-empty |
| Grid.CountSameColumns | index.js:224-237 | two arenas whose columns hold the same non-empty values have the same number of non-empty cells |
| Collision.Collide | index.js:61-71 | collide is true exactly when some non-empty piece cell in row 1..2 and column 1..2 lands on an arena cell that is non-empty or off the arena on any side; nothing changes |
| Collision.IgnoresBorder | index.js:63-64 | collide never looks at piece row 0 or column 0: pieces that agree on rows and columns 1..2 collide alike |
| Collision.FreeMeansInside | index.js:65-69 | when the piece does not collide, every non-empty piece cell it tests lies on an empty arena cell |
| Piece.FreshIsPiece | index.js:40-46 | a new piece has empty corners, a coloured centre and exactly one coloured edge cell |
| Piece.CreatePiece | index.js:40-46 | createPiece gives a new 3 by 3 matrix whose middle row is 0, a, b and whose other cells are 0 |
| Rotation.SwapCells | index.js:195-201 | the destructuring swap exchanges cells [y][x] and [x][y] and nothing else |
| Rotation.ReverseRow | index.js:204 | `row.reverse()` on one row mirrors that row and leaves the others alone |
| Rotation.ReverseEachRow | index.js:204 | `matrix.forEach(row => row.reverse())` mirrors every row left to right |
| Rotation.SwapRows | index.js:206 | one exchange of matrix.reverse() swaps two rows and nothing else |
| Rotation.ReverseRowOrder | index.js:206 | `matrix.reverse()` turns the matrix upside down |
| Rotation.RotateStep | index.js:195-206 | one inner iteration: swap, then reverse rows (dir > 0) or row order (dir <= 0) |
| Rotation.RotateRow | index.js:194-207 | the inner loop runs the step for every x < y |
| Rotation.Rotate | index.js:192-209 | rotate(matrix, dir) on a square matrix leaves exactly `Rotated(old, dir)`, the nested loops' swap and reverse steps applied in order |
| Rotation.RotatedIsTurn | index.js:192-209 | on a 3 by 3 matrix the loop's result is the explicit permutation Turn |
| Rotation.RotatePiece | index.js:180 | turning the piece leaves Turn(old piece, dir) |
| Rotation.RotateEdges | index.js:192-209 | the centre stays put and the four edge cells move a quarter turn, clockwise for dir > 0 and counter-clockwise otherwise |
| Rotation.RotateCorners | index.js:192-209 | the corners follow their own 4-cycle, in the opposite sense to the edges |
| Rotation.RotateInverse | index.js:185 | for dir != 0, rotate(m, -dir) after rotate(m, dir) restores m: the rollback of playerRotate is exact |
| Rotation.TurnInverse | index.js:185 | the same inverse law for the explicit permutation |
| Rotation.RotateZeroNotInverse | index.js:203-206 | dir = 0 takes the row-order branch, and two such turns of a new piece do not restore it |
| Rotation.RotateFourTimes | index.js:192-209 | four turns in the same direction are the identity |
| Rotation.TurnFourTimes | index.js:192-209 | the same for the explicit permutation |
| Rotation.RotateKeepsPiece | index.js:192-209 | a turned piece is again a piece, with the same centre |
| Rotation.TurnKeepsPiece | index.js:192-209 | the same for the explicit permutation |
| Gravity.SettledColumns | index.js:228-234 | in an arena with no non-empty cell over an empty one, every column is settled |
| Gravity.SettleColumnProps | index.js:224-237 | the settled form of a column is settled and keeps the column's non-empty values in their top-to-bottom order |
| Gravity.SettledColumnIsSettle | index.js:224-237 | a column that is already settled is its own settled form |
| Gravity.SettleUnique | index.js:224-237 | the settled form is the only settled column of that length with those non-empty values in that order |
| Gravity.SettleIdempotent | index.js:224-237 | settling twice is settling once |
| Gravity.SwapDownColumn | index.js:231-232 | moving a value into the empty cell below it keeps the column's non-empty values and lowers its potential by one |
| Gravity.SwapDownGrid | index.js:231-232 | the same for one move in the arena: every column keeps its non-empty values and the total potential drops by one |
| Gravity.MoveDown | index.js:232 | the swap `[arena[y + 1][x], row[x]] = [row[x], 0]` moves exactly that one value down |
| Gravity.PassRow | index.js:229-234 | one row of a pass keeps every column's non-empty values; with no move it changes nothing and leaves no cell of that row over an empty cell |
| Gravity.Pass | index.js:227-235 | one pass keeps the columns' values and either lowers the potential (flag set) or changes nothing on a settled arena (flag clear) |
| Gravity.ToNormal | index.js:224-237 | toNormal terminates; afterwards no non-empty cell is over an empty one and every column is the settled form of what it held, so cells only move down inside their own column |
| Gravity.SettleKeepsCells | index.js:224-237 | settling keeps the number of non-empty cells and keeps every value a colour |
| Gravity.SettledIsFixed | index.js:224-237 | toNormal changes nothing on an arena that is already settled |
| Gravity.SettledFromUnique | index.js:224-237 | what toNormal leaves is determined by the arena it starts from |
| Matching.IsSame | index.js:88-90 | isSame itself: the seed call matches whatever it probes, and any later probe matches exactly a cell on the arena that holds the colour, so a probe off the arena never matches |
| Matching.Branches | index.js:97-128 | from the seed the calls go left, right, up, down, in opposite pairs; from any other cell the two sideways steps, in opposite directions, come first and straight on comes last |
| Matching.BranchesAreForward | index.js:96-128 | the seed call tries all four steps; any other call tries exactly the three steps other than straight back |
| Matching.CollectBlocks | index.js:92-132 | when the probe matches, the first record is the probe cell with its colour; when it does not, the result is empty |
| Matching.Explore | index.js:103-128 | the concatenation of the calls from branch k on: empty once every branch is done, not ending when branch k does not end, and otherwise starting with branch k's records |
| Matching.Towards | index.js:99-101 | getStash: the call one step away with the seed's colour; when that cell matches, its first record is that neighbour with the seed's colour, otherwise it gives no record |
| Matching.DirOf | index.js:100 | the step that leads to an adjacent cell |
| Matching.Prepend | index.js:100-128 | a step that does not turn back, followed by a path that does not turn back, is again such a path |
| Matching.Behead | index.js:100-128 | a path that does not turn back stays so without its first cell, and its second cell is reached by a step that is not straight back |
| Matching.Straighten | index.js:96-128 | every same-colour path has a same-colour path with the same ends that never turns back |
| Matching.CollectUnfold | index.js:93-111 | a matching call gives its own record followed by the records of its branches, in order |
| Matching.ExploreHas | index.js:105-128 | the records of every branch appear in the concatenation |
| Matching.ExploreFrom | index.js:105-128 | every record of the concatenation comes from one branch |
| Matching.ExploreNone | index.js:105-128 | one branch that does not end makes the whole walk not end |
| Matching.ExploreEmpty | index.js:105-128 | branches that all give nothing give nothing |
| Matching.CameFrom | index.js:100-128 | every record other than the call's own comes from a branch that does not turn back |
| Matching.Into | index.js:100-128 | every branch that does not turn back contributes all its records |
| Matching.Diverts | index.js:100-128 | a branch that does not end makes the call not end |
| Matching.PathTo | index.js:88-132 | every record has the seed's colour and is reached from the seed by a same-colour path that never turns back |
| Matching.CollectedInColour | index.js:88-95 | every record lies on the arena and holds the seed's colour |
| Matching.CollectedAreReachable | index.js:88-132 | every record is reachable from the seed through same-colour neighbours without turning back |
| Matching.ReachableAreCollected | index.js:88-132 | conversely, the end of every such path is among the records when the walk ends |
| Matching.ConnectedAreCollected | index.js:88-132 | when the walk from a seed ends, every cell linked to the seed by same-colour neighbours is among its records |
| Matching.SeedAlone | index.js:103-111 | with four empty branches the seed call gives just its own record |
| Matching.IsolatedCell | index.js:88-111 | a cell with no same-colour neighbour gives exactly one record |
| Matching.SquareLoops | index.js:92-128 | entering a 2 by 2 same-colour square from any side, the walk goes round it without end |
| Matching.SquareNeverEnds | index.js:92-132 | the walk from any cell of a 2 by 2 same-colour square does not end, whatever the fuel |
| Engine.Merged | index.js:239-246 | the merged arena: exactly the non-empty piece cells are written over the arena cells beneath them, every other cell is unchanged |
| Engine.CentreInside | index.js:61-71 | a piece that does not collide has its centre on the arena |
| Engine.PartialCells | index.js:240-245 | after the first cells of merge, in row-major order, exactly those cells are written |
| Engine.PartialMerged | index.js:239-246 | once all nine cells have been visited the arena is the merged arena |
| Engine.RestingFits | index.js:243 | a piece that does not collide can be merged: every non-empty cell below its top row has its arena row, and none lies right of the arena |
| Engine.Merge | index.js:239-246 | merge throws exactly when the top edge cell is non-empty at row -1, and then writes nothing; otherwise it leaves the merged arena |
| Engine.MergeRow | index.js:240-245 | one piece row of merge |
| Engine.MergeCell | index.js:241-244 | one piece cell of merge: written when non-empty, throwing on row -1 |
| Engine.MergedIsColourGrid | index.js:239-246 | merging a piece keeps every arena value a colour or 0 |
| Engine.MergedBlocksPiece | index.js:239-246 | after the merge the piece collides where it stood |
| Engine.Cleared | index.js:145-147 | the arena with the recorded cells emptied and every other cell unchanged |
| Engine.ClearedStep | index.js:145-147 | clearing one more record is one more cell write of 0 |
| Engine.ClearedNone | index.js:145-147 | clearing no records changes nothing |
| Engine.ClearBlocks | index.js:145-147 | the forEach that empties the recorded cells leaves the cleared arena; it removes at most one cell per record, and at least one when the first record's cell was non-empty |
| Engine.Check | index.js:134-153 | check goes from the old arena to the new one through a chain of clears; each clear starts at the first cell of the row-major scan that is not fine, a non-empty cell whose walk in the arena of that moment gave at least three records, and empties those records' cells and settles; the score grows by 10 times the total number of records of those walks; colours are kept; `ok` true means the new arena is stable, and changed exactly when something was cleared; `ok` false means the scan of the new arena reaches, before any other cell that is not fine, a non-empty cell whose walk does not end; a stable arena is left alone with no clear |
| Engine.CheckRow | index.js:136-151 | one row of the scan extends the chain of clears and the score by the clears it makes, and shows its cells fine when it makes none; when it stops, the arena it leaves has a first unfinished cell whose walk does not end |
| Engine.ClearAt | index.js:139-150 | one clear: the first link of the chain is the walk from (y, x), the first cell of the scan that is not fine, with its records, followed by the clears of the nested check; 10 points per record of every walk; at least one cell removed; the arena is stable when the nested check ends, and has a walk that does not end when it stops |
| Engine.Remove | index.js:145-149 | the arena becomes what toNormal makes of the arena with the records' cells emptied, and loses at least one and at most one cell per record |
| Engine.TotalAppend | index.js:143 | the records of two runs of clears add up |
| Engine.TotalBound | index.js:141 | every clear takes at least three records, so no records means no clear |
| Engine.ChainCons | index.js:139-150 | a clear followed by the chain of the nested check is a chain |
| Engine.ChainAppend | index.js:135-152 | the chain of the scan so far, continued by the chain of one more clear, is a chain |
| Engine.ChainTail | index.js:139-150 | a chain without its first clear is a chain with the same last arena |
| Engine.FirstUnfineUnique | index.js:135-141 | at most one cell of an arena is not fine while every cell before it in row-major order is fine |
| Engine.ClearsNotEnded | index.js:139-150 | an arena that a clear starts from is neither stable nor one whose first unfinished walk does not end |
| Engine.ClearsUnique | index.js:135-150 | the clear made from an arena is determined by it: the same cell, the same records and the same settled result |
| Engine.ChainUnique | index.js:134-153 | two chains of clears from the same arena that both end where check stops, stable or at a walk that does not end, are the same chain: the scan order fixes which clears check makes and what it leaves |
| Engine.DivergesAt | index.js:137-139 | a non-empty cell reached by the scan whose walk does not end is where check stops, and the arena is not stable |
| Engine.DivergesNotStable | index.js:134-153 | an arena where check stops at a walk that does not end is not stable |
| Engine.Fine | index.js:137-141 | an empty cell never starts a clear; a non-empty one does not start a clear exactly when its walk ends with one or two records |
| Engine.StableWalksEnd | index.js:137-141 | in a stable arena the walk from every non-empty cell ends, with one or two records |
| Engine.NotFine | index.js:137-141 | a cell that starts a clear, or whose walk does not end, makes the arena unstable |
| Engine.ScanStep | index.js:136-151 | the row-major scan moves on one cell past a fine cell |
| Engine.ScanRow | index.js:135-152 | the scan moves on to the next row |
| Engine.ScanAll | index.js:135-152 | a scan that found every cell fine shows the arena stable |
| Engine.StableHasNoSquare | index.js:134-153 | a stable arena contains no 2 by 2 same-colour square |
| Engine.IsolatedIsFine | index.js:137-141 | a cell with no same-colour neighbour never starts a clear |
| Engine.EmptyIsStable | index.js:134-153 | check has nothing to do on an empty arena |
| Play.FirstFree | index.js:181-189 | the first of the shifts 0, 1, -1, 2 at which the turned piece does not collide |
| Play.FirstFreeIsFirst | index.js:181-189 | every shift before the first free one collides; with none free, all four collide |
| Play.SpawnFree | index.js:54-56 | a piece never collides at the spawn position in an emptied arena |
| Play.Spawn | index.js:48-57 | a new piece at column 10 / 2 - 3 / 2 - 1 = 3 (integer halves), row -1; on a collision the arena is emptied, so the new piece rests |
| Play.Kick | index.js:179-189 | the loop tests the shifts 0, 1, -1, 2 in order, stops at the first free one, gives up after the fourth, and always terminates |
| Play.TurnAndKick | index.js:177-190 | the piece is turned and put at the first free shift, or, when there is none, turned back by -dir at its original column; the result is again a piece, and for dir != 0 it does not collide when it did not before |
| Play.Land | index.js:252-254 | merge, toNormal and check in turn on a piece that fits where it stands: a throw in merge changes nothing; otherwise check's chain of clears starts at what toNormal makes of the merged arena and ends at the new arena, the score grows by 10 per record of those clears, the arena has no more cells than the merged arena; when check returns the arena is stable, when it stops the arena's first unfinished walk does not end; it is the settled merged arena itself when that is already stable |
| Play.Game.constructor | index.js:20-34 | the initial state, followed by the `playerReset(); update();` start of lines 282-283: an empty 16 by 10 arena, a new piece at column 3, row -1, score 0 |
| Play.Game.PlayerReset | index.js:48-59 | a new piece at column 3, row -1; when it collides there, the score becomes 0 and the arena is emptied, otherwise both are kept; the new piece rests |
| Play.Game.PlayerMove | index.js:211-215 | the column becomes x0 + dir when the piece does not collide there and stays x0 otherwise; nothing else changes; a resting piece stays resting and a piece that fits stays fitting |
| Play.Game.PlayerRotate | index.js:177-190 | the piece ends turned at the first free shift, or turned back at its original column; row and score are kept; for dir != 0 a resting piece stays resting and a piece that fits stays fitting |
| Play.Game.PlayerDrop | index.js:248-258 | on a piece that fits where it stands (also after a walk that did not end): either the piece moves one row down (no collision there) with the counter reset, or it goes back to its row, the arena passes from the settled merged arena through check's chain of clears, and a new piece spawns with the counter reset: score 0 and an emptied arena when the new piece collides with check's result, otherwise that result with 10 points per record; a throw in merge changes nothing, and a walk that does not end leaves piece, position and counter, the arena check's result with its walk that does not end, and the points of the clears made; the piece still fits afterwards |
| Play.Game.LockPiece | index.js:250-257 | the collision branch: merge, toNormal and check as in Land on the piece where it stands, then the new piece at column 3, row -1, with score 0 and an emptied arena exactly when it collides with check's result, otherwise that result and the score plus 10 per record; when check stops at a walk that does not end, the arena is check's result and the piece is kept |
| Play.Game.Respawn | index.js:255-257 | playerReset followed by `dropCounter = 0`: the new piece rests at column 3, row -1, the counter is 0, and score and arena are reset exactly when the piece collides |
| Play.Game.ValidIsPlaced | index.js:61-71 | a piece that does not collide where it stands can be merged there |
| Play.Game.Update | index.js:167-175 | the counter grows by the time since the last frame and the time stamp is stored; when the counter then does not exceed 1000 nothing else changes; when it does, the drop is playerDrop's on the state before the call: one row down when the piece does not collide there, otherwise the throw of merge, or the landing with check's chain of clears and the spawn (counter 0), or the stop at a walk that does not end, each with playerDrop's effect on arena, piece, position and score |

## Left out

- Canvas, DOM and the score bar (`draw`, `drawMatrix`, `scoreUpd`, `createScoreBar`, `ctx.scale`): rendering side effects that play no part in the grid logic.
- `requestAnimationFrame` in `update`: the next frame is the caller's next call of `Play.Game.Update`.
- The keydown handler (index.js:270-280): a plain mapping of key codes onto `playerMove(1)`, `playerMove(-1)`, `playerRotate()` and `playerDrop()`, which are modelled on their own.
- `Math.random` in `rand` and `createPiece`: the two colours are parameters in 1..7.
- Matching.CollectBlocks: the script's stack overflow is a fuel bound of Height * Width + 1 nested calls (`Engine.Fuel`). It is not proved that this fuel is enough for every walk that ends in the script, so `None` means that the walk did not end within that depth.
- Matching.CollectBlocks: it is not proved that a cycle-free component yields each of its cells exactly once. The model lists the records as the script does, and the `Set` of line 139 does not remove duplicates because every record is a new object.
- Engine.Merge: it requires `Engine.Fits`, which excludes writes to rows below the arena and right of it. A resting piece fits (`Engine.RestingFits`), and every handler keeps the piece fitting, also after a walk that does not end (`Play.Game.Placed`), so the script never makes those writes either.
- Engine.Merge: a non-empty piece cell in column -1 is dropped, and so is every later effect of it. The script stores that colour as property `-1` of the row (index.js:243). It can get there because collide never tests piece column 0: after two turns the edge cell sits there, and playerMove(-1) can reach column -1. Later, `isSame` (index.js:89) can match that stored colour, so a walk from column 0 may record it, score it and reach three records where the model's walk does not. The clear `arena[e.y][-1] = 0` (index.js:146) then makes `collide` read 0 there (index.js:67-68), so column -1 becomes open to the piece, while the model keeps treating it as off the arena. This is a JS coercion accident that the model does not reproduce.
- Play.Game.PlayerRotate: for dir = 0 the turn back is not the inverse (`Rotation.RotateZeroNotInverse`). The script only calls playerRotate with dir 1, so the "stays resting" and "stays fitting" clauses are stated for dir != 0.
- Play.TurnAndKick: for the same reason its no-collision clause is stated for dir != 0; with dir = 0 and no free shift the piece ends as `Turn(Turn(p, 0), 0)`, which is not `p` and may collide.
- Play.Game.Update: when the drop it makes ends in `Thrown` or `Diverged`, the script's exception also skips `draw` and the next `requestAnimationFrame`, so the frames stop while the keys go on working; a drop from the keydown handler stops nothing. The model reports the outcome, states the fields as the exception leaves them, and leaves the next call to the caller.
- Frame time stamps are floating-point milliseconds in the browser and integers here.
- The implicit global `row` of `toNormal` (index.js:229) is a local in the model.
- Width and Height are the literals 10 and 16; `Grid.ArenaSize` proves that they are what line 26 computes.
- playerRotate's loop is split in two: `Play.Kick` runs the collision loop on the turned piece, and `Play.TurnAndKick` turns the piece back after the loop gives up. The script turns it back inside the loop just before returning, which leaves the same result.
