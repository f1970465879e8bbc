# LBChallenge game core in Dafny

This is a model of the game simulation in the LBChallenge colour puzzle.
Coloured light sources sit on the border of a rectangular board. Each
interior tile takes a blend of the four sources in its row and column. The
player gives the sources colours: the first three clicks hand out red, green
and blue, and at any time the player can drag a tile's colour onto a source.
After every move a scan marks the tile nearest the hidden target colour, if
one is no farther from it than black.
The game is won when the scan's answer is within 10 of the target on a
0-100 distance scale before the move budget runs out.

Modules, in dependency order:

- `Types` (types.dfy): the RGB triple, the three cell variants Blank, Tile
  and Source, the provider record `GameInfo`, and the cell constructors and
  colour setter. Cells are values. Each in-place field write of the program
  becomes a function that returns the updated cell, and the board stores it
  back at the cell's own position.
- `Color` (color.dfy): the distance `delta`. The model uses the squared
  Euclidean distance instead, because square roots are not exact. Lemmas
  show that every comparison the program makes on `delta` gives the same
  answer on the squared distance. `delta < 10` becomes a squared distance
  below 1950.75.
- `Diffusion` (diffusion.dfy): `recalcColor`. This is the weighted blend of
  four sources followed by normalisation with `f = 255 / max(r, g, b, 255)`.
  The lemmas give its bounds, its uniform scaling and its white and black
  cases.
- `Board` (board.dfy): the board geometry (corners, source places,
  interior), row-major order, the tracker type `Closest`, and `initBoard`.
- `Rules` (rules.dfy): the end-of-move bookkeeping (won flag, budget,
  dialogs) and the queue of three starting colours.
- `Game` (game.dfy): class `Session`, holding one game's state with the
  board as an `array2<Cell>` updated in place. It has the closest-tile scan
  (a nested loop), the row and column recomputation loops, the marker move,
  `processMove`, `sourceClick`, `sourceUpdate`, tile selection, and the set-up
  from a provider record.

`Session.Valid()` is the invariant. The board has the right layout, every
interior tile has the colour `recalcColor` gives it from the current
sources, and a tile is marked exactly when it is the tracked closest one.
The constructor establishes it and every operation keeps it.
`Session.Ranged()` says that the border colours, the queued colours and the
selection have channels in [0, 255]. `InteriorInRange` derives the same for
every interior tile, and every operation keeps it.

Two details of the program's scan shape what a move does, and the model
keeps both:

- The scan breaks ties towards the last equal tile in row-major order,
  because it compares with `<=`.
- The scan starts from an off-board black tile. A tile replaces black only
  when it is no farther from the target. So after a move there may be no
  marked tile at all, and the game can be won with no tile near the target
  (see Findings). `FindClosest` is this scan, and `Rescan`, `ProcessMove`,
  `SourceClick` and `SourceUpdate` use it. `FindClosestTile` is the
  corrected scan, which starts with no candidate. `RescanCorrected` and
  `ProcessMoveCorrected` are the move built on it.

## Model

| member | source | states |
|---|---|---|
| Types.ColorOrBlack | src/Types.tsx:32-34 | with no colour argument a cell is black; with one it has exactly that colour |
| Types.NewBlank | src/Types.tsx:37 | a new Blank has the constructor's colour |
| Types.NewTile | src/Types.tsx:39-41 | a new Tile is unmarked and has the constructor's colour |
| Types.NewSource | src/Types.tsx:43-52 | a new Source keeps the row and column it is given and passes the optional colour on, defaulting to black |
| Types.SetColors | src/Types.tsx:28-30 | `setColors` sets the colour and keeps the variant, a Source's row and column and a Tile's marker |
| Types.SetColorsTwice | src/Types.tsx:28-30 | the last colour set wins, and setting a cell's own colour changes nothing |
| Types.SetClosest | src/Main.tsx:146-147 | writing the marker of a Tile leaves it a Tile with the same colour and the given marker |
| Color.DeltaSq | src/Main.tsx:46-47 | the square of `delta` is nonnegative and is zero exactly when the colour is the target |
| Color.CloseEnough | src/Main.tsx:155 | the win test `delta < 10` holds exactly when the squared delta is below 100 |
| Color.NoFarther | src/Main.tsx:140 | the scan's test `delta(a) <= delta(b)` holds exactly when the squared deltas are so ordered |
| Color.SqDistMetric | src/Main.tsx:46-47 | the squared distance is symmetric and is zero exactly between equal colours |
| Color.DeltaOrder | src/Main.tsx:46-47 | for any nonnegative values whose squares are the two squared deltas, comparing them with `<=` gives the same answer as comparing squared distances |
| Color.DeltaBelowTen | src/Main.tsx:155 | a nonnegative delta is below 10 exactly when the squared distance is below 1950.75 |
| Color.RedFromBlack | src/Main.tsx:46-47 | delta between pure red and black is 100/sqrt 3, which is outside the tolerance |
| Color.HalfRedFromBlack | src/Main.tsx:46-47 | (127.5, 0, 0) is at squared distance 16256.25 from black, so its delta from a black target is about 28.87 |
| Color.TargetBeatsFar | src/Main.tsx:137-155 | the target's own colour is within the tolerance and strictly nearer than any colour outside it |
| Diffusion.Weigh | src/Main.tsx:95-96 | one pair of terms `x * p / m + y * q / m`: with weights summing to `m`, equal values are kept, and a zero weight leaves the other value alone |
| Diffusion.Pair | src/Main.tsx:95-96 | two opposite sources weighted by distance: equal sources give their own value, and each end of the line gets its own source's value |
| Diffusion.Blend | src/Main.tsx:94-98 | one raw channel: with equal left and right sources and equal top and bottom sources it is the sum of the two values |
| Diffusion.Mix | src/Main.tsx:94-108 | the raw blend of all three channels: with equal opposite sources each channel is the sum of the two values |
| Diffusion.RecalcColor | src/Main.tsx:91-114 | the raw blend when no channel exceeds 255; otherwise a colour whose brightest channel is exactly 255; never above 255, and nonnegative when the blend is |
| Diffusion.Factor | src/Main.tsx:110 | the factor lies in (0, 1] and is 1 when no raw channel exceeds 255 |
| Diffusion.Normalise | src/Main.tsx:110-112 | a blend within 255 is kept; otherwise the largest channel becomes exactly 255; the result never exceeds 255 and stays nonnegative |
| Diffusion.NormaliseScalesUniformly | src/Main.tsx:110-112 | the ratio between any two channels is kept, and no nonnegative channel grows |
| Diffusion.NormaliseIdempotent | src/Main.tsx:110-112 | normalising a normalised colour changes nothing |
| Diffusion.PairBounds | src/Main.tsx:96-99 | two opposite sources in [0, 255] blend to a value in [0, 255], since their weights sum to 1 |
| Diffusion.BlendBounds | src/Main.tsx:95-99 | each raw channel of a cell on or inside the border lies in [0, 510] |
| Diffusion.RecalcInRange | src/Main.tsx:91-114 | for a cell on or inside the border, all four sources in [0, 255] give a recomputed colour in [0, 255] |
| Diffusion.RecalcAllWhite | src/Main.tsx:93-112 | four white sources give a raw sum of 510, a factor of 1/2 and a white cell |
| Diffusion.RecalcAllBlack | src/Main.tsx:91-114 | four black sources give a black cell |
| Diffusion.RecalcTopRed | src/Main.tsx:91-114 | on a 3 x 3 board, red above the centre and black elsewhere give the centre (127.5, 0, 0) |
| Board.Partition | src/Main.tsx:11-24 | every on-board position is a corner, a source place or interior, and never both interior and border |
| Board.InitCell | src/Main.tsx:8-25 | the cell made at (i, j) fits its place (Blank corner, Source holding its own position, interior Tile), is black, and is marked only when it is the Tile at (1, 1) |
| Board.InitBoard | src/Main.tsx:7-28 | `length` rows of `width` cells: Blank corners, every other border cell a Source holding its own position, Tiles inside, all black, and only the Tile at (1, 1) marked |
| Board.InitBoardMarksFirst | src/Main.tsx:20-22 | when the interior is not empty, (1, 1) is a marked Tile |
| Board.InitBoardDiffused | src/Main.tsx:7-28 | on the new board every interior Tile already has the colour `recalcColor` gives it |
| Rules.EndTurn | src/Main.tsx:153-169 | once won nothing changes, not even the budget; otherwise the game is won iff moves remain and the tile is close enough; the loss dialog opens iff not won on the last move; the budget drops by one iff it is positive, on the winning move too, and never goes below 0; a restart happens iff an opened dialog is accepted |
| Rules.RunNeverNegative | src/Main.tsx:167-169 | over any number of moves the budget stays between 0 and its start |
| Rules.WonIsSticky | src/Main.tsx:153 | a won game stays won with its budget frozen, whatever moves follow |
| Rules.BudgetRunsOut | src/Main.tsx:155-169 | with no close-enough move the game is never won and each move spends one unit until none is left |
| Rules.Pop | src/Main.tsx:174 | popping gives the last element and the rest, or nothing when the queue is empty |
| Rules.InitialQueueOrder | src/Main.tsx:72 | the stored queue pops red, then green, then blue, then it is empty |
| Game.Session.constructor | src/Main.tsx:56-73 | the board is `initBoard` of the provider's dimensions plus 2; the budget, target and user id come from the record; the queue holds the three colours; the tracker is on (1, 1) when that is a Tile; both invariants hold |
| Game.Session.InteriorInRange | src/Main.tsx:91-114 | when the border colours are in [0, 255], so is every interior tile's colour |
| Game.Session.FindClosest | src/Main.tsx:137-144 | the scan returns the last interior Tile, in row-major order, of minimal distance among the Tiles no farther than black, or the black sentinel when there is none |
| Game.Session.ScanBeats | src/Main.tsx:137-144 | the scan's answer is no farther than any interior Tile and strictly nearer than every later one; the sentinel means every Tile is farther than black |
| Game.Session.ScanResultUnique | src/Main.tsx:137-144 | the scan's answer is determined by the board and the target |
| Game.Session.ScanDecidesWin | src/Main.tsx:137-155 | the program's closeness test after the scan succeeds iff some interior Tile is close enough or black itself is |
| Game.Session.SingleTileScan | src/Main.tsx:137-144 | with a single interior Tile, the scan keeps black iff that Tile is farther than black, and otherwise reports it |
| Game.Session.CentreUnderRed | src/Main.tsx:91-114 | on a 3 x 3 board whose tile has the colour its sources give it, red above the centre and black elsewhere make the centre (127.5, 0, 0) |
| Game.Session.SpuriousWin | src/Main.tsx:119-155 | with a black target and that centre tile, the scan as written ends on black, the closeness test succeeds, and the only tile is not close enough |
| Game.Session.FindClosestTile | src/Main.tsx:137-144 | the corrected scan returns the last nearest interior Tile, and the sentinel only when the interior has no Tile |
| Game.Session.NearestIsTile | src/Main.tsx:137-148 | when the interior is not empty the corrected scan reports an interior Tile, so a move leaves exactly one tile marked |
| Game.Session.SingleTileNearest | src/Main.tsx:137-144 | with a single interior Tile the corrected scan reports that Tile |
| Game.Session.NearestDecidesWin | src/Main.tsx:137-155 | with the corrected scan, the closeness test on a reported tile succeeds iff some interior Tile is close enough |
| Game.Session.NoSpuriousWin | src/Main.tsx:137-155 | on the board of SpuriousWin the corrected scan reports the centre tile and the closeness test fails |
| Game.Session.RecomputeRow | src/Main.tsx:123-127 | the interior cells of the row become new unmarked Tiles with their recomputed colour; every other cell is unchanged |
| Game.Session.RecomputeColumn | src/Main.tsx:128-133 | the same for the interior cells of the column |
| Game.Session.RecalcAt | src/Main.tsx:123-133 | `recalcColor` on the board's current sources for (i, j), in [0, 255] when those sources are |
| Game.Session.Mark | src/Main.tsx:146-147 | one marker write on the Tile at the given place; no other cell changes |
| Game.Session.MoveMarker | src/Main.tsx:146-148 | the old closest Tile is unmarked and the new one marked; the tracker becomes the new one; colours, variants and the invariant are kept |
| Game.Session.StoreSource | src/Main.tsx:120-133 | the source is stored and the interior of its row or column becomes new Tiles of the recomputed colour; no other cell changes |
| Game.Session.ApplySource | src/Main.tsx:118-133 | the source is stored; the interior of its row (left or right edge) or column (top or bottom edge) is recomputed; every other cell is unchanged; the colours stay consistent with the sources |
| Game.Session.Rescan | src/Main.tsx:135-148 | the tracker becomes the program's scan result (the last nearest Tile no farther than black, or black) and the marker moves to it; no colour or variant changes |
| Game.Session.RescanCorrected | src/Main.tsx:135-148 | the same with the corrected scan: the tracker becomes the last nearest interior Tile |
| Game.Session.MoveCells | src/Main.tsx:117-148 | the board part of a move: the source is stored, its line recomputed, the tracker set by the program's scan (or the corrected one) and the invariant kept; the colour range is kept for a source colour in range |
| Game.Session.RangeKept | src/Main.tsx:120 | storing an in-range source while the rest of the border stays the same keeps the colour range |
| Game.Session.SettleTurn | src/Main.tsx:151-169 | the won flag, the budget and the dialogs become what `EndTurn` gives for the tracked tile's closeness; the budget stays nonnegative |
| Game.Session.ProcessMove | src/Main.tsx:117-170 | the source's cell and its row or column interior are rewritten; elsewhere only the markers of the old and new closest tile change; the tracker is the program's scan result; won, budget and dialogs follow `EndTurn` for it; the invariant is kept, and so is the colour range when the source's colour is in range |
| Game.Session.ProcessMoveCorrected | src/Main.tsx:117-170 | the same move with the corrected scan: the tracker is the last nearest interior Tile |
| Game.Session.MoveBoard | src/Main.tsx:117-148 | after a move every interior cell is a Tile, recomputed on the source's line and kept elsewhere, and marked exactly when it is the tracked one |
| Game.Session.SourceClick | src/Main.tsx:173-180 | with colours queued, the last one is popped and given to the clicked source, and one move runs with the program's scan; with none queued nothing changes; the colour range is kept |
| Game.Session.SourceUpdate | src/Main.tsx:184-190 | with a tile selected, the selection is cleared, the source takes the tile's colour, and one move runs with the program's scan; with none nothing changes; the colour range is kept |
| Game.Session.SelectTile | src/Main.tsx:210 | the start of a drag remembers the dragged Tile's colour, which keeps the colour range |
| Game.Session.ClearSelection | src/Main.tsx:211 | the end of a drag forgets the selection, which keeps the colour range |

## Left out

- The provider request in `fetchGame`: the HTTP fetch, JSON parsing, async handling and error logging. The constructor takes the provider's `GameInfo` record as a value.
- React state and effects (`useState`, `useEffect`, the loading flag, stale closures, batched updates). Each handler runs on the session's current state.
- `resetGame` and its asynchronous reload. A move returns `restart` when the player accepts a dialog, and the caller replaces the whole session with a new one. The program also keeps the user id for the next request, and that is left to the caller.
- Rendering: `renderBoardElem`, `renderRow`, `RenderSampleEl`, the JSX, the MUI components, `getLabel`, `getCss`, and the rounded delta shown on screen. Of the drag plumbing only the optional selected colour is kept.
- `window.confirm`: the answers to the win and loss dialogs are boolean parameters.
- `Math.sqrt` and IEEE-754 rounding: channels are exact reals and `delta` is compared through squared distances.
- Game.Session.constructor: needs at least three target entries and nonnegative integer dimensions and budget. The program would read `undefined` channels or build odd arrays otherwise.
- Game.Session.constructor: when the new board has no Tile at (1, 1), the program keeps its previous tracker object. That object is not on the new board, and unmarking it changes nothing, so the model uses the sentinel, which has the same effect.
- A selection made before a reset survives it in the program. Here a new session starts with none.
- Types: the cells are values rather than shared objects. A write to a cell object becomes a store of the updated cell at that cell's board position. One write has no such position: when the old closest tile lay on the recomputed line, `closest.isClosest = false` (src/Main.tsx:146) changes a Tile object the loop has already replaced on the board. The model instead writes `false` onto the new Tile at that position, which is unmarked already. Neither write changes the board, so the board contents are the same.
- Game.Session.ProcessMove: keeps the colour range only for a source colour in range. Both callers pass one, and the program does not check it.
- Game.Session.ProcessMove: when the interior has no Tile at all (a provider width or height of 0), the tracker stays on the black starting value and the closeness test is made against black, as in the program.

## Findings

| source | as written | input that shows it | evidently intended | confidence | as-written member | corrected member |
|---|---|---|---|---|---|---|
| src/Main.tsx:119 | the scan's running best starts as an off-board black Tile and is replaced only by a Tile at least as close, so black takes part in the contest | target (0, 0, 0), a 1 x 1 interior, at least one move: the first click puts red above the only tile, giving (127.5, 0, 0) at delta about 28.9; the tile is farther than black, black stays the answer with delta 0 < 10, and the game is won, with no tile marked | the nearest interior tile decides the game, so a win needs a tile within the tolerance | not executed | Game.Session.SpuriousWin | Game.Session.NearestDecidesWin |

The as-written side is `FindClosest`. `ScanDecidesWin` shows that with it
the closeness test succeeds whenever black is within the tolerance, whatever
the tiles are. `CentreUnderRed` and `RecalcTopRed` give the tile colour of
the input above, and `SpuriousWin` shows that on that board the scan ends on
black and the test succeeds. The corrected side is `FindClosestTile`, which
starts with no candidate. `NearestDecidesWin` shows that with it the test
succeeds exactly when some tile is close enough, `NearestIsTile` that a tile
is always marked when the interior is not empty, and `NoSpuriousWin` that the input above no longer wins.
The session's moves follow the program and use `FindClosest`.
`ProcessMoveCorrected` is the same move with `FindClosestTile`.
