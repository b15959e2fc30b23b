# 2048 grid engine, modelled in Dafny

This project models the grid engine of the sckroll 2048 game. That is the
board class of `js/Board.js`, the grid helpers of `js/utils.js` and the tile
spawner of `js/Block.js`, on the 4 x 4 grid fixed by `js/config.js`.

The board keeps `state`, a sequence of N row arrays. The outer JavaScript
array is a value that `move` reassigns. The rows are heap arrays, because
`reverseRowElements` reverses them in place, and a Left move therefore
mutates the caller's rows. A move works in three steps:

- It turns the grid so that every direction becomes "slide right": a
  transpose and/or a row reversal (`Align`).
- It scans every row with the two-pointer loop of `getAfterMoveData`,
  sliding and merging in place and emitting move descriptors (`MoveData`).
- It turns the grid back (`Restore`).

`update` then scores the merges, maintains `emptyPos` (the list of empty
cells) and advances the turn. A new block takes one entry out of
`emptyPos`, and the game-over test closes the turn.

The model is proved against independent reference definitions:

- `RowSlide.Slide` is the result of one row slide: the non-zero tiles, a
  greedy merge from the high end, then zero padding.
- `Moves.MoveGrid` is the whole-grid move: transform, slide every row,
  transform back.
- `Moves.Replay` is the meaning of the descriptors. A collapsed descriptor
  clears its cell. Any other descriptor clears its source cell and writes
  `nextValue` at its destination.
- `Grids.EmptyMirrors` is the meaning of `emptyPos`: exactly the zero cells,
  without duplicates.

The in-place scan is proved to produce `Slide` of its row and to emit
descriptors whose replay gives the moved grid. `update` is proved to keep
`emptyPos` equal to the zero cells. The turn as a whole is described by
`Boards.TurnPlayed`.

`Math.random()` is replaced by two parameters `rValue` and `rIndex` in
`[0, 1)`. The persisted high score (`getHighScore`) becomes a constructor
parameter. Coordinates are integer pairs, where the source uses the string
`` `${row}${col}` ``.

Three facts about the code are worth stating on their own:

- A merge turns `v, v` into `0, 2v`, so a move keeps the row sum
  (`RowSlide.SlideSum`).
- The collapsed descriptor of a merge names the anchor's cell, not the
  probe's (`js/Board.js:255-265`, `Moves.DescribeAllShaped`).
- The listener ignores input only once the game is cleared
  (`js/Board.js:350`). After a game over, arrow keys still run the turn,
  and so does `Boards.Board.KeyboardEventListener`.

## Model

| member | source | states |
|---|---|---|
| Boards.Board.constructor | js/Board.js:34-48 | a new board has an all-zero grid of fresh rows, every cell listed as empty, score 0, turn 1, largest value 0, not cleared, and the stored high score; the board invariant holds |
| Boards.Board.Initialize | js/Board.js:53-61 | builds N fresh rows of N zeros and appends every coordinate to `emptyPos`, in row-major order |
| Boards.Board.GetAfterMoveData | js/Board.js:238-302 | the row afterwards is `Slide` of the row before; the descriptors are those of the scan's slide/merge events, in scan order (anchor from the high end down; each probe passes only zeros), and replaying those events on the old row gives the new row; the values the merge events create are exactly `Merges` of the row's non-zero values; there are no descriptors exactly when the row is unchanged; descriptors have the per-event shape and no two collapsed descriptors share a cell; `largestNum` becomes the maximum of itself and every merged value |
| Boards.Board.ProbeAnchor | js/Board.js:244-298 | one pass of the probe loop for anchor `i`: afterwards no later probe can move or merge into the anchor, the events so far are emitted in order, the merge values still due are `Merges` of the untouched prefix, and descriptors and `largestNum` track the events |
| Boards.Board.MergeInto | js/Board.js:248-273 | an equal probe `j`: the probe becomes 0, the anchor doubles, one merge event is emitted with its two descriptors, `largestNum` takes the doubled value, and the anchor is closed |
| Boards.Board.SlideInto | js/Board.js:276-292 | a non-zero probe into an empty anchor: the two cells swap, one slide event and its descriptor are emitted, and the probe loop's invariant holds at the next probe |
| Boards.Board.Move | js/Board.js:308-343 | the grid becomes `MoveGrid(dir, old grid)`; descriptors are only appended, and the appended ones are exactly those of the scan events of the N transformed rows (`MoveMade`); replaying them on the old grid gives the new grid; none are appended exactly when the grid is unchanged; each carries the move's direction; `largestNum` follows the merges |
| Boards.MoveRecorded | js/Board.js:325-342 | the row loop's facts about the transformed board, read back through the inverse transform, are the move's facts about the grid |
| Boards.Board.Align | js/Board.js:312-322 | the working board holds the transformed grid (transpose for Down, row reversal for Left, both for Up, none for Right), on rows that are the state's own or fresh |
| Boards.Board.SlideRows | js/Board.js:325-330 | every row of the working board is slid; the descriptors appended are those of every row's scan events, row by row; replayed on the original grid they give the transformed-back result; none are appended exactly when nothing changes |
| Boards.Board.ScanRow | js/Board.js:326-329 | scanning row `row` slides it, leaves the other rows alone, and appends that row's descriptors, those of its scan events, so that the replay invariant extends to one more row |
| Boards.Board.Restore | js/Board.js:333-342 | `state` becomes the inverse transform of the working board |
| Boards.Board.IsStuck | js/Board.js:189-191 | stuck exactly when no descriptor was produced |
| Boards.Board.IsGameClear | js/Board.js:157-159 | cleared exactly when the largest merged value is 2048 |
| Boards.Board.IsGameOver | js/Board.js:165-183 | game over exactly when `emptyPos` is empty and no two horizontally or vertically adjacent cells are equal |
| Boards.Board.Update | js/Board.js:196-229 | `emptyPos` becomes the zero cells of the moved grid; score rises by the merges' gain; the high score becomes the maximum of itself and the score when anything was gained; descriptors are cleared; turn rises by one |
| Boards.Board.UpdateAll | js/Board.js:197-218 | the loop over the descriptors keeps `emptyPos` equal to the zero cells of the partly replayed grid and the score and high score equal to their closed forms |
| Boards.Board.UpdateOne | js/Board.js:201-217 | one descriptor: a collapsed one adds `2 * nextValue` to the score and raises the high score past it; any other removes its destination from `emptyPos` (JavaScript `splice` semantics for a missing entry); its source is appended |
| Boards.Board.CreateBlock | js/Board.js:67-70 | the new block takes the value and the `emptyPos` entry chosen by the random parameters; that entry is removed, order kept; exactly that cell of the grid is written; `emptyPos` still lists exactly the zero cells and the grid still holds only tiles when it did before |
| Boards.Board.KeyboardEventListener | js/Board.js:349-382 | when cleared or for a non-arrow key nothing changes; otherwise one turn as `TurnPlayed` describes (see `PlayTurn`); the board invariant is kept |
| Boards.Board.PlayTurn | js/Board.js:353-381 | the arrow-key branch: `prevState` holds a copy of the old grid; the descriptors are those of the scan events of the transformed rows and replay the move; a move with no descriptors leaves the grid, `emptyPos`, score, high score, largest value, turn and flags as they were and is not game over; any other move scores, advances the turn, sets `cleared` exactly when 2048 was made, spawns a 2 or 4 on the entry `rIndex` picks from the list `update` left, removing that entry, and reports game over exactly when the board is full and locked |
| Boards.TurnScored | js/Board.js:196-229 | over a whole turn, score, high score, largest merged value, turn and cleared flag are functions of the grid before the move: the score rises by `MoveGain` (twice the value of every pair the reference merge joins, js/Board.js:205), `largestNum` becomes `MoveLargest` (js/Board.js:271), the turn rises by one and `cleared` is set exactly at 2048 (js/Board.js:366); a move that changes nothing changes none of them |
| Boards.Board.EndTurn | js/Board.js:361-379 | after a move that changed the grid: update and the clear test, then the new block and the game-over test; `prevState` is untouched |
| Boards.Board.CopyAndMove | js/Board.js:355-358 | `prevState` is a copy of the grid on fresh rows that the move does not touch; the grid is moved; the descriptors are those of the scan events of the N transformed rows (each event list satisfying `RowEvents`: scan order, replays to `Slide`, merges `Merges`), replay the move, carry its direction, and are empty exactly when nothing changed |
| Boards.Board.UpdateTurn | js/Board.js:361-370 | after a move that changed the grid: update plus the clear test; `emptyPos` becomes `EmptyAfterAll` of the old list and the descriptors, in order; the grid keeps only tiles, `emptyPos` mirrors it and is non-empty; score, high score, turn and `cleared` as `Scored` states |
| Boards.Board.SpawnAndCheck | js/Board.js:372-379 | the new block goes onto the `emptyPos` entry at `PickIndex(rIndex, length)`, a cell that was empty; that entry leaves the list and the rest keep their order; the grid changes at that cell only; game over is decided on the result; the rows of `prevState` are untouched |
| Moves.ArrowDirection | js/Board.js:352-353 | a key is accepted exactly when it is one of the four arrow keys, and its direction is the key without the `Arrow` prefix (js/Board.js:309) |
| Moves.ForwardAt | js/Board.js:312-322 | cell `(idx, c)` of the transformed grid is the original grid's cell at `Pos(dir, idx, c)`, the per-direction coordinate map |
| Moves.BackAt | js/Board.js:333-342 | transforming back puts cell `(idx, c)` at `Pos(dir, idx, c)` |
| Moves.PosInjective | js/Board.js:254-265 | different positions in one transformed row map to different grid cells |
| Moves.RoundTrip | js/Board.js:313-342 | for every direction, the inverse transform of `move` undoes its forward transform |
| Moves.RoundTripBack | js/Board.js:313-342 | the forward transform undoes the inverse transform |
| Moves.BackSetCell | js/Board.js:333-342 | writing a transformed cell and transforming back equals writing the mapped cell |
| Moves.ReplayRowChanges | js/Board.js:245-296 | every slide or merge strictly lowers a weight of the row, so a non-empty event list always changes the row |
| Moves.StepRow | js/Board.js:244-296 | an event applies only when its probe lies below its anchor inside the row with only zeros between them, so no probe jumps a tile; the row keeps its length |
| Moves.GainDescribed | js/Board.js:203-205 | the score a row's descriptors earn in `update` is the sum of the values its merge events create |
| Moves.LargestDescribed | js/Board.js:271 | `largestNum` after a row's descriptors is the maximum of its old value and the values the merge events create |
| Moves.EventsGain | js/Board.js:203-205 | the descriptors of the first rows' events earn exactly `RowsGain`, the sum of the reference merge values of those rows |
| Moves.EventsLargest | js/Board.js:271 | `largestNum` after the first rows' descriptors is `RowsLargest`, the maximum over the reference merge values of those rows |
| Moves.PairRowMerges | js/Board.js:248-251 | the row 2, 2, 0, 0 creates exactly one merged value, 4 |
| Moves.PairMoveGain | js/Board.js:203-205 | with 2, 2, 0, 0 as first row of an otherwise empty grid, a Right move earns exactly 4 points and makes 4 the largest value |
| Moves.DescribeAllDirection | js/Board.js:254-291 | every descriptor carries the move's direction |
| Moves.DescribeAllShaped | js/Board.js:253-268 | a merge emits a collapsed descriptor at the anchor with `prevValue == nextValue`, then a descriptor from probe to anchor with `nextValue == 2 * prevValue`; a slide emits one descriptor with `prevValue == nextValue` |
| Moves.CollapsedMerged | js/Board.js:250-268 | every collapsed descriptor sits on a cell that a merge of the row doubled |
| Moves.CollapsedDistinct | js/Board.js:242-273 | no two collapsed descriptors of one row name the same cell: a doubled cell is never merged again in the same move |
| Moves.DescribeAllEmpty | js/Board.js:245-296 | a row emits no descriptors exactly when it has no events |
| Moves.ApplyShift | js/Board.js:283-291 | a slide descriptor, replayed on the grid, moves the value from probe to anchor |
| Moves.ApplyCollapse | js/Board.js:254-265 | a collapsed descriptor clears the anchor cell |
| Moves.MergeShift | js/Board.js:254-265 | a merge's second descriptor moves the probe's value to the anchor, doubled |
| Moves.DescribeMerge | js/Board.js:248-268 | the two descriptors of a merge, replayed, empty the probe and double the anchor |
| Moves.DescribeStep | js/Board.js:245-292 | replaying one event's descriptors equals applying the event to its row |
| Moves.DescribeReplay | js/Board.js:238-302 | replaying a row's descriptors on the grid equals replaying its events on the row |
| Moves.LargestAfterAppend | js/Board.js:271 | `largestNum` over two batches of descriptors is `largestNum` over the first, then the second |
| Moves.LargestAfterGrows | js/Board.js:271 | `largestNum` never decreases |
| Moves.RowScanned | js/Board.js:325-330 | one more scanned row extends the replay of the descriptors to one more slid row |
| Moves.SlidePrefixChanged | js/Board.js:325-330 | the rows scanned so far are unchanged exactly when each of them was already slid |
| RowScan.Record | js/Board.js:24-27 | a descriptor built from anchor and probe indices names the mapped grid cells, the values, the collapsed flag and the direction |
| RowScan.ScanDone | js/Board.js:242 | once the anchor reaches index 0 the row equals `Slide` of the original row |
| RowScan.NextAnchor | js/Board.js:242-299 | closing anchor `i` keeps the row equal to the slide of its prefix followed by its untouched suffix |
| RowScan.TrackMerge | js/Board.js:250-271 | a merge's two descriptors and the new `largestNum` are those of a merge event |
| RowScan.TrackSlide | js/Board.js:278-292 | a slide's descriptor is that of a slide event |
| RowScan.ScanMerged | js/Board.js:242-299 | once the scan ends the merge values emitted are exactly `Merges` of the row's non-zero values |
| RowScan.RowRecordsPushed | js/Board.js:328 | pushing one more row's descriptors onto those of the earlier rows gives the descriptors of all rows so far |
| RowScan.RowPushed | js/Board.js:326-329 | pushing a row's descriptors keeps the invariant over all rows scanned so far |
| RowSlide.MergesCount | js/Board.js:248-251 | every pair the merge joins costs one value: the merged list and the merge values together account for every input value |
| RowSlide.MergesShown | js/Board.js:251 | every merge value appears in the merged row |
| RowSlide.SlideSum | js/Board.js:248-251 | a slide keeps the row sum: `v, v` becomes `0, 2v` and a slide swaps a value with a 0 (js/Board.js:276-280) |
| RowSlide.SumMerge | js/Board.js:248-251 | merging keeps the sum |
| RowSlide.SumNonZeros | js/Board.js:276-280 | dropping zeros keeps the sum |
| RowSlide.SlideCompacted | js/Board.js:242-299 | after a slide no zero sits to the high side of a non-zero |
| RowSlide.SlideTiles | js/Board.js:250-251 | a row of tiles (0 or powers of two at least 2) slides to a row of tiles |
| RowSlide.MergeTiles | js/Board.js:250-251 | merging tiles gives tiles |
| RowSlide.MergeNonZero | js/Board.js:250-251 | merging non-zero values gives non-zero values |
| RowSlide.MergeNoEqualNeighbours | js/Board.js:274-296 | with no two equal neighbours nothing merges |
| RowSlide.SlideBlocked | js/Board.js:274-296 | a full row with no equal neighbours does not move |
| RowSlide.SlideZeros | js/Board.js:245-247 | an empty row does not move |
| RowSlide.SlideLoneTile | js/Board.js:276-292 | `[2, 0, 0, 0]` slides to `[0, 0, 0, 2]` |
| RowSlide.SlidePair | js/Board.js:248-273 | `[2, 2, 0, 0]` slides to `[0, 0, 0, 4]` |
| RowSlide.SlideFourEqual | js/Board.js:248-273 | `[2, 2, 2, 2]` slides to `[0, 0, 4, 4]`: a doubled cell is not merged again |
| RowSlide.SlideAlternating | js/Board.js:189-191 | `[2, 4, 2, 4]` does not move, so a Right move on it produces no descriptors |
| RowSlide.CloseMerged | js/Board.js:248-273 | a merge at anchor `i` completes the slide of the row's prefix up to `i` |
| RowSlide.CloseBlocked | js/Board.js:293-296 | a blocked probe completes the slide of the prefix up to `i` |
| RowSlide.CloseExhausted | js/Board.js:244 | an anchor whose probes all were zero completes the slide of the prefix up to `i` |
| Turns.EmptyAfterMirrors | js/Board.js:213-217 | one descriptor keeps `emptyPos` equal to the zero cells; for a non-collapsed descriptor `findIndex` finds its destination |
| Turns.EmptyAfterAllMirrors | js/Board.js:197-218 | all descriptors of a move keep `emptyPos` equal to the zero cells of the replayed grid |
| Turns.UpdatingStep | js/Board.js:197-218 | one iteration of `update`'s loop keeps its invariant and finds the destination cell |
| Turns.UpdatingDone | js/Board.js:197-218 | at the end of the loop `emptyPos` mirrors the moved grid and score and high score have their closed forms |
| Turns.UpdateStep | js/Board.js:201-217 | one descriptor at a time: replay, `emptyPos` and gain advance together |
| Turns.HighScoreStep | js/Board.js:209-212 | raising the high score whenever the score passes it gives the maximum of the old high score and the final score |
| Turns.ReplayTiles | js/Board.js:248-251 | replaying a move's descriptors keeps every cell a tile |
| Turns.ApplyTiles | js/Board.js:248-251 | one descriptor keeps every cell a tile and moves only values of at least 2 |
| Turns.DoubleTile | js/Board.js:251 | doubling a tile gives a tile |
| Turns.ReplayLeavesEmpty | js/Board.js:217 | the last descriptor's source cell is empty after the move |
| Turns.RoomAfterUpdate | js/Board.js:361-373 | after a move with descriptors `emptyPos` is non-empty, so the spawn that follows can pick a cell (js/Block.js:13) |
| Turns.SpawnMirrors | js/Block.js:14-16 | removing the chosen entry and writing a non-zero value there keeps `emptyPos` equal to the zero cells |
| Turns.SpawnTiles | js/Block.js:11-16 | writing a 2, a 4 or any tile keeps every cell a tile |
| Turns.PosNeighbours | js/Board.js:168-181 | neighbours in a transformed row are neighbours in the grid |
| Turns.LockedStuck | js/Board.js:165-183 | a full grid with no equal neighbours does not move in any direction |
| Turns.GameOverStuck | js/Board.js:165-183 | when `isGameOver` holds, every direction leaves the grid unchanged |
| Utils.Transpose | js/utils.js:13-18 | cell `(r, c)` of the result is cell `(c, r)` of the input |
| Utils.MirrorRows | js/utils.js:31-33 | cell `(r, c)` of the result is cell `(r, N-1-c)` of the input |
| Utils.TransposeInvolution | js/utils.js:13-17 | transposing twice gives the original grid |
| Utils.MirrorInvolution | js/utils.js:31-33 | reversing every row twice gives the original grid |
| Utils.SwapRowsCols | js/utils.js:10-21 | returns fresh, distinct rows holding the transpose of the board |
| Utils.ReverseInPlace | js/utils.js:32 | `Array.prototype.reverse`: element `k` becomes the old element `length-1-k` |
| Utils.ReverseRowElements | js/utils.js:28-36 | returns the very same rows, each reversed in place |
| Utils.CopyMatrix | js/utils.js:59-67 | returns fresh, distinct rows with the same contents |
| Utils.ObjectMapper | js/utils.js:44-52 | the keys are exactly the given keys; each maps to the value at its last position, or to undefined (`None`) past the end of `values`; with distinct keys `result[keys[i]] == values[i]` |
| Blocks.IndexOf | js/Board.js:214 | `findIndex`: the first position of the coordinate, or -1 exactly when it is absent |
| Blocks.SpliceStart | js/Board.js:215 | `splice`'s start index: a start inside the array is used as given, a negative start counts from the end (so `findIndex`'s -1 names the last entry), and the index never passes the length |
| Blocks.PositionList.constructor | js/Board.js:39 | `emptyPos` starts empty |
| Blocks.PositionList.Push | js/Board.js:217 | `push` appends one coordinate |
| Blocks.PositionList.FindIndex | js/Board.js:214 | `findIndex` over the list, as `IndexOf` |
| Blocks.PositionList.SpliceOne | js/Block.js:14 | `splice(start, 1)` removes the one entry at the resolved start and returns it, keeping the order of the rest; nothing is removed when the start is past the end |
| Blocks.BlockValue | js/Block.js:11 | a given non-zero value is kept; otherwise the value is 2 when `r < 0.5` and 4 otherwise |
| Blocks.PickIndex | js/Block.js:13 | the random index lies in `[0, length)` |
| Blocks.Block.constructor | js/Block.js:9-20 | the value is `BlockValue`; the entry at the random index is removed from `emptyPos`, the rest keep their order; `row`/`col` are that entry; exactly that cell of `state` is written with the value |
| Grids.SetCell | js/Block.js:16 | one cell changes to the given value and no other |
| Grids.WriteCell | js/Block.js:16 | `state[row][col] = value` on the row arrays changes exactly that cell of the grid |
| Grids.AllCoords | js/Board.js:54-60 | `initialize` pushes N * N coordinates (that they are exactly the grid's cells, once each, is `EmptyGridMirrors`) |
| Grids.EmptyGrid | js/Board.js:54-60 | every cell of the initial grid is 0 |
| Grids.EmptyGridMirrors | js/Board.js:53-61 | after `initialize`, `emptyPos` lists exactly the zero cells, without duplicates |

## Left out

- The DOM and presentation (`render`, `js/Scene.js` and the other view files) are not modelled. The callback fields (`onBlockUpdate`, `onScoreUpdate`, `onLogUpdate`, `onGameClear`, `onGameOver`, ...) only notify the view. The methods return or expose what those callbacks would receive instead.
- localStorage is not modelled. `getHighScore` becomes the constructor's `storedHighScore` parameter, treated as an integer. `setHighScore`, called on clear and on game over, is a write to browser storage and is left out.
- `isDarkMode` reads browser preferences and is left out.
- `Math.random()` becomes the parameters `rValue` and `rIndex`, both in `[0, 1)`.
- `js/App.js` (the listeners' wiring, `clear`, the first two `createBlock` calls, and `continueBoard`, which has no definition in the source) is not part of this model.
- `js/Board.js:68` passes `(state, emptyPos, value)` to a constructor declared as `($board, state, emptyPos, value)` (js/Block.js:9). The model gives the constructor the arguments the call evidently intends.
- Coordinates are integer pairs, not the strings `` `${row}${col}` ``. The two agree because N = 4 keeps every index a single digit.
- The grid has one size N = 4 for rows and columns. `swapRowsCols` and the Left/Up coordinate formulas assume a square grid.
- Boards.Board.Update: requires that replaying the descriptors on the grid before the move gives the current grid, and that the old `emptyPos` lists the old zero cells. This is what its only call site (js/Board.js:363) guarantees.
- Boards.Board.UpdateAll: requires the same replay precondition as `Update`, for the same reason.
- Blocks.Block.constructor: requires a non-empty `emptyPos` of in-grid coordinates. With an empty list the JavaScript destructures `undefined` and throws. The board proves the precondition at its call site (`Turns.RoomAfterUpdate`).
- Boards.Board.CreateBlock: requires the same non-empty `emptyPos` as the `Block` constructor.
- Boards.Board.KeyboardEventListener: the key is a string parameter, not a `KeyboardEvent` object. The method returns the game-over flag rather than calling `onGameOver`.
- Blocks.PickIndex: states only that the index is in range, not that it is uniform, since the random source is a parameter.
- The score shown in the move log (`js/Log.js`) repeats the rule of `update` and is not modelled separately.
