# Minesweeper core, modelled in Dafny

This project models the game logic of the `minesweeper` Bevy plugin:
- the `CoordinateU16` board position and its arithmetic;
- the flat `TileMap` with bomb placement, adjacency counts, neighbour
  lists and its debug rendering;
- the `Board` resource, with its `covered` and `flagged` maps and its
  `flag_count`;
- the gameplay systems: the uncover handler with its frame-by-frame
  reveal cascade, the flag handler, the win evaluator, board creation
  and reset;
- the phase gating that decides which system may run. The phases are
  the plugin's own `NewGame`/`Running` plus the host's run and pause
  states.

Each system is proved against a pure specification function, and the
lemmas about that function state the game's properties. The two handlers
both change the `Board` in place. Each one's specification function is a
fold over one frame's requests in order:
- `UncoverHandler.Process` for the uncover handler;
- `FlagHandler.FlagProcess` for the flag handler.

`UncoverHandler.Cascade` chains frames. Each frame's queued requests
become the next frame's input, so the chain ends after at most one frame
per cover. At the end every zero-count cell it uncovered has all its
neighbours uncovered.

Modules, one per source file:
- `Coordinates` (with `Decimal` for the `{}` formatting);
- `Tiles`;
- `TileMaps`;
- `Boards`;
- `UncoverHandler`;
- `FlagHandler`;
- `GameEnd`;
- `BoardCreation`;
- `PluginStates`;
- `Plugin`.

`CounterBound` combines the handlers' effects on the flag counter.

`Scenarios` holds worked examples: the 3×3 board won by one correct
flag, and the 2×2 bomb-free board that one uncover clears. It also
holds a three-cell row where a dropped flag entry leaves the counter
behind.

Inputs the model receives as parameters:
- Bevy entities are modelled as opaque `Handle`s.
- The shuffle is an arbitrary permutation of the cell indices; the
  `tile_handles`/`cover_handles` spawned for the cells are sequences.
- Whether a cover entity still exists (`query.get_mut`) is a set of
  live handles.
- The number of events a reader sees is a count.

Where the code departs from what a natural reading of the game's rules
would expect, the model follows the code:
- **A zero-count bomb cascades.** One would expect the cascade to stop at
  a bomb. The code sends the loss signal and then goes on: a bomb whose
  adjacency count is zero still queues its neighbours
  (`UncoverHandler.StepEffect`).
- **Flag entries go only on the zero-count path.** One would expect every
  uncovered cell to lose its flag entry. The code removes it only when
  the count is zero; other uncovered cells keep their entries
  (`UncoverHandler.ProcessFlagged`).
- **`flag_count` counts set flags on live covers, and errs only upwards.**
  One would expect the counter to equal the number of set flags. The code
  moves it only when a toggle finds the cell's cover entity still alive.
  What it tracks is therefore the number of set flags whose cover is
  alive:
  - each flag request keeps the counter minus that number fixed
    (`FlagHandler.FlagStepTracks`);
  - so a counter equal to it stays equal through any flag requests
    (`FlagHandler.CounterStaysExact`).

  Two things lower that number without touching the counter: an uncover
  frame drops the flag entry of a zero-count cell
  (`CounterBound.UncoverKeepsBound`), and `remove_cover` despawns the
  cover of an uncovered cell whose flag may still be set
  (`CounterBound.ShrinkKeepsBound`). Starting from a fresh board
  (`CounterBound.FreshBoardBounded`), the counter is never below the
  number of live set flags. So the `-= 1` always finds it at 1 or more
  (`FlagHandler.StepNoUnderflow`, `CounterBound.FlagFrameKeepsBound`).

  Against all set flags, live or not, the counter drifts both ways. A
  toggle on a cell whose cover is gone flips the flag without counting
  it, and a dropped entry takes a set flag away without uncounting it.
  `Scenarios.DroppedFlagWins` shows a win reached with one flag counted
  and none set.
- **Too many bombs are not rejected.** One would expect
  `bomb_count ≤ width*height` to be checked, with a fast failure
  otherwise. `spread_bombs` places `min(bomb_count, cells)` bombs and
  still records the requested count (`BoardCreation.GeneratedBombs`).

## Model

| member | source | states |
|---|---|---|
| Coordinates.Compare | minesweeper/src/components/coordinates.rs:3-7 | `Equal` iff the coordinates are equal. `Less` (and `Greater`) iff `x` is smaller (greater), or `x` ties and `y` decides: the derived field-order comparison. |
| Coordinates.CompareIsTotalOrder | minesweeper/src/components/coordinates.rs:3-7 | The derived ordering is a strict total order. `Less` one way is `Greater` the other way, and `Less` is transitive. |
| Coordinates.Add | minesweeper/src/components/coordinates.rs:9-18 | Defined when no component overflows `u16`. The sum is at least `b` in each component, and subtracting `b` gives `a` back. |
| Coordinates.Sub | minesweeper/src/components/coordinates.rs:31-40 | Defined when no component underflows. The difference is at most `a` in each component, and adding `b` back cannot overflow. |
| Coordinates.AddSubInverse | minesweeper/src/components/coordinates.rs:9-40 | Without `u16` overflow, `(a + b) - b == a`. Without underflow, `(a - b) + b == a`. |
| Coordinates.Translate | minesweeper/src/components/coordinates.rs:20-29 | Subtracting the offset again gives the coordinate back, for every offset, wrapped or not. |
| Coordinates.TranslateIsCastChain | minesweeper/src/components/coordinates.rs:20-51 | `c + (dx, dy)` and `c - (dx, dy)` as written equal the component-wise step modulo 65536, `((x ± dx) mod 65536, (y ± dy) mod 65536)`. "As written" means each component is cast to `i16`, added or subtracted with wrapping, and cast back to `u16`. |
| Coordinates.ShiftComponentIsModular | minesweeper/src/components/coordinates.rs:25-26 | The cast chain `u16 → i16`, wrapping `i16` addition, `i16 → u16` equals addition mod 2^16 for either sign of the step. |
| Coordinates.TranslateRoundTrip | minesweeper/src/components/coordinates.rs:20-51 | `(c + d) - d == c` and `(c - d) + d == c` for every offset, wrapped or not. |
| Coordinates.UnitTranslateNeedsNoWrap | minesweeper/src/components/coordinates.rs:20-29 | For components below 32767 and unit offsets, the `i16` sum does not overflow. A step left from `x = 0` lands on 65535, and otherwise the result is `x + dx`. |
| Coordinates.Display | minesweeper/src/components/coordinates.rs:53-57 | The text starts with `(` and ends with `)`. |
| Coordinates.DisplayInjective | minesweeper/src/components/coordinates.rs:53-57 | Two coordinates with the same `(x;y)` text are equal. |
| Decimal.ToDecimal | minesweeper/src/components/coordinates.rs:55 | The `{}` text of a number is a non-empty string of digits. It has one digit exactly when the number is below 10. |
| Decimal.DecimalRoundTrip | minesweeper/src/components/coordinates.rs:55 | Reading the digits back gives the number. |
| Decimal.ToDecimalInjective | minesweeper/src/components/coordinates.rs:55 | Different numbers have different texts. |
| Decimal.DigitChar | minesweeper/src/resources/tile_map.rs:146 | A single-digit count is printed as its digit character. |
| TileMaps.EmptyMap | minesweeper/src/resources/tile_map.rs:17-26 | `empty(w, h)` has `w*h` tiles, all `Empty`, no bombs in total, `bomb_count` 0, and the given width and height; it requires no `u16` overflow of `w*h`. |
| TileMaps.SpreadBombs | minesweeper/src/resources/tile_map.rs:28-38 | The result records the requested count and marks as bombs the first `min(n, len)` cells of the permutation. |
| TileMaps.SpreadAt | minesweeper/src/resources/tile_map.rs:34-37 | After spreading, a cell is a bomb iff it is among the taken cells or was one before. No bomb becomes empty. |
| TileMaps.SpreadOnEmptyCount | minesweeper/src/resources/tile_map.rs:28-38 | Spreading `k` distinct cells of an all-empty map yields exactly `k` bombs. |
| TileMaps.SpreadOnEmptyMap | minesweeper/src/resources/tile_map.rs:28-38 | For `empty(w, h)`, the map keeps its length and gets exactly `min(n, w*h)` bombs, at the taken cells. With `n > w*h` there are fewer bombs than recorded. |
| TileMaps.TileMap.Clip | minesweeper/src/resources/tile_map.rs:52-61 | The filtered neighbour list is no longer than the offset table, and all its members are in bounds. |
| TileMaps.TileMap.ClipMembers | minesweeper/src/resources/tile_map.rs:56-60 | A coordinate is in the list iff it is in bounds and is `c + d` for some table offset `d`. |
| TileMaps.TileMap.NeighbourGeometry | minesweeper/src/resources/tile_map.rs:52-61 | For `c` below 65535 in each component, `n` is an 8-way neighbour iff `n` is in bounds, differs from `c`, and is at most one step from `c` in each component. Wrapped values never pass the bounds filter. |
| TileMaps.TileMap.NeighbourSound | minesweeper/src/resources/tile_map.rs:52-61 | For `c` below 65535 in each component, every listed neighbour is in bounds and 8-way adjacent. |
| TileMaps.TileMap.NeighbourComplete | minesweeper/src/resources/tile_map.rs:52-61 | Every in-bounds 8-way adjacent cell is listed. |
| TileMaps.TileMap.FarEdgeWraps | minesweeper/src/resources/tile_map.rs:59-60 | At `x = 65535` the offsets wrap, and `(0, 1)` is reported as a neighbour of `(65535, 0)`. |
| TileMaps.TileMap.ClipNoDuplicates | minesweeper/src/resources/tile_map.rs:160-177 | The 8 table offsets are distinct unit steps, so the neighbour list has no repeats. |
| TileMaps.TileMap.NeighbourCoordinates | minesweeper/src/resources/tile_map.rs:52-61 | At most 8 neighbours. |
| TileMaps.TileMap.TrueNeighbourCoordinates | minesweeper/src/resources/tile_map.rs:63-72 | At most 4 neighbours. |
| TileMaps.TileMap.TrueNeighbourGeometry | minesweeper/src/resources/tile_map.rs:63-72 | `n` is a 4-way neighbour iff `n` is in bounds and one orthogonal step from `c`. |
| TileMaps.TileMap.TrueNeighbourSound | minesweeper/src/resources/tile_map.rs:63-72 | Every 4-way neighbour is in bounds and orthogonally adjacent. |
| TileMaps.TileMap.TrueNeighbourComplete | minesweeper/src/resources/tile_map.rs:63-72 | Every in-bounds, orthogonally adjacent cell is listed. |
| TileMaps.TileMap.TrueNeighboursAreNeighbours | minesweeper/src/resources/tile_map.rs:160-188 | Every 4-way neighbour is an 8-way neighbour. |
| TileMaps.TileMap.InBoundsTranslate | minesweeper/src/resources/tile_map.rs:56-59 | A unit step that lands in bounds did not wrap. |
| TileMaps.TileMap.BombCountAt | minesweeper/src/resources/tile_map.rs:40-42 | The count is at most the number of neighbours, hence at most 8. Every neighbour indexes inside the map. |
| TileMaps.TileMap.CountBombs | minesweeper/src/resources/tile_map.rs:74-76 | A list holds no more bombs than it has cells. |
| TileMaps.TileMap.CountBombsZero | minesweeper/src/resources/tile_map.rs:74-76 | A list holds zero bombs iff none of its cells is a bomb. |
| TileMaps.TileMap.CountBombsIsCardinality | minesweeper/src/resources/tile_map.rs:74-76 | On a list without repeats, the count is the number of distinct bomb cells in it. |
| TileMaps.TileMap.BombCountAtMeaning | minesweeper/src/resources/tile_map.rs:40-42 | `bomb_count_at(c)` is the number of bomb cells among `c`'s neighbours. It is zero iff no neighbour is a bomb. |
| TileMaps.TileMap.BombCountAtIndex | minesweeper/src/resources/tile_map.rs:44-50 | `bomb_count_at_index(i)` equals `bomb_count_at((i % width, i / width))` and is at most 8. |
| TileMaps.TileMap.NonEmptyDimensions | minesweeper/src/resources/tile_map.rs:17-26 | A map with tiles has positive width and height. |
| TileMaps.TileMap.InBoundsIndex | minesweeper/src/resources/tile_map.rs:99-105 | An in-bounds coordinate indexes inside the vector: `x + y*width < len`. |
| TileMaps.TileMap.CoordOfIndexRoundTrip | minesweeper/src/resources/tile_map.rs:44-50 | `(i % width, i / width)` is in bounds, maps back to index `i`, and indexes tile `i`. |
| TileMaps.TileMap.FlatIndexRoundTrip | minesweeper/src/resources/tile_map.rs:91-105 | For an in-bounds `c`, `x + y*width` is an index whose coordinate is `c` again. |
| TileMaps.TileMap.CoordOfIndexInjective | minesweeper/src/board.rs:116-121 | Distinct indices get distinct coordinates. |
| TileMaps.TileMap.Glyph | minesweeper/src/resources/tile_map.rs:142-148 | Each tile is drawn as exactly one character. |
| TileMaps.TileMap.GlyphMeaning | minesweeper/src/resources/tile_map.rs:142-148 | The glyph is `*` iff the tile is a bomb. An empty tile shows a space iff its adjacency count is zero, and otherwise the count's digit. |
| TileMaps.FmtCells | minesweeper/src/resources/tile_map.rs:133-151 | The loop over the tiles builds the tile part: each tile's glyph, preceded by a row break for every tile whose index is divisible by `width`. |
| TileMaps.TileMap.CellTextLength | minesweeper/src/resources/tile_map.rs:137-149 | A tile at a row start adds the three-character row break (bar, newline, bar) before its glyph. |
| TileMaps.TileMap.CellsLength | minesweeper/src/resources/tile_map.rs:133-151 | The first `k` tiles render to `k` glyphs plus three characters per row start among them. |
| TileMaps.TileMap.RowBreaksInRow | minesweeper/src/resources/tile_map.rs:139-141 | After `y` full rows and `j` more tiles, exactly `y` rows, plus one if `j > 0`, have started. |
| TileMaps.TileMap.RenderedLength | minesweeper/src/resources/tile_map.rs:122-157 | The rendering has the following length. It is the header, plus two dashed borders of `width`, plus one glyph per tile, plus one row break per row, plus five border characters. A width-0 map has no row breaks. |
| TileMaps.Dashes | minesweeper/src/resources/tile_map.rs:131 | `n` dashes. |
| TileMaps.Fmt | minesweeper/src/resources/tile_map.rs:122-157 | The buffer built by the loop is the rendering. The rendering is, in order, the header, a dashed top border, every tile with a row break before each row, and a trailer of the break and the dashed bottom border. |
| TileMaps.SquareIndex | minesweeper/src/resources/tile_map.rs:160-177 | Every non-zero unit step is in the 8-offset table. |
| TileMaps.TrueSquareIndex | minesweeper/src/resources/tile_map.rs:179-188 | Every orthogonal unit step is in the 4-offset table. |
| TileMaps.TranslateInjective | minesweeper/src/resources/tile_map.rs:160-177 | Distinct unit offsets move a coordinate to distinct places. |
| Boards.UncoveredEffect | minesweeper/src/resources/board.rs:37-39 | Removing `c` takes away key `c` and leaves every other entry. It is a no-op when `c` is absent, and it is idempotent. |
| Boards.ToggledEffect | minesweeper/src/resources/board.rs:41-48 | Toggling keeps the key set and every other entry. Both handles of `c`'s entry stay put and its bit is negated. Toggling twice restores the map. |
| Boards.Board.constructor | minesweeper/src/board.rs:190-200 | The resource holds exactly the given map, covers, flag entries and counter. |
| Boards.Board.TryUncover | minesweeper/src/resources/board.rs:37-39 | Returns `Some(h)` iff `c` was covered by `h`, otherwise `None`. The new `covered` is the old one without `c`. Nothing else changes, and the bounds invariant is kept. |
| Boards.Board.TryToggleFlag | minesweeper/src/resources/board.rs:41-48 | Returns `None` and changes nothing without an entry. Otherwise the entry's bit is negated and the returned triple is the entry after toggling. `flag_count` is untouched. |
| UncoverHandler.TileUncoverEventHandler | minesweeper/src/systems/tile_uncover_event_handler.rs:21-53 | The loop leaves `covered` and `flagged` as the fold over the requests gives them. It sends one loss signal per bomb it uncovers and returns the queued requests for the next frame. `tile_map` and `flag_count` are untouched and every key stays in bounds. |
| UncoverHandler.HandleRequest | minesweeper/src/systems/tile_uncover_event_handler.rs:34-47 | One pass of the loop body does what `Step` gives for the request. The map and the counter are untouched, and every key stays in bounds. |
| UncoverHandler.Step | minesweeper/src/systems/tile_uncover_event_handler.rs:34-47 | After one request its cell is uncovered. Covers and flag entries are only taken away, the loss count grows by at most one, and the queue only grows at its end. |
| UncoverHandler.Process | minesweeper/src/systems/tile_uncover_event_handler.rs:33-48 | Over a frame, covers and flag entries are only taken away, at most one loss signal is sent per request, and queued requests are only appended. |
| UncoverHandler.StaleRequestIsNoOp | minesweeper/src/systems/tile_uncover_event_handler.rs:35-37 | A request for a cell that is not covered changes nothing. |
| UncoverHandler.StepEffect | minesweeper/src/systems/tile_uncover_event_handler.rs:35-47 | A covered cell loses its cover, and a loss is signalled iff it is a bomb. With a non-zero count, the flag entry stays and nothing is queued. With count zero, the entry is dropped and the neighbours are queued in table order; a bomb with count zero does this too. |
| UncoverHandler.ProcessSingle | minesweeper/src/systems/tile_uncover_event_handler.rs:33-48 | A frame with one request is one step. |
| UncoverHandler.ProcessCovered | minesweeper/src/systems/tile_uncover_event_handler.rs:33-48 | After a frame, the covers are the old ones minus the requested cells, with the remaining handles unchanged. |
| UncoverHandler.ProcessFlagged | minesweeper/src/systems/tile_uncover_event_handler.rs:41-47 | After a frame, `flagged` has lost exactly the entries of the zero-count cells the frame uncovered. |
| UncoverHandler.ProcessLost | minesweeper/src/systems/tile_uncover_event_handler.rs:38-40 | One loss signal per distinct bomb cell the frame uncovered. |
| UncoverHandler.FrameBombsStep | minesweeper/src/systems/tile_uncover_event_handler.rs:34-40 | One more request adds one to the bombs uncovered so far exactly when it finds a covered bomb cell not already requested earlier in the frame. |
| UncoverHandler.LossSignalled | minesweeper/src/systems/tile_uncover_event_handler.rs:38-40 | A loss is signalled iff some request hit a covered bomb. |
| UncoverHandler.ProcessEmitsInBounds | minesweeper/src/systems/tile_uncover_event_handler.rs:44-46 | The queue only grows, and every queued request is in bounds. |
| UncoverHandler.IdleFrame | minesweeper/src/systems/tile_uncover_event_handler.rs:33-37 | A frame whose requests all miss changes nothing and queues nothing. |
| UncoverHandler.Cascade | minesweeper/src/systems/tile_uncover_event_handler.rs:31-52 | Frames chained through the queue only remove covers and keep the rest unchanged. Every first-frame request ends uncovered. The chain takes at most one frame per cover plus a final idle one. |
| UncoverHandler.ProcessClosed | minesweeper/src/systems/tile_uncover_event_handler.rs:41-47 | Within a frame, every uncovered zero-count cell has each neighbour uncovered or still requested. |
| UncoverHandler.StepClosed | minesweeper/src/systems/tile_uncover_event_handler.rs:34-47 | One request keeps that closure, with its newly queued neighbours among the pending ones. |
| UncoverHandler.CascadeClosed | minesweeper/src/systems/tile_uncover_event_handler.rs:44-52 | The same holds across frames until the queue is empty. |
| UncoverHandler.IdleClosed | minesweeper/src/systems/tile_uncover_event_handler.rs:34-37 | A frame whose requests all find their cell uncovered leaves nothing uncovered with a covered neighbour. |
| UncoverHandler.FrameClosed | minesweeper/src/systems/tile_uncover_event_handler.rs:33-52 | After a whole frame, every covered neighbour of an uncovered zero-count cell is among the requests sent on. |
| UncoverHandler.CascadeOpensZeroRegions | minesweeper/src/systems/tile_uncover_event_handler.rs:41-52 | When the cascade ends, every zero-count cell it uncovered has all its neighbours uncovered. |
| UncoverHandler.DisjointBombs | minesweeper/src/systems/tile_uncover_event_handler.rs:38-40 | The bombs uncovered in one frame and in the rest of the run are disjoint and together make up all the bombs uncovered. |
| UncoverHandler.CascadeUnfold | minesweeper/src/systems/tile_uncover_event_handler.rs:50-52 | A frame that removes a cover passes its queue to the rest of the run and shrinks the covers. |
| UncoverHandler.CascadeLost | minesweeper/src/systems/tile_uncover_event_handler.rs:38-40 | Over the whole cascade, one loss signal per bomb cell it uncovered. |
| FlagHandler.TileFlagEventHandler | minesweeper/src/systems/tile_flag_event_handler.rs:8-34 | The loop leaves `flagged` and `flag_count` as the fold over the requests gives them. Covers and map are untouched, and the bounds invariant is kept. |
| FlagHandler.FlagStep | minesweeper/src/systems/tile_flag_event_handler.rs:14-31 | The keys of `flagged` stay. The requested cell's bit is negated, and the counter moves by at most one. |
| FlagHandler.FlagProcess | minesweeper/src/systems/tile_flag_event_handler.rs:14-33 | The keys of `flagged` stay, and the counter moves by at most one per request. |
| FlagHandler.FlagStepCounter | minesweeper/src/systems/tile_flag_event_handler.rs:14-31 | A request without an entry does nothing. Otherwise the bit is toggled, and the counter moves by +1 (new bit set) or −1 (cleared) when the cover is live. It stays when the cover is gone. |
| FlagHandler.FlagStepTwice | minesweeper/src/systems/tile_flag_event_handler.rs:14-33 | Two requests on the same cell restore both the entry and the counter. |
| FlagHandler.FlagStepTracks | minesweeper/src/systems/tile_flag_event_handler.rs:21-31 | Each request keeps the counter minus the number of set flags on live covers unchanged. |
| FlagHandler.ToggledLiveFlagSet | minesweeper/src/resources/board.rs:41-49 | Toggling a cell's entry adds or removes that cell in the set of live set flags, following the new flag state, and leaves the set alone when the cover is not live. |
| FlagHandler.FlagProcessTracks | minesweeper/src/systems/tile_flag_event_handler.rs:14-33 | A frame of requests keeps that difference and the key set of `flagged`. |
| FlagHandler.CounterStaysExact | minesweeper/src/systems/tile_flag_event_handler.rs:14-33 | A counter that equals the number of set flags on live covers stays equal to it. |
| FlagHandler.StepNoUnderflow | minesweeper/src/systems/tile_flag_event_handler.rs:27-30 | With the counter at least the number of live set flags, the `-= 1` branch finds it at 1 or more, and the bound holds after the request. |
| CounterBound.FreshBoardBounded | minesweeper/src/board.rs:181-199 | A fresh board, with counter 0, is at or above the number of live set flags, whichever covers are alive. |
| CounterBound.ShrinkKeepsBound | minesweeper/src/systems/remove_cover.rs:15-23 | Removing flag entries, with the rest unchanged, and despawning covers keep the counter at or above the number of live set flags. |
| CounterBound.UncoverKeepsBound | minesweeper/src/systems/tile_uncover_event_handler.rs:47 | An uncover frame, followed by any despawning of covers, keeps that bound: it only drops flag entries and leaves the counter alone. |
| CounterBound.FlagFrameKeepsBound | minesweeper/src/systems/tile_flag_event_handler.rs:14-33 | Within a bounded frame of flag requests, no `-= 1` starts from 0, and the bound holds at the end. |
| GameEnd.GameEndLoop | minesweeper/src/systems/game_finished_event_loop.rs:18-58 | The board is only read. The result is decided in three steps. If `flag_count != bomb_count`, or neither kind of event was seen, there is no win. Otherwise it wins iff every set flag is on a bomb, or every covered cell is a bomb; either condition alone suffices, and both hold vacuously when empty. |
| Scenarios.CorrectFlagWins | minesweeper/src/systems/game_finished_event_loop.rs:35-57 | On a 3×3 map with the bomb in the centre, a counter of 1 wins when no flag is set off the bomb, while the other cells are still covered. That includes the case where no flag is set at all. |
| Scenarios.NoBombsCountZero | minesweeper/src/resources/tile_map.rs:40-42 | On the bomb-free 2×2 map every count is zero. |
| Scenarios.OneCellOpensAll | minesweeper/src/systems/tile_uncover_event_handler.rs:41-52 | On a 2×2 map, uncovering a covered zero-count cell uncovers every cell. |
| Scenarios.ZeroBoardClears | minesweeper/src/systems/tile_uncover_event_handler.rs:33-52 | On the bomb-free 2×2 board, one uncover cascades to all four cells. No loss is signalled, and the empty-cover branch signals a win. |
| Scenarios.CornerNeighbours | minesweeper/src/resources/tile_map.rs:52-61 | On a 3×1 row, the left corner's only neighbour is the middle cell. |
| Scenarios.CornerCountZero | minesweeper/src/resources/tile_map.rs:40-42 | In the row with the bomb on the right, the left corner's count is zero. |
| Scenarios.DroppedFlagFrame | minesweeper/src/systems/tile_uncover_event_handler.rs:35-47 | Uncovering that corner removes its cover and its flag entry, signals no loss, and queues the middle cell. |
| Scenarios.DroppedFlagWins | minesweeper/src/systems/tile_uncover_event_handler.rs:47 | If the corner's entry was flagged, no flag is set afterwards. A counter still at 1 then passes the `flag_count == bomb_count` guard, and the game is won with the middle cell still covered. |
| Scenarios.DroppedFlagState | minesweeper/src/systems/game_finished_event_loop.rs:27-57 | On the board after that frame, the still-covered middle cell is empty, no flag is set, and a counter of 1 still wins. |
| BoardCreation.TileTexture | minesweeper/src/board.rs:137-150 | The bomb texture iff the tile is a bomb. Otherwise the texture for its adjacency count, which is at most 8, so the `panic!` arm is unreachable. |
| BoardCreation.GeneratedMap | minesweeper/src/board.rs:72-78 | The map built from the chosen options satisfies the map invariant. |
| BoardCreation.GeneratedBombs | minesweeper/src/board.rs:72-78 | The map has the requested size and records the requested count. It holds exactly `min(bomb_count, cells)` bombs, at the taken cells, so the recorded count exceeds the real one when too many are requested. |
| BoardCreation.DefaultGame | minesweeper/src/options.rs:53-62 | Without options the board is 15×15 with 30 bombs, and it fits the 16-bit cell count. |
| BoardCreation.FillStep | minesweeper/src/board.rs:181-186 | One round of the spawn loop adds the cover and the cleared flag entry of the next cell. |
| BoardCreation.FilledKeys | minesweeper/src/board.rs:116-121 | After all rounds, the keys are exactly the in-bounds coordinates. |
| BoardCreation.FillCovers | minesweeper/src/board.rs:116-187 | The spawn loop gives one cover and one cleared flag entry per index `i`, under the key `(i % width, i / width)`. The keys are exactly the in-bounds cells, and each tile gets its texture. |
| BoardCreation.TextureAt | minesweeper/src/board.rs:137-150 | Entry `i` of the spawned textures is tile `i`'s texture. |
| BoardCreation.CreateBoard | minesweeper/src/board.rs:33-202 | The resource is built from the generated map and the filled maps, with `flag_count` 0, and the next phase is `Running`. |
| BoardCreation.FreshCounterExact | minesweeper/src/board.rs:182-199 | On a fresh board no flag is set, so the counter 0 is exact. |
| BoardCreation.ResetEventHandler | minesweeper/src/board.rs:204-212 | With no reset event the pending phase is unchanged; with at least one, it becomes `NewGame`. |
| Plugin.InitialPhase | minesweeper/src/lib.rs:48-76 | In the initial phase `NewGame`, exactly the following may run: board creation (with the run state active), rescale and reset. |
| Plugin.BuildExcludesPlay | minesweeper/src/lib.rs:61-75 | Board creation and the game systems are never enabled together, and every game system needs `Running`. |
| Plugin.InputGating | minesweeper/src/lib.rs:65-74 | Input needs `Running`, the run state and no pause. Whenever input may run, both handlers may run too, and they run in every `Running` frame. |
| Plugin.Lifecycle | minesweeper/src/lib.rs:61-76 | Reset may always run. After it, board creation may run iff the run state is active, and no game system may run. After creation sets `Running`, creation is off. |

## Left out

- Float geometry is out of the model, because it is `f32` screen arithmetic with no game state: `Board::cursor_position`, `bounds`, `tile_size`, adaptive tile sizes, `rescale` and the sprite positions in `create_board`.
- Rendering and the ECS machinery are out: sprite and texture handles, entity spawning and despawning (including the old board's), and `Commands`/`Query`. Of `remove_cover` only its effect is kept: the set of live covers can only shrink (`CounterBound`). Entities are opaque handles and a texture is a tag.
- The random shuffle is out; the model covers every permutation instead.
- The window-count check and the missing-textures exit are out. Both only stop the app.
- Mouse input dispatch (`input`) is out, because it rests on the float cursor mapping.
- Event buses and the plugin's generic states and events are out. Event counts, current phases and pending phases are parameters and results.
- System order within a frame, and the moment Bevy applies a `NextState`, are outside the plugin code; `Plugin` states only which systems each phase enables.
- Boards.Board: `flag_count` is an unbounded integer. The `-= 1` cannot underflow from a fresh board (see `CounterBound`). The `u16` bound on `+= 1` is not stated; each count it adds above the live set flags stands for a cover that was lost, which keeps it below the number of cells, but this is not proved.
- Coordinates.TranslateIsCastChain: models the release build, where the `i16` addition wraps. A checked build panics whenever the `i16` sum leaves [-32768, 32767]. For the general `i8` offsets the operator accepts, that happens e.g. for `x = 32760` with `dx = 10`. For the unit steps of the neighbour tables, it happens only for a component of 32767 plus 1, or 32768 minus 1.
- TileMaps.TileMap.At: requires `x + y*width < len`. This also rules out the `u16` overflow of `y * width` that the source could hit for an out-of-range coordinate.
- TileMaps.SpreadBombs: works on values. The result is the updated map, not an in-place write through shuffled `&mut Tile` pointers.
- FlagHandler.TileFlagEventHandler: the texture swap is left out, and whether a cover still exists is given as the set of live handles.
- GameEnd.GameEndLoop: the event readers are consumed only as far as the short-circuiting guard evaluates them. When `flag_count != bomb_count`, neither reader is consumed. When flag events were seen, the `&&` skips the uncover reader. Unconsumed events are counted again in a later frame. The model takes the counts of one frame as given.
- UncoverHandler.Cascade: chains frames on the handler's own queue only. Requests from input or flags arriving between frames are not interleaved.
