/** `create_board` without its rendering and window handling, and
    `reset_event_handler`: building a fresh game and asking for a rebuild. */
module BoardCreation {
  import opened Wrappers
  import opened Coordinates
  import opened Tiles
  import opened TileMaps
  import opened Boards
  import opened PluginStates
  import opened FlagHandler

  /** The fields of `BoardOptions` the core reads. */
  datatype BoardOptions = BoardOptions(mapSize: (u16, u16), bombCount: u16)

  /** `BoardOptions::default()`: 15 x 15 with 30 bombs. */
  const DEFAULT_OPTIONS: BoardOptions := BoardOptions((15, 15), 30)

  /** The options resource if there is one, else the defaults. */
  function Chosen(options: Option<BoardOptions>): BoardOptions {
    match options
    case Some(o) => o
    case None => DEFAULT_OPTIONS
  }

  /** The texture a tile sprite is spawned with. */
  datatype Texture = TileBomb | TileNumber(n: nat)

  /** The texture choice: the bomb image, or the image for the adjacency
      count; the `panic!` for a count above 8 cannot be reached. */
  function TileTexture(tm: TileMap, i: nat): (t: Texture)
    requires tm.Valid() && i < |tm.tiles|
    ensures t == TileBomb <==> tm.tiles[i].IsBomb()
    ensures t.TileNumber? ==> t.n == tm.BombCountAt(tm.CoordOfIndex(i)) && t.n <= 8
  {
    tm.NonEmptyDimensions();
    match tm.tiles[i]
    case Bomb => TileBomb
    case Empty =>
      var n := tm.BombCountAtIndex(i);
      if n <= 8 then TileNumber(n) else assert false; TileBomb
  }

  /** The map `create_board` builds: `empty(map_size)` then
      `spread_bombs(bomb_count)`. */
  function GeneratedMap(o: BoardOptions, order: seq<nat>): (tm: TileMap)
    requires o.mapSize.0 * o.mapSize.1 < U16_MODULUS
    requires IsPermutation(order, o.mapSize.0 * o.mapSize.1)
    ensures tm.Valid()
  {
    var empty := EmptyMap(o.mapSize.0, o.mapSize.1);
    empty.(bombCount := o.bombCount, tiles := Spread(empty.tiles, order, Min(o.bombCount, |empty.tiles|)))
  }

  /** The generated map has the requested size, records the requested
      bomb count, and holds exactly `min(bomb_count, cells)` bombs, at the
      first cells of `order`: more bombs than cells leaves the recorded
      count above the real one. */
  lemma GeneratedBombs(o: BoardOptions, order: seq<nat>)
    requires o.mapSize.0 * o.mapSize.1 < U16_MODULUS
    requires IsPermutation(order, o.mapSize.0 * o.mapSize.1)
    ensures var tm := GeneratedMap(o, order);
            && tm.width == o.mapSize.0 && tm.height == o.mapSize.1
            && tm.bombCount == o.bombCount
            && BombTotal(tm.tiles) == Min(o.bombCount, o.mapSize.0 * o.mapSize.1)
            && (forall j :: 0 <= j < |tm.tiles| ==>
                  (tm.tiles[j].IsBomb() <==> j in order[..Min(o.bombCount, |tm.tiles|)]))
            && (o.bombCount > o.mapSize.0 * o.mapSize.1 ==> BombTotal(tm.tiles) < tm.bombCount)
  {
    SpreadOnEmptyMap(o.mapSize.0, o.mapSize.1, o.bombCount, order);
  }

  /** Without an options resource the board is 15 by 15 with 30 bombs,
      which fits the 16-bit cell count. */
  lemma DefaultGame(order: seq<nat>)
    requires IsPermutation(order, 225)
    ensures Chosen(None).mapSize.0 * Chosen(None).mapSize.1 == 225 < U16_MODULUS
    ensures var tm := GeneratedMap(Chosen(None), order);
            tm.width == 15 && tm.height == 15 && tm.bombCount == 30 && BombTotal(tm.tiles) == 30
  {
    GeneratedBombs(Chosen(None), order);
  }

  /** After `k` rounds of the spawn loop: one cover and one cleared flag
      entry for each of the first `k` cells, keyed by its coordinate, and
      no other keys. */
  predicate Filled(tm: TileMap, tileHandles: seq<Handle>, coverHandles: seq<Handle>,
                   covered: map<Coord, Handle>, flagged: map<Coord, FlagEntry>, k: nat)
    requires tm.Valid() && k <= |tm.tiles| == |tileHandles| == |coverHandles|
  {
    && flagged.Keys == covered.Keys && |covered.Keys| == k
    && (forall c :: c in covered ==> tm.InBounds(c) && tm.FlatIndex(c) < k)
    && (forall j :: 0 <= j < k ==>
          var c := tm.CoordOfIndex(j);
          && c in covered && covered[c] == tileHandles[j]
          && c in flagged && flagged[c] == FlagEntry(tileHandles[j], coverHandles[j], false))
  }

  lemma FillStep(tm: TileMap, tileHandles: seq<Handle>, coverHandles: seq<Handle>,
                 covered: map<Coord, Handle>, flagged: map<Coord, FlagEntry>, k: nat)
    requires tm.Valid() && k < |tm.tiles| == |tileHandles| == |coverHandles|
    requires Filled(tm, tileHandles, coverHandles, covered, flagged, k)
    ensures var c := tm.CoordOfIndex(k);
            Filled(tm, tileHandles, coverHandles, covered[c := tileHandles[k]],
                   flagged[c := FlagEntry(tileHandles[k], coverHandles[k], false)], k + 1)
  {
    var c := tm.CoordOfIndex(k);
    tm.CoordOfIndexRoundTrip(k);
    assert c !in covered;
    forall j | 0 <= j < k
      ensures tm.CoordOfIndex(j) != c
    {
      tm.CoordOfIndexRoundTrip(j);
    }
  }

  /** Once every cell is done, the keys are exactly the in-bounds cells. */
  lemma FilledKeys(tm: TileMap, tileHandles: seq<Handle>, coverHandles: seq<Handle>,
                   covered: map<Coord, Handle>, flagged: map<Coord, FlagEntry>)
    requires tm.Valid() && |tm.tiles| == |tileHandles| == |coverHandles|
    requires Filled(tm, tileHandles, coverHandles, covered, flagged, |tm.tiles|)
    ensures forall c :: c in covered <==> tm.InBounds(c)
  {
    forall c | tm.InBounds(c)
      ensures c in covered
    {
      tm.FlatIndexRoundTrip(c);
    }
  }

  /** The textures of the first `k` tiles, in spawn order. */
  function Textures(tm: TileMap, k: nat): (r: seq<Texture>)
    requires tm.Valid() && k <= |tm.tiles|
    ensures |r| == k
  {
    if k == 0 then [] else Textures(tm, k - 1) + [TileTexture(tm, k - 1)]
  }

  lemma {:induction false} TextureAt(tm: TileMap, k: nat, i: nat)
    requires tm.Valid() && i < k <= |tm.tiles|
    ensures Textures(tm, k)[i] == TileTexture(tm, i)
  {
    if i < k - 1 {
      TextureAt(tm, k - 1, i);
    }
  }

  /** The spawn loop of `create_board`: for each tile, in order, the tile
      texture, and the cover and flag entry keyed by the tile's
      coordinate. */
  method FillCovers(tm: TileMap, tileHandles: seq<Handle>, coverHandles: seq<Handle>)
    returns (covered: map<Coord, Handle>, flagged: map<Coord, FlagEntry>, faces: seq<Texture>)
    requires tm.Valid() && |tm.tiles| == |tileHandles| == |coverHandles|
    ensures Filled(tm, tileHandles, coverHandles, covered, flagged, |tm.tiles|)
    ensures forall c :: c in covered <==> tm.InBounds(c)
    ensures |faces| == |tm.tiles| && forall i :: 0 <= i < |faces| ==> faces[i] == TileTexture(tm, i)
  {
    covered, flagged, faces := map[], map[], [];
    var count := 0;
    for index := 0 to |tm.tiles|
      invariant count == index
      invariant faces == Textures(tm, index)
      invariant Filled(tm, tileHandles, coverHandles, covered, flagged, index)
    {
      var coordinate := tm.CoordOfIndex(index);
      faces := faces + [TileTexture(tm, index)];
      FillStep(tm, tileHandles, coverHandles, covered, flagged, index);
      covered := covered[coordinate := tileHandles[index]];
      flagged := flagged[coordinate := FlagEntry(tileHandles[index], coverHandles[index], false)];
      count := count + 1;
    }
    FilledKeys(tm, tileHandles, coverHandles, covered, flagged);
    forall i | 0 <= i < |faces|
      ensures faces[i] == TileTexture(tm, i)
    {
      TextureAt(tm, |tm.tiles|, i);
    }
  }

  /** `create_board`. The shuffle of the bomb placement is `order`; the
      entity ids the spawns return are `tileHandles[i]` and
      `coverHandles[i]` for tile `i`. Every cell gets a cover and a cleared
      flag entry keyed by its coordinate, the counter starts at zero and the
      phase moves to `Running`. */
  method CreateBoard(options: Option<BoardOptions>, order: seq<nat>,
                     tileHandles: seq<Handle>, coverHandles: seq<Handle>)
    returns (board: Board, faces: seq<Texture>, next: MinesweeperState)
    requires Chosen(options).mapSize.0 * Chosen(options).mapSize.1 < U16_MODULUS
    requires IsPermutation(order, Chosen(options).mapSize.0 * Chosen(options).mapSize.1)
    requires |tileHandles| == |coverHandles| == Chosen(options).mapSize.0 * Chosen(options).mapSize.1
    ensures fresh(board) && board.Valid()
    ensures board.tileMap == GeneratedMap(Chosen(options), order)
    ensures forall c :: c in board.covered <==> board.tileMap.InBounds(c)
    ensures Filled(board.tileMap, tileHandles, coverHandles, board.covered, board.flagged,
                   |tileHandles|)
    ensures |faces| == |tileHandles|
    ensures forall i :: 0 <= i < |faces| ==> faces[i] == TileTexture(board.tileMap, i)
    ensures board.flagCount == 0 && next == Running
  {
    var o := Chosen(options);
    var tileMap := EmptyMap(o.mapSize.0, o.mapSize.1);
    tileMap := SpreadBombs(tileMap, o.bombCount, order);
    assert tileMap == GeneratedMap(o, order);
    var covered, flagged;
    covered, flagged, faces := FillCovers(tileMap, tileHandles, coverHandles);
    board := new Board(tileMap, covered, flagged, 0);
    next := Running;
  }

  /** Every flag entry of a freshly built board is cleared, so its zero
      counter equals the number of set flags, whichever covers are live:
      the state the flag handler's tracking lemma starts from. */
  lemma FreshCounterExact(tm: TileMap, tileHandles: seq<Handle>, coverHandles: seq<Handle>,
                          covered: map<Coord, Handle>, flagged: map<Coord, FlagEntry>,
                          live: set<Handle>)
    requires tm.Valid() && |tm.tiles| == |tileHandles| == |coverHandles|
    requires Filled(tm, tileHandles, coverHandles, covered, flagged, |tm.tiles|)
    ensures LiveFlags(flagged, live) == 0
  {
    forall c | c in flagged
      ensures !flagged[c].isFlagged
    {
      tm.FlatIndexRoundTrip(c);
    }
    assert (set c | c in flagged && flagged[c].isFlagged && flagged[c].cover in live) == {};
  }

  /** `reset_event_handler`: any reset request this frame sets the next
      phase to `NewGame`; without one the pending phase is left alone. */
  method ResetEventHandler(pending: Option<MinesweeperState>, resetEvents: nat)
    returns (r: Option<MinesweeperState>)
    ensures resetEvents == 0 ==> r == pending
    ensures resetEvents != 0 ==> r == Some(NewGame)
  {
    if resetEvents == 0 {
      return pending;
    }
    r := Some(NewGame);
  }
}
