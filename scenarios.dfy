/** Small boards on which the rules above combine: a win by flags alone, a
    cascade that clears a bomb-free board, and a win signalled after the
    only flag was placed wrongly and then dropped by the cascade. */
module Scenarios {
  import opened Coordinates
  import opened Tiles
  import opened TileMaps
  import opened Boards
  import opened UncoverHandler
  import opened FlagHandler
  import opened GameEnd

  /** 3 x 3, one bomb in the middle. */
  const CENTRE_BOMB: TileMap :=
    TileMap(1, 3, 3, [Empty, Empty, Empty, Empty, Bomb, Empty, Empty, Empty, Empty])

  /** 2 x 2, no bombs. */
  const NO_BOMBS: TileMap := TileMap(0, 2, 2, [Empty, Empty, Empty, Empty])

  /** 3 x 1, a bomb at the right end. */
  const RIGHT_BOMB: TileMap := TileMap(1, 1, 3, [Empty, Empty, Bomb])

  /** Flagging the one bomb wins, although every other cell is still
      covered: the OR admits a win without revealing anything. */
  lemma CorrectFlagWins(covered: map<Coord, Handle>, flagged: map<Coord, FlagEntry>)
    requires forall c :: c in flagged && flagged[c].isFlagged ==> c == Coord(1, 1)
    requires Coord(0, 0) in covered
    ensures Won(CENTRE_BOMB, covered, flagged, 1, 1, 0)
    ensures !AllCoveredBombs(CENTRE_BOMB, covered)
  {
    assert CENTRE_BOMB.BombAt(Coord(1, 1));
    assert !CENTRE_BOMB.BombAt(Coord(0, 0));
  }

  lemma NoBombAnywhere(c: Coord)
    ensures !NO_BOMBS.BombAt(c)
  {
  }

  lemma NoBombsCountZero(c: Coord)
    ensures NO_BOMBS.Valid() && NO_BOMBS.BombCountAt(c) == 0
  {
    assert NO_BOMBS.Valid();
    forall n | n in NO_BOMBS.NeighbourCoordinates(c) ensures !NO_BOMBS.BombAt(n) {
      NoBombAnywhere(n);
    }
    NO_BOMBS.BombCountAtMeaning(c);
  }

  /** On a bomb-free 2 x 2 board, uncovering any one cell reveals all four
      without a loss signal, and the win follows from the covered branch
      (vacuously: nothing is covered). */
  lemma ZeroBoardClears(covered: map<Coord, Handle>, flagged: map<Coord, FlagEntry>, c0: Coord)
    requires forall c :: c in covered <==> NO_BOMBS.InBounds(c)
    requires NO_BOMBS.InBounds(c0)
    ensures NO_BOMBS.Valid()
    ensures var r := Cascade(NO_BOMBS, covered, flagged, 0, [c0]);
            && r.covered.Keys == {}
            && r.lost == 0
            && Won(NO_BOMBS, r.covered, r.flagged, 0, 0, 1)
  {
    NoBombsCountZero(c0);
    var r := Cascade(NO_BOMBS, covered, flagged, 0, [c0]);
    OneCellOpensAll(NO_BOMBS, covered, flagged, c0);
    CascadeLost(NO_BOMBS, covered, flagged, 0, [c0]);
    forall c | c in UncoveredBombs(NO_BOMBS, covered, r.covered) ensures false {
      NoBombAnywhere(c);
    }
    assert UncoveredBombs(NO_BOMBS, covered, r.covered) == {};
  }

  /** On any 2 x 2 map every cell neighbours every other, so uncovering
      a zero-count cell uncovers the whole board. */
  lemma OneCellOpensAll(tm: TileMap, covered: map<Coord, Handle>,
                        flagged: map<Coord, FlagEntry>, c0: Coord)
    requires tm.Valid() && tm.width == 2 && tm.height == 2
    requires forall c :: c in covered ==> tm.InBounds(c)
    requires c0 in covered && tm.BombCountAt(c0) == 0
    ensures Cascade(tm, covered, flagged, 0, [c0]).covered.Keys == {}
  {
    var r := Cascade(tm, covered, flagged, 0, [c0]);
    assert c0 !in r.covered;
    forall c | c in r.covered ensures false {
      assert c in covered && c != c0;
      assert IsAdjacent8(c0, c);
      tm.NeighbourGeometry(c0, c);
      CascadeOpensZeroRegions(tm, covered, flagged, [c0], c0, c);
    }
  }

  /** The flag counter is not adjusted when the cascade drops a flag
      entry. Flag the empty cell (0, 0), whose only neighbour (1, 0) is
      empty too, so the counter reads 1 = bomb count; uncovering it drops
      the entry but keeps the counter, no set flag remains, and the
      flags branch holds vacuously: the won signal goes out in the same
      frame although no flag was ever on the bomb and (1, 0) is still
      covered. */
  lemma DroppedFlagWins(tm: TileMap, covered: map<Coord, Handle>,
                        flagged: map<Coord, FlagEntry>, live: set<Handle>)
    requires tm == RIGHT_BOMB
    requires covered.Keys == flagged.Keys == {Coord(0, 0), Coord(1, 0), Coord(2, 0)}
    requires flagged[Coord(0, 0)].isFlagged
    requires !flagged[Coord(1, 0)].isFlagged && !flagged[Coord(2, 0)].isFlagged
    ensures tm.Valid()
    ensures var r := Process(tm, Start(covered, flagged), [Coord(0, 0)]);
            && r.lost == 0
            && r.emitted == [Coord(1, 0)]
            && !AllCoveredBombs(tm, r.covered)
            && LiveFlags(r.flagged, live) == 0
            && Won(tm, r.covered, r.flagged, 1, 0, 1)
  {
    DroppedFlagFrame(tm, covered, flagged);
    DroppedFlagState(tm, covered, flagged, live);
  }

  /** After the frame: (1, 0) is still covered and empty, and no flag is
      set any more. */
  lemma DroppedFlagState(tm: TileMap, covered: map<Coord, Handle>,
                         flagged: map<Coord, FlagEntry>, live: set<Handle>)
    requires tm == RIGHT_BOMB
    requires covered.Keys == flagged.Keys == {Coord(0, 0), Coord(1, 0), Coord(2, 0)}
    requires !flagged[Coord(1, 0)].isFlagged && !flagged[Coord(2, 0)].isFlagged
    ensures tm.Valid()
    ensures var rc, rf := covered - {Coord(0, 0)}, flagged - {Coord(0, 0)};
            && !AllCoveredBombs(tm, rc)
            && LiveFlags(rf, live) == 0
            && Won(tm, rc, rf, 1, 0, 1)
  {
    assert tm.Valid();
    var rc, rf := covered - {Coord(0, 0)}, flagged - {Coord(0, 0)};
    assert Coord(1, 0) in rc;
    assert !tm.BombAt(Coord(1, 0));
    assert forall c :: c in rf ==> !rf[c].isFlagged;
    assert LiveFlagSet(rf, live) == {};
  }

  /** The frame itself: (0, 0) loses its cover and its flag entry, and its
      one neighbour is queued. */
  lemma DroppedFlagFrame(tm: TileMap, covered: map<Coord, Handle>, flagged: map<Coord, FlagEntry>)
    requires tm == RIGHT_BOMB && Coord(0, 0) in covered
    ensures tm.Valid()
    ensures Process(tm, Start(covered, flagged), [Coord(0, 0)]) ==
            Frame(covered - {Coord(0, 0)}, flagged - {Coord(0, 0)}, 0, [Coord(1, 0)])
  {
    var c0 := Coord(0, 0);
    CornerCountZero(tm);
    ProcessSingle(tm, Start(covered, flagged), c0);
    StepEffect(tm, Start(covered, flagged), c0);
    assert !tm.BombAt(c0);
  }

  /** Cell (0, 0) of the 3 x 1 map has one neighbour in bounds, (1, 0),
      and it is empty. */
  lemma CornerCountZero(tm: TileMap)
    requires tm == RIGHT_BOMB
    ensures tm.Valid()
    ensures tm.NeighbourCoordinates(Coord(0, 0)) == [Coord(1, 0)]
    ensures tm.BombCountAt(Coord(0, 0)) == 0
  {
    assert tm.Valid();
    CornerNeighbours();
    assert !tm.BombAt(Coord(1, 0));
    assert tm.CountBombs([Coord(1, 0)]) == 0;
  }

  lemma CornerNeighbours()
    ensures RIGHT_BOMB.NeighbourCoordinates(Coord(0, 0)) == [Coord(1, 0)]
  {
    var tm := RIGHT_BOMB;
    var c0 := Coord(0, 0);
    var ds := SQUARE_NEIGHBOUR_OFFSETS;
    CornerTranslates();
    assert tm.Clip(c0, ds[7..]) == [];
    assert tm.Clip(c0, ds[6..]) == [];
    assert tm.Clip(c0, ds[5..]) == [];
    assert tm.Clip(c0, ds[4..]) == [Coord(1, 0)];
    assert tm.Clip(c0, ds[3..]) == [Coord(1, 0)];
    assert tm.Clip(c0, ds[2..]) == [Coord(1, 0)];
    assert tm.Clip(c0, ds[1..]) == [Coord(1, 0)];
    assert ds[0..] == ds;
  }

  /** Of the eight steps from the left corner, only `(1, 0)` stays on the
      3 x 1 map. */
  lemma CornerTranslates()
    ensures var ds := SQUARE_NEIGHBOUR_OFFSETS;
            && (forall k :: 0 <= k < 8 && k != 4 ==> !RIGHT_BOMB.InBounds(Translate(Coord(0, 0), ds[k])))
            && Translate(Coord(0, 0), ds[4]) == Coord(1, 0)
  {
    var tm := RIGHT_BOMB;
    var c0 := Coord(0, 0);
    var ds := SQUARE_NEIGHBOUR_OFFSETS;
    assert !tm.InBounds(Translate(c0, ds[0]));
    assert !tm.InBounds(Translate(c0, ds[1]));
    assert !tm.InBounds(Translate(c0, ds[2]));
    assert !tm.InBounds(Translate(c0, ds[3]));
    assert !tm.InBounds(Translate(c0, ds[5]));
    assert !tm.InBounds(Translate(c0, ds[6]));
    assert !tm.InBounds(Translate(c0, ds[7]));
  }
}
