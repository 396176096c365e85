/** `game_end_loop`: the win check. It is skipped unless the flag counter
    equals the map's bomb count and some flag or uncover request arrived;
    then a win is signalled when every set flag is on a bomb OR every cell
    still covered is a bomb. The two are alternatives, and each holds
    vacuously when there is nothing to inspect. */
module GameEnd {
  import opened Coordinates
  import opened TileMaps
  import opened Boards

  predicate AllFlagsCorrect(tm: TileMap, flagged: map<Coord, FlagEntry>) {
    forall c :: c in flagged && flagged[c].isFlagged ==> tm.BombAt(c)
  }

  predicate AllCoveredBombs(tm: TileMap, covered: map<Coord, Handle>) {
    forall c :: c in covered ==> tm.BombAt(c)
  }

  /** Whether the won signal is sent, given how many flag and uncover
      requests the two readers see this frame. */
  predicate Won(tm: TileMap, covered: map<Coord, Handle>, flagged: map<Coord, FlagEntry>,
                flagCount: int, flagEvents: nat, uncoverEvents: nat)
  {
    && flagCount == tm.bombCount
    && (flagEvents != 0 || uncoverEvents != 0)
    && (AllFlagsCorrect(tm, flagged) || AllCoveredBombs(tm, covered))
  }

  /** The system itself: it only reads the board. Both scans visit the
      hash maps in an unspecified order and stop at the first offending
      entry. */
  method GameEndLoop(board: Board, flagEvents: nat, uncoverEvents: nat) returns (won: bool)
    requires board.Valid()
    ensures won == Won(board.tileMap, board.covered, board.flagged, board.flagCount,
                       flagEvents, uncoverEvents)
  {
    if board.flagCount != board.tileMap.bombCount || (flagEvents == 0 && uncoverEvents == 0) {
      return false;
    }

    var allCorrectFlags := true;
    var todo := board.flagged.Keys;
    while todo != {}
      invariant todo <= board.flagged.Keys && allCorrectFlags
      invariant forall c :: c in board.flagged && c !in todo && board.flagged[c].isFlagged ==>
                  board.tileMap.BombAt(c)
      decreases |todo|
    {
      var c :| c in todo;
      todo := todo - {c};
      if !board.flagged[c].isFlagged {
        continue;
      }
      board.tileMap.InBoundsIndex(c);
      if !board.tileMap.At(c).IsBomb() {
        assert !AllFlagsCorrect(board.tileMap, board.flagged);
        allCorrectFlags := false;
        break;
      }
    }
    assert allCorrectFlags == AllFlagsCorrect(board.tileMap, board.flagged);

    var allCorrectCovered := true;
    todo := board.covered.Keys;
    while todo != {}
      invariant todo <= board.covered.Keys && allCorrectCovered
      invariant forall c :: c in board.covered && c !in todo ==> board.tileMap.BombAt(c)
      decreases |todo|
    {
      var c :| c in todo;
      todo := todo - {c};
      board.tileMap.InBoundsIndex(c);
      if !board.tileMap.At(c).IsBomb() {
        assert !AllCoveredBombs(board.tileMap, board.covered);
        allCorrectCovered := false;
        break;
      }
    }
    assert allCorrectCovered == AllCoveredBombs(board.tileMap, board.covered);

    won := allCorrectCovered || allCorrectFlags;
  }
}
