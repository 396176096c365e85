/** The flag counter against the live set flags across all the systems
    that touch them: flag requests keep the difference, while an uncover
    frame dropping flag entries and covers being despawned can only lower
    the number of live set flags. So a counter that starts at or above
    that number (a fresh board starts equal, at zero) never falls below it,
    and in particular never below zero. */
module CounterBound {
  import opened Coordinates
  import opened TileMaps
  import opened Boards
  import opened UncoverHandler
  import opened FlagHandler
  import opened BoardCreation

  /** The counter is at least the number of set flags on live covers. */
  predicate Bounded(flagged: map<Coord, FlagEntry>, flagCount: int, live: set<Handle>) {
    flagCount >= LiveFlags(flagged, live)
  }

  /** A freshly built board, its counter at zero, is bounded whichever
      covers are live. */
  lemma FreshBoardBounded(tm: TileMap, tileHandles: seq<Handle>, coverHandles: seq<Handle>,
                          covered: map<Coord, Handle>, flagged: map<Coord, FlagEntry>,
                          live: set<Handle>)
    requires tm.Valid() && |tm.tiles| == |tileHandles| == |coverHandles|
    requires Filled(tm, tileHandles, coverHandles, covered, flagged, |tm.tiles|)
    ensures Bounded(flagged, 0, live)
  {
    FreshCounterExact(tm, tileHandles, coverHandles, covered, flagged, live);
  }

  /** Fewer flag entries (the rest unchanged) and fewer live covers keep
      the bound. */
  lemma ShrinkKeepsBound(flagged: map<Coord, FlagEntry>, flagged': map<Coord, FlagEntry>,
                         flagCount: int, live: set<Handle>, live': set<Handle>)
    requires Bounded(flagged, flagCount, live)
    requires forall c :: c in flagged' ==> c in flagged && flagged'[c] == flagged[c]
    requires live' <= live
    ensures Bounded(flagged', flagCount, live')
  {
    assert LiveFlagSet(flagged', live') <= LiveFlagSet(flagged, live);
    SubsetCardinality(LiveFlagSet(flagged', live'), LiveFlagSet(flagged, live));
  }

  /** An uncover frame leaves the counter alone and only removes flag
      entries; `live'` is what is left of the covers once `remove_cover`
      has despawned some. */
  lemma UncoverKeepsBound(tm: TileMap, f: Frame, events: seq<Coord>, flagCount: int,
                          live: set<Handle>, live': set<Handle>)
    requires tm.Valid()
    requires Bounded(f.flagged, flagCount, live) && live' <= live
    ensures Bounded(Process(tm, f, events).flagged, flagCount, live')
  {
    ProcessFlagged(tm, f, events);
    ShrinkKeepsBound(f.flagged, Process(tm, f, events).flagged, flagCount, live, live');
  }

  /** A flag frame keeps the bound, and none of its decrements starts
      from zero. */
  lemma FlagFrameKeepsBound(s: FlagState, events: seq<Coord>, live: set<Handle>)
    requires Bounded(s.flagged, s.flagCount, live)
    ensures forall i :: 0 <= i < |events| ==>
              FlagDecrements(FlagProcess(s, events[..i], live), events[i], live) ==>
              FlagProcess(s, events[..i], live).flagCount >= 1
    ensures Bounded(FlagProcess(s, events, live).flagged, FlagProcess(s, events, live).flagCount, live)
  {
    FlagProcessTracks(s, events, live);
    forall i | 0 <= i < |events|
      ensures FlagDecrements(FlagProcess(s, events[..i], live), events[i], live) ==>
              FlagProcess(s, events[..i], live).flagCount >= 1
    {
      FlagProcessTracks(s, events[..i], live);
      StepNoUnderflow(FlagProcess(s, events[..i], live), events[i], live);
    }
  }
}
