/** `tile_flag_event_handler`: each flag request toggles the cell's flag
    entry and, when the cell's cover entity is still found, swaps its
    texture and moves the flag counter by one in the new direction. */
module FlagHandler {
  import opened Wrappers
  import opened Coordinates
  import opened Boards

  /** The part of the board the handler writes. */
  datatype FlagState = FlagState(flagged: map<Coord, FlagEntry>, flagCount: int)

  /** One request. `live` is the set of cover entities the texture query
      still finds; a missing cover skips the counter but not the toggle.
      The keys stay, the requested cell's bit flips, and the counter moves
      by at most one. */
  function FlagStep(s: FlagState, e: Coord, live: set<Handle>): (r: FlagState)
    ensures r.flagged.Keys == s.flagged.Keys
    ensures e in s.flagged ==> r.flagged[e].isFlagged == !s.flagged[e].isFlagged
    ensures s.flagCount - 1 <= r.flagCount <= s.flagCount + 1
  {
    ToggledEffect(s.flagged, e);
    if e !in s.flagged then s
    else
      var flagged := Toggled(s.flagged, e);
      var entry := flagged[e];
      if entry.cover !in live then FlagState(flagged, s.flagCount)
      else FlagState(flagged, s.flagCount + (if entry.isFlagged then 1 else -1))
  }

  /** The requests of one frame, in order: the keys stay, and the counter
      moves by at most one per request. */
  function FlagProcess(s: FlagState, events: seq<Coord>, live: set<Handle>): (r: FlagState)
    ensures r.flagged.Keys == s.flagged.Keys
    ensures s.flagCount - |events| <= r.flagCount <= s.flagCount + |events|
  {
    if events == [] then s
    else FlagStep(FlagProcess(s, events[..|events| - 1], live), events[|events| - 1], live)
  }

  /** The system itself. */
  method TileFlagEventHandler(board: Board, events: seq<Coord>, live: set<Handle>)
    modifies board
    ensures FlagState(board.flagged, board.flagCount) ==
            FlagProcess(FlagState(old(board.flagged), old(board.flagCount)), events, live)
    ensures board.tileMap == old(board.tileMap) && board.covered == old(board.covered)
    ensures old(board.Valid()) ==> board.Valid()
  {
    ghost var s0 := FlagState(board.flagged, board.flagCount);
    for i := 0 to |events|
      invariant FlagState(board.flagged, board.flagCount) == FlagProcess(s0, events[..i], live)
      invariant board.tileMap == old(board.tileMap) && board.covered == old(board.covered)
      invariant old(board.Valid()) ==> board.Valid()
    {
      assert events[..i + 1][..i] == events[..i];
      ghost var g := FlagState(board.flagged, board.flagCount);
      assert FlagProcess(s0, events[..i + 1], live) == FlagStep(g, events[i], live);
      FlagStepCounter(g, events[i], live);
      var toggled := board.TryToggleFlag(events[i]);
      if toggled.Some? {
        if toggled.value.cover !in live {
          continue;
        }
        if toggled.value.isFlagged {
          board.flagCount := board.flagCount + 1;
        } else {
          board.flagCount := board.flagCount - 1;
        }
      }
    }
    assert events[..|events|] == events;
  }

  /** The cells whose flag is set and whose cover is still live. */
  function LiveFlagSet(flagged: map<Coord, FlagEntry>, live: set<Handle>): set<Coord> {
    set c | c in flagged && flagged[c].isFlagged && flagged[c].cover in live
  }

  /** The number of set flags whose cover is still live: what the counter
      is meant to hold. */
  function LiveFlags(flagged: map<Coord, FlagEntry>, live: set<Handle>): nat {
    |LiveFlagSet(flagged, live)|
  }

  /** A request for a cell without a flag entry does nothing; otherwise
      the counter moves by one towards the new flag state when the cover is
      live and stays put when it is not. */
  lemma FlagStepCounter(s: FlagState, e: Coord, live: set<Handle>)
    ensures e !in s.flagged ==> FlagStep(s, e, live) == s
    ensures e in s.flagged ==>
              && FlagStep(s, e, live).flagged == Toggled(s.flagged, e)
              && FlagStep(s, e, live).flagCount ==
                 s.flagCount + (if s.flagged[e].cover !in live then 0
                                else if s.flagged[e].isFlagged then -1 else 1)
  {
  }

  /** With the cover present (or absent) in both, two requests on the
      same cell restore the flag entry and the counter. */
  lemma FlagStepTwice(s: FlagState, e: Coord, live: set<Handle>)
    ensures FlagStep(FlagStep(s, e, live), e, live) == s
  {
    ToggledEffect(s.flagged, e);
  }

  /** Toggling one entry changes the live set flags at that cell only. */
  lemma ToggledLiveFlagSet(flagged: map<Coord, FlagEntry>, e: Coord, live: set<Handle>)
    requires e in flagged
    ensures LiveFlagSet(Toggled(flagged, e), live) ==
            if flagged[e].cover !in live then LiveFlagSet(flagged, live)
            else if flagged[e].isFlagged then LiveFlagSet(flagged, live) - {e}
            else LiveFlagSet(flagged, live) + {e}
  {
    ToggledEffect(flagged, e);
  }

  /** A step keeps the difference between the counter and the number of
      live set flags: the counter tracks the toggles it sees. */
  lemma FlagStepTracks(s: FlagState, e: Coord, live: set<Handle>)
    ensures var r := FlagStep(s, e, live);
            r.flagCount - LiveFlags(r.flagged, live) == s.flagCount - LiveFlags(s.flagged, live)
  {
    if e in s.flagged {
      ToggledLiveFlagSet(s.flagged, e, live);
    }
  }

  lemma {:induction false} FlagProcessTracks(s: FlagState, events: seq<Coord>, live: set<Handle>)
    ensures var r := FlagProcess(s, events, live);
            r.flagCount - LiveFlags(r.flagged, live) == s.flagCount - LiveFlags(s.flagged, live)
            && r.flagged.Keys == s.flagged.Keys
  {
    if events != [] {
      var init := events[..|events| - 1];
      FlagProcessTracks(s, init, live);
      FlagStepTracks(FlagProcess(s, init, live), events[|events| - 1], live);
      ToggledEffect(FlagProcess(s, init, live).flagged, events[|events| - 1]);
    }
  }

  /** So a counter that matched the live set flags still matches them
      after any run of flag requests. */
  lemma CounterStaysExact(s: FlagState, events: seq<Coord>, live: set<Handle>)
    requires s.flagCount == LiveFlags(s.flagged, live)
    ensures FlagProcess(s, events, live).flagCount == LiveFlags(FlagProcess(s, events, live).flagged, live)
  {
    FlagProcessTracks(s, events, live);
  }

  /** Whether the request takes the `flag_count -= 1` branch: the toggle
      clears a set flag whose cover is live. */
  predicate FlagDecrements(s: FlagState, e: Coord, live: set<Handle>) {
    e in s.flagged && s.flagged[e].cover in live && s.flagged[e].isFlagged
  }

  /** A counter at least the number of live set flags stays so through a
      request, and a decrement only happens on a live set flag, so the
      counter is then at least one. */
  lemma StepNoUnderflow(s: FlagState, e: Coord, live: set<Handle>)
    requires s.flagCount >= LiveFlags(s.flagged, live)
    ensures FlagDecrements(s, e, live) ==> s.flagCount >= 1
    ensures FlagStep(s, e, live).flagCount >= LiveFlags(FlagStep(s, e, live).flagged, live)
  {
    FlagStepTracks(s, e, live);
    if FlagDecrements(s, e, live) {
      assert e in LiveFlagSet(s.flagged, live);
    }
  }
}
