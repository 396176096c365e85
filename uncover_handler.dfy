/** `tile_uncover_event_handler`: one frame's batch of uncover requests.
    Each request whose cover is still on the board removes it, signals
    loss on a bomb and, for a cell with no bomb neighbours, drops its flag
    entry and queues its neighbours as the next frame's requests. */
module UncoverHandler {
  import opened Wrappers
  import opened Coordinates
  import opened TileMaps
  import opened Boards

  /** The state the handler reads and writes, the loss signals sent so far
      and the requests queued for the next frame. */
  datatype Frame = Frame(covered: map<Coord, Handle>, flagged: map<Coord, FlagEntry>,
                         lost: nat, emitted: seq<Coord>)

  /** One request, as the loop body handles it: afterwards its cell is
      uncovered; no cover and no flag entry is added, the loss count grows
      by at most one and the queue only grows at its end. */
  function Step(tm: TileMap, f: Frame, e: Coord): (r: Frame)
    requires tm.Valid()
    ensures e !in r.covered && r.covered.Keys <= f.covered.Keys
    ensures r.flagged.Keys <= f.flagged.Keys
    ensures f.lost <= r.lost <= f.lost + 1
    ensures f.emitted <= r.emitted
  {
    if e !in f.covered then f
    else
      var covered := Uncovered(f.covered, e);
      var lost := f.lost + (if tm.BombAt(e) then 1 else 0);
      if tm.BombCountAt(e) != 0 then Frame(covered, f.flagged, lost, f.emitted)
      else Frame(covered, f.flagged - {e}, lost, f.emitted + tm.NeighbourCoordinates(e))
  }

  /** The requests of one frame, in order: covers and flag entries are only
      taken away, at most one loss signal per request is sent, and queued
      requests are only appended. */
  function Process(tm: TileMap, f: Frame, events: seq<Coord>): (r: Frame)
    requires tm.Valid()
    ensures r.covered.Keys <= f.covered.Keys && r.flagged.Keys <= f.flagged.Keys
    ensures f.lost <= r.lost <= f.lost + |events|
    ensures f.emitted <= r.emitted
  {
    if events == [] then f
    else Step(tm, Process(tm, f, events[..|events| - 1]), events[|events| - 1])
  }

  /** The start of a frame: nothing sent yet. */
  function Start(covered: map<Coord, Handle>, flagged: map<Coord, FlagEntry>): Frame {
    Frame(covered, flagged, 0, [])
  }

  /** The system itself. The loss signals are counted in `lost`; the
      queued requests are returned in `sent`, and go out only after the
      whole batch is handled. */
  method TileUncoverEventHandler(board: Board, events: seq<Coord>)
    returns (lost: nat, sent: seq<Coord>)
    requires board.Valid()
    modifies board
    ensures var r := Process(old(board.tileMap), Start(old(board.covered), old(board.flagged)), events);
            && board.covered == r.covered && board.flagged == r.flagged
            && lost == r.lost && sent == r.emitted
    ensures board.tileMap == old(board.tileMap) && board.flagCount == old(board.flagCount)
    ensures board.Valid()
  {
    ghost var tm := board.tileMap;
    ghost var f0 := Start(board.covered, board.flagged);
    var pending: seq<Coord> := [];
    lost := 0;
    for i := 0 to |events|
      invariant board.tileMap == tm && board.flagCount == old(board.flagCount)
      invariant board.Valid()
      invariant Frame(board.covered, board.flagged, lost, pending) == Process(tm, f0, events[..i])
    {
      assert events[..i + 1][..i] == events[..i];
      lost, pending := HandleRequest(board, events[i], lost, pending);
    }
    assert events[..|events|] == events;
    sent := pending;
  }

  /** The loop body for one request `e`, with the loss signals and the
      queue so far. */
  method HandleRequest(board: Board, e: Coord, lost0: nat, pending0: seq<Coord>)
    returns (lost: nat, pending: seq<Coord>)
    requires board.Valid()
    modifies board
    ensures Frame(board.covered, board.flagged, lost, pending) ==
            Step(old(board.tileMap), Frame(old(board.covered), old(board.flagged), lost0, pending0), e)
    ensures board.tileMap == old(board.tileMap) && board.flagCount == old(board.flagCount)
    ensures board.Valid()
  {
    ghost var g := Frame(board.covered, board.flagged, lost0, pending0);
    lost, pending := lost0, pending0;
    var entity := board.TryUncover(e);
    if entity.None? {
      StaleRequestIsNoOp(board.tileMap, g, e);
      return;
    }
    StepEffect(board.tileMap, g, e);
    board.tileMap.InBoundsIndex(e);
    if board.tileMap.At(e).IsBomb() {
      lost := lost + 1;
    }
    if board.tileMap.BombCountAt(e) != 0 {
      return;
    }
    pending := pending + board.tileMap.NeighbourCoordinates(e);
    board.flagged := board.flagged - {e};
  }

  // ---- what one frame does ----------------------------------------------

  /** A request whose cover is already gone changes nothing at all: no
      loss signal, no new requests, the flag entries untouched. */
  lemma StaleRequestIsNoOp(tm: TileMap, f: Frame, e: Coord)
    requires tm.Valid() && e !in f.covered
    ensures Step(tm, f, e) == f
  {
  }

  /** A request that finds its cover removes it and signals loss on a
      bomb, whatever the count; with bomb neighbours it stops there and the
      flag entry stays, with none it drops the flag entry and queues the
      in-bounds neighbours in table order. */
  lemma StepEffect(tm: TileMap, f: Frame, e: Coord)
    requires tm.Valid() && e in f.covered
    ensures var r := Step(tm, f, e);
            && r.covered == f.covered - {e}
            && r.lost == f.lost + (if tm.BombAt(e) then 1 else 0)
            && (tm.BombCountAt(e) != 0 ==> r.flagged == f.flagged && r.emitted == f.emitted)
            && (tm.BombCountAt(e) == 0 ==>
                  r.flagged == f.flagged - {e} && r.emitted == f.emitted + tm.NeighbourCoordinates(e))
  {
  }

  lemma ProcessSingle(tm: TileMap, f: Frame, e: Coord)
    requires tm.Valid()
    ensures Process(tm, f, [e]) == Step(tm, f, e)
  {
    assert [e][..0] == [];
  }

  /** After a frame, the covers left are exactly those no request named. */
  lemma {:induction false} ProcessCovered(tm: TileMap, f: Frame, events: seq<Coord>)
    requires tm.Valid()
    ensures Process(tm, f, events).covered.Keys == f.covered.Keys - set e | e in events
    ensures forall c :: c in Process(tm, f, events).covered ==>
              Process(tm, f, events).covered[c] == f.covered[c]
  {
    if events != [] {
      var init := events[..|events| - 1];
      ProcessCovered(tm, f, init);
      assert forall e :: e in events <==> e in init || e == events[|events| - 1];
    }
  }

  /** The cells a frame uncovers: named by a request, covered at its start. */
  function UncoveredBy(covered: map<Coord, Handle>, events: seq<Coord>): set<Coord> {
    set e | e in events && e in covered
  }

  /** The cells of those whose adjacency count is zero: the ones that drop
      their flag entry and spread. */
  function Openers(tm: TileMap, covered: map<Coord, Handle>, events: seq<Coord>): set<Coord>
    requires tm.Valid()
  {
    set e | e in events && e in covered && tm.BombCountAt(e) == 0
  }

  /** The flag entries removed in a frame are exactly those of uncovered
      zero-count cells; entries of cells with bomb neighbours stay, even
      when their cover went. */
  lemma {:induction false} ProcessFlagged(tm: TileMap, f: Frame, events: seq<Coord>)
    requires tm.Valid()
    ensures Process(tm, f, events).flagged == f.flagged - Openers(tm, f.covered, events)
  {
    if events != [] {
      var init := events[..|events| - 1];
      var e := events[|events| - 1];
      ProcessFlagged(tm, f, init);
      ProcessCovered(tm, f, init);
      assert forall c :: c in events <==> c in init || c == e;
      var g := Process(tm, f, init);
      if e in g.covered && tm.BombCountAt(e) == 0 {
        assert Openers(tm, f.covered, events) == Openers(tm, f.covered, init) + {e};
      } else {
        assert Openers(tm, f.covered, events) == Openers(tm, f.covered, init);
      }
    }
  }

  /** The bombs among the cells a frame uncovers. */
  function FrameBombs(tm: TileMap, covered: map<Coord, Handle>, events: seq<Coord>): set<Coord>
    requires tm.Valid()
  {
    set c | c in UncoveredBy(covered, events) && tm.BombAt(c)
  }

  /** One more request adds its cell to the frame's bombs iff it is a
      covered bomb no earlier request named. */
  lemma FrameBombsStep(tm: TileMap, covered: map<Coord, Handle>, init: seq<Coord>, e: Coord)
    requires tm.Valid()
    ensures |FrameBombs(tm, covered, init + [e])| ==
            |FrameBombs(tm, covered, init)| + (if e in covered && e !in init && tm.BombAt(e) then 1 else 0)
  {
    var before, after := FrameBombs(tm, covered, init), FrameBombs(tm, covered, init + [e]);
    assert forall c :: c in init + [e] <==> c in init || c == e;
    if e in covered && e !in init && tm.BombAt(e) {
      assert after == before + {e};
    } else {
      assert after == before;
    }
  }

  /** One loss signal per bomb uncovered in the frame, so one is sent
      exactly when some request uncovered a bomb. */
  lemma {:induction false} ProcessLost(tm: TileMap, f: Frame, events: seq<Coord>)
    requires tm.Valid()
    ensures Process(tm, f, events).lost == f.lost + |FrameBombs(tm, f.covered, events)|
  {
    if events != [] {
      var init := events[..|events| - 1];
      var e := events[|events| - 1];
      assert events == init + [e];
      ProcessLost(tm, f, init);
      ProcessCovered(tm, f, init);
      FrameBombsStep(tm, f.covered, init, e);
    }
  }

  lemma LossSignalled(tm: TileMap, f: Frame, events: seq<Coord>)
    requires tm.Valid()
    ensures Process(tm, f, events).lost > f.lost <==>
              exists e :: e in events && e in f.covered && tm.BombAt(e)
  {
    ProcessLost(tm, f, events);
    var bombs := FrameBombs(tm, f.covered, events);
    if exists e :: e in events && e in f.covered && tm.BombAt(e) {
      var e :| e in events && e in f.covered && tm.BombAt(e);
      assert e in bombs;
    }
  }

  /** A frame only ever appends: the requests it queues come after the
      ones already queued, and are all in-bounds cells. */
  lemma {:induction false} ProcessEmitsInBounds(tm: TileMap, f: Frame, events: seq<Coord>)
    requires tm.Valid()
    ensures var r := Process(tm, f, events);
            && f.emitted <= r.emitted
            && forall k :: |f.emitted| <= k < |r.emitted| ==> tm.InBounds(r.emitted[k])
  {
    if events != [] {
      ProcessEmitsInBounds(tm, f, events[..|events| - 1]);
    }
  }

  /** A frame in which no request finds a cover queues nothing, loses
      nothing and leaves the board as it was. */
  lemma {:induction false} IdleFrame(tm: TileMap, f: Frame, events: seq<Coord>)
    requires tm.Valid()
    requires forall e :: e in events ==> e !in f.covered
    ensures Process(tm, f, events) == f
  {
    if events != [] {
      IdleFrame(tm, f, events[..|events| - 1]);
    }
  }

  // ---- frames in a row: the reveal cascade --------------------------------

  /** What a run of frames leaves behind, and how many frames handled at
      least one request. */
  datatype Outcome = Outcome(covered: map<Coord, Handle>, flagged: map<Coord, FlagEntry>,
                             lost: nat, frames: nat)

  /** Frames run one after the other, each handling the requests the
      previous one queued, until a frame queues nothing. Each frame either
      removes a cover or queues nothing (IdleFrame), so the run ends, after
      at most one frame per cover plus a last idle one; every request of the
      first frame ends uncovered. */
  function Cascade(tm: TileMap, covered: map<Coord, Handle>, flagged: map<Coord, FlagEntry>,
                   lost: nat, events: seq<Coord>): (r: Outcome)
    requires tm.Valid()
    ensures r.covered.Keys <= covered.Keys
    ensures forall c :: c in r.covered ==> r.covered[c] == covered[c]
    ensures forall e :: e in events ==> e !in r.covered
    ensures r.frames <= |covered.Keys| + (if events == [] then 0 else 1)
    decreases 2 * |covered.Keys| + (if events == [] then 0 else 1)
  {
    if events == [] then Outcome(covered, flagged, lost, 0)
    else
      var g := Process(tm, Frame(covered, flagged, lost, []), events);
      ProcessCovered(tm, Frame(covered, flagged, lost, []), events);
      if forall e :: e in events ==> e !in covered then
        IdleFrame(tm, Frame(covered, flagged, lost, []), events);
        Outcome(covered, flagged, lost, 1)
      else
        var e :| e in events && e in covered;
        SubsetCardinality(g.covered.Keys, covered.Keys - {e});
        var r := Cascade(tm, g.covered, g.flagged, g.lost, g.emitted);
        r.(frames := r.frames + 1)
  }

  lemma {:induction false} SubsetCardinality<T>(a: set<T>, b: set<T>)
    requires a <= b
    ensures |a| <= |b|
  {
    if a != {} {
      var x :| x in a;
      SubsetCardinality(a - {x}, b - {x});
    }
  }

  /** Every cell uncovered since `covered0` with no bomb neighbours has
      each neighbour either uncovered or still among the `pending`
      requests. */
  predicate Closed(tm: TileMap, covered0: map<Coord, Handle>, covered: map<Coord, Handle>,
                   pending: seq<Coord>)
    requires tm.Valid()
  {
    forall c, n ::
      (c in covered0 && c !in covered && tm.BombCountAt(c) == 0 && n in tm.NeighbourCoordinates(c))
      ==> n !in covered || n in pending
  }

  /** One request keeps the closure: it either uncovers its cell, queueing
      its neighbours when the count is zero, or finds the cell already
      uncovered. */
  lemma StepClosed(tm: TileMap, covered0: map<Coord, Handle>, g: Frame, e: Coord, rest: seq<Coord>)
    requires tm.Valid()
    requires Closed(tm, covered0, g.covered, [e] + rest + g.emitted)
    ensures Closed(tm, covered0, Step(tm, g, e).covered, rest + Step(tm, g, e).emitted)
  {
    var h := Step(tm, g, e);
    assert g.emitted <= h.emitted;
    assert h.covered == g.covered - {e};
    forall c, n | c in covered0 && c !in h.covered && tm.BombCountAt(c) == 0 &&
                  n in tm.NeighbourCoordinates(c)
      ensures n !in h.covered || n in rest + h.emitted
    {
      if c !in g.covered {
        assert n !in g.covered || n in [e] + rest + g.emitted;
      } else {
        assert c == e;
      }
    }
  }

  /** Handling the requests one by one keeps the closure. */
  lemma {:induction false} ProcessClosed(tm: TileMap, covered0: map<Coord, Handle>, f: Frame,
                                         events: seq<Coord>, i: nat)
    requires tm.Valid() && i <= |events|
    requires Closed(tm, covered0, f.covered, events + f.emitted)
    ensures Closed(tm, covered0, Process(tm, f, events[..i]).covered,
                   events[i..] + Process(tm, f, events[..i]).emitted)
  {
    if i == 0 {
      assert events[..0] == [] && events[0..] == events;
    } else {
      ProcessClosed(tm, covered0, f, events, i - 1);
      assert events[..i][..i - 1] == events[..i - 1];
      var g := Process(tm, f, events[..i - 1]);
      var e := events[i - 1];
      assert Process(tm, f, events[..i]) == Step(tm, g, e);
      assert events[i - 1..] + g.emitted == [e] + events[i..] + g.emitted;
      StepClosed(tm, covered0, g, e, events[i..]);
    }
  }

  /** A frame of requests that all find their cell uncovered leaves the
      closure with nothing pending. */
  lemma IdleClosed(tm: TileMap, covered0: map<Coord, Handle>, covered: map<Coord, Handle>,
                   events: seq<Coord>)
    requires tm.Valid()
    requires Closed(tm, covered0, covered, events)
    requires forall e :: e in events ==> e !in covered
    ensures Closed(tm, covered0, covered, [])
  {
    forall c, n | c in covered0 && c !in covered && tm.BombCountAt(c) == 0 &&
                  n in tm.NeighbourCoordinates(c)
      ensures n !in covered
    {
      assert n !in covered || n in events;
    }
  }

  /** A whole frame keeps the closure, its queued requests pending. */
  lemma FrameClosed(tm: TileMap, covered0: map<Coord, Handle>, f: Frame, events: seq<Coord>)
    requires tm.Valid() && f.emitted == []
    requires Closed(tm, covered0, f.covered, events)
    ensures Closed(tm, covered0, Process(tm, f, events).covered, Process(tm, f, events).emitted)
  {
    assert events + [] == events;
    ProcessClosed(tm, covered0, f, events, |events|);
    assert events[..|events|] == events && events[|events|..] == [];
    assert [] + Process(tm, f, events).emitted == Process(tm, f, events).emitted;
  }

  lemma {:induction false} CascadeClosed(tm: TileMap, covered0: map<Coord, Handle>,
                                         covered: map<Coord, Handle>, flagged: map<Coord, FlagEntry>,
                                         lost: nat, events: seq<Coord>)
    requires tm.Valid()
    requires Closed(tm, covered0, covered, events)
    ensures Closed(tm, covered0, Cascade(tm, covered, flagged, lost, events).covered, [])
    decreases 2 * |covered.Keys| + (if events == [] then 0 else 1)
  {
    if events != [] {
      if forall e :: e in events ==> e !in covered {
        assert Cascade(tm, covered, flagged, lost, events).covered == covered;
        IdleClosed(tm, covered0, covered, events);
      } else {
        var f := Frame(covered, flagged, lost, []);
        var g := Process(tm, f, events);
        CascadeUnfold(tm, covered, flagged, lost, events);
        FrameClosed(tm, covered0, f, events);
        CascadeClosed(tm, covered0, g.covered, g.flagged, g.lost, g.emitted);
      }
    }
  }

  /** The cascade opens whole zero regions: once no requests are left,
      every cell it uncovered that has no bomb neighbours has all its
      neighbours uncovered too. */
  lemma CascadeOpensZeroRegions(tm: TileMap, covered: map<Coord, Handle>,
                                flagged: map<Coord, FlagEntry>, events: seq<Coord>,
                                c: Coord, n: Coord)
    requires tm.Valid()
    requires c in covered && c !in Cascade(tm, covered, flagged, 0, events).covered
    requires tm.BombCountAt(c) == 0 && n in tm.NeighbourCoordinates(c)
    ensures n !in Cascade(tm, covered, flagged, 0, events).covered
  {
    StartClosed(tm, covered, events);
    CascadeClosed(tm, covered, covered, flagged, 0, events);
    var r := Cascade(tm, covered, flagged, 0, events);
    assert n !in r.covered || n in [];
  }

  /** Before anything is uncovered the closure holds trivially. */
  lemma StartClosed(tm: TileMap, covered: map<Coord, Handle>, events: seq<Coord>)
    requires tm.Valid()
    ensures Closed(tm, covered, covered, events)
  {
  }

  /** The bombs among the cells covered in `covered` but not in `last`. */
  function UncoveredBombs(tm: TileMap, covered: map<Coord, Handle>, last: map<Coord, Handle>): set<Coord> {
    set c | c in covered && c !in last && tm.BombAt(c)
  }

  /** The bombs uncovered in two stretches, `covered` to `mid` by the
      requests `events` and `mid` to `last`, are disjoint and together the
      bombs uncovered overall. */
  lemma DisjointBombs(tm: TileMap, covered: map<Coord, Handle>, mid: map<Coord, Handle>,
                      last: map<Coord, Handle>, events: seq<Coord>)
    requires tm.Valid()
    requires mid.Keys == covered.Keys - set e | e in events
    requires last.Keys <= mid.Keys
    ensures |UncoveredBombs(tm, covered, last)| ==
            |FrameBombs(tm, covered, events)| +
            |UncoveredBombs(tm, mid, last)|
  {
    var first := FrameBombs(tm, covered, events);
    assert UncoveredBombs(tm, covered, last) == first + UncoveredBombs(tm, mid, last);
    assert first * UncoveredBombs(tm, mid, last) == {};
  }

  /** One unfolding of Cascade: a frame that finds a cover hands its
      queued requests to the rest of the run. */
  lemma CascadeUnfold(tm: TileMap, covered: map<Coord, Handle>,
                      flagged: map<Coord, FlagEntry>, lost: nat, events: seq<Coord>)
    requires tm.Valid()
    requires exists e :: e in events && e in covered
    ensures var g := Process(tm, Frame(covered, flagged, lost, []), events);
            && |g.covered.Keys| < |covered.Keys|
            && Cascade(tm, covered, flagged, lost, events).covered ==
               Cascade(tm, g.covered, g.flagged, g.lost, g.emitted).covered
            && Cascade(tm, covered, flagged, lost, events).lost ==
               Cascade(tm, g.covered, g.flagged, g.lost, g.emitted).lost
  {
    var g := Process(tm, Frame(covered, flagged, lost, []), events);
    ProcessCovered(tm, Frame(covered, flagged, lost, []), events);
    var e :| e in events && e in covered;
    SubsetCardinality(g.covered.Keys, covered.Keys - {e});
  }

  /** Over the whole cascade, one loss signal per bomb it uncovered. */
  lemma {:induction false} CascadeLost(tm: TileMap, covered: map<Coord, Handle>,
                                       flagged: map<Coord, FlagEntry>, lost: nat, events: seq<Coord>)
    requires tm.Valid()
    ensures var r := Cascade(tm, covered, flagged, lost, events);
            r.lost == lost + |UncoveredBombs(tm, covered, r.covered)|
    decreases 2 * |covered.Keys| + (if events == [] then 0 else 1)
  {
    var r := Cascade(tm, covered, flagged, lost, events);
    var f := Frame(covered, flagged, lost, []);
    if events == [] || forall e :: e in events ==> e !in covered {
      assert r.covered == covered && r.lost == lost;
      assert UncoveredBombs(tm, covered, r.covered) == {};
    } else {
      var g := Process(tm, f, events);
      ProcessCovered(tm, f, events);
      CascadeUnfold(tm, covered, flagged, lost, events);
      ProcessLost(tm, f, events);
      CascadeLost(tm, g.covered, g.flagged, g.lost, g.emitted);
      var s := Cascade(tm, g.covered, g.flagged, g.lost, g.emitted);
      DisjointBombs(tm, covered, g.covered, s.covered, events);
    }
  }
}
