/** `Board`: the live game state, i.e. the generated tile map, the covers
    still on the board (`covered`), one flag entry per cell (`flagged`) and
    the running flag counter, with its two mutators `try_uncover` and
    `try_toggle_flag`. The screen-space fields (`bounds`, `tile_size`) are
    not part of this model. */
module Boards {
  import opened Wrappers
  import opened Coordinates
  import opened TileMaps

  /** An ECS entity id, compared only for equality. */
  datatype Handle = Handle(id: nat)

  /** A `flagged` entry `(tile, cover, is_flagged)`. */
  datatype FlagEntry = FlagEntry(tile: Handle, cover: Handle, isFlagged: bool)

  /** `covered.remove(c)`'s effect on the map. */
  function Uncovered(covered: map<Coord, Handle>, c: Coord): map<Coord, Handle> {
    covered - {c}
  }

  /** `try_toggle_flag`'s effect on the map: the flag bit of the entry at
      `c`, if there is one, is negated in place. */
  function Toggled(flagged: map<Coord, FlagEntry>, c: Coord): map<Coord, FlagEntry> {
    if c in flagged then flagged[c := flagged[c].(isFlagged := !flagged[c].isFlagged)]
    else flagged
  }

  /** Removing a cover takes away that key and nothing else; a second
      removal finds nothing and changes nothing. */
  lemma UncoveredEffect(covered: map<Coord, Handle>, c: Coord)
    ensures c !in Uncovered(covered, c)
    ensures Uncovered(covered, c).Keys == covered.Keys - {c}
    ensures forall k :: k in covered && k != c ==> Uncovered(covered, c)[k] == covered[k]
    ensures c !in covered ==> Uncovered(covered, c) == covered
    ensures Uncovered(Uncovered(covered, c), c) == Uncovered(covered, c)
  {
  }

  /** The toggle keeps the key set and both handles, negates exactly the
      bit at `c`, and is its own inverse. */
  lemma ToggledEffect(flagged: map<Coord, FlagEntry>, c: Coord)
    ensures Toggled(flagged, c).Keys == flagged.Keys
    ensures forall k :: k in flagged && k != c ==> Toggled(flagged, c)[k] == flagged[k]
    ensures c in flagged ==>
              && Toggled(flagged, c)[c].tile == flagged[c].tile
              && Toggled(flagged, c)[c].cover == flagged[c].cover
              && Toggled(flagged, c)[c].isFlagged == !flagged[c].isFlagged
    ensures Toggled(Toggled(flagged, c), c) == flagged
  {
  }

  class Board {
    var tileMap: TileMap
    var covered: map<Coord, Handle>
    var flagged: map<Coord, FlagEntry>
    /** A `u16` in the source; see the README for why it is unbounded here. */
    var flagCount: int

    /** The map is well formed and every key of both maps names a cell. */
    ghost predicate Valid()
      reads this
    {
      && tileMap.Valid()
      && (forall c :: c in covered ==> tileMap.InBounds(c))
      && (forall c :: c in flagged ==> tileMap.InBounds(c))
    }

    constructor (tileMap: TileMap, covered: map<Coord, Handle>,
                 flagged: map<Coord, FlagEntry>, flagCount: int)
      ensures this.tileMap == tileMap && this.covered == covered
      ensures this.flagged == flagged && this.flagCount == flagCount
    {
      this.tileMap := tileMap;
      this.covered := covered;
      this.flagged := flagged;
      this.flagCount := flagCount;
    }

    /** `try_uncover`: remove the cover at `c`, returning its handle if
        there was one. */
    method TryUncover(c: Coord) returns (r: Option<Handle>)
      modifies this
      ensures r == if c in old(covered) then Some(old(covered)[c]) else None
      ensures covered == Uncovered(old(covered), c)
      ensures tileMap == old(tileMap) && flagged == old(flagged) && flagCount == old(flagCount)
      ensures old(Valid()) ==> Valid()
    {
      if c in covered {
        r := Some(covered[c]);
        covered := covered - {c};
      } else {
        r := None;
      }
    }

    /** `try_toggle_flag`: flip the flag bit at `c` and return the updated
        entry; `None`, and no change, when `c` has no entry. The counter
        is the caller's business. */
    method TryToggleFlag(c: Coord) returns (r: Option<FlagEntry>)
      modifies this
      ensures r == if c in old(flagged) then Some(Toggled(old(flagged), c)[c]) else None
      ensures flagged == Toggled(old(flagged), c)
      ensures tileMap == old(tileMap) && covered == old(covered) && flagCount == old(flagCount)
      ensures old(Valid()) ==> Valid()
    {
      if c in flagged {
        var entry := flagged[c];
        entry := entry.(isFlagged := !entry.isFlagged);
        flagged := flagged[c := entry];
        r := Some(entry);
      } else {
        r := None;
      }
    }
  }
}
