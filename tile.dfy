/** The kind of a board cell. */
module Tiles {

  datatype Tile = Bomb | Empty {
    predicate IsBomb() {
      Bomb?
    }
  }
}
