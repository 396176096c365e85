/** `TileMap`: the grid of tile kinds stored row by row in one flat
    sequence (cell `(x, y)` at `x + y * width`), its generation, neighbour
    queries, adjacency counts, indexing and debug rendering. */
module TileMaps {
  import opened Decimal
  import opened Coordinates
  import opened Tiles

  /** `SQUARE_NEIGHBOUR_COORDINATES`, in table order. */
  const SQUARE_NEIGHBOUR_OFFSETS: seq<Offset> :=
    [(-1, -1), (0, -1), (1, -1), (-1, 0), (1, 0), (-1, 1), (0, 1), (1, 1)]

  /** `TRUE_SQUARE_NEIGHBOUR_COORDINATES`: the orthogonal steps only. */
  const TRUE_SQUARE_NEIGHBOUR_OFFSETS: seq<Offset> :=
    [(0, -1), (-1, 0), (1, 0), (0, 1)]

  /** `n` is one king's move away from `c` (the 8-neighbourhood). */
  predicate IsAdjacent8(c: Coord, n: Coord) {
    n != c && -1 <= n.x - c.x <= 1 && -1 <= n.y - c.y <= 1
  }

  /** `n` is one rook step away from `c` (the 4-neighbourhood). */
  predicate IsAdjacent4(c: Coord, n: Coord) {
    (n.x == c.x && (n.y - c.y == 1 || c.y - n.y == 1)) ||
    (n.y == c.y && (n.x - c.x == 1 || c.x - n.x == 1))
  }

  predicate NoDuplicates<T(==)>(s: seq<T>) {
    forall i, j :: 0 <= i < j < |s| ==> s[i] != s[j]
  }

  /** The result of `shuffle` on the `&mut Tile` pointers: position `k` of
      the shuffled list points at cell `order[k]`. */
  predicate IsPermutation(order: seq<nat>, n: nat) {
    && |order| == n
    && (forall k :: 0 <= k < n ==> order[k] < n)
    && NoDuplicates(order)
  }

  /** `a * b`, by repeated addition, so that the solver sees the product
      as a term of its own and multiplies only where ProductIsMul is used. */
  function Product(a: nat, b: nat): nat {
    if b == 0 then 0 else Product(a, b - 1) + a
  }

  lemma {:induction false} ProductIsMul(a: nat, b: nat)
    ensures Product(a, b) == a * b
  {
    if b > 0 {
      ProductIsMul(a, b - 1);
    }
  }

  function Min(a: nat, b: nat): nat {
    if a <= b then a else b
  }

  function BombTotal(cells: seq<Tile>): (n: nat)
    ensures n <= |cells|
  {
    if cells == [] then 0
    else (if cells[0].IsBomb() then 1 else 0) + BombTotal(cells[1..])
  }

  /** The cells after the first `k` shuffled pointers were set to `Bomb`. */
  function Spread(cells: seq<Tile>, order: seq<nat>, k: nat): (r: seq<Tile>)
    requires k <= |order|
    requires forall i :: 0 <= i < |order| ==> order[i] < |cells|
    ensures |r| == |cells|
  {
    if k == 0 then cells else Spread(cells, order, k - 1)[order[k - 1] := Bomb]
  }

  /** Cell `j` is a bomb after spreading exactly when one of the first `k`
      pointers points at it or it was one before: `spread_bombs` only ever
      writes `Bomb`. */
  lemma {:induction false} SpreadAt(cells: seq<Tile>, order: seq<nat>, k: nat, j: nat)
    requires k <= |order|
    requires forall i :: 0 <= i < |order| ==> order[i] < |cells|
    requires j < |cells|
    ensures Spread(cells, order, k)[j] == if j in order[..k] then Bomb else cells[j]
    ensures cells[j] == Bomb ==> Spread(cells, order, k)[j] == Bomb
  {
    if k > 0 {
      SpreadAt(cells, order, k - 1, j);
      assert order[..k] == order[..k - 1] + [order[k - 1]];
    }
  }

  lemma {:induction false} BombTotalAfterUpdate(cells: seq<Tile>, p: nat)
    requires p < |cells|
    ensures BombTotal(cells[p := Bomb]) == BombTotal(cells) + (if cells[p].IsBomb() then 0 else 1)
  {
    if p > 0 {
      BombTotalAfterUpdate(cells[1..], p - 1);
      assert cells[p := Bomb][1..] == cells[1..][p - 1 := Bomb];
    }
  }

  /** On an all-empty map, spreading over `k` distinct cells makes exactly
      `k` bombs. */
  lemma {:induction false} SpreadOnEmptyCount(cells: seq<Tile>, order: seq<nat>, k: nat)
    requires IsPermutation(order, |cells|) && k <= |order|
    requires forall j :: 0 <= j < |cells| ==> cells[j] == Empty
    ensures BombTotal(Spread(cells, order, k)) == k
  {
    if k > 0 {
      SpreadOnEmptyCount(cells, order, k - 1);
      var p := order[k - 1];
      SpreadAt(cells, order, k - 1, p);
      assert p !in order[..k - 1] by {
        forall i | 0 <= i < k - 1 ensures order[i] != p { }
      }
      var before := Spread(cells, order, k - 1);
      assert before[p] == Empty;
      BombTotalAfterUpdate(before, p);
      assert Spread(cells, order, k) == before[p := Bomb];
    } else {
      NoBombsTotal(cells);
    }
  }

  datatype TileMap = TileMap(bombCount: u16, height: u16, width: u16, tiles: seq<Tile>) {
    // `tiles` is the source's `map` vector (`map` is a Dafny keyword).

    /** What `empty` establishes and nothing changes later: one tile per
        cell, and a cell count that the `u16` product did not overflow. */
    predicate Valid() {
      Product(width, height) < U16_MODULUS && |tiles| == Product(width, height)
    }

    predicate InBounds(c: Coord) {
      c.x < width && c.y < height
    }

    function FlatIndex(c: Coord): nat {
      c.x + c.y * width
    }

    /** `self[c]` and `self[(x, y)]`: the flat vector at `x + y * width`;
        any larger index panics. */
    function At(c: Coord): Tile
      requires FlatIndex(c) < |tiles|
    {
      tiles[FlatIndex(c)]
    }

    /** The coordinate of flat index `i`, as `create_board` computes it. */
    function CoordOfIndex(i: nat): Coord
      requires Valid() && i < |tiles|
    {
      NonEmptyDimensions();
      Coord(i % width, i / width)
    }

    /** Tile `c` is a bomb (and the flat index is in range). */
    predicate BombAt(c: Coord) {
      FlatIndex(c) < |tiles| && At(c).IsBomb()
    }

    lemma NonEmptyDimensions()
      requires Valid() && |tiles| > 0
      ensures width > 0 && height > 0
    {
      ProductIsMul(width, height);
    }

    // ---- neighbours -----------------------------------------------------

    /** `c + d` for every `d` of `ds`, in order, keeping those whose
        components are below `width` and `height`. */
    function Clip(c: Coord, ds: seq<Offset>): (r: seq<Coord>)
      ensures |r| <= |ds|
      ensures forall n :: n in r ==> InBounds(n)
    {
      if ds == [] then []
      else
        var t := Translate(c, ds[0]);
        (if InBounds(t) then [t] else []) + Clip(c, ds[1..])
    }

    function NeighbourCoordinates(c: Coord): (r: seq<Coord>)
      ensures |r| <= 8
    {
      Clip(c, SQUARE_NEIGHBOUR_OFFSETS)
    }

    function TrueNeighbourCoordinates(c: Coord): (r: seq<Coord>)
      ensures |r| <= 4
    {
      Clip(c, TRUE_SQUARE_NEIGHBOUR_OFFSETS)
    }

    /** What survives the clip is exactly the in-bounds translates: the
        filter is both sound and complete. */
    lemma {:induction false} ClipMembers(c: Coord, ds: seq<Offset>, n: Coord)
      ensures n in Clip(c, ds) <==>
                InBounds(n) && exists k :: 0 <= k < |ds| && Translate(c, ds[k]) == n
    {
      if ds != [] {
        ClipMembers(c, ds[1..], n);
        if exists k :: 0 <= k < |ds[1..]| && Translate(c, ds[1..][k]) == n {
          var k :| 0 <= k < |ds[1..]| && Translate(c, ds[1..][k]) == n;
          assert Translate(c, ds[k + 1]) == n;
        }
        if exists k :: 0 <= k < |ds| && Translate(c, ds[k]) == n {
          var k :| 0 <= k < |ds| && Translate(c, ds[k]) == n;
          if k > 0 {
            assert Translate(c, ds[1..][k - 1]) == n;
          }
        }
      }
    }

    /** A translate that lands in bounds survives the clip. */
    lemma ClipKeeps(c: Coord, ds: seq<Offset>, k: nat)
      requires k < |ds| && InBounds(Translate(c, ds[k]))
      ensures Translate(c, ds[k]) in Clip(c, ds)
    {
      ClipMembers(c, ds, Translate(c, ds[k]));
    }

    /** Away from the top of the `u16` range (every in-bounds coordinate
        is), the 8-neighbourhood is exactly the in-bounds cells one king's
        move away; a step below zero wraps to 65535 and is clipped, and
        `c` itself never appears. */
    lemma NeighbourGeometry(c: Coord, n: Coord)
      requires c.x < 0xffff && c.y < 0xffff
      ensures n in NeighbourCoordinates(c) <==> InBounds(n) && IsAdjacent8(c, n)
    {
      if n in NeighbourCoordinates(c) {
        NeighbourSound(c, n);
      }
      if InBounds(n) && IsAdjacent8(c, n) {
        NeighbourComplete(c, n);
      }
    }

    lemma NeighbourSound(c: Coord, n: Coord)
      requires c.x < 0xffff && c.y < 0xffff
      requires n in NeighbourCoordinates(c)
      ensures InBounds(n) && IsAdjacent8(c, n)
    {
      var ds := SQUARE_NEIGHBOUR_OFFSETS;
      ClipMembers(c, ds, n);
      var k :| 0 <= k < |ds| && Translate(c, ds[k]) == n;
      InBoundsTranslate(c, ds[k]);
    }

    lemma NeighbourComplete(c: Coord, n: Coord)
      requires InBounds(n) && IsAdjacent8(c, n)
      ensures n in NeighbourCoordinates(c)
    {
      var k := SquareIndex(n.x - c.x, n.y - c.y);
      assert Translate(c, SQUARE_NEIGHBOUR_OFFSETS[k]) == n;
      ClipKeeps(c, SQUARE_NEIGHBOUR_OFFSETS, k);
    }

    /** A unit step from below the top of the range that lands in bounds
        did not wrap: a step below zero gives 65535, which is never below
        a `u16` width or height. */
    lemma InBoundsTranslate(c: Coord, d: Offset)
      requires c.x < 0xffff && c.y < 0xffff
      requires -1 <= d.0 <= 1 && -1 <= d.1 <= 1
      requires InBounds(Translate(c, d))
      ensures Translate(c, d) == Coord(c.x + d.0, c.y + d.1)
    {
      UnitStep(c.x, d.0);
      UnitStep(c.y, d.1);
    }

    /** The same for the orthogonal table and the 4-neighbourhood. */
    lemma TrueNeighbourGeometry(c: Coord, n: Coord)
      requires c.x < 0xffff && c.y < 0xffff
      ensures n in TrueNeighbourCoordinates(c) <==> InBounds(n) && IsAdjacent4(c, n)
    {
      if n in TrueNeighbourCoordinates(c) {
        TrueNeighbourSound(c, n);
      }
      if InBounds(n) && IsAdjacent4(c, n) {
        TrueNeighbourComplete(c, n);
      }
    }

    lemma TrueNeighbourSound(c: Coord, n: Coord)
      requires c.x < 0xffff && c.y < 0xffff
      requires n in TrueNeighbourCoordinates(c)
      ensures InBounds(n) && IsAdjacent4(c, n)
    {
      var ds := TRUE_SQUARE_NEIGHBOUR_OFFSETS;
      ClipMembers(c, ds, n);
      var k :| 0 <= k < |ds| && Translate(c, ds[k]) == n;
      InBoundsTranslate(c, ds[k]);
    }

    lemma TrueNeighbourComplete(c: Coord, n: Coord)
      requires InBounds(n) && IsAdjacent4(c, n)
      ensures n in TrueNeighbourCoordinates(c)
    {
      var k := TrueSquareIndex(n.x - c.x, n.y - c.y);
      assert Translate(c, TRUE_SQUARE_NEIGHBOUR_OFFSETS[k]) == n;
      ClipKeeps(c, TRUE_SQUARE_NEIGHBOUR_OFFSETS, k);
    }

    /** Every orthogonal neighbour is also a neighbour, for any `c`, because
        the orthogonal table is part of the square table. */
    lemma TrueNeighboursAreNeighbours(c: Coord)
      ensures forall n :: n in TrueNeighbourCoordinates(c) ==> n in NeighbourCoordinates(c)
    {
      forall n | n in TrueNeighbourCoordinates(c)
        ensures n in NeighbourCoordinates(c)
      {
        ClipMembers(c, TRUE_SQUARE_NEIGHBOUR_OFFSETS, n);
        ClipMembers(c, SQUARE_NEIGHBOUR_OFFSETS, n);
        var k :| 0 <= k < 4 && Translate(c, TRUE_SQUARE_NEIGHBOUR_OFFSETS[k]) == n;
        var j := [1, 3, 4, 6][k];
        assert SQUARE_NEIGHBOUR_OFFSETS[j] == TRUE_SQUARE_NEIGHBOUR_OFFSETS[k];
      }
    }

    /** The wrap-around is caught only at the low edge: a coordinate at
        x = 65535, which no board cell has, gets column 0 as a neighbour. */
    lemma FarEdgeWraps()
      requires 0 < width && 1 < height
      ensures Coord(0, 1) in NeighbourCoordinates(Coord(0xffff, 0))
    {
      ClipMembers(Coord(0xffff, 0), SQUARE_NEIGHBOUR_OFFSETS, Coord(0, 1));
      assert Translate(Coord(0xffff, 0), SQUARE_NEIGHBOUR_OFFSETS[7]) == Coord(0, 1);
    }

    lemma {:induction false} ClipNoDuplicates(c: Coord, ds: seq<Offset>)
      requires NoDuplicates(ds)
      requires forall k :: 0 <= k < |ds| ==> -1 <= ds[k].0 <= 1 && -1 <= ds[k].1 <= 1
      ensures NoDuplicates(Clip(c, ds))
    {
      if ds != [] {
        ClipNoDuplicates(c, ds[1..]);
        var t := Translate(c, ds[0]);
        if t in Clip(c, ds[1..]) {
          ClipMembers(c, ds[1..], t);
          var k :| 0 <= k < |ds[1..]| && Translate(c, ds[1..][k]) == t;
          TranslateInjective(c, ds[0], ds[1..][k]);
          assert false;
        }
      }
    }

    // ---- adjacency counts ---------------------------------------------

    function CountBombs(cs: seq<Coord>): (n: nat)
      ensures n <= |cs|
    {
      if cs == [] then 0
      else (if BombAt(cs[0]) then 1 else 0) + CountBombs(cs[1..])
    }

    /** `bomb_count_at`: how many neighbours are bombs; every lookup is in
        range, and the `as u8` cast never truncates, since the count is at
        most 8. */
    function BombCountAt(c: Coord): (n: nat)
      requires Valid()
      ensures forall m :: m in NeighbourCoordinates(c) ==> FlatIndex(m) < |tiles|
      ensures n <= |NeighbourCoordinates(c)| <= 8
    {
      forall m | m in NeighbourCoordinates(c)
        ensures FlatIndex(m) < |tiles|
      {
        InBoundsIndex(m);
      }
      CountBombs(NeighbourCoordinates(c))
    }

    lemma {:induction false} CountBombsZero(cs: seq<Coord>)
      ensures CountBombs(cs) == 0 <==> forall n :: n in cs ==> !BombAt(n)
    {
      if cs != [] {
        CountBombsZero(cs[1..]);
        assert forall n :: n in cs <==> n == cs[0] || n in cs[1..];
      }
    }

    lemma {:induction false} CountBombsIsCardinality(cs: seq<Coord>)
      requires NoDuplicates(cs)
      ensures CountBombs(cs) == |set n | n in cs && BombAt(n)|
    {
      if cs != [] {
        CountBombsIsCardinality(cs[1..]);
        var rest := set n | n in cs[1..] && BombAt(n);
        var all := set n | n in cs && BombAt(n);
        assert cs[0] !in cs[1..];
        if BombAt(cs[0]) {
          assert all == rest + {cs[0]};
        } else {
          assert all == rest;
        }
      }
    }

    /** The adjacency count is the number of distinct neighbouring cells
        holding a bomb, and it is zero exactly when no neighbour is one. */
    lemma BombCountAtMeaning(c: Coord)
      requires Valid()
      ensures BombCountAt(c) == |set n | n in NeighbourCoordinates(c) && BombAt(n)|
      ensures BombCountAt(c) == 0 <==> forall n :: n in NeighbourCoordinates(c) ==> !BombAt(n)
    {
      ClipNoDuplicates(c, SQUARE_NEIGHBOUR_OFFSETS);
      CountBombsIsCardinality(NeighbourCoordinates(c));
      CountBombsZero(NeighbourCoordinates(c));
    }

    /** `bomb_count_at_index`: the index is first cast to `u16`, then split
        into column `% width` and row `/ width` (a zero width divides by
        zero, so it is excluded). */
    function BombCountAtIndex(i: nat): (n: nat)
      requires Valid() && width > 0
      ensures n <= 8
      ensures i < |tiles| ==> n == BombCountAt(CoordOfIndex(i))
    {
      var t: u16 := i % U16_MODULUS;
      DivBelow(t, width);
      var c := Coord(t % width, t / width);
      assert i < |tiles| ==> t == i && c == CoordOfIndex(i);
      BombCountAt(c)
    }

    // ---- index arithmetic ---------------------------------------------

    lemma InBoundsIndex(c: Coord)
      requires Valid() && InBounds(c)
      ensures FlatIndex(c) < |tiles|
    {
      ProductIsMul(width, height);
      assert c.y * width <= (height - 1) * width;
    }

    /** Splitting a flat index into column and row and flattening again
        gives the index back, and the pair is in bounds. */
    lemma CoordOfIndexRoundTrip(i: nat)
      requires Valid() && i < |tiles|
      ensures InBounds(CoordOfIndex(i)) && FlatIndex(CoordOfIndex(i)) == i
      ensures At(CoordOfIndex(i)) == tiles[i]
    {
      ProductIsMul(width, height);
      var q, r := i / width, i % width;
      assert i == q * width + r;
      if q >= height {
        MulMonotone(height, q, width);
      }
    }

    /** Conversely, flattening an in-bounds coordinate and splitting the
        index gives the coordinate back. */
    lemma FlatIndexRoundTrip(c: Coord)
      requires Valid() && InBounds(c)
      ensures FlatIndex(c) < |tiles| && CoordOfIndex(FlatIndex(c)) == c
    {
      InBoundsIndex(c);
      DivModUnique(c.y, c.x, width);
    }

    /** Different indices below the cell count give different coordinates. */
    lemma CoordOfIndexInjective(i: nat, j: nat)
      requires Valid() && i < |tiles| && j < |tiles|
      requires CoordOfIndex(i) == CoordOfIndex(j)
      ensures i == j
    {
      CoordOfIndexRoundTrip(i);
      CoordOfIndexRoundTrip(j);
    }

    // ---- Display ------------------------------------------------------

    /** The text of one tile: `*` for a bomb, a space for no bomb
        neighbours, else the count's digit. */
    function Glyph(i: nat): (g: string)
      requires Valid() && i < |tiles|
      ensures |g| == 1
    {
      NonEmptyDimensions();
      match tiles[i]
      case Bomb => "*"
      case Empty =>
        var n := BombCountAtIndex(i);
        if n == 0 then " " else ToDecimal(n)
    }

    /** The glyph is `*` iff the tile is a bomb; an empty tile shows a
        space iff its adjacency count is zero, and otherwise the count's
        single digit. */
    lemma GlyphMeaning(i: nat)
      requires Valid() && i < |tiles|
      ensures Glyph(i)[0] == '*' <==> tiles[i].IsBomb()
      ensures !tiles[i].IsBomb() ==> (Glyph(i)[0] == ' ' <==> BombCountAt(CoordOfIndex(i)) == 0)
      ensures !tiles[i].IsBomb() && BombCountAt(CoordOfIndex(i)) != 0 ==>
                Glyph(i)[0] == DigitChar(BombCountAt(CoordOfIndex(i)))
    {
      NonEmptyDimensions();
    }

    /** One tile's contribution: a row break before each row start. */
    function CellText(i: nat): string
      requires Valid() && i < |tiles|
    {
      (if RowStart(i) then "|\n|" else "") + Glyph(i)
    }

    /** The tile part of the rendering, for the first `k` tiles. */
    function Cells(k: nat): string
      requires Valid() && k <= |tiles|
    {
      if k == 0 then "" else Cells(k - 1) + CellText(k - 1)
    }

    /** Tile `i` is the first of its row. */
    predicate RowStart(i: nat) {
      width > 0 && i % width == 0
    }

    /** How many of the first `k` tiles start a row (and so are preceded
        by a row break in the rendering). */
    function RowBreaks(k: nat): nat {
      if k == 0 then 0 else RowBreaks(k - 1) + (if RowStart(k - 1) then 1 else 0)
    }

    lemma {:induction false} CellsLength(k: nat)
      requires Valid() && k <= |tiles|
      ensures |Cells(k)| == k + 3 * RowBreaks(k)
    {
      if k > 0 {
        CellsLength(k - 1);
        CellTextLength(k - 1);
      }
    }

    lemma CellTextLength(i: nat)
      requires Valid() && i < |tiles|
      ensures |CellText(i)| == 1 + (if RowStart(i) then 3 else 0)
    {
    }

    /** After `y` full rows and `j` more tiles, `y` rows have started, plus
        one if the current row has. */
    lemma {:induction false} RowBreaksInRow(y: nat, j: nat)
      requires width > 0 && j <= width
      ensures RowBreaks(Product(width, y) + j) == y + (if j > 0 then 1 else 0)
      decreases y, j
    {
      if j == 0 {
        if y > 0 {
          RowBreaksInRow(y - 1, width);
        }
      } else {
        RowBreaksInRow(y, j - 1);
        ProductIsMul(width, y);
        DivModUnique(y, j - 1, width);
        assert Product(width, y) + j - 1 == j - 1 + y * width;
      }
    }

    /** The rendering is the header, two dashed borders of `width`, the
        tiles, one three-character row break per row and five border
        characters; a map of width zero has no tiles and so no row
        breaks, whatever its height. */
    lemma RenderedLength()
      requires Valid()
      ensures |Rendered()| ==
                |Header()| + 2 * width + |tiles| + (if width == 0 then 0 else 3 * height) + 5
    {
      CellsLength(|tiles|);
      if width > 0 {
        RowBreaksInRow(height, 0);
      } else {
        ProductIsMul(width, height);
      }
    }

    function Header(): string {
      "Map (" + ToDecimal(width) + ";" + ToDecimal(height) + ") with " + ToDecimal(bombCount) + " bombs:\n"
    }

    function Rendered(): string
      requires Valid()
    {
      Header() + "|" + Dashes(width) + Cells(|tiles|) + "|\n|" + Dashes(width) + "|"
    }
  }

  /** `(0..n).map(|_| "-").collect::<String>()`. */
  function Dashes(n: nat): (s: string)
    ensures |s| == n && forall i :: 0 <= i < n ==> s[i] == '-'
  {
    seq(n, _ => '-')
  }

  lemma DivBelow(a: nat, b: nat)
    requires b > 0
    ensures a / b <= a && a % b < b
  {
    var q := a / b;
    assert a == q * b + a % b;
    ProductIsMul(q, b);
    ProductAtLeast(q, b);
  }

  /** Division and remainder are determined by `i == q * b + r` with
      `r < b`. */
  lemma DivModUnique(q: nat, r: nat, b: nat)
    requires r < b
    ensures (r + q * b) / b == q && (r + q * b) % b == r
  {
    var i := r + q * b;
    var q', r' := i / b, i % b;
    assert i == q' * b + r';
    if q' < q {
      assert (q - q') * b == q * b - q' * b;
      MulAtLeast(q - q', b);
    } else if q < q' {
      assert (q' - q) * b == q' * b - q * b;
      MulAtLeast(q' - q, b);
    }
  }

  lemma MulAtLeast(a: nat, b: nat)
    requires a > 0
    ensures a * b >= b
  {
    ProductIsMul(b, a);
    ProductAtLeast(b, a);
    assert Product(b, a) == b * a;
  }

  lemma MulMonotone(a: nat, b: nat, c: nat)
    requires a <= b
    ensures a * c <= b * c
  {
    assert b * c == a * c + (b - a) * c;
  }

  lemma {:induction false} ProductAtLeast(a: nat, b: nat)
    requires b > 0
    ensures Product(a, b) >= a
  {
    if b > 1 {
      ProductAtLeast(a, b - 1);
    }
  }

  /** Where offset `(dx, dy)` sits in the square table. */
  function SquareIndex(dx: int, dy: int): (k: nat)
    requires -1 <= dx <= 1 && -1 <= dy <= 1 && (dx, dy) != (0, 0)
    ensures k < 8 && SQUARE_NEIGHBOUR_OFFSETS[k] == (dx, dy)
  {
    if dy == -1 then dx + 1
    else if dy == 0 then (if dx == -1 then 3 else 4)
    else dx + 6
  }

  /** Where orthogonal offset `(dx, dy)` sits in the orthogonal table. */
  function TrueSquareIndex(dx: int, dy: int): (k: nat)
    requires (dx == 0 && (dy == 1 || dy == -1)) || (dy == 0 && (dx == 1 || dx == -1))
    ensures k < 4 && TRUE_SQUARE_NEIGHBOUR_OFFSETS[k] == (dx, dy)
  {
    if dy == -1 then 0 else if dy == 1 then 3 else if dx == -1 then 1 else 2
  }

  lemma TranslateInjective(c: Coord, d: Offset, e: Offset)
    requires -1 <= d.0 <= 1 && -1 <= d.1 <= 1 && -1 <= e.0 <= 1 && -1 <= e.1 <= 1
    requires Translate(c, d) == Translate(c, e)
    ensures d == e
  {
    UnitWrap(c.x, d.0);
    UnitWrap(c.x, e.0);
    UnitWrap(c.y, d.1);
    UnitWrap(c.y, e.1);
  }

  // ---- TileMap::empty and spread_bombs --------------------------------

  /** `TileMap::empty`: every cell `Empty`, no bombs recorded; the cell
      count `height * width` is a `u16` product, which must not overflow. */
  function EmptyMap(width: u16, height: u16): (t: TileMap)
    requires width * height < U16_MODULUS
    ensures t.Valid() && t.width == width && t.height == height && t.bombCount == 0
    ensures |t.tiles| == width * height && BombTotal(t.tiles) == 0
    ensures forall j :: 0 <= j < |t.tiles| ==> t.tiles[j] == Empty
  {
    ProductIsMul(width, height);
    var t := TileMap(0, height, width, seq(width * height, _ => Empty));
    assert BombTotal(t.tiles) == 0 by {
      NoBombsTotal(t.tiles);
    }
    t
  }

  lemma {:induction false} NoBombsTotal(cells: seq<Tile>)
    requires forall j :: 0 <= j < |cells| ==> cells[j] == Empty
    ensures BombTotal(cells) == 0
  {
    if cells != [] {
      NoBombsTotal(cells[1..]);
    }
  }

  /** `spread_bombs`: record the requested count, then write `Bomb` through
      the first `bomb_count` pointers of the shuffled pointer list (all of
      them when fewer cells exist). */
  method SpreadBombs(tm: TileMap, bombCount: u16, order: seq<nat>) returns (r: TileMap)
    requires IsPermutation(order, |tm.tiles|)
    ensures r == tm.(bombCount := bombCount,
                     tiles := Spread(tm.tiles, order, Min(bombCount, |tm.tiles|)))
  {
    var cells := tm.tiles;
    var taken := Min(bombCount, |tm.tiles|);
    var i := 0;
    while i < taken
      invariant 0 <= i <= taken
      invariant cells == Spread(tm.tiles, order, i)
    {
      cells := cells[order[i] := Bomb];
      i := i + 1;
    }
    r := tm.(bombCount := bombCount, tiles := cells);
  }

  /** Generating a map as `create_board` does: the cell count is unchanged,
      exactly `min(n, cells)` cells become bombs, precisely those the first
      pointers of the shuffle reach, and the recorded count is `n` even
      when it exceeds the number of cells. */
  lemma SpreadOnEmptyMap(width: u16, height: u16, n: u16, order: seq<nat>)
    requires width * height < U16_MODULUS
    requires IsPermutation(order, width * height)
    ensures var t := EmptyMap(width, height);
            var cells := Spread(t.tiles, order, Min(n, |t.tiles|));
            && |cells| == width * height
            && BombTotal(cells) == Min(n, width * height)
            && (forall j :: 0 <= j < |cells| ==>
                  (cells[j] == Bomb <==> j in order[..Min(n, |t.tiles|)]))
            && (n > width * height ==> BombTotal(cells) < n)
  {
    var t := EmptyMap(width, height);
    var k := Min(n, |t.tiles|);
    SpreadOnEmptyCount(t.tiles, order, k);
    forall j | 0 <= j < |t.tiles|
      ensures Spread(t.tiles, order, k)[j] == Bomb <==> j in order[..k]
    {
      SpreadAt(t.tiles, order, k, j);
    }
  }

  /** `impl Display for TileMap`: header, a dashed top border, the tiles
      row by row, a dashed bottom border. */
  method Fmt(tm: TileMap) returns (buffer: string)
    requires tm.Valid()
    ensures buffer == tm.Rendered()
  {
    buffer := tm.Header();
    buffer := buffer + "|";
    buffer := buffer + Dashes(tm.width);
    var cells := FmtCells(tm);
    buffer := buffer + cells;
    buffer := buffer + "|\n|";
    buffer := buffer + Dashes(tm.width);
    buffer := buffer + "|";
  }

  /** The tile part of `fmt`: the `map(...).collect()` over the tiles. */
  method FmtCells(tm: TileMap) returns (cells: string)
    requires tm.Valid()
    ensures cells == tm.Cells(|tm.tiles|)
  {
    cells := "";
    for index := 0 to |tm.tiles|
      invariant cells == tm.Cells(index)
    {
      tm.NonEmptyDimensions();
      var buf := "";
      if index % tm.width == 0 {
        buf := "|\n|";
      }
      buf := buf + tm.Glyph(index);
      cells := cells + buf;
    }
  }
}
