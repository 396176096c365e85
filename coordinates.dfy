/** `CoordinateU16`: a board position with unsigned 16-bit components, its
    derived ordering, its four arithmetic operators and its text form. */
module Coordinates {
  import opened Decimal

  const U16_MODULUS: int := 0x1_0000

  type u16 = x: int | 0 <= x < 0x1_0000
  type i16 = x: int | -0x8000 <= x < 0x8000
  type i8 = x: int | -0x80 <= x < 0x80

  /** A signed step `(dx, dy)`, the `(i8, i8)` right operand of `+` and `-`. */
  type Offset = (i8, i8)

  /** Fields in declaration order: the derived `Ord` compares `x` first. */
  datatype Coord = Coord(x: u16, y: u16)

  datatype Ordering = Less | Equal | Greater

  function CompareU16(a: u16, b: u16): Ordering {
    if a < b then Less else if a == b then Equal else Greater
  }

  /** The derived `Ord::cmp`: the first field that differs decides. */
  function Compare(a: Coord, b: Coord): (r: Ordering)
    ensures r == Equal <==> a == b
    ensures r == Less <==> a.x < b.x || (a.x == b.x && a.y < b.y)
    ensures r == Greater <==> a.x > b.x || (a.x == b.x && a.y > b.y)
  {
    match CompareU16(a.x, b.x)
    case Equal => CompareU16(a.y, b.y)
    case other => other
  }

  /** The derived ordering is a strict total order whose converse is itself
      with the arguments swapped. */
  lemma CompareIsTotalOrder(a: Coord, b: Coord, c: Coord)
    ensures Compare(a, b) == Less <==> Compare(b, a) == Greater
    ensures Compare(a, b) == Less && Compare(b, c) == Less ==> Compare(a, c) == Less
    ensures Compare(a, b) != Less ==> Compare(a, b) == Equal || Compare(b, a) == Less
  {
  }

  // ---- coordinate + coordinate, coordinate - coordinate ----------------
  // Plain `u16` arithmetic: overflow and underflow panic (checked build),
  // so they are the callers' obligation.

  /** `a + b`: subtracting `b` again is defined and gives `a` back. */
  function Add(a: Coord, b: Coord): (r: Coord)
    requires a.x + b.x < U16_MODULUS && a.y + b.y < U16_MODULUS
    ensures b.x <= r.x && b.y <= r.y && Sub(r, b) == a
  {
    Coord(a.x + b.x, a.y + b.y)
  }

  /** `a - b`: adding `b` back cannot overflow. */
  function Sub(a: Coord, b: Coord): (r: Coord)
    requires b.x <= a.x && b.y <= a.y
    ensures r.x + b.x < U16_MODULUS && r.y + b.y < U16_MODULUS
    ensures r.x <= a.x && r.y <= a.y
  {
    Coord(a.x - b.x, a.y - b.y)
  }

  /** Subtracting what was added gives the original coordinate back, and
      adding back what was subtracted does too. */
  lemma AddSubInverse(a: Coord, b: Coord)
    ensures a.x + b.x < U16_MODULUS && a.y + b.y < U16_MODULUS ==>
              Sub(Add(a, b), b) == a
    ensures b.x <= a.x && b.y <= a.y ==> Add(Sub(a, b), b) == a
  {
  }

  // ---- coordinate +/- (i8, i8) -----------------------------------------
  // `(self.x as i16 + dx as i16) as u16`: both `as` casts reinterpret the
  // bits, and the i16 addition wraps in two's complement.

  /** `v as i16` for a `u16`: values from 0x8000 up read as negative. */
  function AsI16(v: u16): i16 {
    if v < 0x8000 then v else v - U16_MODULUS
  }

  /** Two's-complement wrap of an exact sum into the i16 range. */
  function WrapI16(v: int): i16 {
    (v + 0x8000) % U16_MODULUS - 0x8000
  }

  /** `v as u16` for an `i16`: negative values wrap to the top of the range. */
  function AsU16(v: i16): u16 {
    v % U16_MODULUS
  }

  /** One component of `c + (dx, dy)` (`sign == 1`) or `c - (dx, dy)`
      (`sign == -1`). */
  function ShiftComponent(v: u16, d: i8, sign: int): u16
    requires sign == 1 || sign == -1
  {
    AsU16(WrapI16(AsI16(v) + sign * d))
  }

  /** Reduction modulo 2^16 of a value at most one modulus out of range. */
  lemma ModSmall(s: int)
    requires -U16_MODULUS <= s < 2 * U16_MODULUS
    ensures s % U16_MODULUS ==
              if s < 0 then s + U16_MODULUS else if s >= U16_MODULUS then s - U16_MODULUS else s
  {
  }

  lemma ShiftComponentIsModular(v: u16, d: i8, sign: int)
    requires sign == 1 || sign == -1
    ensures ShiftComponent(v, d, sign) == (v + sign * d) % U16_MODULUS
  {
    var s := AsI16(v) + sign * d;
    ModSmall(s + 0x8000);
    var w := WrapI16(s);
    ModSmall(w);
    ModSmall(v + sign * d);
  }

  /** `c + (dx, dy)`: each component moves by the offset, modulo 2^16, so a
      step below zero lands on 65535 (TranslateIsCastChain: this is what
      the casts compute). */
  function Translate(c: Coord, d: Offset): (r: Coord)
    ensures TranslateBack(r, d) == c
  {
    ModularUndo(c.x, d.0);
    ModularUndo(c.y, d.1);
    Coord((c.x + d.0) % U16_MODULUS, (c.y + d.1) % U16_MODULUS)
  }

  /** `c - (dx, dy)`. */
  function TranslateBack(c: Coord, d: Offset): Coord {
    Coord((c.x - d.0) % U16_MODULUS, (c.y - d.1) % U16_MODULUS)
  }

  /** The operators as written, component by component through the `i16`
      casts, give the modular step and its inverse. */
  lemma TranslateIsCastChain(c: Coord, d: Offset)
    ensures Translate(c, d) == Coord(ShiftComponent(c.x, d.0, 1), ShiftComponent(c.y, d.1, 1))
    ensures TranslateBack(c, d) == Coord(ShiftComponent(c.x, d.0, -1), ShiftComponent(c.y, d.1, -1))
  {
    ShiftComponentIsModular(c.x, d.0, 1);
    ShiftComponentIsModular(c.y, d.1, 1);
    ShiftComponentIsModular(c.x, d.0, -1);
    ShiftComponentIsModular(c.y, d.1, -1);
  }

  lemma ModularUndo(v: u16, d: i8)
    ensures ((v + d) % U16_MODULUS - d) % U16_MODULUS == v
    ensures ((v - d) % U16_MODULUS + d) % U16_MODULUS == v
  {
    ModSmall(v + d);
    ModSmall((v + d) % U16_MODULUS - d);
    ModSmall(v - d);
    ModSmall((v - d) % U16_MODULUS + d);
  }

  /** A unit step of a component below 65535 wraps only below zero. */
  lemma UnitStep(v: u16, d: i8)
    requires v < 0xffff && -1 <= d <= 1
    ensures (v + d) % U16_MODULUS == if v + d < 0 then 0xffff else v + d
  {
  }

  /** A unit step of any component, with both wrap-arounds written out. */
  lemma UnitWrap(v: u16, d: i8)
    requires -1 <= d <= 1
    ensures (v + d) % U16_MODULUS ==
              if v + d < 0 then 0xffff else if v + d == U16_MODULUS then 0 else v + d
  {
  }

  /** Stepping by an offset and back, in either order, is the identity, even
      where the step wrapped around. */
  lemma TranslateRoundTrip(c: Coord, d: Offset)
    ensures TranslateBack(Translate(c, d), d) == c
    ensures Translate(TranslateBack(c, d), d) == c
  {
    ModularUndo(c.x, d.0);
    ModularUndo(c.y, d.1);
    var t, b := Translate(c, d), TranslateBack(c, d);
    assert TranslateBack(t, d).x == c.x && TranslateBack(t, d).y == c.y;
    assert Translate(b, d).x == c.x && Translate(b, d).y == c.y;
  }

  /** With components below 32767 and unit offsets the i16 sum stays in
      range, so no wrap happens inside the arithmetic (a checked build
      therefore computes the same value); still, a step below zero ends at
      65535 after the final cast. */
  lemma UnitTranslateNeedsNoWrap(c: Coord, d: Offset)
    requires c.x < 0x7fff && c.y < 0x7fff
    requires -1 <= d.0 <= 1 && -1 <= d.1 <= 1
    ensures AsI16(c.x) + d.0 == WrapI16(AsI16(c.x) + d.0)
    ensures AsI16(c.y) + d.1 == WrapI16(AsI16(c.y) + d.1)
    ensures c.x == 0 && d.0 == -1 ==> Translate(c, d).x == 0xffff
    ensures c.x + d.0 >= 0 ==> Translate(c, d).x == c.x + d.0
  {
  }

  // ---- Display ---------------------------------------------------------

  /** `write!(f, "({};{})", x, y)`. */
  function Display(c: Coord): (s: string)
    ensures |s| >= 5 && s[0] == '(' && s[|s| - 1] == ')'
  {
    "(" + ToDecimal(c.x) + ";" + ToDecimal(c.y) + ")"
  }

  /** The text form identifies the coordinate: the separator sits right
      after the digits of `x`, which contain no `;`. */
  lemma DisplayInjective(a: Coord, b: Coord)
    requires Display(a) == Display(b)
    ensures a == b
  {
    var xa, ya, xb, yb := ToDecimal(a.x), ToDecimal(a.y), ToDecimal(b.x), ToDecimal(b.y);
    var s := Display(a);
    assert s == "(" + xa + ";" + ya + ")";
    assert s == "(" + xb + ";" + yb + ")";
    assert s[1 + |xa|] == ';';
    assert s[1 + |xb|] == ';';
    if |xa| < |xb| {
      assert false;
    } else if |xb| < |xa| {
      assert false;
    }
    assert xa == s[1..1 + |xa|] == xb;
    assert ya == s[2 + |xa|..|s| - 1] == yb;
    ToDecimalInjective(a.x, b.x);
    ToDecimalInjective(a.y, b.y);
  }
}
