/** GUI/TermboxCell: one character cell of the text-mode UI. A 32-bit word
    packs the code point (bits 0-20), the attributes (bits 21-25) and the
    background alpha (bits 26-31); the foreground and background colours are
    RGB565 words kept beside it. */
module TermboxCells {
  import opened Arith

  type uint32 = x: int | 0 <= x < 0x1_0000_0000
  /** An RGB565 colour, compared by its 16-bit word. */
  type rgb565 = x: int | 0 <= x < 0x1_0000

  const TBC_BOLD := 1
  const TBC_INVERT := 2

  /** 1 << ATTR_SHIFT, 1 << BG_A_SHIFT, and the number of values each field holds. */
  const ATTR_UNIT := 0x20_0000
  const BG_A_UNIT := 0x400_0000
  const RUNE_VALUES := 0x20_0000
  const ATTR_VALUES := 32
  const BG_A_VALUES := 64

  datatype Cell = Cell(runeAttr: uint32, fg: rgb565, bg: rgb565)

  /** rune(): rune_attr & RUNE_MASK */
  function RuneOf(c: Cell): (r: int)
    ensures 0 <= r < RUNE_VALUES
  {
    c.runeAttr % RUNE_VALUES
  }

  /** attr(): (rune_attr & ATTR_MASK) >> ATTR_SHIFT */
  function AttrOf(c: Cell): (r: int)
    ensures 0 <= r < ATTR_VALUES
  {
    (c.runeAttr / ATTR_UNIT) % ATTR_VALUES
  }

  /** The six alpha bits that bg_a() divides by 63 (the division to a float
      is not modelled). */
  function AlphaOf(c: Cell): (r: int)
    ensures 0 <= r < BG_A_VALUES
  {
    c.runeAttr / BG_A_UNIT
  }

  /** The constructor. rune and attr are C ints cast to uint32 and masked;
      alpha is the integer (uint32_t)(bg_alpha * 63), taken as given. The
      masked parts occupy disjoint bits, so or-ing them is adding them; the
      Euclidean remainders are the masks of the two's complement casts. */
  function MakeCell(rune: int, attr: int, alpha: int, fg: rgb565, bg: rgb565): (c: Cell)
    ensures RuneOf(c) == rune % RUNE_VALUES
    ensures AttrOf(c) == attr % ATTR_VALUES
    ensures AlphaOf(c) == alpha % BG_A_VALUES
    ensures c.fg == fg && c.bg == bg
  {
    var r, a, b := rune % RUNE_VALUES, attr % ATTR_VALUES, alpha % BG_A_VALUES;
    var w := r + a * ATTR_UNIT + b * BG_A_UNIT;
    FieldsOf(r, a, b);
    Cell(w, fg, bg)
  }

  /** The three fields of a word built from them read back unchanged. */
  lemma FieldsOf(r: int, a: int, b: int)
    requires 0 <= r < RUNE_VALUES && 0 <= a < ATTR_VALUES && 0 <= b < BG_A_VALUES
    ensures var w := r + a * ATTR_UNIT + b * BG_A_UNIT;
      0 <= w < 0x1_0000_0000 &&
      w % RUNE_VALUES == r && (w / ATTR_UNIT) % ATTR_VALUES == a && w / BG_A_UNIT == b
  {
    var w := r + a * ATTR_UNIT + b * BG_A_UNIT;
    DivModUnique(w, ATTR_UNIT, a + 32 * b, r);
    DivModUnique(a + 32 * b, ATTR_VALUES, b, a);
    DivModUnique(w, BG_A_UNIT, b, r + a * ATTR_UNIT);
  }

  /** Every word is the sum of its three fields in place: the fields cover
      all 32 bits without overlap. */
  lemma Unpack(c: Cell)
    ensures c.runeAttr == RuneOf(c) + AttrOf(c) * ATTR_UNIT + AlphaOf(c) * BG_A_UNIT
  {
    var w := c.runeAttr;
    var q := w / ATTR_UNIT;
    assert w == ATTR_UNIT * q + w % ATTR_UNIT;
    assert q == ATTR_VALUES * (q / ATTR_VALUES) + q % ATTR_VALUES;
    DivModUnique(w, BG_A_UNIT, q / ATTR_VALUES, w % ATTR_UNIT + (q % ATTR_VALUES) * ATTR_UNIT);
  }

  /** operator== */
  predicate Same(l: Cell, r: Cell)
  {
    l.runeAttr == r.runeAttr && l.fg == r.fg && l.bg == r.bg
  }

  /** operator!= */
  predicate Differ(l: Cell, r: Cell)
  {
    l.runeAttr != r.runeAttr || l.fg != r.fg || l.bg != r.bg
  }

  /** Two cells compare equal exactly when their rune, attributes, alpha
      and both colours agree, and != is the negation of ==. */
  lemma SameIff(l: Cell, r: Cell)
    ensures Same(l, r) <==>
      RuneOf(l) == RuneOf(r) && AttrOf(l) == AttrOf(r) && AlphaOf(l) == AlphaOf(r) &&
      l.fg == r.fg && l.bg == r.bg
    ensures Differ(l, r) <==> !Same(l, r)
  {
    Unpack(l);
    Unpack(r);
  }

  /** A cell built from 'a' with every attribute bit set reports that rune
      and attribute 31, and differs from the same cell without attributes. */
  lemma FullAttributes(alpha: int, fg: rgb565, bg: rgb565)
    ensures RuneOf(MakeCell('a' as int, 31, alpha, fg, bg)) == 'a' as int
    ensures AttrOf(MakeCell('a' as int, 31, alpha, fg, bg)) == 31
    ensures Differ(MakeCell('a' as int, 31, alpha, fg, bg), MakeCell('a' as int, 0, alpha, fg, bg))
  {
    var a, c := MakeCell('a' as int, 31, alpha, fg, bg), MakeCell('a' as int, 0, alpha, fg, bg);
    assert AttrOf(a) != AttrOf(c);
  }
}
