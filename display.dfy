/**
 * The 64x32 monochrome display and its sprite drawing.
 *
 * The canvas is abstracted as a grid of lit cells. A cell query stands for
 * `isEmpty(x, y, 1, 1)` and painting a cell for `fillRect(x, y, 1, 1)`;
 * a cell outside the canvas is never lit and painting it has no effect.
 */
module Display {

  import opened Bits

  const Width: int := 64
  const Height: int := 32

  /** A cell `(column, row)`. */
  type Cell = (int, int)

  predicate OnGrid(cx: int, cy: int) {
    0 <= cx < Width && 0 <= cy < Height
  }

  // ---------------------------------------------------------------------------
  // Binary digits of a sprite row, as `row.toString(2)` renders them
  // ---------------------------------------------------------------------------

  function Digit(b: nat): char
    requires b < 2
  {
    if b == 0 then '0' else '1'
  }

  /**
   * `n.toString(2)`: the binary digits of `n`, most significant first,
   * without leading zeros ("0" for zero).
   */
  function BinaryDigits(n: nat): (s: string)
    ensures 1 <= |s|
    ensures forall k :: 0 <= k < |s| ==> s[k] == '0' || s[k] == '1'
    ensures n == 0 <==> s == "0"
    ensures n > 0 ==> s[0] == '1'
    decreases n
  {
    if n < 2 then [Digit(n)] else BinaryDigits(n / 2) + [Digit(n % 2)]
  }

  /** The number a string of binary digits denotes. */
  function FromBinary(s: string): nat {
    if s == [] then 0
    else 2 * FromBinary(s[..|s| - 1]) + (if s[|s| - 1] == '1' then 1 else 0)
  }

  /** `toString(2)` loses nothing: reading the digits back gives the number. */
  lemma {:induction false} BinaryDigitsRoundTrip(n: nat)
    ensures FromBinary(BinaryDigits(n)) == n
    decreases n
  {
    if n >= 2 {
      var s := BinaryDigits(n);
      assert s[..|s| - 1] == BinaryDigits(n / 2);
      BinaryDigitsRoundTrip(n / 2);
    }
  }

  /** A positive number has exactly as many digits as its bit length. */
  lemma {:induction false} BinaryDigitsLength(n: nat)
    requires n > 0
    ensures Pow2(|BinaryDigits(n)| - 1) <= n < Pow2(|BinaryDigits(n)|)
    decreases n
  {
    if n >= 2 {
      BinaryDigitsLength(n / 2);
    }
  }

  /** A byte has at most eight digits, and exactly eight iff its top bit is set. */
  lemma ByteDigits(n: nat)
    requires n < 0x100
    ensures |BinaryDigits(n)| <= 8
    ensures |BinaryDigits(n)| == 8 <==> n >= 0x80
  {
    if n > 0 {
      BinaryDigitsLength(n);
      var k := |BinaryDigits(n)|;
      if k > 8 { Pow2Monotone(8, k - 1); }
      if k < 8 { Pow2Monotone(k, 7); }
      if k == 8 { assert Pow2(7) == 0x80; }
    }
  }

  lemma {:induction false} Pow2Monotone(a: nat, b: nat)
    requires a <= b
    ensures Pow2(a) <= Pow2(b)
    decreases b
  {
    if a < b { Pow2Monotone(a, b - 1); }
  }

  /**
   * Whether column `i` of a sprite row is drawn: character `i` of the
   * unpadded binary string is '1', and only the first eight characters
   * are ever looked at.
   */
  predicate PixelOn(row: nat, i: int) {
    0 <= i < 8 && i < |BinaryDigits(row)| && BinaryDigits(row)[i] == '1'
  }

  // ---------------------------------------------------------------------------
  // Abstract drawing
  // ---------------------------------------------------------------------------

  /**
   * Whether cell `(cx, cy)` is one the sprite paints when its reduced
   * origin is `(ox, oy)`: the cell is row `cy - oy`, column `cx - ox` of
   * the sprite and that pixel is on.
   */
  predicate Hit(sprite: seq<nat>, ox: int, oy: int, cx: int, cy: int) {
    0 <= cy - oy < |sprite| && PixelOn(sprite[cy - oy], cx - ox)
  }

  /**
   * Whether the loop of `draw` has already passed the pixel of cell
   * `(cx, cy)` when it is about to visit row `j`, column `i`.
   */
  predicate Painted(sprite: seq<nat>, ox: int, oy: int, cx: int, cy: int, j: int, i: int) {
    Hit(sprite, ox, oy, cx, cy) && (cy - oy < j || (cy - oy == j && cx - ox < i))
  }

  /** The cells `draw(sprite, x, y)` paints (`fillRect` calls that land on the canvas). */
  function Footprint(sprite: seq<nat>, x: int, y: int): set<Cell> {
    var ox, oy := JsRem(x, Width), JsRem(y, Height);
    set cx, cy | 0 <= cx < Width && 0 <= cy < Height && Hit(sprite, ox, oy, cx, cy) :: (cx, cy)
  }

  lemma FootprintMembership(sprite: seq<nat>, x: int, y: int, c: Cell)
    ensures c in Footprint(sprite, x, y) <==>
      OnGrid(c.0, c.1) && Hit(sprite, JsRem(x, Width), JsRem(y, Height), c.0, c.1)
  {
  }

  /** What a draw leaves behind: the lit cells afterwards and the collision flag. */
  datatype Drawn = Drawn(lit: set<Cell>, collision: bool)

  /**
   * `draw(sprite, x, y)` on a grid whose lit cells are `lit`: every cell of
   * the footprint is switched on (none is switched off), and the result is
   * true when one of them was lit already.
   */
  function DrawOn(lit: set<Cell>, sprite: seq<nat>, x: int, y: int): Drawn {
    var painted := Footprint(sprite, x, y);
    Drawn(lit + painted, painted * lit != {})
  }

  /** Drawing never turns a lit cell off. */
  lemma DrawNeverErases(lit: set<Cell>, sprite: seq<nat>, x: int, y: int)
    ensures lit <= DrawOn(lit, sprite, x, y).lit
  {
  }

  /**
   * A cell on the grid is lit after the draw iff it was lit before or it is
   * the cell of an on-pixel: column `cx - x % 64` and row `cy - y % 32` of
   * the sprite.
   */
  lemma DrawPaintsExactly(lit: set<Cell>, sprite: seq<nat>, x: int, y: int, cx: int, cy: int)
    requires OnGrid(cx, cy)
    ensures (cx, cy) in DrawOn(lit, sprite, x, y).lit <==>
      (cx, cy) in lit || Hit(sprite, JsRem(x, Width), JsRem(y, Height), cx, cy)
  {
    FootprintMembership(sprite, x, y, (cx, cy));
  }

  /**
   * Only cells inside the grid and inside the sprite's rectangle
   * `[x % 64, x % 64 + 8) x [y % 32, y % 32 + |sprite|)` can change; nothing
   * wraps around an edge.
   */
  lemma DrawConfined(lit: set<Cell>, sprite: seq<nat>, x: int, y: int, c: Cell)
    requires c in DrawOn(lit, sprite, x, y).lit && c !in lit
    ensures OnGrid(c.0, c.1)
    ensures JsRem(x, Width) <= c.0 < JsRem(x, Width) + 8
    ensures JsRem(y, Height) <= c.1 < JsRem(y, Height) + |sprite|
  {
    FootprintMembership(sprite, x, y, c);
  }

  /** The collision flag is set iff some painted cell was already lit. */
  lemma DrawCollision(lit: set<Cell>, sprite: seq<nat>, x: int, y: int)
    ensures DrawOn(lit, sprite, x, y).collision <==>
      exists cx, cy :: OnGrid(cx, cy) && (cx, cy) in lit &&
        Hit(sprite, JsRem(x, Width), JsRem(y, Height), cx, cy)
  {
    var r := DrawOn(lit, sprite, x, y);
    var painted := Footprint(sprite, x, y);
    if r.collision {
      var c :| c in painted * lit;
      FootprintMembership(sprite, x, y, c);
    }
    if exists cx, cy :: OnGrid(cx, cy) && (cx, cy) in lit &&
        Hit(sprite, JsRem(x, Width), JsRem(y, Height), cx, cy) {
      var cx, cy :| OnGrid(cx, cy) && (cx, cy) in lit &&
        Hit(sprite, JsRem(x, Width), JsRem(y, Height), cx, cy);
      FootprintMembership(sprite, x, y, (cx, cy));
      assert (cx, cy) in painted * lit;
    }
  }

  /** On a cleared grid the draw reports no collision and lights exactly its footprint. */
  lemma DrawOnCleared(sprite: seq<nat>, x: int, y: int)
    ensures !DrawOn({}, sprite, x, y).collision
    ensures DrawOn({}, sprite, x, y).lit == Footprint(sprite, x, y)
  {
  }

  /**
   * Drawing the same sprite at the same place twice leaves the grid as the
   * first draw left it; the second draw collides iff the sprite paints any
   * cell at all.
   */
  lemma DrawIdempotent(lit: set<Cell>, sprite: seq<nat>, x: int, y: int)
    ensures DrawOn(DrawOn(lit, sprite, x, y).lit, sprite, x, y).lit == DrawOn(lit, sprite, x, y).lit
    ensures DrawOn(DrawOn(lit, sprite, x, y).lit, sprite, x, y).collision <==> Footprint(sprite, x, y) != {}
  {
    var painted := Footprint(sprite, x, y);
    var once := DrawOn(lit, sprite, x, y).lit;
    assert painted * once == painted;
  }

  /**
   * The missing zero padding: `0x0F` renders as "1111", so it lights
   * columns 0 to 3 exactly as `0xF0` does, not columns 4 to 7.
   */
  lemma UnpaddedRows(i: int)
    ensures PixelOn(0x0F, i) <==> 0 <= i < 4
    ensures PixelOn(0x0F, i) <==> PixelOn(0xF0, i)
  {
    assert BinaryDigits(3) == "11";
    assert BinaryDigits(7) == "111";
    assert BinaryDigits(0x0F) == "1111";
    assert BinaryDigits(0x1E) == "11110";
    assert BinaryDigits(0x3C) == "111100";
    assert BinaryDigits(0x78) == "1111000";
    assert BinaryDigits(0xF0) == "11110000";
  }

  /** The two middle rows of the "0" glyph, `0x90`, light columns 0 and 3. */
  lemma GlyphSideRow(i: int)
    ensures PixelOn(0x90, i) <==> i == 0 || i == 3
  {
    assert BinaryDigits(2) == "10";
    assert BinaryDigits(4) == "100";
    assert BinaryDigits(9) == "1001";
    assert BinaryDigits(0x12) == "10010";
    assert BinaryDigits(0x24) == "100100";
    assert BinaryDigits(0x48) == "1001000";
    assert BinaryDigits(0x90) == "10010000";
  }

  /** The "0" glyph: rows F0, 90, 90, 90, F0. */
  const ZeroGlyph: seq<nat> := [0xF0, 0x90, 0x90, 0x90, 0xF0]

  /**
   * Drawn at (0, 0) on a cleared grid, the "0" glyph lights exactly the
   * outline of a 4x5 box without a collision; drawing it again collides.
   */
  lemma ZeroGlyphDraw(cx: int, cy: int)
    requires OnGrid(cx, cy)
    ensures (cx, cy) in DrawOn({}, ZeroGlyph, 0, 0).lit <==>
      ((cy == 0 || cy == 4) && cx < 4) || (1 <= cy <= 3 && (cx == 0 || cx == 3))
    ensures !DrawOn({}, ZeroGlyph, 0, 0).collision
    ensures DrawOn(DrawOn({}, ZeroGlyph, 0, 0).lit, ZeroGlyph, 0, 0).collision
  {
    DrawPaintsExactly({}, ZeroGlyph, 0, 0, cx, cy);
    UnpaddedRows(cx);
    GlyphSideRow(cx);
    DrawIdempotent({}, ZeroGlyph, 0, 0);
    UnpaddedRows(0);
    FootprintMembership(ZeroGlyph, 0, 0, (0, 0));
  }

  // ---------------------------------------------------------------------------
  // The screen: a 64x32 grid of cells updated in place
  // ---------------------------------------------------------------------------

  class Screen {

    /** `cells[cx, cy]` is true when the pixel at column `cx`, row `cy` is lit. */
    var cells: array2<bool>

    ghost predicate Valid()
      reads this
    {
      cells.Length0 == Width && cells.Length1 == Height
    }

    /** The lit cells. */
    ghost function Lit(): set<Cell>
      requires Valid()
      reads this, cells
    {
      set cx, cy | 0 <= cx < Width && 0 <= cy < Height && cells[cx, cy] :: (cx, cy)
    }

    /** A fresh canvas is blank. */
    constructor ()
      ensures Valid() && fresh(cells)
      ensures Lit() == {}
    {
      cells := new bool[Width, Height]((cx, cy) => false);
    }

    /** `clear()`: every cell off. */
    method Clear()
      requires Valid()
      modifies cells
      ensures Valid()
      ensures Lit() == {}
    {
      forall cx, cy | 0 <= cx < Width && 0 <= cy < Height {
        cells[cx, cy] := false;
      }
    }

    /** `isEmpty(cx, cy, 1, 1)`: the cell is off; a cell off the canvas always is. */
    method IsEmpty(cx: int, cy: int) returns (empty: bool)
      requires Valid()
      ensures empty <==> (cx, cy) !in Lit()
    {
      empty := !OnGrid(cx, cy) || !cells[cx, cy];
    }

    /**
     * `draw(sprite, x, y)`: reduce the origin, then for each row `j` and
     * each of the first eight characters `i` of the row's binary string,
     * query and paint cell `(x + i, y + j)` when the character is '1' and
     * the cell is left of column 64 and above row 32.
     */
    method Draw(sprite: seq<nat>, x: int, y: int) returns (collision: bool)
      requires Valid()
      modifies cells
      ensures Valid()
      ensures Lit() == DrawOn(old(Lit()), sprite, x, y).lit
      ensures collision == DrawOn(old(Lit()), sprite, x, y).collision
    {
      ghost var before := Lit();
      var ox := JsRem(x, Width);
      var oy := JsRem(y, Height);
      collision := false;
      for j := 0 to |sprite|
        invariant forall cx, cy :: OnGrid(cx, cy) ==>
          cells[cx, cy] == (old(cells[cx, cy]) || Painted(sprite, ox, oy, cx, cy, j, 0))
        invariant collision <==>
          (exists cx, cy :: OnGrid(cx, cy) && old(cells[cx, cy]) && Painted(sprite, ox, oy, cx, cy, j, 0))
      {
        var pixels := BinaryDigits(sprite[j]);
        for i := 0 to 8
          invariant forall cx, cy :: OnGrid(cx, cy) ==>
            cells[cx, cy] == (old(cells[cx, cy]) || Painted(sprite, ox, oy, cx, cy, j, i))
          invariant collision <==>
            (exists cx, cy :: OnGrid(cx, cy) && old(cells[cx, cy]) && Painted(sprite, ox, oy, cx, cy, j, i))
        {
          if i < |pixels| && pixels[i] == '1' && ox + i < Width && oy + j < Height {
            var empty := IsEmpty(ox + i, oy + j);
            if !empty {
              collision := true;
            }
            if OnGrid(ox + i, oy + j) {
              cells[ox + i, oy + j] := true;
            }
          }
        }
      }
      forall c | true
        ensures c in Lit() <==> c in DrawOn(before, sprite, x, y).lit
      {
        FootprintMembership(sprite, x, y, c);
      }
      DrawCollision(before, sprite, x, y);
    }
  }
}
