/**
  The clock compositor: the scale and centred placement of a text line, and
  one frame of the clock (background fill, then one glyph per character).

  Sizes are written with the font's numbers as literals: a glyph is 3 wide
  (`GlyphW`) and 5 tall (`GlyphH`); the width guess divides by 4 (3 plus a
  one-column gap) and the height guess by 7 (5 plus two rows of margin).
 */
module Clock {
  import opened Bits
  import opened Color
  import opened Glyphs
  import opened Surface

  datatype Layout = Layout(scale: int, charWidth: int, charHeight: int, totalWidth: int, originX: int, originY: int)

  function Min(a: int, b: int): int { if a <= b then a else b }
  function Max(a: int, b: int): int { if a >= b then a else b }

  /** Width of `len` glyphs of `scale` with one `scale`-wide gap between neighbours. */
  function TotalWidth(len: int, scale: int): int
  {
    len * (3 * scale) + (len - 1) * scale
  }

  lemma TotalWidthFactor(len: int, scale: int)
    ensures TotalWidth(len, scale) == scale * (4 * len - 1)
  {
  }

  /**
    The first scale guess: `width / (len * 4)`, replaced by `height / 7` when
    it is 0 or larger than that, and raised to at least 1.
   */
  function InitialScale(len: nat, width: nat, height: nat): (s: int)
    requires len >= 1
    ensures s >= 1
    ensures height >= 7 ==> s <= height / 7
  {
    var byWidth := width / (len * 4);
    var byHeight := height / 7;
    var s1 := if byWidth == 0 || byWidth > byHeight then byHeight else byWidth;
    if s1 < 1 then 1 else s1
  }

  /**
    The shrink loop: decrease the scale while the line is wider than the
    surface and the scale is above 1. The result is the largest scale not
    above the start that fits, or 1 when none does.
   */
  function Shrink(len: nat, width: nat, scale: int): (r: int)
    requires len >= 1 && scale >= 1
    ensures 1 <= r <= scale
    ensures r > 1 ==> TotalWidth(len, r) <= width
    ensures forall t | r < t <= scale :: TotalWidth(len, t) > width
    decreases scale
  {
    if TotalWidth(len, scale) > width && scale > 1 then Shrink(len, width, scale - 1) else scale
  }

  /** Layout part of `render_clock` for a line of `len` characters. */
  function ComputeLayout(len: nat, width: nat, height: nat): (l: Layout)
    requires len >= 1
    ensures l.scale >= 1
    ensures l.charWidth == 3 * l.scale && l.charHeight == 5 * l.scale
    ensures l.totalWidth == TotalWidth(len, l.scale)
    ensures l.scale > 1 ==> l.totalWidth <= width
    ensures l.originX >= 0 && l.originY >= 0
    ensures l.totalWidth <= width ==> l.originX + l.totalWidth <= width
    ensures l.totalWidth <= width ==> 0 <= (width - l.totalWidth - l.originX) - l.originX <= 1
    ensures l.charHeight <= height ==> 0 <= (height - l.charHeight - l.originY) - l.originY <= 1
    ensures height >= 5 ==> l.originY + l.charHeight <= height
    ensures l.totalWidth >= width ==> l.originX == 0
    ensures l.charHeight >= height ==> l.originY == 0
  {
    var scale := ChosenScale(len, width, height);
    var charWidth := 3 * scale;
    var charHeight := 5 * scale;
    var totalWidth := len * charWidth + (len - 1) * scale;
    var originX := if width > totalWidth then (width - totalWidth) / 2 else 0;
    var originY := if height > charHeight then (height - charHeight) / 2 else 0;
    HeightFits(len, width, height);
    Layout(scale, charWidth, charHeight, totalWidth, originX, originY)
  }

  /** The scale `render_clock` draws with: the first guess, then the shrink loop. */
  function ChosenScale(len: nat, width: nat, height: nat): int
    requires len >= 1
  {
    Shrink(len, width, InitialScale(len, width, height))
  }

  /** A surface at least one glyph tall holds the glyph at the chosen scale. */
  lemma HeightFits(len: nat, width: nat, height: nat)
    requires len >= 1
    ensures height >= 5 ==> 5 * ChosenScale(len, width, height) <= height
  {
    var s0 := InitialScale(len, width, height);
    if height >= 7 {
      assert s0 * 7 <= height;
    }
  }

  /**
    The chosen scale in closed form: the width guess capped by the height
    guess, at least 1. The shrink loop never leaves a different scale.
   */
  lemma ScaleClosedForm(len: nat, width: nat, height: nat)
    requires len >= 1
    ensures ComputeLayout(len, width, height).scale
            == Max(1, Min(width / (len * 4), height / 7))
  {
    ChosenScaleClosedForm(len, width, height);
  }

  lemma ChosenScaleClosedForm(len: nat, width: nat, height: nat)
    requires len >= 1
    ensures ChosenScale(len, width, height) == Max(1, Min(width / (len * 4), height / 7))
  {
    var d := len * 4;
    var q := width / d;
    var m := height / 7;
    var s0 := InitialScale(len, width, height);
    DivBelow(width, d);
    DivOfNatural(width, d);
    if q != 0 && q <= m {
      assert s0 == q;
      FitsBelowWidthGuess(len, width, q);
    } else if m >= 1 && q > m {
      assert s0 == m;
      MulMonotone(m, q, d);
      FitsBelowWidthGuess(len, width, m);
    } else if m >= 1 {
      NarrowSurfaceShrinksToOne(len, width, s0);
    }
  }

  lemma DivBelow(a: nat, d: int)
    requires d > 0
    ensures (a / d) * d <= a < (a / d) * d + d
  {
  }

  lemma MulMonotone(a: int, b: int, c: int)
    requires 0 <= a <= b && c >= 0
    ensures a * c <= b * c
  {
  }

  /** A scale with `scale * len * 4 <= width` needs no shrinking. */
  lemma FitsBelowWidthGuess(len: nat, width: nat, scale: int)
    requires len >= 1 && scale >= 1
    requires scale * (len * 4) <= width
    ensures Shrink(len, width, scale) == scale
  {
    TotalWidthFactor(len, scale);
  }

  /** On a surface narrower than `len * 4` no scale above 1 fits, so the loop ends at 1. */
  lemma NarrowSurfaceShrinksToOne(len: nat, width: nat, scale: int)
    requires len >= 1 && scale >= 1
    requires width < len * 4
    ensures Shrink(len, width, scale) == 1
  {
    var r := Shrink(len, width, scale);
    if r > 1 {
      TotalWidthFactor(len, r);
      MulMonotone(2, r, 4 * len - 1);
      assert false;
    }
  }

  /** Left edge of character i of the line: `origin_x + i * (char_width + scale)`. */
  function CharX(lay: Layout, i: int): int
  {
    lay.originX + i * (lay.charWidth + lay.scale)
  }

  /** The glyph of text[i] at its place in the line covers (px, py). */
  predicate CharCovers(text: string, lay: Layout, geo: Geometry, i: int, px: int, py: int)
    requires 0 <= i < |text|
  {
    GlyphCovers(LookupGlyph(text[i]), CharX(lay, i), lay.originY, lay.scale, geo, px, py)
  }

  /** One of the first `n` characters covers (px, py). */
  predicate TextCovers(text: string, lay: Layout, geo: Geometry, n: int, px: int, py: int)
  {
    exists i | 0 <= i < n && i < |text| :: CharCovers(text, lay, geo, i, px, py)
  }

  /** The glyph loop of `render_clock`: one glyph per character, left to right. */
  method DrawText(fb: Grid, geo: Geometry, lay: Layout, fg: uint32, text: string) returns (out: Grid)
    requires ValidGeometry(geo) && Shaped(fb, geo)
    requires lay.originX >= 0 && lay.originY >= 0 && lay.charWidth >= 0 && lay.scale >= 1
    ensures Shaped(out, geo)
    ensures forall py, px | 0 <= py < geo.height && 0 <= px < geo.width ::
              out[py][px] == if TextCovers(text, lay, geo, |text|, px, py) then Stored(geo.bpp, fg) else fb[py][px]
  {
    out := fb;
    var i := 0;
    while i < |text|
      invariant 0 <= i <= |text|
      invariant Shaped(out, geo)
      invariant forall py, px | 0 <= py < geo.height && 0 <= px < geo.width ::
                  out[py][px] == if TextCovers(text, lay, geo, i, px, py) then Stored(geo.bpp, fg) else fb[py][px]
    {
      var rows := LookupGlyph(text[i]);
      var x := CharX(lay, i);
      MulMonotone(0, i, lay.charWidth + lay.scale);
      TextStep(text, lay, geo, i);
      out := DrawChar(out, geo, x, lay.originY, lay.scale, fg, rows);
      i := i + 1;
    }
  }

  /**
    Drawing part of `render_clock`: nothing for empty text; otherwise the
    whole surface in the background colour except the pixels covered by a
    glyph cell of some character, which hold the foreground colour.
   */
  method RenderClock(fb: Grid, geo: Geometry, fg: uint32, bg: uint32, text: string) returns (out: Grid)
    requires ValidGeometry(geo) && Shaped(fb, geo)
    ensures Shaped(out, geo)
    ensures |text| == 0 ==> out == fb
    ensures |text| > 0 ==>
              forall py, px | 0 <= py < geo.height && 0 <= px < geo.width ::
                out[py][px] == if TextCovers(text, ComputeLayout(|text|, geo.width, geo.height), geo, |text|, px, py)
                               then Stored(geo.bpp, fg) else Stored(geo.bpp, bg)
  {
    var len := |text|;
    if len == 0 {
      return fb;
    }
    var lay := ComputeLayout(len, geo.width, geo.height);
    out := FillScreen(fb, geo, bg);
    out := DrawText(out, geo, lay, fg, text);
  }

  /** Drawing character i adds exactly that character's coverage. */
  lemma TextStep(text: string, lay: Layout, geo: Geometry, i: int)
    requires 0 <= i < |text|
    ensures forall px, py :: TextCovers(text, lay, geo, i + 1, px, py) <==>
              TextCovers(text, lay, geo, i, px, py) || CharCovers(text, lay, geo, i, px, py)
  {
    forall px, py | TextCovers(text, lay, geo, i + 1, px, py)
      ensures TextCovers(text, lay, geo, i, px, py) || CharCovers(text, lay, geo, i, px, py)
    {
      var j :| 0 <= j < i + 1 && j < |text| && CharCovers(text, lay, geo, j, px, py);
      if j != i {
        assert j < i;
      }
    }
  }

  /** A glyph drawn at (x, y) only covers pixels of its `3 * scale` x `5 * scale` box. */
  lemma GlyphInBox(rows: seq<nat>, x: int, y: int, scale: int, geo: Geometry, px: int, py: int)
    requires |rows| == GlyphH
    requires GlyphCovers(rows, x, y, scale, geo, px, py)
    ensures scale >= 1
    ensures x <= px < x + 3 * scale && y <= py < y + 5 * scale
  {
    var row, col :| 0 <= row < GlyphH && 0 <= col < GlyphW && CellCovers(rows, x, y, scale, geo, row, col, px, py);
    assert col * scale + scale <= 3 * scale;
    assert row * scale + scale <= 5 * scale;
  }

  /** Every pixel the text covers lies in the line's box at the layout's origin. */
  lemma TextInBox(text: string, lay: Layout, geo: Geometry, px: int, py: int)
    requires lay.charWidth == 3 * lay.scale && lay.charHeight == 5 * lay.scale
    requires lay.totalWidth == TotalWidth(|text|, lay.scale)
    requires TextCovers(text, lay, geo, |text|, px, py)
    ensures lay.originX <= px < lay.originX + lay.totalWidth && lay.originY <= py < lay.originY + lay.charHeight
  {
    var i :| 0 <= i < |text| && CharCovers(text, lay, geo, i, px, py);
    GlyphInBox(LookupGlyph(text[i]), CharX(lay, i), lay.originY, lay.scale, geo, px, py);
    CharInLine(lay, |text|, i, px);
  }

  /** A pixel of character i's box lies between the line's left and right edges. */
  lemma CharInLine(lay: Layout, len: int, i: int, px: int)
    requires lay.charWidth == 3 * lay.scale && lay.scale >= 1
    requires lay.totalWidth == TotalWidth(len, lay.scale)
    requires 0 <= i < len
    requires CharX(lay, i) <= px < CharX(lay, i) + 3 * lay.scale
    ensures lay.originX <= px < lay.originX + lay.totalWidth
  {
    var pitch := lay.charWidth + lay.scale;
    assert pitch == 4 * lay.scale;
    assert CharX(lay, i) == lay.originX + i * pitch;
    MulMonotone(0, i, pitch);
    LastGlyphEnd(len, i, lay.scale);
  }

  /** Glyph i of a line of `len` ends at or before the line's right edge. */
  lemma LastGlyphEnd(len: int, i: int, scale: int)
    requires 0 <= i < len && scale >= 1
    ensures i * (4 * scale) + 3 * scale <= TotalWidth(len, scale)
  {
    MulMonotone(i, len - 1, 4 * scale);
    TotalWidthFactor(len, scale);
    assert (len - 1) * (4 * scale) + 3 * scale == scale * (4 * len - 1);
  }

  /** The layout on a 480 x 272 surface for an `HH:MM:SS` string. */
  lemma Layout480x272()
    ensures ComputeLayout(8, 480, 272) == Layout(15, 45, 75, 465, 7, 98)
  {
    assert InitialScale(8, 480, 272) == 15;
    assert TotalWidth(8, 15) == 465;
    assert Shrink(8, 480, 15) == 15;
  }
}
