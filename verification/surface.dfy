/**
  The pixel surface writer. The mapped framebuffer is modelled as a grid of
  `height` rows of `width` pixel values; a write stores the 32-bit colour at
  32 bpp and its low 16 bits otherwise. Byte offsets and stride padding are
  not modelled: the stride only appears in the well-formedness condition the
  C code relies on when it computes row addresses.
 */
module Surface {
  import opened Color
  import opened Glyphs

  type Grid = seq<seq<int>>

  datatype Geometry = Geometry(width: nat, height: nat, stride: int, bpp: int)

  /** A surface the writer can address: a supported depth and rows wide enough for `width` pixels. */
  predicate ValidGeometry(geo: Geometry)
  {
    && (geo.bpp == 16 || geo.bpp == 32)
    && geo.stride >= geo.width * (geo.bpp / 8)
  }

  /** The grid has the surface's dimensions. */
  predicate Shaped(fb: Grid, geo: Geometry)
  {
    |fb| == geo.height && forall y | 0 <= y < |fb| :: |fb[y]| == geo.width
  }

  /** The value a pixel write leaves in memory: the whole colour at 32 bpp, `(uint16_t)color` otherwise. */
  function Stored(bpp: int, color: uint32): (v: nat)
    ensures bpp == 32 ==> v == color
    ensures bpp != 32 ==> v < 0x1_0000 && (color - v) % 0x1_0000 == 0
  {
    if bpp == 32 then color else color % 0x1_0000
  }

  /** Pixel (px, py) lies in the `w` x `h` rectangle at (x, y) clipped to the surface. */
  predicate InBlock(x: int, y: int, w: int, h: int, geo: Geometry, px: int, py: int)
  {
    x <= px < x + w && y <= py < y + h && px < geo.width && py < geo.height
  }

  /** Overwrite positions [from, to) of one row with `v`. */
  method FillSpan(line: seq<int>, from: nat, to: nat, v: int) returns (out: seq<int>)
    requires from <= to <= |line|
    ensures |out| == |line|
    ensures forall i | 0 <= i < |line| :: out[i] == if from <= i < to then v else line[i]
  {
    out := line;
    var col := from;
    while col < to
      invariant from <= col <= to
      invariant |out| == |line|
      invariant forall i | 0 <= i < |line| :: out[i] == if from <= i < col then v else line[i]
    {
      out := out[col := v];
      col := col + 1;
    }
  }

  /**
    `draw_block`: rejects an empty rectangle or one whose origin is at or past
    the right or bottom edge, clips the rest to the surface and writes it row
    by row. A negative origin is never passed with a non-empty rectangle.
   */
  method DrawBlock(fb: Grid, geo: Geometry, x: int, y: int, blockW: int, blockH: int, color: uint32)
    returns (out: Grid)
    requires ValidGeometry(geo) && Shaped(fb, geo)
    requires blockW <= 0 || blockH <= 0 || (x >= 0 && y >= 0)
    ensures Shaped(out, geo)
    ensures forall py, px | 0 <= py < geo.height && 0 <= px < geo.width ::
              out[py][px] == if InBlock(x, y, blockW, blockH, geo, px, py) then Stored(geo.bpp, color) else fb[py][px]
    ensures blockW <= 0 || blockH <= 0 || x >= geo.width || y >= geo.height ==> out == fb
  {
    out := fb;
    if blockW <= 0 || blockH <= 0 {
      return;
    }
    if x >= geo.width || y >= geo.height {
      return;
    }
    var w := blockW;
    var h := blockH;
    if x + w > geo.width {
      w := geo.width - x;
    }
    if y + h > geo.height {
      h := geo.height - y;
    }
    var v: int;
    if geo.bpp == 32 {
      v := color;
    } else {
      v := color % 0x1_0000;
    }
    var row := 0;
    while row < h
      invariant 0 <= row <= h
      invariant Shaped(out, geo)
      invariant forall py, px | 0 <= py < geo.height && 0 <= px < geo.width ::
                  out[py][px] == if y <= py < y + row && x <= px < x + w then v else fb[py][px]
    {
      var line := FillSpan(out[y + row], x, x + w, v);
      out := out[y + row := line];
      row := row + 1;
    }
  }

  /** The surface with every pixel equal to `v`. */
  function Uniform(geo: Geometry, v: int): (g: Grid)
    ensures Shaped(g, geo)
  {
    seq(geo.height, _ => seq(geo.width, _ => v))
  }

  /** A grid of the surface's shape whose every pixel is `v` is the uniform grid. */
  lemma UniformUnique(g: Grid, geo: Geometry, v: int)
    requires Shaped(g, geo)
    requires forall py, px | 0 <= py < geo.height && 0 <= px < geo.width :: g[py][px] == v
    ensures g == Uniform(geo, v)
  {
    var u := Uniform(geo, v);
    forall py | 0 <= py < geo.height
      ensures g[py] == u[py]
    {
      assert forall px | 0 <= px < geo.width :: g[py][px] == u[py][px];
    }
  }

  /**
    `fill_screen`: the block writer over the whole surface. The result is the
    uniform grid of the stored colour whatever the surface held, so filling
    twice with one colour leaves what filling once does.
   */
  method FillScreen(fb: Grid, geo: Geometry, color: uint32) returns (out: Grid)
    requires ValidGeometry(geo) && Shaped(fb, geo)
    ensures Shaped(out, geo)
    ensures forall py, px | 0 <= py < geo.height && 0 <= px < geo.width :: out[py][px] == Stored(geo.bpp, color)
    ensures out == Uniform(geo, Stored(geo.bpp, color))
  {
    out := DrawBlock(fb, geo, 0, 0, geo.width, geo.height, color);
    UniformUnique(out, geo, Stored(geo.bpp, color));
  }

  /** The block of glyph cell (row, col) is drawn and covers pixel (px, py). */
  predicate CellCovers(rows: seq<nat>, x: int, y: int, scale: int, geo: Geometry, row: int, col: int, px: int, py: int)
    requires |rows| == GlyphH
    requires 0 <= row < GlyphH && 0 <= col < GlyphW
  {
    ColumnSet(rows[row], col) && InBlock(x + col * scale, y + row * scale, scale, scale, geo, px, py)
  }

  /** Some cell visited before (lastRow, lastCol) in row-major order covers pixel (px, py). */
  predicate CoveredBefore(rows: seq<nat>, x: int, y: int, scale: int, geo: Geometry, lastRow: int, lastCol: int, px: int, py: int)
    requires |rows| == GlyphH
  {
    exists row, col | 0 <= row < GlyphH && 0 <= col < GlyphW && (row < lastRow || (row == lastRow && col < lastCol)) ::
      CellCovers(rows, x, y, scale, geo, row, col, px, py)
  }

  /** Visiting cell (row, col) adds exactly that cell's coverage. */
  lemma CoveredStep(rows: seq<nat>, x: int, y: int, scale: int, geo: Geometry, row: int, col: int)
    requires |rows| == GlyphH
    requires 0 <= row < GlyphH && 0 <= col < GlyphW
    ensures forall px, py :: CoveredBefore(rows, x, y, scale, geo, row, col + 1, px, py) <==>
              CoveredBefore(rows, x, y, scale, geo, row, col, px, py) || CellCovers(rows, x, y, scale, geo, row, col, px, py)
  {
    forall px, py | CoveredBefore(rows, x, y, scale, geo, row, col + 1, px, py)
      ensures CoveredBefore(rows, x, y, scale, geo, row, col, px, py) || CellCovers(rows, x, y, scale, geo, row, col, px, py)
    {
      var r, c :| 0 <= r < GlyphH && 0 <= c < GlyphW && (r < row || (r == row && c < col + 1))
                 && CellCovers(rows, x, y, scale, geo, r, c, px, py);
      if r != row || c != col {
        assert r < row || (r == row && c < col);
      }
    }
  }

  /** Some set cell of the glyph covers pixel (px, py). */
  predicate GlyphCovers(rows: seq<nat>, x: int, y: int, scale: int, geo: Geometry, px: int, py: int)
    requires |rows| == GlyphH
  {
    exists row, col | 0 <= row < GlyphH && 0 <= col < GlyphW :: CellCovers(rows, x, y, scale, geo, row, col, px, py)
  }

  /**
    `draw_char`: for each set bit at (row, col), a `scale` x `scale` block at
    (x + col * scale, y + row * scale).
   */
  method DrawChar(fb: Grid, geo: Geometry, x: int, y: int, scale: int, color: uint32, rows: seq<nat>)
    returns (out: Grid)
    requires ValidGeometry(geo) && Shaped(fb, geo)
    requires x >= 0 && y >= 0
    requires |rows| == GlyphH
    ensures Shaped(out, geo)
    ensures forall py, px | 0 <= py < geo.height && 0 <= px < geo.width ::
              out[py][px] == if GlyphCovers(rows, x, y, scale, geo, px, py) then Stored(geo.bpp, color) else fb[py][px]
    ensures forall row, col, py, px | 0 <= row < GlyphH && 0 <= col < GlyphW && 0 <= py < geo.height && 0 <= px < geo.width
              && CellCovers(rows, x, y, scale, geo, row, col, px, py) :: out[py][px] == Stored(geo.bpp, color)
    ensures (forall k | 0 <= k < GlyphH :: rows[k] == 0) ==> out == fb
  {
    out := fb;
    var row := 0;
    while row < GlyphH
      invariant 0 <= row <= GlyphH
      invariant Shaped(out, geo)
      invariant forall py, px | 0 <= py < geo.height && 0 <= px < geo.width ::
                  out[py][px] == if CoveredBefore(rows, x, y, scale, geo, row, 0, px, py) then Stored(geo.bpp, color) else fb[py][px]
    {
      var bits := rows[row];
      var col := 0;
      while col < GlyphW
        invariant 0 <= col <= GlyphW
        invariant Shaped(out, geo)
        invariant forall py, px | 0 <= py < geo.height && 0 <= px < geo.width ::
                    out[py][px] == if CoveredBefore(rows, x, y, scale, geo, row, col, px, py) then Stored(geo.bpp, color) else fb[py][px]
      {
        CoveredStep(rows, x, y, scale, geo, row, col);
        if ColumnSet(bits, col) {
          var px0 := x + col * scale;
          var py0 := y + row * scale;
          assert scale > 0 ==> px0 >= 0 && py0 >= 0;
          out := DrawBlock(out, geo, px0, py0, scale, scale, color);
        }
        col := col + 1;
      }
      row := row + 1;
    }
    if forall k | 0 <= k < GlyphH :: rows[k] == 0 {
      GridExt(out, fb, geo);
    }
  }

  /** Two grids of the surface's shape that agree on every pixel are equal. */
  lemma GridExt(a: Grid, b: Grid, geo: Geometry)
    requires Shaped(a, geo) && Shaped(b, geo)
    requires forall py, px | 0 <= py < geo.height && 0 <= px < geo.width :: a[py][px] == b[py][px]
    ensures a == b
  {
    forall py | 0 <= py < geo.height
      ensures a[py] == b[py]
    {
      assert forall px | 0 <= px < geo.width :: a[py][px] == b[py][px];
    }
  }
}
