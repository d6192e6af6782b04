# fastfb clock renderer, modelled in Dafny

`fastfb` draws a live `HH:MM:SS` clock straight into the Linux framebuffer
during early boot, before any windowing stack exists, and prints one
`[BOOT] GUI ready` line after the first frame. This project models its
pixel-level renderer and the decisions of its main loop and proves their
properties:

- `bits.dfy` (module `Bits`): C's `&`, `|`, `<<`, `>>` on small unsigned values, defined bit by bit on naturals, with their arithmetic meaning proved.
- `color.dfy` (module `Color`): `pack_color`, written with those operators. It is XRGB at 32 bpp and RGB565 with truncating masks at 16 bpp. Any other depth gives 0.
- `glyphs.dfy` (module `Glyphs`): the constant 3x5 font `kGlyphs`, its linear-search lookup with the space as fallback, and the column bit test of a glyph row.
- `surface.dfy` (module `Surface`): the framebuffer as a `height` x `width` grid of pixel values. It has the clipped block writer `draw_block`, `fill_screen` and the glyph rasteriser `draw_char`.
- `clock.dfy` (module `Clock`): the layout of `render_clock` (first scale guess, shrink loop, centring) and its drawing part (background fill, one glyph per character).
- `lifecycle.dfy` (module `Lifecycle`): the checks `main` makes before rendering (bit depth, mapping size, the two clock colours) and one iteration of the render loop as a state machine over `(last_render, ready_announced)`.

Framebuffer writes are methods that take a grid and return the new grid.
Their contracts say, pixel by pixel, which pixels take which value and that
every other pixel keeps its value. Byte offsets are not modelled: a pixel
write stores the whole colour at 32 bpp and `(uint16_t)color` otherwise.
The row stride only appears in the condition `stride >= width * bpp / 8`.
The C code assumes this silently when it computes row addresses, and
`Surface.ValidGeometry` states it.

Three behaviours of the code are worth naming, because the model keeps them:

- `render_clock` first guesses the scale as `width / (len * 4)`. A guess of 0, or one above `height / 7`, is replaced by `height / 7`, and a guess below 1 becomes 1. It then shrinks the scale while the line is too wide. That only happens when the width guess was 0, that is, when the surface is narrower than `len * 4`; the guess can then be far above 1, and `Clock.NarrowSurfaceShrinksToOne` proves the loop ends at 1. `Clock.ScaleClosedForm` proves the result is always `max(1, min(width / (len * 4), height / 7))`.
- `draw_block` returns early for empty rectangles and for origins at or past the right or bottom edge, and clips the rest to the surface.
- `pack_color` returns 0 for depths other than 16 and 32. `main` rejects such depths before any colour is packed.

## Model

| member | source | states |
|---|---|---|
| Color.PackColor | package/fastfb/fastfb.c:92-101 | At 32 bpp the packed value is `r + 256*g + 65536*b`. At 16 bpp it is `(r/8)*2048 + (g/4)*32 + b/8` and below 65536. Any other depth gives 0. The value fits in 32 bits. |
| Color.Unpack32 | package/fastfb/fastfb.c:94-96 | At 32 bpp the top byte is zero, and masking with 0xFF after shifting by 0, 8 or 16 gives back r, g and b unchanged. |
| Color.Unpack16 | package/fastfb/fastfb.c:97-99 | At 16 bpp the top 5 bits hold r>>3, the middle 6 bits hold g>>2 and the low 5 bits hold b>>3. |
| Color.KnownColors | package/fastfb/fastfb.c:92-101 | White packs to 0xFFFF at 16 bpp. The clock's foreground (38,194,129) and background (32,32,32), the colours `main` packs on lines 271-272, pack to 0x2610/0x81C226 and 0x2104/0x202020. |
| Bits.AndSingleBit | package/fastfb/fastfb.c:151 | For k < 3, the only bit positions `draw_char` tests, the C test `bits & (1 << k)` is non-zero exactly when bit k of `bits` is 1. |
| Glyphs.ColumnSetIsBit | package/fastfb/fastfb.c:148-153 | Column `col` of a glyph row is set exactly when bit `2 - col` is 1, so bit 2 is the left column. |
| Glyphs.TableIsWellFormed | package/fastfb/fastfb.c:38-51 | The table has 12 entries with distinct characters. Every glyph has 5 rows below 8. The last entry is the blank space, and every other glyph has a set bit. |
| Glyphs.FindFrom | package/fastfb/fastfb.c:55-60 | The search returns the first index at or after `i` whose character matches, or the table size when no later entry matches. |
| Glyphs.LookupGlyph | package/fastfb/fastfb.c:53-62 | A character in the table gets that entry's rows. Any other character gets the all-zero rows. The result always has 5 rows of 3 bits. |
| Glyphs.LookupByCharacter | package/fastfb/fastfb.c:38-62 | The lookup gives the blank glyph exactly for the space and for characters missing from the table. |
| Surface.FillSpan | package/fastfb/fastfb.c:122-133 | A row keeps its length. Positions `[from, to)` hold the value and every other position is unchanged. This is the inner loop of both the 32-bit branch (lines 122-124) and the 16-bit branch (lines 131-133). |
| Surface.DrawBlock | package/fastfb/fastfb.c:103-137 | The pixels in `[x, min(x+w, W)) x [y, min(y+h, H))` take the colour, truncated to 16 bits unless bpp is 32. Every other pixel is unchanged. The call changes nothing when `w <= 0`, `h <= 0`, `x >= W` or `y >= H`. |
| Surface.FillScreen | package/fastfb/fastfb.c:139-143 | Every pixel of the W x H surface takes the stored colour. The result is the uniform grid whatever the surface held, so filling twice with one colour equals filling once. |
| Surface.DrawChar | package/fastfb/fastfb.c:145-159 | A pixel takes the colour exactly when some set bit (row, col) has its clipped `scale x scale` block at `(x + col*scale, y + row*scale)` over it. Every other pixel is unchanged. An all-zero glyph leaves the surface unchanged. |
| Clock.InitialScale | package/fastfb/fastfb.c:188-195 | The first scale guess is at least 1. It is at most `height / 7` when the surface is at least 7 rows tall. |
| Clock.Shrink | package/fastfb/fastfb.c:200-205 | The shrink loop ends between 1 and its start. Its result fits the width when above 1, and it is the largest scale not above the start that fits. |
| Clock.ComputeLayout | package/fastfb/fastfb.c:183-208 | For non-empty text the scale is at least 1, and above 1 only when the line fits the width. Both origins are non-negative. A line that fits ends inside the surface. The left and right margins differ by at most one, and so do the top and bottom. A surface at least 5 rows tall holds the glyph height. A line at least as wide as the surface starts at x = 0, and a glyph at least as tall as the surface starts at y = 0. |
| Clock.HeightFits | package/fastfb/fastfb.c:188-198 | On a surface at least 5 rows tall, 5 times the chosen scale is at most the height. |
| Clock.ScaleClosedForm | package/fastfb/fastfb.c:188-205 | The layout's scale always equals `max(1, min(width / (len*4), height / 7))`. |
| Clock.FitsBelowWidthGuess | package/fastfb/fastfb.c:200-205 | A scale with `scale * len * 4 <= width` already fits, so the shrink loop leaves it as it is. |
| Clock.NarrowSurfaceShrinksToOne | package/fastfb/fastfb.c:188-205 | On a surface narrower than `len * 4` the shrink loop ends at scale 1, whatever the height guess was. |
| Clock.GlyphInBox | package/fastfb/fastfb.c:145-159 | A glyph drawn at (x, y) covers only pixels inside its `3*scale x 5*scale` box, and only when the scale is at least 1. |
| Clock.TextInBox | package/fastfb/fastfb.c:197-216 | Every pixel the text covers lies in `[origin_x, origin_x + total_width) x [origin_y, origin_y + char_height)`. |
| Clock.DrawText | package/fastfb/fastfb.c:212-216 | After the glyph loop, a pixel holds the foreground exactly when the glyph of some character, placed at `origin_x + i*(char_width + scale)`, covers it. Every other pixel is unchanged. |
| Clock.RenderClock | package/fastfb/fastfb.c:180-216 | Empty text changes nothing. Otherwise every pixel holds the foreground if some character's glyph covers it and the background if none does. |
| Clock.Layout480x272 | package/fastfb/fastfb.c:183-208 | On a 480 x 272 surface an 8-character time uses scale 15, 45-pixel glyphs 75 pixels tall, a 465-pixel line and origin (7, 98). |
| Lifecycle.Setup | package/fastfb/fastfb.c:227-272 | Setup succeeds exactly when the device appeared, opened, answered both screen-info queries, reports 16 or 32 bpp and maps. Otherwise it reports the first failing check, in the code's order: missing framebuffer, failed open, failed screen-info query, unsupported depth (with its value), failed mapping. The mapping size is `smem_len`, or `line_length * yres` when `smem_len` is 0. The colours are the packed foreground and background. |
| Lifecycle.SetupGivesWritableSurface | package/fastfb/fastfb.c:247-270 | A successful setup whose line length holds `xres` pixels gives a geometry the surface writer accepts. |
| Lifecycle.CopyBounded | package/fastfb/fastfb.c:291-292 | The copy into `last_render` is a prefix of the timestamp. It is the whole timestamp when that is shorter than 16 characters, and exactly its first 15 characters otherwise. |
| Lifecycle.Step | package/fastfb/fastfb.c:277-297 | An iteration renders exactly when `strftime` produced a non-empty text that fits and differs from `last_render`. After a render `last_render` equals that text and readiness is marked. Otherwise the state is unchanged. The announcement fires exactly on a render before the first announcement. |
| Lifecycle.RepeatedReadingDrawsOnce | package/fastfb/fastfb.c:289-291 | The same formatted time twice in a row is drawn at most once. |
| Lifecycle.FirstUsableReadingRenders | package/fastfb/fastfb.c:274-296 | From the start state the first usable reading is drawn and announced. |
| Lifecycle.AnnouncedAtMostOnce | package/fastfb/fastfb.c:274-296 | Over any run of iterations, readiness is announced once if the run starts unannounced and draws a frame, and never otherwise. The flag ends set exactly when a frame was drawn or it was already set. |
| Lifecycle.LastRenderIsLastDrawn | package/fastfb/fastfb.c:289-292 | After a run, `last_render` holds the text of the last frame drawn. The later iterations may fail or re-read the same second; they only have to draw nothing. |
| Lifecycle.QuietRunKeepsState | package/fastfb/fastfb.c:280-297 | A run in which no iteration draws leaves `last_render` and the readiness flag unchanged and announces nothing. |
| Lifecycle.NothingDrawnKeepsState | package/fastfb/fastfb.c:280-287 | A run of ticks where `localtime_r` or `strftime` fails draws nothing and leaves the state unchanged. |

## Left out

- `wait_for_framebuffer` (fastfb.c:64-90) is left out. It polls with `access`, `nanosleep` and a floating-point elapsed time, and the model keeps only its outcome as `Probe.appeared`.
- `announce_ready` (fastfb.c:161-178) is left out: it reads `/proc/uptime` and prints. The model keeps only the decision to call it, `StepOutcome.announced`.
- Device setup (`open`, `ioctl`, `mmap`, `close`, `munmap`) is reduced to success flags and the reported fields in `Probe`.
- `msync` (fastfb.c:218), `time`/`localtime_r`/`strftime` and `nanosleep` are left out. The formatted timestamp is an input (`Reading`).
- The signal handlers and the `g_stop` flag (fastfb.c:25-31, 223-225, 277) are asynchronous and out of scope for a sequential model. A run of the loop is a finite sequence of readings.
- Byte-level pointer casts, little-endian byte order and stride padding are not modelled. The surface is a grid of pixel values.
- `board/myfastboot/rootfs-overlay/app.py` is left out: it is a tkinter window with no logic of its own.
- Surface.DrawBlock: C `int` overflow of `x + block_w` and `y + block_h` is not modelled. The only callers pass values far below 2^31.
- Clock.ComputeLayout: C `int` overflow of `len * char_width` and `total_width` is not modelled. The text is at most 15 characters, and the scale is at most `max(1, height / 7)` from the first guess on (`Clock.InitialScale`). So `total_width` is at most `59 * max(1, height / 7)`, which overflows only for a `yres` above 250 million.
- Lifecycle.Setup: the product `line_length * yres` is computed without `size_t` wrap-around.
- Surface.ValidGeometry restricts the writer to 16 and 32 bpp. `draw_block` treats every depth other than 32 as 16-bit, but `main` never passes another depth.
- Surface.DrawBlock requires a non-negative origin whenever the rectangle is non-empty. The C code does not check this; its callers only pass such origins.
- Strings are sequences of characters without a terminating zero. `strlen`, `strcmp` and `strncpy` stop at the first zero byte, and a formatted time contains none.
- Surface.DrawChar requires a non-negative origin even when no block is drawn (scale 0 or an all-zero glyph). `render_clock`, the only caller, passes `origin_x + i*(char_width + scale)` and `origin_y`, which are never negative.
