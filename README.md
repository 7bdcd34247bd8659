# Nine-patch bitmaps, modelled in Dafny

This project models the nine-patch engine of `NinePatchBitmap`, a BlackBerry UI class
that stretches a bordered image to any size. It follows the Android nine-patch
convention: the 1-pixel frame of the raw bitmap is markup.

- Runs of opaque black (`0xFF000000`) on the top row and left column mark the
  stretchable region (the stretch rectangle).
- Runs on the bottom row and right column mark the content region (the pad rectangle).

The model has seven modules, following the parts of the engine:

- `Bitmaps` holds the host's pixel buffers. A bitmap is an `array2<Pixel>`, indexed
  `bmp[x, y]`, with 32-bit pixels. It also holds the two section-copy helpers
  (`copyBitmapSection`, `copyBitmapSectionToBitmap`).
- `Border` is `calculatePatches`: four scans of the frame, each finding one black run,
  and the -1 shift into interior coordinates. It also holds the inset arithmetic of
  `getPadding`.
- `Stretch` is the duplication multiplicities (`pixelWidths` / `pixelHeights`), stated
  as a function, plus the array loop that fills them. Output offsets map to source
  pixels in duplication mode (`DupIndex`) and in tile mode (`TileIndex`).
- `Layout` says what `render` draws, with no loops. Patch k is painted onto a column
  span times a row span, in the order 0..8. A pixel of the result is the one the last
  covering patch maps it to (`Layered`).
- `Painting` holds the loops of `render`: tile and duplication passes across and down,
  and the four ways the centre is drawn. Each loop is proved to paint exactly the
  `Layout.Paint` of its patch.
- `Rendering` holds the nine steps of `render`, one per patch. Each step takes a bitmap
  showing patches 0..n-1 to one showing 0..n. `RenderFrame` is `render`: either a
  fresh `width x height` bitmap showing all nine patches, or the division by zero of
  the multiplicity computation.
- `NinePatch` holds the object, which is built from the raw bitmap (a constructor that
  can fail becomes the factory `Build`), `getPadding`, `render`, and the render cache.
  The cache is shared by all instances and keyed by raw bitmap and size. This module
  also holds the properties that relate the parts: slicing succeeds exactly when the
  stretch rectangle lies inside the interior, and the render at the interior's own size
  is the interior.

## Model

| member | source | states |
|---|---|---|
| Bitmaps.CopySectionToBitmap | src/com/mobiata/bb/ui/decor/NinePatchBitmap.java:429-433 | the `width x height` block of `src` at `(sx, sy)` lands at `(dx, dy)` in `dst`; every other pixel of `dst` keeps its value |
| Bitmaps.CopyBitmapSection | src/com/mobiata/bb/ui/decor/NinePatchBitmap.java:445-457 | fails exactly when the rectangle leaves the source or has a negative size, with the matching error; otherwise returns a new bitmap of that size whose pixel `(i, j)` is `src[x + i, y + j]` |
| Border.UnmarkedLineHasNoRun | src/com/mobiata/bb/ui/decor/NinePatchBitmap.java:474-483 | a border line with no black pixel reports offset 0 and length 0 |
| Border.MarkedRunBounds | src/com/mobiata/bb/ui/decor/NinePatchBitmap.java:474-483 | the run a scan reports (`MarkedRun`) lies inside the line, and a run of positive length starts at a black pixel and stops at a pixel that is not black |
| Border.MarkedRunCharacterised | src/com/mobiata/bb/ui/decor/NinePatchBitmap.java:474-483 | the reported offset is the first black pixel; the length reaches the first later non-black pixel, or is 0 when the run goes to the end of the line |
| Border.ScanRun | src/com/mobiata/bb/ui/decor/NinePatchBitmap.java:474-483 | the `started`-flag loop with its `break` computes `MarkedRun` of the line |
| Border.CalculatePatches | src/com/mobiata/bb/ui/decor/NinePatchBitmap.java:465-528 | the stretch rectangle is the shifted runs of the top row and left column; the pad rectangle is the shifted runs of the bottom row and right column |
| Border.InsetsFrameMarkedRun | src/com/mobiata/bb/ui/decor/NinePatchBitmap.java:151-160 | for a well-marked line both insets are non-negative and fit in the interior; the border pixels between them are black; those over the leading inset are not, and neither is the first one over the trailing inset |
| Border.UnmarkedLineGivesNegativeInset | src/com/mobiata/bb/ui/decor/NinePatchBitmap.java:524-527 | an edge with no black pixel yields a leading inset of -1, not 0, and a trailing inset of the line length minus 1 |
| Stretch.Multiplicities | src/com/mobiata/bb/ui/decor/NinePatchBitmap.java:213-222 | the multiplicity array of `render` has one entry per pixel of the stretchable patch; its content is pinned down by the three lemmas below |
| Stretch.MultiplicitiesShape | src/com/mobiata/bb/ui/decor/NinePatchBitmap.java:213-222 | every multiplicity is `fill / p` or one more; exactly `fill % p` entries get the extra copy, in one block from `skip = (p - fill % p) / 2`; the two margins differ by at most one, the trailing one being larger |
| Stretch.MultiplicitiesPrefix | src/com/mobiata/bb/ui/decor/NinePatchBitmap.java:213-222 | the sum of the first i multiplicities is `i * base` plus the extra copies below i |
| Stretch.MultiplicitiesSum | src/com/mobiata/bb/ui/decor/NinePatchBitmap.java:235-239 | the multiplicities are non-negative and add up to `fill`, so the duplication loop moves its cursor by exactly `fill` |
| Stretch.FillMultiplicities | src/com/mobiata/bb/ui/decor/NinePatchBitmap.java:256-265 | the loop leaves the array equal to `Multiplicities(length, toFill)` |
| Stretch.DupIndex | src/com/mobiata/bb/ui/decor/NinePatchBitmap.java:235-239 | output offset `off` of a duplicated run shows the source pixel whose block of copies contains `off` |
| Stretch.DupIndexBlock | src/com/mobiata/bb/ui/decor/NinePatchBitmap.java:235-239 | the copies of source pixel i occupy exactly the offsets from `Prefix(i)` up to `Prefix(i + 1)`, inside the stretched run |
| Stretch.DupIndexAtNaturalSize | src/com/mobiata/bb/ui/decor/NinePatchBitmap.java:213-222 | when the space to fill equals the patch's thickness, every pixel is copied once and duplication is the identity |
| Stretch.TileIndex | src/com/mobiata/bb/ui/decor/NinePatchBitmap.java:226-233 | tile mode shows, at each offset, a source pixel inside the patch |
| Stretch.TileIndexInChunk | src/com/mobiata/bb/ui/decor/NinePatchBitmap.java:226-233 | within a chunk starting at a multiple of the patch width, the source pixel is the distance from the chunk's start |
| Layout.LastPainterWins | src/com/mobiata/bb/ui/decor/NinePatchBitmap.java:200-415 | a pixel of the result is the pixel of the last patch painted over it |
| Layout.UncoveredStaysBlank | src/com/mobiata/bb/ui/decor/NinePatchBitmap.java:200-415 | a pixel no patch covers keeps the content of the freshly allocated bitmap |
| Layout.ExactlyOnePatch | src/com/mobiata/bb/ui/decor/NinePatchBitmap.java:200-415 | at a size at least as large as the fixed rows and columns, every pixel is covered by exactly one patch, which decides it |
| Layout.CornersUnscaled | src/com/mobiata/bb/ui/decor/NinePatchBitmap.java:203-206 | at such a size the four corner patches appear unscaled, aligned with the left or right edge and the top or bottom edge (patch 0 here; patches 2, 6 and 8 at lines 244-249, 376-380 and 405-412) |
| Layout.NaturalWidthSource | src/com/mobiata/bb/ui/decor/NinePatchBitmap.java:208-242 | at the width that leaves exactly the middle column's thickness to fill, each column shows the patch column at its own offset, in both modes |
| Layout.NaturalHeightSource | src/com/mobiata/bb/ui/decor/NinePatchBitmap.java:251-285 | the same for rows, at the height that leaves exactly the middle row's thickness to fill |
| Layout.NaturalSizeSample | src/com/mobiata/bb/ui/decor/NinePatchBitmap.java:200-415 | at the natural size the nine patches are laid side by side unscaled |
| Painting.TileAcross | src/com/mobiata/bb/ui/decor/NinePatchBitmap.java:226-233 | whole-width chunks from `x0`, the last one clipped at `maxX`; the cursor ends at `maxX`, or stays at `x0` when it starts beyond; the strip painted is the tiled span and nothing else changes |
| Painting.TileDown | src/com/mobiata/bb/ui/decor/NinePatchBitmap.java:269-276 | the same, down the left or right edge, ending at `maxY` |
| Painting.RepeatColumn | src/com/mobiata/bb/ui/decor/NinePatchBitmap.java:236-238 | source column `sx` is copied into `count` consecutive columns; the cursor advances by `count` |
| Painting.RepeatRow | src/com/mobiata/bb/ui/decor/NinePatchBitmap.java:279-281 | source row `sy` is copied into `count` consecutive rows; the cursor advances by `count` |
| Painting.DupAcross | src/com/mobiata/bb/ui/decor/NinePatchBitmap.java:235-239 | source column i is copied `pixelWidths[i]` times; the cursor ends at `x0 + fill`; the strip shows the duplicated span and nothing else changes |
| Painting.DupDown | src/com/mobiata/bb/ui/decor/NinePatchBitmap.java:278-282 | source row i is copied `pixelHeights[i]` times; the cursor ends at `y0 + fill` |
| Painting.TileBlock | src/com/mobiata/bb/ui/decor/NinePatchBitmap.java:290-306 | the centre with both shortcut flags is tiled along both axes up to `maxX` and `maxY` |
| Painting.RepeatTiledRow | src/com/mobiata/bb/ui/decor/NinePatchBitmap.java:310-320 | `count` rows, each the tiling across of source row `sy` |
| Painting.DupRowsTiled | src/com/mobiata/bb/ui/decor/NinePatchBitmap.java:307-321 | the centre with only the horizontal shortcut is tiled across and duplicated down |
| Painting.RepeatTiledColumn | src/com/mobiata/bb/ui/decor/NinePatchBitmap.java:326-336 | `count` columns, each the tiling down of source column `sx` |
| Painting.DupColumnsTiled | src/com/mobiata/bb/ui/decor/NinePatchBitmap.java:322-337 | the centre with only the vertical shortcut is duplicated across and tiled down |
| Painting.RepeatDupRow | src/com/mobiata/bb/ui/decor/NinePatchBitmap.java:340-348 | `count` rows, each the duplication across of source row `sy` |
| Painting.DupBlock | src/com/mobiata/bb/ui/decor/NinePatchBitmap.java:338-350 | the centre with no shortcut is duplicated along both axes |
| Rendering.StretchCounts | src/com/mobiata/bb/ui/decor/NinePatchBitmap.java:209-222 | the multiplicity array has the patch's thickness as its length; when there is space to fill it holds `Multiplicities`, or the computation divides by zero exactly when the thickness is 0 |
| Rendering.DrawCorner | src/com/mobiata/bb/ui/decor/NinePatchBitmap.java:203-206 | corner patch k is copied unscaled at its origin, the far ones clamped to 0, and skipped when empty: the bitmap then shows patches 0..k (patch 0 here; patches 2, 6 and 8 at lines 244-249, 376-380 and 405-412) |
| Rendering.DrawTopEdge | src/com/mobiata/bb/ui/decor/NinePatchBitmap.java:208-242 | patch 1 is stretched across the top in the mode its flag selects: the bitmap then shows patches 0..1 |
| Rendering.DrawLeftEdge | src/com/mobiata/bb/ui/decor/NinePatchBitmap.java:251-285 | patch 3 is stretched down the left edge: the bitmap then shows patches 0..3 |
| Rendering.DrawCentre | src/com/mobiata/bb/ui/decor/NinePatchBitmap.java:287-351 | patch 4 is drawn by the branch the two flags select, only when both fills are positive: the bitmap then shows patches 0..4 |
| Rendering.DrawRightEdge | src/com/mobiata/bb/ui/decor/NinePatchBitmap.java:353-374 | patch 5 is stretched down the right edge at the clamped column: the bitmap then shows patches 0..5 |
| Rendering.DrawBottomEdge | src/com/mobiata/bb/ui/decor/NinePatchBitmap.java:382-403 | patch 7 is stretched across the bottom at the clamped row: the bitmap then shows patches 0..7 |
| Rendering.DrawFromLeftEdge | src/com/mobiata/bb/ui/decor/NinePatchBitmap.java:251-412 | patches 3..8 are painted, or the call fails exactly when there is height to fill and patch 3 has no height |
| Rendering.RenderFrame | src/com/mobiata/bb/ui/decor/NinePatchBitmap.java:200-415 | fails exactly when a stretchable patch of thickness 0 has space to fill; otherwise returns a fresh `width x height` bitmap showing the nine patches painted in order |
| NinePatch.CutPatches | src/com/mobiata/bb/ui/decor/NinePatchBitmap.java:101-118 | fails exactly when one of the nine sections leaves the interior; otherwise patch k is the section `(colX[k % 3], colY[k / 3], colWidths[k % 3], rowHeights[k / 3])`, and the patches fit the grid |
| NinePatch.RenderCache.constructor | src/com/mobiata/bb/ui/decor/NinePatchBitmap.java:70 | the shared table starts empty |
| NinePatch.NinePatchBitmap.constructor | src/com/mobiata/bb/ui/decor/NinePatchBitmap.java:120-122 | the parts are stored, and an empty bucket is added for the raw bitmap only if it has none |
| NinePatch.NinePatchBitmap.Build | src/com/mobiata/bb/ui/decor/NinePatchBitmap.java:95-123 | fails, leaving the table unchanged, exactly when the raw bitmap cannot be sliced; otherwise returns an object whose parts are those of the raw bitmap, with its bucket present |
| NinePatch.NinePatchBitmap.GetPadding | src/com/mobiata/bb/ui/decor/NinePatchBitmap.java:151-160 | `left` and `top` are the pad rectangle's offsets; `left + width + right` and `top + height + bottom` are the interior's size; `left + right` and `top + bottom` never exceed it; both pairs are the insets of the bottom row and the right column |
| NinePatch.NinePatchBitmap.Render | src/com/mobiata/bb/ui/decor/NinePatchBitmap.java:200-415 | `render` on this object's patches and flags, with the contract of `RenderFrame` |
| NinePatch.NinePatchBitmap.GetRenderedBitmap | src/com/mobiata/bb/ui/decor/NinePatchBitmap.java:169-180 | a stored render is returned unchanged with the table untouched; otherwise a new render is stored under its size, and a failed render stores nothing |
| NinePatch.RequestTwice | src/com/mobiata/bb/ui/decor/NinePatchBitmap.java:169-180 | a second request for a size that rendered returns the very bitmap of the first |
| NinePatch.SliceableIff | src/com/mobiata/bb/ui/decor/NinePatchBitmap.java:99-118 | the constructor succeeds exactly when the interior exists and the stretch rectangle lies inside it with non-negative offsets and sizes |
| NinePatch.WellMarkedSlices | src/com/mobiata/bb/ui/decor/NinePatchBitmap.java:98-118 | a top row and a left column that each carry one black run, after the corner and ending before the far end, always slice |
| NinePatch.UnmarkedStretchEdgeFails | src/com/mobiata/bb/ui/decor/NinePatchBitmap.java:524-525 | an unmarked top row or left column gives a stretch offset of -1, and the constructor then fails |
| NinePatch.SectionsReassemble | src/com/mobiata/bb/ui/decor/NinePatchBitmap.java:99-118 | the nine patches put back together are the interior, which is the raw bitmap without its frame |
| NinePatch.NaturalFramePaintable | src/com/mobiata/bb/ui/decor/NinePatchBitmap.java:103-106 | the three column widths add up to the interior's width and the three row heights to its height |
| NinePatch.LaidOutSideBySide | src/com/mobiata/bb/ui/decor/NinePatchBitmap.java:103-118 | at the natural size, the patch shown at a pixel is the one the interior was cut into there |
| NinePatch.RenderAtNaturalSize | src/com/mobiata/bb/ui/decor/NinePatchBitmap.java:200-415 | `render` at the interior's own size succeeds and returns a bitmap equal to the interior pixel for pixel, whatever the flags |
| NinePatch.NaturalSizeIsInterior | src/com/mobiata/bb/ui/decor/NinePatchBitmap.java:200-415 | rendering at the interior's own size reproduces the interior, in every mode |
| NinePatch.LargeEnoughInBounds | src/com/mobiata/bb/ui/decor/NinePatchBitmap.java:200-415 | at a size at least as large as the fixed rows and columns, every copy `render` makes stays inside the new bitmap |
| NinePatch.WellMarkedNeverDividesByZero | src/com/mobiata/bb/ui/decor/NinePatchBitmap.java:213 | well-marked stretch edges give stretchable patches of positive thickness, so `render` never divides by zero |
| NinePatch.PaddingIsUnmarkedMargin | src/com/mobiata/bb/ui/decor/NinePatchBitmap.java:151-160 | for well-marked pad edges every inset is non-negative, the frame pixels over the content are black, and those over the insets are not |

## Left out

- `draw` (NinePatchBitmap.java:188-191) only hands the cached render to the host's
  `Graphics.drawBitmap`, which is a foreign call. `getBitmap` and `getPadRect` are plain
  getters; the fields they return are modelled.
- The one-argument constructor (:85-87) is `Build` with options 0.
- The host `Bitmap` class is modelled as a two-dimensional pixel array. Its
  `getARGB`/`setARGB` pair, which stages pixels through an `int[]`, becomes a direct
  copy, pixel by pixel. The product `width*height` that sizes that buffer is not modelled,
  and neither is its 32-bit overflow.
- Colour is not interpreted: a pixel is a 32-bit word compared only with opaque black.
  A fresh bitmap is taken to hold 0 everywhere.
- The platform's out-of-bounds exceptions in `getARGB`/`setARGB` are not modelled as
  outcomes. `RenderFrame` requires `CopiesInBounds` instead: every copy fits the new
  bitmap. `LargeEnoughInBounds` shows this always holds at sizes at least as large as
  the fixed rows and columns. Negative render sizes (refused by the host's `new Bitmap`)
  are excluded by a precondition.
- `Build` requires a raw bitmap of at least 1x1, since the scans read its last row and
  column.
- The constructor's exception becomes a `Result`. A bitmap of negative size is reported
  as `NegativeSize`, which is how the host refuses it.
- The static `Hashtable` becomes a `RenderCache` object that every instance shares. It
  is keyed by the raw bitmap's identity. The `"WxH"` string key becomes the pair
  `(width, height)`; the string is injective in the pair. As in the source, `options`
  is not part of the key: two objects over the same raw bitmap with different flags
  share their renders.
- Thread safety of the shared table is not addressed by the source and is not modelled.
- The multiplicity arrays reach the painting steps as sequences.
  They are read-only once filled. Their in-place filling is modelled by
  `FillMultiplicities`.
- The `x < width` and `y < height` guards of the duplication loops
  are kept. They never cut a loop short, because every fill ends inside the bitmap.
- When the height stage divides by zero, the half-painted
  bitmap is dropped, as the exception drops it in the source.
- Two points where the code and the nine-patch convention part ways are modelled as the
  code does them:
  - An edge with no black pixel gives offset -1, not 0, because the shift at :524-527
    is unconditional (`UnmarkedLineGivesNegativeInset`, `UnmarkedStretchEdgeFails`).
  - The far corners are not clipped when the target is smaller than the corners. Their
    origin is clamped to 0 and the copy must fit (`CopiesInBounds`).
