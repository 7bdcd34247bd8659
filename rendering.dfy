/** The nine steps of render, one per patch, in the order the source draws them. Each
    step takes a bitmap showing patches 0 .. n-1 (Layout.Shows) to one showing patches
    0 .. n, so that a bitmap that went through all nine shows exactly Layout.Layered. */
module Rendering {
  import opened Bitmaps
  import opened Stretch
  import opened Layout
  import opened Painting

  /** The target bitmap is none of the patches, so painting it leaves them unchanged. */
  predicate Apart(bmp: array2<Pixel>, patches: seq<array2<Pixel>>)
  {
    forall k :: 0 <= k < |patches| ==> patches[k] != bmp
  }

  /** What every step needs: patch n can be painted, every copy stays inside the
      bitmap, and the bitmap shows the patches before n. */
  ghost predicate ReadyFor(bmp: array2<Pixel>, patches: seq<array2<Pixel>>, f: Frame, n: int)
    reads bmp, patches
  {
    && 0 <= n < 9 && Paintable(patches, f, n + 1) && CopiesInBounds(f) && Apart(bmp, patches)
    && Shows(bmp, patches, f, n)
  }

  /** pixelWidths as render leaves it: filled with the multiplicities whenever there is
      width to fill (the arrays are only read then). */
  predicate WidthsReady(pixelWidths: seq<int>, f: Frame)
  {
    WidthToFill(f) > 0 ==>
      0 < |pixelWidths| == f.grid.c1 && pixelWidths == Multiplicities(|pixelWidths|, WidthToFill(f))
  }

  predicate HeightsReady(pixelHeights: seq<int>, f: Frame)
  {
    HeightToFill(f) > 0 ==>
      0 < |pixelHeights| == f.grid.r1 && pixelHeights == Multiplicities(|pixelHeights|, HeightToFill(f))
  }

  /** Patches 0, 2, 6 and 8: an unscaled copy at the left or right edge (x clamped to 0)
      and at the top or bottom edge (y clamped to 0), skipped when the patch is empty. */
  method DrawCorner(bmp: array2<Pixel>, patches: seq<array2<Pixel>>, f: Frame, k: int)
    requires k == 0 || k == 2 || k == 6 || k == 8
    requires ReadyFor(bmp, patches, f, k)
    modifies bmp
    ensures Shows(bmp, patches, f, k + 1)
  {
    var patch := patches[k];
    var x := 0;
    if k % 3 == 2 {
      x := f.width - patch.Length0;
      if x < 0 {
        x := 0;
      }
    }
    var y := 0;
    if k / 3 == 2 {
      y := f.height - patch.Length1;
      if y < 0 {
        y := 0;
      }
    }
    if patch.Length0 > 0 && patch.Length1 > 0 {
      CopySectionToBitmap(bmp, x, y, patch.Length0, patch.Length1, patch, 0, 0);
    }
    forall x, y | 0 <= x < f.width && 0 <= y < f.height
      ensures bmp[x, y] == Layered(patches, f, k + 1, x, y)
    {
      assert old(bmp[x, y]) == Layered(patches, f, k, x, y);
    }
  }

  /** Patch 1: stretched across the top between the two upper corners, when there is
      width to fill and the patch has height. */
  method DrawTopEdge(bmp: array2<Pixel>, patches: seq<array2<Pixel>>, f: Frame, pixelWidths: seq<int>)
    requires ReadyFor(bmp, patches, f, 1) && WidthsReady(pixelWidths, f)
    modifies bmp
    ensures Shows(bmp, patches, f, 2)
  {
    var widthToFill := f.width - patches[0].Length0 - patches[2].Length0;
    if widthToFill > 0 && patches[1].Length1 > 0 {
      if f.hTile {
        var _ := TileAcross(bmp, patches[1], patches[0].Length0, f.width - patches[2].Length0, 0, patches[1].Length1, 0);
      } else {
        var _ := DupAcross(bmp, patches[1], pixelWidths, widthToFill, patches[0].Length0, 0, patches[1].Length1, 0);
      }
    }
    forall x, y | 0 <= x < f.width && 0 <= y < f.height
      ensures bmp[x, y] == Layered(patches, f, 2, x, y)
    {
      assert old(bmp[x, y]) == Layered(patches, f, 1, x, y);
    }
  }

  /** Patch 3: stretched down the left edge between the two left corners, when there is
      height to fill and the patch has width. */
  method DrawLeftEdge(bmp: array2<Pixel>, patches: seq<array2<Pixel>>, f: Frame, pixelHeights: seq<int>)
    requires ReadyFor(bmp, patches, f, 3) && HeightsReady(pixelHeights, f)
    modifies bmp
    ensures Shows(bmp, patches, f, 4)
  {
    var heightToFill := f.height - patches[0].Length1 - patches[6].Length1;
    if heightToFill > 0 && patches[3].Length0 > 0 {
      if f.vTile {
        var _ := TileDown(bmp, patches[3], patches[0].Length1, f.height - patches[6].Length1, 0, patches[3].Length0, 0);
      } else {
        var _ := DupDown(bmp, patches[3], pixelHeights, heightToFill, patches[0].Length1, 0, patches[3].Length0, 0);
      }
    }
    forall x, y | 0 <= x < f.width && 0 <= y < f.height
      ensures bmp[x, y] == Layered(patches, f, 4, x, y)
    {
      assert old(bmp[x, y]) == Layered(patches, f, 3, x, y);
    }
  }

  /** Patch 4: stretched over the middle along both axes, in one of four ways depending
      on which shortcut flags are set, when there is width and height to fill. */
  method DrawCentre(bmp: array2<Pixel>, patches: seq<array2<Pixel>>, f: Frame,
                    pixelWidths: seq<int>, pixelHeights: seq<int>)
    requires ReadyFor(bmp, patches, f, 4) && WidthsReady(pixelWidths, f) && HeightsReady(pixelHeights, f)
    modifies bmp
    ensures Shows(bmp, patches, f, 5)
  {
    var widthToFill := f.width - patches[0].Length0 - patches[2].Length0;
    var heightToFill := f.height - patches[0].Length1 - patches[6].Length1;
    if widthToFill > 0 && heightToFill > 0 {
      var y := patches[1].Length1;
      var x := patches[3].Length0;
      var maxX := f.width - patches[5].Length0;
      var maxY := f.height - patches[7].Length1;
      if f.hTile && f.vTile {
        TileBlock(bmp, patches[4], x, maxX, y, maxY);
      } else if f.hTile {
        DupRowsTiled(bmp, patches[4], pixelHeights, heightToFill, y, x, maxX);
      } else if f.vTile {
        DupColumnsTiled(bmp, patches[4], pixelWidths, widthToFill, x, y, maxY);
      } else {
        DupBlock(bmp, patches[4], pixelWidths, widthToFill, pixelHeights, heightToFill, x, y);
      }
    }
    forall x, y | 0 <= x < f.width && 0 <= y < f.height
      ensures bmp[x, y] == Layered(patches, f, 5, x, y)
    {
      assert old(bmp[x, y]) == Layered(patches, f, 4, x, y);
    }
  }

  /** Patch 5: stretched down the right edge at width - its width (clamped to 0), when
      there is height to fill and the patch has width. */
  method DrawRightEdge(bmp: array2<Pixel>, patches: seq<array2<Pixel>>, f: Frame, pixelHeights: seq<int>)
    requires ReadyFor(bmp, patches, f, 5) && HeightsReady(pixelHeights, f)
    modifies bmp
    ensures Shows(bmp, patches, f, 6)
  {
    var heightToFill := f.height - patches[0].Length1 - patches[6].Length1;
    if heightToFill > 0 && patches[5].Length0 > 0 {
      var y := patches[2].Length1;
      var x := f.width - patches[5].Length0;
      if x < 0 {
        x := 0;
      }
      if f.vTile {
        var _ := TileDown(bmp, patches[5], y, f.height - patches[8].Length1, x, patches[5].Length0, 0);
      } else {
        var _ := DupDown(bmp, patches[5], pixelHeights, heightToFill, y, x, patches[5].Length0, 0);
      }
    }
    forall x, y | 0 <= x < f.width && 0 <= y < f.height
      ensures bmp[x, y] == Layered(patches, f, 6, x, y)
    {
      assert old(bmp[x, y]) == Layered(patches, f, 5, x, y);
    }
  }

  /** Patch 7: stretched across the bottom at height - its height (clamped to 0), when
      there is width to fill and the patch has height. */
  method DrawBottomEdge(bmp: array2<Pixel>, patches: seq<array2<Pixel>>, f: Frame, pixelWidths: seq<int>)
    requires ReadyFor(bmp, patches, f, 7) && WidthsReady(pixelWidths, f)
    modifies bmp
    ensures Shows(bmp, patches, f, 8)
  {
    var widthToFill := f.width - patches[0].Length0 - patches[2].Length0;
    if widthToFill > 0 && patches[7].Length1 > 0 {
      var y := f.height - patches[7].Length1;
      if y < 0 {
        y := 0;
      }
      var x := patches[6].Length0;
      if f.hTile {
        var _ := TileAcross(bmp, patches[7], x, f.width - patches[8].Length0, y, patches[7].Length1, 0);
      } else {
        var _ := DupAcross(bmp, patches[7], pixelWidths, widthToFill, x, y, patches[7].Length1, 0);
      }
    }
    forall x, y | 0 <= x < f.width && 0 <= y < f.height
      ensures bmp[x, y] == Layered(patches, f, 8, x, y)
    {
      assert old(bmp[x, y]) == Layered(patches, f, 7, x, y);
    }
  }

  /** Why render fails: a stretchable patch of thickness 0 with space to fill. */
  datatype RenderError = DivisionByZero

  /** The multiplicity array render allocates for a stretchable patch `thickness` pixels
      thick: filled when there is space to fill, which divides by the thickness. */
  method StretchCounts(thickness: int, toFill: int) returns (r: Result<seq<int>, RenderError>)
    requires 0 <= thickness
    ensures r.Err? <==> toFill > 0 && thickness == 0
    ensures r.Ok? ==> |r.value| == thickness
    ensures r.Ok? && toFill > 0 ==> r.value == Multiplicities(thickness, toFill)
  {
    var counts := new int[thickness];
    if toFill > 0 {
      if thickness == 0 {
        return Err(DivisionByZero);
      }
      FillMultiplicities(counts, toFill);
    }
    return Ok(counts[..]);
  }

  /** render: a new width x height bitmap with the nine patches painted in order, or the
      division by zero the multiplicity computation raises. */
  method RenderFrame(patches: seq<array2<Pixel>>, f: Frame) returns (r: Result<array2<Pixel>, RenderError>)
    requires Paintable(patches, f, 1) && CopiesInBounds(f) && 0 <= f.width && 0 <= f.height
    ensures r.Err? <==> DividesByZero(f)
    ensures r.Ok? ==> fresh(r.value)
    ensures r.Ok? ==> Paintable(patches, f, 9) && Shows(r.value, patches, f, 9)
  {
    var bmp := new Pixel[f.width, f.height]((i, j) => Blank);

    // the top-left corner
    DrawCorner(bmp, patches, f, 0);

    // the top edge, with its multiplicities across
    var widthToFill := f.width - patches[0].Length0 - patches[2].Length0;
    var pixelWidths := StretchCounts(patches[1].Length0, widthToFill);
    if pixelWidths.Err? {
      return Err(DivisionByZero);
    }
    var widths := pixelWidths.value;
    DrawTopEdge(bmp, patches, f, widths);

    // the top-right corner
    DrawCorner(bmp, patches, f, 2);

    // the remaining six patches, with the multiplicities down
    var rest := DrawFromLeftEdge(bmp, patches, f, widths);
    if rest.Err? {
      return Err(rest.error);
    }
    return Ok(bmp);
  }

  /** Patches 3 to 8 onto a bitmap showing patches 0 to 2: the multiplicities down, then
      the six steps; fails, leaving the bitmap half painted, when the left edge's patch
      has no height but there is height to fill. */
  method DrawFromLeftEdge(bmp: array2<Pixel>, patches: seq<array2<Pixel>>, f: Frame, pixelWidths: seq<int>)
    returns (r: Result<(), RenderError>)
    requires Paintable(patches, f, 3) && CopiesInBounds(f) && Apart(bmp, patches) && Shows(bmp, patches, f, 3)
    requires WidthsReady(pixelWidths, f)
    modifies bmp
    ensures r.Err? <==> HeightToFill(f) > 0 && f.grid.r1 == 0
    ensures r.Ok? ==> Paintable(patches, f, 9) && Shows(bmp, patches, f, 9)
  {
    var heightToFill := f.height - patches[0].Length1 - patches[6].Length1;
    var pixelHeights := StretchCounts(patches[3].Length1, heightToFill);
    if pixelHeights.Err? {
      return Err(DivisionByZero);
    }
    var heights := pixelHeights.value;
    DrawLeftEdge(bmp, patches, f, heights);
    DrawCentre(bmp, patches, f, pixelWidths, heights);
    DrawRightEdge(bmp, patches, f, heights);
    DrawCorner(bmp, patches, f, 6);
    DrawBottomEdge(bmp, patches, f, pixelWidths);
    DrawCorner(bmp, patches, f, 8);
    return Ok(());
  }
}
