/** The nine-patch bitmap itself: built from a raw bitmap whose 1-pixel frame carries
    the markup, cut into nine patches, rendered at any size on request, and cached per
    raw bitmap and size in a table shared by every instance. */
module NinePatch {
  import opened Bitmaps
  import opened Border
  import opened Stretch
  import opened Layout
  import opened Rendering

  /** Option flag: stretch horizontally by whole-width chunks instead of pixel by pixel. */
  const H_SHORTCUT: bv32 := 1

  /** Option flag: stretch vertically by whole-height chunks instead of pixel by pixel. */
  const V_SHORTCUT: bv32 := 2

  /** The stretch rectangle calculatePatches derives from the top row and left column. */
  function StretchRectOf(raw: array2<Pixel>): Rect
    requires raw.Length0 >= 1 && raw.Length1 >= 1
    reads raw
  {
    Shifted(MarkedRun(Row(raw, 0)), MarkedRun(Column(raw, 0)))
  }

  /** The pad rectangle calculatePatches derives from the bottom row and right column. */
  function PadRectOf(raw: array2<Pixel>): Rect
    requires raw.Length0 >= 1 && raw.Length1 >= 1
    reads raw
  {
    Shifted(MarkedRun(Row(raw, raw.Length1 - 1)), MarkedRun(Column(raw, raw.Length0 - 1)))
  }

  /** The widths of the three patch columns and heights of the three patch rows the
      stretch rectangle draws over an iw x ih interior. */
  function GridOf(stretch: Rect, iw: int, ih: int): Grid
  {
    Grid(stretch.x, stretch.width, iw - stretch.x - stretch.width,
         stretch.y, stretch.height, ih - stretch.y - stretch.height)
  }

  /** Where patch column c starts in the interior. */
  function ColumnStart(stretch: Rect, c: int): int
  {
    if c == 0 then 0 else if c == 1 then stretch.x else stretch.x + stretch.width
  }

  /** Where patch row r starts in the interior. */
  function RowStart(stretch: Rect, r: int): int
  {
    if r == 0 then 0 else if r == 1 then stretch.y else stretch.y + stretch.height
  }

  /** The section of the interior the constructor cuts out as patch k: column k % 3 and
      row k / 3 of its colX, colY, colWidths and rowHeights tables. */
  function Section(stretch: Rect, iw: int, ih: int, k: int): Rect
  {
    var g := GridOf(stretch, iw, ih);
    Rect(ColumnStart(stretch, k % 3), RowStart(stretch, k / 3), ColWidth(g, k % 3), RowHeight(g, k / 3))
  }

  predicate SectionFails(srcWidth: int, srcHeight: int, s: Rect)
  {
    SectionRejected(srcWidth, srcHeight, s.x, s.y, s.width, s.height)
  }

  /** The constructor completes: the interior copy and all nine section copies succeed. */
  predicate Sliceable(raw: array2<Pixel>)
    requires raw.Length0 >= 1 && raw.Length1 >= 1
    reads raw
  {
    var iw, ih := raw.Length0 - 2, raw.Length1 - 2;
    && !SectionRejected(raw.Length0, raw.Length1, 1, 1, iw, ih)
    && forall k :: 0 <= k < 9 ==> !SectionFails(iw, ih, Section(StretchRectOf(raw), iw, ih, k))
  }

  /** part is a copy of the section s of src. */
  ghost predicate IsSection(src: array2<Pixel>, s: Rect, part: array2<Pixel>)
    reads src, part
  {
    && !SectionFails(src.Length0, src.Length1, s)
    && part.Length0 == s.width && part.Length1 == s.height
    && forall i, j :: 0 <= i < part.Length0 && 0 <= j < part.Length1 ==> part[i, j] == src[s.x + i, s.y + j]
  }

  /** What the constructor establishes: the two rectangles come from the border, bitmap
      is the interior, patch k is the k-th section of the interior, and the patches have
      the widths and heights of the grid. */
  ghost predicate SlicedParts(raw: array2<Pixel>, stretch: Rect, pad: Rect,
                              bitmap: array2<Pixel>, patches: seq<array2<Pixel>>)
    reads raw, bitmap, patches
  {
    && raw.Length0 >= 2 && raw.Length1 >= 2
    && stretch == StretchRectOf(raw) && pad == PadRectOf(raw)
    && IsSection(raw, Rect(1, 1, raw.Length0 - 2, raw.Length1 - 2), bitmap)
    && |patches| == 9
    && (forall k :: 0 <= k < 9 ==> IsSection(bitmap, Section(stretch, bitmap.Length0, bitmap.Length1, k), patches[k]))
    && GridOk(GridOf(stretch, bitmap.Length0, bitmap.Length1))
    && PatchesFit(patches, GridOf(stretch, bitmap.Length0, bitmap.Length1))
  }

  /** The nine section copies of the constructor, in row-major order; the first one
      refused ends the construction. */
  method CutPatches(bitmap: array2<Pixel>, stretch: Rect) returns (r: Result<seq<array2<Pixel>>, BuildError>)
    ensures var iw, ih := bitmap.Length0, bitmap.Length1;
      r.Err? <==> exists k :: 0 <= k < 9 && SectionFails(iw, ih, Section(stretch, iw, ih, k))
    ensures r.Ok? ==> |r.value| == 9
    ensures r.Ok? ==> forall k :: 0 <= k < 9 ==> IsSection(bitmap, Section(stretch, bitmap.Length0, bitmap.Length1, k), r.value[k])
    ensures r.Ok? ==> GridOk(GridOf(stretch, bitmap.Length0, bitmap.Length1))
    ensures r.Ok? ==> PatchesFit(r.value, GridOf(stretch, bitmap.Length0, bitmap.Length1))
  {
    ghost var iw, ih := bitmap.Length0, bitmap.Length1;
    var patches: seq<array2<Pixel>> := [];
    for k := 0 to 9
      invariant |patches| == k
      invariant forall j :: 0 <= j < k ==> !SectionFails(iw, ih, Section(stretch, iw, ih, j))
      invariant forall j :: 0 <= j < k ==> IsSection(bitmap, Section(stretch, iw, ih, j), patches[j])
    {
      var s := Section(stretch, bitmap.Length0, bitmap.Length1, k);
      var section := CopyBitmapSection(bitmap, s.x, s.y, s.width, s.height);
      if section.Err? {
        return Err(section.error);
      }
      patches := patches + [section.value];
    }
    assert GridOk(GridOf(stretch, iw, ih)) by {
      assert !SectionFails(iw, ih, Section(stretch, iw, ih, 0));
      assert !SectionFails(iw, ih, Section(stretch, iw, ih, 4));
      assert !SectionFails(iw, ih, Section(stretch, iw, ih, 8));
    }
    forall k | 0 <= k < 9
      ensures patches[k].Length0 == ColWidth(GridOf(stretch, iw, ih), k % 3)
      ensures patches[k].Length1 == RowHeight(GridOf(stretch, iw, ih), k / 3)
    {
      assert IsSection(bitmap, Section(stretch, iw, ih, k), patches[k]);
    }
    return Ok(patches);
  }

  /** The shared table of rendered bitmaps: for each raw bitmap, the renders made so far,
      keyed by their size. */
  class RenderCache {
    var buckets: map<array2<Pixel>, map<(int, int), array2<Pixel>>>

    constructor ()
      ensures buckets == map[]
    {
      buckets := map[];
    }
  }

  class NinePatchBitmap {
    const rawBitmap: array2<Pixel>
    const bitmap: array2<Pixel>
    const bitmapPatches: seq<array2<Pixel>>
    const stretchRect: Rect
    const padRect: Rect
    const options: bv32
    const renderedBitmaps: RenderCache

    /** The parts of this bitmap are those its constructor derives from rawBitmap. */
    ghost predicate Sliced()
      reads rawBitmap, bitmap, bitmapPatches
    {
      SlicedParts(rawBitmap, stretchRect, padRect, bitmap, bitmapPatches)
    }

    /** Sliced, and the shared table has a bucket for the raw bitmap. */
    ghost predicate Valid()
      reads rawBitmap, bitmap, bitmapPatches, renderedBitmaps
    {
      Sliced() && rawBitmap in renderedBitmaps.buckets
    }

    /** The render request for a target size: the patch grid, the size and the flags. */
    function FrameFor(width: int, height: int): Frame
    {
      Frame(GridOf(stretchRect, bitmap.Length0, bitmap.Length1), width, height,
            (options & H_SHORTCUT) == H_SHORTCUT, (options & V_SHORTCUT) == V_SHORTCUT)
    }

    /** Stores the parts Build computed and adds an empty bucket for the raw bitmap to
        the shared table unless it has one. */
    constructor (raw: array2<Pixel>, options: bv32, stretch: Rect, pad: Rect,
                 bitmap: array2<Pixel>, patches: seq<array2<Pixel>>, cache: RenderCache)
      modifies cache
      ensures rawBitmap == raw && this.options == options && stretchRect == stretch && padRect == pad
      ensures this.bitmap == bitmap && bitmapPatches == patches && renderedBitmaps == cache
      ensures cache.buckets == if raw in old(cache.buckets) then old(cache.buckets) else old(cache.buckets)[raw := map[]]
    {
      rawBitmap := raw;
      this.options := options;
      stretchRect := stretch;
      padRect := pad;
      this.bitmap := bitmap;
      bitmapPatches := patches;
      renderedBitmaps := cache;
      new;
      if raw !in cache.buckets {
        cache.buckets := cache.buckets[raw := map[]];
      }
    }

    /** The constructor of the source: calculatePatches, the interior copy, the nine
        section copies, the bucket. It fails exactly when one of the copies does. */
    static method Build(raw: array2<Pixel>, options: bv32, cache: RenderCache)
      returns (r: Result<NinePatchBitmap, BuildError>)
      requires raw.Length0 >= 1 && raw.Length1 >= 1
      modifies cache
      ensures r.Err? <==> !Sliceable(raw)
      ensures r.Err? ==> cache.buckets == old(cache.buckets)
      ensures r.Ok? ==> fresh(r.value) && r.value.Valid()
      ensures r.Ok? ==> r.value.rawBitmap == raw && r.value.options == options && r.value.renderedBitmaps == cache
      ensures r.Ok? ==>
        cache.buckets == if raw in old(cache.buckets) then old(cache.buckets) else old(cache.buckets)[raw := map[]]
    {
      var stretch, pad := CalculatePatches(raw);
      var interior := CopyBitmapSection(raw, 1, 1, raw.Length0 - 2, raw.Length1 - 2);
      if interior.Err? {
        return Err(interior.error);
      }
      var bitmap := interior.value;
      var cut := CutPatches(bitmap, stretch);
      if cut.Err? {
        ghost var iw, ih := bitmap.Length0, bitmap.Length1;
        ghost var k :| 0 <= k < 9 && SectionFails(iw, ih, Section(stretch, iw, ih, k));
        assert stretch == StretchRectOf(raw) && iw == raw.Length0 - 2 && ih == raw.Length1 - 2;
        return Err(cut.error);
      }
      var patches := cut.value;
      assert SlicedParts(raw, stretch, pad, bitmap, patches);
      var np := new NinePatchBitmap(raw, options, stretch, pad, bitmap, patches, cache);
      return Ok(np);
    }

    /** getPadding: the content insets on the four sides of the interior, from the pad
        rectangle: left and top are its offsets, right and bottom what is left over. */
    function GetPadding(): (pad: Edges)
      requires Sliced()
      reads rawBitmap, bitmap, bitmapPatches
      ensures pad.left == padRect.x && pad.left + padRect.width + pad.right == bitmap.Length0
      ensures pad.top == padRect.y && pad.top + padRect.height + pad.bottom == bitmap.Length1
      ensures pad.left + pad.right <= bitmap.Length0 && pad.top + pad.bottom <= bitmap.Length1
      ensures (pad.left, pad.right) == Insets(Row(rawBitmap, rawBitmap.Length1 - 1))
      ensures (pad.top, pad.bottom) == Insets(Column(rawBitmap, rawBitmap.Length0 - 1))
    {
      Edges(padRect.x, padRect.y, bitmap.Length0 - padRect.width - padRect.x, bitmap.Length1 - padRect.height - padRect.y)
    }

    /** render: a new width x height bitmap with the nine patches painted in order, or
        the division by zero the multiplicity computation raises. */
    method Render(width: int, height: int) returns (r: Result<array2<Pixel>, RenderError>)
      requires Sliced() && 0 <= width && 0 <= height && CopiesInBounds(FrameFor(width, height))
      ensures r.Err? <==> DividesByZero(FrameFor(width, height))
      ensures r.Ok? ==> fresh(r.value)
      ensures r.Ok? ==> Paintable(bitmapPatches, FrameFor(width, height), 9) && Shows(r.value, bitmapPatches, FrameFor(width, height), 9)
    {
      r := RenderFrame(bitmapPatches, FrameFor(width, height));
    }

    /** getRenderedBitmap: the render of this size stored in the raw bitmap's bucket if
        there is one; otherwise a new render, stored under its size. */
    method GetRenderedBitmap(width: int, height: int) returns (r: Result<array2<Pixel>, RenderError>)
      requires Valid()
      requires (width, height) !in renderedBitmaps.buckets[rawBitmap] ==>
        0 <= width && 0 <= height && CopiesInBounds(FrameFor(width, height))
      modifies renderedBitmaps
      ensures Valid()
      ensures var rendered := old(renderedBitmaps.buckets[rawBitmap]);
        (width, height) in rendered ==>
          r == Ok(rendered[(width, height)]) && renderedBitmaps.buckets == old(renderedBitmaps.buckets)
      ensures var rendered := old(renderedBitmaps.buckets[rawBitmap]);
        (width, height) !in rendered ==>
          && (r.Err? <==> DividesByZero(FrameFor(width, height)))
          && (r.Err? ==> renderedBitmaps.buckets == old(renderedBitmaps.buckets))
          && (r.Ok? ==> fresh(r.value))
          && (r.Ok? ==> Paintable(bitmapPatches, FrameFor(width, height), 9) && Shows(r.value, bitmapPatches, FrameFor(width, height), 9))
          && (r.Ok? ==>
                renderedBitmaps.buckets == old(renderedBitmaps.buckets)[rawBitmap := rendered[(width, height) := r.value]])
    {
      var rendered := renderedBitmaps.buckets[rawBitmap];
      var renderedSize := (width, height);
      if renderedSize in rendered {
        return Ok(rendered[renderedSize]);
      }
      r := Render(width, height);
      if r.Ok? {
        renderedBitmaps.buckets := renderedBitmaps.buckets[rawBitmap := rendered[renderedSize := r.value]];
      }
    }
  }

  /** A second request for a size that rendered returns the very bitmap of the first. */
  method RequestTwice(np: NinePatchBitmap, width: int, height: int)
    returns (first: Result<array2<Pixel>, RenderError>, second: Result<array2<Pixel>, RenderError>)
    requires np.Valid() && 0 <= width && 0 <= height && CopiesInBounds(np.FrameFor(width, height))
    modifies np.renderedBitmaps
    ensures first.Ok? ==> second == first
    ensures first.Err? ==> second.Err?
  {
    first := np.GetRenderedBitmap(width, height);
    second := np.GetRenderedBitmap(width, height);
  }

  /** The constructor succeeds exactly when the raw bitmap has an interior and the
      stretch rectangle lies inside it with non-negative offsets and sizes. */
  lemma SliceableIff(raw: array2<Pixel>)
    requires raw.Length0 >= 1 && raw.Length1 >= 1
    ensures var s, iw, ih := StretchRectOf(raw), raw.Length0 - 2, raw.Length1 - 2;
      Sliceable(raw) <==>
        && 0 <= iw && 0 <= ih
        && 0 <= s.x && 0 <= s.width && s.x + s.width <= iw
        && 0 <= s.y && 0 <= s.height && s.y + s.height <= ih
  {
    var s, iw, ih := StretchRectOf(raw), raw.Length0 - 2, raw.Length1 - 2;
    if Sliceable(raw) {
      assert !SectionFails(iw, ih, Section(s, iw, ih, 0));
      assert !SectionFails(iw, ih, Section(s, iw, ih, 4));
      assert !SectionFails(iw, ih, Section(s, iw, ih, 8));
    }
  }

  /** A top row and a left column that each carry one black run, starting after the
      corner pixel and ending before the far end, always slice. */
  lemma WellMarkedSlices(raw: array2<Pixel>)
    requires raw.Length0 >= 1 && raw.Length1 >= 1
    requires WellMarked(Row(raw, 0)) && WellMarked(Column(raw, 0))
    ensures Sliceable(raw)
  {
    SliceableIff(raw);
  }

  /** A top row or left column without a black pixel gives a stretch offset of -1, and
      the constructor then fails. */
  lemma UnmarkedStretchEdgeFails(raw: array2<Pixel>)
    requires raw.Length0 >= 1 && raw.Length1 >= 1
    requires (forall x :: 0 <= x < raw.Length0 ==> !IsBlack(raw[x, 0])) ||
             (forall y :: 0 <= y < raw.Length1 ==> !IsBlack(raw[0, y]))
    ensures StretchRectOf(raw).x == -1 || StretchRectOf(raw).y == -1
    ensures !Sliceable(raw)
  {
    if forall x :: 0 <= x < raw.Length0 ==> !IsBlack(raw[x, 0]) {
      UnmarkedLineHasNoRun(Row(raw, 0));
    } else {
      UnmarkedLineHasNoRun(Column(raw, 0));
    }
    SliceableIff(raw);
  }

  /** The patch column an interior column falls in. */
  function SliceColumn(stretch: Rect, i: int): int
  {
    if i < stretch.x then 0 else if i < stretch.x + stretch.width then 1 else 2
  }

  function SliceRow(stretch: Rect, j: int): int
  {
    if j < stretch.y then 0 else if j < stretch.y + stretch.height then 1 else 2
  }

  /** Interior pixel (i, j) is the pixel of the patch cut out around it, at its offset
      from where that patch was cut. */
  ghost predicate PieceAt(patches: seq<array2<Pixel>>, s: Rect, bitmap: array2<Pixel>, i: int, j: int)
    reads bitmap, patches
  {
    var c, r := SliceColumn(s, i), SliceRow(s, j);
    var k := 3 * r + c;
    && |patches| == 9 && 0 <= i < bitmap.Length0 && 0 <= j < bitmap.Length1
    && 0 <= i - ColumnStart(s, c) < patches[k].Length0
    && 0 <= j - RowStart(s, r) < patches[k].Length1
    && patches[k][i - ColumnStart(s, c), j - RowStart(s, r)] == bitmap[i, j]
  }

  /** The nine patches put back together are the interior: every interior pixel is the
      pixel of its patch at its offset from the patch's origin. */
  lemma SectionsReassemble(np: NinePatchBitmap, i: int, j: int)
    requires np.Sliced() && 0 <= i < np.bitmap.Length0 && 0 <= j < np.bitmap.Length1
    ensures PieceAt(np.bitmapPatches, np.stretchRect, np.bitmap, i, j)
    ensures np.bitmap[i, j] == np.rawBitmap[i + 1, j + 1]
  {
    var s, iw, ih := np.stretchRect, np.bitmap.Length0, np.bitmap.Length1;
    var c, r := SliceColumn(s, i), SliceRow(s, j);
    var k := 3 * r + c;
    assert IsSection(np.bitmap, Section(s, iw, ih, 0), np.bitmapPatches[0]);
    assert IsSection(np.bitmap, Section(s, iw, ih, 4), np.bitmapPatches[4]);
    assert IsSection(np.bitmap, Section(s, iw, ih, 8), np.bitmapPatches[8]);
    assert IsSection(np.bitmap, Section(s, iw, ih, k), np.bitmapPatches[k]);
    assert k % 3 == c && k / 3 == r;
  }

  /** Rendering at the interior's own size reproduces the interior, in either mode:
      every stretchable patch is then copied once, pixel for pixel. */
  lemma NaturalSizeIsInterior(np: NinePatchBitmap, i: int, j: int)
    requires np.Sliced() && 0 <= i < np.bitmap.Length0 && 0 <= j < np.bitmap.Length1
    ensures var f := np.FrameFor(np.bitmap.Length0, np.bitmap.Length1);
      Paintable(np.bitmapPatches, f, 9) && Layered(np.bitmapPatches, f, 9, i, j) == np.bitmap[i, j]
  {
    var f := np.FrameFor(np.bitmap.Length0, np.bitmap.Length1);
    NaturalFramePaintable(np);
    SectionsReassemble(np, i, j);
    LaidOutSideBySide(np.bitmapPatches, f, np.stretchRect, np.bitmap, i, j);
  }

  /** render at the interior's own size succeeds and returns a copy of the interior,
      pixel for pixel, whatever the flags. */
  method RenderAtNaturalSize(np: NinePatchBitmap) returns (r: Result<array2<Pixel>, RenderError>)
    requires np.Sliced()
    ensures r.Ok? && r.value.Length0 == np.bitmap.Length0 && r.value.Length1 == np.bitmap.Length1
    ensures r.Ok? ==> forall i, j :: 0 <= i < np.bitmap.Length0 && 0 <= j < np.bitmap.Length1 ==>
      r.value[i, j] == np.bitmap[i, j]
  {
    var w, h := np.bitmap.Length0, np.bitmap.Length1;
    NaturalFramePaintable(np);
    LargeEnoughInBounds(np.FrameFor(w, h));
    r := np.Render(w, h);
    forall i, j | 0 <= i < w && 0 <= j < h
      ensures r.value[i, j] == np.bitmap[i, j]
    {
      NaturalSizeIsInterior(np, i, j);
    }
  }

  /** At the interior's own size the space to fill along each axis is the thickness of
      the stretchable patches, so all nine patches can be painted. */
  lemma NaturalFramePaintable(np: NinePatchBitmap)
    requires np.Sliced()
    ensures var f := np.FrameFor(np.bitmap.Length0, np.bitmap.Length1);
      && f.width == f.grid.c0 + f.grid.c1 + f.grid.c2 && f.height == f.grid.r0 + f.grid.r1 + f.grid.r2
      && Paintable(np.bitmapPatches, f, 9)
  {
  }

  /** The step of NaturalSizeIsInterior about the grid alone: the patch render shows at
      (i, j) at the natural size is the one the interior was cut into there. */
  lemma LaidOutSideBySide(patches: seq<array2<Pixel>>, f: Frame, s: Rect, bitmap: array2<Pixel>, i: int, j: int)
    requires Paintable(patches, f, 9) && f.grid == GridOf(s, bitmap.Length0, bitmap.Length1)
    requires f.width == bitmap.Length0 && f.height == bitmap.Length1
    requires PieceAt(patches, s, bitmap, i, j)
    ensures Layered(patches, f, 9, i, j) == bitmap[i, j]
  {
    NaturalSizeSample(patches, f, i, j);
    var c, r := ColumnBand(f, i), RowBand(f, j);
    assert c == SliceColumn(s, i) && ColumnOrigin(f.grid, c) == ColumnStart(s, c);
    assert r == SliceRow(s, j) && RowOrigin(f.grid, r) == RowStart(s, r);
  }

  /** At a target at least as large as the fixed rows and columns every copy of render
      stays inside the new bitmap. */
  lemma LargeEnoughInBounds(f: Frame)
    requires GridOk(f.grid)
    requires f.width >= f.grid.c0 + f.grid.c2 && f.height >= f.grid.r0 + f.grid.r2
    ensures CopiesInBounds(f)
  {
  }

  /** A well-marked top row and left column give stretchable patches of positive
      thickness, so render never divides by zero. */
  lemma WellMarkedNeverDividesByZero(np: NinePatchBitmap, width: int, height: int)
    requires np.Sliced() && WellMarked(Row(np.rawBitmap, 0)) && WellMarked(Column(np.rawBitmap, 0))
    ensures !DividesByZero(np.FrameFor(width, height))
  {
  }

  /** The padding of a bitmap whose bottom row and right column are well marked: every
      inset is non-negative, the border pixels over the content are black, those over
      the leading inset are not, and neither is the first one over the trailing inset. */
  lemma PaddingIsUnmarkedMargin(np: NinePatchBitmap)
    requires np.Sliced()
    requires WellMarked(Row(np.rawBitmap, np.rawBitmap.Length1 - 1))
    requires WellMarked(Column(np.rawBitmap, np.rawBitmap.Length0 - 1))
    ensures var pad, raw := np.GetPadding(), np.rawBitmap;
      var w, h := raw.Length0, raw.Length1;
      var bottom, right := Row(raw, h - 1), Column(raw, w - 1);
      && 0 <= pad.left && 0 <= pad.right && pad.left + pad.right <= w - 2
      && 0 <= pad.top && 0 <= pad.bottom && pad.top + pad.bottom <= h - 2
      && (forall x :: 1 <= x < pad.left + 1 ==> !IsBlack(bottom[x]))
      && (forall x :: pad.left + 1 <= x < w - 1 - pad.right ==> IsBlack(bottom[x]))
      && (pad.right > 0 ==> !IsBlack(bottom[w - 1 - pad.right]))
      && (forall y :: 1 <= y < pad.top + 1 ==> !IsBlack(right[y]))
      && (forall y :: pad.top + 1 <= y < h - 1 - pad.bottom ==> IsBlack(right[y]))
      && (pad.bottom > 0 ==> !IsBlack(right[h - 1 - pad.bottom]))
  {
    var raw := np.rawBitmap;
    InsetsFrameMarkedRun(Row(raw, raw.Length1 - 1));
    InsetsFrameMarkedRun(Column(raw, raw.Length0 - 1));
  }
}
