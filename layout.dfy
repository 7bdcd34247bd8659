/** What render draws, stated without its loops: the nine patches are painted in index
    order 0..8, each onto the rectangle given by a column span and a row span, and every
    pixel of a span shows the source pixel the span maps it to. A pixel of the result is
    the one of the last patch whose rectangle contains it. */
module Layout {
  import opened Bitmaps
  import opened Stretch

  /** The widths of the three patch columns and the heights of the three patch rows. */
  datatype Grid = Grid(c0: int, c1: int, c2: int, r0: int, r1: int, r2: int)

  predicate GridOk(g: Grid)
  {
    0 <= g.c0 && 0 <= g.c1 && 0 <= g.c2 && 0 <= g.r0 && 0 <= g.r1 && 0 <= g.r2
  }

  function ColWidth(g: Grid, c: int): int
  {
    if c == 0 then g.c0 else if c == 1 then g.c1 else g.c2
  }

  function RowHeight(g: Grid, r: int): int
  {
    if r == 0 then g.r0 else if r == 1 then g.r1 else g.r2
  }

  /** Patch k (row-major) is ColWidth(k % 3) wide and RowHeight(k / 3) high. */
  predicate PatchesFit(patches: seq<array2<Pixel>>, g: Grid)
  {
    |patches| == 9 &&
    forall k :: 0 <= k < 9 ==>
      patches[k].Length0 == ColWidth(g, k % 3) && patches[k].Length1 == RowHeight(g, k / 3)
  }

  /** A render request: the patch grid, the target size and the two shortcut flags. */
  datatype Frame = Frame(grid: Grid, width: int, height: int, hTile: bool, vTile: bool)

  /** The space the top/bottom edges and the centre stretch over horizontally. */
  function WidthToFill(f: Frame): int
  {
    f.width - f.grid.c0 - f.grid.c2
  }

  /** The space the left/right edges and the centre stretch over vertically. */
  function HeightToFill(f: Frame): int
  {
    f.height - f.grid.r0 - f.grid.r2
  }

  /** render divides the space to fill by the thickness of the stretchable patch. */
  predicate DividesByZero(f: Frame)
  {
    (WidthToFill(f) > 0 && f.grid.c1 == 0) || (HeightToFill(f) > 0 && f.grid.r1 == 0)
  }

  /** Every copy render makes stays inside the new bitmap: a patch that is drawn at all
      fits along the axes on which it is not stretched. */
  predicate CopiesInBounds(f: Frame)
  {
    var g, w, h := f.grid, f.width, f.height;
    && (g.c0 > 0 && g.r0 > 0 ==> g.c0 <= w && g.r0 <= h)
    && (g.c2 > 0 && g.r0 > 0 ==> g.c2 <= w && g.r0 <= h)
    && (g.c0 > 0 && g.r2 > 0 ==> g.c0 <= w && g.r2 <= h)
    && (g.c2 > 0 && g.r2 > 0 ==> g.c2 <= w && g.r2 <= h)
    && (WidthToFill(f) > 0 && g.r0 > 0 ==> g.r0 <= h)
    && (WidthToFill(f) > 0 && g.r2 > 0 ==> g.r2 <= h)
    && (HeightToFill(f) > 0 && g.c0 > 0 ==> g.c0 <= w)
    && (HeightToFill(f) > 0 && g.c2 > 0 ==> g.c2 <= w)
  }

  /** Where a patch goes along one axis and which source pixel each position shows.
      Fixed: len pixels from origin, showing source pixels from `from` on.
      Stretched: fill pixels from start, showing a patch p pixels thick, tiled or
      duplicated. */
  datatype Span =
    | Fixed(origin: int, len: int, from: int)
    | Stretched(start: int, fill: int, p: int, tile: bool)

  predicate InSpan(s: Span, pos: int)
  {
    match s
    case Fixed(origin, len, _) => origin <= pos < origin + len
    case Stretched(start, fill, _, _) => start <= pos < start + fill
  }

  predicate SpanOk(s: Span)
  {
    match s
    case Fixed(_, _, from) => 0 <= from
    case Stretched(_, fill, p, _) => fill > 0 ==> p > 0
  }

  /** How far into the patch a span reads. */
  function SourceExtent(s: Span): int
  {
    match s
    case Fixed(_, len, from) => from + len
    case Stretched(_, _, p, _) => p
  }

  /** The source pixel (along this axis) that position pos of the span shows. */
  function SrcIndex(s: Span, pos: int): (r: int)
    requires SpanOk(s) && InSpan(s, pos)
    ensures 0 <= r < SourceExtent(s)
  {
    match s
    case Fixed(origin, _, from) => from + (pos - origin)
    case Stretched(start, fill, p, tile) =>
      if tile then TileIndex(pos - start, p)
      else
        MultiplicitiesSum(p, fill);
        DupIndex(Multiplicities(p, fill), pos - start)
  }

  predicate Readable(patch: array2<Pixel>, cs: Span, rs: Span)
  {
    SpanOk(cs) && SpanOk(rs) && SourceExtent(cs) <= patch.Length0 && SourceExtent(rs) <= patch.Length1
  }

  /** Pixel (x, y) after painting `patch` on the spans over a pixel showing `under`. */
  ghost function Paint(patch: array2<Pixel>, cs: Span, rs: Span, x: int, y: int, under: Pixel): Pixel
    requires Readable(patch, cs, rs)
    reads patch
  {
    if InSpan(cs, x) && InSpan(rs, y) then patch[SrcIndex(cs, x), SrcIndex(rs, y)] else under
  }

  function Max0(v: int): int
  {
    if v < 0 then 0 else v
  }

  /** The column spans of render: the left patches at 0, the stretched middle ones after
      them, the right ones at width - c2 clamped to 0. */
  function ColSpan(f: Frame, c: int): Span
  {
    if c == 0 then Fixed(0, f.grid.c0, 0)
    else if c == 1 then Stretched(f.grid.c0, WidthToFill(f), f.grid.c1, f.hTile)
    else Fixed(Max0(f.width - f.grid.c2), f.grid.c2, 0)
  }

  function RowSpan(f: Frame, r: int): Span
  {
    if r == 0 then Fixed(0, f.grid.r0, 0)
    else if r == 1 then Stretched(f.grid.r0, HeightToFill(f), f.grid.r1, f.vTile)
    else Fixed(Max0(f.height - f.grid.r2), f.grid.r2, 0)
  }

  /** Patch k covers pixel (x, y). */
  predicate Covers(f: Frame, k: int, x: int, y: int)
  {
    InSpan(ColSpan(f, k % 3), x) && InSpan(RowSpan(f, k / 3), y)
  }

  /** The first n patches can be painted: render has not divided by zero on the way. */
  predicate LayersOk(f: Frame, n: int)
  {
    (n >= 2 && WidthToFill(f) > 0 ==> f.grid.c1 > 0) && (n >= 4 && HeightToFill(f) > 0 ==> f.grid.r1 > 0)
  }

  predicate Paintable(patches: seq<array2<Pixel>>, f: Frame, n: int)
  {
    GridOk(f.grid) && PatchesFit(patches, f.grid) && 0 <= n <= 9 && LayersOk(f, n)
  }

  lemma PaintableReadable(patches: seq<array2<Pixel>>, f: Frame, n: int, k: int)
    requires Paintable(patches, f, n) && 0 <= k < n
    ensures Readable(patches[k], ColSpan(f, k % 3), RowSpan(f, k / 3))
  {
  }

  /** Pixel (x, y) of a fresh bitmap after painting patches 0 .. n-1. */
  ghost function Layered(patches: seq<array2<Pixel>>, f: Frame, n: int, x: int, y: int): Pixel
    requires Paintable(patches, f, n)
    reads patches
    decreases n
  {
    if n == 0 then Blank
    else
      PaintableReadable(patches, f, n, n - 1);
      Paint(patches[n - 1], ColSpan(f, (n - 1) % 3), RowSpan(f, (n - 1) / 3), x, y, Layered(patches, f, n - 1, x, y))
  }

  /** bmp is the target bitmap with patches 0 .. n-1 painted on it. */
  ghost predicate Shows(bmp: array2<Pixel>, patches: seq<array2<Pixel>>, f: Frame, n: int)
    requires Paintable(patches, f, n)
    reads bmp, patches
  {
    bmp.Length0 == f.width && bmp.Length1 == f.height &&
    forall x, y :: 0 <= x < f.width && 0 <= y < f.height ==> bmp[x, y] == Layered(patches, f, n, x, y)
  }

  /** The pixel patch k puts at (x, y). */
  ghost function Sample(patches: seq<array2<Pixel>>, f: Frame, k: int, x: int, y: int): Pixel
    requires Paintable(patches, f, k + 1) && 0 <= k && Covers(f, k, x, y)
    reads patches[k]
  {
    patches[k][SrcIndex(ColSpan(f, k % 3), x), SrcIndex(RowSpan(f, k / 3), y)]
  }

  /** The last patch painted over a pixel decides it. */
  lemma {:induction false} LastPainterWins(patches: seq<array2<Pixel>>, f: Frame, n: int, k: int, x: int, y: int)
    requires Paintable(patches, f, n) && 0 <= k < n && Covers(f, k, x, y)
    requires forall j :: k < j < n ==> !Covers(f, j, x, y)
    ensures Layered(patches, f, n, x, y) == Sample(patches, f, k, x, y)
    decreases n
  {
    if n - 1 != k {
      assert !Covers(f, n - 1, x, y);
      LastPainterWins(patches, f, n - 1, k, x, y);
    }
  }

  /** A pixel no patch covers keeps the content of the fresh bitmap. */
  lemma {:induction false} UncoveredStaysBlank(patches: seq<array2<Pixel>>, f: Frame, n: int, x: int, y: int)
    requires Paintable(patches, f, n)
    requires forall j :: 0 <= j < n ==> !Covers(f, j, x, y)
    ensures Layered(patches, f, n, x, y) == Blank
    decreases n
  {
    if n > 0 {
      assert !Covers(f, n - 1, x, y);
      UncoveredStaysBlank(patches, f, n - 1, x, y);
    }
  }

  /** The patch column a pixel column falls in, when the target is at least as wide as
      the two fixed columns together. */
  function ColumnBand(f: Frame, x: int): (c: int)
    requires GridOk(f.grid) && f.width >= f.grid.c0 + f.grid.c2 && 0 <= x < f.width
    ensures 0 <= c < 3 && InSpan(ColSpan(f, c), x)
    ensures forall d :: 0 <= d < 3 && d != c ==> !InSpan(ColSpan(f, d), x)
  {
    if x < f.grid.c0 then 0 else if x < f.width - f.grid.c2 then 1 else 2
  }

  function RowBand(f: Frame, y: int): (r: int)
    requires GridOk(f.grid) && f.height >= f.grid.r0 + f.grid.r2 && 0 <= y < f.height
    ensures 0 <= r < 3 && InSpan(RowSpan(f, r), y)
    ensures forall d :: 0 <= d < 3 && d != r ==> !InSpan(RowSpan(f, d), y)
  {
    if y < f.grid.r0 then 0 else if y < f.height - f.grid.r2 then 1 else 2
  }

  /** When the target is at least as large as the fixed rows and columns, the nine
      rectangles partition it: every pixel is covered by exactly one patch, so the order
      of painting does not matter and no pixel of the fresh bitmap is left showing. */
  lemma ExactlyOnePatch(patches: seq<array2<Pixel>>, f: Frame, x: int, y: int)
    requires Paintable(patches, f, 9)
    requires f.width >= f.grid.c0 + f.grid.c2 && f.height >= f.grid.r0 + f.grid.r2
    requires 0 <= x < f.width && 0 <= y < f.height
    ensures var k := 3 * RowBand(f, y) + ColumnBand(f, x);
      && Covers(f, k, x, y)
      && (forall j :: 0 <= j < 9 && j != k ==> !Covers(f, j, x, y))
      && Layered(patches, f, 9, x, y) == Sample(patches, f, k, x, y)
  {
    var c, r := ColumnBand(f, x), RowBand(f, y);
    var k := 3 * r + c;
    forall j | 0 <= j < 9 && j != k
      ensures !Covers(f, j, x, y)
    {
      assert j % 3 != c || j / 3 != r;
    }
    LastPainterWins(patches, f, 9, k, x, y);
  }

  /** Corner law: at a target at least as large as the fixed rows and columns, the four
      corners of the result are unscaled copies of the corner patches; corner k's pixel
      (i, j) lands at (i, j) offset to the right edge when k is on the right and to the
      bottom edge when k is at the bottom. */
  lemma CornersUnscaled(patches: seq<array2<Pixel>>, f: Frame, k: int, i: int, j: int)
    requires Paintable(patches, f, 9)
    requires f.width >= f.grid.c0 + f.grid.c2 && f.height >= f.grid.r0 + f.grid.r2
    requires k == 0 || k == 2 || k == 6 || k == 8
    requires 0 <= i < patches[k].Length0 && 0 <= j < patches[k].Length1
    ensures var x := if k % 3 == 0 then i else f.width - f.grid.c2 + i;
      var y := if k / 3 == 0 then j else f.height - f.grid.r2 + j;
      Layered(patches, f, 9, x, y) == patches[k][i, j]
  {
    var x := if k % 3 == 0 then i else f.width - f.grid.c2 + i;
    var y := if k / 3 == 0 then j else f.height - f.grid.r2 + j;
    CornerSource(f, k, i, j);
    ExactlyOnePatch(patches, f, x, y);
  }

  /** Where pixel (i, j) of corner k lands, and that the spans there read it back. */
  lemma CornerSource(f: Frame, k: int, i: int, j: int)
    requires GridOk(f.grid) && f.width >= f.grid.c0 + f.grid.c2 && f.height >= f.grid.r0 + f.grid.r2
    requires k == 0 || k == 2 || k == 6 || k == 8
    requires 0 <= i < ColWidth(f.grid, k % 3) && 0 <= j < RowHeight(f.grid, k / 3)
    ensures var x := if k % 3 == 0 then i else f.width - f.grid.c2 + i;
      var y := if k / 3 == 0 then j else f.height - f.grid.r2 + j;
      && 0 <= x < f.width && 0 <= y < f.height
      && 3 * RowBand(f, y) + ColumnBand(f, x) == k
      && SpanOk(ColSpan(f, k % 3)) && SrcIndex(ColSpan(f, k % 3), x) == i
      && SpanOk(RowSpan(f, k / 3)) && SrcIndex(RowSpan(f, k / 3), y) == j
  {
    var c, r := k % 3, k / 3;
    assert (c == 0 || c == 2) && (r == 0 || r == 2) && k == 3 * r + c;
  }

  /** Where patch column c starts in a target of the interior's own width. */
  function ColumnOrigin(g: Grid, c: int): int
  {
    if c == 0 then 0 else if c == 1 then g.c0 else g.c0 + g.c1
  }

  /** Where patch row r starts in a target of the interior's own height. */
  function RowOrigin(g: Grid, r: int): int
  {
    if r == 0 then 0 else if r == 1 then g.r0 else g.r0 + g.r1
  }

  /** At the target width that leaves exactly the middle column's thickness to fill,
      every column span maps a pixel column to its distance from the start of its patch
      column, in either mode. */
  lemma NaturalWidthSource(f: Frame, x: int)
    requires GridOk(f.grid) && 0 <= x < f.width && f.width == f.grid.c0 + f.grid.c1 + f.grid.c2
    ensures var c := ColumnBand(f, x);
      SpanOk(ColSpan(f, c)) && SrcIndex(ColSpan(f, c), x) == x - ColumnOrigin(f.grid, c)
  {
    if ColumnBand(f, x) == 1 && !f.hTile {
      DupIndexAtNaturalSize(f.grid.c1, x - f.grid.c0);
    }
  }

  /** The same for rows, at the target height that leaves exactly the middle row's
      thickness to fill. */
  lemma NaturalHeightSource(f: Frame, y: int)
    requires GridOk(f.grid) && 0 <= y < f.height && f.height == f.grid.r0 + f.grid.r1 + f.grid.r2
    ensures var r := RowBand(f, y);
      SpanOk(RowSpan(f, r)) && SrcIndex(RowSpan(f, r), y) == y - RowOrigin(f.grid, r)
  {
    if RowBand(f, y) == 1 && !f.vTile {
      DupIndexAtNaturalSize(f.grid.r1, y - f.grid.r0);
    }
  }

  /** At the natural size, pixel (x, y) of the result is the pixel of its patch at its
      offset from the patch's origin: the nine patches are laid side by side unscaled. */
  lemma NaturalSizeSample(patches: seq<array2<Pixel>>, f: Frame, x: int, y: int)
    requires Paintable(patches, f, 9)
    requires f.width == f.grid.c0 + f.grid.c1 + f.grid.c2 && f.height == f.grid.r0 + f.grid.r1 + f.grid.r2
    requires 0 <= x < f.width && 0 <= y < f.height
    ensures var c, r := ColumnBand(f, x), RowBand(f, y);
      && 0 <= x - ColumnOrigin(f.grid, c) < patches[3 * r + c].Length0
      && 0 <= y - RowOrigin(f.grid, r) < patches[3 * r + c].Length1
      && Layered(patches, f, 9, x, y) == patches[3 * r + c][x - ColumnOrigin(f.grid, c), y - RowOrigin(f.grid, r)]
  {
    var c, r := ColumnBand(f, x), RowBand(f, y);
    ExactlyOnePatch(patches, f, x, y);
    NaturalWidthSource(f, x);
    NaturalHeightSource(f, y);
    assert (3 * r + c) % 3 == c && (3 * r + c) / 3 == r;
  }
}
