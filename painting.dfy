/** The loops of render. Each method paints one patch onto the target bitmap and is
    proved to paint exactly the rectangle of the patch's spans (Layout.Paint), leaving
    every other pixel as it was. */
module Painting {
  import opened Bitmaps
  import opened Stretch
  import opened Layout

  /** Tile mode across: whole-width chunks of `patch` from x0 on, the last one clipped
      at maxX, each `h` rows high at row y, read from source row sy on. */
  method TileAcross(bmp: array2<Pixel>, patch: array2<Pixel>, x0: int, maxX: int, y: int, h: int, sy: int)
    returns (x: int)
    requires bmp != patch && patch.Length0 > 0
    requires 0 <= x0 && maxX <= bmp.Length0
    requires 0 <= y && 0 <= h && y + h <= bmp.Length1 && 0 <= sy && sy + h <= patch.Length1
    modifies bmp
    ensures x == if x0 < maxX then maxX else x0
    ensures forall a, b :: 0 <= a < bmp.Length0 && 0 <= b < bmp.Length1 ==>
      bmp[a, b] == Paint(patch, Stretched(x0, maxX - x0, patch.Length0, true), Fixed(y, h, sy), a, b, old(bmp[a, b]))
  {
    var p := patch.Length0;
    x := x0;
    while x < maxX
      invariant x0 <= x && (x0 < maxX ==> x <= maxX) && (maxX <= x0 ==> x == x0)
      invariant x < maxX ==> ChunkStart(x - x0, p)
      invariant forall a, b :: 0 <= a < bmp.Length0 && 0 <= b < bmp.Length1 ==>
        bmp[a, b] == if x0 <= a < x && y <= b < y + h then patch[TileIndex(a - x0, p), sy + (b - y)] else old(bmp[a, b])
      decreases maxX - x
    {
      var w := p;
      if x + w > maxX {
        w := maxX - x;
      }
      CopySectionToBitmap(bmp, x, y, w, h, patch, 0, sy);
      TileIndexInChunk(x - x0, p);
      x := x + w;
    }
  }

  /** Tile mode down: whole-height chunks from y0 on, the last one clipped at maxY,
      each `w` columns wide at column x, read from source column sx on. */
  method TileDown(bmp: array2<Pixel>, patch: array2<Pixel>, y0: int, maxY: int, x: int, w: int, sx: int)
    returns (y: int)
    requires bmp != patch && patch.Length1 > 0
    requires 0 <= y0 && maxY <= bmp.Length1
    requires 0 <= x && 0 <= w && x + w <= bmp.Length0 && 0 <= sx && sx + w <= patch.Length0
    modifies bmp
    ensures y == if y0 < maxY then maxY else y0
    ensures forall a, b :: 0 <= a < bmp.Length0 && 0 <= b < bmp.Length1 ==>
      bmp[a, b] == Paint(patch, Fixed(x, w, sx), Stretched(y0, maxY - y0, patch.Length1, true), a, b, old(bmp[a, b]))
  {
    var p := patch.Length1;
    y := y0;
    while y < maxY
      invariant y0 <= y && (y0 < maxY ==> y <= maxY) && (maxY <= y0 ==> y == y0)
      invariant y < maxY ==> ChunkStart(y - y0, p)
      invariant forall a, b :: 0 <= a < bmp.Length0 && 0 <= b < bmp.Length1 ==>
        bmp[a, b] == if x <= a < x + w && y0 <= b < y then patch[sx + (a - x), TileIndex(b - y0, p)] else old(bmp[a, b])
      decreases maxY - y
    {
      var h := p;
      if y + h > maxY {
        h := maxY - y;
      }
      CopySectionToBitmap(bmp, x, y, w, h, patch, sx, 0);
      TileIndexInChunk(y - y0, p);
      y := y + h;
    }
  }

  /** The inner loop of duplication mode across: source column sx copied into `count`
      consecutive output columns from x0 on, one column per step. */
  method RepeatColumn(bmp: array2<Pixel>, patch: array2<Pixel>, sx: int, count: int,
                      x0: int, y: int, h: int, sy: int)
    returns (x: int)
    requires bmp != patch && 0 <= sx < patch.Length0
    requires 0 <= x0 && 0 <= count && x0 + count <= bmp.Length0
    requires 0 <= y && 0 <= h && y + h <= bmp.Length1 && 0 <= sy && sy + h <= patch.Length1
    modifies bmp
    ensures x == x0 + count
    ensures forall a, b :: 0 <= a < bmp.Length0 && 0 <= b < bmp.Length1 ==>
      bmp[a, b] == if x0 <= a < x && y <= b < y + h then patch[sx, sy + (b - y)] else old(bmp[a, b])
  {
    x := x0;
    var j := 0;
    while j < count && x < bmp.Length0
      invariant 0 <= j <= count && x == x0 + j
      invariant forall a, b :: 0 <= a < bmp.Length0 && 0 <= b < bmp.Length1 ==>
        bmp[a, b] == if x0 <= a < x && y <= b < y + h then patch[sx, sy + (b - y)] else old(bmp[a, b])
    {
      CopySectionToBitmap(bmp, x, y, 1, h, patch, sx, sy);
      x := x + 1;
      j := j + 1;
    }
  }

  /** The inner loop of duplication mode down: source row sy copied into `count`
      consecutive output rows from y0 on, one row per step. */
  method RepeatRow(bmp: array2<Pixel>, patch: array2<Pixel>, sy: int, count: int,
                   y0: int, x: int, w: int, sx: int)
    returns (y: int)
    requires bmp != patch && 0 <= sy < patch.Length1
    requires 0 <= y0 && 0 <= count && y0 + count <= bmp.Length1
    requires 0 <= x && 0 <= w && x + w <= bmp.Length0 && 0 <= sx && sx + w <= patch.Length0
    modifies bmp
    ensures y == y0 + count
    ensures forall a, b :: 0 <= a < bmp.Length0 && 0 <= b < bmp.Length1 ==>
      bmp[a, b] == if x <= a < x + w && y0 <= b < y then patch[sx + (a - x), sy] else old(bmp[a, b])
  {
    y := y0;
    var j := 0;
    while j < count && y < bmp.Length1
      invariant 0 <= j <= count && y == y0 + j
      invariant forall a, b :: 0 <= a < bmp.Length0 && 0 <= b < bmp.Length1 ==>
        bmp[a, b] == if x <= a < x + w && y0 <= b < y then patch[sx + (a - x), sy] else old(bmp[a, b])
    {
      CopySectionToBitmap(bmp, x, y, w, 1, patch, sx, sy);
      y := y + 1;
      j := j + 1;
    }
  }

  /** Duplication mode across: source column i is copied pixelWidths[i] times, from x0
      on, while the cursor is inside the bitmap; the cursor never reaches the edge early. */
  method DupAcross(bmp: array2<Pixel>, patch: array2<Pixel>, pixelWidths: seq<int>, fill: int,
                   x0: int, y: int, h: int, sy: int)
    returns (x: int)
    requires bmp != patch && 0 < |pixelWidths| == patch.Length0 && fill > 0
    requires pixelWidths == Multiplicities(|pixelWidths|, fill)
    requires 0 <= x0 && x0 + fill <= bmp.Length0
    requires 0 <= y && 0 <= h && y + h <= bmp.Length1 && 0 <= sy && sy + h <= patch.Length1
    modifies bmp
    ensures x == x0 + fill
    ensures forall a, b :: 0 <= a < bmp.Length0 && 0 <= b < bmp.Length1 ==>
      bmp[a, b] == Paint(patch, Stretched(x0, fill, patch.Length0, false), Fixed(y, h, sy), a, b, old(bmp[a, b]))
  {
    ghost var m := Multiplicities(|pixelWidths|, fill);
    MultiplicitiesSum(|pixelWidths|, fill);
    x := x0;
    var i := 0;
    while i < |pixelWidths| && x < bmp.Length0
      invariant 0 <= i <= |pixelWidths|
      invariant x == x0 + Prefix(m, i) && Prefix(m, i) <= fill
      invariant forall a, b :: 0 <= a < bmp.Length0 && 0 <= b < bmp.Length1 ==>
        bmp[a, b] == if x0 <= a < x && y <= b < y + h then patch[DupIndex(m, a - x0), sy + (b - y)] else old(bmp[a, b])
    {
      DupIndexBlock(m, i);
      x := RepeatColumn(bmp, patch, i, pixelWidths[i], x, y, h, sy);
      i := i + 1;
    }
    PrefixMonotone(m, i, |m|);
    assert x == x0 + fill;
    forall a, b | 0 <= a < bmp.Length0 && 0 <= b < bmp.Length1
      ensures bmp[a, b] == Paint(patch, Stretched(x0, fill, patch.Length0, false), Fixed(y, h, sy), a, b, old(bmp[a, b]))
    {
      PaintDupColumns(patch, x0, fill, y, h, sy, a, b, old(bmp[a, b]));
    }
  }

  /** Painting columns in duplication mode, pixel by pixel. */
  lemma PaintDupColumns(patch: array2<Pixel>, x0: int, fill: int, y: int, h: int, sy: int, a: int, b: int, under: Pixel)
    requires 0 <= sy && sy + h <= patch.Length1 && 0 < patch.Length0 && 0 < fill
    ensures Sum(Multiplicities(patch.Length0, fill)) == fill
    ensures Paint(patch, Stretched(x0, fill, patch.Length0, false), Fixed(y, h, sy), a, b, under)
      == if x0 <= a < x0 + fill && y <= b < y + h
         then patch[DupIndex(Multiplicities(patch.Length0, fill), a - x0), sy + (b - y)] else under
  {
    MultiplicitiesSum(patch.Length0, fill);
  }

  /** Duplication mode down: source row i is copied pixelHeights[i] times, from y0 on,
      while the cursor is inside the bitmap; the cursor never reaches the edge early. */
  method DupDown(bmp: array2<Pixel>, patch: array2<Pixel>, pixelHeights: seq<int>, fill: int,
                 y0: int, x: int, w: int, sx: int)
    returns (y: int)
    requires bmp != patch && 0 < |pixelHeights| == patch.Length1 && fill > 0
    requires pixelHeights == Multiplicities(|pixelHeights|, fill)
    requires 0 <= y0 && y0 + fill <= bmp.Length1
    requires 0 <= x && 0 <= w && x + w <= bmp.Length0 && 0 <= sx && sx + w <= patch.Length0
    modifies bmp
    ensures y == y0 + fill
    ensures forall a, b :: 0 <= a < bmp.Length0 && 0 <= b < bmp.Length1 ==>
      bmp[a, b] == Paint(patch, Fixed(x, w, sx), Stretched(y0, fill, patch.Length1, false), a, b, old(bmp[a, b]))
  {
    ghost var m := Multiplicities(|pixelHeights|, fill);
    MultiplicitiesSum(|pixelHeights|, fill);
    y := y0;
    var i := 0;
    while i < |pixelHeights| && y < bmp.Length1
      invariant 0 <= i <= |pixelHeights|
      invariant y == y0 + Prefix(m, i) && Prefix(m, i) <= fill
      invariant forall a, b :: 0 <= a < bmp.Length0 && 0 <= b < bmp.Length1 ==>
        bmp[a, b] == if x <= a < x + w && y0 <= b < y then patch[sx + (a - x), DupIndex(m, b - y0)] else old(bmp[a, b])
    {
      DupIndexBlock(m, i);
      y := RepeatRow(bmp, patch, i, pixelHeights[i], y, x, w, sx);
      i := i + 1;
    }
    PrefixMonotone(m, i, |m|);
    assert y == y0 + fill;
    forall a, b | 0 <= a < bmp.Length0 && 0 <= b < bmp.Length1
      ensures bmp[a, b] == Paint(patch, Fixed(x, w, sx), Stretched(y0, fill, patch.Length1, false), a, b, old(bmp[a, b]))
    {
      PaintDupRows(patch, x, w, sx, y0, fill, a, b, old(bmp[a, b]));
    }
  }

  /** Painting rows in duplication mode, pixel by pixel. */
  lemma PaintDupRows(patch: array2<Pixel>, x: int, w: int, sx: int, y0: int, fill: int, a: int, b: int, under: Pixel)
    requires 0 <= sx && sx + w <= patch.Length0 && 0 < patch.Length1 && 0 < fill
    ensures Sum(Multiplicities(patch.Length1, fill)) == fill
    ensures Paint(patch, Fixed(x, w, sx), Stretched(y0, fill, patch.Length1, false), a, b, under)
      == if x <= a < x + w && y0 <= b < y0 + fill
         then patch[sx + (a - x), DupIndex(Multiplicities(patch.Length1, fill), b - y0)] else under
  {
    MultiplicitiesSum(patch.Length1, fill);
  }

  /** The centre in tile mode along both axes: rows of whole-height chunks, each row
      tiled across; the last row and column of chunks are clipped at maxY and maxX. */
  method TileBlock(bmp: array2<Pixel>, patch: array2<Pixel>, x0: int, maxX: int, y0: int, maxY: int)
    requires bmp != patch && patch.Length0 > 0 && patch.Length1 > 0
    requires 0 <= x0 && maxX <= bmp.Length0 && 0 <= y0 && maxY <= bmp.Length1
    modifies bmp
    ensures forall a, b :: 0 <= a < bmp.Length0 && 0 <= b < bmp.Length1 ==>
      bmp[a, b] == Paint(patch, Stretched(x0, maxX - x0, patch.Length0, true),
                         Stretched(y0, maxY - y0, patch.Length1, true), a, b, old(bmp[a, b]))
  {
    var pw, ph := patch.Length0, patch.Length1;
    var y := y0;
    while y < maxY
      invariant y0 <= y && (y0 < maxY ==> y <= maxY) && (maxY <= y0 ==> y == y0)
      invariant y < maxY ==> ChunkStart(y - y0, ph)
      invariant forall a, b :: 0 <= a < bmp.Length0 && 0 <= b < bmp.Length1 ==>
        bmp[a, b] == if x0 <= a < maxX && y0 <= b < y then patch[TileIndex(a - x0, pw), TileIndex(b - y0, ph)]
                     else old(bmp[a, b])
      decreases maxY - y
    {
      var h := ph;
      if y + h > maxY {
        h := maxY - y;
      }
      var _ := TileAcross(bmp, patch, x0, maxX, y, h, 0);
      TileIndexInChunk(y - y0, ph);
      y := y + h;
    }
  }

  /** The inner loop of the centre with tile mode across only: `count` rows from y0 on,
      each tiled across from source row sy. */
  method RepeatTiledRow(bmp: array2<Pixel>, patch: array2<Pixel>, sy: int, count: int,
                        y0: int, x0: int, maxX: int)
    returns (y: int)
    requires bmp != patch && patch.Length0 > 0 && 0 <= sy < patch.Length1
    requires 0 <= y0 && 0 <= count && y0 + count <= bmp.Length1
    requires 0 <= x0 && maxX <= bmp.Length0
    modifies bmp
    ensures y == y0 + count
    ensures forall a, b :: 0 <= a < bmp.Length0 && 0 <= b < bmp.Length1 ==>
      bmp[a, b] == if x0 <= a < maxX && y0 <= b < y then patch[TileIndex(a - x0, patch.Length0), sy]
                   else old(bmp[a, b])
  {
    y := y0;
    var j := 0;
    while j < count && y < bmp.Length1
      invariant 0 <= j <= count && y == y0 + j
      invariant forall a, b :: 0 <= a < bmp.Length0 && 0 <= b < bmp.Length1 ==>
        bmp[a, b] == if x0 <= a < maxX && y0 <= b < y then patch[TileIndex(a - x0, patch.Length0), sy]
                     else old(bmp[a, b])
    {
      var _ := TileAcross(bmp, patch, x0, maxX, y, 1, sy);
      y := y + 1;
      j := j + 1;
    }
  }

  /** The centre with tile mode across only: source row i is repeated pixelHeights[i]
      times, every output row tiled across. */
  method DupRowsTiled(bmp: array2<Pixel>, patch: array2<Pixel>, pixelHeights: seq<int>, fill: int,
                      y0: int, x0: int, maxX: int)
    requires bmp != patch && patch.Length0 > 0 && 0 < |pixelHeights| == patch.Length1 && fill > 0
    requires pixelHeights == Multiplicities(|pixelHeights|, fill)
    requires 0 <= y0 && y0 + fill <= bmp.Length1 && 0 <= x0 && maxX <= bmp.Length0
    modifies bmp
    ensures forall a, b :: 0 <= a < bmp.Length0 && 0 <= b < bmp.Length1 ==>
      bmp[a, b] == Paint(patch, Stretched(x0, maxX - x0, patch.Length0, true),
                         Stretched(y0, fill, patch.Length1, false), a, b, old(bmp[a, b]))
  {
    ghost var m := Multiplicities(|pixelHeights|, fill);
    MultiplicitiesSum(|pixelHeights|, fill);
    var y := y0;
    var i := 0;
    while i < |pixelHeights| && y < bmp.Length1
      invariant 0 <= i <= |pixelHeights|
      invariant y == y0 + Prefix(m, i) && Prefix(m, i) <= fill
      invariant forall a, b :: 0 <= a < bmp.Length0 && 0 <= b < bmp.Length1 ==>
        bmp[a, b] == if x0 <= a < maxX && y0 <= b < y then patch[TileIndex(a - x0, patch.Length0), DupIndex(m, b - y0)]
                     else old(bmp[a, b])
    {
      DupIndexBlock(m, i);
      y := RepeatTiledRow(bmp, patch, i, pixelHeights[i], y, x0, maxX);
      i := i + 1;
    }
    PrefixMonotone(m, i, |m|);
    assert y == y0 + fill;
    forall a, b | 0 <= a < bmp.Length0 && 0 <= b < bmp.Length1
      ensures bmp[a, b] == Paint(patch, Stretched(x0, maxX - x0, patch.Length0, true),
                                 Stretched(y0, fill, patch.Length1, false), a, b, old(bmp[a, b]))
    {
      PaintTiledDupRows(patch, x0, maxX, y0, fill, a, b, old(bmp[a, b]));
    }
  }

  /** Painting the centre tiled across and duplicated down, pixel by pixel. */
  lemma PaintTiledDupRows(patch: array2<Pixel>, x0: int, maxX: int, y0: int, fill: int, a: int, b: int, under: Pixel)
    requires 0 < patch.Length0 && 0 < patch.Length1 && 0 < fill
    ensures Sum(Multiplicities(patch.Length1, fill)) == fill
    ensures Paint(patch, Stretched(x0, maxX - x0, patch.Length0, true), Stretched(y0, fill, patch.Length1, false), a, b, under)
      == if x0 <= a < maxX && y0 <= b < y0 + fill
         then patch[TileIndex(a - x0, patch.Length0), DupIndex(Multiplicities(patch.Length1, fill), b - y0)] else under
  {
    MultiplicitiesSum(patch.Length1, fill);
  }

  /** The inner loop of the centre with tile mode down only: `count` columns from x0 on,
      each tiled down from source column sx. */
  method RepeatTiledColumn(bmp: array2<Pixel>, patch: array2<Pixel>, sx: int, count: int,
                           x0: int, y0: int, maxY: int)
    returns (x: int)
    requires bmp != patch && patch.Length1 > 0 && 0 <= sx < patch.Length0
    requires 0 <= x0 && 0 <= count && x0 + count <= bmp.Length0
    requires 0 <= y0 && maxY <= bmp.Length1
    modifies bmp
    ensures x == x0 + count
    ensures forall a, b :: 0 <= a < bmp.Length0 && 0 <= b < bmp.Length1 ==>
      bmp[a, b] == if x0 <= a < x && y0 <= b < maxY then patch[sx, TileIndex(b - y0, patch.Length1)]
                   else old(bmp[a, b])
  {
    x := x0;
    var l := 0;
    while l < count && x < bmp.Length0
      invariant 0 <= l <= count && x == x0 + l
      invariant forall a, b :: 0 <= a < bmp.Length0 && 0 <= b < bmp.Length1 ==>
        bmp[a, b] == if x0 <= a < x && y0 <= b < maxY then patch[sx, TileIndex(b - y0, patch.Length1)]
                     else old(bmp[a, b])
    {
      var _ := TileDown(bmp, patch, y0, maxY, x, 1, sx);
      x := x + 1;
      l := l + 1;
    }
  }

  /** The centre with tile mode down only: source column k is repeated pixelWidths[k]
      times, every output column tiled down. */
  method DupColumnsTiled(bmp: array2<Pixel>, patch: array2<Pixel>, pixelWidths: seq<int>, fill: int,
                         x0: int, y0: int, maxY: int)
    requires bmp != patch && patch.Length1 > 0 && 0 < |pixelWidths| == patch.Length0 && fill > 0
    requires pixelWidths == Multiplicities(|pixelWidths|, fill)
    requires 0 <= x0 && x0 + fill <= bmp.Length0 && 0 <= y0 && maxY <= bmp.Length1
    modifies bmp
    ensures forall a, b :: 0 <= a < bmp.Length0 && 0 <= b < bmp.Length1 ==>
      bmp[a, b] == Paint(patch, Stretched(x0, fill, patch.Length0, false),
                         Stretched(y0, maxY - y0, patch.Length1, true), a, b, old(bmp[a, b]))
  {
    ghost var m := Multiplicities(|pixelWidths|, fill);
    MultiplicitiesSum(|pixelWidths|, fill);
    var x := x0;
    var k := 0;
    while k < |pixelWidths| && x < bmp.Length0
      invariant 0 <= k <= |pixelWidths|
      invariant x == x0 + Prefix(m, k) && Prefix(m, k) <= fill
      invariant forall a, b :: 0 <= a < bmp.Length0 && 0 <= b < bmp.Length1 ==>
        bmp[a, b] == if x0 <= a < x && y0 <= b < maxY then patch[DupIndex(m, a - x0), TileIndex(b - y0, patch.Length1)]
                     else old(bmp[a, b])
    {
      DupIndexBlock(m, k);
      x := RepeatTiledColumn(bmp, patch, k, pixelWidths[k], x, y0, maxY);
      k := k + 1;
    }
    PrefixMonotone(m, k, |m|);
    assert x == x0 + fill;
    forall a, b | 0 <= a < bmp.Length0 && 0 <= b < bmp.Length1
      ensures bmp[a, b] == Paint(patch, Stretched(x0, fill, patch.Length0, false),
                                 Stretched(y0, maxY - y0, patch.Length1, true), a, b, old(bmp[a, b]))
    {
      PaintDupTiledColumns(patch, x0, fill, y0, maxY, a, b, old(bmp[a, b]));
    }
  }

  /** Painting the centre duplicated across and tiled down, pixel by pixel. */
  lemma PaintDupTiledColumns(patch: array2<Pixel>, x0: int, fill: int, y0: int, maxY: int, a: int, b: int, under: Pixel)
    requires 0 < patch.Length0 && 0 < patch.Length1 && 0 < fill
    ensures Sum(Multiplicities(patch.Length0, fill)) == fill
    ensures Paint(patch, Stretched(x0, fill, patch.Length0, false), Stretched(y0, maxY - y0, patch.Length1, true), a, b, under)
      == if x0 <= a < x0 + fill && y0 <= b < maxY
         then patch[DupIndex(Multiplicities(patch.Length0, fill), a - x0), TileIndex(b - y0, patch.Length1)] else under
  {
    MultiplicitiesSum(patch.Length0, fill);
  }

  /** The inner loop of the centre in duplication mode along both axes: `count` rows
      from y0 on, each a duplication across of source row sy. */
  method RepeatDupRow(bmp: array2<Pixel>, patch: array2<Pixel>, pixelWidths: seq<int>, fillW: int,
                      sy: int, count: int, y0: int, x0: int)
    returns (y: int)
    requires bmp != patch && 0 < |pixelWidths| == patch.Length0 && fillW > 0
    requires pixelWidths == Multiplicities(|pixelWidths|, fillW)
    requires 0 <= sy < patch.Length1
    requires 0 <= y0 && 0 <= count && y0 + count <= bmp.Length1 && 0 <= x0 && x0 + fillW <= bmp.Length0
    modifies bmp
    ensures y == y0 + count
    ensures forall a, b :: 0 <= a < bmp.Length0 && 0 <= b < bmp.Length1 ==>
      bmp[a, b] == if y0 <= b < y then Paint(patch, Stretched(x0, fillW, patch.Length0, false), Fixed(b, 1, sy), a, b, old(bmp[a, b]))
                   else old(bmp[a, b])
  {
    y := y0;
    var j := 0;
    while j < count && y < bmp.Length1
      invariant 0 <= j <= count && y == y0 + j
      invariant forall a, b :: 0 <= a < bmp.Length0 && 0 <= b < bmp.Length1 ==>
        bmp[a, b] == if y0 <= b < y then Paint(patch, Stretched(x0, fillW, patch.Length0, false), Fixed(b, 1, sy), a, b, old(bmp[a, b]))
                     else old(bmp[a, b])
    {
      var _ := DupAcross(bmp, patch, pixelWidths, fillW, x0, y, 1, sy);
      y := y + 1;
      j := j + 1;
    }
  }

  /** The centre in duplication mode along both axes: source row i is repeated
      pixelHeights[i] times, every output row a duplication across. */
  method DupBlock(bmp: array2<Pixel>, patch: array2<Pixel>, pixelWidths: seq<int>, fillW: int,
                  pixelHeights: seq<int>, fillH: int, x0: int, y0: int)
    requires bmp != patch && 0 < |pixelWidths| == patch.Length0 && fillW > 0
    requires 0 < |pixelHeights| == patch.Length1 && fillH > 0
    requires pixelWidths == Multiplicities(|pixelWidths|, fillW)
    requires pixelHeights == Multiplicities(|pixelHeights|, fillH)
    requires 0 <= x0 && x0 + fillW <= bmp.Length0 && 0 <= y0 && y0 + fillH <= bmp.Length1
    modifies bmp
    ensures forall a, b :: 0 <= a < bmp.Length0 && 0 <= b < bmp.Length1 ==>
      bmp[a, b] == Paint(patch, Stretched(x0, fillW, patch.Length0, false),
                         Stretched(y0, fillH, patch.Length1, false), a, b, old(bmp[a, b]))
  {
    ghost var m := Multiplicities(|pixelHeights|, fillH);
    MultiplicitiesSum(|pixelHeights|, fillH);
    var y := y0;
    var i := 0;
    while i < |pixelHeights| && y < bmp.Length1
      invariant 0 <= i <= |pixelHeights|
      invariant y == y0 + Prefix(m, i) && Prefix(m, i) <= fillH
      invariant forall a, b :: 0 <= a < bmp.Length0 && 0 <= b < bmp.Length1 ==>
        bmp[a, b] == if y0 <= b < y
                     then Paint(patch, Stretched(x0, fillW, patch.Length0, false), Fixed(b, 1, DupIndex(m, b - y0)), a, b, old(bmp[a, b]))
                     else old(bmp[a, b])
    {
      DupIndexBlock(m, i);
      y := RepeatDupRow(bmp, patch, pixelWidths, fillW, i, pixelHeights[i], y, x0);
      i := i + 1;
    }
    PrefixMonotone(m, i, |m|);
    assert y == y0 + fillH;
    forall a, b | 0 <= a < bmp.Length0 && 0 <= b < bmp.Length1
      ensures bmp[a, b] == Paint(patch, Stretched(x0, fillW, patch.Length0, false),
                                 Stretched(y0, fillH, patch.Length1, false), a, b, old(bmp[a, b]))
    {
      PaintDupBlockRow(patch, x0, fillW, y0, fillH, a, b, old(bmp[a, b]));
    }
  }

  /** Painting the centre duplicated along both axes, row by row: an output row shows the
      duplication across of the source row it duplicates. */
  lemma PaintDupBlockRow(patch: array2<Pixel>, x0: int, fillW: int, y0: int, fillH: int, a: int, b: int, under: Pixel)
    requires 0 < patch.Length0 && 0 < patch.Length1 && 0 < fillW && 0 < fillH
    ensures Sum(Multiplicities(patch.Length1, fillH)) == fillH
    ensures Paint(patch, Stretched(x0, fillW, patch.Length0, false), Stretched(y0, fillH, patch.Length1, false), a, b, under)
      == if y0 <= b < y0 + fillH
         then Paint(patch, Stretched(x0, fillW, patch.Length0, false),
                    Fixed(b, 1, DupIndex(Multiplicities(patch.Length1, fillH), b - y0)), a, b, under)
         else under
  {
    MultiplicitiesSum(patch.Length1, fillH);
  }
}
