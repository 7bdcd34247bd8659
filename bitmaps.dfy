/** Pixel buffers of the host platform, reduced to what the nine-patch engine uses:
    a bitmap is a two-dimensional buffer of 32-bit ARGB words indexed as bmp[x, y],
    with Length0 its width and Length1 its height. Colour is never interpreted. */
module Bitmaps {

  /** A 32-bit ARGB word, as the platform's getARGB delivers it. */
  type Pixel = bv32

  /** The only colour the border markup recognises: opaque black. */
  const OpaqueBlack: Pixel := 0xFF00_0000

  /** The content of a freshly allocated bitmap. */
  const Blank: Pixel := 0

  datatype Result<T, E> = Ok(value: T) | Err(error: E)

  /** Why a section copy (and so the building of a nine-patch) fails. */
  datatype BuildError =
    | OutOfBounds   // the rectangle leaves the source bitmap
    | NegativeSize  // a bitmap of negative width or height was to be allocated

  /** The row y of a bitmap, read left to right. */
  function Row(bmp: array2<Pixel>, y: int): (line: seq<Pixel>)
    requires 0 <= y < bmp.Length1
    reads bmp
    ensures |line| == bmp.Length0
    ensures forall x :: 0 <= x < |line| ==> line[x] == bmp[x, y]
  {
    seq(bmp.Length0, x requires 0 <= x < bmp.Length0 reads bmp => bmp[x, y])
  }

  /** The column x of a bitmap, read top to bottom. */
  function Column(bmp: array2<Pixel>, x: int): (line: seq<Pixel>)
    requires 0 <= x < bmp.Length0
    reads bmp
    ensures |line| == bmp.Length1
    ensures forall y :: 0 <= y < |line| ==> line[y] == bmp[x, y]
  {
    seq(bmp.Length1, y requires 0 <= y < bmp.Length1 reads bmp => bmp[x, y])
  }

  /** The guard of copyBitmapSection together with the platform's refusal to
      allocate a bitmap of negative size. */
  predicate SectionRejected(srcWidth: int, srcHeight: int, x: int, y: int, width: int, height: int)
  {
    x < 0 || y < 0 || x + width > srcWidth || y + height > srcHeight || width < 0 || height < 0
  }

  /** copyBitmapSectionToBitmap: copies the width x height block of src at (sx, sy)
      into dst at (dx, dy); every other pixel of dst keeps its value. The platform's
      getARGB/setARGB pair is modelled by copying pixel by pixel. */
  method CopySectionToBitmap(dst: array2<Pixel>, dx: int, dy: int, width: int, height: int,
                             src: array2<Pixel>, sx: int, sy: int)
    requires dst != src
    requires 0 <= width && 0 <= height
    requires 0 <= dx && dx + width <= dst.Length0 && 0 <= dy && dy + height <= dst.Length1
    requires 0 <= sx && sx + width <= src.Length0 && 0 <= sy && sy + height <= src.Length1
    modifies dst
    ensures forall a, b :: 0 <= a < dst.Length0 && 0 <= b < dst.Length1 ==>
      dst[a, b] == if dx <= a < dx + width && dy <= b < dy + height
                   then src[sx + (a - dx), sy + (b - dy)] else old(dst[a, b])
  {
    var j := 0;
    while j < height
      invariant 0 <= j <= height
      invariant forall a, b :: 0 <= a < dst.Length0 && 0 <= b < dst.Length1 ==>
        dst[a, b] == if dx <= a < dx + width && dy <= b < dy + j
                     then src[sx + (a - dx), sy + (b - dy)] else old(dst[a, b])
    {
      var i := 0;
      while i < width
        invariant 0 <= i <= width
        invariant forall a, b :: 0 <= a < dst.Length0 && 0 <= b < dst.Length1 ==>
          dst[a, b] == if (dx <= a < dx + width && dy <= b < dy + j) || (dx <= a < dx + i && b == dy + j)
                       then src[sx + (a - dx), sy + (b - dy)] else old(dst[a, b])
      {
        dst[dx + i, dy + j] := src[sx + i, sy + j];
        i := i + 1;
      }
      j := j + 1;
    }
  }

  /** copyBitmapSection: a new width x height bitmap holding the block of src at (x, y),
      or the error the source (or the platform allocation) raises. */
  method CopyBitmapSection(src: array2<Pixel>, x: int, y: int, width: int, height: int)
    returns (r: Result<array2<Pixel>, BuildError>)
    ensures r.Err? <==> SectionRejected(src.Length0, src.Length1, x, y, width, height)
    ensures r.Err? ==> r.error == if x < 0 || y < 0 || x + width > src.Length0 || y + height > src.Length1
                                  then OutOfBounds else NegativeSize
    ensures r.Ok? ==> r.value != src && r.value.Length0 == width && r.value.Length1 == height
    ensures r.Ok? ==> forall i, j :: 0 <= i < width && 0 <= j < height ==> r.value[i, j] == src[x + i, y + j]
  {
    if x < 0 || y < 0 || x + width > src.Length0 || y + height > src.Length1 {
      return Err(OutOfBounds);
    }
    if width < 0 || height < 0 {
      return Err(NegativeSize);
    }
    var dst := new Pixel[width, height]((i, j) => Blank);
    CopySectionToBitmap(dst, 0, 0, width, height, src, x, y);
    return Ok(dst);
  }
}
