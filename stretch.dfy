/** The stretch distribution of render: in duplication mode every pixel column (row) of
    a stretchable patch is repeated a number of times (its multiplicity), the remainder
    spread over a centred block; in tile mode the whole patch is repeated in chunks. */
module Stretch {

  /** The sum of the first i entries. */
  function Prefix(s: seq<int>, i: nat): int
    requires i <= |s|
  {
    if i == 0 then 0 else Prefix(s, i - 1) + s[i - 1]
  }

  function Sum(s: seq<int>): int
  {
    Prefix(s, |s|)
  }

  predicate NonNegative(s: seq<int>)
  {
    forall i :: 0 <= i < |s| ==> 0 <= s[i]
  }

  lemma {:induction false} PrefixMonotone(s: seq<int>, i: nat, j: nat)
    requires NonNegative(s) && i <= j <= |s|
    ensures Prefix(s, i) <= Prefix(s, j)
    decreases j - i
  {
    if i < j {
      PrefixMonotone(s, i, j - 1);
    }
  }

  /** Multiplicity of pixel i of a patch p pixels thick that has to fill `fill` pixels,
      as render computes pixelWidths[i] (and pixelHeights[i]). */
  function Multiplicity(p: int, fill: int, i: int): int
    requires p > 0 && fill > 0
  {
    var perPixel := fill / p;
    var remain := fill - perPixel * p;
    var skip := (p - remain) / 2;
    var needExtra := (p - remain) != skip * 2;
    var end := if needExtra then p - (skip + 1) else p - skip;
    perPixel + (if skip <= i < end then 1 else 0)
  }

  function Multiplicities(p: int, fill: int): (m: seq<int>)
    requires p > 0 && fill > 0
    ensures |m| == p
  {
    seq(p, i => Multiplicity(p, fill, i))
  }

  /** Every entry is fill / p or one more; exactly fill % p entries get the extra copy,
      and they form one block starting at skip = (p - fill % p) / 2, so that the
      patch's margins without extra copies differ by at most one pixel, the trailing
      margin being the larger. */
  lemma MultiplicitiesShape(p: int, fill: int)
    requires p > 0 && fill > 0
    ensures var m := Multiplicities(p, fill);
      var base, remain := fill / p, fill % p;
      var skip := (p - remain) / 2;
      && 0 <= base && 0 <= remain < p && fill == base * p + remain
      && (forall i :: 0 <= i < p ==> m[i] == if skip <= i < skip + remain then base + 1 else base)
      && 0 <= skip && skip + remain <= p
      && (p - (skip + remain) == skip || p - (skip + remain) == skip + 1)
  {
    var base, remain := fill / p, fill % p;
    assert fill - base * p == remain;
    var skip := (p - remain) / 2;
    assert p - remain == 2 * skip || p - remain == 2 * skip + 1;
  }

  /** The prefix sums of the multiplicities: i * base plus the extra copies below i. */
  lemma {:induction false} MultiplicitiesPrefix(p: int, fill: int, i: nat)
    requires p > 0 && fill > 0 && i <= p
    ensures var base, remain := fill / p, fill % p;
      var skip := (p - remain) / 2;
      var extra := if i <= skip then 0 else if i <= skip + remain then i - skip else remain;
      Prefix(Multiplicities(p, fill), i) == i * base + extra
  {
    MultiplicitiesShape(p, fill);
    if i > 0 {
      MultiplicitiesPrefix(p, fill, i - 1);
      var base := fill / p;
      assert (i - 1) * base + base == i * base;
    }
  }

  /** The multiplicities are non-negative and add up to the amount to fill, so the
      per-pixel copy loop moves its cursor by exactly `fill`. */
  lemma MultiplicitiesSum(p: int, fill: int)
    requires p > 0 && fill > 0
    ensures NonNegative(Multiplicities(p, fill))
    ensures Sum(Multiplicities(p, fill)) == fill
  {
    MultiplicitiesShape(p, fill);
    MultiplicitiesPrefix(p, fill, p);
  }

  /** The loop of render that fills pixelWidths (pixelHeights) in place. */
  method FillMultiplicities(pixelWidths: array<int>, toFill: int)
    requires pixelWidths.Length > 0 && toFill > 0
    modifies pixelWidths
    ensures pixelWidths[..] == Multiplicities(pixelWidths.Length, toFill)
  {
    var p := pixelWidths.Length;
    var perPixel := toFill / p;
    var remain := toFill - perPixel * p;
    var skip := (p - remain) / 2;
    var needExtra := (p - remain) != skip * 2;
    for i := 0 to p
      invariant forall j :: 0 <= j < i ==> pixelWidths[j] == Multiplicity(p, toFill, j)
    {
      pixelWidths[i] := perPixel;
      if i >= skip && i < (if needExtra then p - (skip + 1) else p - skip) {
        pixelWidths[i] := pixelWidths[i] + 1;
      }
    }
  }

  /** The index at or after `from` whose block of copies contains output offset `off`. */
  function Locate(mult: seq<int>, from: nat, off: int): (r: nat)
    requires from < |mult| && Prefix(mult, from) <= off < Sum(mult)
    ensures from <= r < |mult| && Prefix(mult, r) <= off < Prefix(mult, r + 1)
    decreases |mult| - from
  {
    if off < Prefix(mult, from + 1) then from else Locate(mult, from + 1, off)
  }

  /** Duplication mode as a map from output offset to source pixel: offset `off` of the
      stretched run shows the source pixel whose block of copies contains it. */
  function DupIndex(mult: seq<int>, off: int): (r: nat)
    requires 0 <= off < Sum(mult)
    ensures r < |mult| && Prefix(mult, r) <= off < Prefix(mult, r + 1)
  {
    Locate(mult, 0, off)
  }

  /** The copies of source pixel i occupy output offsets Prefix(mult, i) up to
      Prefix(mult, i + 1), inside the stretched run. */
  lemma {:induction false} DupIndexBlock(mult: seq<int>, i: nat)
    requires NonNegative(mult) && i < |mult|
    ensures 0 <= Prefix(mult, i) && Prefix(mult, i + 1) <= Sum(mult)
    ensures forall off :: Prefix(mult, i) <= off < Prefix(mult, i + 1) ==> DupIndex(mult, off) == i
  {
    PrefixMonotone(mult, 0, i);
    PrefixMonotone(mult, i + 1, |mult|);
    forall off | Prefix(mult, i) <= off < Prefix(mult, i + 1)
      ensures DupIndex(mult, off) == i
    {
      var r := DupIndex(mult, off);
      if r < i {
        PrefixMonotone(mult, r + 1, i);
      } else if i < r {
        PrefixMonotone(mult, i + 1, r);
      }
    }
  }

  /** Filling exactly the patch's own thickness copies every pixel once: duplication
      mode is then the identity. */
  lemma DupIndexAtNaturalSize(p: int, off: int)
    requires 0 <= off < p
    ensures Sum(Multiplicities(p, p)) == p && DupIndex(Multiplicities(p, p), off) == off
  {
    var m := Multiplicities(p, p);
    MultiplicitiesSum(p, p);
    MultiplicitiesPrefix(p, p, off);
    MultiplicitiesPrefix(p, p, off + 1);
    DupIndexBlock(m, off);
  }

  /** Tile mode as a map from output offset to source pixel: the remainder of the
      offset after taking away as many whole patch widths as fit. */
  function TileIndex(off: int, p: int): (r: int)
    requires 0 <= off && p > 0
    ensures 0 <= r < p
    decreases off
  {
    if off < p then off else TileIndex(off - p, p)
  }

  /** Offsets at which tile mode starts a new chunk: 0, p, 2p, ... */
  predicate ChunkStart(off: int, p: int)
    requires p > 0
    decreases off
  {
    off == 0 || (off >= p && ChunkStart(off - p, p))
  }

  /** Within a chunk the source pixel is the distance from the chunk's start. */
  lemma {:induction false} TileIndexInChunk(off: int, p: int)
    requires p > 0 && 0 <= off && ChunkStart(off, p)
    ensures forall a :: off <= a < off + p ==> TileIndex(a, p) == a - off
    decreases off
  {
    if off > 0 {
      TileIndexInChunk(off - p, p);
    }
  }
}
