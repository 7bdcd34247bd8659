/** Border inspection: the 1-pixel frame of a nine-patch bitmap marks, with runs of
    opaque-black pixels, the stretchable region (top row, left column) and the
    content region (bottom row, right column). */
module Border {
  import opened Bitmaps

  /** An integer rectangle, as the platform's XYRect. */
  datatype Rect = Rect(x: int, y: int, width: int, height: int)

  /** Content insets, as the platform's XYEdges. */
  datatype Edges = Edges(left: int, top: int, right: int, bottom: int)

  /** What one scan of a border line yields: where the marked run starts and how long it is. */
  datatype Run = Run(offset: int, length: int)

  predicate IsBlack(p: Pixel) { p == OpaqueBlack }

  /** The first index at or after `from` whose pixel is black (when `black`) or not
      black (when `!black`); |line| when there is none. */
  function FirstFrom(line: seq<Pixel>, from: nat, black: bool): (i: nat)
    requires from <= |line|
    ensures from <= i <= |line|
    ensures forall j :: from <= j < i ==> IsBlack(line[j]) != black
    ensures i < |line| ==> IsBlack(line[i]) == black
    decreases |line| - from
  {
    if from == |line| then from
    else if IsBlack(line[from]) == black then from
    else FirstFrom(line, from + 1, black)
  }

  /** The run a border scan reports. With no black pixel both parts stay at their
      initial 0; a run that reaches the end of the line keeps its length at 0. */
  function MarkedRun(line: seq<Pixel>): Run
  {
    var s := FirstFrom(line, 0, true);
    if s == |line| then Run(0, 0)
    else
      var e := FirstFrom(line, s, false);
      if e == |line| then Run(s, 0) else Run(s, e - s)
  }

  /** The reported run lies inside the line; a run of positive length starts at a
      black pixel and is followed by one that is not black. */
  lemma MarkedRunBounds(line: seq<Pixel>)
    ensures var run := MarkedRun(line);
      && 0 <= run.offset && 0 <= run.length && run.offset + run.length <= |line|
      && (run.length > 0 ==>
            run.offset + run.length < |line| && IsBlack(line[run.offset]) && !IsBlack(line[run.offset + run.length]))
  {
    var s := FirstFrom(line, 0, true);
    if s < |line| {
      var e := FirstFrom(line, s, false);
    }
  }

  /** A line without a black pixel reports the empty run at offset 0. */
  lemma UnmarkedLineHasNoRun(line: seq<Pixel>)
    requires forall j :: 0 <= j < |line| ==> !IsBlack(line[j])
    ensures MarkedRun(line) == Run(0, 0)
  {
    assert FirstFrom(line, 0, true) == |line|;
  }

  /** MarkedRun in terms of the pixels of the line: the offset is the first black
      pixel, the length reaches the first later pixel that is not black. */
  lemma MarkedRunCharacterised(line: seq<Pixel>)
    ensures forall s :: 0 <= s < |line| && IsBlack(line[s]) && (forall j :: 0 <= j < s ==> !IsBlack(line[j])) ==>
      && MarkedRun(line).offset == s
      && ((forall j :: s <= j < |line| ==> IsBlack(line[j])) ==> MarkedRun(line).length == 0)
      && (forall e :: s < e < |line| && !IsBlack(line[e]) && (forall j :: s <= j < e ==> IsBlack(line[j])) ==>
            MarkedRun(line).length == e - s)
  {
    var s0 := FirstFrom(line, 0, true);
    if s0 < |line| {
      var e0 := FirstFrom(line, s0, false);
      assert MarkedRun(line).offset == s0;
    }
  }

  /** One border scan of calculatePatches: a left-to-right pass with a `started` flag
      that records the first black pixel and stops at the first later non-black one. */
  method ScanRun(line: seq<Pixel>) returns (run: Run)
    ensures run == MarkedRun(line)
  {
    var offset, length := 0, 0;
    var started := false;
    var i := 0;
    while i < |line|
      invariant 0 <= i <= |line|
      invariant length == 0
      invariant !started ==> offset == 0 && FirstFrom(line, 0, true) >= i
      invariant started ==> offset == FirstFrom(line, 0, true) < i && FirstFrom(line, offset, false) >= i
    {
      if !started && IsBlack(line[i]) {
        started := true;
        offset := i;
      } else if started && !IsBlack(line[i]) {
        length := i - offset;
        break;
      }
      i := i + 1;
    }
    run := Run(offset, length);
  }

  /** The rectangle a pair of scans describes, shifted by -1 into the coordinates of
      the bitmap without its border. The shift is applied whether or not a run was found. */
  function Shifted(horizontal: Run, vertical: Run): Rect
  {
    Rect(horizontal.offset - 1, vertical.offset - 1, horizontal.length, vertical.length)
  }

  /** calculatePatches: the stretch rectangle from the top row and the left column,
      the pad rectangle from the bottom row and the right column. */
  method CalculatePatches(raw: array2<Pixel>) returns (stretch: Rect, pad: Rect)
    requires raw.Length0 >= 1 && raw.Length1 >= 1
    ensures stretch == Shifted(MarkedRun(Row(raw, 0)), MarkedRun(Column(raw, 0)))
    ensures pad == Shifted(MarkedRun(Row(raw, raw.Length1 - 1)), MarkedRun(Column(raw, raw.Length0 - 1)))
  {
    var top := ScanRun(Row(raw, 0));
    var bottom := ScanRun(Row(raw, raw.Length1 - 1));
    var left := ScanRun(Column(raw, 0));
    var right := ScanRun(Column(raw, raw.Length0 - 1));
    stretch := Rect(top.offset, left.offset, top.length, left.length);
    pad := Rect(bottom.offset, right.offset, bottom.length, right.length);
    // offsets into interior coordinates: the frame column and row are dropped
    stretch := stretch.(x := stretch.x - 1, y := stretch.y - 1);
    pad := pad.(x := pad.x - 1, y := pad.y - 1);
  }

  /** A border line whose first pixel (a corner) is unmarked and whose black run ends
      before the far end of the line. */
  predicate WellMarked(line: seq<Pixel>)
  {
    var s := FirstFrom(line, 0, true);
    1 <= s < |line| && FirstFrom(line, s, false) < |line|
  }

  /** The insets along one axis, as getPadding computes them from the run shifted by
      -1: the leading inset is the shifted offset, the trailing one what remains of the
      interior (the line without its two corner pixels). */
  function Insets(line: seq<Pixel>): (int, int)
    requires |line| >= 2
  {
    var run := MarkedRun(line);
    (run.offset - 1, (|line| - 2) - run.length - (run.offset - 1))
  }

  /** For a well-marked border line the insets are the unmarked margins around the run:
      both are non-negative, the border pixels over the interior columns (rows) between
      them are black, those over the leading margin are not, and neither is the first
      one over the trailing margin. */
  lemma InsetsFrameMarkedRun(line: seq<Pixel>)
    requires |line| >= 2 && WellMarked(line)
    ensures var (lead, trail) := Insets(line);
      && 0 <= lead && 0 <= trail && lead + trail <= |line| - 2
      && (forall j :: 1 <= j < lead + 1 ==> !IsBlack(line[j]))
      && (forall j :: lead + 1 <= j < |line| - 1 - trail ==> IsBlack(line[j]))
      && (trail > 0 ==> !IsBlack(line[|line| - 1 - trail]))
  {
    var s := FirstFrom(line, 0, true);
    var e := FirstFrom(line, s, false);
    assert MarkedRun(line) == Run(s, e - s);
  }

  /** An edge with no black pixel yields a leading inset of -1, not 0. */
  lemma UnmarkedLineGivesNegativeInset(line: seq<Pixel>)
    requires |line| >= 2
    requires forall j :: 0 <= j < |line| ==> !IsBlack(line[j])
    ensures Insets(line).0 == -1 && Insets(line).1 == |line| - 1
  {
    UnmarkedLineHasNoRun(line);
  }
}
