/** The region search and negative of InvertSteganography: a binary
    near-white mask, its integral image (summed-area table) with a zero
    border, a sliding fixed-size window scored by inclusion-exclusion that
    keeps the first strictly best corner, the overlay decision, and the
    per-pixel negative. Grids are indexed [x][y] like Java's
    `int[width][height]`. */
module InvertSteganography {
  import opened Pixels

  /** regionWidth, regionHeight, whiteThreshold and minWhiteArea. */
  const REGION_WIDTH: nat := 200
  const REGION_HEIGHT: nat := 50
  const WHITE_THRESHOLD: int := 220
  const MIN_WHITE_AREA: int := 5000

  // ---------------------------------------------------------------------
  // Grids and rectangle counts

  /** A column-major grid of ints: m[x][y]. */
  type Grid = seq<seq<int>>

  predicate IsGrid(m: Grid, width: nat, height: nat)
  {
    |m| == width && forall x :: 0 <= x < width ==> |m[x]| == height
  }

  /** Every entry of the grid is 0 or 1. */
  predicate IsBinary(m: Grid)
  {
    forall x, y :: 0 <= x < |m| && 0 <= y < |m[x]| ==> m[x][y] == 0 || m[x][y] == 1
  }

  /** Sum of column x over rows [y0, y1). */
  function ColumnSum(m: Grid, x: nat, y0: nat, y1: nat): int
    requires x < |m| && y0 <= y1 <= |m[x]|
    decreases y1 - y0
  {
    if y1 == y0 then 0 else ColumnSum(m, x, y0, y1 - 1) + m[x][y1 - 1]
  }

  /** Sum of the grid over the rectangle [x0, x1) x [y0, y1). */
  function Count(m: Grid, x0: nat, x1: nat, y0: nat, y1: nat): int
    requires x0 <= x1 <= |m| && y0 <= y1
    requires forall x :: 0 <= x < |m| ==> y1 <= |m[x]|
    decreases x1 - x0
  {
    if x1 == x0 then 0 else Count(m, x0, x1 - 1, y0, y1) + ColumnSum(m, x1 - 1, y0, y1)
  }

  /** The integral image's intended entry: the sum over [0, x) x [0, y). */
  function Prefix(m: Grid, x: nat, y: nat): int
    requires x <= |m| && forall i :: 0 <= i < |m| ==> y <= |m[i]|
  {
    Count(m, 0, x, 0, y)
  }

  /** A column splits at any row in between. */
  lemma {:induction false} ColumnSplit(m: Grid, x: nat, y0: nat, y: nat, y1: nat)
    requires x < |m| && y0 <= y <= y1 <= |m[x]|
    ensures ColumnSum(m, x, y0, y1) == ColumnSum(m, x, y0, y) + ColumnSum(m, x, y, y1)
    decreases y1 - y
  {
    if y1 > y {
      ColumnSplit(m, x, y0, y, y1 - 1);
    }
  }

  /** A rectangle splits at any column in between. */
  lemma {:induction false} CountSplitX(m: Grid, x0: nat, x: nat, x1: nat, y0: nat, y1: nat)
    requires x0 <= x <= x1 <= |m| && y0 <= y1
    requires forall i :: 0 <= i < |m| ==> y1 <= |m[i]|
    ensures Count(m, x0, x1, y0, y1) == Count(m, x0, x, y0, y1) + Count(m, x, x1, y0, y1)
    decreases x1 - x
  {
    if x1 > x {
      CountSplitX(m, x0, x, x1 - 1, y0, y1);
    }
  }

  /** A rectangle splits at any row in between. */
  lemma {:induction false} CountSplitY(m: Grid, x0: nat, x1: nat, y0: nat, y: nat, y1: nat)
    requires x0 <= x1 <= |m| && y0 <= y <= y1
    requires forall i :: 0 <= i < |m| ==> y1 <= |m[i]|
    ensures Count(m, x0, x1, y0, y1) == Count(m, x0, x1, y0, y) + Count(m, x0, x1, y, y1)
    decreases x1 - x0
  {
    if x1 > x0 {
      CountSplitY(m, x0, x1 - 1, y0, y, y1);
      ColumnSplit(m, x1 - 1, y0, y, y1);
    }
  }

  /** The integral image's first row is zero. */
  lemma {:induction false} PrefixTopRow(m: Grid, x: nat)
    requires x <= |m|
    ensures Prefix(m, x, 0) == 0
  {
    if x > 0 {
      PrefixTopRow(m, x - 1);
    }
  }

  /** The recurrence the integral-image loop applies to each inner cell. */
  lemma PrefixRecurrence(m: Grid, x: nat, y: nat)
    requires 1 <= x <= |m| && 1 <= y && forall i :: 0 <= i < |m| ==> y <= |m[i]|
    ensures Prefix(m, x, y) == m[x - 1][y - 1] + Prefix(m, x - 1, y) + Prefix(m, x, y - 1) - Prefix(m, x - 1, y - 1)
  {
    assert Prefix(m, x, y) == Prefix(m, x - 1, y) + ColumnSum(m, x - 1, 0, y);
    assert Prefix(m, x, y - 1) == Prefix(m, x - 1, y - 1) + ColumnSum(m, x - 1, 0, y - 1);
  }

  /** Inclusion-exclusion: four integral-image entries give the count of
      the window [x, x2) x [y, y2). */
  lemma RectangleSum(m: Grid, x: nat, y: nat, x2: nat, y2: nat)
    requires x <= x2 <= |m| && y <= y2 && forall i :: 0 <= i < |m| ==> y2 <= |m[i]|
    ensures Prefix(m, x2, y2) - Prefix(m, x, y2) - Prefix(m, x2, y) + Prefix(m, x, y) == Count(m, x, x2, y, y2)
  {
    CountSplitX(m, 0, x, x2, 0, y2);
    CountSplitX(m, 0, x, x2, 0, y);
    CountSplitY(m, x, x2, 0, y, y2);
  }

  /** A column of a binary grid holds between 0 and its length ones. */
  lemma {:induction false} ColumnBounds(m: Grid, x: nat, y0: nat, y1: nat)
    requires IsBinary(m) && x < |m| && y0 <= y1 <= |m[x]|
    ensures 0 <= ColumnSum(m, x, y0, y1) <= y1 - y0
    decreases y1 - y0
  {
    if y1 > y0 {
      ColumnBounds(m, x, y0, y1 - 1);
    }
  }

  /** A window of a binary grid holds between 0 and its area ones. */
  lemma {:induction false} CountBounds(m: Grid, x0: nat, x1: nat, y0: nat, y1: nat)
    requires IsBinary(m) && x0 <= x1 <= |m| && y0 <= y1
    requires forall i :: 0 <= i < |m| ==> y1 <= |m[i]|
    ensures 0 <= Count(m, x0, x1, y0, y1) <= (x1 - x0) * (y1 - y0)
    decreases x1 - x0
  {
    if x1 > x0 {
      CountBounds(m, x0, x1 - 1, y0, y1);
      ColumnBounds(m, x1 - 1, y0, y1);
      assert (x1 - x0) * (y1 - y0) == (x1 - 1 - x0) * (y1 - y0) + (y1 - y0);
    }
  }

  // ---------------------------------------------------------------------
  // The white mask

  /** (r + g + b) / 3 on non-negative channels (Java's truncating division). */
  function Average(p: Pixel): (avg: int)
    ensures 0 <= avg <= 0xFF
    ensures 3 * avg <= p.r + p.g + p.b < 3 * avg + 3
  {
    (p.r + p.g + p.b) / 3
  }

  /** 1 when the pixel's average exceeds the threshold (strictly), else 0. */
  function WhiteBit(p: Pixel, threshold: int): (bit: int)
    ensures bit == 0 || bit == 1
    ensures bit == 1 <==> 3 * (threshold + 1) <= p.r + p.g + p.b
  {
    if Average(p) > threshold then 1 else 0
  }

  /** The white mask of an image as a grid. */
  function Mask(image: Image<Pixel>, threshold: int): (m: Grid)
    requires image.Valid()
    ensures IsGrid(m, image.width, image.height) && IsBinary(m)
  {
    seq(image.width, x requires 0 <= x < image.width =>
      seq(image.height, y requires 0 <= y < image.height => WhiteBit(At(image, x, y), threshold)))
  }

  /** A window's score: the number of white pixels in [x, x + rw) x [y, y + rh). */
  function Score(m: Grid, width: nat, height: nat, x: nat, y: nat, rw: nat, rh: nat): int
    requires IsGrid(m, width, height) && x + rw <= width && y + rh <= height
  {
    Count(m, x, x + rw, y, y + rh)
  }

  /** Steps 3 of main: whiteMap[x][y] is 1 exactly when pixel (x, y)'s
      average exceeds the threshold. */
  method BuildWhiteMap(image: Image<Pixel>, threshold: int) returns (whiteMap: array2<int>)
    requires image.Valid()
    ensures whiteMap.Length0 == image.width && whiteMap.Length1 == image.height
    ensures forall x, y :: 0 <= x < image.width && 0 <= y < image.height ==>
              (whiteMap[x, y] == 1 <==> Average(At(image, x, y)) > threshold)
              && (whiteMap[x, y] == 0 <==> Average(At(image, x, y)) <= threshold)
  {
    var width, height := image.width, image.height;
    whiteMap := new int[width, height];
    for y := 0 to height
      invariant forall xx, yy :: 0 <= xx < width && 0 <= yy < y ==>
                  whiteMap[xx, yy] == WhiteBit(At(image, xx, yy), threshold)
    {
      for x := 0 to width
        invariant forall xx, yy :: 0 <= xx < width && 0 <= yy < y ==>
                    whiteMap[xx, yy] == WhiteBit(At(image, xx, yy), threshold)
        invariant forall xx :: 0 <= xx < x ==> whiteMap[xx, y] == WhiteBit(At(image, xx, y), threshold)
      {
        var p := At(image, x, y);
        var avg := (p.r + p.g + p.b) / 3;
        whiteMap[x, y] := if avg > threshold then 1 else 0;
      }
    }
  }

  // ---------------------------------------------------------------------
  // The integral image

  /** Step 4 of main: a (width + 1) x (height + 1) table, zero on row 0 and
      column 0, whose entry (x, y) is the number of white pixels in
      [0, x) x [0, y). */
  method BuildIntegral(whiteMap: array2<int>, ghost m: Grid) returns (integral: array2<int>)
    requires IsGrid(m, whiteMap.Length0, whiteMap.Length1)
    requires forall x, y :: 0 <= x < whiteMap.Length0 && 0 <= y < whiteMap.Length1 ==> whiteMap[x, y] == m[x][y]
    ensures integral.Length0 == whiteMap.Length0 + 1 && integral.Length1 == whiteMap.Length1 + 1
    ensures forall x, y :: 0 <= x <= whiteMap.Length0 && 0 <= y <= whiteMap.Length1 ==>
              integral[x, y] == Prefix(m, x, y)
  {
    var width, height := whiteMap.Length0, whiteMap.Length1;
    integral := new int[width + 1, height + 1]((x, y) => 0);
    forall x | 0 <= x <= width
      ensures Prefix(m, x, 0) == 0
    {
      PrefixTopRow(m, x);
    }
    for y := 1 to height + 1
      invariant forall xx, yy :: 0 <= xx <= width && 0 <= yy <= height && (xx == 0 || yy < y) ==>
                  integral[xx, yy] == Prefix(m, xx, yy)
    {
      for x := 1 to width + 1
        invariant forall xx, yy :: 0 <= xx <= width && 0 <= yy <= height && (xx == 0 || yy < y || (yy == y && xx < x)) ==>
                    integral[xx, yy] == Prefix(m, xx, yy)
      {
        PrefixRecurrence(m, x, y);
        integral[x, y] := whiteMap[x - 1, y - 1] + integral[x - 1, y] + integral[x, y - 1] - integral[x - 1, y - 1];
      }
    }
  }

  // ---------------------------------------------------------------------
  // The best-region search

  /** Corner (x, y) comes before corner (x', y') in the search's row-major order. */
  predicate Before(x: int, y: int, x': int, y': int)
  {
    y < y' || (y == y' && x < x')
  }

  /** (cx, cy) is a window corner whose score bounds every window's score
      and exceeds the score of every window before it. */
  predicate FirstBest(m: Grid, width: nat, height: nat, rw: nat, rh: nat, cx: int, cy: int)
    requires IsGrid(m, width, height)
  {
    && 0 <= cx && cx + rw <= width && 0 <= cy && cy + rh <= height
    && (forall x: nat, y: nat :: x + rw <= width && y + rh <= height ==>
          Score(m, width, height, x, y, rw, rh) <= Score(m, width, height, cx, cy, rw, rh))
    && (forall x: nat, y: nat :: x + rw <= width && y + rh <= height && Before(x, y, cx, cy) ==>
          Score(m, width, height, x, y, rw, rh) < Score(m, width, height, cx, cy, rw, rh))
  }

  /** At most one corner is the first best, so the search's answer is
      determined by the mask alone. */
  lemma FirstBestUnique(m: Grid, width: nat, height: nat, rw: nat, rh: nat, x1: int, y1: int, x2: int, y2: int)
    requires IsGrid(m, width, height)
    requires FirstBest(m, width, height, rw, rh, x1, y1) && FirstBest(m, width, height, rw, rh, x2, y2)
    ensures x1 == x2 && y1 == y2
  {
    assert Score(m, width, height, x1, y1, rw, rh) == Score(m, width, height, x2, y2, rw, rh);
  }

  /** Step 5 of main: scan every corner with y <= height - rh (outer) and
      x <= width - rw (inner), score it from the integral image, and keep
      the first strictly best one. The result bounds every window's score,
      is (0, 0) with score 0 when no window scores above 0, and otherwise
      is a window with that score before which every window scores less. */
  method FindBestRegion(integral: array2<int>, ghost m: Grid, width: nat, height: nat, rw: nat, rh: nat)
    returns (bestX: int, bestY: int, maxWhiteArea: int)
    requires IsGrid(m, width, height)
    requires integral.Length0 == width + 1 && integral.Length1 == height + 1
    requires forall x, y :: 0 <= x <= width && 0 <= y <= height ==> integral[x, y] == Prefix(m, x, y)
    ensures maxWhiteArea >= 0
    ensures forall x: nat, y: nat :: x + rw <= width && y + rh <= height ==>
              Score(m, width, height, x, y, rw, rh) <= maxWhiteArea
    ensures maxWhiteArea == 0 ==> bestX == 0 && bestY == 0
    ensures maxWhiteArea > 0 ==>
              && FirstBest(m, width, height, rw, rh, bestX, bestY)
              && Score(m, width, height, bestX, bestY, rw, rh) == maxWhiteArea
  {
    bestX, bestY, maxWhiteArea := 0, 0, 0;
    var y := 0;
    while y <= height - rh
      invariant 0 <= y && (y <= height - rh + 1 || y == 0)
      invariant maxWhiteArea >= 0
      invariant forall xx: nat, yy: nat :: xx + rw <= width && yy + rh <= height && yy < y ==>
                  Score(m, width, height, xx, yy, rw, rh) <= maxWhiteArea
      invariant maxWhiteArea == 0 ==> bestX == 0 && bestY == 0
      invariant maxWhiteArea > 0 ==>
                  && 0 <= bestX && bestX + rw <= width && 0 <= bestY && bestY + rh <= height
                  && Score(m, width, height, bestX, bestY, rw, rh) == maxWhiteArea
                  && forall xx: nat, yy: nat :: xx + rw <= width && yy + rh <= height && Before(xx, yy, bestX, bestY) ==>
                       Score(m, width, height, xx, yy, rw, rh) < maxWhiteArea
    {
      var x := 0;
      while x <= width - rw
        invariant 0 <= x && (x <= width - rw + 1 || x == 0)
        invariant maxWhiteArea >= 0
        invariant forall xx: nat, yy: nat :: xx + rw <= width && yy + rh <= height && Before(xx, yy, x, y) ==>
                    Score(m, width, height, xx, yy, rw, rh) <= maxWhiteArea
        invariant maxWhiteArea == 0 ==> bestX == 0 && bestY == 0
        invariant maxWhiteArea > 0 ==>
                    && 0 <= bestX && bestX + rw <= width && 0 <= bestY && bestY + rh <= height
                    && Score(m, width, height, bestX, bestY, rw, rh) == maxWhiteArea
                    && forall xx: nat, yy: nat :: xx + rw <= width && yy + rh <= height && Before(xx, yy, bestX, bestY) ==>
                         Score(m, width, height, xx, yy, rw, rh) < maxWhiteArea
      {
        var x2 := x + rw;
        var y2 := y + rh;
        var whiteSum := integral[x2, y2] - integral[x, y2] - integral[x2, y] + integral[x, y];
        RectangleSum(m, x, y, x2, y2);
        assert whiteSum == Score(m, width, height, x, y, rw, rh);
        if whiteSum > maxWhiteArea {
          maxWhiteArea := whiteSum;
          bestX := x;
          bestY := y;
        }
        x := x + 1;
      }
      y := y + 1;
    }
  }

  /** Steps 3 to 6 of main with the source's constants: the corner where
      the text overlay would go, present exactly when some 200 x 50 window
      holds more than 5000 white pixels; it is then the first window of
      highest count. */
  method ChooseOverlayRegion(image: Image<Pixel>) returns (region: Option<(int, int)>)
    requires image.Valid()
    ensures var m := Mask(image, WHITE_THRESHOLD);
            region.Some? <==>
              exists x: nat, y: nat :: x + REGION_WIDTH <= image.width && y + REGION_HEIGHT <= image.height &&
                Score(m, image.width, image.height, x, y, REGION_WIDTH, REGION_HEIGHT) > MIN_WHITE_AREA
    ensures region.Some? ==>
              FirstBest(Mask(image, WHITE_THRESHOLD), image.width, image.height, REGION_WIDTH, REGION_HEIGHT,
                        region.value.0, region.value.1)
  {
    ghost var m := Mask(image, WHITE_THRESHOLD);
    var whiteMap := BuildWhiteMap(image, WHITE_THRESHOLD);
    assert forall x, y :: 0 <= x < image.width && 0 <= y < image.height ==> whiteMap[x, y] == m[x][y];
    var integral := BuildIntegral(whiteMap, m);
    var bestX, bestY, maxWhiteArea := FindBestRegion(integral, m, image.width, image.height, REGION_WIDTH, REGION_HEIGHT);
    if maxWhiteArea > MIN_WHITE_AREA {
      region := Some((bestX, bestY));
    } else {
      region := None;
    }
  }

  // ---------------------------------------------------------------------
  // The negative

  /** new Color(255 - r, 255 - g, 255 - b): each channel inverted, alpha opaque. */
  function NegativePixel(p: Pixel): (q: Pixel)
    ensures q.a == 0xFF && q.r + p.r == 0xFF && q.g + p.g == 0xFF && q.b + p.b == 0xFF
  {
    Pixel(0xFF, 0xFF - p.r, 0xFF - p.g, 0xFF - p.b)
  }

  /** The negative of every pixel, same dimensions. */
  function NegativeImage(image: Image<Pixel>): (negative: Image<Pixel>)
    requires image.Valid()
    ensures negative.width == image.width && negative.height == image.height && negative.Valid()
  {
    Image(image.width, image.height,
          seq(|image.pixels|, i requires 0 <= i < |image.pixels| => NegativePixel(image.pixels[i])))
  }

  /** Step 8 of main: write the negative of each pixel into a new image,
      row by row. */
  method Negative(image: Image<Pixel>) returns (negative: Image<Pixel>)
    requires image.Valid()
    ensures negative == NegativeImage(image)
  {
    var width, height := image.width, image.height;
    var pixels := new Pixel[width * height];
    for y := 0 to height
      invariant y * width <= pixels.Length
      invariant forall j :: 0 <= j < y * width ==> pixels[j] == NegativePixel(image.pixels[j])
    {
      var row := y * width;
      RowsFit(y + 1, width, height);
      assert row + width == (y + 1) * width;
      for x := 0 to width
        invariant forall j :: 0 <= j < row + x ==> pixels[j] == NegativePixel(image.pixels[j])
      {
        RowMajorInRange(x, y, width, height);
        var p := image.pixels[row + x];
        var r := 0xFF - p.r;
        var g := 0xFF - p.g;
        var b := 0xFF - p.b;
        pixels[row + x] := Pixel(0xFF, r, g, b);
      }
    }
    assert height * width == width * height;
    negative := Image(width, height, pixels[..]);
  }

  /** Taking the negative twice restores every colour channel and leaves the
      image opaque. */
  lemma NegativeTwice(image: Image<Pixel>)
    requires image.Valid()
    ensures var twice := NegativeImage(NegativeImage(image));
            && twice.width == image.width && twice.height == image.height
            && forall i :: 0 <= i < |image.pixels| ==>
                 twice.pixels[i] == image.pixels[i].(a := 0xFF)
  {
  }
}
