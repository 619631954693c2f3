/** The per-pixel decision of `get_master_map` (nsi_grids.py) and the tallies it keeps: a
    pixel is sea when K holds its no-data value, non-arable when the arable mask is below
    50, and otherwise falls in one of four mineral categories by strict comparison of P and
    K with their minimums. */
module Composite {
  import opened Wrappers
  import opened LandUse

  /** The colour chosen for a pixel. The last four are the ones with counters. */
  datatype Category = Transparent | DarkGreen | OkBoth | LowKOnly | LowPOnly | LowBoth

  /** The categories that increment a counter. */
  predicate Counted(c: Category)
  {
    c.OkBoth? || c.LowKOnly? || c.LowPOnly? || c.LowBoth?
  }

  /** The mask value from which a pixel counts as arable. */
  const MaskThreshold: int := 50

  /** K's no-data value and the two minimums the decision compares against. */
  datatype Thresholds = Thresholds(kNodata: real, minK: real, minP: real)

  /** The decision for one pixel, given K and P at `[col,row]` and the mask at `[row,col]`. */
  function Classify(k: real, arable: int, p: real, t: Thresholds): (c: Category)
    ensures c == Transparent <==> k == t.kNodata
    ensures Counted(c) <==> k != t.kNodata && arable >= MaskThreshold
  {
    if k == t.kNodata then Transparent
    else if arable < MaskThreshold then DarkGreen
    else
      var pOk, kOk := p > t.minP, k > t.minK;
      if pOk && kOk then OkBoth
      else if !pOk && !kOk then LowBoth
      else if pOk then LowKOnly
      else LowPOnly
  }

  /** Sea exactly when K is its no-data value; non-arable exactly when K has data and the mask
      is below 50; otherwise exactly one counted category, the one named by which of
      `p > min_p` and `k > min_k` hold. */
  lemma ClassifyCases(k: real, arable: int, p: real, t: Thresholds)
    ensures Classify(k, arable, p, t) == Transparent <==> k == t.kNodata
    ensures Classify(k, arable, p, t) == DarkGreen <==> k != t.kNodata && arable < MaskThreshold
    ensures Counted(Classify(k, arable, p, t)) <==> k != t.kNodata && arable >= MaskThreshold
    ensures Classify(k, arable, p, t) == OkBoth <==> k != t.kNodata && arable >= MaskThreshold && p > t.minP && k > t.minK
    ensures Classify(k, arable, p, t) == LowKOnly <==> k != t.kNodata && arable >= MaskThreshold && p > t.minP && k <= t.minK
    ensures Classify(k, arable, p, t) == LowPOnly <==> k != t.kNodata && arable >= MaskThreshold && p <= t.minP && k > t.minK
    ensures Classify(k, arable, p, t) == LowBoth <==> k != t.kNodata && arable >= MaskThreshold && p <= t.minP && k <= t.minK
  {
  }

  /** A value equal to its minimum is not ok: an arable land pixel with `k == min_k` is low in
      K, and one with `p == min_p` is low in P. */
  lemma ThresholdIsLow(k: real, arable: int, p: real, t: Thresholds)
    requires k != t.kNodata && arable >= MaskThreshold
    ensures k == t.minK ==> Classify(k, arable, p, t) in {LowKOnly, LowBoth}
    ensures p == t.minP ==> Classify(k, arable, p, t) in {LowPOnly, LowBoth}
  {
  }

  /** On the masks `get_land_use_map` builds, the decision for a land pixel is arable exactly
      when its land-use pixel was classed arable. */
  lemma ClassifyOnMask(k: real, pixelClass: int, p: real, t: Thresholds)
    requires k != t.kNodata
    ensures Counted(Classify(k, MaskValue(pixelClass), p, t)) <==> pixelClass == Arable
  {
    MaskArableIff(pixelClass);
  }

  /** The counter names, in the order the `CounterSet` is built with. */
  const CounterNames: seq<string> := ["OK BOTH", "LOW K ONLY", "LOW P ONLY", "LOW BOTH"]

  /** The counter a counted category increments. */
  function CounterName(c: Category): (name: string)
    requires Counted(c)
    ensures name in CounterNames && CategoryOfName(name) == Some(c)
  {
    match c
    case OkBoth => "OK BOTH"
    case LowKOnly => "LOW K ONLY"
    case LowPOnly => "LOW P ONLY"
    case LowBoth => "LOW BOTH"
  }

  /** The category a counter name stands for. */
  function CategoryOfName(name: string): Option<Category>
  {
    if name == "OK BOTH" then Some(OkBoth)
    else if name == "LOW K ONLY" then Some(LowKOnly)
    else if name == "LOW P ONLY" then Some(LowPOnly)
    else if name == "LOW BOTH" then Some(LowBoth)
    else None
  }

  /** Counter names and counted categories correspond one to one. */
  lemma CounterNameRoundTrip(name: string)
    ensures name in CounterNames <==> CategoryOfName(name).Some?
    ensures CategoryOfName(name).Some? ==> Counted(CategoryOfName(name).value) && CounterName(CategoryOfName(name).value) == name
  {
  }

  /** The `colors` table: the colour of each counter's category. */
  const Colours: map<string, (int, int, int, int)> :=
    map["OK BOTH" := (50, 255, 50, 255), "LOW K ONLY" := (130, 80, 0, 255),
        "LOW P ONLY" := (0, 120, 100, 255), "LOW BOTH" := (255, 0, 0, 255)]

  /** The RGBA colour painted for a category: the `colors` entry of its counter for the
      counted ones; every pixel with K data is opaque. */
  function Colour(c: Category): (rgba: (int, int, int, int))
    ensures Counted(c) ==> CounterName(c) in Colours && rgba == Colours[CounterName(c)]
    ensures c != Transparent ==> rgba.3 == 255
  {
    match c
    case Transparent => (0, 0, 0, 0)
    case DarkGreen => (0, 7, 0, 255)
    case OkBoth => (50, 255, 50, 255)
    case LowKOnly => (130, 80, 0, 255)
    case LowPOnly => (0, 120, 100, 255)
    case LowBoth => (255, 0, 0, 255)
  }

  /** The category a painted colour stands for. */
  function CategoryOfColour(rgba: (int, int, int, int)): Option<Category>
  {
    if rgba == (0, 0, 0, 0) then Some(Transparent)
    else if rgba == (0, 7, 0, 255) then Some(DarkGreen)
    else if rgba == (50, 255, 50, 255) then Some(OkBoth)
    else if rgba == (130, 80, 0, 255) then Some(LowKOnly)
    else if rgba == (0, 120, 100, 255) then Some(LowPOnly)
    else if rgba == (255, 0, 0, 255) then Some(LowBoth)
    else None
  }

  /** The six colours are distinct, so the painted image determines every pixel's category. */
  lemma ColourRoundTrip(c: Category)
    ensures CategoryOfColour(Colour(c)) == Some(c)
  {
  }

  /** The three rasters are large enough for a `width` x `height` region: K and P are indexed
      `[col,row]` and the mask `[row,col]`. */
  predicate Covers(kData: array2<real>, pData: array2<real>, mask: array2<Byte>, width: nat, height: nat)
  {
    && width <= kData.Length0 && height <= kData.Length1
    && width <= pData.Length0 && height <= pData.Length1
    && height <= mask.Length0 && width <= mask.Length1
  }

  /** The category of pixel (col, row). */
  function CellCategory(kData: array2<real>, pData: array2<real>, mask: array2<Byte>, t: Thresholds, row: nat, col: nat): Category
    reads kData, pData, mask
    requires Covers(kData, pData, mask, col + 1, row + 1)
  {
    Classify(kData[col, row], mask[row, col], pData[col, row], t)
  }

  /** The number of pixels of category `c` among the first `cols` of row `row`. */
  function RowCount(kData: array2<real>, pData: array2<real>, mask: array2<Byte>, t: Thresholds, row: nat, cols: nat, c: Category): nat
    reads kData, pData, mask
    requires Covers(kData, pData, mask, cols, row + 1)
    decreases cols
  {
    if cols == 0 then 0
    else RowCount(kData, pData, mask, t, row, cols - 1, c) + (if CellCategory(kData, pData, mask, t, row, cols - 1) == c then 1 else 0)
  }

  /** The number of pixels of category `c` in the first `rows` rows of a `width`-wide region. */
  function RegionCount(kData: array2<real>, pData: array2<real>, mask: array2<Byte>, t: Thresholds, width: nat, rows: nat, c: Category): nat
    reads kData, pData, mask
    requires Covers(kData, pData, mask, width, rows)
    decreases rows
  {
    if rows == 0 then 0
    else RegionCount(kData, pData, mask, t, width, rows - 1, c) + RowCount(kData, pData, mask, t, rows - 1, width, c)
  }

  /** A pixel that reaches the four-way split: K has data and the mask is at least 50. */
  predicate ArableLand(kData: array2<real>, pData: array2<real>, mask: array2<Byte>, t: Thresholds, row: nat, col: nat)
    reads kData, pData, mask
    requires Covers(kData, pData, mask, col + 1, row + 1)
  {
    kData[col, row] != t.kNodata && mask[row, col] >= MaskThreshold
  }

  /** The number of arable land pixels among the first `cols` of row `row`. */
  function RowArable(kData: array2<real>, pData: array2<real>, mask: array2<Byte>, t: Thresholds, row: nat, cols: nat): nat
    reads kData, pData, mask
    requires Covers(kData, pData, mask, cols, row + 1)
    decreases cols
  {
    if cols == 0 then 0
    else RowArable(kData, pData, mask, t, row, cols - 1) + (if ArableLand(kData, pData, mask, t, row, cols - 1) then 1 else 0)
  }

  /** The number of arable land pixels in the first `rows` rows of a `width`-wide region. */
  function RegionArable(kData: array2<real>, pData: array2<real>, mask: array2<Byte>, t: Thresholds, width: nat, rows: nat): nat
    reads kData, pData, mask
    requires Covers(kData, pData, mask, width, rows)
    decreases rows
  {
    if rows == 0 then 0
    else RegionArable(kData, pData, mask, t, width, rows - 1) + RowArable(kData, pData, mask, t, rows - 1, width)
  }


  /** Along a row, the four counted categories together are exactly the arable land pixels. */
  lemma {:induction false} RowCountsPartitionArable(kData: array2<real>, pData: array2<real>, mask: array2<Byte>, t: Thresholds, row: nat, cols: nat)
    requires Covers(kData, pData, mask, cols, row + 1)
    ensures RowCount(kData, pData, mask, t, row, cols, OkBoth) + RowCount(kData, pData, mask, t, row, cols, LowKOnly) +
            RowCount(kData, pData, mask, t, row, cols, LowPOnly) + RowCount(kData, pData, mask, t, row, cols, LowBoth)
            == RowArable(kData, pData, mask, t, row, cols)
    decreases cols
  {
    if cols > 0 {
      RowCountsPartitionArable(kData, pData, mask, t, row, cols - 1);
      var col := cols - 1;
      ClassifyCases(kData[col, row], mask[row, col], pData[col, row], t);
    }
  }

  /** Over the region, the four counted categories together are exactly the arable land
      pixels: the final total of the counter set. */
  lemma {:induction false} RegionCountsPartitionArable(kData: array2<real>, pData: array2<real>, mask: array2<Byte>, t: Thresholds, width: nat, rows: nat)
    requires Covers(kData, pData, mask, width, rows)
    ensures RegionCount(kData, pData, mask, t, width, rows, OkBoth) + RegionCount(kData, pData, mask, t, width, rows, LowKOnly) +
            RegionCount(kData, pData, mask, t, width, rows, LowPOnly) + RegionCount(kData, pData, mask, t, width, rows, LowBoth)
            == RegionArable(kData, pData, mask, t, width, rows)
    decreases rows
  {
    if rows > 0 {
      RegionCountsPartitionArable(kData, pData, mask, t, width, rows - 1);
      RowCountsPartitionArable(kData, pData, mask, t, rows - 1, width);
    }
  }

  /** The number of pixels of category `c` in a painted line. */
  function LineCount(line: seq<Category>, c: Category): nat
  {
    if line == [] then 0
    else LineCount(line[..|line| - 1], c) + (if line[|line| - 1] == c then 1 else 0)
  }

  /** The number of pixels of category `c` in a painted image. */
  function ImageCount(image: seq<seq<Category>>, c: Category): nat
  {
    if image == [] then 0
    else ImageCount(image[..|image| - 1], c) + LineCount(image[|image| - 1], c)
  }

  /** The number of counted pixels in a painted line. */
  function LineCounted(line: seq<Category>): nat
  {
    if line == [] then 0
    else LineCounted(line[..|line| - 1]) + (if Counted(line[|line| - 1]) then 1 else 0)
  }

  /** The number of counted pixels in a painted image. */
  function ImageCounted(image: seq<seq<Category>>): nat
  {
    if image == [] then 0
    else ImageCounted(image[..|image| - 1]) + LineCounted(image[|image| - 1])
  }

  /** `line` holds the categories of the first `cols` pixels of row `row`. */
  ghost predicate RowPainted(line: seq<Category>, kData: array2<real>, pData: array2<real>, mask: array2<Byte>,
                             t: Thresholds, row: nat, cols: nat)
    reads kData, pData, mask
    requires Covers(kData, pData, mask, cols, row + 1)
  {
    |line| == cols && forall col :: 0 <= col < cols ==> line[col] == CellCategory(kData, pData, mask, t, row, col)
  }

  /** `image` holds the categories of the first `rows` rows of a `width`-wide region,
      `image[row][col]` being the category of pixel (col, row). */
  ghost predicate Painted(image: seq<seq<Category>>, kData: array2<real>, pData: array2<real>, mask: array2<Byte>,
                          t: Thresholds, width: nat, rows: nat)
    reads kData, pData, mask
    requires Covers(kData, pData, mask, width, rows)
  {
    |image| == rows && forall row :: 0 <= row < rows ==> RowPainted(image[row], kData, pData, mask, t, row, width)
  }

  /** Painting pixel `col` extends the painted part of the row. */
  lemma RowPaintedStep(line: seq<Category>, category: Category, kData: array2<real>, pData: array2<real>, mask: array2<Byte>,
                       t: Thresholds, row: nat, col: nat)
    requires Covers(kData, pData, mask, col + 1, row + 1)
    requires RowPainted(line, kData, pData, mask, t, row, col)
    requires category == CellCategory(kData, pData, mask, t, row, col)
    ensures RowPainted(line + [category], kData, pData, mask, t, row, col + 1)
  {
  }

  /** Appending a painted row paints one more row of the image. */
  lemma PaintedStep(image: seq<seq<Category>>, line: seq<Category>, kData: array2<real>, pData: array2<real>, mask: array2<Byte>,
                    t: Thresholds, width: nat, row: nat)
    requires Covers(kData, pData, mask, width, row + 1)
    requires Painted(image, kData, pData, mask, t, width, row)
    requires RowPainted(line, kData, pData, mask, t, row, width)
    ensures Painted(image + [line], kData, pData, mask, t, width, row + 1)
  {
  }

  /** A painted row has the pixel counts of its row of the rasters. */
  lemma {:induction false} RowPaintedCounts(line: seq<Category>, kData: array2<real>, pData: array2<real>, mask: array2<Byte>,
                                            t: Thresholds, row: nat, cols: nat)
    requires Covers(kData, pData, mask, cols, row + 1)
    requires RowPainted(line, kData, pData, mask, t, row, cols)
    ensures forall c :: LineCount(line, c) == RowCount(kData, pData, mask, t, row, cols, c)
    ensures LineCounted(line) == RowArable(kData, pData, mask, t, row, cols)
    decreases cols
  {
    if cols > 0 {
      var col := cols - 1;
      RowPaintedCounts(line[..col], kData, pData, mask, t, row, col);
      ClassifyCases(kData[col, row], mask[row, col], pData[col, row], t);
    }
  }

  /** A painted image has the pixel counts of its region of the rasters. */
  lemma {:induction false} PaintedCounts(image: seq<seq<Category>>, kData: array2<real>, pData: array2<real>, mask: array2<Byte>,
                                         t: Thresholds, width: nat, rows: nat)
    requires Covers(kData, pData, mask, width, rows)
    requires Painted(image, kData, pData, mask, t, width, rows)
    ensures forall c :: ImageCount(image, c) == RegionCount(kData, pData, mask, t, width, rows, c)
    ensures ImageCounted(image) == RegionArable(kData, pData, mask, t, width, rows)
    decreases rows
  {
    if rows > 0 {
      PaintedCounts(image[..rows - 1], kData, pData, mask, t, width, rows - 1);
      RowPaintedCounts(image[rows - 1], kData, pData, mask, t, rows - 1, width);
    }
  }
}
