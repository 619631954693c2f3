/** The two classes of nsi_grids.py: `MaterialMap`, one mineral grid read from its text file,
    and `MapSets`, the mineral maps together with the arable mask derived from the land-use
    image, from which the composite mineral-sufficiency map is drawn. */
module NsiGrids {
  import opened Wrappers
  import opened GridHeader
  import opened GridMatrix
  import opened Percentile
  import opened LandUse
  import opened Composite
  import opened StatsCounters

  /** The exceptions that abort `calc_distribution_get_tenpercentile` and `get_master_map`:
      `np.histogram` refusing the range of grid `code` (ValueError), and `finish_all`
      dividing by a zero total when the counters are printed (ZeroDivisionError). */
  datatype MapError = HistogramRange(code: string) | CounterZeroDivision

  /** What `get_master_map` returns when it completes: the category painted at every pixel,
      the counters, and the table `str(counters)` drawn as the key. */
  datatype MasterMapOutput = MasterMapOutput(image: seq<seq<Category>>, counters: CounterSet, table: seq<Line>)

  /** The number of cells strictly above `nodata` among the first `cols` of row `row`. */
  function LandInRow(ds: array2<real>, nodata: real, row: nat, cols: nat): nat
    reads ds
    requires row < ds.Length1 && cols <= ds.Length0
    decreases cols
  {
    if cols == 0 then 0
    else LandInRow(ds, nodata, row, cols - 1) + (if ds[cols - 1, row] > nodata then 1 else 0)
  }

  /** The number of cells strictly above `nodata` in the first `rows` rows, `width` columns
      each. */
  function LandInRegion(ds: array2<real>, nodata: real, width: nat, rows: nat): nat
    reads ds
    requires width <= ds.Length0 && rows <= ds.Length1
    decreases rows
  {
    if rows == 0 then 0
    else LandInRegion(ds, nodata, width, rows - 1) + LandInRow(ds, nodata, rows - 1, width)
  }

  /** A row's land count is at most its length, and 0 exactly when no cell is above NODATA. */
  lemma {:induction false} LandInRowBounds(ds: array2<real>, nodata: real, row: nat, cols: nat)
    requires row < ds.Length1 && cols <= ds.Length0
    ensures LandInRow(ds, nodata, row, cols) <= cols
    ensures LandInRow(ds, nodata, row, cols) == 0 <==> forall col :: 0 <= col < cols ==> ds[col, row] <= nodata
    decreases cols
  {
    if cols > 0 {
      LandInRowBounds(ds, nodata, row, cols - 1);
    }
  }

  /** The land count is at most the number of cells, and 0 exactly when no cell of the
      region is above NODATA. */
  lemma {:induction false} LandInRegionBounds(ds: array2<real>, nodata: real, width: nat, rows: nat)
    requires width <= ds.Length0 && rows <= ds.Length1
    ensures LandInRegion(ds, nodata, width, rows) <= width * rows
    ensures LandInRegion(ds, nodata, width, rows) == 0 <==>
              forall col, row :: 0 <= col < width && 0 <= row < rows ==> ds[col, row] <= nodata
    decreases rows
  {
    if rows > 0 {
      LandInRegionBounds(ds, nodata, width, rows - 1);
      LandInRowBounds(ds, nodata, rows - 1, width);
      assert width * (rows - 1) + width == width * rows;
    }
  }

  /** One mineral grid. `dataset` is indexed `[col, row]`; the header values are kept as the
      floats they were parsed to. */
  class MaterialMap {
    const materialCode: string
    const dataset: array2<real>
    const ncols: real
    const nrows: real
    const xllcorner: real
    const yllcorner: real
    const cellsize: real
    const nodataValue: real
    const minValue: real
    const maxValue: real

    /** The array has the shape `(int(ncols), int(nrows))` it was created with. */
    predicate Valid()
    {
      dataset.Length0 == Trunc(ncols) && dataset.Length1 == Trunc(nrows)
    }

    /** `cls(material_code, dataset, **paramvals)` with the bounds added to `paramvals`. */
    constructor(code: string, data: array2<real>, header: map<string, real>, lo: real, hi: real)
      requires forall n :: n in ParamNames ==> n in header
      ensures materialCode == code && dataset == data
      ensures ncols == header["ncols"] && nrows == header["nrows"]
      ensures xllcorner == header["xllcorner"] && yllcorner == header["yllcorner"]
      ensures cellsize == header["cellsize"] && nodataValue == header["NODATA_value"]
      ensures minValue == lo && maxValue == hi
    {
      materialCode := code;
      dataset := data;
      ncols := header["ncols"];
      nrows := header["nrows"];
      xllcorner := header["xllcorner"];
      yllcorner := header["yllcorner"];
      cellsize := header["cellsize"];
      nodataValue := header["NODATA_value"];
      minValue := lo;
      maxValue := hi;
    }

    /** This map is what reading a grid with header `header` and data rows `rows` gives:
        the header values, the bounds over the values above NODATA, and every parsed token at
        its `[col, row]`, other cells keeping their initial `fill`. */
    ghost predicate LoadedFrom(code: string, header: map<string, real>, rows: seq<seq<string>>, parse: ParseFloat, fill: (int, int) -> real)
      reads dataset
      requires forall n :: n in ParamNames ==> n in header
    {
      && Valid() && materialCode == code
      && ncols == header["ncols"] && nrows == header["nrows"]
      && xllcorner == header["xllcorner"] && yllcorner == header["yllcorner"]
      && cellsize == header["cellsize"] && nodataValue == header["NODATA_value"]
      && |rows| == dataset.Length1
      && minValue == Lo(rows, parse, nodataValue) && maxValue == Hi(rows, parse, nodataValue)
      && forall col, row :: 0 <= col < dataset.Length0 && 0 <= row < dataset.Length1 ==>
           dataset[col, row] == TokenValue(rows[row], parse, col, fill(col, row))
    }

    /** The data part of `from_source_file`, once the header has been read: the array of
        shape `(int(ncols), int(nrows))` is created and the rows are read into it. */
    static method LoadMatrix(code: string, lines: seq<string>, parse: ParseFloat, fill: (int, int) -> real, header: map<string, real>)
      returns (r: Result<MaterialMap, ParseError>)
      requires forall n :: n in ParamNames ==> n in header
      ensures var width, height := Trunc(header["ncols"]), Trunc(header["nrows"]);
              && (width < 0 || height < 0 ==> r == Err(NegativeDimension))
              && (width >= 0 && height >= 0 ==>
                    var rows := MatrixTokens(lines, height);
                    && (r.Err? <==> Overflows(rows, parse, width))
                    && (r.Err? ==> r.error.IndexError? && FirstOverflow(rows, parse, width, r.error.row, r.error.col))
                    && (r.Ok? ==> fresh(r.value) && fresh(r.value.dataset) && r.value.LoadedFrom(code, header, rows, parse, fill)))
    {
      var width, height := Trunc(header["ncols"]), Trunc(header["nrows"]);
      if width < 0 || height < 0 {
        return Err(NegativeDimension);
      }
      var dataset := new real[width, height]((c, rw) => fill(c, rw));
      ghost var rows := MatrixTokens(lines, height);
      assert forall c, rw :: 0 <= c < width && 0 <= rw < height ==> dataset[c, rw] == fill(c, rw);
      var bounds := ReadMatrix(dataset, lines, parse, header["NODATA_value"]);
      if bounds.Err? {
        return Err(bounds.error);
      }
      var m := new MaterialMap(code, dataset, header, bounds.value.0, bounds.value.1);
      return Ok(m);
    }

    /** `from_source_file`, over the lines the file's `readline()` calls return (each with its
        line terminator). `parse` is `float()` and `fill` the unspecified contents of
        `np.empty`, which cells whose token does not parse keep. */
    static method FromSourceLines(code: string, lines: seq<string>, parse: ParseFloat, fill: (int, int) -> real)
      returns (r: Result<MaterialMap, ParseError>)
      ensures ParseHeader(lines, parse).Err? ==> r == Err(ParseHeader(lines, parse).error)
      ensures ParseHeader(lines, parse).Ok? ==>
                var header := ParseHeader(lines, parse).value;
                var width, height := Trunc(header["ncols"]), Trunc(header["nrows"]);
                && (width < 0 || height < 0 ==> r == Err(NegativeDimension))
                && (width >= 0 && height >= 0 ==>
                      var rows := MatrixTokens(lines, height);
                      && (r.Err? <==> Overflows(rows, parse, width))
                      && (r.Err? ==> r.error.IndexError? && FirstOverflow(rows, parse, width, r.error.row, r.error.col))
                      && (r.Ok? ==> fresh(r.value) && fresh(r.value.dataset) && r.value.LoadedFrom(code, header, rows, parse, fill)))
    {
      var header := ReadHeader(lines, parse);
      if header.Err? {
        return Err(header.error);
      }
      r := LoadMatrix(code, lines, parse, fill, header.value);
    }

    /** The `count_land` loop: the cells strictly above NODATA, visited row by row. */
    method LandCount() returns (countLand: nat)
      requires Valid()
      ensures countLand == LandInRegion(dataset, nodataValue, dataset.Length0, dataset.Length1)
    {
      countLand := 0;
      var row := 0;
      while row < Trunc(nrows)
        invariant 0 <= row <= dataset.Length1
        invariant countLand == LandInRegion(dataset, nodataValue, dataset.Length0, row)
      {
        var col := 0;
        while col < Trunc(ncols)
          invariant 0 <= col <= dataset.Length0
          invariant countLand == LandInRegion(dataset, nodataValue, dataset.Length0, row) + LandInRow(dataset, nodataValue, row, col)
        {
          if dataset[col, row] > nodataValue {
            countLand := countLand + 1;
          }
          col := col + 1;
        }
        row := row + 1;
      }
    }

    /** `np.histogram(..., range=[min_value, max_value])` accepts the range only when its lower
        edge is not above its upper one. */
    predicate HistogramRangeValid()
    {
      minValue <= maxValue
    }

    /** `calc_distribution_get_tenpercentile`: `np.histogram` raises ValueError on a reversed
        range; otherwise `frequency` and `bins` are what it returned, and the result is the
        first bin edge at which the running sum from the second bin on exceeds `percentile`
        percent of the land cells. */
    method CalcDistributionGetTenpercentile(frequency: seq<int>, bins: seq<real>, percentile: real)
      returns (r: Result<Option<real>, MapError>)
      requires Valid()
      ensures r.Err? <==> !HistogramRangeValid()
      ensures r.Err? ==> r.error == HistogramRange(materialCode)
      ensures r.Ok? ==> r.value == WalkResult(frequency, bins, Target(LandInRegion(dataset, nodataValue, dataset.Length0, dataset.Length1), percentile))
    {
      if minValue > maxValue {
        return Err(HistogramRange(materialCode));
      }
      var countLand := LandCount();
      var tenpercent := Target(countLand, percentile);
      var b := Walk(frequency, bins, tenpercent);
      r := Ok(b);
    }
  }

  /** A grid as read from its file has a valid histogram range exactly when some cell parsed
      to a value above NODATA: otherwise the bounds keep their sentinels, which are reversed. */
  lemma HistogramFailsIffNoLand(m: MaterialMap, code: string, header: map<string, real>, rows: seq<seq<string>>,
                                parse: ParseFloat, fill: (int, int) -> real)
    requires forall n :: n in ParamNames ==> n in header
    requires m.LoadedFrom(code, header, rows, parse, fill)
    ensures !m.HistogramRangeValid() <==>
              forall row: nat, col: nat :: CellAt(rows, parse, row, col).Some? ==> CellAt(rows, parse, row, col).value <= m.nodataValue
  {
    BoundsOrdered(rows, parse, m.nodataValue);
  }

  /** The mineral maps by code and the arable mask (`arable_map`, indexed `[row, col]`). */
  class MapSets {
    var mineralMaps: map<string, MaterialMap>
    var arableMap: array2<Byte>

    /** A map set holding the given mineral maps; the mask is empty until `GetLandUseMap`. */
    constructor(maps: map<string, MaterialMap>)
      ensures mineralMaps == maps
      ensures fresh(arableMap) && arableMap.Length0 == 0 && arableMap.Length1 == 0
    {
      mineralMaps := maps;
      arableMap := new Byte[0, 0];
    }

    /** The pixel loop of `get_land_use_map`, over the pixels of the land-use image
        (`raw_pixels[y, x]`): every mask cell becomes 255 for an arable pixel and 20 for any
        other, and every pixel is recoloured by its class, in place. */
    method GetLandUseMap(rawPixels: array2<Pixel>)
      modifies this, rawPixels
      ensures mineralMaps == old(mineralMaps)
      ensures fresh(arableMap)
      ensures arableMap.Length0 == rawPixels.Length0 && arableMap.Length1 == rawPixels.Length1
      ensures forall y, x :: 0 <= y < rawPixels.Length0 && 0 <= x < rawPixels.Length1 ==>
                arableMap[y, x] == MaskValue(PixelClass(old(rawPixels[y, x]))) &&
                rawPixels[y, x] == ArablePixelEnhance(old(rawPixels[y, x]), PixelClass(old(rawPixels[y, x])))
    {
      var w, h := rawPixels.Length0, rawPixels.Length1;
      var arable := new Byte[w, h];
      var y := 0;
      while y < w
        invariant 0 <= y <= w
        invariant mineralMaps == old(mineralMaps)
        invariant forall yy, x :: 0 <= yy < w && 0 <= x < h ==>
                    if yy < y then arable[yy, x] == MaskValue(PixelClass(old(rawPixels[yy, x]))) &&
                                   rawPixels[yy, x] == ArablePixelEnhance(old(rawPixels[yy, x]), PixelClass(old(rawPixels[yy, x])))
                    else rawPixels[yy, x] == old(rawPixels[yy, x])
      {
        var x := 0;
        while x < h
          invariant 0 <= x <= h
          invariant mineralMaps == old(mineralMaps)
          invariant forall yy, xx :: 0 <= yy < w && 0 <= xx < h ==>
                      if yy < y || (yy == y && xx < x) then
                        arable[yy, xx] == MaskValue(PixelClass(old(rawPixels[yy, xx]))) &&
                        rawPixels[yy, xx] == ArablePixelEnhance(old(rawPixels[yy, xx]), PixelClass(old(rawPixels[yy, xx])))
                      else rawPixels[yy, xx] == old(rawPixels[yy, xx])
        {
          var pixel := rawPixels[y, x];
          var landType := PixelClass(pixel);
          var newPixel := ArablePixelEnhance(pixel, landType);
          arable[y, x] := MaskValue(landType);
          rawPixels[y, x] := newPixel;
          x := x + 1;
        }
        y := y + 1;
      }
      arableMap := arable;
    }

    /** `get_master_map(min_k, min_p)` over a `width` x `height` region (515 x 640 in the
        source). The two tenpercentile calls first raise ValueError when the K or the P grid
        has a reversed histogram range (their values are only printed). Then each pixel gets
        its category, the colour `putpixel` paints at `(col, row)`, and each counted category
        increments its counter; K and P are read at `[col, row]`, the mask at `[row, col]`, and
        `image[row][col]` is the category painted. `print(counters)` and `str(counters)` then
        run `finish_all`, which raises ZeroDivisionError when no pixel was counted. On return
        every counter holds the number of pixels of its category, the total is the number of
        arable land pixels, the counts add up to it, and the key table lists them. */
    method GetMasterMap(minK: real, minP: real, width: nat, height: nat) returns (r: Result<MasterMapOutput, MapError>)
      requires "K" in mineralMaps && "P" in mineralMaps
      requires Covers(mineralMaps["K"].dataset, mineralMaps["P"].dataset, arableMap, width, height)
      ensures var kMap, pMap := mineralMaps["K"], mineralMaps["P"];
              var t := Thresholds(kMap.nodataValue, minK, minP);
              && (!kMap.HistogramRangeValid() ==> r == Err(HistogramRange(kMap.materialCode)))
              && (kMap.HistogramRangeValid() && !pMap.HistogramRangeValid() ==> r == Err(HistogramRange(pMap.materialCode)))
              && (kMap.HistogramRangeValid() && pMap.HistogramRangeValid() ==>
                    (r.Err? <==> RegionArable(kMap.dataset, pMap.dataset, arableMap, t, width, height) == 0) &&
                    (r.Err? ==> r.error == CounterZeroDivision))
      ensures r.Ok? ==>
                var kData, pData, counters := mineralMaps["K"].dataset, mineralMaps["P"].dataset, r.value.counters;
                var t := Thresholds(mineralMaps["K"].nodataValue, minK, minP);
                && Painted(r.value.image, kData, pData, arableMap, t, width, height)
                && fresh(counters) && counters.Valid() && counters.names == CounterNames && counters.Balanced()
                && (forall c :: Counted(c) ==> counters.Counts()[CounterName(c)] == RegionCount(kData, pData, arableMap, t, width, height, c))
                && counters.total == RegionArable(kData, pData, arableMap, t, width, height)
                && counters.Finished() && r.value.table == Table(CounterNames, counters.Counts(), counters.total)
    {
      var kMap, pMap := mineralMaps["K"], mineralMaps["P"];
      if kMap.minValue > kMap.maxValue {
        return Err(HistogramRange(kMap.materialCode));
      }
      if pMap.minValue > pMap.maxValue {
        return Err(HistogramRange(pMap.materialCode));
      }
      var t := Thresholds(kMap.nodataValue, minK, minP);
      r := MasterMap(kMap.dataset, pMap.dataset, arableMap, t, width, height);
    }
  }

  /** The body of `get_master_map` once the K and P grids and the mask are looked up and the
      histograms have been taken: a fresh counter set over the four counter names, the region
      painted and counted, and the counters printed and laid out as the key table. */
  method MasterMap(kData: array2<real>, pData: array2<real>, mask: array2<Byte>, t: Thresholds, width: nat, height: nat)
    returns (r: Result<MasterMapOutput, MapError>)
    requires Covers(kData, pData, mask, width, height)
    ensures r.Err? <==> RegionArable(kData, pData, mask, t, width, height) == 0
    ensures r.Err? ==> r.error == CounterZeroDivision
    ensures r.Ok? ==> Painted(r.value.image, kData, pData, mask, t, width, height)
    ensures r.Ok? ==> fresh(r.value.counters) && r.value.counters.Valid() && r.value.counters.names == CounterNames
    ensures r.Ok? ==> r.value.counters.Balanced()
    ensures r.Ok? ==> forall c :: Counted(c) ==> r.value.counters.Counts()[CounterName(c)] == RegionCount(kData, pData, mask, t, width, height, c)
    ensures r.Ok? ==> r.value.counters.total == RegionArable(kData, pData, mask, t, width, height)
    ensures r.Ok? ==> r.value.counters.Finished()
    ensures r.Ok? ==> r.value.table == Table(CounterNames, r.value.counters.Counts(), r.value.counters.total)
  {
    var image, counters := PaintAndCount(kData, pData, mask, t, width, height);
    var table := PrintCounters(counters);
    assert unchanged(kData, pData, mask);
    if table.Err? {
      r := Err(table.error);
    } else {
      r := Ok(MasterMapOutput(image, counters, table.value));
    }
  }

  /** The region painted and counted on a fresh counter set over the four counter names. */
  method PaintAndCount(kData: array2<real>, pData: array2<real>, mask: array2<Byte>, t: Thresholds, width: nat, height: nat)
    returns (image: seq<seq<Category>>, counters: CounterSet)
    requires Covers(kData, pData, mask, width, height)
    ensures Painted(image, kData, pData, mask, t, width, height)
    ensures fresh(counters) && counters.Valid() && counters.names == CounterNames && counters.Balanced()
    ensures fresh(counters.counters.Values)
    ensures forall c :: Counted(c) ==> counters.Counts()[CounterName(c)] == RegionCount(kData, pData, mask, t, width, height, c)
    ensures counters.total == RegionArable(kData, pData, mask, t, width, height)
  {
    counters := new CounterSet(CounterNames);
    CounterNamesKept();
    image := PaintRegion(counters, kData, pData, mask, t, width, height);
    TallyOfImage(counters.Counts(), counters.total, image);
    PaintedCounts(image, kData, pData, mask, t, width, height);
  }

  /** `print(counters)` and then `table = str(counters)`: both run `finish_all`, so a zero
      total raises ZeroDivisionError at the first; otherwise the table lists the counters.
      Neither changes a count or the total. */
  method PrintCounters(counters: CounterSet) returns (r: Result<seq<Line>, MapError>)
    requires counters.Valid() && counters.names == CounterNames
    modifies counters.counters.Values
    ensures counters.Valid() && counters.Counts() == old(counters.Counts())
    ensures r.Err? <==> counters.total == 0
    ensures r.Err? ==> r.error == CounterZeroDivision
    ensures r.Ok? ==> counters.Finished() && r.value == Table(CounterNames, counters.Counts(), counters.total)
  {
    var printed := counters.Render();
    if printed.Err? {
      return Err(CounterZeroDivision);
    }
    var table := counters.Render();
    r := Ok(table.value);
  }

  /** The four counter names are distinct, so `CounterSet` keeps them in the order given. */
  lemma CounterNamesKept()
    ensures Dedup(CounterNames) == CounterNames
  {
    var s := CounterNames;
    assert |s[0]| == 7 && |s[1]| == 10 && |s[2]| == 10 && |s[3]| == 8;
    assert s[1][4] == 'K' && s[2][4] == 'P';
    DedupDistinct(s);
  }

  /** The counter set has the four counter names and has counted the pixels painted so far,
      the rows of `image` and then `line`: each counter holds the number of pixels of its
      category, the total is the number of counted pixels, and the counts add up to it. */
  ghost predicate Tallied(cs: CounterSet, image: seq<seq<Category>>, line: seq<Category>)
    reads cs, cs.counters.Values
  {
    && cs.Valid() && cs.names == CounterNames && cs.Balanced()
    && TallyHolds(cs.Counts(), cs.total, image, line)
  }

  /** `counts` and `total` are those of the pixels in `image` and then `line`. */
  predicate TallyHolds(counts: map<string, int>, total: int, image: seq<seq<Category>>, line: seq<Category>)
  {
    && (forall c :: Counted(c) ==>
          CounterName(c) in counts && counts[CounterName(c)] == ImageCount(image, c) + LineCount(line, c))
    && total == ImageCounted(image) + LineCounted(line)
  }

  /** Counting one more pixel by its category (one more for its counter and for the total when
      it is counted, nothing otherwise) extends the tally by that pixel. */
  lemma TallyStep(counts: map<string, int>, total: int, image: seq<seq<Category>>, line: seq<Category>, category: Category)
    requires TallyHolds(counts, total, image, line)
    ensures Counted(category) ==>
              TallyHolds(counts[CounterName(category) := counts[CounterName(category)] + 1], total + 1, image, line + [category])
    ensures !Counted(category) ==> TallyHolds(counts, total, image, line + [category])
  {
    assert (line + [category])[..|line|] == line;
    forall c | Counted(c) && Counted(category) && c != category
      ensures CounterName(c) != CounterName(category)
    {
      assert CategoryOfName(CounterName(category)) != CategoryOfName(CounterName(c));
    }
  }

  /** With no line in progress, the tally is that of the image alone. */
  lemma TallyOfImage(counts: map<string, int>, total: int, image: seq<seq<Category>>)
    requires TallyHolds(counts, total, image, [])
    ensures forall c :: Counted(c) ==> CounterName(c) in counts && counts[CounterName(c)] == ImageCount(image, c)
    ensures total == ImageCounted(image)
  {
  }

  /** A finished line is one more row of the image. */
  lemma TallyRowEnd(counts: map<string, int>, total: int, image: seq<seq<Category>>, line: seq<Category>)
    requires TallyHolds(counts, total, image, line)
    ensures TallyHolds(counts, total, image + [line], [])
  {
    assert (image + [line])[..|image|] == image;
  }

  /** The row loop of `get_master_map`: rows `0 .. height-1` are painted in order and their
      pixels counted into `counters`, which starts with nothing counted. */
  method PaintRegion(counters: CounterSet, kData: array2<real>, pData: array2<real>, mask: array2<Byte>,
                     t: Thresholds, width: nat, height: nat)
    returns (image: seq<seq<Category>>)
    requires Covers(kData, pData, mask, width, height)
    requires Tallied(counters, [], [])
    modifies counters, counters.counters.Values
    ensures counters.counters == old(counters.counters)
    ensures Painted(image, kData, pData, mask, t, width, height)
    ensures Tallied(counters, image, [])
  {
    image := [];
    var row := 0;
    while row < height
      invariant 0 <= row <= height
      invariant counters.counters == old(counters.counters)
      invariant Painted(image, kData, pData, mask, t, width, row)
      invariant Tallied(counters, image, [])
    {
      var line := PaintRow(counters, kData, pData, mask, t, width, row, image);
      PaintedStep(image, line, kData, pData, mask, t, width, row);
      image := image + [line];
      row := row + 1;
    }
  }

  /** One row of the `get_master_map` loop: pixels `0 .. width-1` of row `row` are classified
      in order and counted; `line[col]` is the category painted at `(col, row)`. */
  method PaintRow(counters: CounterSet, kData: array2<real>, pData: array2<real>, mask: array2<Byte>,
                  t: Thresholds, width: nat, row: nat, ghost image: seq<seq<Category>>)
    returns (line: seq<Category>)
    requires Covers(kData, pData, mask, width, row + 1)
    requires Tallied(counters, image, [])
    modifies counters, counters.counters.Values
    ensures counters.counters == old(counters.counters)
    ensures RowPainted(line, kData, pData, mask, t, row, width)
    ensures Tallied(counters, image + [line], [])
  {
    line := [];
    var col := 0;
    while col < width
      invariant 0 <= col <= width
      invariant counters.counters == old(counters.counters)
      invariant RowPainted(line, kData, pData, mask, t, row, col)
      invariant Tallied(counters, image, line)
    {
      var category := PaintPixel(counters, kData, pData, mask, t, row, col, image, line);
      RowPaintedStep(line, category, kData, pData, mask, t, row, col);
      line := line + [category];
      col := col + 1;
    }
    TallyRowEnd(counters.Counts(), counters.total, image, line);
  }

  /** One pixel of the `get_master_map` loop: the decision tree, and the counter increment for
      a counted category. */
  method PaintPixel(counters: CounterSet, kData: array2<real>, pData: array2<real>, mask: array2<Byte>,
                    t: Thresholds, row: nat, col: nat, ghost image: seq<seq<Category>>, ghost line: seq<Category>)
    returns (category: Category)
    requires Covers(kData, pData, mask, col + 1, row + 1)
    requires Tallied(counters, image, line)
    modifies counters, counters.counters.Values
    ensures category == CellCategory(kData, pData, mask, t, row, col)
    ensures counters.counters == old(counters.counters)
    ensures Tallied(counters, image, line + [category])
  {
    ClassifyCases(kData[col, row], mask[row, col], pData[col, row], t);
    var k := kData[col, row];
    if k == t.kNodata {
      category := Transparent;
      TallyStep(counters.Counts(), counters.total, image, line, category);
    } else {
      var arable := mask[row, col];
      if arable < MaskThreshold {
        category := DarkGreen;
        TallyStep(counters.Counts(), counters.total, image, line, category);
      } else {
        var p := pData[col, row];
        var pOk, kOk := p > t.minP, k > t.minK;
        if pOk && kOk {
          category := OkBoth;
        } else if !pOk && !kOk {
          category := LowBoth;
        } else if pOk {
          category := LowKOnly;
        } else {
          category := LowPOnly;
        }
        CountPixel(counters, category, image, line);
      }
    }
  }

  /** `counters.inc(name)` for the counter of a counted category: the pixel joins the tally. */
  method CountPixel(counters: CounterSet, category: Category, ghost image: seq<seq<Category>>, ghost line: seq<Category>)
    requires Counted(category)
    requires Tallied(counters, image, line)
    modifies counters, counters.counters.Values
    ensures counters.counters == old(counters.counters)
    ensures Tallied(counters, image, line + [category])
  {
    TallyStep(counters.Counts(), counters.total, image, line, category);
    var ok := counters.Inc(CounterName(category));
  }
}
