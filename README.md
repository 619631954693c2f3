# soil-maps-uk core in Dafny

soil-maps-uk reads National Soil Inventory (NSI) mineral grids for potassium (K) and
phosphorus (P) from ESRI ASCII grid text files. It derives an arable-land mask from a
land-use image and paints a composite "arable mineral sufficiency" map. Each arable pixel is
coloured by whether K and P exceed their minimums, and a `CounterSet` tallies the pixels of
each category.

This project models that core and proves properties of it:

- **Grid reading** (`MaterialMap.from_source_file`), in modules `GridHeader` and `GridMatrix`:
  - the six-line header, split on single spaces, with the value parsed before the name is
    checked;
  - the completeness check that raises KeyError;
  - the `(int(ncols), int(nrows))` array and the row loop that writes `dataset[col, row]`;
  - the running minimum and maximum over the values above NODATA.
- **The percentile walk** (`calc_distribution_get_tenpercentile`), in module `Percentile` and
  `NsiGrids.MaterialMap`:
  - the land count;
  - the target `int(count_land*percentile/100)`;
  - the cumulative walk over `zip(bins[2:], frequency[1:])`.
- **The land-use rules** (`pixel_class`, `arable_pixel_enhance`, the mask loop of
  `get_land_use_map`), in module `LandUse` and `NsiGrids.MapSets.GetLandUseMap`.
- **The composite map** (`get_master_map`), in module `Composite` and `NsiGrids`:
  - the per-pixel decision, with K and P read at `[col, row]` and the mask at `[row, col]`;
  - the colours;
  - the counting loop, over a `width` × `height` region (515 × 640 in the source).
- **The counters** (`Counter`, `CounterSet`), in module `StatsCounters`:
  - `inc`, `finish`, `finish_all`;
  - the structure and padding of the `__str__` table.

Modules:

| module | role |
|---|---|
| `Wrappers` | `Option` and `Result` |
| `GridText` | `strip`, `split(" ")`, `join` and left-justified padding, over `seq<char>` |
| `GridHeader` | `ParseHeader` states what the header yields; `ReadHeader` is the loop proved against it |
| `GridMatrix` | the data rows as tokens, the bounds folds, and `ReadRow` and `ReadMatrix` over an `array2<real>` indexed `[col, row]` |
| `Percentile` | `Trunc`, `Target`, `PrefixSum`, `WalkIndex`, and `Walk` proved against them |
| `LandUse` | pixels, `PixelClass`, `ArablePixelEnhance`, `MaskValue`, and the uint8 as-written classifier |
| `Composite` | `Classify`, the colours, the per-region counts, and the painted image as a value |
| `StatsCounters` | the `Counter` and `CounterSet` classes, and `Table` specifying `__str__` |
| `NsiGrids` | the classes `MaterialMap` and `MapSets`, and the `get_master_map` loop |

Python's `float()` is a parameter `parse: string -> Option<real>`, where `None` means ValueError.
The unspecified contents of `np.empty` are a parameter `fill`. The grid file is the sequence
of lines its `readline()` calls return; past the end of the file each call gives `""`.

## Model

| member | source | states |
|---|---|---|
| GridText.TrimLeftRemovesLeadingSpace | nsi_grids.py:73 | `strip` drops exactly the leading white space: the result is a suffix, what it drops is all white space, and it starts with a non-space |
| GridText.TrimRightRemovesTrailingSpace | nsi_grids.py:73 | the trailing half of `strip`: a prefix, everything dropped is white space, and it ends with a non-space |
| GridText.StripKeepsMiddle | nsi_grids.py:73 | `strip` keeps one contiguous middle slice, with white space only on either side of it and no white space at either of its ends |
| GridText.Split | nsi_grids.py:48 | `split(" ")` gives one more piece than the line has spaces, so always at least one |
| GridText.Strip | nsi_grids.py:73 | `strip()` never lengthens a line, leaves no white space at either end, and gives the empty string exactly for an all-white-space line |
| GridText.SplitPiecesHaveNoSep | nsi_grids.py:48 | no piece of `split(" ")` contains a space |
| GridText.JoinSplit | nsi_grids.py:48 | splitting loses nothing: joining the pieces with the separator gives back the line |
| GridText.SplitNoSep | nsi_grids.py:48 | a line without a space is a single piece |
| GridText.SplitAtSep | nsi_grids.py:48-49 | the first piece is the text before the first space |
| GridText.DoubleSeparatorKeepsEmptyPiece | nsi_grids.py:48 | two spaces in a row give an empty piece, as `str.split(" ")` does |
| GridText.PadRight | stats_counters.py:39 | `f"{s:<{w}}"` is `w` long when `s` fits, and `s` unchanged when it does not |
| GridText.PadRightKeepsText | stats_counters.py:39 | padding keeps the text at the front and adds only spaces |
| GridHeader.CollectParamsStep | nsi_grids.py:47-54 | a successful header is the previous lines' dictionary updated by the last line, whose value parsed |
| GridHeader.CollectParams | nsi_grids.py:46-54 | the header loop fails only with ValueError, at a line of the header whose last token does not parse |
| GridHeader.CollectParamsParsed | nsi_grids.py:50 | a successful header came from lines whose last tokens all parsed |
| GridHeader.CollectParamsKeys | nsi_grids.py:49-54 | the keys of `paramvals` are exactly the known names that lead some line; unknown names are only logged |
| GridHeader.CollectParamsLastWins | nsi_grids.py:54 | a name leading several lines holds the value of the last of them |
| GridHeader.CollectParamsErrorPersists | nsi_grids.py:50 | once a line's value fails to parse, the later lines cannot change the error |
| GridHeader.CollectParamsError | nsi_grids.py:50 | ValueError happens exactly when some line's last token does not parse, and it names the first such line, even when its name is unknown |
| GridHeader.FirstMissing | nsi_grids.py:57-59 | names before the returned position are keys and the name at that position is not |
| GridHeader.FirstMissingAt | nsi_grids.py:57-59 | when the names before `k` are present and `names[k]` is absent, the check reports the name at position `k` |
| GridHeader.ParseHeader | nsi_grids.py:45-59 | a header that succeeds has all six parameters |
| GridHeader.ReadHeader | nsi_grids.py:45-59 | the header loop and the completeness loop return exactly `ParseHeader` |
| GridHeader.HeaderReadsSixLines | nsi_grids.py:46-47 | lines after the sixth never affect the header |
| GridHeader.MissingParameterNamed | nsi_grids.py:57-59 | when every value parses, KeyError names the first parameter of `param_names` that no line leads |
| GridHeader.HeaderComplete | nsi_grids.py:45-59 | when every value parses and every parameter leads some line, the header succeeds with exactly the six names as keys |
| GridMatrix.ColsFitStep | nsi_grids.py:73-85 | one more token fits exactly when it does not parse or its column is inside the array |
| GridMatrix.ColsFitAll | nsi_grids.py:73-85 | all of a row's tokens fit exactly when the row raises no IndexError |
| GridMatrix.RowsFitStep | nsi_grids.py:71-85 | the rows fit one at a time |
| GridMatrix.RowsFitAll | nsi_grids.py:71-85 | all rows fit exactly when no row raises IndexError |
| GridMatrix.FirstOverflowUnique | nsi_grids.py:71-85 | the first parsed token beyond the last column, in scan order, is unique, so the IndexError it raises is determined by the rows |
| GridMatrix.MinOfAppend | nsi_grids.py:81-82 | the running minimum over two stretches is the running minimum of the second, started from the first |
| GridMatrix.MaxOfAppend | nsi_grids.py:83-84 | the same for the running maximum |
| GridMatrix.MinOfBounds | nsi_grids.py:69-82 | the running minimum is at most the start value and every value seen, and is one of them |
| GridMatrix.MaxOfBounds | nsi_grids.py:70-84 | the running maximum is at least the start value and every value seen, and is one of them |
| GridMatrix.ValidValuesMembership | nsi_grids.py:73-80 | a value reaches the comparisons of a row exactly when some token of the row parses to it and it is above NODATA (both directions) |
| GridMatrix.ScanValuesMembership | nsi_grids.py:71-80 | the same over all rows: a value is compared exactly when some cell parses to it and exceeds NODATA |
| GridMatrix.ValidCellsWithinBounds | nsi_grids.py:80-89 | every parsed value above NODATA lies within `[min_value, max_value]` |
| GridMatrix.BoundsOrdered | nsi_grids.py:69-89 | with a value above NODATA, `min_value <= max_value`; with none, both keep their sentinels |
| GridMatrix.BoundsAttained | nsi_grids.py:69-89 | when the values stay strictly between the sentinels, each bound is the value of some cell |
| GridMatrix.BoundsStep | nsi_grids.py:80-84 | a token moves the bounds only when it parses to a value above NODATA, and then each bound moves to that value or stays |
| GridMatrix.FilledRowEnd | nsi_grids.py:73-85 | once all a row's tokens are read, the row is finished and the next row starts |
| GridMatrix.FilledAllRows | nsi_grids.py:71-85 | with every row read, each cell holds what its token gives it |
| GridMatrix.ReadRow | nsi_grids.py:73-85 | one row: IndexError exactly when a parsed token lies beyond the last column, naming the first such token, every earlier token fitting; otherwise the bounds fold the row's values above NODATA, and each cell of the row gets its token's value |
| GridMatrix.ReadMatrix | nsi_grids.py:69-89 | all rows: IndexError exactly when some row overflows, naming the first parsed token beyond the last column in scan order (every earlier row and token fits); otherwise the bounds are `Lo`/`Hi` and every cell is its token's value or its initial contents |
| Percentile.Trunc | nsi_grids.py:177 | `int()` truncates toward zero: the result is within one of `x`, on the side of 0 |
| Percentile.TruncMonotone | nsi_grids.py:177 | truncation toward zero is monotone |
| Percentile.Target | nsi_grids.py:177 | for a non-negative percentile the target is the whole part of that share of the land cells: non-negative, at most the share, and within one of it |
| Percentile.TargetMonotone | nsi_grids.py:177 | a larger percentile never gives a smaller target |
| Percentile.WalkIndex | nsi_grids.py:179-183 | the stop index is the least one whose prefix sum exceeds the target; None when the walk never exceeds it |
| Percentile.Walk | nsi_grids.py:179-183 | the accumulator loop returns the bin edge at `WalkIndex`, and returns one exactly when some walked prefix sum exceeds the target |
| Percentile.WalkStopsIffSomeSumExceeds | nsi_grids.py:180-183 | the walk stops exactly when some walked prefix sum exceeds the target |
| Percentile.WalkMonotone | nsi_grids.py:179-183 | a larger target never makes the walk stop earlier |
| Percentile.PercentileMonotone | nsi_grids.py:177-183 | a larger percentile never selects an earlier bin |
| Percentile.PercentileValueMonotone | nsi_grids.py:162-183 | with ascending bin edges, the returned edge is non-decreasing in the percentile |
| Percentile.PrefixSumMonotone | nsi_grids.py:181 | with non-negative frequencies the accumulator never decreases |
| Percentile.WalkFindsIffTotalExceeds | nsi_grids.py:179-183 | with non-negative frequencies, a bin is found exactly when there is a pair to walk and the whole walked sum exceeds the target |
| LandUse.PixelClassCases | nsi_grids.py:355-372 | the class is -1 exactly when alpha is 0; otherwise 1 exactly when the L1 distance to (129,207,56,255) is below 20, and 0 otherwise |
| LandUse.PixelClass | nsi_grids.py:355-372 | the class is one of -1, 0 and 1, and -1 exactly for a transparent pixel |
| LandUse.ArableIsNearReference | nsi_grids.py:365-369 | an arable pixel is within 19 in every channel of the reference colour |
| LandUse.ReferenceIsArable | nsi_grids.py:362-369 | the reference colour is arable, and its transparent copy is sea |
| LandUse.ArablePixelEnhance | nsi_grids.py:376-383 | every pixel that is not sea comes out opaque |
| LandUse.EnhanceCases | nsi_grids.py:376-383 | sea is unchanged, arable becomes white, other land gets a quarter of each channel, rounded down |
| LandUse.EnhancedNeverArable | nsi_grids.py:338-339 | a pixel recoloured by its own class is never arable again: sea stays sea and land becomes other land |
| LandUse.MaskValue | nsi_grids.py:340 | every mask cell is 255 or 20 |
| LandUse.MaskArableIff | nsi_grids.py:340 | the mask is 255 exactly for arable pixels, so `arable < 50` in the composite map exactly recovers "not arable" |
| LandUse.WrappedDistanceIsModular | nsi_grids.py:368 | the distance as written under uint8 arithmetic is the signed sum of differences modulo 256 |
| LandUse.PixelClassAsWritten | nsi_grids.py:355-372 | the as-written class is one of -1, 0 and 1: -1 exactly for a transparent pixel, 1 exactly for an opaque one whose signed sum of channel differences is below 20 modulo 256 |
| LandUse.WrapAdd | nsi_grids.py:368 | adding two wrapped values and wrapping equals wrapping the sum |
| LandUse.AsWrittenMissesNearPixel | nsi_grids.py:368 | a pixel at distance 1 from the reference is classed as other land by the as-written code |
| LandUse.AsWrittenAcceptsFarPixel | nsi_grids.py:368 | a pixel at distance 256 from the reference is classed as arable by the as-written code |
| Composite.ClassifyCases | nsi_grids.py:246-282 | sea exactly when K is its NODATA value; dark green exactly when it is not and the mask is below 50; otherwise exactly one of the four categories, chosen by `p > min_p` and `k > min_k` |
| Composite.Classify | nsi_grids.py:246-282 | a pixel is left transparent exactly when K is its NODATA value, and is counted exactly when K has data and the mask is at least 50 |
| Composite.ThresholdIsLow | nsi_grids.py:259-260 | the comparisons are strict: a value equal to its minimum is low |
| Composite.ClassifyOnMask | nsi_grids.py:253 | on masks built by `get_land_use_map`, a land pixel is counted exactly when its land-use pixel was arable |
| Composite.CounterName | nsi_grids.py:241 | each counted category names one of the four counters, and the name maps back to it |
| Composite.CounterNameRoundTrip | nsi_grids.py:241 | counter names and counted categories are in one-to-one correspondence |
| Composite.ColourRoundTrip | nsi_grids.py:18-21 | the six colours painted are distinct, so the image determines each pixel's category |
| Composite.Colour | nsi_grids.py:18-21 | a counted category is painted its counter's entry of `colors`, and every pixel with K data is opaque |
| Composite.RowCountsPartitionArable | nsi_grids.py:245-282 | along a row, the four counted categories together are exactly the arable land pixels |
| Composite.RegionCountsPartitionArable | nsi_grids.py:243-282 | over the region, the four counts add up to the arable land pixels |
| Composite.RowPaintedStep | nsi_grids.py:245-285 | painting pixel `col` extends the painted row |
| Composite.PaintedStep | nsi_grids.py:243-285 | appending a painted row extends the painted image |
| Composite.RowPaintedCounts | nsi_grids.py:245-285 | a painted row has the category counts of its row of the rasters |
| Composite.PaintedCounts | nsi_grids.py:243-285 | a painted image has the category counts of its region |
| StatsCounters.Counter.constructor | stats_counters.py:9-10 | the count starts at 0, with no percentage yet |
| StatsCounters.Counter.Inc | stats_counters.py:12-13 | the count goes up by one and nothing else changes |
| StatsCounters.Counter.Finish | stats_counters.py:15-16 | the percentage becomes `count/total*100`; a zero total raises ZeroDivisionError before anything is assigned |
| StatsCounters.Dedup | stats_counters.py:23 | the keys of the comprehension are distinct and are exactly the given names |
| StatsCounters.DedupDistinct | stats_counters.py:23 | distinct names keep their order as keys |
| StatsCounters.SumOverIncrement | stats_counters.py:26-28 | raising one counter raises the sum of the counts by one |
| StatsCounters.SumOverUnchanged | stats_counters.py:26-28 | the sum depends only on the counters summed |
| StatsCounters.SumSharesIsScaledSum | stats_counters.py:15-16 | the percentages add up to the summed counts as a percentage of the total |
| StatsCounters.ShareIsPercentage | stats_counters.py:16 | `count/total*100` for a positive total: a count between 0 and the total gives 0 to 100, the whole total gives 100, and a larger count never gives less |
| StatsCounters.PercentagesSumTo100 | stats_counters.py:30-32 | when the counts add up to a non-zero total, the percentages add up to 100 |
| StatsCounters.Longest | stats_counters.py:37 | the longest name is at least as long as every name, and some name has that length |
| StatsCounters.PaddingWidth | stats_counters.py:37 | `max(longest+3, 8)`: at least 8 and at least three past the longest name, and equal to one of the two |
| StatsCounters.PaddingWidthBounds | stats_counters.py:37 | the padding leaves at least three spaces after every name, fits "Total", is at least 8, and is the least width doing so |
| StatsCounters.CounterLines | stats_counters.py:38-39 | one line per counter |
| StatsCounters.CounterLinesAt | stats_counters.py:38-39 | line `i` is counter `i`'s line, in key order |
| StatsCounters.Table | stats_counters.py:36-43 | one line per counter plus the Total line |
| StatsCounters.TableAligned | stats_counters.py:37-43 | every padded name has the same width and starts with its counter's name, with that counter's count and percentage; "Total" comes last with the total |
| StatsCounters.NewCounters | stats_counters.py:23 | one fresh zero counter per distinct name, with distinct names owning distinct counters |
| StatsCounters.ZeroSum | stats_counters.py:22-24 | all-zero counts add up to 0 |
| StatsCounters.CounterSet.constructor | stats_counters.py:22-24 | one fresh zero counter per distinct name, keys in first-occurrence order, total 0 and balanced |
| StatsCounters.CounterSet.Inc | stats_counters.py:26-28 | the total goes up by one; the named counter goes up by one, or KeyError when it is unknown; a balanced set stays balanced exactly when the name is known |
| StatsCounters.CounterSet.FinishAll | stats_counters.py:30-32 | succeeds exactly when the total is non-zero or there are no counters; then every counter holds its share; on ZeroDivisionError nothing changes |
| StatsCounters.CounterSet.FinishAllTwice | stats_counters.py:30-32 | running `finish_all` twice gives the same outcome and percentages, and changes no count |
| StatsCounters.CounterSet.TableLines | stats_counters.py:36-43 | the line loop over finished counters produces `Table` |
| StatsCounters.CounterSet.Render | stats_counters.py:34-43 | `__str__` fails with ZeroDivisionError on a zero total and with ValueError on no counters; otherwise it gives `Table` for the finished counters, with the counts unchanged |
| NsiGrids.LandInRowBounds | nsi_grids.py:172-174 | a row's land count is at most its length, and 0 exactly when no cell is above NODATA |
| NsiGrids.LandInRegionBounds | nsi_grids.py:170-174 | the land count is at most the number of cells, and 0 exactly when no cell is above NODATA |
| NsiGrids.MaterialMap.constructor | nsi_grids.py:92 | the map holds the header values and the bounds it was built from |
| NsiGrids.MaterialMap.LoadMatrix | nsi_grids.py:63-93 | a negative dimension fails; IndexError exactly when a row overflows, at the first overflowing token in scan order; otherwise a fresh map whose dataset and bounds are those of the rows |
| NsiGrids.MaterialMap.FromSourceLines | nsi_grids.py:41-93 | `from_source_file`: the header's error, or the matrix's IndexError at the first overflowing token in scan order, or a map loaded from the header and the rows |
| NsiGrids.MaterialMap.LandCount | nsi_grids.py:170-174 | the double loop counts exactly the cells above NODATA |
| NsiGrids.MaterialMap.CalcDistributionGetTenpercentile | nsi_grids.py:160-183 | ValueError from `np.histogram` exactly when `min_value > max_value`; otherwise the result is the walk with target `int(count_land*percentile/100)` |
| NsiGrids.HistogramFailsIffNoLand | nsi_grids.py:160-162 | on a loaded map, the histogram range is invalid exactly when no cell holds a value above NODATA |
| NsiGrids.MapSets.constructor | nsi_grids.py:200-203 | the given mineral maps and an empty mask |
| NsiGrids.MapSets.GetLandUseMap | nsi_grids.py:326-345 | every mask cell is `MaskValue` of its pixel's class, every pixel is recoloured in place by its original class, and the mineral maps are unchanged |
| NsiGrids.MapSets.GetMasterMap | nsi_grids.py:228-301 | ValueError from K's tenpercentile call when K has no value above NODATA, else from P's; otherwise ZeroDivisionError from printing the counters exactly when the region has no arable land pixel; on success the image holds each pixel's category, with K and P read at `[col, row]` and the mask at `[row, col]`; each counter holds the number of pixels of its category; the total is the number of arable land pixels; the counts add up to the total, and the printed table is `Table` of the finished counters |
| NsiGrids.MasterMap | nsi_grids.py:237-301 | after the tenpercentile calls, over the K and P arrays and the mask: ZeroDivisionError exactly when the region has no arable land pixel; otherwise a fresh counter set with the four names, the painted image, the counts and the table |
| NsiGrids.PaintAndCount | nsi_grids.py:237-285 | the painting loop: a fresh counter set with the four names, the painted image, and the counts |
| NsiGrids.PrintCounters | nsi_grids.py:290-301 | `print(counters)` then `str(counters)`: ZeroDivisionError exactly when the total is 0, otherwise the finished counters' `Table`, with the counts unchanged |
| NsiGrids.CounterNamesKept | nsi_grids.py:241 | the four counter names are distinct, so the counter set keeps them in order |
| NsiGrids.TallyStep | nsi_grids.py:262-285 | painting one pixel keeps the counters' agreement with the painted pixels: a counted category adds one to its counter and to the total, and any other pixel adds nothing |
| NsiGrids.TallyOfImage | nsi_grids.py:243-285 | a tally that agrees with a complete image holds that image's counts |
| NsiGrids.TallyRowEnd | nsi_grids.py:245-285 | a finished row joins the image without changing the tally |
| NsiGrids.PaintRegion | nsi_grids.py:243-285 | the row loop paints the region and leaves the counters agreeing with the image |
| NsiGrids.PaintRow | nsi_grids.py:245-285 | the column loop paints one row and keeps the counters agreeing |
| NsiGrids.PaintPixel | nsi_grids.py:246-285 | one pixel: returns its category, and counts it when it is counted |
| NsiGrids.CountPixel | nsi_grids.py:262-282 | `counters.inc` on the pixel's counter keeps the tally, with the counter map unchanged |

## Left out

- File I/O: a grid file is the sequence of lines its `readline()` calls would return, each with its terminator. Opening files by material code is not modelled.
- `float()` and NumPy's float32 storage are not modelled. Values are reals, produced by a parser parameter, so float32 rounding, NaN and infinities are not modelled.
- The contents of `np.empty` are a parameter (`fill`). Cells whose token does not parse keep that content.
- `np.histogram` is not modelled: `frequency` and `bins` are inputs of `CalcDistributionGetTenpercentile`. Its ValueError when `min_value > max_value` is modelled. The histogram pretty-print loop (nsi_grids.py:165-166) is output only.
- The values printed by the tenpercentile lines in `get_master_map` (nsi_grids.py:235-236) are unused. Their ValueError is modelled.
- Reading the land-use PNG (`Image.open`) is not modelled. The pixels are an input array.
- `except IndexError` in `get_land_use_map`: the mask has the image's shape, so no index is out of range and the branch is never taken.
- Drawing is not modelled: `get_master_map` returns the category of each pixel, and `Composite.Colour` gives the RGBA value painted for it. The title, the key table text, the rectangles and the fonts are left out, as are `get_image`, `get_composite`, `get_arable_map_img`, `show` and `save_master_map`.
- `to_JSON`, `from_json_file`, `save_json`, `from_source_files`, `from_json_files` and `MaterialMap.__str__` are not modelled. They are serialisation and loading plumbing around the modelled core.
- `print` and `logging` output is left out. `print(counters)` and `str(counters)` (nsi_grids.py:290, 301) are modelled as two `__str__` renderings, including their ZeroDivisionError.
- The number formatting in `CounterSet.__str__` (`:>6`, `4.2f`) is left out. A table line is a padded name, a count and a percentage.
- NsiGrids.MapSets.GetMasterMap: the exits are `MapError` values. `HistogramRange` is the ValueError of a tenpercentile call, and `CounterZeroDivision` is the ZeroDivisionError of printing the counters. The source hard-codes a 515 × 640 region and fails with IndexError if the rasters are smaller. The model takes the region as parameters and requires the rasters to cover it.
- StatsCounters.Counter.Finish: a zero total raises ZeroDivisionError in the source. The model returns `ok = false` with nothing assigned, and `FinishAll` stops at that point as the exception would.
- StatsCounters.CounterSet.Render: the ValueError of `max([])` on no counters is modelled as `Err(EmptyMax)`, the ZeroDivisionError as `Err(ZeroDivision)`.
- `MaterialMap` keeps `ncols` and `nrows` as the floats parsed from the header. The source's annotations say `int`, but it stores the parsed floats.

## Findings

| source | as written | input that shows it | evidently intended | confidence | as-written member | corrected member |
|---|---|---|---|---|---|---|
| nsi_grids.py:361-368 | `r-rr` etc. on the channels of a NumPy uint8 pixel: under NumPy 2 (NEP 50) each difference with a Python int stays uint8 and wraps modulo 256, `abs` is the identity on it, and the partial sums wrap too | pixel (128,207,56,255) is at distance 1 but is classed 0 (red difference wraps to 255); pixel (1,79,56,255) is at distance 256 but is classed 1 | the L1 distance over the integers, below 20 | not executed; medium: depends on the NumPy version (older NumPy promoted to a wider integer type) | LandUse.PixelClassAsWritten with LandUse.AsWrittenMissesNearPixel and LandUse.AsWrittenAcceptsFarPixel | LandUse.PixelClass with LandUse.PixelClassCases |

The rest of the model uses the corrected `LandUse.PixelClass`.
