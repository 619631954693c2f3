/** The data rows of an NSI grid file and the running bounds kept while reading them
    (`MaterialMap.from_source_file`, nsi_grids.py). The specification works on the rows as
    tokens; `MatrixTokens` says how the text lines become those tokens. */
module GridMatrix {
  import opened Wrappers
  import opened GridText
  import opened GridHeader

  /** The initial values of the running minimum and maximum. */
  const MinSentinel: real := 99999999999999999999.0
  const MaxSentinel: real := -99999999999999999999.0

  /** The tokens of data row `row`: `inline.strip().split(" ")`. A double space gives an
      empty token, and a row past the end of the file is the single empty token. */
  function RowTokens(lines: seq<string>, row: nat): seq<string>
  {
    Split(Strip(ReadLine(lines, HeaderLength + row)), ' ')
  }

  /** The tokens of the `height` data rows that follow the header. */
  function MatrixTokens(lines: seq<string>, height: nat): (rows: seq<seq<string>>)
    ensures |rows| == height
    ensures forall row :: 0 <= row < height ==> rows[row] == RowTokens(lines, row)
  {
    seq(height, row requires 0 <= row => RowTokens(lines, row))
  }

  /** The value the row loop parses at (row, col), if there is a token there and it parses.
      Columns are token positions, so a skipped token still uses up its index. */
  function CellAt(rows: seq<seq<string>>, parse: ParseFloat, row: nat, col: nat): Option<real>
  {
    if row < |rows| && col < |rows[row]| then parse(rows[row][col]) else None
  }

  /** A row of tokens parses a value at a position `width` or beyond. */
  ghost predicate RowOverflows(tokens: seq<string>, parse: ParseFloat, width: nat)
  {
    exists col :: width <= col < |tokens| && parse(tokens[col]).Some?
  }

  /** Some row parses a value beyond the last column: writing it raises IndexError, which is
      not caught. */
  ghost predicate Overflows(rows: seq<seq<string>>, parse: ParseFloat, width: nat)
  {
    exists row :: 0 <= row < |rows| && RowOverflows(rows[row], parse, width)
  }

  /** No token before position `n` parses at a column `width` or beyond. */
  ghost predicate ColsFit(tokens: seq<string>, parse: ParseFloat, width: nat, n: nat)
  {
    forall col :: width <= col < n && col < |tokens| ==> parse(tokens[col]).None?
  }

  /** The tokens fit one more token at a time, and all of them fit exactly when the row does
      not overflow. */
  lemma ColsFitStep(tokens: seq<string>, parse: ParseFloat, width: nat, n: nat)
    requires n < |tokens|
    ensures ColsFit(tokens, parse, width, n + 1) <==> ColsFit(tokens, parse, width, n) && (n < width || parse(tokens[n]).None?)
  {
  }

  lemma ColsFitAll(tokens: seq<string>, parse: ParseFloat, width: nat)
    ensures ColsFit(tokens, parse, width, |tokens|) <==> !RowOverflows(tokens, parse, width)
  {
  }

  /** None of the first `n` rows parses a value beyond the last column. */
  ghost predicate RowsFit(rows: seq<seq<string>>, parse: ParseFloat, width: nat, n: nat)
  {
    forall row :: 0 <= row < n && row < |rows| ==> !RowOverflows(rows[row], parse, width)
  }

  /** The rows fit one more row at a time. */
  lemma RowsFitStep(rows: seq<seq<string>>, parse: ParseFloat, width: nat, n: nat)
    requires n < |rows|
    ensures RowsFit(rows, parse, width, n + 1) <==> RowsFit(rows, parse, width, n) && !RowOverflows(rows[n], parse, width)
  {
  }

  /** All the rows fit exactly when none overflows. */
  lemma RowsFitAll(rows: seq<seq<string>>, parse: ParseFloat, width: nat)
    ensures RowsFit(rows, parse, width, |rows|) <==> !Overflows(rows, parse, width)
  {
  }

  /** Token `col` of row `row` is the first parsed token, in scan order, at a column `width`
      or beyond: the one whose write raises IndexError. */
  ghost predicate FirstOverflow(rows: seq<seq<string>>, parse: ParseFloat, width: nat, row: nat, col: nat)
  {
    && row < |rows| && width <= col < |rows[row]| && parse(rows[row][col]).Some?
    && RowsFit(rows, parse, width, row) && ColsFit(rows[row], parse, width, col)
  }

  /** There is at most one first overflowing token, so it names the IndexError uniquely. */
  lemma FirstOverflowUnique(rows: seq<seq<string>>, parse: ParseFloat, width: nat, row1: nat, col1: nat, row2: nat, col2: nat)
    requires FirstOverflow(rows, parse, width, row1, col1)
    requires FirstOverflow(rows, parse, width, row2, col2)
    ensures row1 == row2 && col1 == col2
  {
    if row1 < row2 {
      assert RowOverflows(rows[row1], parse, width);
    } else if row2 < row1 {
      assert RowOverflows(rows[row2], parse, width);
    }
  }

  /** A cell of a row after its tokens were read: the parsed value of token `col`, or what the
      array held before if there is no such token or it does not parse. */
  function TokenValue(tokens: seq<string>, parse: ParseFloat, col: nat, before: real): (v: real)
    ensures col < |tokens| && parse(tokens[col]).Some? ==> v == parse(tokens[col]).value
    ensures !(col < |tokens| && parse(tokens[col]).Some?) ==> v == before
  {
    if col < |tokens| && parse(tokens[col]).Some? then parse(tokens[col]).value else before
  }

  /** The parsed values of one row that are strictly greater than `nodata`, in order. */
  function ValidValues(tokens: seq<string>, parse: ParseFloat, nodata: real): seq<real>
    decreases |tokens|
  {
    if tokens == [] then []
    else
      var v := parse(tokens[|tokens| - 1]);
      ValidValues(tokens[..|tokens| - 1], parse, nodata) + (if v.Some? && v.value > nodata then [v.value] else [])
  }

  /** The values that reach the min/max comparisons, in scan order (row by row). */
  function ScanValues(rows: seq<seq<string>>, parse: ParseFloat, nodata: real): seq<real>
    decreases |rows|
  {
    if rows == [] then []
    else ScanValues(rows[..|rows| - 1], parse, nodata) + ValidValues(rows[|rows| - 1], parse, nodata)
  }

  /** The running minimum, started at `init`, after seeing `vs` in order. */
  function MinOf(init: real, vs: seq<real>): real
    decreases |vs|
  {
    if vs == [] then init
    else
      var m := MinOf(init, vs[..|vs| - 1]);
      if vs[|vs| - 1] < m then vs[|vs| - 1] else m
  }

  /** The running maximum, started at `init`, after seeing `vs` in order. */
  function MaxOf(init: real, vs: seq<real>): real
    decreases |vs|
  {
    if vs == [] then init
    else
      var m := MaxOf(init, vs[..|vs| - 1]);
      if vs[|vs| - 1] > m then vs[|vs| - 1] else m
  }

  /** `min_value` and `max_value` after reading the rows. */
  function Lo(rows: seq<seq<string>>, parse: ParseFloat, nodata: real): real
  {
    MinOf(MinSentinel, ScanValues(rows, parse, nodata))
  }

  function Hi(rows: seq<seq<string>>, parse: ParseFloat, nodata: real): real
  {
    MaxOf(MaxSentinel, ScanValues(rows, parse, nodata))
  }

  lemma {:induction false} MinOfAppend(init: real, a: seq<real>, b: seq<real>)
    ensures MinOf(init, a + b) == MinOf(MinOf(init, a), b)
    decreases |b|
  {
    if b == [] {
      assert a + b == a;
    } else {
      assert (a + b)[..|a + b| - 1] == a + b[..|b| - 1];
      MinOfAppend(init, a, b[..|b| - 1]);
    }
  }

  lemma {:induction false} MaxOfAppend(init: real, a: seq<real>, b: seq<real>)
    ensures MaxOf(init, a + b) == MaxOf(MaxOf(init, a), b)
    decreases |b|
  {
    if b == [] {
      assert a + b == a;
    } else {
      assert (a + b)[..|a + b| - 1] == a + b[..|b| - 1];
      MaxOfAppend(init, a, b[..|b| - 1]);
    }
  }

  /** The running minimum is below the start value and every value seen, and it is either the
      start value or one of the values. */
  lemma {:induction false} MinOfBounds(init: real, vs: seq<real>)
    ensures MinOf(init, vs) <= init
    ensures forall i :: 0 <= i < |vs| ==> MinOf(init, vs) <= vs[i]
    ensures MinOf(init, vs) == init || MinOf(init, vs) in vs
    decreases |vs|
  {
    if vs != [] {
      var front := vs[..|vs| - 1];
      MinOfBounds(init, front);
      forall i | 0 <= i < |front| ensures vs[i] == front[i] { }
    }
  }

  /** The running maximum is above the start value and every value seen, and it is either the
      start value or one of the values. */
  lemma {:induction false} MaxOfBounds(init: real, vs: seq<real>)
    ensures MaxOf(init, vs) >= init
    ensures forall i :: 0 <= i < |vs| ==> MaxOf(init, vs) >= vs[i]
    ensures MaxOf(init, vs) == init || MaxOf(init, vs) in vs
    decreases |vs|
  {
    if vs != [] {
      var front := vs[..|vs| - 1];
      MaxOfBounds(init, front);
      forall i | 0 <= i < |front| ensures vs[i] == front[i] { }
    }
  }

  /** A value reaches the comparisons of a row exactly when some token of the row parses to it
      and it is strictly greater than `nodata`. */
  lemma {:induction false} ValidValuesMembership(tokens: seq<string>, parse: ParseFloat, nodata: real, v: real)
    ensures v in ValidValues(tokens, parse, nodata) <==> exists col: nat :: IsValidToken(tokens, parse, nodata, col, v)
    decreases |tokens|
  {
    if tokens != [] {
      var last := |tokens| - 1;
      var front := tokens[..last];
      ValidValuesMembership(front, parse, nodata, v);
      if v in ValidValues(front, parse, nodata) {
        var col: nat :| IsValidToken(front, parse, nodata, col, v);
        assert tokens[col] == front[col];
        assert IsValidToken(tokens, parse, nodata, col, v);
      }
      if parse(tokens[last]) == Some(v) && v > nodata {
        assert IsValidToken(tokens, parse, nodata, last, v);
      }
      if exists col: nat :: IsValidToken(tokens, parse, nodata, col, v) {
        var col: nat :| IsValidToken(tokens, parse, nodata, col, v);
        if col < last {
          assert front[col] == tokens[col];
          assert IsValidToken(front, parse, nodata, col, v);
        }
      }
    }
  }

  /** Token `col` of a row parses to `v` and `v` is strictly greater than `nodata`. */
  predicate IsValidToken(tokens: seq<string>, parse: ParseFloat, nodata: real, col: nat, v: real)
  {
    col < |tokens| && parse(tokens[col]) == Some(v) && v > nodata
  }

  /** The cell at (row, col) parses to `v` and `v` is strictly greater than `nodata`. */
  predicate IsValidCell(rows: seq<seq<string>>, parse: ParseFloat, nodata: real, row: nat, col: nat, v: real)
  {
    CellAt(rows, parse, row, col) == Some(v) && v > nodata
  }

  /** A value reaches the comparisons exactly when some cell parses to it and it is strictly
      greater than `nodata`: a value at or below NODATA never does. */
  lemma {:induction false} ScanValuesMembership(rows: seq<seq<string>>, parse: ParseFloat, nodata: real, v: real)
    ensures v in ScanValues(rows, parse, nodata) <==>
            exists row: nat, col: nat :: IsValidCell(rows, parse, nodata, row, col, v)
    decreases |rows|
  {
    if rows != [] {
      var last := |rows| - 1;
      var front := rows[..last];
      ScanValuesMembership(front, parse, nodata, v);
      ValidValuesMembership(rows[last], parse, nodata, v);
      if v in ValidValues(rows[last], parse, nodata) {
        var col: nat :| IsValidToken(rows[last], parse, nodata, col, v);
        assert IsValidCell(rows, parse, nodata, last, col, v);
      }
      if v in ScanValues(front, parse, nodata) {
        var row: nat, col: nat :| IsValidCell(front, parse, nodata, row, col, v);
        assert front[row] == rows[row];
        assert IsValidCell(rows, parse, nodata, row, col, v);
      }
      if exists row: nat, col: nat :: IsValidCell(rows, parse, nodata, row, col, v) {
        var row: nat, col: nat :| IsValidCell(rows, parse, nodata, row, col, v);
        if row == last {
          assert IsValidToken(rows[last], parse, nodata, col, v);
        } else {
          assert front[row] == rows[row];
          assert IsValidCell(front, parse, nodata, row, col, v);
        }
      }
    }
  }

  /** Every parsed value strictly greater than NODATA lies within [min_value, max_value]. */
  lemma ValidCellsWithinBounds(rows: seq<seq<string>>, parse: ParseFloat, nodata: real, row: nat, col: nat)
    requires CellAt(rows, parse, row, col).Some? && CellAt(rows, parse, row, col).value > nodata
    ensures Lo(rows, parse, nodata) <= CellAt(rows, parse, row, col).value <= Hi(rows, parse, nodata)
  {
    var v := CellAt(rows, parse, row, col).value;
    var vs := ScanValues(rows, parse, nodata);
    ScanValuesMembership(rows, parse, nodata, v);
    assert IsValidCell(rows, parse, nodata, row, col, v);
    MinOfBounds(MinSentinel, vs);
    MaxOfBounds(MaxSentinel, vs);
  }

  /** With at least one value above NODATA the bounds are ordered; with none they keep their
      starting sentinels. */
  lemma BoundsOrdered(rows: seq<seq<string>>, parse: ParseFloat, nodata: real)
    ensures (exists row: nat, col: nat :: CellAt(rows, parse, row, col).Some? && CellAt(rows, parse, row, col).value > nodata)
            ==> Lo(rows, parse, nodata) <= Hi(rows, parse, nodata)
    ensures (forall row: nat, col: nat :: CellAt(rows, parse, row, col).Some? ==> CellAt(rows, parse, row, col).value <= nodata)
            ==> Lo(rows, parse, nodata) == MinSentinel && Hi(rows, parse, nodata) == MaxSentinel
  {
    var vs := ScanValues(rows, parse, nodata);
    MinOfBounds(MinSentinel, vs);
    MaxOfBounds(MaxSentinel, vs);
    if vs != [] {
      ScanValuesMembership(rows, parse, nodata, vs[0]);
    }
    if exists row: nat, col: nat :: CellAt(rows, parse, row, col).Some? && CellAt(rows, parse, row, col).value > nodata {
      var row: nat, col: nat :| CellAt(rows, parse, row, col).Some? && CellAt(rows, parse, row, col).value > nodata;
      ScanValuesMembership(rows, parse, nodata, CellAt(rows, parse, row, col).value);
      assert IsValidCell(rows, parse, nodata, row, col, CellAt(rows, parse, row, col).value);
    }
  }

  /** When the values above NODATA stay strictly between the sentinels, each bound is the value
      of some valid cell: the sentinels are not left in place. */
  lemma BoundsAttained(rows: seq<seq<string>>, parse: ParseFloat, nodata: real)
    requires ScanValues(rows, parse, nodata) != []
    requires forall v :: v in ScanValues(rows, parse, nodata) ==> MaxSentinel < v < MinSentinel
    ensures exists row: nat, col: nat :: IsValidCell(rows, parse, nodata, row, col, Lo(rows, parse, nodata))
    ensures exists row: nat, col: nat :: IsValidCell(rows, parse, nodata, row, col, Hi(rows, parse, nodata))
  {
    var vs := ScanValues(rows, parse, nodata);
    MinOfBounds(MinSentinel, vs);
    MaxOfBounds(MaxSentinel, vs);
    assert vs[0] in vs;
    ScanValuesMembership(rows, parse, nodata, Lo(rows, parse, nodata));
    ScanValuesMembership(rows, parse, nodata, Hi(rows, parse, nodata));
  }

  /** Reading one more token moves the running bounds only if it parses to a value strictly
      greater than `nodata`. */
  lemma BoundsStep(lo: real, hi: real, tokens: seq<string>, col: nat, parse: ParseFloat, nodata: real)
    requires col < |tokens|
    ensures var v := parse(tokens[col]);
            var lo0, hi0 := MinOf(lo, ValidValues(tokens[..col], parse, nodata)), MaxOf(hi, ValidValues(tokens[..col], parse, nodata));
            MinOf(lo, ValidValues(tokens[..col + 1], parse, nodata)) == (if v.Some? && v.value > nodata && v.value < lo0 then v.value else lo0) &&
            MaxOf(hi, ValidValues(tokens[..col + 1], parse, nodata)) == (if v.Some? && v.value > nodata && v.value > hi0 then v.value else hi0)
  {
    var prefix := tokens[..col + 1];
    assert prefix[..col] == tokens[..col];
    var v := parse(tokens[col]);
    var vs := ValidValues(tokens[..col], parse, nodata);
    if v.Some? && v.value > nodata {
      assert ValidValues(prefix, parse, nodata) == vs + [v.value];
      assert (vs + [v.value])[..|vs|] == vs;
    } else {
      assert ValidValues(prefix, parse, nodata) == vs;
    }
  }

  /** The cells of a dataset, column by column: `Cells(a)[col][row] == a[col, row]`. */
  ghost function Cells(a: array2<real>): (s: seq<seq<real>>)
    reads a
    ensures Shaped(s, a)
    ensures forall c, r :: 0 <= c < a.Length0 && 0 <= r < a.Length1 ==> s[c][r] == a[c, r]
  {
    seq(a.Length0, c requires 0 <= c < a.Length0 reads a => seq(a.Length1, r requires 0 <= r < a.Length1 reads a => a[c, r]))
  }

  /** `cells` has the shape of `a`. */
  ghost predicate Shaped(cells: seq<seq<real>>, a: array2<real>)
  {
    |cells| == a.Length0 && forall c :: 0 <= c < a.Length0 ==> |cells[c]| == a.Length1
  }

  /** The dataset after the data rows `0 .. n-1`, and the tokens of row `n` before column
      `cols`, were read over the initial cells `before`. */
  ghost predicate Filled(dataset: array2<real>, before: seq<seq<real>>, rows: seq<seq<string>>, parse: ParseFloat, n: nat, cols: nat)
    reads dataset
    requires Shaped(before, dataset) && |rows| == dataset.Length1
  {
    forall c, rr :: 0 <= c < dataset.Length0 && 0 <= rr < dataset.Length1 ==>
      dataset[c, rr] == if rr < n || (rr == n && c < cols) then TokenValue(rows[rr], parse, c, before[c][rr]) else before[c][rr]
  }

  /** Once all the tokens of row `n` are read, the row is done. */
  lemma FilledRowEnd(dataset: array2<real>, before: seq<seq<real>>, rows: seq<seq<string>>, parse: ParseFloat, n: nat)
    requires Shaped(before, dataset) && |rows| == dataset.Length1 && n < |rows|
    requires Filled(dataset, before, rows, parse, n, |rows[n]|)
    ensures Filled(dataset, before, rows, parse, n + 1, 0)
  {
  }

  /** With every row read, each cell holds the value its token gives it. */
  lemma FilledAllRows(dataset: array2<real>, before: seq<seq<real>>, rows: seq<seq<string>>, parse: ParseFloat)
    requires Shaped(before, dataset) && |rows| == dataset.Length1
    requires Filled(dataset, before, rows, parse, |rows|, 0)
    ensures forall c, rr :: 0 <= c < dataset.Length0 && 0 <= rr < dataset.Length1 ==>
              dataset[c, rr] == TokenValue(rows[rr], parse, c, before[c][rr])
  {
  }

  /** The token loop for one data row: parsed tokens are written to column `col` of row `row`
      and, when strictly greater than `nodata`, move the running bounds `lo` and `hi`. */
  method ReadRow(dataset: array2<real>, row: nat, tokens: seq<string>, parse: ParseFloat, nodata: real, lo: real, hi: real,
                 ghost before: seq<seq<real>>, ghost rows: seq<seq<string>>)
    returns (r: Result<(real, real), ParseError>)
    requires Shaped(before, dataset) && |rows| == dataset.Length1 && row < |rows| && rows[row] == tokens
    requires Filled(dataset, before, rows, parse, row, 0)
    modifies dataset
    ensures r.Err? <==> RowOverflows(tokens, parse, dataset.Length0)
    ensures r.Err? ==> r.error.IndexError? && r.error.row == row && dataset.Length0 <= r.error.col < |tokens| &&
                       parse(tokens[r.error.col]).Some? && ColsFit(tokens, parse, dataset.Length0, r.error.col)
    ensures r.Ok? ==> r.value == (MinOf(lo, ValidValues(tokens, parse, nodata)), MaxOf(hi, ValidValues(tokens, parse, nodata)))
    ensures r.Ok? ==> Filled(dataset, before, rows, parse, row + 1, 0)
  {
    var width := dataset.Length0;
    var minValue, maxValue := lo, hi;
    var col := 0;
    while col < |tokens|
      invariant 0 <= col <= |tokens|
      invariant minValue == MinOf(lo, ValidValues(tokens[..col], parse, nodata))
      invariant maxValue == MaxOf(hi, ValidValues(tokens[..col], parse, nodata))
      invariant ColsFit(tokens, parse, width, col)
      invariant Filled(dataset, before, rows, parse, row, col)
    {
      BoundsStep(lo, hi, tokens, col, parse, nodata);
      ColsFitStep(tokens, parse, width, col);
      var pointval := parse(tokens[col]);
      if pointval.Some? {
        var v := pointval.value;
        if v > nodata {
          if v < minValue {
            minValue := v;
          }
          if v > maxValue {
            maxValue := v;
          }
        }
        if col >= width {
          ColsFitAll(tokens, parse, width);
          return Err(IndexError(row, col));
        }
        dataset[col, row] := v;
      }
      col := col + 1;
    }
    assert tokens[..col] == tokens;
    ColsFitAll(tokens, parse, width);
    FilledRowEnd(dataset, before, rows, parse, row);
    r := Ok((minValue, maxValue));
  }

  /** The row loop of `from_source_file`: each of the `dataset.Length1` data rows is read in
      turn, each parsed token is written to `dataset[col, row]`, and the running bounds cover
      the values strictly greater than `nodata`. */
  method ReadMatrix(dataset: array2<real>, lines: seq<string>, parse: ParseFloat, nodata: real)
    returns (r: Result<(real, real), ParseError>)
    modifies dataset
    ensures var rows := MatrixTokens(lines, dataset.Length1);
            && (r.Err? <==> Overflows(rows, parse, dataset.Length0))
            && (r.Err? ==> r.error.IndexError? && FirstOverflow(rows, parse, dataset.Length0, r.error.row, r.error.col))
            && (r.Ok? ==> r.value == (Lo(rows, parse, nodata), Hi(rows, parse, nodata)))
            && (r.Ok? ==> forall col, row :: 0 <= col < dataset.Length0 && 0 <= row < dataset.Length1 ==>
                            dataset[col, row] == TokenValue(rows[row], parse, col, old(dataset[col, row])))
  {
    var width, height := dataset.Length0, dataset.Length1;
    ghost var rows := MatrixTokens(lines, height);
    ghost var before := Cells(dataset);
    var minValue, maxValue := MinSentinel, MaxSentinel;
    var row := 0;
    while row < height
      invariant 0 <= row <= height
      invariant minValue == MinOf(MinSentinel, ScanValues(rows[..row], parse, nodata))
      invariant maxValue == MaxOf(MaxSentinel, ScanValues(rows[..row], parse, nodata))
      invariant RowsFit(rows, parse, width, row)
      invariant Filled(dataset, before, rows, parse, row, 0)
    {
      var tokens := RowTokens(lines, row);
      assert rows[..row + 1][..row] == rows[..row];
      ghost var seen := ScanValues(rows[..row], parse, nodata);
      var rowResult := ReadRow(dataset, row, tokens, parse, nodata, minValue, maxValue, before, rows);
      RowsFitStep(rows, parse, width, row);
      if rowResult.Err? {
        assert FirstOverflow(rows, parse, width, row, rowResult.error.col);
        assert RowOverflows(rows[row], parse, width);
        RowsFitAll(rows, parse, width);
        return Err(rowResult.error);
      }
      minValue, maxValue := rowResult.value.0, rowResult.value.1;
      MinOfAppend(MinSentinel, seen, ValidValues(tokens, parse, nodata));
      MaxOfAppend(MaxSentinel, seen, ValidValues(tokens, parse, nodata));
      row := row + 1;
    }
    assert rows[..row] == rows;
    RowsFitAll(rows, parse, width);
    FilledAllRows(dataset, before, rows, parse);
    r := Ok((minValue, maxValue));
  }
}
