/** The six-line header of an NSI grid file (`MaterialMap.from_source_file`, nsi_grids.py).
    Each header line is `<name> ... <value>`: split on single spaces, the first piece is the
    parameter name and the last piece is its value. */
module GridHeader {
  import opened Wrappers
  import opened GridText

  /** Python's `float(token)`, which the model does not re-implement. */
  type ParseFloat = string -> Option<real>

  /** `MaterialMap.param_names`, in the order the completeness check visits them. */
  const ParamNames: seq<string> := ["ncols", "nrows", "xllcorner", "yllcorner", "cellsize", "NODATA_value"]

  /** The header is read with one `readline()` per parameter name. */
  const HeaderLength: nat := |ParamNames|

  /** The exceptions that abort reading one grid file. */
  datatype ParseError =
    | ValueError(line: nat)              // float() refused the last token of header line `line`
    | KeyError(param: string)            // a parameter never appeared as a leading token
    | NegativeDimension                  // np.empty refused a negative ncols or nrows
    | IndexError(row: nat, col: nat)     // a parsed cell lies beyond the declared ncols

  /** `readline()` on the file: past the end it gives the empty string. */
  function ReadLine(lines: seq<string>, i: nat): string
  {
    if i < |lines| then lines[i] else ""
  }

  function LeadToken(line: string): string
  {
    Split(line, ' ')[0]
  }

  function LastToken(line: string): string
  {
    var bits := Split(line, ' ');
    bits[|bits| - 1]
  }

  /** The six header lines, as the six `readline()` calls return them. */
  function HeaderBlock(lines: seq<string>): (hs: seq<string>)
    ensures |hs| == HeaderLength
    ensures forall i :: 0 <= i < HeaderLength ==> hs[i] == ReadLine(lines, i)
  {
    seq(HeaderLength, i requires 0 <= i => ReadLine(lines, i))
  }

  /** The dictionary `paramvals` after processing the header lines `hs` in order. The value
      is converted before the name is looked at, so an unparseable value aborts even on a
      line whose name is unknown; a known name overwrites an earlier value; an unknown name
      is only logged. */
  function CollectParams(hs: seq<string>, parse: ParseFloat): (r: Result<map<string, real>, ParseError>)
    ensures r.Err? ==> r.error.ValueError? && r.error.line < |hs| && parse(LastToken(hs[r.error.line])).None?
    decreases |hs|
  {
    if hs == [] then Ok(map[])
    else
      var prev := CollectParams(hs[..|hs| - 1], parse);
      var line := hs[|hs| - 1];
      var v := parse(LastToken(line));
      if prev.Err? then prev
      else if v.None? then Err(ValueError(|hs| - 1))
      else Ok(Record(prev.value, line, v.value))
  }

  /** One header line's effect on `paramvals`: a known name is (over)written, an unknown one
      leaves the dictionary as it was. */
  function Record(m: map<string, real>, line: string, v: real): map<string, real>
  {
    if LeadToken(line) in ParamNames then m[LeadToken(line) := v] else m
  }

  /** Unfolds one step of `CollectParams` on a successful header. */
  lemma {:induction false} CollectParamsStep(hs: seq<string>, parse: ParseFloat, m: map<string, real>)
    requires hs != [] && CollectParams(hs, parse) == Ok(m)
    ensures CollectParams(hs[..|hs| - 1], parse).Ok?
    ensures parse(LastToken(hs[|hs| - 1])).Some?
    ensures m == Record(CollectParams(hs[..|hs| - 1], parse).value, hs[|hs| - 1], parse(LastToken(hs[|hs| - 1])).value)
  {
  }

  /** The position of the first name in `names` that is not a key of `m` (|names| if none). */
  function FirstMissing(names: seq<string>, m: map<string, real>): (i: nat)
    ensures i <= |names|
    ensures forall j :: 0 <= j < i ==> names[j] in m
    ensures i < |names| ==> names[i] !in m
  {
    if names == [] || names[0] !in m then 0 else 1 + FirstMissing(names[1..], m)
  }

  /** The header as a whole: the parameters, or the exception that aborts the load. */
  function ParseHeader(lines: seq<string>, parse: ParseFloat): (r: Result<map<string, real>, ParseError>)
    ensures r.Ok? ==> forall n :: n in ParamNames ==> n in r.value
  {
    match CollectParams(HeaderBlock(lines), parse)
    case Err(e) => Err(e)
    case Ok(m) =>
      var i := FirstMissing(ParamNames, m);
      if i < |ParamNames| then Err(KeyError(ParamNames[i])) else Ok(m)
  }

  /** The header loop and the completeness check of `from_source_file`. */
  method ReadHeader(lines: seq<string>, parse: ParseFloat) returns (r: Result<map<string, real>, ParseError>)
    ensures r == ParseHeader(lines, parse)
  {
    var hs := HeaderBlock(lines);
    var paramvals: map<string, real> := map[];
    var i := 0;
    while i < HeaderLength
      invariant 0 <= i <= HeaderLength
      invariant CollectParams(hs[..i], parse) == Ok(paramvals)
    {
      var paramline := ReadLine(lines, i);
      ghost var old_paramvals := paramvals;
      var bits := Split(paramline, ' ');
      var pnamefound := bits[0];
      var pvaluefound := parse(bits[|bits| - 1]);
      assert hs[..i + 1][..i] == hs[..i];
      if pvaluefound.None? {
        CollectParamsErrorPersists(hs, i + 1, parse);
        return Err(ValueError(i));
      }
      if pnamefound in ParamNames {
        paramvals := paramvals[pnamefound := pvaluefound.value];
      }
      assert paramvals == Record(old_paramvals, paramline, pvaluefound.value);
      i := i + 1;
    }
    assert hs[..i] == hs;
    var k := 0;
    while k < |ParamNames|
      invariant 0 <= k <= |ParamNames|
      invariant forall j :: 0 <= j < k ==> ParamNames[j] in paramvals
    {
      if ParamNames[k] !in paramvals {
        FirstMissingAt(ParamNames, paramvals, k);
        return Err(KeyError(ParamNames[k]));
      }
      k := k + 1;
    }
    r := Ok(paramvals);
  }

  /** Some line of `hs` has `n` as its leading token. */
  predicate Leads(hs: seq<string>, n: string)
  {
    exists i :: 0 <= i < |hs| && LeadToken(hs[i]) == n
  }

  lemma LeadsSnoc(hs: seq<string>, n: string)
    requires hs != []
    ensures Leads(hs, n) <==> Leads(hs[..|hs| - 1], n) || LeadToken(hs[|hs| - 1]) == n
  {
    var front := hs[..|hs| - 1];
    if Leads(front, n) {
      var i :| 0 <= i < |front| && LeadToken(front[i]) == n;
      assert hs[i] == front[i];
    }
    if Leads(hs, n) {
      var i :| 0 <= i < |hs| && LeadToken(hs[i]) == n;
      if i < |front| { assert front[i] == hs[i]; }
    }
  }

  /** A successful header came from lines whose values all parsed. */
  lemma {:induction false} CollectParamsParsed(hs: seq<string>, parse: ParseFloat)
    requires CollectParams(hs, parse).Ok?
    ensures forall i :: 0 <= i < |hs| ==> parse(LastToken(hs[i])).Some?
    decreases |hs|
  {
    if hs != [] {
      var front := hs[..|hs| - 1];
      CollectParamsParsed(front, parse);
      forall i | 0 <= i < |front| ensures hs[i] == front[i] { }
    }
  }

  /** The keys of a successful header are exactly the known names that lead some line:
      unknown leading names are ignored. */
  lemma {:induction false} CollectParamsKeys(hs: seq<string>, parse: ParseFloat, m: map<string, real>)
    requires CollectParams(hs, parse) == Ok(m)
    ensures forall n :: n in m <==> n in ParamNames && Leads(hs, n)
    decreases |hs|
  {
    if hs != [] {
      var front := hs[..|hs| - 1];
      CollectParamsStep(hs, parse, m);
      var m' := CollectParams(front, parse).value;
      CollectParamsKeys(front, parse, m');
      forall n ensures n in m <==> n in ParamNames && Leads(hs, n) {
        LeadsSnoc(hs, n);
      }
    }
  }

  /** Line `i` leads with a known name that no later line leads. */
  predicate LastLeader(hs: seq<string>, i: nat)
    requires i < |hs|
  {
    LeadToken(hs[i]) in ParamNames && forall j :: i < j < |hs| ==> LeadToken(hs[j]) != LeadToken(hs[i])
  }

  /** Each key holds the value of the LAST line it leads: a later line overwrites. */
  lemma {:induction false} CollectParamsLastWins(hs: seq<string>, parse: ParseFloat, m: map<string, real>)
    requires CollectParams(hs, parse) == Ok(m)
    ensures forall i :: 0 <= i < |hs| && LastLeader(hs, i) ==>
                        LeadToken(hs[i]) in m && parse(LastToken(hs[i])) == Some(m[LeadToken(hs[i])])
    decreases |hs|
  {
    if hs != [] {
      var front := hs[..|hs| - 1];
      var last := hs[|hs| - 1];
      CollectParamsStep(hs, parse, m);
      var m' := CollectParams(front, parse).value;
      CollectParamsLastWins(front, parse, m');
      forall i | 0 <= i < |hs| && LastLeader(hs, i)
        ensures LeadToken(hs[i]) in m && parse(LastToken(hs[i])) == Some(m[LeadToken(hs[i])])
      {
        if i < |front| {
          assert hs[i] == front[i];
          assert LeadToken(last) != LeadToken(hs[i]);
          assert m[LeadToken(hs[i])] == m'[LeadToken(hs[i])];
          assert LastLeader(front, i) by {
            forall j | i < j < |front| ensures LeadToken(front[j]) != LeadToken(front[i]) {
              assert front[j] == hs[j];
            }
          }
        }
      }
    }
  }

  /** Once a prefix of the header has failed, the whole header fails the same way. */
  lemma {:induction false} CollectParamsErrorPersists(hs: seq<string>, k: nat, parse: ParseFloat)
    requires k <= |hs| && CollectParams(hs[..k], parse).Err?
    ensures CollectParams(hs, parse) == CollectParams(hs[..k], parse)
    decreases |hs| - k
  {
    if k < |hs| {
      var front := hs[..|hs| - 1];
      assert front[..k] == hs[..k];
      CollectParamsErrorPersists(front, k, parse);
    } else {
      assert hs[..k] == hs;
    }
  }

  /** The header fails with ValueError exactly when some line's last token does not parse,
      and it names the first such line. */
  lemma {:induction false} CollectParamsError(hs: seq<string>, parse: ParseFloat)
    ensures CollectParams(hs, parse).Err? <==> exists i :: 0 <= i < |hs| && parse(LastToken(hs[i])).None?
    ensures forall i :: 0 <= i < |hs| && parse(LastToken(hs[i])).None? &&
                        (forall j :: 0 <= j < i ==> parse(LastToken(hs[j])).Some?)
                        ==> CollectParams(hs, parse) == Err(ValueError(i))
    decreases |hs|
  {
    if hs != [] {
      var front := hs[..|hs| - 1];
      CollectParamsError(front, parse);
      forall i | 0 <= i < |front| ensures front[i] == hs[i] { }
    }
  }

  /** Only the first six lines matter: whatever follows them cannot change the header. */
  lemma HeaderReadsSixLines(lines: seq<string>, rest: seq<string>)
    requires |lines| >= HeaderLength
    ensures forall parse: ParseFloat :: ParseHeader(lines + rest, parse) == ParseHeader(lines, parse)
  {
    assert HeaderBlock(lines + rest) == HeaderBlock(lines);
  }

  /** The KeyError names the first entry of `param_names` that no header line leads, and it
      is raised only when every value parsed; unknown leading names never raise by themselves. */
  lemma MissingParameterNamed(lines: seq<string>, parse: ParseFloat, k: nat)
    requires forall i :: 0 <= i < HeaderLength ==> parse(LastToken(ReadLine(lines, i))).Some?
    requires k < |ParamNames|
    requires forall i :: 0 <= i < HeaderLength ==> LeadToken(ReadLine(lines, i)) != ParamNames[k]
    requires forall j :: 0 <= j < k ==> exists i :: 0 <= i < HeaderLength && LeadToken(ReadLine(lines, i)) == ParamNames[j]
    ensures ParseHeader(lines, parse) == Err(KeyError(ParamNames[k]))
  {
    var hs := HeaderBlock(lines);
    CollectParamsError(hs, parse);
    var m := CollectParams(hs, parse).value;
    CollectParamsKeys(hs, parse, m);
    assert !Leads(hs, ParamNames[k]);
    forall j | 0 <= j < k ensures ParamNames[j] in m {
      var w :| 0 <= w < HeaderLength && LeadToken(ReadLine(lines, w)) == ParamNames[j];
      assert LeadToken(hs[w]) == ParamNames[j];
    }
    FirstMissingAt(ParamNames, m, k);
  }

  /** The first missing name is the one at `k` when all before it are present. */
  lemma FirstMissingAt(names: seq<string>, m: map<string, real>, k: nat)
    requires k < |names| && names[k] !in m
    requires forall j :: 0 <= j < k ==> names[j] in m
    ensures FirstMissing(names, m) == k
  {
  }

  /** When every value parses and every parameter leads some line, the header succeeds and
      holds only the six known names. */
  lemma HeaderComplete(lines: seq<string>, parse: ParseFloat)
    requires forall i :: 0 <= i < HeaderLength ==> parse(LastToken(ReadLine(lines, i))).Some?
    requires forall n :: n in ParamNames ==> exists i :: 0 <= i < HeaderLength && LeadToken(ReadLine(lines, i)) == n
    ensures ParseHeader(lines, parse).Ok?
    ensures ParseHeader(lines, parse).value.Keys == set n | n in ParamNames
  {
    var hs := HeaderBlock(lines);
    CollectParamsError(hs, parse);
    var m := CollectParams(hs, parse).value;
    CollectParamsKeys(hs, parse, m);
    forall n | n in ParamNames ensures n in m {
      var w :| 0 <= w < HeaderLength && LeadToken(ReadLine(lines, w)) == n;
      assert LeadToken(hs[w]) == n;
      assert Leads(hs, n);
    }
  }
}
