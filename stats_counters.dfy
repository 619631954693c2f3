/** `Counter` and `CounterSet` (stats_counters.py): named counters with a shared total, the
    percentages computed from them, and the table `__str__` lays out. */
module StatsCounters {
  import opened Wrappers
  import opened GridText

  /** One named tally. `percentage` is None until `finish` has assigned it. */
  class Counter {
    var count: int
    var percentage: Option<real>

    constructor()
      ensures count == 0 && percentage == None
    {
      count := 0;
      percentage := None;
    }

    method Inc()
      modifies this
      ensures count == old(count) + 1 && percentage == old(percentage)
    {
      count := count + 1;
    }

    /** `self.percentage = self.count/total*100`. With `total` 0 the division raises
        ZeroDivisionError before anything is assigned: `ok` is false and nothing changes. */
    method Finish(total: int) returns (ok: bool)
      modifies this
      ensures ok <==> total != 0
      ensures count == old(count)
      ensures ok ==> percentage == Some(Share(count, total))
      ensures !ok ==> percentage == old(percentage)
    {
      if total == 0 {
        return false;
      }
      percentage := Some(Share(count, total));
      return true;
    }
  }

  /** `count/total*100` over the reals. */
  function Share(count: int, total: int): real
    requires total != 0
  {
    count as real / total as real * 100.0
  }

  /** A count between 0 and the total is a percentage between 0 and 100, and the whole total
      is 100; the share grows with the count. */
  lemma ShareIsPercentage(count: int, total: int)
    requires total > 0
    ensures 0 <= count <= total ==> 0.0 <= Share(count, total) <= 100.0
    ensures count == total ==> Share(count, total) == 100.0
    ensures forall c :: count <= c ==> Share(count, total) <= Share(c, total)
  {
    var t := total as real;
    assert 0 <= count <= total ==> count as real / t <= 1.0;
    forall c | count <= c
      ensures Share(count, total) <= Share(c, total)
    {
      assert count as real / t <= c as real / t;
    }
  }

  /** The distinct names of `names` in order of first occurrence: the keys of
      `{name: Counter() for name in names}`. */
  function Dedup(names: seq<string>): (d: seq<string>)
    ensures Distinct(d)
    ensures forall n :: n in d <==> n in names
    decreases |names|
  {
    if names == [] then []
    else
      var front := Dedup(names[..|names| - 1]);
      var last := names[|names| - 1];
      if last in front then front else front + [last]
  }

  predicate Distinct(s: seq<string>)
  {
    forall i, j :: 0 <= i < j < |s| ==> s[i] != s[j]
  }

  /** Names that are already distinct are kept as given. */
  lemma {:induction false} DedupDistinct(names: seq<string>)
    requires Distinct(names)
    ensures Dedup(names) == names
    decreases |names|
  {
    if names != [] {
      var front := names[..|names| - 1];
      assert Distinct(front);
      DedupDistinct(front);
      assert names[|names| - 1] !in front;
      assert front + [names[|names| - 1]] == names;
    }
  }

  /** The sum of `counts` over `names`. */
  function SumOver(names: seq<string>, counts: map<string, int>): int
    requires forall n :: n in names ==> n in counts
    decreases |names|
  {
    if names == [] then 0
    else SumOver(names[..|names| - 1], counts) + counts[names[|names| - 1]]
  }

  /** Raising one distinct name's count by one raises the sum by one. */
  lemma {:induction false} SumOverIncrement(names: seq<string>, counts: map<string, int>, name: string)
    requires Distinct(names)
    requires forall n :: n in names ==> n in counts
    requires name in names
    ensures SumOver(names, counts[name := counts[name] + 1]) == SumOver(names, counts) + 1
    decreases |names|
  {
    var front := names[..|names| - 1];
    var last := names[|names| - 1];
    if last == name {
      assert name !in front;
      SumOverUnchanged(front, counts, counts[name := counts[name] + 1]);
    } else {
      assert name in front;
      SumOverIncrement(front, counts, name);
    }
  }

  /** The sum only depends on the counts of the names summed over. */
  lemma {:induction false} SumOverUnchanged(names: seq<string>, c1: map<string, int>, c2: map<string, int>)
    requires forall n :: n in names ==> n in c1 && n in c2 && c1[n] == c2[n]
    ensures SumOver(names, c1) == SumOver(names, c2)
    decreases |names|
  {
    if names != [] {
      SumOverUnchanged(names[..|names| - 1], c1, c2);
    }
  }

  /** The sum of the shares `count/total*100` over `names`. */
  function SumShares(names: seq<string>, counts: map<string, int>, total: int): real
    requires forall n :: n in names ==> n in counts
    requires total != 0
    decreases |names|
  {
    if names == [] then 0.0
    else SumShares(names[..|names| - 1], counts, total) + Share(counts[names[|names| - 1]], total)
  }

  /** The shares add up to the sum of the counts, as a percentage of the total. */
  lemma {:induction false} SumSharesIsScaledSum(names: seq<string>, counts: map<string, int>, total: int)
    requires forall n :: n in names ==> n in counts
    requires total != 0
    ensures SumShares(names, counts, total) == SumOver(names, counts) as real / total as real * 100.0
    decreases |names|
  {
    if names != [] {
      var front := names[..|names| - 1];
      SumSharesIsScaledSum(front, counts, total);
      var a, b, t := SumOver(front, counts) as real, counts[names[|names| - 1]] as real, total as real;
      assert a / t * 100.0 + b / t * 100.0 == (a + b) / t * 100.0;
    }
  }

  /** When the counts add up to a non-zero total the percentages add up to 100. */
  lemma PercentagesSumTo100(names: seq<string>, counts: map<string, int>, total: int)
    requires forall n :: n in names ==> n in counts
    requires total != 0 && SumOver(names, counts) == total
    ensures SumShares(names, counts, total) == 100.0
  {
    SumSharesIsScaledSum(names, counts, total);
    assert total as real / total as real == 1.0;
  }

  /** The longest name: `max([len(counter_name) for ...])`, which raises ValueError on no names. */
  function Longest(names: seq<string>): (n: nat)
    requires names != []
    ensures forall i :: 0 <= i < |names| ==> |names[i]| <= n
    ensures exists i :: 0 <= i < |names| && |names[i]| == n
    decreases |names|
  {
    if |names| == 1 then |names[0]|
    else
      var m := Longest(names[..|names| - 1]);
      var last := |names[|names| - 1]|;
      assert forall i :: 0 <= i < |names| - 1 ==> names[i] == names[..|names| - 1][i];
      if last > m then last else m
  }

  /** `name_length_padded = max(longest + 3, 8)`. */
  function PaddingWidth(names: seq<string>): (w: nat)
    requires names != []
    ensures 8 <= w && Longest(names) + 3 <= w
    ensures w == 8 || w == Longest(names) + 3
  {
    var l := Longest(names) + 3;
    if l > 8 then l else 8
  }

  /** The padding leaves at least three spaces after the longest name, fits "Total", and is the
      least width that does both and is at least 8. */
  lemma PaddingWidthBounds(names: seq<string>)
    requires names != []
    ensures forall i :: 0 <= i < |names| ==> |names[i]| + 3 <= PaddingWidth(names)
    ensures |"Total"| < PaddingWidth(names)
    ensures 8 <= PaddingWidth(names)
    ensures PaddingWidth(names) == 8 || exists i :: 0 <= i < |names| && |names[i]| + 3 == PaddingWidth(names)
  {
  }

  /** One line of the table: the padded name, the count and the percentage. The number
      formatting (`:>6`, `4.2f`) is not modelled. */
  datatype Line = Line(padded: string, count: int, percentage: real)

  /** Why `__str__` fails: `finish_all` divides by a zero total, or `max` of no names. */
  datatype RenderError = ZeroDivision | EmptyMax

  /** The line of one counter: its name padded to `w`, its count and its share. */
  function CounterLine(name: string, w: nat, counts: map<string, int>, total: int): Line
    requires name in counts && total != 0
  {
    Line(PadRight(name, w), counts[name], Share(counts[name], total))
  }

  /** The lines of the counters `names`, in order. */
  function CounterLines(names: seq<string>, w: nat, counts: map<string, int>, total: int): (lines: seq<Line>)
    requires forall n :: n in names ==> n in counts
    requires total != 0
    ensures |lines| == |names|
    decreases |names|
  {
    if names == [] then []
    else CounterLines(names[..|names| - 1], w, counts, total) + [CounterLine(names[|names| - 1], w, counts, total)]
  }

  lemma {:induction false} CounterLinesAt(names: seq<string>, w: nat, counts: map<string, int>, total: int, i: nat)
    requires forall n :: n in names ==> n in counts
    requires total != 0 && i < |names|
    ensures CounterLines(names, w, counts, total)[i] == CounterLine(names[i], w, counts, total)
    decreases |names|
  {
    if i < |names| - 1 {
      CounterLinesAt(names[..|names| - 1], w, counts, total, i);
    }
  }

  /** The lines of `__str__` for the given names, counts and total: one line per counter in
      key order and then the "Total" line. */
  function Table(names: seq<string>, counts: map<string, int>, total: int): (lines: seq<Line>)
    requires names != [] && total != 0
    requires forall n :: n in names ==> n in counts
    ensures |lines| == |names| + 1
  {
    var w := PaddingWidth(names);
    CounterLines(names, w, counts, total) + [Line(PadRight("Total", w), total, 100.0)]
  }

  /** Every line's padded name has the same width, the padding width, and starts with its
      counter's name, in key order, with "Total" last; so the count column lines up. */
  lemma TableAligned(names: seq<string>, counts: map<string, int>, total: int)
    requires names != [] && total != 0
    requires forall n :: n in names ==> n in counts
    ensures var lines := Table(names, counts, total);
            && (forall i :: 0 <= i < |lines| ==> |lines[i].padded| == PaddingWidth(names))
            && (forall i :: 0 <= i < |names| ==>
                  lines[i].padded[..|names[i]|] == names[i] && lines[i].count == counts[names[i]] &&
                  lines[i].percentage == Share(counts[names[i]], total))
            && lines[|names|].padded[..5] == "Total" && lines[|names|].count == total
  {
    var w := PaddingWidth(names);
    var lines := Table(names, counts, total);
    PaddingWidthBounds(names);
    forall i | 0 <= i < |names|
      ensures |lines[i].padded| == w
      ensures lines[i].padded[..|names[i]|] == names[i] && lines[i].count == counts[names[i]]
      ensures lines[i].percentage == Share(counts[names[i]], total)
    {
      CounterLinesAt(names, w, counts, total, i);
      PadRightKeepsText(names[i], w);
    }
    PadRightKeepsText("Total", w);
  }

  /** The dictionary comprehension `{name: Counter() for name in names}`: one fresh counter
      per distinct name (a repeated name gets a new counter, which replaces the earlier one). */
  method NewCounters(counterNames: seq<string>) returns (m: map<string, Counter>)
    ensures forall n :: n in m <==> n in counterNames
    ensures forall n :: n in m ==> fresh(m[n]) && m[n].count == 0 && m[n].percentage == None
    ensures forall n, k :: n in m && k in m && n != k ==> m[n] != m[k]
  {
    m := map[];
    var i := 0;
    while i < |counterNames|
      invariant 0 <= i <= |counterNames|
      invariant forall n :: n in m <==> n in counterNames[..i]
      invariant forall n :: n in m ==> fresh(m[n]) && m[n].count == 0 && m[n].percentage == None
      invariant forall n, k :: n in m && k in m && n != k ==> m[n] != m[k]
    {
      var c := new Counter();
      m := m[counterNames[i] := c];
      assert counterNames[..i + 1] == counterNames[..i] + [counterNames[i]];
      i := i + 1;
    }
    assert counterNames[..i] == counterNames;
  }

  /** A set of named counters sharing one total. `names` is the dictionary's key order. */
  class CounterSet {
    var names: seq<string>
    var counters: map<string, Counter>
    var total: int

    /** The key order lists each key of `counters` once, and distinct names own distinct
        counters. */
    ghost predicate Valid()
      reads this
    {
      && Distinct(names)
      && (forall n :: n in names <==> n in counters)
      && (forall n, m :: n in counters && m in counters && n != m ==> counters[n] != counters[m])
    }

    /** The count of every counter. */
    function Counts(): (c: map<string, int>)
      reads this, counters.Values
      ensures c.Keys == counters.Keys
    {
      map n | n in counters :: counters[n].count
    }

    /** The percentage of every counter (None before `finish`). */
    function Percentages(): (p: map<string, Option<real>>)
      reads this, counters.Values
      ensures p.Keys == counters.Keys
    {
      map n | n in counters :: counters[n].percentage
    }

    /** Every counter holds its share of a non-zero total, as `finish_all` leaves them. */
    ghost predicate Finished()
      reads this, counters.Values
    {
      total != 0 && forall n :: n in counters ==> counters[n].percentage == Some(Share(counters[n].count, total))
    }

    /** The counts add up to the total. */
    ghost predicate Balanced()
      reads this, counters.Values
      requires Valid()
    {
      SumOver(names, Counts()) == total
    }

    /** `CounterSet(counter_names)`: a fresh counter at 0 for each distinct name, in order of
        first occurrence, and a total of 0. */
    constructor(counterNames: seq<string>)
      ensures Valid() && Balanced()
      ensures names == Dedup(counterNames)
      ensures forall n :: n in counters <==> n in counterNames
      ensures forall n :: n in counters ==> fresh(counters[n]) && counters[n].count == 0 && counters[n].percentage == None
      ensures total == 0
    {
      var m := NewCounters(counterNames);
      names := Dedup(counterNames);
      counters := m;
      total := 0;
      new;
      ZeroSum(names, Counts());
    }

    /** `inc(counter_name)`: the total goes up by one first, and then the named counter; an
        unregistered name raises KeyError at that point (`ok` is false), leaving the total one
        higher than the counts. */
    method Inc(name: string) returns (ok: bool)
      requires Valid()
      modifies this, if name in counters then {counters[name]} else {}
      ensures Valid()
      ensures names == old(names) && counters == old(counters)
      ensures total == old(total) + 1
      ensures ok <==> name in counters
      ensures ok ==> Counts() == old(Counts())[name := old(Counts())[name] + 1]
      ensures !ok ==> Counts() == old(Counts())
      ensures forall n :: n in counters ==> counters[n].percentage == old(counters[n].percentage)
      ensures old(Balanced()) ==> (Balanced() <==> ok)
    {
      ghost var before := Counts();
      total := total + 1;
      if name !in counters {
        assert Counts() == before;
        return false;
      }
      counters[name].Inc();
      assert Counts() == before[name := before[name] + 1];
      SumOverIncrement(names, before, name);
      return true;
    }

    /** `finish_all`: `finish(total)` on each counter in key order. With a zero total the first
        call raises, so `ok` is false and nothing has changed; with no counters nothing is
        called and `ok` is true. Counts and total never change. */
    method FinishAll() returns (ok: bool)
      requires Valid()
      modifies counters.Values
      ensures Valid()
      ensures ok <==> total != 0 || names == []
      ensures forall n :: n in counters ==> counters[n].count == old(counters[n].count)
      ensures ok && total != 0 ==> Finished()
      ensures !ok ==> forall n :: n in counters ==> counters[n].percentage == old(counters[n].percentage)
    {
      var i := 0;
      while i < |names|
        invariant 0 <= i <= |names|
        invariant total == 0 ==> i == 0
        invariant forall n :: n in counters ==> counters[n].count == old(counters[n].count)
        invariant forall k :: 0 <= k < i ==> counters[names[k]].percentage == Some(Share(counters[names[k]].count, total))
        invariant forall k :: i <= k < |names| ==> counters[names[k]].percentage == old(counters[names[k]].percentage)
      {
        var done := counters[names[i]].Finish(total);
        if !done {
          return false;
        }
        i := i + 1;
      }
      return true;
    }

    /** The line loop of `__str__` over finished counters. */
    method TableLines() returns (lines: seq<Line>)
      requires Valid() && Finished() && names != []
      ensures lines == Table(names, Counts(), total)
    {
      var w := PaddingWidth(names);
      ghost var counts := Counts();
      lines := [];
      var i := 0;
      while i < |names|
        invariant 0 <= i <= |names|
        invariant lines == CounterLines(names[..i], w, counts, total)
      {
        var c := counters[names[i]];
        lines := lines + [Line(PadRight(names[i], w), c.count, c.percentage.value)];
        assert names[..i + 1][..i] == names[..i];
        i := i + 1;
      }
      assert names[..i] == names;
      lines := lines + [Line(PadRight("Total", w), total, 100.0)];
    }

    /** Running `finish_all` twice: the second run fails exactly when the first did and leaves
        the same percentages, since neither changes a count or the total. */
    method FinishAllTwice() returns (ok1: bool, ok2: bool, first: map<string, Option<real>>)
      requires Valid()
      modifies counters.Values
      ensures Valid()
      ensures ok1 == ok2
      ensures first == Percentages()
      ensures Counts() == old(Counts())
    {
      ghost var counts := Counts();
      ok1 := FinishAll();
      first := Percentages();
      ok2 := FinishAll();
      assert Counts() == counts;
    }

    /** `__str__`: runs `finish_all`, then lays out the table. A zero total with counters
        present fails in `finish_all`; no counters at all fails in `max`. Counts and total are
        unchanged. */
    method Render() returns (r: Result<seq<Line>, RenderError>)
      requires Valid()
      modifies counters.Values
      ensures Valid()
      ensures Counts() == old(Counts())
      ensures r.Err? <==> total == 0 || names == []
      ensures names != [] && total == 0 ==> r == Err(ZeroDivision)
      ensures names == [] ==> r == Err(EmptyMax)
      ensures r.Ok? ==> names != [] && total != 0 && r.value == Table(names, Counts(), total)
      ensures r.Ok? ==> Finished()
    {
      ghost var counts := Counts();
      var ok := FinishAll();
      assert Counts() == counts;
      if !ok {
        return Err(ZeroDivision);
      }
      if names == [] {
        return Err(EmptyMax);
      }
      var lines := TableLines();
      return Ok(lines);
    }
  }

  /** All-zero counts add up to 0. */
  lemma {:induction false} ZeroSum(names: seq<string>, counts: map<string, int>)
    requires forall n :: n in names ==> n in counts && counts[n] == 0
    ensures SumOver(names, counts) == 0
    decreases |names|
  {
    if names != [] {
      ZeroSum(names[..|names| - 1], counts);
    }
  }
}
