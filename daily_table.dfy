/** `construct_daily_dataframe` and `snotel_fetch` of both libraries: the daily
    SNOTEL table of one station, built from six per-variable series fetched
    from the WaterOneFlow service. The station-registry library joins them
    with outer joins, the SNOTEL library with pandas' default left join; that
    is the only difference between the two. */
module DailyTable {
  import opened Wrappers
  import opened Frames

  /** The service's no-data value. */
  const Sentinel: real := -9999.0

  /** The variables fetched, temperatures (in degrees Fahrenheit) first, then
      the lengths (in inches). */
  const DailyCodes: seq<string> := ["TAVG_D", "TMIN_D", "TMAX_D", "SNWD_D", "WTEQ_D", "PRCPSA_D"]

  /** How many of `DailyCodes` are temperatures. */
  const TemperatureCount := 3

  /** The columns of the daily table. */
  const DailyColumns: seq<Col> :=
    [Named("TAVG"), Named("TMIN"), Named("TMAX"), Named("SNWD"), Named("WTEQ"), Named("PRCPSA")]

  /** `var[:-2]`: the code without its last two characters. */
  function ColumnName(code: string): (name: string)
    ensures |code| >= 2 ==> name + code[|code| - 2..] == code
    ensures |code| < 2 ==> name == ""
  {
    if |code| >= 2 then code[..|code| - 2] else ""
  }

  /** Each column is its variable code with the `_D` suffix removed. */
  lemma ColumnOfCode(k: int)
    requires 0 <= k < |DailyCodes|
    ensures DailyCodes[k][|DailyCodes[k]| - 2..] == "_D"
    ensures DailyColumns[k] == Named(ColumnName(DailyCodes[k]))
  {
    if k == 0 { assert DailyCodes[k] == "TAVG" + "_D"; }
    else if k == 1 { assert DailyCodes[k] == "TMIN" + "_D"; }
    else if k == 2 { assert DailyCodes[k] == "TMAX" + "_D"; }
    else if k == 3 { assert DailyCodes[k] == "SNWD" + "_D"; }
    else if k == 4 { assert DailyCodes[k] == "WTEQ" + "_D"; }
    else { assert DailyCodes[k] == "PRCPSA" + "_D"; }
  }

  /** The six column names are distinct. */
  lemma ColumnsDistinct()
    ensures Distinct(DailyColumns)
  {
  }

  /** `.replace(-9999, np.nan)` on one value. */
  function Normalize(x: real): Option<real>
  {
    if x == Sentinel then None else Some(x)
  }

  /** `snotel_fetch` after the web call: the response's numeric values with the
      sentinel turned into NaN. The dates and every other value are kept. */
  function SnotelFetch(raw: ValidSeries<real>): (r: ValidSeries<Option<real>>)
    ensures r.index == raw.index
    ensures forall d :: d in r.values <==> d in raw.values
    ensures forall d :: d in raw.values ==> (r.values[d].None? <==> raw.values[d] == Sentinel)
    ensures forall d :: d in raw.values && r.values[d].Some? ==> r.values[d].value == raw.values[d]
  {
    Series(raw.index, map d | d in raw.values :: Normalize(raw.values[d]))
  }

  /** The variable's value at `d` after sentinel replacement; NaN when the
      service has no entry for `d`. */
  function Normalized(raw: ValidSeries<real>, d: Date): Option<real>
  {
    if d in raw.values then Normalize(raw.values[d]) else None
  }

  /** Whether a fetch succeeds: the call answers with at least one date. An
      empty answer has no `datetime` column, and `snotel_fetch` raises on
      it. */
  predicate Answered(a: Option<ValidSeries<real>>)
  {
    a.Some? && |a.value.index| > 0
  }

  /** Whether the first `n` fetches succeed. */
  ghost predicate FetchedUpTo(fetch: string -> Option<ValidSeries<real>>, n: int)
  {
    forall k :: 0 <= k < n && k < |DailyCodes| ==> Answered(fetch(DailyCodes[k]))
  }

  /** Whether `d` is a date of one of the first `n` series. */
  ghost predicate InSomeIndex(fetch: string -> Option<ValidSeries<real>>, n: int, d: Date)
    requires FetchedUpTo(fetch, n)
  {
    exists k :: 0 <= k < n && k < |DailyCodes| && d in fetch(DailyCodes[k]).value.index
  }

  /** The conversion the table applies to variable `k`. */
  function ConversionFor(k: int, toCelsius: real -> real, toMeters: real -> real): real -> real
  {
    if k < TemperatureCount then toCelsius else toMeters
  }

  /** What column `k` holds at date `d`: the normalized value, converted once
      the conversions have run. */
  function Expected(fetch: string -> Option<ValidSeries<real>>, k: int, d: Date, converted: bool,
                    toCelsius: real -> real, toMeters: real -> real): Option<real>
    requires FetchedUpTo(fetch, k + 1) && 0 <= k < |DailyCodes|
  {
    var v := Normalized(fetch(DailyCodes[k]).value, d);
    if converted then MapOption(v, ConversionFor(k, toCelsius, toMeters)) else v
  }

  /** The table after the first `n` variables have been joined in. */
  ghost predicate Partial(df: Frame<real>, kind: JoinKind, fetch: string -> Option<ValidSeries<real>>, n: int,
                          converted: bool, toCelsius: real -> real, toMeters: real -> real)
  {
    && 1 <= n <= |DailyCodes|
    && FetchedUpTo(fetch, n)
    && WellFormed(df) && df.columns == DailyColumns[..n]
    && (kind == Outer ==> forall d :: d in df.index <==> InSomeIndex(fetch, n, d))
    && (kind == Outer && n > 1 ==> df.index == SortedSet(df.index))
    && (kind == Left ==> df.index == fetch(DailyCodes[0]).value.index)
    && (forall k, d :: 0 <= k < n && d in df.index ==>
          Cell(df, DailyColumns[k], d) == Expected(fetch, k, d, converted, toCelsius, toMeters))
  }

  /** The table of TAVG alone. */
  lemma FirstColumn(kind: JoinKind, fetch: string -> Option<ValidSeries<real>>, toCelsius: real -> real, toMeters: real -> real)
    requires Answered(fetch(DailyCodes[0]))
    ensures Partial(SingleColumn(DailyColumns[0], SnotelFetch(fetch(DailyCodes[0]).value)),
                    kind, fetch, 1, false, toCelsius, toMeters)
  {
    var df := SingleColumn(DailyColumns[0], SnotelFetch(fetch(DailyCodes[0]).value));
    assert DailyColumns[..1] == [DailyColumns[0]];
    forall d ensures d in df.index <==> InSomeIndex(fetch, 1, d) {
      if d in df.index { assert 0 < |DailyCodes| && d in fetch(DailyCodes[0]).value.index; }
    }
  }

  /** The series joined in as variable `n`. */
  function Incoming(fetch: string -> Option<ValidSeries<real>>, n: int, converted: bool, toMeters: real -> real): ValidSeries<Option<real>>
    requires 0 <= n < |DailyCodes| && fetch(DailyCodes[n]).Some?
  {
    var raw := SnotelFetch(fetch(DailyCodes[n]).value);
    if converted then MapSeries(raw, toMeters) else raw
  }

  /** One more variable joined in keeps the table as described. */
  lemma JoinNext(df: Frame<real>, kind: JoinKind, fetch: string -> Option<ValidSeries<real>>, n: int,
                 converted: bool, toCelsius: real -> real, toMeters: real -> real)
    requires Partial(df, kind, fetch, n, converted, toCelsius, toMeters)
    requires n < |DailyCodes| && Answered(fetch(DailyCodes[n]))
    requires converted <==> n >= TemperatureCount
    ensures DailyColumns[n] !in df.columns
    ensures Partial(Join(kind, df, DailyColumns[n], Incoming(fetch, n, converted, toMeters)),
                    kind, fetch, n + 1, converted, toCelsius, toMeters)
  {
    NextColumnIsNew(n);
    var s := Incoming(fetch, n, converted, toMeters);
    var r := Join(kind, df, DailyColumns[n], s);
    JoinNextCells(df, r, kind, fetch, n, converted, toCelsius, toMeters);
    if kind == Outer {
      JoinNextIndex(df, r, fetch, n);
      SortedSetIdempotent(df.index + s.index);
    }
  }

  /** Column `n` is not among the columns before it, and appending it extends
      the prefix by one. */
  lemma NextColumnIsNew(n: int)
    requires 0 <= n < |DailyColumns|
    ensures DailyColumns[n] !in DailyColumns[..n]
    ensures DailyColumns[..n] + [DailyColumns[n]] == DailyColumns[..n + 1]
  {
    ColumnsDistinct();
    forall j | 0 <= j < n ensures DailyColumns[..n][j] != DailyColumns[n] {
      assert DailyColumns[..n][j] == DailyColumns[j];
    }
  }

  lemma JoinNextCells(df: Frame<real>, r: Frame<real>, kind: JoinKind, fetch: string -> Option<ValidSeries<real>>, n: int,
                      converted: bool, toCelsius: real -> real, toMeters: real -> real)
    requires Partial(df, kind, fetch, n, converted, toCelsius, toMeters)
    requires n < |DailyCodes| && Answered(fetch(DailyCodes[n]))
    requires converted <==> n >= TemperatureCount
    requires DailyColumns[n] !in df.columns
    requires r == Join(kind, df, DailyColumns[n], Incoming(fetch, n, converted, toMeters))
    ensures FetchedUpTo(fetch, n + 1)
    ensures forall k, d :: 0 <= k < n + 1 && d in r.index ==>
      Cell(r, DailyColumns[k], d) == Expected(fetch, k, d, converted, toCelsius, toMeters)
  {
    assert FetchedUpTo(fetch, n + 1);
    forall k, d | 0 <= k < n + 1 && d in r.index
      ensures Cell(r, DailyColumns[k], d) == Expected(fetch, k, d, converted, toCelsius, toMeters)
    {
      JoinNextCell(df, r, kind, fetch, n, converted, toCelsius, toMeters, k, d);
    }
  }

  lemma JoinNextIndex(df: Frame<real>, r: Frame<real>, fetch: string -> Option<ValidSeries<real>>, n: int)
    requires 1 <= n < |DailyCodes| && FetchedUpTo(fetch, n + 1)
    requires forall d :: d in df.index <==> InSomeIndex(fetch, n, d)
    requires forall d :: d in r.index <==> d in df.index || d in fetch(DailyCodes[n]).value.index
    ensures forall d :: d in r.index <==> InSomeIndex(fetch, n + 1, d)
  {
    forall d ensures d in r.index <==> InSomeIndex(fetch, n + 1, d) {
      if d in df.index {
        var k :| 0 <= k < n && k < |DailyCodes| && d in fetch(DailyCodes[k]).value.index;
        assert InSomeIndex(fetch, n + 1, d);
      }
      if InSomeIndex(fetch, n + 1, d) {
        var k :| 0 <= k < n + 1 && k < |DailyCodes| && d in fetch(DailyCodes[k]).value.index;
        if k < n { assert InSomeIndex(fetch, n, d); }
      }
    }
  }

  lemma JoinNextCell(df: Frame<real>, r: Frame<real>, kind: JoinKind, fetch: string -> Option<ValidSeries<real>>, n: int,
                     converted: bool, toCelsius: real -> real, toMeters: real -> real, k: int, d: Date)
    requires Partial(df, kind, fetch, n, converted, toCelsius, toMeters)
    requires n < |DailyCodes| && Answered(fetch(DailyCodes[n]))
    requires converted <==> n >= TemperatureCount
    requires DailyColumns[n] !in df.columns
    requires r == Join(kind, df, DailyColumns[n], Incoming(fetch, n, converted, toMeters))
    requires 0 <= k < n + 1 && d in r.index
    ensures FetchedUpTo(fetch, k + 1)
    ensures Cell(r, DailyColumns[k], d) == Expected(fetch, k, d, converted, toCelsius, toMeters)
  {
    if k < n {
      JoinCells(kind, df, DailyColumns[n], Incoming(fetch, n, converted, toMeters));
      assert DailyColumns[k] == df.columns[k];
      if d !in df.index {
        assert Cell(df, DailyColumns[k], d) == None;
        assert !InSomeIndex(fetch, n, d);
      }
    } else {
      NewColumnCell(df, r, kind, fetch, n, converted, toCelsius, toMeters, d);
    }
  }

  /** The cell of the column just joined in. */
  lemma NewColumnCell(df: Frame<real>, r: Frame<real>, kind: JoinKind, fetch: string -> Option<ValidSeries<real>>, n: int,
                      converted: bool, toCelsius: real -> real, toMeters: real -> real, d: Date)
    requires 0 <= n < |DailyCodes| && FetchedUpTo(fetch, n + 1)
    requires converted <==> n >= TemperatureCount
    requires WellFormed(df) && DailyColumns[n] !in df.columns
    requires r == Join(kind, df, DailyColumns[n], Incoming(fetch, n, converted, toMeters))
    requires d in r.index
    ensures Cell(r, DailyColumns[n], d) == Expected(fetch, n, d, converted, toCelsius, toMeters)
  {
    JoinCells(kind, df, DailyColumns[n], Incoming(fetch, n, converted, toMeters));
  }

  /** The temperature conversion turns the first three columns into their
      converted values. */
  lemma ConvertTemperatures(df: Frame<real>, kind: JoinKind, fetch: string -> Option<ValidSeries<real>>,
                            toCelsius: real -> real, toMeters: real -> real)
    requires Partial(df, kind, fetch, TemperatureCount, false, toCelsius, toMeters)
    ensures Partial(Convert(df, toCelsius), kind, fetch, TemperatureCount, true, toCelsius, toMeters)
  {
    var r := Convert(df, toCelsius);
    ConvertCells(df, toCelsius);
    forall k, d | 0 <= k < TemperatureCount && d in r.index
      ensures Cell(r, DailyColumns[k], d) == Expected(fetch, k, d, true, toCelsius, toMeters)
    {
      assert Cell(df, DailyColumns[k], d) == Expected(fetch, k, d, false, toCelsius, toMeters);
    }
  }

  /** What `construct_daily_dataframe` returns: the six columns in order; as
      dates, the sorted union of the six series' dates (outer joins) or exactly
      TAVG's dates (left joins); and in each cell its variable's value at that
      date, NaN when absent or equal to the sentinel, converted to Celsius for
      the three temperatures and to meters for the rest. */
  ghost predicate IsDailyTable(df: Frame<real>, kind: JoinKind, fetch: string -> Option<ValidSeries<real>>,
                               toCelsius: real -> real, toMeters: real -> real)
    requires FetchedUpTo(fetch, |DailyCodes|)
  {
    && WellFormed(df) && df.columns == DailyColumns
    && (kind == Outer ==> Increasing(df.index))
    && (kind == Outer ==> forall d :: d in df.index <==> InSomeIndex(fetch, |DailyCodes|, d))
    && (kind == Left ==> df.index == fetch(DailyCodes[0]).value.index)
    && (forall k, d :: 0 <= k < |DailyCodes| && d in df.index ==>
          Cell(df, DailyColumns[k], d) ==
            MapOption(Normalized(fetch(DailyCodes[k]).value, d), ConversionFor(k, toCelsius, toMeters)))
  }


  lemma CompleteShape(df: Frame<real>, kind: JoinKind, fetch: string -> Option<ValidSeries<real>>,
                      toCelsius: real -> real, toMeters: real -> real)
    requires Partial(df, kind, fetch, |DailyCodes|, true, toCelsius, toMeters)
    ensures WellFormed(df) && df.columns == DailyColumns
    ensures kind == Outer ==> Increasing(df.index)
    ensures kind == Left ==> df.index == fetch(DailyCodes[0]).value.index
  {
    assert DailyColumns[..|DailyCodes|] == DailyColumns;
    SortedSetIncreasing(df.index);
  }

  lemma CompleteCells(df: Frame<real>, kind: JoinKind, fetch: string -> Option<ValidSeries<real>>,
                      toCelsius: real -> real, toMeters: real -> real)
    requires Partial(df, kind, fetch, |DailyCodes|, true, toCelsius, toMeters)
    ensures kind == Outer ==> forall d :: d in df.index <==> InSomeIndex(fetch, |DailyCodes|, d)
    ensures forall k, d :: 0 <= k < |DailyCodes| && d in df.index ==>
      Cell(df, DailyColumns[k], d) ==
        MapOption(Normalized(fetch(DailyCodes[k]).value, d), ConversionFor(k, toCelsius, toMeters))
  {
    forall k, d | 0 <= k < |DailyCodes| && d in df.index
      ensures Cell(df, DailyColumns[k], d) ==
        MapOption(Normalized(fetch(DailyCodes[k]).value, d), ConversionFor(k, toCelsius, toMeters))
    {
      assert Cell(df, DailyColumns[k], d) == Expected(fetch, k, d, true, toCelsius, toMeters);
    }
  }

  /** The finished table, all six variables joined in and converted, is the
      daily table. */
  lemma Complete(df: Frame<real>, kind: JoinKind, fetch: string -> Option<ValidSeries<real>>,
                 toCelsius: real -> real, toMeters: real -> real)
    requires Partial(df, kind, fetch, |DailyCodes|, true, toCelsius, toMeters)
    ensures IsDailyTable(df, kind, fetch, toCelsius, toMeters)
  {
    CompleteShape(df, kind, fetch, toCelsius, toMeters);
    CompleteCells(df, kind, fetch, toCelsius, toMeters);
  }

  /** One of the two `for var in [...]` loops of `construct_daily_dataframe`:
      fetches variables `from` up to `to`, renames each to its column name,
      divides it by the inches-per-meter factor when `converted` (the second
      loop, which runs after the temperature conversion) and joins it in. It
      fails as soon as a fetch fails. */
  method JoinVariables(df0: Frame<real>, kind: JoinKind, fetch: string -> Option<ValidSeries<real>>,
                       from: int, to: int, converted: bool, toCelsius: real -> real, toMeters: real -> real)
    returns (r: Option<Frame<real>>)
    requires from <= to <= |DailyCodes|
    requires if converted then from >= TemperatureCount else to <= TemperatureCount
    requires Partial(df0, kind, fetch, from, converted, toCelsius, toMeters)
    ensures r.Some? <==> FetchedUpTo(fetch, to)
    ensures r.Some? ==> Partial(r.value, kind, fetch, to, converted, toCelsius, toMeters)
  {
    var df := df0;
    var i := from;
    while i < to
      invariant from <= i <= to
      invariant Partial(df, kind, fetch, i, converted, toCelsius, toMeters)
    {
      var tmp := fetch(DailyCodes[i]);
      if !Answered(tmp) {
        assert !FetchedUpTo(fetch, to);
        return None;
      }
      JoinNext(df, kind, fetch, i, converted, toCelsius, toMeters);
      ColumnOfCode(i);
      var name := ColumnName(DailyCodes[i]);
      // the renamed series, divided by 39.3701 in the second loop
      var incoming := Incoming(fetch, i, converted, toMeters);
      df := Join(kind, df, Named(name), incoming);
      i := i + 1;
    }
    r := Some(df);
  }

  /** `construct_daily_dataframe(code, start, end)`, with `siteInfo` whether
      the opening `get_site_info` call answers and `fetch(var)` the service's
      answer for variable `var` over that window (`None` when the call
      raises, which propagates): it fails exactly when the site query or one
      of the six fetches fails, and otherwise returns the daily table. */
  method ConstructDailyDataframe(kind: JoinKind, siteInfo: bool, fetch: string -> Option<ValidSeries<real>>,
                                 toCelsius: real -> real, toMeters: real -> real)
    returns (r: Option<Frame<real>>)
    ensures r.Some? <==> siteInfo && FetchedUpTo(fetch, |DailyCodes|)
    ensures r.Some? ==> IsDailyTable(r.value, kind, fetch, toCelsius, toMeters)
  {
    if !siteInfo {
      return None;
    }
    var first := fetch(DailyCodes[0]);
    if !Answered(first) {
      return None;
    }
    ColumnOfCode(0);
    var df := SingleColumn(Named(ColumnName(DailyCodes[0])), SnotelFetch(first.value));
    FirstColumn(kind, fetch, toCelsius, toMeters);
    var temperatures := JoinVariables(df, kind, fetch, 1, TemperatureCount, false, toCelsius, toMeters);
    if temperatures.None? {
      return None;
    }
    // (df - 32) * 5/9 on the whole table, which holds the three temperatures
    df := Convert(temperatures.value, toCelsius);
    ConvertTemperatures(temperatures.value, kind, fetch, toCelsius, toMeters);
    var all := JoinVariables(df, kind, fetch, TemperatureCount, |DailyCodes|, true, toCelsius, toMeters);
    if all.None? {
      return None;
    }
    Complete(all.value, kind, fetch, toCelsius, toMeters);
    r := all;
  }
}
