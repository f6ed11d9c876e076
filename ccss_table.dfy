/** `construct_daily_ccss_dataframe`: the daily table of one California (CDEC)
    snow-sensor station. The service answers with one reading per date and
    sensor number; the readings are pivoted into one column per sensor, the six
    sensors of interest are renamed to the variable names of the SNOTEL table
    and converted to metric units, and the rows without any value are dropped. */
module CcssTable {
  import opened Wrappers
  import opened Frames
  import opened DailyTable

  /** One row of the service's CSV answer: the date, the `SENSOR_NUMBER` and the
      `VALUE` as `pd.to_numeric(errors='coerce')` reads it (`None` is NaN). */
  datatype Reading = Reading(date: Date, sensor: int, value: Option<real>)

  /** The keys of `rename_dict`, in its order; sensor `RenameSensors[k]` becomes
      column `DailyColumns[k]` (30 is TAVG, 32 TMIN, 31 TMAX, 18 SNWD, 82 WTEQ,
      45 PRCPSA). */
  const RenameSensors: seq<int> := [30, 32, 31, 18, 82, 45]

  /** No date carries two readings of the same sensor. */
  predicate UniqueKeys(readings: seq<Reading>)
  {
    forall i, j :: 0 <= i < j < |readings| ==>
      readings[i].date != readings[j].date || readings[i].sensor != readings[j].sensor
  }

  function Dates(readings: seq<Reading>): (ds: seq<Date>)
    ensures |ds| == |readings| && forall i :: 0 <= i < |readings| ==> ds[i] == readings[i].date
  {
    seq(|readings|, i requires 0 <= i < |readings| => readings[i].date)
  }

  function Sensors(readings: seq<Reading>): (ss: seq<int>)
    ensures |ss| == |readings| && forall i :: 0 <= i < |readings| ==> ss[i] == readings[i].sensor
  {
    seq(|readings|, i requires 0 <= i < |readings| => readings[i].sensor)
  }

  /** The value of sensor `s` at date `d`: that of the reading with this date
      and sensor, NaN when there is none. */
  function ValueAt(readings: seq<Reading>, d: Date, s: int): (v: Option<real>)
    ensures v.Some? ==> exists i :: 0 <= i < |readings| && readings[i].date == d && readings[i].sensor == s && readings[i].value == v
    ensures UniqueKeys(readings) ==> forall i :: 0 <= i < |readings| && readings[i].date == d && readings[i].sensor == s ==> v == readings[i].value
  {
    if |readings| == 0 then None
    else if readings[0].date == d && readings[0].sensor == s then readings[0].value
    else
      var v := ValueAt(readings[1..], d, s);
      assert forall i :: 1 <= i < |readings| ==> readings[i] == readings[1..][i - 1];
      v
  }

  /** Sensor-number column labels. */
  function SensorColumns(nums: seq<int>): (cols: seq<Col>)
    ensures |cols| == |nums| && forall i :: 0 <= i < |nums| ==> cols[i] == Sensor(nums[i])
  {
    seq(|nums|, i requires 0 <= i < |nums| => Sensor(nums[i]))
  }

  lemma SensorColumnsDistinct(nums: seq<int>)
    requires Increasing(nums)
    ensures Distinct(SensorColumns(nums))
    ensures forall c :: c in SensorColumns(nums) <==> c.Sensor? && c.num in nums
  {
    var cols := SensorColumns(nums);
    forall c ensures c in cols <==> c.Sensor? && c.num in nums {
      if c.Sensor? && c.num in nums {
        var i :| 0 <= i < |nums| && nums[i] == c.num;
        assert cols[i] == c;
      }
    }
  }

  /** A value found comes from a reading, so its date and sensor are among
      the answer's. */
  lemma ValueAtFound(readings: seq<Reading>, d: Date, s: int)
    requires ValueAt(readings, d, s).Some?
    ensures d in Dates(readings) && s in Sensors(readings)
  {
    var i :| 0 <= i < |readings| && readings[i].date == d && readings[i].sensor == s && readings[i].value.Some?;
    assert Dates(readings)[i] == d && Sensors(readings)[i] == s;
  }

  /** The pivoted column of sensor `s` over the dates `index`. */
  function PivotColumn(readings: seq<Reading>, index: seq<Date>, s: int): (column: map<Date, real>)
    ensures forall d :: d in column ==> d in index
    ensures forall d :: d in index ==> (if d in column then Some(column[d]) else None) == ValueAt(readings, d, s)
  {
    map d | d in index && ValueAt(readings, d, s).Some? :: ValueAt(readings, d, s).value
  }

  /** `df['VALUE'].unstack(level=-1)`: one column per sensor number and one row
      per date, both sorted. pandas refuses to reshape when a date and sensor
      pair repeats, and so does this. */
  function Pivot(readings: seq<Reading>): (r: Option<Frame<real>>)
    ensures r.None? <==> !UniqueKeys(readings)
    ensures r.Some? ==> && WellFormed(r.value)
                        && r.value.index == SortedSet(Dates(readings))
                        && r.value.columns == SensorColumns(SortedSet(Sensors(readings)))
  {
    if !UniqueKeys(readings) then None
    else
      var index := SortedSet(Dates(readings));
      var cols := SensorColumns(SortedSet(Sensors(readings)));
      SortedSetIncreasing(Sensors(readings));
      SensorColumnsDistinct(SortedSet(Sensors(readings)));
      Some(Frame(cols, index, map c | c in cols :: PivotColumn(readings, index, c.num)))
  }

  /** Each pivoted cell holds the value of the reading at its date and sensor,
      NaN where there is none. */
  lemma PivotCells(readings: seq<Reading>)
    requires UniqueKeys(readings)
    ensures forall c, d :: Cell(Pivot(readings).value, c, d) == if c.Sensor? then ValueAt(readings, d, c.num) else None
  {
    var p := Pivot(readings).value;
    SortedSetIncreasing(Sensors(readings));
    SensorColumnsDistinct(SortedSet(Sensors(readings)));
    forall c, d ensures Cell(p, c, d) == if c.Sensor? then ValueAt(readings, d, c.num) else None {
      if c.Sensor? && ValueAt(readings, d, c.num).Some? {
        ValueAtFound(readings, d, c.num);
        assert c in p.columns && d in p.index;
      }
    }
  }

  /** The columns the rename loop has not touched after its first `i` steps:
      each step drops the column of its sensor. */
  function Kept(cols: seq<Col>, i: int): (kept: seq<Col>)
    requires 0 <= i <= |RenameSensors|
    ensures forall c :: c in kept <==> c in cols && !(c.Sensor? && c.num in RenameSensors[..i])
  {
    if i == 0 then cols
    else
      assert forall n :: n in RenameSensors[..i] <==> n in RenameSensors[..i - 1] || n == RenameSensors[i - 1] by {
        assert RenameSensors[..i] == RenameSensors[..i - 1] + [RenameSensors[i - 1]];
      }
      Remove(Kept(cols, i - 1), Sensor(RenameSensors[i - 1]))
  }

  /** When every sensor of the answer is one of the six, none of the sensor
      columns survives the rename loop. */
  lemma KeptNoneWhenAllRenamed(cols: seq<Col>)
    requires forall c :: c in cols ==> c.Sensor? && c.num in RenameSensors
    ensures Kept(cols, |RenameSensors|) == []
  {
    var kept := Kept(cols, |RenameSensors|);
    assert RenameSensors[..|RenameSensors|] == RenameSensors;
    FirstIsMember(kept);
  }

  lemma FirstIsMember(s: seq<Col>)
    ensures |s| > 0 ==> s[0] in s
  {
  }

  /** What the rename loop has built after its first `i` steps. */
  ghost predicate Renamed(df: Frame<real>, df0: Frame<real>, i: int, toCelsius: real -> real, toMeters: real -> real)
    requires 0 <= i <= |RenameSensors|
  {
    && WellFormed(df) && df.index == df0.index
    && df.columns == Kept(df0.columns, i) + DailyColumns[..i]
    && (forall k, d :: 0 <= k < i ==>
          Cell(df, DailyColumns[k], d) == MapOption(Cell(df0, Sensor(RenameSensors[k]), d), ConversionFor(k, toCelsius, toMeters)))
    && (forall c, d :: c in Kept(df0.columns, i) ==> Cell(df, c, d) == Cell(df0, c, d))
  }

  /** The body of the rename loop for entry `i` of `rename_dict`: a sensor the
      table holds becomes the named column, converted (F to Celsius for the
      temperatures, inches to meters for the rest, after `pd.to_numeric`), and
      its numbered column is dropped; a sensor the table lacks gives an all-NaN
      named column. */
  function RenameOne(df: Frame<real>, i: int, toCelsius: real -> real, toMeters: real -> real): (r: Frame<real>)
    requires 0 <= i < |RenameSensors| && WellFormed(df) && DailyColumns[i] !in df.columns
    ensures WellFormed(r) && r.index == df.index
  {
    var num := RenameSensors[i];
    var name := DailyColumns[i];
    if Sensor(num) in df.columns then
      var column := ConvertedColumn(df, Sensor(num), ConversionFor(i, toCelsius, toMeters));
      DropColumn(AddColumn(df, name, column), Sensor(num))
    else
      AddColumn(df, name, map[])
  }

  /** The loop `for sensor_num, new_name in rename_dict.items()`. */
  method RenameSensorColumns(df0: Frame<real>, toCelsius: real -> real, toMeters: real -> real) returns (df: Frame<real>)
    requires WellFormed(df0) && forall c :: c in df0.columns ==> c.Sensor?
    ensures WellFormed(df) && df.index == df0.index
    ensures df.columns == Kept(df0.columns, |RenameSensors|) + DailyColumns
    ensures forall k, d :: 0 <= k < |RenameSensors| ==>
      Cell(df, DailyColumns[k], d) == MapOption(Cell(df0, Sensor(RenameSensors[k]), d), ConversionFor(k, toCelsius, toMeters))
    ensures forall c, d :: c in Kept(df0.columns, |RenameSensors|) ==> Cell(df, c, d) == Cell(df0, c, d)
  {
    df := df0;
    var i := 0;
    assert DailyColumns[..0] == [] && df0.columns + [] == df0.columns;
    while i < |RenameSensors|
      invariant 0 <= i <= |RenameSensors|
      invariant Renamed(df, df0, i, toCelsius, toMeters)
    {
      RenameOneKeeps(df, df0, i, toCelsius, toMeters);
      df := RenameOne(df, i, toCelsius, toMeters);
      i := i + 1;
    }
    assert DailyColumns[..|RenameSensors|] == DailyColumns;
  }

  /** One step of the rename loop keeps `Renamed`. */
  lemma RenameOneKeeps(df: Frame<real>, df0: Frame<real>, i: int, toCelsius: real -> real, toMeters: real -> real)
    requires WellFormed(df0) && forall c :: c in df0.columns ==> c.Sensor?
    requires 0 <= i < |RenameSensors| && Renamed(df, df0, i, toCelsius, toMeters)
    ensures DailyColumns[i] !in df.columns
    ensures Renamed(RenameOne(df, i, toCelsius, toMeters), df0, i + 1, toCelsius, toMeters)
  {
    RenameOneColumns(df, df0.columns, i, toCelsius, toMeters);
    RenameOneCells(df, df0, i, toCelsius, toMeters);
  }

  lemma RenameOneColumns(df: Frame<real>, cols: seq<Col>, i: int, toCelsius: real -> real, toMeters: real -> real)
    requires forall c :: c in cols ==> c.Sensor?
    requires 0 <= i < |RenameSensors| && WellFormed(df)
    requires df.columns == Kept(cols, i) + DailyColumns[..i]
    ensures DailyColumns[i] !in df.columns
    ensures RenameOne(df, i, toCelsius, toMeters).columns == Kept(cols, i + 1) + DailyColumns[..i + 1]
    ensures Sensor(RenameSensors[i]) in df.columns <==> Sensor(RenameSensors[i]) in Kept(cols, i)
  {
    NextColumnIsNew(i);
    var s := Sensor(RenameSensors[i]);
    SensorNotNamed(RenameSensors[i], i + 1);
    assert DailyColumns[i] !in Kept(cols, i) by { NamedColumn(i); }
    assert df.columns + [DailyColumns[i]] == Kept(cols, i) + DailyColumns[..i + 1];
    if s in df.columns {
      RemoveAppend(Kept(cols, i), DailyColumns[..i + 1], s);
    }
  }

  /** The daily columns are named ones. */
  lemma NamedColumn(i: int)
    requires 0 <= i < |DailyColumns|
    ensures DailyColumns[i].Named?
  {
  }

  /** No sensor-number label is among the daily columns. */
  lemma SensorNotNamed(s: int, j: int)
    requires 0 <= j <= |DailyColumns|
    ensures Sensor(s) !in DailyColumns[..j]
  {
    forall k | 0 <= k < j ensures DailyColumns[..j][k] != Sensor(s) {
      NamedColumn(k);
      assert DailyColumns[..j][k] == DailyColumns[k];
    }
  }

  lemma RenameOneCells(df: Frame<real>, df0: Frame<real>, i: int, toCelsius: real -> real, toMeters: real -> real)
    requires WellFormed(df0) && forall c :: c in df0.columns ==> c.Sensor?
    requires 0 <= i < |RenameSensors| && Renamed(df, df0, i, toCelsius, toMeters)
    requires DailyColumns[i] !in df.columns
    ensures forall k, d :: 0 <= k < i + 1 ==>
      Cell(RenameOne(df, i, toCelsius, toMeters), DailyColumns[k], d) ==
        MapOption(Cell(df0, Sensor(RenameSensors[k]), d), ConversionFor(k, toCelsius, toMeters))
    ensures forall c, d :: c in Kept(df0.columns, i + 1) ==> Cell(RenameOne(df, i, toCelsius, toMeters), c, d) == Cell(df0, c, d)
  {
    var next := RenameOne(df, i, toCelsius, toMeters);
    SensorCellUnchanged(df, df0, i, toCelsius, toMeters);
    RenameOneCell(df, i, toCelsius, toMeters);
    ColumnsDistinct();
    forall k, d | 0 <= k < i
      ensures Cell(next, DailyColumns[k], d) == MapOption(Cell(df0, Sensor(RenameSensors[k]), d), ConversionFor(k, toCelsius, toMeters))
    {
      NamedColumn(k);
    }
  }

  /** Before its step, the column of sensor `i` is as the pivot left it. */
  lemma SensorCellUnchanged(df: Frame<real>, df0: Frame<real>, i: int, toCelsius: real -> real, toMeters: real -> real)
    requires WellFormed(df0) && forall c :: c in df0.columns ==> c.Sensor?
    requires 0 <= i < |RenameSensors| && Renamed(df, df0, i, toCelsius, toMeters)
    ensures forall d :: Cell(df, Sensor(RenameSensors[i]), d) == Cell(df0, Sensor(RenameSensors[i]), d)
  {
    var s := Sensor(RenameSensors[i]);
    if s !in Kept(df0.columns, i) {
      assert RenameSensors[i] !in RenameSensors[..i];
      assert s !in df0.columns;
      SensorNotNamed(RenameSensors[i], i);
      assert s !in df.columns;
    }
  }

  /** What one step does to the cells: the named column holds the converted
      sensor column, and every other column but the sensor's is kept. */
  lemma RenameOneCell(df: Frame<real>, i: int, toCelsius: real -> real, toMeters: real -> real)
    requires 0 <= i < |RenameSensors| && WellFormed(df) && DailyColumns[i] !in df.columns
    ensures forall d :: (Cell(RenameOne(df, i, toCelsius, toMeters), DailyColumns[i], d) ==
      MapOption(Cell(df, Sensor(RenameSensors[i]), d), ConversionFor(i, toCelsius, toMeters)))
    ensures forall c, d :: c != DailyColumns[i] && c != Sensor(RenameSensors[i]) ==>
      Cell(RenameOne(df, i, toCelsius, toMeters), c, d) == Cell(df, c, d)
  {
    NamedColumn(i);
  }

  /** Whether the row at `d` holds a value in some column. */
  predicate HasValue(f: Frame<real>, d: Date)
  {
    exists c :: c in f.columns && Cell(f, c, d).Some?
  }

  /** The dates of `index` whose rows hold a value, in order. */
  function RowsWithValue(f: Frame<real>, index: seq<Date>): (r: seq<Date>)
    ensures forall d :: d in r <==> d in index && HasValue(f, d)
  {
    if |index| == 0 then []
    else
      var rest := RowsWithValue(f, index[1..]);
      assert forall d :: d in index <==> d == index[0] || d in index[1..] by { assert index == [index[0]] + index[1..]; }
      if HasValue(f, index[0]) then [index[0]] + rest else rest
  }

  /** Keeping some dates of a sorted index leaves it sorted. */
  lemma {:induction false} RowsWithValueIncreasing(f: Frame<real>, index: seq<Date>)
    requires Increasing(index)
    ensures Increasing(RowsWithValue(f, index))
    decreases |index|
  {
    if |index| > 0 {
      IncreasingTail(index);
      RowsWithValueIncreasing(f, index[1..]);
      if HasValue(f, index[0]) {
        IncreasingCons(index[0], RowsWithValue(f, index[1..]));
      }
    }
  }

  /** `dropna(how='all')`: drops exactly the rows in which every column is NaN,
      keeping the others in order and every cell as it was. */
  function DropAllAbsent(f: Frame<real>): (r: Frame<real>)
    requires WellFormed(f)
    ensures WellFormed(r) && r.columns == f.columns
    ensures forall d :: d in r.index <==> d in f.index && HasValue(f, d)
    ensures r.index == RowsWithValue(f, f.index)
    ensures forall c, d :: Cell(r, c, d) == Cell(f, c, d)
  {
    var index := RowsWithValue(f, f.index);
    var r := Frame(f.columns, index, f.data);
    forall c, d | c in r.data && d in r.data[c] ensures d in r.index {
      assert Cell(f, c, d).Some?;
    }
    r
  }

  /** Whether some reading at `d` holds a numeric value. */
  ghost predicate SomeReadingAt(readings: seq<Reading>, d: Date)
  {
    exists i :: 0 <= i < |readings| && readings[i].date == d && readings[i].value.Some?
  }

  /** What `construct_daily_ccss_dataframe` returns: the sensors outside the
      six, then the six named columns; one row per date on which some reading
      holds a value, in date order; each named cell the converted value of its
      sensor at that date, NaN when the sensor has none; and only the six
      columns when every reading is of one of the six sensors. */
  ghost predicate IsCcssTable(df: Frame<real>, readings: seq<Reading>, toCelsius: real -> real, toMeters: real -> real)
  {
    && WellFormed(df)
    && df.columns == Kept(SensorColumns(SortedSet(Sensors(readings))), |RenameSensors|) + DailyColumns
    && ((forall i :: 0 <= i < |readings| ==> readings[i].sensor in RenameSensors) ==> df.columns == DailyColumns)
    && Increasing(df.index)
    && (forall d :: d in df.index <==> SomeReadingAt(readings, d))
    && (forall k, d :: 0 <= k < |RenameSensors| ==>
          Cell(df, DailyColumns[k], d) == MapOption(ValueAt(readings, d, RenameSensors[k]), ConversionFor(k, toCelsius, toMeters)))
  }

  /** `construct_daily_ccss_dataframe(stationcode, start, end)` with
      `readings` the service's answer for that station and window: fails
      exactly when the answer repeats a date and sensor pair, and otherwise
      returns the CCSS table. */
  method ConstructDailyCcssDataframe(readings: seq<Reading>, toCelsius: real -> real, toMeters: real -> real)
    returns (r: Option<Frame<real>>)
    ensures r.None? <==> !UniqueKeys(readings)
    ensures r.Some? ==> IsCcssTable(r.value, readings, toCelsius, toMeters)
  {
    var pivoted := Pivot(readings);
    if pivoted.None? {
      return None;
    }
    var p := pivoted.value;
    PivotCells(readings);
    PivotColumnsAreSensors(readings);
    var df := RenameSensorColumns(p, toCelsius, toMeters);
    var table := DropAllAbsent(df);
    CcssColumns(readings, p.columns);
    RowsWithValueIncreasing(df, df.index);
    CcssRows(readings, p, df, table, toCelsius, toMeters);
    assert forall k, d :: 0 <= k < |RenameSensors| ==> Cell(p, Sensor(RenameSensors[k]), d) == ValueAt(readings, d, RenameSensors[k]);
    r := Some(table);
  }

  /** The pivoted columns are the answer's sensors. */
  lemma PivotColumnsAreSensors(readings: seq<Reading>)
    ensures forall c :: c in SensorColumns(SortedSet(Sensors(readings))) <==> c.Sensor? && c.num in Sensors(readings)
    ensures Increasing(SortedSet(Dates(readings)))
  {
    SortedSetIncreasing(Sensors(readings));
    SortedSetIncreasing(Dates(readings));
    SensorColumnsDistinct(SortedSet(Sensors(readings)));
  }

  /** Only the six named columns remain when every reading is of one of the
      six sensors. */
  lemma CcssColumns(readings: seq<Reading>, cols: seq<Col>)
    requires cols == SensorColumns(SortedSet(Sensors(readings)))
    ensures (forall i :: 0 <= i < |readings| ==> readings[i].sensor in RenameSensors) ==>
      Kept(cols, |RenameSensors|) + DailyColumns == DailyColumns
  {
    if forall i :: 0 <= i < |readings| ==> readings[i].sensor in RenameSensors {
      PivotColumnsAreSensors(readings);
      forall c | c in cols ensures c.Sensor? && c.num in RenameSensors {
        var i :| 0 <= i < |Sensors(readings)| && Sensors(readings)[i] == c.num;
      }
      KeptNoneWhenAllRenamed(cols);
    }
  }

  /** The rows after `dropna` are the dates with some numeric reading. */
  lemma CcssRows(readings: seq<Reading>, p: Frame<real>, df: Frame<real>, table: Frame<real>,
                 toCelsius: real -> real, toMeters: real -> real)
    requires UniqueKeys(readings)
    requires p.index == SortedSet(Dates(readings)) && p.columns == SensorColumns(SortedSet(Sensors(readings)))
    requires forall c, d :: Cell(p, c, d) == if c.Sensor? then ValueAt(readings, d, c.num) else None
    requires df.index == p.index && df.columns == Kept(p.columns, |RenameSensors|) + DailyColumns
    requires forall k, d :: 0 <= k < |RenameSensors| ==>
      Cell(df, DailyColumns[k], d) == MapOption(Cell(p, Sensor(RenameSensors[k]), d), ConversionFor(k, toCelsius, toMeters))
    requires forall c, d :: c in Kept(p.columns, |RenameSensors|) ==> Cell(df, c, d) == Cell(p, c, d)
    requires forall d :: d in table.index <==> d in df.index && HasValue(df, d)
    ensures forall d :: d in table.index <==> SomeReadingAt(readings, d)
  {
    PivotColumnsAreSensors(readings);
    forall d ensures d in table.index <==> SomeReadingAt(readings, d) {
      if d in table.index {
        RowHasReading(readings, p, df, d, toCelsius, toMeters);
      }
      if SomeReadingAt(readings, d) {
        ReadingGivesRow(readings, p, df, d, toCelsius, toMeters);
      }
    }
  }

  lemma RowHasReading(readings: seq<Reading>, p: Frame<real>, df: Frame<real>, d: Date,
                      toCelsius: real -> real, toMeters: real -> real)
    requires forall c, d :: Cell(p, c, d) == if c.Sensor? then ValueAt(readings, d, c.num) else None
    requires df.columns == Kept(p.columns, |RenameSensors|) + DailyColumns
    requires forall k, d :: 0 <= k < |RenameSensors| ==>
      Cell(df, DailyColumns[k], d) == MapOption(Cell(p, Sensor(RenameSensors[k]), d), ConversionFor(k, toCelsius, toMeters))
    requires forall c, d :: c in Kept(p.columns, |RenameSensors|) ==> Cell(df, c, d) == Cell(p, c, d)
    requires HasValue(df, d)
    ensures SomeReadingAt(readings, d)
  {
    var c :| c in df.columns && Cell(df, c, d).Some?;
    var s;
    if c in Kept(p.columns, |RenameSensors|) {
      s := c.num;
      assert Cell(p, c, d).Some?;
    } else {
      var k :| 0 <= k < |DailyColumns| && DailyColumns[k] == c;
      s := RenameSensors[k];
      assert Cell(p, Sensor(s), d).Some?;
    }
    var i :| 0 <= i < |readings| && readings[i].date == d && readings[i].sensor == s && readings[i].value == ValueAt(readings, d, s);
  }

  lemma ReadingGivesRow(readings: seq<Reading>, p: Frame<real>, df: Frame<real>, d: Date,
                        toCelsius: real -> real, toMeters: real -> real)
    requires UniqueKeys(readings)
    requires p.index == SortedSet(Dates(readings)) && p.columns == SensorColumns(SortedSet(Sensors(readings)))
    requires forall c :: c in p.columns <==> c.Sensor? && c.num in Sensors(readings)
    requires forall c, d :: Cell(p, c, d) == if c.Sensor? then ValueAt(readings, d, c.num) else None
    requires df.index == p.index && df.columns == Kept(p.columns, |RenameSensors|) + DailyColumns
    requires forall k, d :: 0 <= k < |RenameSensors| ==>
      Cell(df, DailyColumns[k], d) == MapOption(Cell(p, Sensor(RenameSensors[k]), d), ConversionFor(k, toCelsius, toMeters))
    requires forall c, d :: c in Kept(p.columns, |RenameSensors|) ==> Cell(df, c, d) == Cell(p, c, d)
    requires SomeReadingAt(readings, d)
    ensures d in df.index && HasValue(df, d)
  {
    var i :| 0 <= i < |readings| && readings[i].date == d && readings[i].value.Some?;
    var s := readings[i].sensor;
    assert Dates(readings)[i] == d && Sensors(readings)[i] == s;
    assert Cell(p, Sensor(s), d).Some? by {
      assert ValueAt(readings, d, s) == readings[i].value;
    }
    if s in RenameSensors {
      var k :| 0 <= k < |RenameSensors| && RenameSensors[k] == s;
      RenamedCellHasValue(p, df, k, d, toCelsius, toMeters);
    } else {
      KeptCellHasValue(p, df, s, d);
    }
  }

  /** A reading of one of the six sensors shows up in its renamed column. */
  lemma RenamedCellHasValue(p: Frame<real>, df: Frame<real>, k: int, d: Date, toCelsius: real -> real, toMeters: real -> real)
    requires 0 <= k < |RenameSensors|
    requires df.columns == Kept(p.columns, |RenameSensors|) + DailyColumns
    requires Cell(df, DailyColumns[k], d) == MapOption(Cell(p, Sensor(RenameSensors[k]), d), ConversionFor(k, toCelsius, toMeters))
    requires Cell(p, Sensor(RenameSensors[k]), d).Some?
    ensures HasValue(df, d)
  {
    assert DailyColumns[k] in df.columns && Cell(df, DailyColumns[k], d).Some?;
  }

  /** A reading of any other sensor shows up in that sensor's kept column. */
  lemma KeptCellHasValue(p: Frame<real>, df: Frame<real>, s: int, d: Date)
    requires s !in RenameSensors && Sensor(s) in p.columns
    requires df.columns == Kept(p.columns, |RenameSensors|) + DailyColumns
    requires forall c, d :: c in Kept(p.columns, |RenameSensors|) ==> Cell(df, c, d) == Cell(p, c, d)
    requires Cell(p, Sensor(s), d).Some?
    ensures HasValue(df, d)
  {
    assert RenameSensors[..|RenameSensors|] == RenameSensors;
    assert Sensor(s) in Kept(p.columns, |RenameSensors|);
    assert Sensor(s) in df.columns && Cell(df, Sensor(s), d).Some?;
  }

  /** A sensor the answer does not hold gives a named column that is NaN on
      every date. */
  lemma MissingSensorIsAbsent(df: Frame<real>, readings: seq<Reading>, k: int, toCelsius: real -> real, toMeters: real -> real)
    requires IsCcssTable(df, readings, toCelsius, toMeters)
    requires 0 <= k < |RenameSensors|
    requires forall i :: 0 <= i < |readings| ==> readings[i].sensor != RenameSensors[k]
    ensures forall d :: Cell(df, DailyColumns[k], d) == None
  {
  }
}
