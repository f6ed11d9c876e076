/** The record-level part of `all_ccss_stations`: the station list is sent to
    the CDEC service in chunks of 200, the answers are concatenated, and each
    station's first and last reading dates become its `beginDate` and
    `endDate`. */
module StationIndex {
  import opened Wrappers
  import opened Text
  import opened Frames

  /** `chunk_size`. */
  const ChunkSize := 200

  /** The concatenation of a list of lists, `pd.concat` of a list of tables:
      every row of every part is a row of the whole, and every row of the
      whole comes from some part. */
  function Flatten<T>(ss: seq<seq<T>>): (r: seq<T>)
    ensures forall i, x :: 0 <= i < |ss| && x in ss[i] ==> x in r
    ensures forall x :: x in r ==> exists i :: 0 <= i < |ss| && x in ss[i]
    decreases |ss|
  {
    if |ss| == 0 then []
    else
      var rest := Flatten(ss[1..]);
      assert forall i :: 1 <= i < |ss| ==> ss[i] == ss[1..][i - 1];
      ss[0] + rest
  }

  /** `[s[i:i + chunk_size] for i in range(0, len(s), chunk_size)]`, taken a
      chunk at a time: the chunks concatenate back to the list, none is
      empty or longer than 200, all but the last hold exactly 200, and there
      are ceil(n / 200) of them. */
  function Chunks<T>(s: seq<T>): (r: seq<seq<T>>)
    ensures Flatten(r) == s
    ensures forall i :: 0 <= i < |r| ==> 0 < |r[i]| <= ChunkSize
    ensures forall i :: 0 <= i < |r| - 1 ==> |r[i]| == ChunkSize
    ensures |r| == (|s| + ChunkSize - 1) / ChunkSize
    decreases |s|
  {
    if |s| == 0 then []
    else if |s| <= ChunkSize then
      assert Flatten([s]) == s + Flatten([s][1..]);
      [s]
    else
      var rest := Chunks(s[ChunkSize..]);
      var r := [s[..ChunkSize]] + rest;
      assert r[1..] == rest;
      assert s == s[..ChunkSize] + s[ChunkSize..];
      r
  }

  /** Chunk `i` is the slice the comprehension takes at offset 200 * i. */
  lemma {:induction false} ChunkIsSlice<T>(s: seq<T>, i: int)
    requires 0 <= i < |Chunks(s)|
    ensures ChunkSize * i < |s|
    ensures Chunks(s)[i] == s[ChunkSize * i .. if ChunkSize * (i + 1) < |s| then ChunkSize * (i + 1) else |s|]
    decreases |s|
  {
    if i == 0 {
      FirstChunk(s);
    } else {
      var t := s[ChunkSize..];
      ChunksOfLong(s);
      ChunkIsSlice(t, i - 1);
      var lo, hi := ChunkSize * (i - 1), if ChunkSize * i < |t| then ChunkSize * i else |t|;
      SliceOfDrop(s, ChunkSize, lo, hi);
    }
  }

  /** The first chunk is the list's first 200 entries, or all of a shorter
      list. */
  lemma FirstChunk<T>(s: seq<T>)
    requires 0 < |Chunks(s)|
    ensures 0 < |s|
    ensures Chunks(s)[0] == s[..if ChunkSize < |s| then ChunkSize else |s|]
  {
  }

  /** A list longer than one chunk starts with a full chunk. */
  lemma ChunksOfLong<T>(s: seq<T>)
    requires |s| > ChunkSize
    ensures Chunks(s) == [s[..ChunkSize]] + Chunks(s[ChunkSize..])
  {
  }

  /** A slice of a suffix is a slice of the whole. */
  lemma SliceOfDrop<T>(s: seq<T>, k: int, lo: int, hi: int)
    requires 0 <= k <= |s| && 0 <= lo <= hi <= |s| - k
    ensures s[k..][lo..hi] == s[k + lo..k + hi]
  {
  }

  /** `",".join(chunk.index)`: the `Stations` parameter of one request. The
      service can split it back into the chunk's codes, as CDEC codes hold
      no comma. */
  function StationsParam(chunk: seq<string>): (r: string)
    ensures |chunk| >= 1 && (forall i :: 0 <= i < |chunk| ==> ',' !in chunk[i]) ==> Split(r, ',') == chunk
  {
    if |chunk| >= 1 && forall i :: 0 <= i < |chunk| ==> ',' !in chunk[i] then
      SplitJoin(chunk, ',');
      Text.Join(chunk, ',')
    else
      Text.Join(chunk, ',')
  }

  /** How pandas read a `DATE TIME` cell: empty (NaT), a date, or text
      `pd.to_datetime` cannot parse. */
  datatype DateText = Blank | Valid(date: Date) | Garbled

  /** One row of the concatenated answers: `STATION_ID` and `DATE TIME`. */
  datatype TimeRow = TimeRow(station: string, when: DateText)

  /** Whether the service answers the request of every chunk. */
  predicate AllAnswered(chunks: seq<seq<string>>, fetch: string -> Option<seq<TimeRow>>)
  {
    forall i :: 0 <= i < |chunks| ==> fetch(StationsParam(chunks[i])).Some?
  }

  /** The answers of the chunks' requests, in chunk order. */
  function Answers(chunks: seq<seq<string>>, fetch: string -> Option<seq<TimeRow>>): seq<seq<TimeRow>>
    requires AllAnswered(chunks, fetch)
  {
    seq(|chunks|, i requires 0 <= i < |chunks| => fetch(StationsParam(chunks[i])).value)
  }

  /** The loop `for chunk in chunks`: one request per chunk, the answers
      collected in order, then concatenated. `fetch` is the service's answer
      for a `Stations` parameter, `None` when `requests.get` or `read_csv`
      raises, which nothing catches. With no chunk at all, `pd.concat([])`
      raises. */
  method CollectTimes(chunks: seq<seq<string>>, fetch: string -> Option<seq<TimeRow>>) returns (all: Option<seq<TimeRow>>)
    ensures all.None? <==> |chunks| == 0 || !AllAnswered(chunks, fetch)
    ensures all.Some? ==> AllAnswered(chunks, fetch) && all.value == Flatten(Answers(chunks, fetch))
  {
    var times: seq<seq<TimeRow>> := [];
    var i := 0;
    while i < |chunks|
      invariant 0 <= i <= |chunks|
      invariant forall j :: 0 <= j < i ==> fetch(StationsParam(chunks[j])).Some?
      invariant |times| == i
      invariant forall j :: 0 <= j < i ==> times[j] == fetch(StationsParam(chunks[j])).value
    {
      var answer := fetch(StationsParam(chunks[i]));
      if answer.None? {
        return None;
      }
      times := times + [answer.value];
      i := i + 1;
    }
    if |times| == 0 {
      return None;
    }
    assert times == Answers(chunks, fetch);
    all := Some(Flatten(times));
  }

  /** `dropna(subset='datetime')`: the rows with a date, as (station, date). */
  function Dated(rows: seq<TimeRow>): (r: seq<(string, Date)>)
    ensures forall st, d :: (st, d) in r <==> TimeRow(st, Valid(d)) in rows
  {
    if |rows| == 0 then []
    else
      var rest := Dated(rows[1..]);
      assert forall x :: x in rows <==> x == rows[0] || x in rows[1..] by { assert rows == [rows[0]] + rows[1..]; }
      if rows[0].when.Valid? then [(rows[0].station, rows[0].when.date)] + rest else rest
  }

  /** `groupby('STATION_ID')['datetime'].agg(['min', 'max'])`: for each station
      with a dated row, the earliest and the latest of its dates. */
  function MinMax(rows: seq<(string, Date)>): (m: map<string, (Date, Date)>)
    ensures forall st :: st in m <==> exists d :: (st, d) in rows
    ensures forall st, d :: (st, d) in rows ==> st in m && m[st].0 <= d <= m[st].1
    ensures forall st :: st in m ==> (st, m[st].0) in rows && (st, m[st].1) in rows
    decreases |rows|
  {
    if |rows| == 0 then map[]
    else
      var n := |rows| - 1;
      var m0 := MinMax(rows[..n]);
      MinMaxStep(rows, m0);
      var (st, d) := rows[n];
      if st in m0 then m0[st := (if d < m0[st].0 then d else m0[st].0, if d > m0[st].1 then d else m0[st].1)]
      else m0[st := (d, d)]
  }

  /** One more row of the aggregation keeps its three properties. */
  lemma MinMaxStep(rows: seq<(string, Date)>, m0: map<string, (Date, Date)>)
    requires |rows| >= 1
    requires var n := |rows| - 1;
      && (forall st :: st in m0 <==> exists d :: (st, d) in rows[..n])
      && (forall st, d :: (st, d) in rows[..n] ==> st in m0 && m0[st].0 <= d <= m0[st].1)
      && (forall st :: st in m0 ==> (st, m0[st].0) in rows[..n] && (st, m0[st].1) in rows[..n])
    ensures var n := |rows| - 1;
      var (st, d) := rows[n];
      var m := if st in m0 then m0[st := (if d < m0[st].0 then d else m0[st].0, if d > m0[st].1 then d else m0[st].1)]
               else m0[st := (d, d)];
      && (forall st' :: st' in m <==> exists d' :: (st', d') in rows)
      && (forall st', d' :: (st', d') in rows ==> st' in m && m[st'].0 <= d' <= m[st'].1)
      && (forall st' :: st' in m ==> (st', m[st'].0) in rows && (st', m[st'].1) in rows)
  {
    var n := |rows| - 1;
    assert rows == rows[..n] + [rows[n]];
    assert forall x :: x in rows <==> x in rows[..n] || x == rows[n];
  }

  /** `start_and_end_dates`: `None` when some `DATE TIME` text cannot be parsed
      (the default `pd.to_datetime` raises); otherwise each station with a
      dated row mapped to its earliest and latest date, rows without a date
      being ignored. */
  function StartAndEndDates(rows: seq<TimeRow>): (r: Option<map<string, (Date, Date)>>)
    ensures r.None? <==> exists i :: 0 <= i < |rows| && rows[i].when.Garbled?
    ensures r.Some? ==> forall st :: st in r.value <==> exists d :: TimeRow(st, Valid(d)) in rows
    ensures r.Some? ==> forall st, d :: TimeRow(st, Valid(d)) in rows ==>
      st in r.value && r.value[st].0 <= d <= r.value[st].1
    ensures r.Some? ==> forall st :: st in r.value ==>
      TimeRow(st, Valid(r.value[st].0)) in rows && TimeRow(st, Valid(r.value[st].1)) in rows
  {
    if exists i :: 0 <= i < |rows| && rows[i].when.Garbled? then None
    else Some(MinMax(Dated(rows)))
  }

  /** `stations_gdf.join(start_and_end_dates)`: each station of the list gets
      its bounds, or none (NaN) when it has no dated row. */
  function AttachBounds(codes: seq<string>, bounds: map<string, (Date, Date)>): (r: seq<(string, Option<(Date, Date)>)>)
    ensures |r| == |codes|
    ensures forall i :: 0 <= i < |codes| ==> r[i].0 == codes[i]
    ensures forall i :: 0 <= i < |codes| ==> (r[i].1.Some? <==> codes[i] in bounds)
    ensures forall i :: 0 <= i < |codes| && codes[i] in bounds ==> r[i].1 == Some(bounds[codes[i]])
  {
    seq(|codes|, i requires 0 <= i < |codes| => (codes[i], if codes[i] in bounds then Some(bounds[codes[i]]) else None))
  }

  /** Every station's `beginDate` is at most its `endDate`, and both are dates
      on which the service reported it. */
  lemma BoundsOrdered(rows: seq<TimeRow>, codes: seq<string>, i: int)
    requires StartAndEndDates(rows).Some?
    requires 0 <= i < |codes|
    ensures var r := AttachBounds(codes, StartAndEndDates(rows).value);
      r[i].1.Some? ==> r[i].1.value.0 <= r[i].1.value.1 && TimeRow(codes[i], Valid(r[i].1.value.0)) in rows
  {
    var b := StartAndEndDates(rows).value;
    if codes[i] in b {
      assert TimeRow(codes[i], Valid(b[codes[i]].0)) in rows;
    }
  }
}
