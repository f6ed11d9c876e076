/** `snotel_ccss_stations/update_csv_files.py`: for each archived station
    file, re-fetch from the day after the third-to-last persisted row, merge,
    de-duplicate, rewrite the file and move the station's `endDate` in the
    registry. A failure inside the `try` skips the station; a file name
    without a station code stops the whole batch. */
module StationUpdate {
  import opened Wrappers
  import opened Frames
  import opened Archive
  import opened Registry

  /** The two builders, by network: the answer of `construct_daily_ccss_dataframe`
      or `construct_daily_dataframe` for a station code and a start date
      (`None` when it raises). */
  datatype Builders = Builders(ccss: (string, Date) -> Option<Frame<real>>, snotel: (string, Date) -> Option<Frame<real>>)

  /** The builder `len(stationcode) == 3` selects. */
  function BuilderFor(b: Builders, code: string): (build: (string, Date) -> Option<Frame<real>>)
    ensures |code| == 3 ==> build == b.ccss
    ensures |code| != 3 ==> build == b.snotel
  {
    match NetworkOf(code)
    case Ccss => b.ccss
    case Snotel => b.snotel
  }

  /** The archive and the registry between two iterations. */
  datatype State = State(files: map<string, seq<Row>>, registry: seq<Station>)

  /** What one iteration does: stop the batch, skip the station, or update its
      file to `rows` and its `endDate` to `next`. */
  datatype Outcome = Abort | Skip | Update(code: string, rows: seq<Row>, next: Date)

  /** One iteration of the loop for file `fn`. */
  function StepOutcome(files: map<string, seq<Row>>, fn: string, b: Builders): (o: Outcome)
    ensures o.Abort? <==> ExtractCode(fn).None?
    ensures o.Update? ==> Some(o.code) == ExtractCode(fn) && fn in files && |files[fn]| >= 3
    ensures o.Update? ==> o.next == files[fn][|files[fn]| - 3].0 + 1
    ensures o.Update? ==> (BuilderFor(b, o.code)(o.code, o.next).Some?
      && o.rows == DropDuplicatesKeepLast(files[fn] + Rows(BuilderFor(b, o.code)(o.code, o.next).value)))
    ensures o.Skip? <==> (ExtractCode(fn).Some? && (fn !in files || |files[fn]| < 3
      || BuilderFor(b, ExtractCode(fn).value)(ExtractCode(fn).value, files[fn][|files[fn]| - 3].0 + 1).None?))
  {
    match ExtractCode(fn)
    case None => Abort
    case Some(code) =>
      if fn !in files then Skip
      else
        match CcssFetchStart(Dates(files[fn]))
        case None => Skip
        case Some(next) =>
          match BuilderFor(b, code)(code, next)
          case None => Skip
          case Some(frame) => Update(code, DropDuplicatesKeepLast(files[fn] + Rows(frame)), next)
  }

  /** The state after an iteration that does not stop the batch. An update
      rewrites the file and sets the station's `endDate`; otherwise nothing
      changes. No file is added or removed, no other file changes, the
      registry keeps its length, and records of other stations stay. */
  function After(s: State, fn: string, b: Builders): (r: State)
    ensures r.files.Keys == s.files.Keys
    ensures forall f :: f in s.files && f != fn ==> r.files[f] == s.files[f]
    ensures |r.registry| == |s.registry|
    ensures forall i :: 0 <= i < |s.registry| && Some(s.registry[i].code) != ExtractCode(fn) ==> r.registry[i] == s.registry[i]
    ensures var o := StepOutcome(s.files, fn, b);
      o.Update? ==> (r.files[fn] == o.rows
        && forall i :: 0 <= i < |s.registry| && s.registry[i].code == o.code ==> r.registry[i] == s.registry[i].(endDate := Some(o.next)))
    ensures !StepOutcome(s.files, fn, b).Update? ==> r == s
  {
    var o := StepOutcome(s.files, fn, b);
    if o.Update? then State(s.files[fn := o.rows], SetEndDate(s.registry, o.code, o.next)) else s
  }

  /** The loop from file `fns[0]` on: the final state, and whether the batch
      stopped early. No file is added or removed and the registry keeps its
      length. */
  function Run(s: State, fns: seq<string>, b: Builders): (r: (State, bool))
    ensures r.0.files.Keys == s.files.Keys
    ensures |r.0.registry| == |s.registry|
    decreases |fns|
  {
    if |fns| == 0 then (s, false)
    else if StepOutcome(s.files, fns[0], b).Abort? then (s, true)
    else Run(After(s, fns[0], b), fns[1..], b)
  }

  /** The archive directory and the registry file. */
  class StationArchive {
    var files: map<string, seq<Row>>
    var registry: seq<Station>

    constructor (files0: map<string, seq<Row>>, registry0: seq<Station>)
      ensures files == files0 && registry == registry0
    {
      files := files0;
      registry := registry0;
    }

    /** `for fn in fns`: the loop of the script, ending in the state `Run`
        describes. */
    method UpdateAll(fns: seq<string>, b: Builders) returns (aborted: bool)
      modifies this
      ensures (State(files, registry), aborted) == Run(State(old(files), old(registry)), fns, b)
    {
      var i := 0;
      while i < |fns|
        invariant 0 <= i <= |fns|
        invariant Run(State(old(files), old(registry)), fns, b) == Run(State(files, registry), fns[i..], b)
      {
        assert fns[i..][1..] == fns[i + 1..];
        var code := ExtractCode(fns[i]);
        if code.None? {
          return true;
        }
        var fn := fns[i];
        if fn in files {
          var existing := files[fn];
          var start := CcssFetchStart(Dates(existing));
          if start.Some? {
            var next := start.value;
            var fetched := BuilderFor(b, code.value)(code.value, next);
            if fetched.Some? {
              files := files[fn := DropDuplicatesKeepLast(existing + Rows(fetched.value))];
              registry := SetEndDate(registry, code.value, next);
            }
          }
        }
        i := i + 1;
      }
      return false;
    }
  }

  /** The batch stops early exactly when some file name carries no station
      code. */
  lemma {:induction false} RunAbortsIff(s: State, fns: seq<string>, b: Builders)
    ensures Run(s, fns, b).1 <==> exists i :: 0 <= i < |fns| && ExtractCode(fns[i]).None?
    decreases |fns|
  {
    if |fns| > 0 && ExtractCode(fns[0]).Some? {
      RunAbortsIff(After(s, fns[0], b), fns[1..], b);
      if exists i :: 0 <= i < |fns| && ExtractCode(fns[i]).None? {
        var i :| 0 <= i < |fns| && ExtractCode(fns[i]).None?;
        assert ExtractCode(fns[1..][i - 1]).None?;
      }
      if exists i :: 0 <= i < |fns| - 1 && ExtractCode(fns[1..][i]).None? {
        var i :| 0 <= i < |fns| - 1 && ExtractCode(fns[1..][i]).None?;
        assert ExtractCode(fns[i + 1]).None?;
      }
    }
  }

  /** At the first file name without a station code the batch stops, in the
      state the files before it produced. */
  lemma {:induction false} RunStopsAt(s: State, fns: seq<string>, b: Builders, i: int)
    requires 0 <= i < |fns| && ExtractCode(fns[i]).None?
    requires forall j :: 0 <= j < i ==> ExtractCode(fns[j]).Some?
    ensures Run(s, fns, b) == (Run(s, fns[..i], b).0, true)
    decreases i
  {
    if i > 0 {
      assert fns[1..][..i - 1] == fns[..i][1..];
      assert ExtractCode(fns[1..][i - 1]).None?;
      RunStopsAt(After(s, fns[0], b), fns[1..], b, i - 1);
    }
  }

  /** Files the batch is not given, and registry records whose code no file
      name carries, come out of the batch unchanged. */
  lemma {:induction false} RunUntouched(s: State, fns: seq<string>, b: Builders)
    ensures forall f :: f in s.files && f !in fns ==> Run(s, fns, b).0.files[f] == s.files[f]
    ensures forall i :: 0 <= i < |s.registry| && (forall fn :: fn in fns ==> ExtractCode(fn) != Some(s.registry[i].code)) ==>
      Run(s, fns, b).0.registry[i] == s.registry[i]
    decreases |fns|
  {
    if |fns| > 0 {
      assert forall fn :: fn in fns[1..] ==> fn in fns;
      if !StepOutcome(s.files, fns[0], b).Abort? {
        RunUntouched(After(s, fns[0], b), fns[1..], b);
      }
    }
  }

  /** After an update the station's file holds no two rows with the same
      cells, and every row of the rewritten file was on file or fetched. */
  lemma UpdatedFileUnique(files: map<string, seq<Row>>, fn: string, b: Builders)
    requires StepOutcome(files, fn, b).Update?
    ensures var o := StepOutcome(files, fn, b);
      && UniqueCells(o.rows)
      && forall k :: 0 <= k < |o.rows| ==> o.rows[k] in files[fn] + Rows(BuilderFor(b, o.code)(o.code, o.next).value)
  {
    var o := StepOutcome(files, fn, b);
    DedupRowsFromInput(files[fn] + Rows(BuilderFor(b, o.code)(o.code, o.next).value));
  }

  /** The `endDate` written for a station whose file is sorted by date lies
      after its third-to-last persisted date and no later than its
      second-to-last: it trails the data on file by at least one day. */
  lemma EndDateTrailsData(files: map<string, seq<Row>>, fn: string, b: Builders)
    requires StepOutcome(files, fn, b).Update?
    requires Increasing(Dates(files[fn]))
    ensures var o := StepOutcome(files, fn, b);
      var ds := Dates(files[fn]);
      ds[|ds| - 3] < o.next <= ds[|ds| - 2] && o.next <= ds[|ds| - 1]
  {
    var ds := Dates(files[fn]);
    CcssWindowRecoversTwo(ds);
    assert ds[|ds| - 2] >= CcssFetchStart(ds).value;
    assert ds[|ds| - 1] >= CcssFetchStart(ds).value;
  }
}
