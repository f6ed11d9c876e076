/** `snotel_tools/update_csv_files.py`: for each archived site file, fetch
    from the day after its last row and append the answer to the file. A
    failure inside the `try` skips the site; a file name without a site code
    stops the whole batch. Nothing already on file is rewritten. */
module SiteUpdate {
  import opened Wrappers
  import opened Frames
  import opened Archive

  /** What one iteration does: stop the batch, skip the site, or append
      `rows` to its file. */
  datatype Outcome = Abort | Skip | Append(rows: seq<Row>)

  /** One iteration for file `fn`; `build` is the answer of
      `snotel_tools.construct_daily_dataframe` for a site code and a start
      date (`None` when it raises). */
  function StepOutcome(files: map<string, seq<Row>>, fn: string, build: (string, Date) -> Option<Frame<real>>): (o: Outcome)
    ensures o.Abort? <==> ExtractCode(fn).None?
    ensures o.Append? ==> (fn in files && |files[fn]| >= 1
      && build(ExtractCode(fn).value, files[fn][|files[fn]| - 1].0 + 1).Some?
      && o.rows == Rows(build(ExtractCode(fn).value, files[fn][|files[fn]| - 1].0 + 1).value))
    ensures o.Skip? <==> (ExtractCode(fn).Some? && (fn !in files || |files[fn]| == 0
      || build(ExtractCode(fn).value, files[fn][|files[fn]| - 1].0 + 1).None?))
  {
    match ExtractCode(fn)
    case None => Abort
    case Some(code) =>
      if fn !in files then Skip
      else
        match ToolsFetchStart(Dates(files[fn]))
        case None => Skip
        case Some(next) =>
          match build(code, next)
          case None => Skip
          case Some(frame) => Append(Rows(frame))
  }

  /** The files after an iteration that does not stop the batch:
      `to_csv(fn, mode='a')` adds the fetched rows at the end of the site's
      file; otherwise nothing changes. No file is added or removed, no other
      file changes, and the site's file keeps its old rows as a prefix. */
  function After(files: map<string, seq<Row>>, fn: string, build: (string, Date) -> Option<Frame<real>>): (r: map<string, seq<Row>>)
    ensures r.Keys == files.Keys
    ensures forall f :: f in files && f != fn ==> r[f] == files[f]
    ensures fn in files ==> files[fn] <= r[fn]
    ensures StepOutcome(files, fn, build).Append? ==> r[fn] == files[fn] + StepOutcome(files, fn, build).rows
    ensures !StepOutcome(files, fn, build).Append? ==> r == files
  {
    match StepOutcome(files, fn, build)
    case Append(rows) => files[fn := files[fn] + rows]
    case _ => files
  }

  /** The loop from file `fns[0]` on: the final files, and whether the batch
      stopped early. The files are append-only: none is added or removed,
      and each starts with the rows it held before. */
  function Run(files: map<string, seq<Row>>, fns: seq<string>, build: (string, Date) -> Option<Frame<real>>): (r: (map<string, seq<Row>>, bool))
    ensures r.0.Keys == files.Keys
    ensures forall f :: f in files ==> files[f] <= r.0[f]
    decreases |fns|
  {
    if |fns| == 0 then (files, false)
    else if StepOutcome(files, fns[0], build).Abort? then (files, true)
    else Run(After(files, fns[0], build), fns[1..], build)
  }

  /** The archive directory. */
  class SiteArchive {
    var files: map<string, seq<Row>>

    constructor (files0: map<string, seq<Row>>)
      ensures files == files0
    {
      files := files0;
    }

    /** `for fn in fns`: the loop of the script, ending in the files `Run`
        describes. */
    method UpdateAll(fns: seq<string>, build: (string, Date) -> Option<Frame<real>>) returns (aborted: bool)
      modifies this
      ensures (files, aborted) == Run(old(files), fns, build)
    {
      var i := 0;
      while i < |fns|
        invariant 0 <= i <= |fns|
        invariant Run(old(files), fns, build) == Run(files, fns[i..], build)
      {
        assert fns[i..][1..] == fns[i + 1..];
        var code := ExtractCode(fns[i]);
        if code.None? {
          return true;
        }
        var fn := fns[i];
        if fn in files {
          var start := ToolsFetchStart(Dates(files[fn]));
          if start.Some? {
            var fetched := build(code.value, start.value);
            if fetched.Some? {
              files := files[fn := files[fn] + Rows(fetched.value)];
            }
          }
        }
        i := i + 1;
      }
      return false;
    }
  }

  /** Files the batch is not given come out of it unchanged. */
  lemma {:induction false} RunUntouched(files: map<string, seq<Row>>, fns: seq<string>, build: (string, Date) -> Option<Frame<real>>)
    ensures forall f :: f in files && f !in fns ==> Run(files, fns, build).0[f] == files[f]
    decreases |fns|
  {
    if |fns| > 0 && !StepOutcome(files, fns[0], build).Abort? {
      RunUntouched(After(files, fns[0], build), fns[1..], build);
      assert forall f :: f in fns[1..] ==> f in fns;
    }
  }

  /** One append adds exactly the fetched rows: the new file is the old one
      followed by them. */
  lemma AppendAddsFetched(files: map<string, seq<Row>>, fn: string, build: (string, Date) -> Option<Frame<real>>)
    requires StepOutcome(files, fn, build).Append?
    ensures var rows := StepOutcome(files, fn, build).rows;
      var after := After(files, fn, build)[fn];
      |after| == |files[fn]| + |rows| && after[..|files[fn]|] == files[fn] && after[|files[fn]|..] == rows
  {
  }

  /** A file sorted by date stays sorted when the site's answer is sorted and
      starts no earlier than the requested day: the window begins after every
      date already on file. */
  lemma AppendKeepsOrder(files: map<string, seq<Row>>, fn: string, build: (string, Date) -> Option<Frame<real>>)
    requires StepOutcome(files, fn, build).Append?
    requires Increasing(Dates(files[fn]))
    requires var ds := Dates(files[fn]);
      var answer := build(ExtractCode(fn).value, ds[|ds| - 1] + 1).value;
      Increasing(answer.index) && forall j :: 0 <= j < |answer.index| ==> answer.index[j] >= ds[|ds| - 1] + 1
    ensures Increasing(Dates(After(files, fn, build)[fn]))
  {
    var before := Dates(files[fn]);
    var rows := StepOutcome(files, fn, build).rows;
    var ds := Dates(After(files, fn, build)[fn]);
    ToolsWindowAfterAll(before);
    var n := |before|;
    forall a, b | 0 <= a < b < |ds| ensures ds[a] < ds[b] {
      if b < n {
        assert ds[a] == before[a] && ds[b] == before[b];
      } else if a < n {
        assert ds[a] == before[a] && ds[b] == rows[b - n].0;
      } else {
        assert ds[a] == rows[a - n].0 && ds[b] == rows[b - n].0;
      }
    }
  }
}
