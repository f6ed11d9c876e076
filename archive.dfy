/** The rules both `update_csv_files.py` scripts apply to one archived station
    file: the station code is read off the file name, the station's network
    is chosen by the code's length, the fetch window starts just after a
    persisted date, and (in the station-registry script) the combined rows are
    de-duplicated. */
module Archive {
  import opened Wrappers
  import opened Frames

  /** A persisted row: its date (the CSV index) and its cells. */
  type Row = (Date, seq<Option<real>>)

  /** The dates of a list of rows. */
  function Dates(rows: seq<Row>): (ds: seq<Date>)
    ensures |ds| == |rows| && forall i :: 0 <= i < |rows| ==> ds[i] == rows[i].0
  {
    seq(|rows|, i requires 0 <= i < |rows| => rows[i].0)
  }

  // ---------------------------------------------------------------------
  // The station code: re.search(r"/(?P<filename>[^/.]+)\.", fn).group('filename')

  /** A character of the `[^/.]` class. */
  predicate CodeChar(c: char)
  {
    c != '/' && c != '.'
  }

  /** Where the run of code characters starting at `j` ends. */
  function RunEnd(path: string, j: int): (k: int)
    requires 0 <= j <= |path|
    ensures j <= k <= |path|
    ensures forall m :: j <= m < k ==> CodeChar(path[m])
    ensures k == |path| || !CodeChar(path[k])
    decreases |path| - j
  {
    if j == |path| || !CodeChar(path[j]) then j else RunEnd(path, j + 1)
  }

  /** Whether the pattern matches at `i`: a `/`, a non-empty run of code
      characters and then a `.`. The greedy class can only be followed by the
      `.` at the end of its longest run, since every shorter run is followed by
      a code character. */
  predicate MatchAt(path: string, i: int)
  {
    && 0 <= i < |path| && path[i] == '/'
    && var k := RunEnd(path, i + 1);
       k > i + 1 && k < |path| && path[k] == '.'
  }

  /** The leftmost match at or after `i`. */
  function SearchFrom(path: string, i: int): (r: Option<int>)
    requires 0 <= i <= |path|
    ensures r.None? ==> forall j :: i <= j < |path| ==> !MatchAt(path, j)
    ensures r.Some? ==> i <= r.value < |path| && MatchAt(path, r.value) && forall j :: i <= j < r.value ==> !MatchAt(path, j)
    decreases |path| - i
  {
    if i == |path| then None
    else if MatchAt(path, i) then Some(i)
    else SearchFrom(path, i + 1)
  }

  /** `re.search(pattern, fn).group('filename')`: the code of the leftmost
      match; `None` when nothing matches, where Python's `.group` on `None`
      raises. */
  function ExtractCode(path: string): (r: Option<string>)
    ensures r.None? <==> forall i :: 0 <= i < |path| ==> !MatchAt(path, i)
    ensures r.Some? ==> exists i :: 0 <= i < |path| && MatchAt(path, i) && (forall j :: 0 <= j < i ==> !MatchAt(path, j))
                                    && r.value == path[i + 1..RunEnd(path, i + 1)]
    ensures r.Some? ==> |r.value| > 0 && forall m :: 0 <= m < |r.value| ==> CodeChar(r.value[m])
  {
    var found := SearchFrom(path, 0);
    if found.None? then None
    else
      var i := found.value;
      Some(path[i + 1..RunEnd(path, i + 1)])
  }

  /** The archive's paths: a directory without `/`, then `/`, the code, `.`
      and the extension, as the archive's file listing returns them. */
  lemma {:induction false} ExtractFromArchivePath(dir: string, code: string, ext: string)
    requires forall m :: 0 <= m < |dir| ==> dir[m] != '/'
    requires |code| > 0 && forall m :: 0 <= m < |code| ==> CodeChar(code[m])
    ensures ExtractCode(dir + "/" + code + "." + ext) == Some(code)
  {
    var path := dir + "/" + code + "." + ext;
    var i := |dir|;
    assert path[i] == '/';
    RunOver(path, i + 1, |code|);
    assert path[i + 1 + |code|] == '.';
    assert MatchAt(path, i);
    forall j | 0 <= j < i ensures !MatchAt(path, j) {
      assert path[j] == dir[j];
    }
    assert path[i + 1..i + 1 + |code|] == code;
  }

  /** A run of `n` code characters followed by a non-code character ends
      there. */
  lemma {:induction false} RunOver(path: string, j: int, n: nat)
    requires 0 <= j && j + n < |path|
    requires forall m :: j <= m < j + n ==> CodeChar(path[m])
    requires !CodeChar(path[j + n])
    ensures RunEnd(path, j) == j + n
    decreases n
  {
    if n > 0 {
      RunOver(path, j + 1, n - 1);
    }
  }

  // ---------------------------------------------------------------------
  // Network and fetch window

  /** The two station networks of the registry. */
  datatype Network = Ccss | Snotel

  /** `len(stationcode) == 3`: three-character codes are CDEC snow-sensor
      stations, every other code is a SNOTEL site. */
  function NetworkOf(code: string): (n: Network)
    ensures n == Ccss <==> |code| == 3
  {
    if |code| == 3 then Ccss else Snotel
  }

  /** `existing_data.index[-3] + 1 day`: `None` when the file holds fewer than
      three rows (the IndexError that skips the station). */
  function CcssFetchStart(index: seq<Date>): (start: Option<Date>)
    ensures start.None? <==> |index| < 3
    ensures start.Some? ==> start.value == index[|index| - 3] + 1
  {
    if |index| < 3 then None else Some(index[|index| - 3] + 1)
  }

  /** On a sorted index, the window re-covers exactly the last two persisted
      dates. */
  lemma CcssWindowRecoversTwo(index: seq<Date>)
    requires Increasing(index) && |index| >= 3
    ensures forall j :: 0 <= j < |index| ==> (index[j] >= CcssFetchStart(index).value <==> j >= |index| - 2)
  {
    var n := |index|;
    forall j | 0 <= j < n ensures index[j] >= index[n - 3] + 1 <==> j >= n - 2 {
      if j >= n - 2 { assert index[n - 3] < index[j]; }
      if j < n - 3 { assert index[j] < index[n - 3]; }
    }
  }

  /** `pd.read_csv(fn).index[-1] + 1 day`: `None` for a file without rows. */
  function ToolsFetchStart(index: seq<Date>): (start: Option<Date>)
    ensures start.None? <==> |index| == 0
    ensures start.Some? ==> start.value == index[|index| - 1] + 1
  {
    if |index| == 0 then None else Some(index[|index| - 1] + 1)
  }

  /** On a sorted index the window starts strictly after every persisted
      date. */
  lemma ToolsWindowAfterAll(index: seq<Date>)
    requires Increasing(index) && |index| >= 1
    ensures forall j :: 0 <= j < |index| ==> index[j] < ToolsFetchStart(index).value
  {
    var n := |index|;
    forall j | 0 <= j < n ensures index[j] < index[n - 1] + 1 {
      if j < n - 1 { assert index[j] < index[n - 1]; }
    }
  }

  // ---------------------------------------------------------------------
  // drop_duplicates(keep='last')

  /** Whether some row of `rows` carries the cells `v`. */
  predicate HasCells(rows: seq<Row>, v: seq<Option<real>>)
  {
    exists j :: 0 <= j < |rows| && rows[j].1 == v
  }

  /** Row `i` is the last one carrying its cells. */
  predicate LastOfItsCells(rows: seq<Row>, i: int)
    requires 0 <= i < |rows|
  {
    forall j :: i < j < |rows| ==> rows[j].1 != rows[i].1
  }

  /** `a` is `b` with some rows left out, order kept. */
  predicate Subsequence(a: seq<Row>, b: seq<Row>)
    decreases |b|
  {
    if |a| == 0 then true
    else if |b| == 0 then false
    else if a[0] == b[0] then Subsequence(a[1..], b[1..])
    else Subsequence(a, b[1..])
  }

  /** No two rows carry the same cells: no row's cells come again later. */
  predicate UniqueCells(rows: seq<Row>)
    decreases |rows|
  {
    |rows| == 0 || (!HasCells(rows[1..], rows[0].1) && UniqueCells(rows[1..]))
  }

  /** `UniqueCells` read pairwise. */
  lemma {:induction false} UniqueCellsPairwise(rows: seq<Row>)
    requires UniqueCells(rows)
    ensures forall a, b :: 0 <= a < b < |rows| ==> rows[a].1 != rows[b].1
    decreases |rows|
  {
    if |rows| > 0 {
      var tail := rows[1..];
      UniqueCellsPairwise(tail);
      forall a, b | 0 <= a < b < |rows| ensures rows[a].1 != rows[b].1 {
        assert rows[b] == tail[b - 1];
        if a > 0 {
          assert rows[a] == tail[a - 1];
        } else {
          assert HasCells(tail, rows[b].1);
        }
      }
    }
  }

  /** What `drop_duplicates(keep='last')` promises of `r`: it is `rows` with
      rows left out in order, no two of its rows carry the same cells, it
      carries exactly the cells `rows` carries, it holds every row that is the
      last of its cells in `rows`, and nothing else. */
  ghost predicate KeepsLast(rows: seq<Row>, r: seq<Row>)
  {
    && Subsequence(r, rows)
    && UniqueCells(r)
    && (forall v :: HasCells(r, v) <==> HasCells(rows, v))
    && (forall i :: 0 <= i < |rows| && LastOfItsCells(rows, i) ==> rows[i] in r)
    && (forall k :: 0 <= k < |r| ==> exists i :: 0 <= i < |rows| && r[k] == rows[i] && LastOfItsCells(rows, i))
  }

  /** The positions from `from` on whose rows are the last of their cells,
      scanned in increasing order: the positions `drop_duplicates(keep='last')`
      keeps. */
  function LastPositions(rows: seq<Row>, from: nat): (p: seq<int>)
    requires from <= |rows|
    ensures forall k :: 0 <= k < |p| ==> from <= p[k] < |rows|
    decreases |rows| - from
  {
    if from == |rows| then []
    else if LastOfItsCells(rows, from) then [from] + LastPositions(rows, from + 1)
    else LastPositions(rows, from + 1)
  }

  /** `LastPositions` lists its positions in increasing order. */
  lemma {:induction false} LastPositionsIncreasing(rows: seq<Row>, from: nat)
    requires from <= |rows|
    ensures Increasing(LastPositions(rows, from))
    decreases |rows| - from
  {
    if from < |rows| {
      var rest := LastPositions(rows, from + 1);
      LastPositionsIncreasing(rows, from + 1);
      if LastOfItsCells(rows, from) {
        IncreasingCons(from, rest);
      }
    }
  }

  /** A position from `from` on is listed exactly when its row is the last of
      its cells. */
  lemma {:induction false} LastPositionsExact(rows: seq<Row>, from: nat)
    requires from <= |rows|
    ensures forall i :: from <= i < |rows| ==> (i in LastPositions(rows, from) <==> LastOfItsCells(rows, i))
    decreases |rows| - from
  {
    if from < |rows| {
      LastPositionsExact(rows, from + 1);
      var rest := LastPositions(rows, from + 1);
      assert from !in rest;
    }
  }

  /** `r` is the list of the rows of `rows` at the positions that are the
      last of their cells, taken in the order of those positions. */
  predicate AtLastPositions(rows: seq<Row>, r: seq<Row>)
  {
    var p := LastPositions(rows, 0);
    |r| == |p| && forall k :: 0 <= k < |r| ==> r[k] == rows[p[k]]
  }

  /** `combined_data.drop_duplicates(keep='last')`: rows compare by their
      cells, not by their dates; of the rows carrying the same cells only the
      last survives, and the survivors keep their order. */
  function DropDuplicatesKeepLast(rows: seq<Row>): (r: seq<Row>)
    ensures KeepsLast(rows, r)
    decreases |rows|
  {
    if |rows| == 0 then []
    else
      var rest := DropDuplicatesKeepLast(rows[1..]);
      if HasCells(rows[1..], rows[0].1) then
        DedupDrop(rows, rest);
        rest
      else
        DedupKeep(rows, rest);
        [rows[0]] + rest
  }

  /** The survivors are the rows at the last positions of their cells, in
      the order of those positions, so the order of the result is fixed. */
  lemma {:induction false} DedupAtLastPositions(rows: seq<Row>)
    ensures AtLastPositions(rows, DropDuplicatesKeepLast(rows))
    decreases |rows|
  {
    if |rows| > 0 {
      DedupAtLastPositions(rows[1..]);
      DedupPositions(rows, DropDuplicatesKeepLast(rows[1..]));
    }
  }

  /** The positions of the tail are those of `rows` moved down by one. */
  lemma {:induction false} LastPositionsShift(rows: seq<Row>, from: nat)
    requires 1 <= from <= |rows|
    ensures |LastPositions(rows, from)| == |LastPositions(rows[1..], from - 1)|
    ensures forall k :: 0 <= k < |LastPositions(rows, from)| ==>
      LastPositions(rows, from)[k] == LastPositions(rows[1..], from - 1)[k] + 1
    decreases |rows| - from
  {
    if from < |rows| {
      LastShift(rows, from);
      LastPositionsShift(rows, from + 1);
    }
  }

  /** One step of `DropDuplicatesKeepLast` keeps the rows at the last
      positions: the first row is one of them exactly when it is kept. */
  lemma DedupPositions(rows: seq<Row>, rest: seq<Row>)
    requires |rows| > 0
    requires AtLastPositions(rows[1..], rest)
    ensures AtLastPositions(rows, if HasCells(rows[1..], rows[0].1) then rest else [rows[0]] + rest)
  {
    FirstIsLast(rows);
    var q := LastPositions(rows[1..], 0);
    forall k | 0 <= k < |rest| ensures rest[k] == rows[q[k] + 1] {
      assert rest[k] == rows[1..][q[k]];
    }
    LastPositionsShift(rows, 1);
    if LastOfItsCells(rows, 0) {
      KeptPositions(rows, rest);
    } else {
      DroppedPositions(rows, rest);
    }
  }

  /** `DedupPositions` when the first row is dropped. */
  lemma DroppedPositions(rows: seq<Row>, rest: seq<Row>)
    requires |rows| > 0 && !LastOfItsCells(rows, 0)
    requires var p, q := LastPositions(rows, 1), LastPositions(rows[1..], 0);
      && |p| == |q| == |rest|
      && (forall k :: 0 <= k < |p| ==> p[k] == q[k] + 1)
      && (forall k :: 0 <= k < |rest| ==> rest[k] == rows[q[k] + 1])
    ensures AtLastPositions(rows, rest)
  {
    assert LastPositions(rows, 0) == LastPositions(rows, 1);
  }

  /** `DedupPositions` when the first row is kept. */
  lemma KeptPositions(rows: seq<Row>, rest: seq<Row>)
    requires |rows| > 0 && LastOfItsCells(rows, 0)
    requires var p, q := LastPositions(rows, 1), LastPositions(rows[1..], 0);
      && |p| == |q| == |rest|
      && (forall k :: 0 <= k < |p| ==> p[k] == q[k] + 1)
      && (forall k :: 0 <= k < |rest| ==> rest[k] == rows[q[k] + 1])
    ensures AtLastPositions(rows, [rows[0]] + rest)
  {
    var p, r := LastPositions(rows, 0), [rows[0]] + rest;
    assert p == [0] + LastPositions(rows, 1);
    forall k | 0 < k < |r| ensures r[k] == rows[p[k]] {
      assert r[k] == rest[k - 1];
    }
  }

  /** Row `i` of `rows` is the last of its cells exactly when row `i - 1` of
      the tail is. */
  lemma LastShift(rows: seq<Row>, i: int)
    requires 1 <= i < |rows|
    ensures LastOfItsCells(rows, i) <==> LastOfItsCells(rows[1..], i - 1)
  {
    assert forall j :: i < j < |rows| ==> rows[j] == rows[1..][j - 1];
  }

  /** The cells of `rows` are those of its first row and of its tail. */
  lemma HasCellsCons(rows: seq<Row>, v: seq<Option<real>>)
    requires |rows| > 0
    ensures HasCells(rows, v) <==> v == rows[0].1 || HasCells(rows[1..], v)
  {
    if HasCells(rows, v) {
      var j :| 0 <= j < |rows| && rows[j].1 == v;
      if j > 0 { assert rows[1..][j - 1].1 == v; }
    }
    if HasCells(rows[1..], v) {
      var j :| 0 <= j < |rows| - 1 && rows[1..][j].1 == v;
      assert rows[j + 1].1 == v;
    }
  }

  /** The first row is the last of its cells when the tail does not carry
      them. */
  lemma FirstIsLast(rows: seq<Row>)
    requires |rows| > 0
    ensures LastOfItsCells(rows, 0) <==> !HasCells(rows[1..], rows[0].1)
  {
    if !LastOfItsCells(rows, 0) {
      var j :| 0 < j < |rows| && rows[j].1 == rows[0].1;
      assert rows[1..][j - 1].1 == rows[0].1;
    }
    if HasCells(rows[1..], rows[0].1) {
      var j :| 0 <= j < |rows| - 1 && rows[1..][j].1 == rows[0].1;
      assert rows[j + 1].1 == rows[0].1;
    }
  }

  /** The step of `DropDuplicatesKeepLast` that drops a first row whose cells
      come again later. */
  lemma DedupDrop(rows: seq<Row>, rest: seq<Row>)
    requires |rows| > 0 && HasCells(rows[1..], rows[0].1)
    requires KeepsLast(rows[1..], rest)
    ensures KeepsLast(rows, rest)
  {
    SubsequenceSkip(rest, rows);
    forall v ensures HasCells(rest, v) <==> HasCells(rows, v) {
      HasCellsCons(rows, v);
    }
    FirstIsLast(rows);
    forall i | 0 <= i < |rows| && LastOfItsCells(rows, i) ensures rows[i] in rest {
      LastShift(rows, i);
      assert rows[i] == rows[1..][i - 1];
    }
    forall k | 0 <= k < |rest| ensures exists i :: 0 <= i < |rows| && rest[k] == rows[i] && LastOfItsCells(rows, i) {
      var i :| 0 <= i < |rows| - 1 && rest[k] == rows[1..][i] && LastOfItsCells(rows[1..], i);
      LastShift(rows, i + 1);
    }
  }

  /** The step of `DropDuplicatesKeepLast` that keeps a first row whose cells
      do not come again. */
  lemma DedupKeep(rows: seq<Row>, rest: seq<Row>)
    requires |rows| > 0 && !HasCells(rows[1..], rows[0].1)
    requires KeepsLast(rows[1..], rest)
    ensures KeepsLast(rows, [rows[0]] + rest)
  {
    var r := [rows[0]] + rest;
    assert r[1..] == rest;
    assert Subsequence(r, rows);
    assert !HasCells(rest, rows[0].1);
    forall v ensures HasCells(r, v) <==> HasCells(rows, v) {
      HasCellsCons(rows, v);
      HasCellsCons(r, v);
    }
    FirstIsLast(rows);
    forall i | 0 <= i < |rows| && LastOfItsCells(rows, i) ensures rows[i] in r {
      if i > 0 {
        LastShift(rows, i);
        assert rows[i] == rows[1..][i - 1];
      }
    }
    forall k | 0 <= k < |r| ensures exists i :: 0 <= i < |rows| && r[k] == rows[i] && LastOfItsCells(rows, i) {
      if k > 0 {
        var i :| 0 <= i < |rows| - 1 && rest[k - 1] == rows[1..][i] && LastOfItsCells(rows[1..], i);
        LastShift(rows, i + 1);
        assert r[k] == rows[i + 1];
      }
    }
  }

  /** Skipping the first row of `b` keeps a subsequence of its tail a
      subsequence of `b`. */
  lemma {:induction false} SubsequenceSkip(a: seq<Row>, b: seq<Row>)
    requires |b| > 0 && Subsequence(a, b[1..])
    ensures Subsequence(a, b)
    decreases |b|, 0
  {
    if |a| > 0 && a[0] == b[0] {
      SubsequenceTail(a, b[1..]);
    }
  }

  /** Dropping the first row of a subsequence keeps a subsequence. */
  lemma {:induction false} SubsequenceTail(a: seq<Row>, b: seq<Row>)
    requires |a| > 0 && Subsequence(a, b)
    ensures Subsequence(a[1..], b)
    decreases |b|, 1
  {
    if a[0] == b[0] {
      SubsequenceSkip(a[1..], b);
    } else {
      SubsequenceTail(a, b[1..]);
      SubsequenceSkip(a[1..], b);
    }
  }

  /** Rows that already carry distinct cells are left as they are. */
  lemma {:induction false} DedupOfUnique(rows: seq<Row>)
    requires UniqueCells(rows)
    ensures DropDuplicatesKeepLast(rows) == rows
    decreases |rows|
  {
    if |rows| > 0 {
      var tail := rows[1..];
      DedupOfUnique(tail);
      assert !HasCells(tail, rows[0].1);
      assert DropDuplicatesKeepLast(rows) == [rows[0]] + DropDuplicatesKeepLast(tail);
      HeadAndTail(rows);
    }
  }

  /** The de-duplicated rows carry distinct cells and are rows of the input. */
  lemma DedupRowsFromInput(rows: seq<Row>)
    ensures var r := DropDuplicatesKeepLast(rows);
      UniqueCells(r) && forall k :: 0 <= k < |r| ==> r[k] in rows
  {
    var r := DropDuplicatesKeepLast(rows);
    var p := LastPositions(rows, 0);
    DedupAtLastPositions(rows);
    forall k | 0 <= k < |r| ensures r[k] in rows {
      assert r[k] == rows[p[k]];
    }
  }

  /** A non-empty list is its head followed by its tail. */
  lemma HeadAndTail(rows: seq<Row>)
    requires |rows| > 0
    ensures [rows[0]] + rows[1..] == rows
  {
  }

  /** De-duplicating twice changes nothing. */
  lemma DedupIdempotent(rows: seq<Row>)
    ensures DropDuplicatesKeepLast(DropDuplicatesKeepLast(rows)) == DropDuplicatesKeepLast(rows)
  {
    DedupOfUnique(DropDuplicatesKeepLast(rows));
  }

  /** Rows compare by their cells: two days with the same readings are
      duplicates, and the earlier day disappears from the file. */
  lemma SameCellsOnTwoDatesLoseOne()
    ensures var v: seq<Option<real>> := [Some(1.0)];
      DropDuplicatesKeepLast([(10, v), (11, v)]) == [(11, v)]
  {
    var v: seq<Option<real>> := [Some(1.0)];
    var rows: seq<Row> := [(10, v), (11, v)];
    assert HasCells(rows[1..], rows[0].1) by { assert rows[1..][0].1 == v; }
    assert rows[1..] == [(11, v)];
    assert !HasCells(rows[1..][1..], v) by { assert rows[1..][1..] == []; }
  }

  /** The date plays no part: a re-fetched day whose cells changed is kept
      twice, so the file then holds the same date twice. */
  lemma ChangedRowsOnOneDateBothKept()
    ensures var v: seq<Option<real>> := [Some(1.0)];
      var w: seq<Option<real>> := [Some(2.0)];
      DropDuplicatesKeepLast([(10, v), (10, w)]) == [(10, v), (10, w)]
  {
    var v: seq<Option<real>> := [Some(1.0)];
    var w: seq<Option<real>> := [Some(2.0)];
    var rows: seq<Row> := [(10, v), (10, w)];
    assert UniqueCells(rows);
    DedupOfUnique(rows);
  }
  /** Survivors keep the order of their last occurrences, not of their first:
      a day seen again moves behind the days between. */
  lemma SurvivorsInOrderOfLastOccurrence()
    ensures var y: Row := (2, [Some(1.0)]);
      var z: Row := (3, [Some(2.0)]);
      var z2: Row := (3, [Some(5.0)]);
      DropDuplicatesKeepLast([y, z, y, z2]) == [z, y, z2]
  {
    var y: Row := (2, [Some(1.0)]);
    var z: Row := (3, [Some(2.0)]);
    var z2: Row := (3, [Some(5.0)]);
    var rows := [y, z, y, z2];
    assert HasCells(rows[1..], y.1) by { assert rows[1..][1] == y; }
    var tail := rows[1..];
    assert tail == [z, y, z2];
    assert UniqueCells(tail) by {
      assert tail[1..] == [y, z2];
      assert tail[1..][1..] == [z2];
      assert tail[1..][1..][1..] == [];
      assert z.1 != y.1 && z.1 != z2.1 && y.1 != z2.1;
      assert UniqueCells([z2]);
      assert !HasCells([z2], y.1);
      assert UniqueCells([y, z2]);
      assert !HasCells([y, z2], z.1);
    }
    DedupOfUnique(tail);
  }
}
