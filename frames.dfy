/** The slice of pandas that the station code relies on: a series (an index of
    dates with one value per date) and a frame (named columns over an index of
    dates). Dates are day numbers. A frame stores its cells sparsely: a cell that
    is not stored is NaN. */
module Frames {
  import opened Wrappers

  type Date = int

  /** A column label: a CDEC sensor number, as `unstack` produces them, or a
      variable name such as `TAVG`. */
  datatype Col = Sensor(num: int) | Named(name: string)

  /** A pandas Series indexed by date. */
  datatype Series<T> = Series(index: seq<Date>, values: map<Date, T>)

  /** One value per date: the map's keys are exactly the dates of the index. */
  predicate SeriesValid<T>(s: Series<T>)
  {
    && (forall d :: d in s.values ==> d in s.index)
    && (forall i :: 0 <= i < |s.index| ==> s.index[i] in s.values)
  }

  type ValidSeries<T> = s: Series<T> | SeriesValid(s) witness Series([], map[])

  /** A DataFrame: ordered column labels, an ordered date index and, per
      column, the cells that hold a value. */
  datatype Frame<V> = Frame(columns: seq<Col>, index: seq<Date>, data: map<Col, map<Date, V>>)

  predicate Distinct<T(==)>(s: seq<T>)
  {
    forall i, j :: 0 <= i < j < |s| ==> s[i] != s[j]
  }

  predicate Increasing(s: seq<int>)
  {
    forall i, j :: 0 <= i < j < |s| ==> s[i] < s[j]
  }

  /** Columns are distinct and each has its cells, all of them on index dates. */
  ghost predicate WellFormed<V>(f: Frame<V>)
  {
    && Distinct(f.columns)
    && (forall c :: c in f.data <==> c in f.columns)
    && (forall c, d :: c in f.data && d in f.data[c] ==> d in f.index)
  }

  /** The cell at column `c` and date `d`; `None` is NaN. */
  function Cell<V>(f: Frame<V>, c: Col, d: Date): Option<V>
  {
    if c in f.data && d in f.data[c] then Some(f.data[c][d]) else None
  }

  /** The present values of a series of possibly-absent values. */
  function Present<V>(m: map<Date, Option<V>>): (p: map<Date, V>)
    ensures forall d :: d in p <==> d in m && m[d].Some?
    ensures forall d :: d in p ==> p[d] == m[d].value
  {
    map d | d in m && m[d].Some? :: m[d].value
  }

  /** Applies `g` to every value of a series (`tmp /= 39.3701`). */
  function MapSeries<V>(s: Series<Option<V>>, g: V -> V): (r: Series<Option<V>>)
    ensures r.index == s.index && r.values.Keys == s.values.Keys
    ensures forall d :: d in r.values ==> r.values[d] == MapOption(s.values[d], g)
  {
    Series(s.index, map d | d in s.values :: MapOption(s.values[d], g))
  }

  /** `series.to_frame()` under the label `c`. */
  function SingleColumn<V>(c: Col, s: ValidSeries<Option<V>>): (f: Frame<V>)
    ensures WellFormed(f) && f.columns == [c] && f.index == s.index
    ensures forall d :: d in f.index ==> Cell(f, c, d) == s.values[d]
  {
    Frame([c], s.index, map[c := Present(s.values)])
  }

  /** `x` inserted into an increasing sequence, unless it is there already. */
  function InsertUnique(x: int, t: seq<int>): (r: seq<int>)
    ensures forall y :: y in r <==> y == x || y in t
  {
    if |t| == 0 then [x]
    else if x < t[0] then [x] + t
    else if x == t[0] then t
    else
      var rest := InsertUnique(x, t[1..]);
      assert forall y :: y in t <==> y == t[0] || y in t[1..];
      [t[0]] + rest
  }

  /** Insertion keeps a sequence increasing. */
  lemma {:induction false} InsertUniqueIncreasing(x: int, t: seq<int>)
    requires Increasing(t)
    ensures Increasing(InsertUnique(x, t))
    decreases |t|
  {
    if |t| > 0 && x > t[0] {
      IncreasingTail(t);
      InsertUniqueIncreasing(x, t[1..]);
      IncreasingCons(t[0], InsertUnique(x, t[1..]));
    }
  }

  /** The tail of an increasing sequence is increasing and above its head. */
  lemma IncreasingTail(t: seq<int>)
    requires Increasing(t) && |t| > 0
    ensures Increasing(t[1..])
    ensures forall y :: y in t[1..] ==> t[0] < y
  {
    forall y | y in t[1..] ensures t[0] < y {
      var k :| 0 <= k < |t[1..]| && t[1..][k] == y;
      assert t[k + 1] == y;
    }
  }

  /** A head below every element of an increasing sequence keeps it
      increasing. */
  lemma IncreasingCons(a: int, r: seq<int>)
    requires Increasing(r)
    requires forall y :: y in r ==> a < y
    ensures Increasing([a] + r)
  {
    var q := [a] + r;
    forall i, j | 0 <= i < j < |q| ensures q[i] < q[j] {
      assert q[j] == r[j - 1];
      if i == 0 {
        assert r[j - 1] in r;
      } else {
        assert q[i] == r[i - 1];
      }
    }
  }

  /** The distinct elements of `s` in increasing order, as pandas sorts an
      index. */
  function SortedSet(s: seq<int>): (r: seq<int>)
    ensures forall y :: y in r <==> y in s
  {
    if |s| == 0 then []
    else
      var n := |s| - 1;
      assert forall y :: y in s <==> y in s[..n] || y == s[n] by { assert s == s[..n] + [s[n]]; }
      InsertUnique(s[n], SortedSet(s[..n]))
  }

  /** `SortedSet` is increasing. */
  lemma {:induction false} SortedSetIncreasing(s: seq<int>)
    ensures Increasing(SortedSet(s))
    decreases |s|
  {
    if |s| > 0 {
      var n := |s| - 1;
      SortedSetIncreasing(s[..n]);
      InsertUniqueIncreasing(s[n], SortedSet(s[..n]));
    }
  }

  /** Sorting a sorted set changes nothing. */
  lemma SortedSetIdempotent(s: seq<int>)
    ensures SortedSet(SortedSet(s)) == SortedSet(s)
  {
    SortedSetIncreasing(s);
    SortedSetIncreasing(SortedSet(s));
    IncreasingUnique(SortedSet(SortedSet(s)), SortedSet(s));
  }

  /** The index of an outer join: the union of both indexes, sorted. */
  function SortedUnion(a: seq<int>, b: seq<int>): (r: seq<int>)
    ensures forall y :: y in r <==> y in a || y in b
  {
    SortedSet(a + b)
  }

  /** An increasing sequence is determined by its elements. */
  lemma {:induction false} IncreasingUnique(a: seq<int>, b: seq<int>)
    requires Increasing(a) && Increasing(b)
    requires forall y :: y in a <==> y in b
    ensures a == b
    decreases |a|
  {
    assert |a| == 0 <==> |b| == 0 by {
      if |a| > 0 { assert a[0] in b; }
      if |b| > 0 { assert b[0] in a; }
    }
    if |a| != 0 {
      assert a[0] in b && b[0] in a;
      var j :| 0 <= j < |b| && b[j] == a[0];
      var k :| 0 <= k < |a| && a[k] == b[0];
      assert b[0] <= a[0] && a[0] <= b[0];
      forall y ensures y in a[1..] <==> y in b[1..] {
        assert y in a[1..] <==> y in a && y != a[0];
        assert y in b[1..] <==> y in b && y != b[0];
      }
      IncreasingUnique(a[1..], b[1..]);
      assert a == [a[0]] + a[1..] && b == [b[0]] + b[1..];
    }
  }

  /** How pandas lines up two tables on their dates. */
  datatype JoinKind = Outer | Left

  /** `f.join(s.rename(c), how=kind)`: adds column `c` holding the values of
      `s`. An outer join's index is the sorted union of both indexes; a left
      join keeps `f`'s index, dropping the dates only `s` has. Existing
      columns keep every value they had. */
  function Join<V>(kind: JoinKind, f: Frame<V>, c: Col, s: ValidSeries<Option<V>>): (r: Frame<V>)
    requires WellFormed(f) && c !in f.columns
    ensures WellFormed(r) && r.columns == f.columns + [c]
    ensures kind == Outer ==> r.index == SortedUnion(f.index, s.index)
    ensures kind == Left ==> r.index == f.index
  {
    var index := if kind == Outer then SortedUnion(f.index, s.index) else f.index;
    var column := map d | d in s.values && d in index && s.values[d].Some? :: s.values[d].value;
    Frame(f.columns + [c], index, f.data[c := column])
  }

  /** The cells of a join: the existing columns keep every value they had, and
      the new column holds the series' value at each date of the joined index
      (NaN where the series has no value). */
  lemma JoinCells<V>(kind: JoinKind, f: Frame<V>, c: Col, s: ValidSeries<Option<V>>)
    requires WellFormed(f) && c !in f.columns
    ensures forall c', d :: c' in f.columns ==> Cell(Join(kind, f, c, s), c', d) == Cell(f, c', d)
    ensures forall d :: d in Join(kind, f, c, s).index ==>
      Cell(Join(kind, f, c, s), c, d) == if d in s.values then s.values[d] else None
  {
  }

  /** Applies `g` to every cell: elementwise arithmetic on the whole frame,
      under which NaN stays NaN. */
  function Convert<V>(f: Frame<V>, g: V -> V): (r: Frame<V>)
    requires WellFormed(f)
    ensures WellFormed(r) && r.columns == f.columns && r.index == f.index
  {
    var data := map c | c in f.data :: map d | d in f.data[c] :: g(f.data[c][d]);
    Frame(f.columns, f.index, data)
  }

  /** Each converted cell is `g` of the cell before, NaN staying NaN. */
  lemma ConvertCells<V>(f: Frame<V>, g: V -> V)
    requires WellFormed(f)
    ensures forall c, d :: Cell(Convert(f, g), c, d) == MapOption(Cell(f, c, d), g)
  {
  }

  /** `s` without the occurrences of `x`, order kept. */
  function Remove(s: seq<Col>, x: Col): (r: seq<Col>)
    ensures forall y :: y in r <==> y in s && y != x
    ensures x !in s ==> r == s
  {
    if |s| == 0 then []
    else
      var n := |s| - 1;
      assert forall y :: y in s <==> y in s[..n] || y == s[n] by { assert s == s[..n] + [s[n]]; }
      var r0 := Remove(s[..n], x);
      assert x !in s ==> s == s[..n] + [s[n]];
      if s[n] == x then r0 else r0 + [s[n]]
  }

  /** Removing keeps a sequence's elements distinct. */
  lemma {:induction false} RemoveDistinct(s: seq<Col>, x: Col)
    requires Distinct(s)
    ensures Distinct(Remove(s, x))
    decreases |s|
  {
    if |s| > 0 {
      var n := |s| - 1;
      assert Distinct(s[..n]);
      RemoveDistinct(s[..n], x);
      if s[n] != x {
        var r0 := Remove(s[..n], x);
        assert s[n] !in s[..n];
        DistinctSnoc(r0, s[n]);
      }
    }
  }

  /** A new last element keeps a sequence distinct. */
  lemma DistinctSnoc<T>(s: seq<T>, x: T)
    requires Distinct(s) && x !in s
    ensures Distinct(s + [x])
  {
    var q := s + [x];
    forall i, j | 0 <= i < j < |q| ensures q[i] != q[j] {
      assert q[i] == s[i];
      if j == |s| { assert s[i] in s; } else { assert q[j] == s[j]; }
    }
  }

  /** Removing from a concatenation removes from each part. */
  lemma {:induction false} RemoveAppend(a: seq<Col>, b: seq<Col>, x: Col)
    ensures Remove(a + b, x) == Remove(a, x) + Remove(b, x)
    decreases |b|
  {
    if |b| > 0 {
      var n := |b| - 1;
      assert (a + b)[..|a| + n] == a + b[..n];
      assert (a + b)[|a| + n] == b[n];
      RemoveAppend(a, b[..n], x);
    } else {
      assert a + b == a;
    }
  }

  /** `df[c] = column` for a new label `c`: the column goes last, holding the
      given cells; every other cell is kept. */
  function AddColumn<V>(f: Frame<V>, c: Col, column: map<Date, V>): (r: Frame<V>)
    requires WellFormed(f) && c !in f.columns
    requires forall d :: d in column ==> d in f.index
    ensures WellFormed(r) && r.columns == f.columns + [c] && r.index == f.index
    ensures forall d :: Cell(r, c, d) == if d in column then Some(column[d]) else None
    ensures forall c', d :: c' != c ==> Cell(r, c', d) == Cell(f, c', d)
  {
    assert forall c' :: c' in f.columns + [c] <==> c' in f.columns || c' == c;
    DistinctSnoc(f.columns, c);
    Frame(f.columns + [c], f.index, f.data[c := column])
  }

  /** `df.drop(c, axis=1)`: column `c` goes, every other cell is kept. */
  function DropColumn<V>(f: Frame<V>, c: Col): (r: Frame<V>)
    requires WellFormed(f)
    ensures WellFormed(r) && r.columns == Remove(f.columns, c) && r.index == f.index
    ensures forall d :: Cell(r, c, d) == None
    ensures forall c', d :: c' != c ==> Cell(r, c', d) == Cell(f, c', d)
  {
    RemoveDistinct(f.columns, c);
    Frame(Remove(f.columns, c), f.index, map c' | c' in f.data && c' != c :: f.data[c'])
  }

  /** The cells of column `c` with `g` applied, NaN staying NaN. */
  function ConvertedColumn<V>(f: Frame<V>, c: Col, g: V -> V): (column: map<Date, V>)
    requires WellFormed(f)
    ensures forall d :: d in column ==> d in f.index
    ensures forall d :: (if d in column then Some(column[d]) else None) == MapOption(Cell(f, c, d), g)
  {
    if c in f.data then map d | d in f.data[c] :: g(f.data[c][d]) else map[]
  }

  /** The frame as the rows it writes to a CSV file: each index date with its
      cells in column order. */
  function Rows<V>(f: Frame<V>): (rows: seq<(Date, seq<Option<V>>)>)
    ensures |rows| == |f.index|
    ensures forall i :: 0 <= i < |rows| ==> rows[i].0 == f.index[i] && |rows[i].1| == |f.columns|
    ensures forall i, j :: 0 <= i < |rows| && 0 <= j < |f.columns| ==> rows[i].1[j] == Cell(f, f.columns[j], f.index[i])
  {
    seq(|f.index|, i requires 0 <= i < |f.index| =>
      (f.index[i], seq(|f.columns|, j requires 0 <= j < |f.columns| => Cell(f, f.columns[j], f.index[i]))))
  }
}
