/** The station registry `all_stations.geojson` as the station-registry
    update script uses it: a list of station records keyed by `code`, whose
    `endDate` the script overwrites after each successful update. */
module Registry {
  import opened Wrappers
  import opened Frames

  /** One registry record: the station code, the first and last dates of its
      data (NaN is `None`), and its other attributes (name, network,
      elevation, ...) kept as text. */
  datatype Station = Station(code: string, beginDate: Option<Date>, endDate: Option<Date>, attributes: map<string, string>)

  /** `all_stations_gdf.loc[all_stations_gdf.code == code, 'endDate'] = t`:
      every record with that code gets `endDate` t and keeps its other fields;
      every other record, and the order of the records, stay as they were. */
  function SetEndDate(registry: seq<Station>, code: string, t: Date): (r: seq<Station>)
    ensures |r| == |registry|
    ensures forall i :: 0 <= i < |registry| && registry[i].code == code ==>
      r[i] == registry[i].(endDate := Some(t))
    ensures forall i :: 0 <= i < |registry| && registry[i].code != code ==> r[i] == registry[i]
  {
    seq(|registry|, i requires 0 <= i < |registry| =>
      if registry[i].code == code then registry[i].(endDate := Some(t)) else registry[i])
  }

  /** A code with no record leaves the registry as it is: the mask selects
      nothing. */
  lemma SetEndDateNoMatch(registry: seq<Station>, code: string, t: Date)
    requires forall i :: 0 <= i < |registry| ==> registry[i].code != code
    ensures SetEndDate(registry, code, t) == registry
  {
  }

  /** Writing twice for the same station keeps only the second date. */
  lemma SetEndDateLastWins(registry: seq<Station>, code: string, t1: Date, t2: Date)
    ensures SetEndDate(SetEndDate(registry, code, t1), code, t2) == SetEndDate(registry, code, t2)
  {
    var a := SetEndDate(SetEndDate(registry, code, t1), code, t2);
    var b := SetEndDate(registry, code, t2);
    forall i | 0 <= i < |registry| ensures a[i] == b[i] {
      if registry[i].code == code {
        assert SetEndDate(registry, code, t1)[i].code == code;
      }
    }
  }

  /** Writes for two different stations do not interfere: their order does not
      matter. */
  lemma SetEndDateCommutes(registry: seq<Station>, c1: string, t1: Date, c2: string, t2: Date)
    requires c1 != c2
    ensures SetEndDate(SetEndDate(registry, c1, t1), c2, t2) == SetEndDate(SetEndDate(registry, c2, t2), c1, t1)
  {
    var a := SetEndDate(SetEndDate(registry, c1, t1), c2, t2);
    var b := SetEndDate(SetEndDate(registry, c2, t2), c1, t1);
    forall i | 0 <= i < |registry| ensures a[i] == b[i] {
      assert SetEndDate(registry, c1, t1)[i].code == registry[i].code;
      assert SetEndDate(registry, c2, t2)[i].code == registry[i].code;
    }
  }

  /** The write is unconditional: nothing keeps `endDate` from moving back to
      an earlier day than the one on record. */
  lemma EndDateCanMoveBack()
    ensures var st := Station("ABC", None, Some(100), map[]);
      SetEndDate([st], "ABC", 50)[0].endDate == Some(50)
  {
  }
}
