/**
 * The station directory (app.py lines 14-20) and the fixed allow-list of
 * station names (lines 22-26).
 */
module Stations {
  import opened Wrappers

  /** A key of a reference record: absent, present with value None, or present with a value. */
  datatype Field<T> = Missing | Null | Present(value: T)

  /**
   * One record of the reference table: whether it has the keys "id" and
   * "name" (and their values), and its "dangerlevel" key.
   */
  datatype RefRecord = RefRecord(id: Option<int>, name: Option<string>, dangerlevel: Field<real>)

  /** A value of the directory: the display name and the danger level. */
  datatype StationInfo = StationInfo(name: string, dangerLevel: Option<real>)

  /** The comprehension's filter: 'id' in station and 'name' in station. */
  predicate IsListed(row: RefRecord)
  {
    row.id.Some? && row.name.Some?
  }

  /**
   * The directory value of one record; station.get('dangerlevel') is None
   * both when the key is absent and when its value is None.
   */
  function InfoOf(row: RefRecord): (info: StationInfo)
    requires row.name.Some?
    ensures info.name == row.name.value
    ensures info.dangerLevel.None? <==> (row.dangerlevel.Missing? || row.dangerlevel.Null?)
    ensures info.dangerLevel.Some? ==> info.dangerLevel.value == row.dangerlevel.value
  {
    StationInfo(row.name.value, if row.dangerlevel.Present? then Some(row.dangerlevel.value) else None)
  }

  /** STATION_MAP: the dict comprehension over the reference records, in order. */
  function StationMap(rows: seq<RefRecord>): (m: map<int, StationInfo>)
    ensures forall id | id in m :: exists i | 0 <= i < |rows| ::
      IsListed(rows[i]) && rows[i].id.value == id && m[id] == InfoOf(rows[i])
  {
    if rows == [] then map[]
    else
      var row := rows[|rows| - 1];
      var earlier := StationMap(rows[..|rows| - 1]);
      if IsListed(row) then earlier[row.id.value := InfoOf(row)] else earlier
  }

  /** The directory holds exactly the ids of the records that have both an id and a name. */
  lemma {:induction false} StationMapDomain(rows: seq<RefRecord>, id: int)
    ensures id in StationMap(rows) <==>
      exists i | 0 <= i < |rows| :: IsListed(rows[i]) && rows[i].id.value == id
  {
    if rows != [] {
      var n := |rows| - 1;
      StationMapDomain(rows[..n], id);
      if exists i | 0 <= i < n :: IsListed(rows[..n][i]) && rows[..n][i].id.value == id {
        var i :| 0 <= i < n && IsListed(rows[..n][i]) && rows[..n][i].id.value == id;
        assert IsListed(rows[i]) && rows[i].id.value == id;
      }
      if exists i | 0 <= i < |rows| :: IsListed(rows[i]) && rows[i].id.value == id {
        var i :| 0 <= i < |rows| && IsListed(rows[i]) && rows[i].id.value == id;
        if i < n {
          assert IsListed(rows[..n][i]) && rows[..n][i].id.value == id;
        }
      }
    }
  }

  /**
   * When several listed records share an id, the directory holds the value
   * of the last of them.
   */
  lemma {:induction false} StationMapLastWins(rows: seq<RefRecord>, i: int)
    requires 0 <= i < |rows| && IsListed(rows[i])
    requires forall j | i < j < |rows| :: IsListed(rows[j]) ==> rows[j].id != rows[i].id
    ensures rows[i].id.value in StationMap(rows)
    ensures StationMap(rows)[rows[i].id.value] == InfoOf(rows[i])
  {
    var n := |rows| - 1;
    var init, last := rows[..n], rows[n];
    var earlier := StationMap(init);
    assert StationMap(rows) == if IsListed(last) then earlier[last.id.value := InfoOf(last)] else earlier;
    if i < n {
      assert init[i] == rows[i];
      assert forall j | i < j < n :: init[j] == rows[j];
      StationMapLastWins(init, i);
    }
  }

  /** ALLOWED_STATIONS: the basin of interest. */
  const AllowedStations: seq<string> := [
    "Jamalpur", "Durgapur", "Mymensingh", "B. Baria", "Habiganj", "Bhairabbazar",
    "Derai", "Khaliajuri", "Manu-RB", "Moulvibazar", "Narsingdi", "Sheola",
    "Sherpur-Sylhet", "Sunamganj", "Sylhet"
  ]

  predicate IsAllowed(name: string)
  {
    name in AllowedStations
  }

  /**
   * The allow-list holds fifteen names and is tested by exact equality:
   * "Sherpur-Sylhet" is allowed, while "Sherpur" and "sylhet" are not.
   */
  lemma AllowedStationsExact()
    ensures |AllowedStations| == 15
    ensures IsAllowed("Sylhet") && IsAllowed("Sherpur-Sylhet")
    ensures !IsAllowed("Sherpur") && !IsAllowed("sylhet")
  {
  }
}
