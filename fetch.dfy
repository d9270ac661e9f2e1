/**
 * The normalisation body of fetch_data (app.py lines 33-69): every entry of
 * the decoded payload whose key names a known, allowed station becomes that
 * station's sorted series of valid readings, written into all_data under
 * the station's name.
 */
module Fetch {
  import opened Wrappers
  import opened Json
  import opened Text
  import opened Dates
  import opened Stations
  import opened Readings
  import opened OrderedMap

  /** all_data[station_name]: {"data": station_data, "danger_level": danger_level} */
  datatype Series = Series(data: seq<Reading>, dangerLevel: Option<real>)

  /** The decoded JSON body: station-id keys, each with its date-to-value entries, in order. */
  type Payload = seq<(string, seq<(string, JVal)>)>

  /**
   * Lines 35-48: the directory entry a payload key selects, or None when
   * int() refuses the key, the id is not in the directory, or its name is
   * not on the allow-list.
   */
  function Resolve(key: string, stationMap: map<int, StationInfo>): (r: Option<StationInfo>)
    ensures ParseInt(key).None? ==> r.None?
    ensures ParseInt(key).Some? && ParseInt(key).value !in stationMap ==> r.None?
    ensures r.Some? ==> IsAllowed(r.value.name)
    ensures r.Some? ==> ParseInt(key).Some? && ParseInt(key).value in stationMap &&
                        r.value == stationMap[ParseInt(key).value]
    ensures (ParseInt(key).Some? && ParseInt(key).value in stationMap &&
             IsAllowed(stationMap[ParseInt(key).value].name)) ==> r.Some?
  {
    match ParseInt(key)
    case None => None
    case Some(id) =>
      if id in stationMap && IsAllowed(stationMap[id].name) then Some(stationMap[id]) else None
  }

  /**
   * Lines 50-67: the value written for a resolved station: its kept readings
   * in ascending date order, with the station's danger level.
   */
  function StationSeries(info: StationInfo, entries: seq<(string, JVal)>): (r: Series)
    ensures r.dangerLevel == info.dangerLevel
    ensures Sorted(r.data)
    ensures multiset(r.data) == multiset(Kept(entries))
  {
    SortByDateSorted(Kept(entries));
    SortByDatePermutes(Kept(entries));
    Series(SortByDate(Kept(entries)), info.dangerLevel)
  }

  /** all_data after the outer loop has gone through the whole payload. */
  function Normalized(payload: Payload, stationMap: map<int, StationInfo>): (r: seq<(string, Series)>)
    ensures |r| <= |payload|
  {
    if payload == [] then []
    else
      var (key, entries) := payload[|payload| - 1];
      var earlier := Normalized(payload[..|payload| - 1], stationMap);
      match Resolve(key, stationMap)
      case None => earlier
      case Some(info) =>
        PutKeys(earlier, info.name, StationSeries(info, entries));
        Put(earlier, info.name, StationSeries(info, entries))
  }

  /** One more payload entry: the outer loop's step. */
  lemma NormalizedSnoc(payload: Payload, key: string, entries: seq<(string, JVal)>, stationMap: map<int, StationInfo>)
    ensures Normalized(payload + [(key, entries)], stationMap) ==
      match Resolve(key, stationMap)
      case None => Normalized(payload, stationMap)
      case Some(info) => Put(Normalized(payload, stationMap), info.name, StationSeries(info, entries))
  {
    assert (payload + [(key, entries)])[..|payload|] == payload;
  }

  /** Lines 50-63 for one station: the inner loop, then the in-place sort. */
  method CollectReadings(dateDict: seq<(string, JVal)>) returns (stationData: seq<Reading>)
    ensures stationData == SortByDate(Kept(dateDict))
  {
    stationData := [];
    for m := 0 to |dateDict|
      invariant stationData == Kept(dateDict[..m])
    {
      assert dateDict[..m + 1][..m] == dateDict[..m];
      var (dateStr, wlValue) := dateDict[m];
      var isoDate := IsoDate(dateStr);
      if isoDate.Some? && IsNumber(wlValue) {
        stationData := stationData + [Reading(isoDate.value, wlValue)];
      }
    }
    assert dateDict[..|dateDict|] == dateDict;

    var buffer := new Reading[|stationData|](k requires 0 <= k < |stationData| => stationData[k]);
    assert buffer[..] == stationData;
    SortInPlace(buffer);
    stationData := buffer[..];
  }

  /** The loops of fetch_data over an already decoded payload. */
  method NormalizePayload(payload: Payload, stationMap: map<int, StationInfo>) returns (allData: seq<(string, Series)>)
    ensures allData == Normalized(payload, stationMap)
  {
    allData := [];
    for n := 0 to |payload|
      invariant allData == Normalized(payload[..n], stationMap)
    {
      var (idStr, dateDict) := payload[n];
      assert payload[..n + 1] == payload[..n] + [(idStr, dateDict)];
      var parsed := ParseInt(idStr);
      if parsed.None? {
        NormalizedSnocNone(payload[..n], idStr, dateDict, stationMap);
        continue;
      }
      var stationId := parsed.value;
      if stationId !in stationMap {
        NormalizedSnocNone(payload[..n], idStr, dateDict, stationMap);
        continue;
      }
      var info := stationMap[stationId];
      if info.name !in AllowedStations {
        NormalizedSnocNone(payload[..n], idStr, dateDict, stationMap);
        continue;
      }

      var stationData := CollectReadings(dateDict);
      NormalizedSnocSome(payload[..n], idStr, dateDict, stationMap, info);
      allData := Put(allData, info.name, Series(stationData, info.dangerLevel));
    }
    assert payload[..|payload|] == payload;
  }

  /** The loop step for a key that does not resolve: all_data stays as it is. */
  lemma NormalizedSnocNone(payload: Payload, key: string, entries: seq<(string, JVal)>, stationMap: map<int, StationInfo>)
    requires Resolve(key, stationMap).None?
    ensures Normalized(payload + [(key, entries)], stationMap) == Normalized(payload, stationMap)
  {
    NormalizedSnoc(payload, key, entries, stationMap);
  }

  /** The loop step for a key that resolves: its series is assigned under the station's name. */
  lemma NormalizedSnocSome(payload: Payload, key: string, entries: seq<(string, JVal)>,
                           stationMap: map<int, StationInfo>, info: StationInfo)
    requires Resolve(key, stationMap) == Some(info)
    ensures Normalized(payload + [(key, entries)], stationMap) ==
      Put(Normalized(payload, stationMap), info.name, StationSeries(info, entries))
  {
    NormalizedSnoc(payload, key, entries, stationMap);
  }

  /** The payload key resolves to a station of this name. */
  predicate ResolvesTo(key: string, stationMap: map<int, StationInfo>, name: string)
  {
    Resolve(key, stationMap).Some? && Resolve(key, stationMap).value.name == name
  }

  /** all_data after one more payload entry: its key set grows by the resolved name, if any. */
  lemma NormalizedSnocKeys(payload: Payload, key: string, entries: seq<(string, JVal)>, stationMap: map<int, StationInfo>)
    ensures DistinctKeys(Normalized(payload, stationMap)) ==> DistinctKeys(Normalized(payload + [(key, entries)], stationMap))
    ensures forall name :: name in Keys(Normalized(payload + [(key, entries)], stationMap)) <==>
      name in Keys(Normalized(payload, stationMap)) || ResolvesTo(key, stationMap, name)
  {
    NormalizedSnoc(payload, key, entries, stationMap);
    var r := Resolve(key, stationMap);
    if r.Some? {
      var earlier := Normalized(payload, stationMap);
      PutKeys(earlier, r.value.name, StationSeries(r.value, entries));
      if DistinctKeys(earlier) {
        PutDistinct(earlier, r.value.name, StationSeries(r.value, entries));
      }
    }
  }

  /** all_data never holds two entries for one station name. */
  lemma {:induction false} NormalizedDistinct(payload: Payload, stationMap: map<int, StationInfo>)
    ensures DistinctKeys(Normalized(payload, stationMap))
  {
    if payload != [] {
      var n := |payload| - 1;
      NormalizedDistinct(payload[..n], stationMap);
      NormalizedSnocKeys(payload[..n], payload[n].0, payload[n].1, stationMap);
      assert payload[..n] + [(payload[n].0, payload[n].1)] == payload;
    }
  }

  /** A name is a key of the result exactly when some payload key resolves to it. */
  lemma {:induction false} NormalizedKeys(payload: Payload, stationMap: map<int, StationInfo>, name: string)
    ensures name in Keys(Normalized(payload, stationMap)) <==>
      exists i | 0 <= i < |payload| :: ResolvesTo(payload[i].0, stationMap, name)
  {
    if payload != [] {
      var n := |payload| - 1;
      var init := payload[..n];
      NormalizedKeys(init, stationMap, name);
      NormalizedSnocKeys(init, payload[n].0, payload[n].1, stationMap);
      assert init + [(payload[n].0, payload[n].1)] == payload;
      if name in Keys(Normalized(init, stationMap)) {
        var i :| 0 <= i < n && ResolvesTo(init[i].0, stationMap, name);
        assert payload[i] == init[i];
      } else if !ResolvesTo(payload[n].0, stationMap, name) {
        forall i | 0 <= i < |payload| ensures !ResolvesTo(payload[i].0, stationMap, name) {
          if i < n {
            assert payload[i] == init[i];
          }
        }
      }
    }
  }

  /** Every station in the result is on the allow-list. */
  lemma NormalizedAllowed(payload: Payload, stationMap: map<int, StationInfo>, name: string)
    requires name in Keys(Normalized(payload, stationMap))
    ensures IsAllowed(name)
  {
    NormalizedKeys(payload, stationMap, name);
    var i :| 0 <= i < |payload| && ResolvesTo(payload[i].0, stationMap, name);
  }

  /**
   * The entry for a station name is the series built from the last payload
   * key that resolves to that name: a later key for the same station
   * ("1" after "01", say) overwrites the earlier one.
   */
  lemma {:induction false} NormalizedLastWins(payload: Payload, stationMap: map<int, StationInfo>, i: int)
    requires 0 <= i < |payload| && Resolve(payload[i].0, stationMap).Some?
    requires forall j | i < j < |payload| ::
      !ResolvesTo(payload[j].0, stationMap, Resolve(payload[i].0, stationMap).value.name)
    ensures var info := Resolve(payload[i].0, stationMap).value;
      Get(Normalized(payload, stationMap), info.name) == Some(StationSeries(info, payload[i].1))
  {
    var n := |payload| - 1;
    var init := payload[..n];
    var (key, entries) := payload[n];
    assert init + [(key, entries)] == payload;
    if i < n {
      var name := Resolve(payload[i].0, stationMap).value.name;
      assert init[i] == payload[i];
      assert forall j | i < j < n :: init[j] == payload[j];
      NormalizedLastWins(init, stationMap, i);
      NormalizedSnocOther(init, key, entries, stationMap, name);
    } else {
      NormalizedSnocSelf(init, key, entries, stationMap);
    }
  }

  /** A payload entry that resolves to another name leaves this name's entry as it was. */
  lemma NormalizedSnocOther(payload: Payload, key: string, entries: seq<(string, JVal)>,
                            stationMap: map<int, StationInfo>, name: string)
    requires !ResolvesTo(key, stationMap, name)
    ensures Get(Normalized(payload + [(key, entries)], stationMap), name) == Get(Normalized(payload, stationMap), name)
  {
    NormalizedSnoc(payload, key, entries, stationMap);
  }

  /** A payload entry that resolves writes its series under the station's name. */
  lemma NormalizedSnocSelf(payload: Payload, key: string, entries: seq<(string, JVal)>, stationMap: map<int, StationInfo>)
    requires Resolve(key, stationMap).Some?
    ensures var info := Resolve(key, stationMap).value;
      Get(Normalized(payload + [(key, entries)], stationMap), info.name) == Some(StationSeries(info, entries))
  {
    NormalizedSnoc(payload, key, entries, stationMap);
  }

  /** Every entry of the result is the series of some payload key that resolves to its name. */
  lemma {:induction false} NormalizedEntry(payload: Payload, stationMap: map<int, StationInfo>, name: string)
    requires Get(Normalized(payload, stationMap), name).Some?
    ensures exists i | 0 <= i < |payload| :: (ResolvesTo(payload[i].0, stationMap, name) &&
      Get(Normalized(payload, stationMap), name).value == StationSeries(Resolve(payload[i].0, stationMap).value, payload[i].1))
  {
    var n := |payload| - 1;
    var init := payload[..n];
    NormalizedSnoc(init, payload[n].0, payload[n].1, stationMap);
    assert init + [(payload[n].0, payload[n].1)] == payload;
    if !ResolvesTo(payload[n].0, stationMap, name) {
      NormalizedEntry(init, stationMap, name);
      var i :| 0 <= i < n && ResolvesTo(init[i].0, stationMap, name) &&
        Get(Normalized(init, stationMap), name).value == StationSeries(Resolve(init[i].0, stationMap).value, init[i].1);
      assert payload[i] == init[i];
    }
  }

  /**
   * Every series in the result is sorted by date, is a stable permutation
   * of the valid readings of a payload key that resolves to its name, and
   * carries the directory's danger level for that station.
   */
  lemma NormalizedSeries(payload: Payload, stationMap: map<int, StationInfo>, name: string)
    requires Get(Normalized(payload, stationMap), name).Some?
    ensures var s := Get(Normalized(payload, stationMap), name).value;
      Sorted(s.data) &&
      exists i | 0 <= i < |payload| ::
        ResolvesTo(payload[i].0, stationMap, name) &&
        s.dangerLevel == Resolve(payload[i].0, stationMap).value.dangerLevel &&
        multiset(s.data) == multiset(Kept(payload[i].1)) &&
        (forall d :: WithDate(s.data, d) == WithDate(Kept(payload[i].1), d))
  {
    var s := Get(Normalized(payload, stationMap), name).value;
    NormalizedEntry(payload, stationMap, name);
    var i :| 0 <= i < |payload| && ResolvesTo(payload[i].0, stationMap, name) &&
      s == StationSeries(Resolve(payload[i].0, stationMap).value, payload[i].1);
    var kept := Kept(payload[i].1);
    SortByDateSorted(kept);
    SortByDatePermutes(kept);
    forall d ensures WithDate(s.data, d) == WithDate(kept, d) {
      SortByDateStable(kept, d);
    }
  }

  /**
   * A known, allowed station all of whose readings are rejected is still in
   * the result, with an empty series and its danger level.
   */
  lemma EmptyStationListed(payload: Payload, stationMap: map<int, StationInfo>, i: int)
    requires 0 <= i < |payload| && Resolve(payload[i].0, stationMap).Some?
    requires forall j | i < j < |payload| ::
      !ResolvesTo(payload[j].0, stationMap, Resolve(payload[i].0, stationMap).value.name)
    requires forall k | 0 <= k < |payload[i].1| :: KeepReading(payload[i].1[k]).None?
    ensures var info := Resolve(payload[i].0, stationMap).value;
      Get(Normalized(payload, stationMap), info.name) == Some(Series([], info.dangerLevel))
  {
    NormalizedLastWins(payload, stationMap, i);
    KeptNone(payload[i].1);
  }

  /**
   * A payload entry whose key int() refuses, whose id is not in the
   * directory, or whose station is not allowed changes nothing, wherever
   * it stands in the payload.
   */
  lemma {:induction false} UnresolvedKeyIgnored(before: Payload, key: string, entries: seq<(string, JVal)>,
                                                after: Payload, stationMap: map<int, StationInfo>)
    requires Resolve(key, stationMap).None?
    ensures Normalized(before + [(key, entries)] + after, stationMap) == Normalized(before + after, stationMap)
  {
    if after == [] {
      NormalizedSnoc(before, key, entries, stationMap);
      assert before + [(key, entries)] + after == before + [(key, entries)];
      assert before + after == before;
    } else {
      var n := |after| - 1;
      var (k, e) := after[n];
      UnresolvedKeyIgnored(before, key, entries, after[..n], stationMap);
      NormalizedSnoc(before + [(key, entries)] + after[..n], k, e, stationMap);
      NormalizedSnoc(before + after[..n], k, e, stationMap);
      assert before + [(key, entries)] + after == (before + [(key, entries)] + after[..n]) + [(k, e)];
      assert before + after == (before + after[..n]) + [(k, e)];
    }
  }
}
