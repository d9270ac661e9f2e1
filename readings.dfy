/**
 * One station's readings (app.py lines 50-63): the inner loop keeps the
 * entries whose key is a valid date and whose value is a number, and the
 * kept readings are then sorted by their ISO date string with list.sort,
 * which is stable.
 */
module Readings {
  import opened Wrappers
  import opened Json
  import opened Text
  import opened Dates
  import opened Sequences

  /** {"date": iso_date, "water_level": wl_value} */
  datatype Reading = Reading(date: string, waterLevel: JVal)

  /**
   * What one date-dict entry contributes: a reading when the date key
   * parses and the value is an int, float or bool, nothing otherwise.
   */
  function KeepReading(entry: (string, JVal)): (r: Option<Reading>)
    ensures r.Some? <==> ParseMdy(entry.0).Some? && IsNumber(entry.1)
    ensures r.Some? ==> r.value.waterLevel == entry.1
    ensures r.Some? ==> IsIsoShaped(r.value.date) && ParseIso(r.value.date) == ParseMdy(entry.0).value
  {
    var (key, value) := entry;
    var iso := IsoDate(key);
    if iso.Some? && IsNumber(value) then Some(Reading(iso.value, value)) else None
  }

  /** station_data after the inner loop: the kept readings, in entry order. */
  function Kept(entries: seq<(string, JVal)>): (r: seq<Reading>)
    ensures |r| <= |entries|
  {
    FilterMap(KeepReading, entries)
  }

  /** Each entry is judged on its own: keeping distributes over concatenation. */
  lemma KeptAppend(a: seq<(string, JVal)>, b: seq<(string, JVal)>)
    ensures Kept(a + b) == Kept(a) + Kept(b)
  {
    FilterMapAppend(KeepReading, a, b);
  }

  /** A rejected entry (bad date or non-numeric value) leaves the other readings untouched. */
  lemma RejectedEntryIgnored(a: seq<(string, JVal)>, key: string, value: JVal, b: seq<(string, JVal)>)
    requires ParseMdy(key).None? || !IsNumber(value)
    ensures Kept(a + [(key, value)] + b) == Kept(a + b)
  {
    var e := [(key, value)];
    assert KeepReading((key, value)).None?;
    FilterMapNone(KeepReading, e);
    FilterMapAppend(KeepReading, a + e, b);
    FilterMapAppend(KeepReading, a, e);
    FilterMapAppend(KeepReading, a, b);
  }

  /** A reading is kept exactly when some entry yields it. */
  lemma KeptMembers(entries: seq<(string, JVal)>, r: Reading)
    ensures r in Kept(entries) <==>
      exists i | 0 <= i < |entries| :: KeepReading(entries[i]) == Some(r)
  {
    FilterMapMembers(KeepReading, entries, r);
  }

  /** Ascending by date string: no later reading's date is smaller than an earlier one's. */
  predicate Sorted(s: seq<Reading>)
  {
    forall i, j | 0 <= i < j < |s| :: StrLe(s[i].date, s[j].date)
  }

  /** The readings of s dated d, in their order in s. */
  function WithDate(s: seq<Reading>, d: string): seq<Reading>
  {
    if s == [] then []
    else WithDate(s[..|s| - 1], d) + (if s[|s| - 1].date == d then [s[|s| - 1]] else [])
  }

  /**
   * Inserts x into a sorted list after every reading whose date is not
   * greater than x's: the step of a stable insertion sort.
   */
  function Insert(s: seq<Reading>, x: Reading): (r: seq<Reading>)
    ensures |r| == |s| + 1
  {
    if s == [] || !StrLt(x.date, s[|s| - 1].date) then s + [x]
    else Insert(s[..|s| - 1], x) + [s[|s| - 1]]
  }

  /** station_data.sort(key=lambda x: x["date"]), specified as a stable insertion sort. */
  function SortByDate(s: seq<Reading>): (r: seq<Reading>)
    ensures |r| == |s|
  {
    if s == [] then [] else Insert(SortByDate(s[..|s| - 1]), s[|s| - 1])
  }

  lemma {:induction false} InsertPermutes(s: seq<Reading>, x: Reading)
    ensures multiset(Insert(s, x)) == multiset(s) + multiset{x}
  {
    if s != [] && StrLt(x.date, s[|s| - 1].date) {
      var n := |s| - 1;
      InsertPermutes(s[..n], x);
      assert s == s[..n] + [s[n]];
    }
  }

  /** Appending a reading dated no earlier than every other keeps a list sorted. */
  lemma SortedSnoc(t: seq<Reading>, last: Reading)
    requires Sorted(t)
    requires forall k | 0 <= k < |t| :: StrLe(t[k].date, last.date)
    ensures Sorted(t + [last])
  {
    var u := t + [last];
    forall i, j | 0 <= i < j < |u| ensures StrLe(u[i].date, u[j].date) {
      if j == |t| {
        assert u[i] == t[i];
      } else {
        assert u[i] == t[i] && u[j] == t[j];
      }
    }
  }

  lemma {:induction false} InsertSorted(s: seq<Reading>, x: Reading)
    requires Sorted(s)
    ensures Sorted(Insert(s, x))
  {
    if s == [] {
    } else if !StrLt(x.date, s[|s| - 1].date) {
      var last := s[|s| - 1];
      forall k | 0 <= k < |s| ensures StrLe(s[k].date, x.date) {
        if k < |s| - 1 {
          StrLeTransitive(s[k].date, last.date, x.date);
        }
      }
      SortedSnoc(s, x);
    } else {
      var n := |s| - 1;
      var init, last := s[..n], s[n];
      var t := Insert(init, x);
      assert Insert(s, x) == t + [last];
      assert Sorted(init) by {
        assert forall i | 0 <= i < n :: init[i] == s[i];
      }
      InsertSorted(init, x);
      StrLtAsymmetric(x.date, last.date);
      assert forall k | 0 <= k < n :: StrLe(init[k].date, last.date) by {
        assert forall k | 0 <= k < n :: init[k] == s[k];
      }
      InsertBounded(init, x, last.date);
      SortedSnoc(t, last);
    }
  }

  /** Insert brings in no reading dated later than a bound all its inputs keep to. */
  lemma {:induction false} InsertBounded(s: seq<Reading>, x: Reading, bound: string)
    requires forall k | 0 <= k < |s| :: StrLe(s[k].date, bound)
    requires StrLe(x.date, bound)
    ensures forall k | 0 <= k < |Insert(s, x)| :: StrLe(Insert(s, x)[k].date, bound)
  {
    if s != [] && StrLt(x.date, s[|s| - 1].date) {
      var n := |s| - 1;
      var init, last := s[..n], s[n];
      assert forall k | 0 <= k < n :: init[k] == s[k];
      InsertBounded(init, x, bound);
      assert Insert(s, x) == Insert(init, x) + [last];
    }
  }

  lemma {:induction false} InsertStable(s: seq<Reading>, x: Reading, d: string)
    ensures WithDate(Insert(s, x), d) == WithDate(s, d) + WithDate([x], d)
  {
    assert [x][..0] == [];
    if s == [] || !StrLt(x.date, s[|s| - 1].date) {
      assert (s + [x])[..|s|] == s;
    } else {
      var n := |s| - 1;
      var last := s[n];
      var t := Insert(s[..n], x);
      InsertStable(s[..n], x, d);
      assert (t + [last])[..|t|] == t;
      if x.date == d && last.date == d {
        StrLtIrreflexive(d);
      }
    }
  }

  /** The sort puts the readings in ascending date order. */
  lemma {:induction false} SortByDateSorted(s: seq<Reading>)
    ensures Sorted(SortByDate(s))
  {
    if s != [] {
      SortByDateSorted(s[..|s| - 1]);
      InsertSorted(SortByDate(s[..|s| - 1]), s[|s| - 1]);
    }
  }

  /** The sort neither drops nor duplicates a reading. */
  lemma {:induction false} SortByDatePermutes(s: seq<Reading>)
    ensures multiset(SortByDate(s)) == multiset(s)
  {
    if s != [] {
      var n := |s| - 1;
      var init := s[..n];
      SortByDatePermutes(init);
      InsertPermutes(SortByDate(init), s[n]);
      assert SortByDate(s) == Insert(SortByDate(init), s[n]);
      assert multiset(s) == multiset(init) + multiset{s[n]} by {
        assert s == init + [s[n]];
      }
    }
  }

  /** The sort is stable: the readings of any one date keep their input order. */
  lemma {:induction false} SortByDateStable(s: seq<Reading>, d: string)
    ensures WithDate(SortByDate(s), d) == WithDate(s, d)
  {
    if s != [] {
      var n := |s| - 1;
      SortByDateStable(s[..n], d);
      InsertStable(SortByDate(s[..n]), s[n], d);
      assert [s[n]][..0] == [];
    }
  }

  /** Every kept reading carries the isoformat() of a valid date. */
  lemma KeptDate(entries: seq<(string, JVal)>, r: Reading) returns (dt: Date)
    requires r in Kept(entries)
    ensures IsValid(dt) && r.date == IsoFormat(dt)
  {
    KeptMembers(entries, r);
    var k :| 0 <= k < |entries| && KeepReading(entries[k]) == Some(r);
    dt := ParseMdy(entries[k].0).value;
  }

  /**
   * After the sort, the dates read from the "date" strings are in
   * chronological order: comparing ISO strings orders the dates themselves.
   */
  lemma SortedChronologically(entries: seq<(string, JVal)>, i: int, j: int)
    requires 0 <= i < j < |SortByDate(Kept(entries))|
    ensures var s := SortByDate(Kept(entries));
      IsIsoShaped(s[i].date) && IsIsoShaped(s[j].date) &&
      !Precedes(ParseIso(s[j].date), ParseIso(s[i].date))
  {
    var kept := Kept(entries);
    var s := SortByDate(kept);
    SortByDateSorted(kept);
    SortByDatePermutes(kept);
    assert s[i] in multiset(kept) && s[j] in multiset(kept);
    var da := KeptDate(entries, s[i]);
    var db := KeptDate(entries, s[j]);
    assert StrLe(s[i].date, s[j].date);
    IsoOrderIsChronological(db, da);
    IsoRoundTrip(da);
    IsoRoundTrip(db);
  }

  /** A station whose entries are all rejected ends up with no readings. */
  lemma KeptNone(entries: seq<(string, JVal)>)
    requires forall i | 0 <= i < |entries| :: KeepReading(entries[i]).None?
    ensures Kept(entries) == []
  {
    FilterMapNone(KeepReading, entries);
  }

  /**
   * Where the inner loop of an insertion sort stops: every reading from j
   * on is later than x, and the one before j (if any) is not.
   */
  lemma {:induction false} InsertAt(s: seq<Reading>, x: Reading, j: nat)
    requires j <= |s|
    requires j == 0 || !StrLt(x.date, s[j - 1].date)
    requires forall k | j <= k < |s| :: StrLt(x.date, s[k].date)
    ensures Insert(s, x) == s[..j] + [x] + s[j..]
  {
    if j == |s| {
      assert s[..j] == s;
    } else {
      var n := |s| - 1;
      InsertAt(s[..n], x, j);
      assert s[..n][..j] == s[..j];
      assert s[..n][j..] + [s[n]] == s[j..];
    }
  }

  /**
   * One pass of the insertion sort: moves a[i] left past every reading of
   * a[..i] whose date is greater.
   */
  method InsertLast(a: array<Reading>, i: int)
    requires 0 <= i < a.Length
    modifies a
    ensures a[..] == Insert(old(a[..i]), old(a[i])) + old(a[i + 1..])
  {
    ghost var sorted := a[..i];
    ghost var rest := a[i + 1..];
    var x := a[i];
    var j := i;
    while j > 0 && StrLt(x.date, a[j - 1].date)
      invariant 0 <= j <= i
      invariant forall k | 0 <= k < j :: a[k] == sorted[k]
      invariant forall k | j < k <= i :: a[k] == sorted[k - 1]
      invariant forall k | i < k < a.Length :: a[k] == rest[k - i - 1]
      invariant forall k | j <= k < i :: StrLt(x.date, sorted[k].date)
    {
      a[j] := a[j - 1];
      j := j - 1;
    }
    a[j] := x;
    ShiftedIsInsert(sorted, x, j, rest, a[..]);
  }

  /** The array a pass of InsertLast leaves behind, as a sequence, is Insert's result followed by the untouched rest. */
  lemma ShiftedIsInsert(sorted: seq<Reading>, x: Reading, j: nat, rest: seq<Reading>, b: seq<Reading>)
    requires j <= |sorted| && |b| == |sorted| + 1 + |rest|
    requires j == 0 || !StrLt(x.date, sorted[j - 1].date)
    requires forall k | j <= k < |sorted| :: StrLt(x.date, sorted[k].date)
    requires forall k | 0 <= k < j :: b[k] == sorted[k]
    requires b[j] == x
    requires forall k | j < k <= |sorted| :: b[k] == sorted[k - 1]
    requires forall k | |sorted| < k < |b| :: b[k] == rest[k - |sorted| - 1]
    ensures b == Insert(sorted, x) + rest
  {
    InsertAt(sorted, x, j);
    var expected := sorted[..j] + [x] + sorted[j..] + rest;
    assert forall k | 0 <= k < |b| :: b[k] == expected[k];
  }

  /** station_data.sort(key=lambda x: x["date"]), in place. */
  method SortInPlace(a: array<Reading>)
    modifies a
    ensures a[..] == SortByDate(old(a[..]))
  {
    ghost var input := a[..];
    var i := 0;
    while i < a.Length
      invariant 0 <= i <= a.Length
      invariant a[..] == SortByDate(input[..i]) + input[i..]
    {
      ghost var before := a[..];
      InsertLast(a, i);
      SortStep(input, i, before, a[..]);
      i := i + 1;
    }
    assert input[..a.Length] == input;
  }

  /** One pass of SortInPlace extends the sorted prefix by one reading of the input. */
  lemma SortStep(input: seq<Reading>, i: nat, before: seq<Reading>, after: seq<Reading>)
    requires i < |input|
    requires before == SortByDate(input[..i]) + input[i..]
    requires after == Insert(before[..i], before[i]) + before[i + 1..]
    ensures after == SortByDate(input[..i + 1]) + input[i + 1..]
  {
    var sorted := SortByDate(input[..i]);
    assert before[..i] == sorted;
    assert before[i] == input[i];
    assert before[i + 1..] == input[i + 1..];
    assert input[..i + 1][..i] == input[..i];
  }
}
