/**
 * The date step of the normaliser (app.py lines 53-54): a key "MM-DD-YYYY"
 * is split on '-', each piece goes through int(), the three numbers go to
 * datetime(yyyy, mm, dd), and the date is written back with isoformat() as
 * the ISO 8601 extended calendar date "YYYY-MM-DD".
 */
module Dates {
  import opened Wrappers
  import opened Text

  datatype Date = Date(year: int, month: int, day: int)

  /** datetime.MINYEAR and datetime.MAXYEAR. */
  const MinYear: int := 1
  const MaxYear: int := 9999

  /** The proleptic Gregorian leap-year rule. */
  predicate IsLeapYear(y: int)
  {
    y % 4 == 0 && (y % 100 != 0 || y % 400 == 0)
  }

  function DaysInMonth(y: int, m: int): (n: int)
    requires 1 <= m <= 12
    ensures 28 <= n <= 31
  {
    if m == 2 then (if IsLeapYear(y) then 29 else 28)
    else if m == 4 || m == 6 || m == 9 || m == 11 then 30
    else 31
  }

  /** The arguments datetime(year, month, day) accepts without ValueError. */
  predicate IsValid(dt: Date)
  {
    MinYear <= dt.year <= MaxYear && 1 <= dt.month <= 12 && 1 <= dt.day <= DaysInMonth(dt.year, dt.month)
  }

  /**
   * mm, dd, yyyy = map(int, key.split("-")) followed by
   * datetime(yyyy, mm, dd); None stands for any exception the two raise
   * (wrong number of pieces, a piece int() refuses, an impossible date).
   */
  function ParseMdy(key: string): (r: Option<Date>)
    ensures r.Some? ==> IsValid(r.value)
    ensures |Split(key, '-')| != 3 ==> r.None?
  {
    var parts := Split(key, '-');
    if |parts| != 3 then None
    else
      match (ParseInt(parts[0]), ParseInt(parts[1]), ParseInt(parts[2]))
      case (Some(mm), Some(dd), Some(yyyy)) =>
        if IsValid(Date(yyyy, mm, dd)) then Some(Date(yyyy, mm, dd)) else None
      case _ => None
  }

  /** date.isoformat(): "%04d-%02d-%02d". */
  function IsoFormat(dt: Date): (s: string)
    requires IsValid(dt)
    ensures |s| == 10
  {
    Pad(dt.year, 4) + "-" + Pad(dt.month, 2) + "-" + Pad(dt.day, 2)
  }

  /** The upstream key "MM-DD-YYYY" for a date whose fields fit their widths. */
  function MdyKey(dt: Date): (s: string)
    requires 0 <= dt.month < 100 && 0 <= dt.day < 100 && 0 <= dt.year < 10000
    ensures |s| == 10
  {
    Pad(dt.month, 2) + "-" + Pad(dt.day, 2) + "-" + Pad(dt.year, 4)
  }

  /** The shape of an ISO 8601 extended calendar date with a four-digit year. */
  predicate IsIsoShaped(s: string)
  {
    |s| == 10 && s[4] == '-' && s[7] == '-' &&
    AllDigits(s[..4]) && AllDigits(s[5..7]) && AllDigits(s[8..])
  }

  /** Reads the date back out of "YYYY-MM-DD". */
  function ParseIso(s: string): Date
    requires IsIsoShaped(s)
  {
    Date(DigitsValue(s[..4]), DigitsValue(s[5..7]), DigitsValue(s[8..]))
  }

  /** Lines 53-54: the ISO string of the key's date, or None when that line raises. */
  function IsoDate(key: string): (r: Option<string>)
    ensures r.Some? <==> ParseMdy(key).Some?
    ensures r.Some? ==> IsIsoShaped(r.value) && ParseIso(r.value) == ParseMdy(key).value
  {
    match ParseMdy(key)
    case None => None
    case Some(dt) =>
      IsoRoundTrip(dt);
      Some(IsoFormat(dt))
  }

  /** isoformat() is zero-padded "YYYY-MM-DD" and loses nothing of the date. */
  lemma IsoRoundTrip(dt: Date)
    requires IsValid(dt)
    ensures IsIsoShaped(IsoFormat(dt)) && ParseIso(IsoFormat(dt)) == dt
  {
    var s := IsoFormat(dt);
    assert s[..4] == Pad(dt.year, 4);
    assert s[5..7] == Pad(dt.month, 2);
    assert s[8..] == Pad(dt.day, 2);
    PadValue(dt.year, 4);
    PadValue(dt.month, 2);
    PadValue(dt.day, 2);
  }

  /**
   * The parse of lines 53-54 accepts the key of a date exactly when
   * datetime() accepts the date, and then yields that date: so "07-15-2024"
   * is read as 15 July 2024 and "13-40-2024" is rejected.
   */
  lemma ParseMdyOfKey(dt: Date)
    requires 0 <= dt.month < 100 && 0 <= dt.day < 100 && 0 <= dt.year < 10000
    ensures ParseMdy(MdyKey(dt)) == if IsValid(dt) then Some(dt) else None
  {
    var parts := [Pad(dt.month, 2), Pad(dt.day, 2), Pad(dt.year, 4)];
    forall i | 0 <= i < 3 ensures '-' !in parts[i] {
      assert forall k | 0 <= k < |parts[i]| :: parts[i][k] != '-';
    }
    assert parts[..2][..1] == [parts[0]];
    assert Join(parts[..2], '-') == parts[0] + "-" + parts[1];
    assert Join(parts, '-') == Join(parts[..2], '-') + "-" + parts[2];
    assert Join(parts, '-') == MdyKey(dt);
    SplitJoin(parts, '-');
    ParseIntPad(dt.month, 2);
    ParseIntPad(dt.day, 2);
    ParseIntPad(dt.year, 4);
  }

  /**
   * datetime() accepts 29 February exactly in the leap years of its range,
   * and no day past the end of a month or outside years 1 to 9999.
   */
  lemma CalendarBounds(y: int, m: int, d: int)
    ensures IsValid(Date(y, 2, 29)) <==> MinYear <= y <= MaxYear && IsLeapYear(y)
    ensures 1 <= m <= 12 && d > DaysInMonth(y, m) ==> !IsValid(Date(y, m, d))
    ensures IsValid(Date(y, m, d)) ==> 1 <= y <= 9999 && 1 <= m <= 12 && 1 <= d <= 31
  {
  }

  /**
   * Any key of three pieces without '-' is read piece by piece with int():
   * "7-4-2024" and "+07-04-2024" both give 4 July 2024, and a piece int()
   * refuses rejects the key.
   */
  lemma ParseMdyOfPieces(a: string, b: string, c: string)
    requires '-' !in a && '-' !in b && '-' !in c
    ensures ParseMdy(a + "-" + b + "-" + c) ==
      match (ParseInt(a), ParseInt(b), ParseInt(c))
      case (Some(m), Some(d), Some(y)) => if IsValid(Date(y, m, d)) then Some(Date(y, m, d)) else None
      case _ => None
  {
    var parts := [a, b, c];
    assert parts[..2][..1] == [a];
    assert Join(parts[..2], '-') == a + "-" + b;
    assert Join(parts, '-') == a + "-" + b + "-" + c;
    SplitJoin(parts, '-');
  }

  /** Lexicographic order of dates: year, then month, then day. */
  predicate Precedes(a: Date, b: Date)
  {
    a.year < b.year || (a.year == b.year && (a.month < b.month || (a.month == b.month && a.day < b.day)))
  }

  /**
   * Comparing two isoformat() strings as Python strs orders the dates
   * chronologically, so sorting readings by their "date" string sorts them
   * by date.
   */
  lemma IsoOrderIsChronological(a: Date, b: Date)
    requires IsValid(a) && IsValid(b)
    ensures StrLt(IsoFormat(a), IsoFormat(b)) <==> Precedes(a, b)
  {
    var ya, ma, da := Pad(a.year, 4), Pad(a.month, 2), Pad(a.day, 2);
    var yb, mb, db := Pad(b.year, 4), Pad(b.month, 2), Pad(b.day, 2);
    IsoOrderByFields(ya, ma, da, yb, mb, db);
    PadLt(a.year, b.year, 4);
    PadLt(a.month, b.month, 2);
    PadLt(a.day, b.day, 2);
    PadInjective(a.year, b.year, 4);
    PadInjective(a.month, b.month, 2);
  }

  /** Two "Y-M-D" strings with fields of equal widths compare field by field. */
  lemma IsoOrderByFields(ya: string, ma: string, da: string, yb: string, mb: string, db: string)
    requires |ya| == |yb| && |ma| == |mb|
    ensures StrLt(ya + "-" + ma + "-" + da, yb + "-" + mb + "-" + db) <==>
      StrLt(ya, yb) || (ya == yb && (StrLt(ma, mb) || (ma == mb && StrLt(da, db))))
  {
    assert ya + "-" + ma + "-" + da == ya + ("-" + (ma + ("-" + da)));
    assert yb + "-" + mb + "-" + db == yb + ("-" + (mb + ("-" + db)));
    StrLtIrreflexive("-");
    StrLtConcat(ya, "-" + (ma + ("-" + da)), yb, "-" + (mb + ("-" + db)));
    StrLtConcat("-", ma + ("-" + da), "-", mb + ("-" + db));
    StrLtConcat(ma, "-" + da, mb, "-" + db);
    StrLtConcat("-", da, "-", db);
  }
}
