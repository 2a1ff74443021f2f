/**
 * `dec_hour_to_hms` and the date-time `start_stop_df_m` builds from it with
 * `strptime(year_day_hours_minutes_seconds, '%Y_%j_%H_%M_%S')`.
 * Floating-point values are modelled as reals.
 */
module Hms {
  import opened Options
  import opened Text

  /** Python's `int(x)` on a float: truncation toward zero. */
  function Trunc(x: real): (i: int)
    ensures 0.0 <= x ==> i == x.Floor
    ensures x < 0.0 ==> i as real - 1.0 < x <= i as real
  {
    if x >= 0.0 then x.Floor else -((-x).Floor)
  }

  /** Python's `x % 1` on a float: what is left above the floor, in [0, 1). */
  function FracPart(x: real): (f: real)
    ensures 0.0 <= f < 1.0
    ensures x - f == x.Floor as real
  {
    x - x.Floor as real
  }

  /** The hours, minutes and seconds `dec_hour_to_hms` computes before formatting them. */
  function HmsFields(decHour: real): (hms: (int, int, int))
    ensures 0 <= hms.1 < 60
    ensures hms.2 == 0
  {
    var hours := Trunc(decHour);
    var minutes := Trunc(60.0 * FracPart(decHour));
    var seconds := Trunc(60.0 * FracPart(minutes as real));
    assert FracPart(minutes as real) == 0.0;
    (hours, minutes, seconds)
  }

  /** `str(n).zfill(2)`. */
  function Pad2(n: int): string
  {
    ZFill(IntToString(n), 2)
  }

  /**
   * `dec_hour_to_hms(dec_hour)`: hours, minutes and seconds as strings zero-filled
   * to two characters. `minutes` is already whole when its fractional part is
   * taken, so the seconds field is always "00".
   */
  function DecHourToHms(decHour: real): (r: (string, string, string))
    ensures |r.0| >= 2 && |r.1| == 2
    ensures r.2 == "00"
  {
    var (h, m, s) := HmsFields(decHour);
    NatToStringLength(m);
    assert IntToString(0) == "0";
    (Pad2(h), Pad2(m), Pad2(s))
  }

  lemma FloorShift(n: int, x: real)
    ensures (n as real + x).Floor == n + x.Floor
  {
  }

  /**
   * For a non-negative decimal hour the fields are that time truncated to the
   * whole minute: hours * 60 + minutes is the floor of the time in minutes.
   */
  lemma HmsIsWholeMinutes(decHour: real)
    requires decHour >= 0.0
    ensures HmsFields(decHour).0 * 60 + HmsFields(decHour).1 == (decHour * 60.0).Floor
  {
    var h := decHour.Floor;
    var f := FracPart(decHour);
    assert decHour == h as real + f;
    assert decHour * 60.0 == (60 * h) as real + 60.0 * f;
    FloorShift(60 * h, 60.0 * f);
  }

  /** Later decimal hours never give an earlier hour and minute. */
  lemma HmsMonotone(a: real, b: real)
    requires 0.0 <= a <= b
    ensures var (ha, ma, _) := HmsFields(a);
      var (hb, mb, _) := HmsFields(b);
      ha < hb || (ha == hb && ma <= mb)
  {
    HmsIsWholeMinutes(a);
    HmsIsWholeMinutes(b);
    assert (a * 60.0).Floor <= (b * 60.0).Floor;
  }

  /** Hours in 0..99 and minutes come out as two digits that read back as their values. */
  lemma DecHourFieldsReadBack(decHour: real)
    requires 0.0 <= decHour < 100.0
    ensures var (h, m, s) := DecHourToHms(decHour);
      |h| == 2 && ReadNumber(h) == Some(HmsFields(decHour).0)
      && ReadNumber(m) == Some(HmsFields(decHour).1) && ReadNumber(s) == Some(0)
  {
    var (hv, mv, sv) := HmsFields(decHour);
    NatToStringLength(hv);
    NatToStringLength(mv);
    ZFillNatRoundTrip(hv, 2);
    ZFillNatRoundTrip(mv, 2);
    ZFillNatRoundTrip(0, 2);
  }

  // ---------------------------------------------------------------- strptime

  /** A parsed `datetime`; start and stop share the year and the day of year. */
  datatype Stamp = Stamp(year: int, dayOfYear: int, hour: int, minute: int, second: int)

  /** Chronological order of two stamps. */
  predicate StampLe(a: Stamp, b: Stamp) {
    a.year < b.year
    || (a.year == b.year && a.dayOfYear < b.dayOfYear)
    || (a.year == b.year && a.dayOfYear == b.dayOfYear
        && (a.hour < b.hour || (a.hour == b.hour
            && (a.minute < b.minute || (a.minute == b.minute && a.second <= b.second)))))
  }

  /**
   * One numeric `strptime` directive: between `minDigits` and `maxDigits` ASCII
   * digits whose value lies in [lo, hi].
   */
  function Directive(f: string, minDigits: nat, maxDigits: nat, lo: int, hi: int): (r: Option<int>)
    ensures r.Some? ==> lo <= r.value <= hi && AllDigits(f) && minDigits <= |f| <= maxDigits
  {
    if minDigits <= |f| <= maxDigits && AllDigits(f) && lo <= DigitsValue(f) <= hi
    then Some(DigitsValue(f)) else None
  }

  /**
   * `datetime.strptime(year + '_' + day + '_' + hours + '_' + minutes + '_' + seconds,
   * '%Y_%j_%H_%M_%S')`, field by field: none of the fields holds an '_'. `None`
   * is the ValueError. `%Y` takes exactly four digits, `%j` a day 1..366, `%H`
   * 0..23, `%M` 0..59 and `%S` 0..59 (the pattern admits 60 and 61, which the
   * `datetime` constructor then refuses).
   */
  function Strptime(year: string, day: string, hours: string, minutes: string, seconds: string): (r: Option<Stamp>)
    ensures r.Some? ==>
      |year| == 4 && 1 <= r.value.year <= 9999 && 1 <= r.value.dayOfYear <= 366
      && 0 <= r.value.hour <= 23 && 0 <= r.value.minute <= 59 && 0 <= r.value.second <= 59
  {
    var y := Directive(year, 4, 4, 1, 9999);
    var j := Directive(day, 1, 3, 1, 366);
    var h := Directive(hours, 1, 2, 0, 23);
    var m := Directive(minutes, 1, 2, 0, 59);
    var s := Directive(seconds, 1, 2, 0, 59);
    if y.Some? && j.Some? && h.Some? && m.Some? && s.Some?
    then Some(Stamp(y.value, j.value, h.value, m.value, s.value))
    else None
  }

  /** The date-time `start_stop_df_m` builds for one decimal hour of a given year and day. */
  function StampAt(year: int, dayOfYear: int, decHour: real): (r: Option<Stamp>)
    ensures r.Some? ==>
      r.value.hour == Trunc(decHour) && r.value.minute == HmsFields(decHour).1 && r.value.second == 0
  {
    var (h, m, s) := DecHourToHms(decHour);
    HourFieldParses(HmsFields(decHour).0);
    NatToStringLength(HmsFields(decHour).1);
    ZFillNatRoundTrip(HmsFields(decHour).1, 2);
    ZFillNatRoundTrip(0, 2);
    Strptime(IntToString(year), ZFill(IntToString(dayOfYear), 3), h, m, s)
  }

  /** A valid year and day of year read back from their formatted fields. */
  lemma DateFieldsParse(year: int, dayOfYear: int)
    requires 1000 <= year <= 9999 && 1 <= dayOfYear <= 366
    ensures Directive(IntToString(year), 4, 4, 1, 9999) == Some(year)
    ensures Directive(ZFill(IntToString(dayOfYear), 3), 1, 3, 1, 366) == Some(dayOfYear)
  {
    NatToStringLength(year);
    NatToStringRoundTrip(year);
    NatToStringLength(dayOfYear);
    ZFillNatRoundTrip(dayOfYear, 3);
  }

  /** The `%H` field of `str(h).zfill(2)` parses exactly when 0 <= h <= 23. */
  lemma HourFieldParses(h: int)
    ensures Directive(Pad2(h), 1, 2, 0, 23) == if 0 <= h <= 23 then Some(h) else None
  {
    var f := Pad2(h);
    if h < 0 {
      assert f == IntToString(h);
      assert !IsDigit(f[0]);
    } else {
      NatToStringLength(h);
      ZFillNatRoundTrip(h, 2);
    }
  }

  /** Python's `int()` gives an hour in 0..23 exactly for decimal hours in (-1, 24). */
  lemma TruncHourRange(decHour: real)
    ensures 0 <= Trunc(decHour) <= 23 <==> -1.0 < decHour < 24.0
  {
  }

  /**
   * For a four-digit year and a day of year in 1..366, `strptime` succeeds
   * exactly for decimal hours in (-1, 24), and then gives the truncated hour,
   * the whole minutes and second 0.
   */
  lemma StampAtParses(year: int, dayOfYear: int, decHour: real)
    requires 1000 <= year <= 9999 && 1 <= dayOfYear <= 366
    ensures StampAt(year, dayOfYear, decHour).Some? <==> -1.0 < decHour < 24.0
    ensures StampAt(year, dayOfYear, decHour).Some? ==>
      StampAt(year, dayOfYear, decHour).value
      == Stamp(year, dayOfYear, Trunc(decHour), HmsFields(decHour).1, 0)
  {
    var (hv, mv, sv) := HmsFields(decHour);
    DateFieldsParse(year, dayOfYear);
    HourFieldParses(hv);
    NatToStringLength(mv);
    ZFillNatRoundTrip(mv, 2);
    ZFillNatRoundTrip(0, 2);
    TruncHourRange(decHour);
  }

  /**
   * For a valid year and day, decimal hours in [0, 24) all parse, and a later
   * hour never gives an earlier stamp.
   */
  lemma StampAtMonotone(year: int, dayOfYear: int, a: real, b: real)
    requires 1000 <= year <= 9999 && 1 <= dayOfYear <= 366
    requires 0.0 <= a <= b < 24.0
    ensures StampAt(year, dayOfYear, a).Some? && StampAt(year, dayOfYear, b).Some?
    ensures StampLe(StampAt(year, dayOfYear, a).value, StampAt(year, dayOfYear, b).value)
  {
    StampAtParses(year, dayOfYear, a);
    StampAtParses(year, dayOfYear, b);
    HmsMonotone(a, b);
  }

  /**
   * Negative decimal hours break that order: -0.5 reads as 00:30 (the fractional
   * part of -0.5 is 0.5) and 0.1 as 00:06.
   */
  lemma NegativeHourOutOfOrder(year: int, dayOfYear: int)
    requires 1000 <= year <= 9999 && 1 <= dayOfYear <= 366
    ensures StampAt(year, dayOfYear, -0.5) == Some(Stamp(year, dayOfYear, 0, 30, 0))
    ensures StampAt(year, dayOfYear, 0.1) == Some(Stamp(year, dayOfYear, 0, 6, 0))
    ensures !StampLe(StampAt(year, dayOfYear, -0.5).value, StampAt(year, dayOfYear, 0.1).value)
  {
    assert FracPart(-0.5) == 0.5;
    assert FracPart(0.1) == 0.1;
    StampAtParses(year, dayOfYear, -0.5);
    StampAtParses(year, dayOfYear, 0.1);
  }
}
