/**
 * GPS time helpers: `gps2time` and `time2gps` between a count of seconds since
 * the GPS epoch (1980-01-06 00:00:00) and a date-time, the `%H:%M` label the
 * reader puts in the 'Time' column, and the `timetag` appended to report names.
 *
 * A date-time is represented by its offset from the GPS epoch in the normal form
 * Python's `timedelta` keeps: whole days and a seconds part in [0, 86400).
 */
module GpsTime {
  import opened Options
  import opened Text

  const SecondsPerDay: int := 86400

  datatype EpochOffset = EpochOffset(days: int, seconds: int)

  /** The normal form of a `timedelta`: the seconds part is less than one day. */
  predicate Normalised(d: EpochOffset) {
    0 <= d.seconds < SecondsPerDay
  }

  /** `gps2time(gps)`: the epoch plus `timedelta(seconds=gps)`. */
  function Gps2Time(gps: int): (d: EpochOffset)
    ensures Normalised(d)
  {
    EpochOffset(gps / SecondsPerDay, gps % SecondsPerDay)
  }

  /** `time2gps(dat)`: days and seconds of `dat - epoch`, as a count of seconds. */
  function Time2Gps(d: EpochOffset): (gps: int)
    ensures Normalised(d) ==> d.days * SecondsPerDay <= gps < (d.days + 1) * SecondsPerDay
  {
    d.days * SecondsPerDay + d.seconds
  }

  /** Converting a whole number of GPS seconds to a date-time and back gives it again. */
  lemma GpsRoundTrip(gps: int)
    ensures Time2Gps(Gps2Time(gps)) == gps
  {
  }

  /** Every date-time is hit: a normalised offset survives the trip through GPS seconds. */
  lemma {:induction false} TimeRoundTrip(d: EpochOffset)
    requires Normalised(d)
    ensures Gps2Time(Time2Gps(d)) == d
  {
    var g := Time2Gps(d);
    var q, r := g / SecondsPerDay, g % SecondsPerDay;
    var diff := q - d.days;
    assert diff * SecondsPerDay == d.seconds - r;
  }

  /** Two GPS times a whole number of days apart fall at the same time of day. */
  lemma {:induction false} TimeOfDayPeriodic(gps: int, k: int)
    ensures Gps2Time(gps + k * SecondsPerDay).seconds == Gps2Time(gps).seconds
    ensures Gps2Time(gps + k * SecondsPerDay).days == Gps2Time(gps).days + k
  {
    var d := Gps2Time(gps);
    var e := EpochOffset(d.days + k, d.seconds);
    assert Time2Gps(e) == gps + k * SecondsPerDay;
    TimeRoundTrip(e);
  }

  /** `%H:%M` of `gps2time(x)`, as the reader writes into the 'Time' column. */
  function ClockLabel(gps: int): (text: string)
    ensures |text| == 5 && text[2] == ':'
  {
    var tod := Gps2Time(gps).seconds;
    NatToStringLength(tod / 3600);
    NatToStringLength(tod % 3600 / 60);
    ZFill(NatToString(tod / 3600), 2) + ":" + ZFill(NatToString(tod % 3600 / 60), 2)
  }

  /**
   * The label is five characters "HH:MM" that read back as the hour and minute
   * of the time of day, the seconds dropped.
   */
  lemma ClockLabelReadsBack(gps: int)
    ensures var text := ClockLabel(gps);
      var tod := Gps2Time(gps).seconds;
      |text| == 5 && text[2] == ':'
      && ReadNumber(text[..2]).Some? && ReadNumber(text[3..]).Some?
      && ReadNumber(text[..2]).value == tod / 3600
      && ReadNumber(text[3..]).value == tod % 3600 / 60
  {
    var tod := Gps2Time(gps).seconds;
    var h, m := tod / 3600, tod % 3600 / 60;
    NatToStringLength(h);
    NatToStringLength(m);
    ZFillNatRoundTrip(h, 2);
    ZFillNatRoundTrip(m, 2);
    var text := ClockLabel(gps);
    assert text[..2] == ZFill(NatToString(h), 2);
    assert text[3..] == ZFill(NatToString(m), 2);
  }

  /** The label depends only on the time of day. */
  lemma ClockLabelPeriodic(gps: int, k: int)
    ensures ClockLabel(gps + k * SecondsPerDay) == ClockLabel(gps)
  {
    TimeOfDayPeriodic(gps, k);
  }

  /**
   * `timetag()` with the wall-clock reading passed in: year, then month, day,
   * hour, minute and second each zero-filled to two digits, '_' after the day.
   */
  function Timetag(year: int, month: int, day: int, hour: int, minute: int, second: int): (t: string)
    ensures 1000 <= year <= 9999 && 0 <= month < 100 && 0 <= day < 100
      && 0 <= hour < 100 && 0 <= minute < 100 && 0 <= second < 100
      ==> |t| == 15 && t[8] == '_'
  {
    var y := IntToString(year);
    var mo, d := ZFill(IntToString(month), 2), ZFill(IntToString(day), 2);
    var h, mi, s := ZFill(IntToString(hour), 2), ZFill(IntToString(minute), 2), ZFill(IntToString(second), 2);
    var t := y + mo + d + "_" + h + mi + s;
    if 1000 <= year <= 9999 && 0 <= month < 100 && 0 <= day < 100
       && 0 <= hour < 100 && 0 <= minute < 100 && 0 <= second < 100
    then
      NatToStringLength(year);
      TwoDigitField(month);
      TwoDigitField(day);
      TwoDigitField(hour);
      TwoDigitField(minute);
      TwoDigitField(second);
      TagLayout(y, mo, d, h, mi, s);
      t
    else t
  }

  /** Two-digit field of a timetag: zero-filled `str(n)` for `n` below 100. */
  lemma TwoDigitField(n: int)
    requires 0 <= n < 100
    ensures var f := ZFill(IntToString(n), 2);
      |f| == 2 && AllDigits(f) && DigitsValue(f) == n
  {
    NatToStringLength(n);
    ZFillNatRoundTrip(n, 2);
  }

  /** Where each field sits in "YYYYMMDD_hhmmss" built from pieces of those widths. */
  lemma TagLayout(y: string, mo: string, d: string, h: string, mi: string, s: string)
    requires |y| == 4 && |mo| == 2 && |d| == 2 && |h| == 2 && |mi| == 2 && |s| == 2
    ensures var t := y + mo + d + "_" + h + mi + s;
      |t| == 15 && t[8] == '_'
      && t[..4] == y && t[4..6] == mo && t[6..8] == d
      && t[9..11] == h && t[11..13] == mi && t[13..] == s
      && t[..8] == y + mo + d && t[9..] == h + mi + s
  {
    var date, time := y + mo + d, h + mi + s;
    var t := y + mo + d + "_" + h + mi + s;
    assert t == date + "_" + time;
    ThreeParts(y, mo, d);
    ThreeParts(h, mi, s);
    ThreeParts(date, "_", time);
    assert t[4..6] == date[4..6];
    assert t[6..8] == date[6..8];
    assert t[9..11] == time[..2];
    assert t[11..13] == time[2..4];
    assert t[13..] == time[4..];
  }

  lemma ThreeParts(a: string, b: string, c: string)
    ensures (a + b + c)[..|a|] == a
    ensures (a + b + c)[|a|..|a| + |b|] == b
    ensures (a + b + c)[|a| + |b|..] == c
  {
  }

  /**
   * For a four-digit year and two-digit fields, the timetag is the fixed-width
   * "YYYYMMDD_hhmmss" from which every field reads back.
   */
  lemma TimetagReadsBack(year: int, month: int, day: int, hour: int, minute: int, second: int)
    requires 1000 <= year <= 9999
    requires 0 <= month < 100 && 0 <= day < 100
    requires 0 <= hour < 100 && 0 <= minute < 100 && 0 <= second < 100
    ensures var t := Timetag(year, month, day, hour, minute, second);
      |t| == 15 && t[8] == '_'
      && ReadNumber(t[..4]) == Some(year)
      && ReadNumber(t[4..6]) == Some(month) && ReadNumber(t[6..8]) == Some(day)
      && ReadNumber(t[9..11]) == Some(hour) && ReadNumber(t[11..13]) == Some(minute)
      && ReadNumber(t[13..]) == Some(second)
  {
    NatToStringLength(year);
    NatToStringRoundTrip(year);
    TwoDigitField(month);
    TwoDigitField(day);
    TwoDigitField(hour);
    TwoDigitField(minute);
    TwoDigitField(second);
    var y := IntToString(year);
    var mo, d := ZFill(IntToString(month), 2), ZFill(IntToString(day), 2);
    var h, mi, s := ZFill(IntToString(hour), 2), ZFill(IntToString(minute), 2), ZFill(IntToString(second), 2);
    assert Timetag(year, month, day, hour, minute, second) == y + mo + d + "_" + h + mi + s;
    TagLayout(y, mo, d, h, mi, s);
  }
}
