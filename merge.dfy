/**
 * The matching core of `read_file_csv`: cleaning a TRINAV log of its trailing
 * commas (rtDisplay writes one after the last header and after every data line,
 * QCPR only after every data line), the seconds-of-day key of a navigation
 * record, the inner merge of rinex and navigation records on that key, the
 * logging period `start_stop_df_m` reads from the merged rows, and the reversal
 * that puts those rows from earlier to later while each keeps its index label.
 */
module Merge {
  import opened Options
  import opened Text
  import opened GpsTime
  import opened Hms

  // ------------------------------------------------------- TRINAV comma strip

  /** `s[:-1] if ',' in s else s`: the last character goes whenever a comma is anywhere in `s`. */
  function StripComma(s: string): (r: string)
    ensures r <= s
    ensures |r| == if ',' in s then |s| - 1 else |s|
  {
    if ',' in s then s[..|s| - 1] else s
  }

  /** A value logged with a trailing comma gets its original back. */
  lemma StripCommaUndoesTrailing(v: string)
    requires ',' !in v
    ensures StripComma(v + ",") == v
  {
    assert (v + ",")[|v|] == ',';
    assert (v + ",")[..|v|] == v;
  }

  /**
   * The strip looks for a comma anywhere, not at the end: a value holding a comma
   * loses its last character even when that character is not a comma.
   */
  lemma StripCommaDropsAnyLast(v: string, c: char)
    requires ',' in v
    ensures StripComma(v + [c]) == v
  {
    var k :| 0 <= k < |v| && v[k] == ',';
    assert (v + [c])[k] == ',';
  }

  /** A value without a comma is left alone, so a second strip changes nothing. */
  lemma StripCommaIdempotent(v: string)
    requires ',' !in v
    ensures StripComma(StripComma(v)) == StripComma(v) == v
  {
  }

  /** A navigation log as read: its headers and its rows of cells, one per header. */
  datatype Table = Table(columns: seq<string>, rows: seq<seq<string>>)

  predicate WellFormed(t: Table) {
    forall i :: 0 <= i < |t.rows| ==> |t.rows[i]| == |t.columns|
  }

  /** `df.rename(columns={from: renamed})`: every header equal to `from` becomes `renamed`. */
  function Rename(columns: seq<string>, from: string, renamed: string): (r: seq<string>)
    ensures |r| == |columns|
    ensures forall i :: 0 <= i < |columns| && columns[i] == from ==> r[i] == renamed
    ensures forall i :: 0 <= i < |columns| && columns[i] != from ==> r[i] == columns[i]
    ensures forall h :: h in r ==> h in columns || h == renamed
    ensures from == renamed || from !in r
  {
    seq(|columns|, i requires 0 <= i < |columns| => if columns[i] == from then renamed else columns[i])
  }

  /** The last cell of a row passed through `StripComma`. */
  function StripLastCell(row: seq<string>): (r: seq<string>)
    requires |row| >= 1
  {
    row[..|row| - 1] + [StripComma(row[|row| - 1])]
  }

  /**
   * The TRINAV cleaning step: when the last header holds a comma it loses its last
   * character (every header with that name is renamed), then every cell of the
   * last column goes through `StripComma`. A parsed CSV always has a column.
   */
  function CleanTrinav(t: Table): (r: Table)
    requires |t.columns| >= 1 && WellFormed(t)
    ensures WellFormed(r) && |r.columns| == |t.columns| && |r.rows| == |t.rows|
    ensures var last := t.columns[|t.columns| - 1];
      (',' !in last ==> r.columns == t.columns)
      && (',' in last ==> forall j :: 0 <= j < |t.columns| ==>
            r.columns[j] == if t.columns[j] == last then last[..|last| - 1] else t.columns[j])
    ensures forall i, j :: 0 <= i < |t.rows| && 0 <= j < |t.columns| - 1 ==> r.rows[i][j] == t.rows[i][j]
    ensures forall i :: 0 <= i < |t.rows| ==>
      r.rows[i][|t.columns| - 1] == StripComma(t.rows[i][|t.columns| - 1])
  {
    var last := t.columns[|t.columns| - 1];
    var columns := if ',' in last then Rename(t.columns, last, last[..|last| - 1]) else t.columns;
    Table(columns, seq(|t.rows|, i requires 0 <= i < |t.rows| => StripLastCell(t.rows[i])))
  }

  /** No header and no cell of the last column holds a comma. */
  predicate CleanLog(t: Table) {
    (forall h :: h in t.columns ==> ',' !in h)
    && (forall i :: 0 <= i < |t.rows| && |t.rows[i]| >= 1 ==> ',' !in t.rows[i][|t.rows[i]| - 1])
  }

  /** A comma appended to the last element. */
  function AppendToLast(xs: seq<string>): (r: seq<string>)
    requires |xs| >= 1
    ensures |r| == |xs| && r[..|xs| - 1] == xs[..|xs| - 1] && r[|xs| - 1] == xs[|xs| - 1] + ","
  {
    xs[..|xs| - 1] + [xs[|xs| - 1] + ","]
  }

  /** What rtDisplay writes: a comma after the last header and after every last cell. */
  function WithTrailingCommas(t: Table): (r: Table)
    requires |t.columns| >= 1 && WellFormed(t)
    ensures WellFormed(r) && |r.columns| == |t.columns| && |r.rows| == |t.rows|
  {
    Table(AppendToLast(t.columns), seq(|t.rows|, i requires 0 <= i < |t.rows| => AppendToLast(t.rows[i])))
  }

  /** Stripping the last cell of a row logged with a trailing comma gives back the row. */
  lemma StripLastCellUndoesAppend(row: seq<string>)
    requires |row| >= 1 && ',' !in row[|row| - 1]
    ensures StripLastCell(AppendToLast(row)) == row
  {
    StripCommaUndoesTrailing(row[|row| - 1]);
  }

  /** Renaming the comma-suffixed last header of comma-free headers gives back the headers. */
  lemma RenameUndoesAppend(columns: seq<string>)
    requires |columns| >= 1 && forall h :: h in columns ==> ',' !in h
    ensures var last := columns[|columns| - 1];
      Rename(AppendToLast(columns), last + ",", last) == columns
  {
    var n := |columns|;
    var last := columns[n - 1];
    var w := AppendToLast(columns);
    var r := Rename(w, last + ",", last);
    assert (last + ",")[|last|] == ',';
    forall i | 0 <= i < n - 1
      ensures r[i] == columns[i]
    {
      assert columns[i] in columns;
      assert w[i] == columns[i];
      assert columns[i] != last + ",";
    }
  }

  /** The headers of a cleaned rtDisplay log are the clean headers. */
  lemma CleanTrinavHeaders(t: Table)
    requires |t.columns| >= 1 && WellFormed(t) && CleanLog(t)
    ensures CleanTrinav(WithTrailingCommas(t)).columns == t.columns
  {
    var w := WithTrailingCommas(t);
    var last := t.columns[|t.columns| - 1];
    assert last in t.columns;
    assert w.columns[|t.columns| - 1] == last + ",";
    assert (last + ",")[|last|] == ',';
    StripCommaUndoesTrailing(last);
    RenameUndoesAppend(t.columns);
  }

  /** The rows of a cleaned rtDisplay log are the clean rows. */
  lemma CleanTrinavRows(t: Table)
    requires |t.columns| >= 1 && WellFormed(t) && CleanLog(t)
    ensures CleanTrinav(WithTrailingCommas(t)).rows == t.rows
  {
    var rows := CleanTrinav(WithTrailingCommas(t)).rows;
    forall i | 0 <= i < |t.rows|
      ensures rows[i] == t.rows[i]
    {
      assert t.rows[i] in t.rows;
      StripLastCellUndoesAppend(t.rows[i]);
    }
  }

  /** Cleaning a log written by rtDisplay gives back the clean log. */
  lemma CleanTrinavUndoesTrailingCommas(t: Table)
    requires |t.columns| >= 1 && WellFormed(t) && CleanLog(t)
    ensures CleanTrinav(WithTrailingCommas(t)) == t
  {
    CleanTrinavHeaders(t);
    CleanTrinavRows(t);
  }

  /** Only the cells carry the trailing comma, as QCPR writes them: the headers are clean. */
  function WithCellCommas(t: Table): (r: Table)
    requires |t.columns| >= 1 && WellFormed(t)
    ensures WellFormed(r) && r.columns == t.columns && |r.rows| == |t.rows|
  {
    Table(t.columns, seq(|t.rows|, i requires 0 <= i < |t.rows| => AppendToLast(t.rows[i])))
  }

  /** Cleaning a log QCPR wrote (commas after the last cells only) gives back the clean log. */
  lemma CleanTrinavUndoesCellCommas(t: Table)
    requires |t.columns| >= 1 && WellFormed(t) && CleanLog(t)
    ensures CleanTrinav(WithCellCommas(t)) == t
  {
    assert t.columns[|t.columns| - 1] in t.columns;
    var rows := CleanTrinav(WithCellCommas(t)).rows;
    forall i | 0 <= i < |t.rows|
      ensures rows[i] == t.rows[i]
    {
      StripLastCellUndoesAppend(t.rows[i]);
    }
  }

  /** A log with no trailing commas at all passes through the cleaning unchanged. */
  lemma CleanTrinavKeepsCleanLog(t: Table)
    requires |t.columns| >= 1 && WellFormed(t) && CleanLog(t)
    ensures CleanTrinav(t) == t
  {
    assert t.columns[|t.columns| - 1] in t.columns;
    var rows := CleanTrinav(t).rows;
    forall i | 0 <= i < |t.rows|
      ensures rows[i] == t.rows[i]
    {
      var row := t.rows[i];
      assert row in t.rows;
      assert rows[i] == row[..|row| - 1] + [row[|row| - 1]];
    }
  }

  // ------------------------------------------------------------ merge key

  /** `int(x) % 86400`: seconds of the day of a navigation GPS time (seconds into the week or since the epoch). */
  function NavDaySeconds(gpsTime: int): (k: int)
    ensures 0 <= k < SecondsPerDay
  {
    gpsTime % SecondsPerDay
  }

  /** The key is the time of day of `gps2time` of the same GPS time. */
  lemma NavDaySecondsIsTimeOfDay(gpsTime: int)
    ensures NavDaySeconds(gpsTime) == Gps2Time(gpsTime).seconds
    ensures Gps2Time(gpsTime) == EpochOffset(Gps2Time(gpsTime).days, NavDaySeconds(gpsTime))
  {
  }

  /** Two GPS times get the same key exactly when they are a whole number of days apart. */
  lemma {:induction false} SameKeyIffWholeDays(a: int, b: int)
    ensures NavDaySeconds(a) == NavDaySeconds(b) <==> exists k :: b == a + k * SecondsPerDay
  {
    if NavDaySeconds(a) == NavDaySeconds(b) {
      var k := b / SecondsPerDay - a / SecondsPerDay;
      assert b == a + k * SecondsPerDay;
    }
    if exists k :: b == a + k * SecondsPerDay {
      var k :| b == a + k * SecondsPerDay;
      TimeOfDayPeriodic(a, k);
    }
  }

  // ------------------------------------------------------------ inner merge

  /**
   * A row of the rinex summary with the fields the merge and the logging period
   * use. `daySeconds` is its key, computed by rounding the decimal hour, and
   * is taken as given.
   */
  datatype RinexRow = RinexRow(year: int, dayOfYear: int, decimalHour: real, daySeconds: int)

  /** A navigation record: its GPS time in whole seconds and its other cells. */
  datatype NavRow = NavRow(gpsTime: int, cells: seq<string>)

  /** A merged row: the rinex record joined with a navigation record of the same key. */
  datatype MergedRow = MergedRow(rinex: RinexRow, nav: NavRow)

  predicate KeysMatch(l: RinexRow, n: NavRow) {
    l.daySeconds == NavDaySeconds(n.gpsTime)
  }

  /** The merged rows one rinex row contributes: each matching navigation row, in order. */
  function Matches(l: RinexRow, right: seq<NavRow>): (ms: seq<MergedRow>)
    ensures |ms| <= |right|
    ensures forall m :: m in ms ==> m.rinex == l && m.nav in right && KeysMatch(l, m.nav)
  {
    if right == [] then []
    else (if KeysMatch(l, right[0]) then [MergedRow(l, right[0])] else []) + Matches(l, right[1..])
  }

  /**
   * `pd.merge(df_r, df_n, how='inner', on='day_seconds')`: for each rinex row in
   * order, its matches among the navigation rows in their order.
   */
  function InnerJoin(left: seq<RinexRow>, right: seq<NavRow>): (ms: seq<MergedRow>)
    ensures forall m :: m in ms ==> m.rinex in left && m.nav in right && KeysMatch(m.rinex, m.nav)
  {
    if left == [] then [] else Matches(left[0], right) + InnerJoin(left[1..], right)
  }

  lemma {:induction false} MatchesComplete(l: RinexRow, right: seq<NavRow>, n: NavRow)
    requires n in right && KeysMatch(l, n)
    ensures MergedRow(l, n) in Matches(l, right)
  {
    if right[0] != n {
      MatchesComplete(l, right[1..], n);
    }
  }

  /** A pair is merged exactly when its rinex row and navigation row are present and their keys agree. */
  lemma {:induction false} InnerJoinMembership(left: seq<RinexRow>, right: seq<NavRow>, l: RinexRow, n: NavRow)
    ensures MergedRow(l, n) in InnerJoin(left, right) <==> l in left && n in right && KeysMatch(l, n)
  {
    if l in left && n in right && KeysMatch(l, n) {
      if left[0] == l {
        MatchesComplete(l, right, n);
      } else {
        InnerJoinMembership(left[1..], right, l, n);
      }
    }
  }

  /** The merge keeps the order of the rinex rows: merging a concatenation concatenates the merges. */
  lemma {:induction false} InnerJoinAppend(a: seq<RinexRow>, b: seq<RinexRow>, right: seq<NavRow>)
    ensures InnerJoin(a + b, right) == InnerJoin(a, right) + InnerJoin(b, right)
  {
    if a == [] {
      assert a + b == b;
    } else {
      assert (a + b)[1..] == a[1..] + b;
      InnerJoinAppend(a[1..], b, right);
    }
  }

  /** No shared key between the two files. */
  predicate Disjoint(left: seq<RinexRow>, right: seq<NavRow>) {
    forall i, j :: 0 <= i < |left| && 0 <= j < |right| ==> !KeysMatch(left[i], right[j])
  }

  /** The merge is empty exactly when no rinex row shares its key with a navigation row. */
  lemma InnerJoinEmptyIffDisjoint(left: seq<RinexRow>, right: seq<NavRow>)
    ensures InnerJoin(left, right) == [] <==> Disjoint(left, right)
  {
    if !Disjoint(left, right) {
      var i, j :| 0 <= i < |left| && 0 <= j < |right| && KeysMatch(left[i], right[j]);
      InnerJoinMembership(left, right, left[i], right[j]);
    }
    var ms := InnerJoin(left, right);
    if ms != [] {
      assert ms[0] in ms;
      var i :| 0 <= i < |left| && left[i] == ms[0].rinex;
      var j :| 0 <= j < |right| && right[j] == ms[0].nav;
      assert KeysMatch(left[i], right[j]);
    }
  }

  // ------------------------------------------------------- logging period

  datatype Result<T> = Ok(value: T) | Err(error: Error)

  /** `[start, stop, reverse]` as `start_stop_df_m` returns it. */
  datatype Period = Period(start: Stamp, stop: Stamp, reverse: int)

  /**
   * The period between a first and a last row: both date-times on the year and
   * day of year of the first row, ordered by their decimal hours; `reverse` is 1
   * when the first row is later than the last. A field `strptime` refuses is a
   * ValueError.
   */
  function PeriodOf(first: RinexRow, last: RinexRow): (r: Result<Period>)
    ensures r.Err? ==> r.error == ValueError
    ensures r.Ok? ==> r.value.reverse in {0, 1}
    ensures r.Ok? ==> (r.value.reverse == 1 <==> first.decimalHour > last.decimalHour)
  {
    var startFirst := StampAt(first.year, first.dayOfYear, first.decimalHour);
    var startLast := StampAt(first.year, first.dayOfYear, last.decimalHour);
    if startFirst.None? || startLast.None? then Err(ValueError)
    else if first.decimalHour > last.decimalHour then Ok(Period(startLast.value, startFirst.value, 1))
    else Ok(Period(startFirst.value, startLast.value, 0))
  }

  /**
   * `start_stop_df_m(df_m)` on the frame the merge returns, whose index labels are
   * the positions 0, 1, 2, ...: the period of the first and the last row. An
   * empty frame has no row 0 (KeyError).
   */
  function StartStop(rows: seq<MergedRow>): (r: Result<Period>)
    ensures rows == [] <==> r == Err(KeyError)
    ensures r.Ok? ==> r.value.reverse in {0, 1}
    ensures r.Ok? ==> (r.value.reverse == 1 <==> rows[0].rinex.decimalHour > rows[|rows| - 1].rinex.decimalHour)
  {
    if rows == [] then Err(KeyError) else PeriodOf(rows[0].rinex, rows[|rows| - 1].rinex)
  }

  /** The year and day of year of the first row are a four-digit year and a day 1..366. */
  predicate ValidDate(rows: seq<MergedRow>) {
    |rows| > 0 && 1000 <= rows[0].rinex.year <= 9999 && 1 <= rows[0].rinex.dayOfYear <= 366
  }

  /**
   * With a valid date, `start_stop_df_m` succeeds exactly when the first and the
   * last decimal hours both lie in (-1, 24).
   */
  lemma StartStopSucceeds(rows: seq<MergedRow>)
    requires ValidDate(rows)
    ensures StartStop(rows).Ok? <==>
      -1.0 < rows[0].rinex.decimalHour < 24.0 && -1.0 < rows[|rows| - 1].rinex.decimalHour < 24.0
  {
    var r0 := rows[0].rinex;
    StampAtParses(r0.year, r0.dayOfYear, r0.decimalHour);
    StampAtParses(r0.year, r0.dayOfYear, rows[|rows| - 1].rinex.decimalHour);
  }

  /**
   * Which date-times the period holds: with a four-digit year and a day 1..366 on
   * the first row, start is the earlier and stop the later of the two decimal
   * hours, each as its truncated hour and whole minutes on that date with second
   * 0; an hour outside (-1, 24) is the ValueError.
   */
  lemma PeriodOfStamps(first: RinexRow, last: RinexRow)
    requires 1000 <= first.year <= 9999 && 1 <= first.dayOfYear <= 366
    ensures var (y, d) := (first.year, first.dayOfYear);
      var (a, b) := (first.decimalHour, last.decimalHour);
      var (lo, hi) := if a > b then (b, a) else (a, b);
      PeriodOf(first, last)
      == if -1.0 < a < 24.0 && -1.0 < b < 24.0
         then Ok(Period(Stamp(y, d, Trunc(lo), HmsFields(lo).1, 0),
                        Stamp(y, d, Trunc(hi), HmsFields(hi).1, 0),
                        if a > b then 1 else 0))
         else Err(ValueError)
  {
    StampAtParses(first.year, first.dayOfYear, first.decimalHour);
    StampAtParses(first.year, first.dayOfYear, last.decimalHour);
  }

  /**
   * The start and stop the report prints: the earlier and the later of the first
   * and last decimal hours, on the first row's date.
   */
  lemma StartStopStamps(rows: seq<MergedRow>)
    requires ValidDate(rows)
    ensures var r0 := rows[0].rinex;
      var (a, b) := (r0.decimalHour, rows[|rows| - 1].rinex.decimalHour);
      var (lo, hi) := if a > b then (b, a) else (a, b);
      StartStop(rows)
      == if -1.0 < a < 24.0 && -1.0 < b < 24.0
         then Ok(Period(Stamp(r0.year, r0.dayOfYear, Trunc(lo), HmsFields(lo).1, 0),
                        Stamp(r0.year, r0.dayOfYear, Trunc(hi), HmsFields(hi).1, 0),
                        if a > b then 1 else 0))
         else Err(ValueError)
  {
    PeriodOfStamps(rows[0].rinex, rows[|rows| - 1].rinex);
  }

  /** For decimal hours in [0, 24) the period is well formed: start is not after stop. */
  lemma StartNotAfterStop(rows: seq<MergedRow>)
    requires ValidDate(rows)
    requires 0.0 <= rows[0].rinex.decimalHour < 24.0
    requires 0.0 <= rows[|rows| - 1].rinex.decimalHour < 24.0
    ensures StartStop(rows).Ok?
    ensures StampLe(StartStop(rows).value.start, StartStop(rows).value.stop)
  {
    var r0 := rows[0].rinex;
    var a, b := r0.decimalHour, rows[|rows| - 1].rinex.decimalHour;
    if a > b {
      StampAtMonotone(r0.year, r0.dayOfYear, b, a);
    } else {
      StampAtMonotone(r0.year, r0.dayOfYear, a, b);
    }
  }

  /** A negative first hour can leave start after stop: hours -0.5 and 0.1 give 00:30 and 00:06. */
  lemma StartAfterStopForNegativeHour(first: MergedRow, last: MergedRow)
    requires ValidDate([first]) && first.rinex.decimalHour == -0.5 && last.rinex.decimalHour == 0.1
    ensures StartStop([first, last]).Ok? && StartStop([first, last]).value.reverse == 0
    ensures !StampLe(StartStop([first, last]).value.start, StartStop([first, last]).value.stop)
  {
    NegativeHourOutOfOrder(first.rinex.year, first.rinex.dayOfYear);
  }

  // -------------------------------------------------------------- reversal

  /** `df[::-1]`: the rows in the opposite order. */
  function Reverse<T>(s: seq<T>): (r: seq<T>)
    ensures |r| == |s|
    ensures forall i :: 0 <= i < |s| ==> r[i] == s[|s| - 1 - i]
  {
    if s == [] then [] else Reverse(s[1..]) + [s[0]]
  }

  lemma ReverseInvolution<T>(s: seq<T>)
    ensures Reverse(Reverse(s)) == s
  {
  }

  /** Reversing keeps every row, as often as it occurs. */
  lemma {:induction false} ReversePermutes<T>(s: seq<T>)
    ensures multiset(Reverse(s)) == multiset(s)
  {
    if s != [] {
      ReversePermutes(s[1..]);
      assert s == [s[0]] + s[1..];
    }
  }

  // ---------------------------------------------------------- index labels

  /** A row of a data frame with its index label. */
  datatype LabelledRow = LabelledRow(index: int, row: MergedRow)

  /** The frame `pd.merge` returns: row i carries label i. */
  function Labelled(rows: seq<MergedRow>): (f: seq<LabelledRow>)
    ensures |f| == |rows|
    ensures forall i :: 0 <= i < |rows| ==> f[i].index == i && f[i].row == rows[i]
  {
    seq(|rows|, i requires 0 <= i < |rows| => LabelledRow(i, rows[i]))
  }

  /** The rows of a frame in their positional order, labels dropped. */
  function Rows(f: seq<LabelledRow>): (rows: seq<MergedRow>)
    ensures |rows| == |f|
    ensures forall i :: 0 <= i < |f| ==> rows[i] == f[i].row
  {
    seq(|f|, i requires 0 <= i < |f| => f[i].row)
  }

  predicate DistinctLabels(f: seq<LabelledRow>) {
    forall p, q :: 0 <= p < q < |f| ==> f[p].index != f[q].index
  }

  /** Some row of the frame carries `index`. */
  predicate HasLabel(f: seq<LabelledRow>, index: int) {
    exists p :: 0 <= p < |f| && f[p].index == index
  }

  /** `df.column[label]` on an integer index: the row carrying `label`; `None` is the KeyError. */
  function AtLabel(f: seq<LabelledRow>, index: int): (r: Option<MergedRow>)
    ensures r.Some? ==> exists p :: 0 <= p < |f| && f[p].index == index && f[p].row == r.value
    ensures r.None? <==> !HasLabel(f, index)
  {
    if f == [] then None
    else if f[0].index == index then Some(f[0].row)
    else
      var r := AtLabel(f[1..], index);
      if r.Some? then
        var p :| 0 <= p < |f[1..]| && f[1..][p].index == index && f[1..][p].row == r.value;
        assert f[p + 1] == f[1..][p];
        r
      else
        assert forall p :: 0 < p < |f| ==> f[p] == f[1..][p - 1];
        r
  }

  /** With distinct labels, a label finds the one row that carries it. */
  lemma {:induction false} AtLabelFinds(f: seq<LabelledRow>, p: int)
    requires DistinctLabels(f) && 0 <= p < |f|
    ensures AtLabel(f, f[p].index) == Some(f[p].row)
  {
    if p > 0 {
      assert f[0].index != f[p].index;
      assert f[1..][p - 1] == f[p];
      AtLabelFinds(f[1..], p - 1);
    }
  }

  /**
   * `start_stop_df_m(df)` as written: year, day and the first decimal hour are read
   * at label 0 and the last decimal hour at label `len(df) - 1`, whatever the
   * rows' positions; a missing label is a KeyError.
   */
  function StartStopByLabel(f: seq<LabelledRow>): (r: Result<Period>)
    ensures r == Err(KeyError) <==> !HasLabel(f, 0) || !HasLabel(f, |f| - 1)
    ensures r.Err? ==> r.error in {KeyError, ValueError}
  {
    var first, last := AtLabel(f, 0), AtLabel(f, |f| - 1);
    if first.None? || last.None? then Err(KeyError) else PeriodOf(first.value.rinex, last.value.rinex)
  }

  /** On a freshly merged frame the labels are the positions, so reading by label is `StartStop`. */
  lemma StartStopByLabelOfMerge(rows: seq<MergedRow>)
    ensures StartStopByLabel(Labelled(rows)) == StartStop(rows)
  {
    if rows != [] {
      var f := Labelled(rows);
      AtLabelFinds(f, 0);
      AtLabelFinds(f, |f| - 1);
    }
  }

  /** Reversing keeps the labels with their rows: label i sits at position n-1-i. */
  lemma ReversedLabelsDistinct(rows: seq<MergedRow>)
    ensures DistinctLabels(Reverse(Labelled(rows)))
    ensures forall p :: 0 <= p < |rows| ==> Reverse(Labelled(rows))[p] == LabelledRow(|rows| - 1 - p, rows[|rows| - 1 - p])
  {
  }

  lemma RowsOfReverse(rows: seq<MergedRow>)
    ensures Rows(Reverse(Labelled(rows))) == Reverse(rows)
    ensures Rows(Labelled(rows)) == rows
  {
  }

  /**
   * The merge of `read_file_csv` up to its orientation: the inner merge on the
   * key, then `start_stop_df_m`, then `df_m[::-1]` when it reports a reversal;
   * the reversed frame keeps each row's index label.
   */
  function MergeAndOrient(rinex: seq<RinexRow>, nav: seq<NavRow>): (r: Result<seq<LabelledRow>>)
    ensures r.Err? <==> StartStop(InnerJoin(rinex, nav)).Err?
    ensures r.Ok? ==> |r.value| == |InnerJoin(rinex, nav)| && DistinctLabels(r.value)
    ensures r.Ok? ==> forall p :: 0 <= p < |r.value| ==>
      0 <= r.value[p].index < |r.value| && r.value[p].row == InnerJoin(rinex, nav)[r.value[p].index]
  {
    var merged := InnerJoin(rinex, nav);
    ReversedLabelsDistinct(merged);
    match StartStop(merged)
    case Err(e) => Err(e)
    case Ok(p) => Ok(if p.reverse == 1 then Reverse(Labelled(merged)) else Labelled(merged))
  }

  /** The merge fails with KeyError exactly when the two files share no time. */
  lemma MergeFailsIffNoCommonTime(rinex: seq<RinexRow>, nav: seq<NavRow>)
    ensures MergeAndOrient(rinex, nav) == Err(KeyError) <==> Disjoint(rinex, nav)
  {
    InnerJoinEmptyIffDisjoint(rinex, nav);
  }

  /**
   * On success the frame holds exactly the merged rows, and in position order it
   * runs from earlier to later: its first decimal hour is not above its last.
   */
  lemma MergeAndOrientOrdered(rinex: seq<RinexRow>, nav: seq<NavRow>)
    requires MergeAndOrient(rinex, nav).Ok?
    ensures var rows := Rows(MergeAndOrient(rinex, nav).value);
      multiset(rows) == multiset(InnerJoin(rinex, nav))
      && |rows| > 0 && rows[0].rinex.decimalHour <= rows[|rows| - 1].rinex.decimalHour
  {
    RowsOfReverse(InnerJoin(rinex, nav));
    ReversePermutes(InnerJoin(rinex, nav));
  }

  /**
   * The period the report shows comes from calling `start_stop_df_m` again on the
   * frame `read_file_csv` returns. Reading by label, that call sees the rows of
   * the merge before any reversal: it gives the period of the merge itself, with
   * its reverse flag.
   */
  lemma ReportPeriodIsMergePeriod(rinex: seq<RinexRow>, nav: seq<NavRow>)
    requires MergeAndOrient(rinex, nav).Ok?
    ensures StartStopByLabel(MergeAndOrient(rinex, nav).value) == StartStop(InnerJoin(rinex, nav))
  {
    var merged := InnerJoin(rinex, nav);
    StartStopByLabelOfMerge(merged);
    if StartStop(merged).value.reverse == 1 {
      var f := Reverse(Labelled(merged));
      var n := |merged|;
      ReversedLabelsDistinct(merged);
      AtLabelFinds(f, n - 1);
      AtLabelFinds(f, 0);
    }
  }

  /**
   * Reading the reversed frame by position instead would not give the same
   * period: the flag would then be 0, as its first row is no longer the later one.
   */
  lemma PositionalReadOfReversedFrameDiffers(rinex: seq<RinexRow>, nav: seq<NavRow>)
    requires MergeAndOrient(rinex, nav).Ok?
    requires StartStop(InnerJoin(rinex, nav)).value.reverse == 1
    ensures StartStop(Rows(MergeAndOrient(rinex, nav).value)) != StartStop(InnerJoin(rinex, nav))
  {
    RowsOfReverse(InnerJoin(rinex, nav));
  }
}
