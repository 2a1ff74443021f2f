# RINEX verification: the record-matching kernel

`rinex_verification.py` compares the positions in RINEX observation summaries
against a vessel's navigation log (TRINAV or SPN). This project models the
kernel that gets both files to the same epochs:
- finding columns by the substrings of their headers;
- GPS time conversions and time labels;
- converting degrees-minutes-seconds coordinates to decimal degrees;
- converting decimal hours to hours and minutes;
- cleaning the trailing commas of TRINAV logs: rtDisplay writes one after the last header and after every data line, QCPR only after every data line;
- the seconds-of-day key of a navigation record;
- the inner merge of the two files on that key;
- the logging period (start, stop and a reverse flag) read from the merged rows;
- the reversal that puts those rows from earlier to later, and the period the report reads back from the reversed frame.

Modules, one per concern:

- `Options`: the `Option` type.
- `Text`: the Python string operations the kernel uses:
  - `sub in s`;
  - `str.replace` with a one-character pattern;
  - `str.split()`;
  - `str.zfill`, `str(int)`;
  - `int()` on a digit string;
  - `float()` on decimal literals.
- `Columns`: `column_name` and `column_name_single`, as loop methods, and the three places the reader calls them.
- `GpsTime`: `gps2time`, `time2gps`, the `%H:%M` label, and `timetag`.
- `Dms`: `dms_to_dec`.
- `Hms`: `dec_hour_to_hms`, and the `strptime('%Y_%j_%H_%M_%S')` parse built from it.
- `Merge`: the matching steps of `read_file_csv`, `start_stop_df_m`, and the reversal.

How the model represents the source:

- Floating-point values are reals.
- Python's `int()` on a float truncates toward zero (`Hms.Trunc`).
- `x % 1` is `x - floor(x)` (`Hms.FracPart`).
- `%` by 86400 is floored, and for a positive divisor that is Dafny's `%`.
- A date-time is its offset from the GPS epoch (1980-01-06), in the normal form `timedelta` keeps: whole days, and seconds in [0, 86400).
- Data frames are sequences of row values; where an index label is read (`df.year[0]`), rows carry their label.
- An error the source raises is a `Result` or `Option` value.

The reader reverses the merged frame "for plotting from earlier to later date" (rinex_verification.py:284-287), and `start_stop_df_m` swaps the first and last date-times when the first decimal hour is the larger (:175-182). That swap orders start and stop only for non-negative decimal hours. `dec_hour_to_hms` takes `dec_hour % 1`, which for a negative decimal hour is measured from the floor, so -0.5 reads as 00:30, later than 0.1 at 00:06. The model follows the code. It proves the order for decimal hours in [0, 24) (`Merge.StartNotAfterStop`). It shows the negative case as a counterexample (`Merge.StartAfterStopForNegativeHour`).

## Model

| member | source | states |
|---|---|---|
| Columns.ColumnName | rinex_verification.py:187-194 | '' when no column contains both `str1` and one of `strings`; otherwise the last such column in column order |
| Columns.ColumnNameSingle | rinex_verification.py:197-204 | '' when no column contains any of `strings`; otherwise the last column that contains one |
| Columns.SingleIsUnfiltered | rinex_verification.py:187-204 | `column_name_single` selects exactly what `column_name` selects with an empty `str1` |
| Columns.NavTimeColumn | rinex_verification.py:265-271 | the key source is 'Time' for TRINAV; otherwise the last header containing 'GPSTIME', or '' when there is none |
| Columns.LatLonColumns | rinex_verification.py:302-303 | the latitude (longitude) column is the last header naming the system and 'LAT'/'lat'/'Lat' ('LON'/'lon'/'Lon'), or '' |
| GpsTime.Gps2Time | rinex_verification.py:97-99 | the epoch offset of a GPS time is normalised: the seconds part is in [0, 86400) |
| GpsTime.Time2Gps | rinex_verification.py:102-105 | the GPS seconds of a normalised date-time lie within its day: from days * 86400 up to, not including, (days + 1) * 86400 |
| GpsTime.GpsRoundTrip | rinex_verification.py:97-105 | `time2gps(gps2time(g)) == g` for every whole number of seconds |
| GpsTime.TimeRoundTrip | rinex_verification.py:97-105 | `gps2time(time2gps(d)) == d` for every normalised date-time |
| GpsTime.TimeOfDayPeriodic | rinex_verification.py:97-99 | shifting a GPS time by k days keeps the time of day and adds k to the day count |
| GpsTime.ClockLabel | rinex_verification.py:312-318 | the 'Time' label is five characters with ':' in the middle |
| GpsTime.ClockLabelReadsBack | rinex_verification.py:312-318 | the 'Time' label is "HH:MM", five characters, whose fields read back as the hour and minute of the time of day |
| GpsTime.ClockLabelPeriodic | rinex_verification.py:312-318 | the label depends only on the time of day: times a whole number of days apart get the same label |
| GpsTime.Timetag | rinex_verification.py:92-94 | for a four-digit year and fields below 100, the tag is 15 characters with '_' at index 8 |
| GpsTime.TimetagReadsBack | rinex_verification.py:92-94 | for a four-digit year and two-digit fields, the tag is "YYYYMMDD_hhmmss" (15 characters, '_' at index 8), and each field reads back as its value |
| Dms.Normalise | rinex_verification.py:112-116 | no ':' is left: every one became a space (`Dms.NormaliseKeepsSouthWest`: no 'S' or 'W' is added or removed) |
| Dms.Magnitude | rinex_verification.py:122-128 | no value exactly when `float()` refuses the degrees, the minutes or, with four tokens, the seconds; with other than four tokens the value is degrees + minutes / 60, the seconds dropped |
| Dms.DmsToDec | rinex_verification.py:108-134 | the input comes back unchanged exactly when fewer than three tokens remain after normalising; a ValueError exactly when a token used is not a number |
| Dms.SouthWestNegates | rinex_verification.py:127-134 | a converted value is the magnitude, negated exactly when the input holds an 'S' or a 'W' |
| Dms.NegativeIffSouthWest | rinex_verification.py:127-134 | a positive magnitude comes out negative exactly for the southern and western hemispheres |
| Dms.DegreesMinutesSecondsConverts | rinex_verification.py:108-134 | "D:M:Sh" converts to ±(D + M/60 + S/3600), negative for S and W |
| Dms.DegreesMinutesConverts | rinex_verification.py:108-134 | "D:Mh" converts to ±(D + M/60): three tokens mean a seconds part of 0 |
| Dms.DegreesMinutesSecondsWithoutHemisphere | rinex_verification.py:118-128 | "D:M:S" without a hemisphere letter is three tokens, so the seconds are dropped: it converts to D + M/60 |
| Dms.PlainNumberUnchanged | rinex_verification.py:119-120 | a plain number is one token and is returned unchanged |
| Hms.Trunc | rinex_verification.py:150 | `int(x)`: the floor for x >= 0, and for x < 0 the integer in [x, x + 1) |
| Hms.FracPart | rinex_verification.py:151 | `x % 1` is in [0, 1) and x minus it is the floor of x |
| Hms.HmsFields | rinex_verification.py:149-153 | the minutes are in 0..59 and the seconds are always 0 |
| Hms.DecHourToHms | rinex_verification.py:149-153 | the minutes field has two characters, and the seconds field is always "00" |
| Hms.HmsIsWholeMinutes | rinex_verification.py:149-153 | for a non-negative decimal hour, hours * 60 + minutes is the time in minutes rounded down |
| Hms.HmsMonotone | rinex_verification.py:149-153 | for non-negative decimal hours, a later hour never gives an earlier (hour, minute) |
| Hms.DecHourFieldsReadBack | rinex_verification.py:149-153 | for decimal hours in [0, 100), the hour and minute fields are two digits that read back as their values |
| Hms.HourFieldParses | rinex_verification.py:168-172 | the `%H` field of `str(h).zfill(2)` parses exactly when 0 <= h <= 23 |
| Hms.Strptime | rinex_verification.py:168 | a parsed date-time has a four-character year field, a year 1..9999, a day 1..366, an hour 0..23, and minutes and seconds 0..59 |
| Hms.StampAt | rinex_verification.py:159-172 | a parsed date-time has the truncated decimal hour as its hour, the whole minutes of `dec_hour_to_hms` and second 0 |
| Hms.StampAtParses | rinex_verification.py:159-172 | for a four-digit year and a day 1..366, `strptime` succeeds exactly for decimal hours in (-1, 24), and gives the truncated hour, the whole minutes and second 0 |
| Hms.StampAtMonotone | rinex_verification.py:159-172 | decimal hours in [0, 24) of one day parse, in chronological order |
| Hms.NegativeHourOutOfOrder | rinex_verification.py:149-153 | -0.5 parses as 00:30 and 0.1 as 00:06, so the order breaks below hour 0 |
| Merge.StripComma | rinex_verification.py:224 | the result is a prefix of the value, one character shorter exactly when the value holds a comma |
| Merge.StripCommaDropsAnyLast | rinex_verification.py:224 | a value holding a comma anywhere loses its last character even when that character is not a comma |
| Merge.StripCommaUndoesTrailing | rinex_verification.py:224 | a comma-free value with a comma appended gets the value back |
| Merge.StripCommaIdempotent | rinex_verification.py:224 | a comma-free value is a fixed point of the strip |
| Merge.Rename | rinex_verification.py:218-219 | every header equal to the old name becomes the new name, headers other than the old name are unchanged, every header of the result is an old header or the new name, and the old name is gone unless it is the new one |
| Merge.RenameUndoesAppend | rinex_verification.py:218-219 | renaming the comma-suffixed last header of comma-free headers back to its stem gives back the headers |
| Merge.CleanTrinav | rinex_verification.py:218-224 | headers are unchanged unless the last holds a comma, and then every header equal to it loses its last character and no other changes; each last cell becomes its comma-stripped value; every other cell and the table shape are unchanged |
| Merge.CleanTrinavUndoesTrailingCommas | rinex_verification.py:218-224 | cleaning a log rtDisplay wrote (commas after the last header and the last cells) gives back the clean log |
| Merge.CleanTrinavUndoesCellCommas | rinex_verification.py:221-224 | cleaning a log QCPR wrote (clean headers, a comma after every last cell) gives back the clean log |
| Merge.CleanTrinavKeepsCleanLog | rinex_verification.py:218-224 | a log with no trailing commas at all passes through unchanged |
| Merge.NavDaySeconds | rinex_verification.py:267 | the key is in [0, 86400) |
| Merge.NavDaySecondsIsTimeOfDay | rinex_verification.py:267-271 | the key is the time of day of `gps2time` of the same GPS time |
| Merge.SameKeyIffWholeDays | rinex_verification.py:267-271 | two GPS times get the same key exactly when they are a whole number of days apart |
| Merge.Matches | rinex_verification.py:276 | the rows one rinex row contributes pair it with navigation rows of its key, at most one per navigation row |
| Merge.InnerJoin | rinex_verification.py:276 | every merged row pairs a rinex row and a navigation row with equal keys |
| Merge.InnerJoinMembership | rinex_verification.py:276 | a pair is in the merge exactly when both rows are present and their keys agree |
| Merge.InnerJoinAppend | rinex_verification.py:276 | the merge follows the rinex order: merging a concatenation concatenates the merges |
| Merge.InnerJoinEmptyIffDisjoint | rinex_verification.py:276-282 | the merge is empty exactly when the two files share no key |
| Merge.PeriodOf | rinex_verification.py:159-184 | an error is always the ValueError of `strptime`, never a KeyError; on success the reverse flag is 0 or 1, and 1 exactly when the first decimal hour is above the last |
| Merge.StartStop | rinex_verification.py:156-184 | an empty frame is a KeyError; on success the reverse flag is 0 or 1, and it is 1 exactly when the first decimal hour is above the last |
| Merge.PeriodOfStamps | rinex_verification.py:159-184 | with a valid date on the first row: start and stop are the earlier and the later decimal hour, each as (year, day, truncated hour, whole minutes, 0) on that date, and reverse is 1 exactly when the first is the later; an hour outside (-1, 24) is a ValueError |
| Merge.StartStopStamps | rinex_verification.py:156-184 | the same for the first and last rows of a frame: the start and stop the report prints (lines 461-462) |
| Merge.StartStopSucceeds | rinex_verification.py:156-172 | with a valid date, the period is found exactly when the first and last decimal hours lie in (-1, 24) |
| Merge.StartNotAfterStop | rinex_verification.py:174-184 | for decimal hours in [0, 24), start is not after stop |
| Merge.StartAfterStopForNegativeHour | rinex_verification.py:149-184 | first hour -0.5 and last hour 0.1 give reverse 0 with start after stop |
| Merge.Reverse | rinex_verification.py:287 | `df[::-1]` has the same length, and row i is row n-1-i of the input |
| Merge.ReverseInvolution | rinex_verification.py:287 | reversing twice gives back the rows |
| Merge.ReversePermutes | rinex_verification.py:287 | reversing keeps every row as often as it occurs |
| Merge.MergeAndOrient | rinex_verification.py:276-287 | fails exactly when `start_stop_df_m` of the merge fails; on success the frame has one row per merged row, distinct labels, and the row carrying label i is merged row i |
| Merge.MergeFailsIffNoCommonTime | rinex_verification.py:276-285 | merging then reading the period fails with KeyError exactly when the two files share no time |
| Merge.MergeAndOrientOrdered | rinex_verification.py:276-287 | on success the rows are a permutation of the merge, and in position order the first decimal hour is not above the last |
| Merge.AtLabel | rinex_verification.py:160-165 | a row found by index label carries that label, and nothing is found (KeyError) exactly when no row carries it |
| Merge.AtLabelFinds | rinex_verification.py:160-165 | with distinct labels, a label finds the one row that carries it |
| Merge.StartStopByLabel | rinex_verification.py:156-184 | a KeyError exactly when label 0 or label len(df) - 1 is missing from the frame; any other error is a ValueError |
| Merge.StartStopByLabelOfMerge | rinex_verification.py:160-165 | on the freshly merged frame, reading rows by label gives the positional period `StartStop` |
| Merge.ReportPeriodIsMergePeriod | rinex_verification.py:765 | the report's second `start_stop_df_m` call, reading the returned frame by label, gives the period of the merge before reversal, reverse flag included |
| Merge.PositionalReadOfReversedFrameDiffers | rinex_verification.py:285-287 | when the merge was reversed, reading the returned frame by position would give a different period |
| Text.OccursChar | rinex_verification.py:224 | for a one-character pattern, `sub in s` is character membership |
| Text.NatToStringRoundTrip | rinex_verification.py:94 | `int(str(n)) == n` |
| Text.ZFillNatRoundTrip | rinex_verification.py:94 | zero-filling `str(n)` keeps its value |
| Text.WordsCons | rinex_verification.py:119 | a word followed by a space splits into that word and the split of the rest |
| Text.ParseFloatNat | rinex_verification.py:122-125 | `float(str(n)) == n` |

## Left out

- The Tk user interface, plotting, PDF report generation and file reading and writing (`read_csv`, `to_csv`) are not modelled. They are I/O. The merge works on rows already read.
- `timetag` reads the wall clock. The model takes the year, month, day, hour, minute and second as parameters.
- The degree-to-metre factors (WGS-84 flattening, lines 293-299), the latitude and longitude differences scaled by them, and `stats` are not modelled. They are floating-point reporting built on the merged rows.
- The rinex key `int(round(decimal_hour * 3600, 1))` (line 263) is not modelled. Its float rounding is taken as an integer field of each rinex row.
- The conversion loop that applies `dms_to_dec` to every latitude or longitude column (lines 241-244) and the gyro `to_float` conversions (lines 232-237) are not modelled as table passes. `dms_to_dec` itself is modelled.
- Dms.DmsToDec: it works on strings only. The `str(_dms)` of a non-string cell (NaN, an already numeric value) is not modelled.
- Dms.DmsToDec: `float()` is modelled on optionally signed decimal literals. Exponents, `inf`, `nan` and underscores fall into the ValueError case rather than converting.
- Merge.NavDaySeconds: the navigation time is taken as the whole number `int(x)` already gives. `int()` of a non-integral string, which is a ValueError, is not modelled.
- GpsTime.Gps2Time: covers whole seconds only. Fractional GPS seconds and the `datetime` year range (1..9999) are not modelled.
- Hms.Strptime: day 366 of a common year rolls over to 1 January of the next year in Python's `strptime`. The model keeps day 366 as given.
- Hms.Strptime: it checks each field on its own and assumes no field contains '_'. Field values that embed the separator are not modelled.
- Merge.CleanTrinav: the cells are strings. A last column that pandas had already parsed as numbers (where `',' in s` would raise TypeError) is not modelled.
- Merge.CleanTrinav: a data frame with two headers of the same name (where selecting the last column yields a frame) is not modelled.
- Merge.MergeAndOrient: the error dialog shown before `start_stop_df_m` is I/O. The bare `exit` after it does nothing, so the model goes straight to the KeyError that follows.
- Merge.NavDaySeconds: a NaN time cell raises ValueError in `int()` (lines 263, 267, 271) before the merge. This is not modelled.
- Merge.InnerJoin: it models the row order pandas documents for `how='inner'` from version 2.2 on: the rinex rows in order, and within each rinex row the navigation rows in order. Earlier pandas groups the output rows by key, in order of first appearance. That order is different when a rinex key repeats non-adjacently, for example in a file longer than a day or with duplicated epochs. In that case the first and last rows read by `start_stop_df_m` and the reversal can differ from the model's.
- Merge.Reverse: the frame keeps each row's index label (`Merge.LabelledRow`). Apart from the second `start_stop_df_m` call (line 765), the later reads of the frame (column arithmetic, plots, statistics) are not modelled.
