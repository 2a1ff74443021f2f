/**
 * Finding a data-frame column by the substrings of its header: the two lookup
 * helpers, scanning every header and keeping the last one that matches, and the
 * three places the reader uses them (the navigation time column, the latitude
 * column and the longitude column of a positioning system).
 */
module Columns {
  import opened Text

  /** Some pattern of `strings` occurs in `column`. */
  predicate AnyOccurs(strings: seq<string>, column: string) {
    exists t :: 0 <= t < |strings| && Occurs(strings[t], column)
  }

  /** `column` contains `str1` and one of `strings`: what `column_name` looks for. */
  predicate Selected(column: string, str1: string, strings: seq<string>) {
    Occurs(str1, column) && AnyOccurs(strings, column)
  }

  /** Column `i` is selected and no later column is. */
  predicate IsLastSelected(columns: seq<string>, str1: string, strings: seq<string>, i: int) {
    0 <= i < |columns| && Selected(columns[i], str1, strings)
    && forall k :: i < k < |columns| ==> !Selected(columns[k], str1, strings)
  }

  /** Column `i` contains one of `strings` and no later column does. */
  predicate IsLastWithAny(columns: seq<string>, strings: seq<string>, i: int) {
    0 <= i < |columns| && AnyOccurs(strings, columns[i])
    && forall k :: i < k < |columns| ==> !AnyOccurs(strings, columns[k])
  }

  /**
   * `column_name(df, str1, strings)`: '' when no column contains both `str1` and
   * one of `strings`, otherwise the last such column in column order.
   */
  method ColumnName(columns: seq<string>, str1: string, strings: seq<string>) returns (name: string)
    ensures (forall k :: 0 <= k < |columns| ==> !Selected(columns[k], str1, strings)) ==> name == ""
    ensures (exists k :: 0 <= k < |columns| && Selected(columns[k], str1, strings)) ==>
              exists i :: IsLastSelected(columns, str1, strings, i) && name == columns[i]
    ensures name == "" || name in columns
  {
    name := "";
    ghost var last := -1;
    var i := 0;
    while i < |columns|
      invariant 0 <= i <= |columns|
      invariant -1 <= last < i
      invariant last == -1 ==> name == "" && forall k :: 0 <= k < i ==> !Selected(columns[k], str1, strings)
      invariant last >= 0 ==> name == columns[last] && Selected(columns[last], str1, strings)
      invariant forall k :: last < k < i ==> !Selected(columns[k], str1, strings)
    {
      var column := columns[i];
      if Occurs(str1, column) {
        ghost var nameBefore, lastBefore := name, last;
        var j := 0;
        while j < |strings|
          invariant 0 <= j <= |strings|
          invariant last == i || last == lastBefore
          invariant last == i <==> exists t :: 0 <= t < j && Occurs(strings[t], column)
          invariant last == i ==> name == column
          invariant last == lastBefore ==> name == nameBefore
        {
          if Occurs(strings[j], column) {
            name := column;
            last := i;
          }
          j := j + 1;
        }
      }
      i := i + 1;
    }
    if last >= 0 {
      assert IsLastSelected(columns, str1, strings, last);
    }
  }

  /**
   * `column_name_single(df, strings)`: '' when no column contains any of
   * `strings`, otherwise the last column that contains one.
   */
  method ColumnNameSingle(columns: seq<string>, strings: seq<string>) returns (name: string)
    ensures (forall k :: 0 <= k < |columns| ==> !AnyOccurs(strings, columns[k])) ==> name == ""
    ensures (exists k :: 0 <= k < |columns| && AnyOccurs(strings, columns[k])) ==>
              exists i :: IsLastWithAny(columns, strings, i) && name == columns[i]
    ensures name == "" || name in columns
  {
    name := "";
    ghost var last := -1;
    var i := 0;
    while i < |columns|
      invariant 0 <= i <= |columns|
      invariant -1 <= last < i
      invariant last == -1 ==> name == ""
      invariant last >= 0 ==> name == columns[last] && AnyOccurs(strings, columns[last])
      invariant forall k :: last < k < i ==> !AnyOccurs(strings, columns[k])
    {
      var column := columns[i];
      ghost var nameBefore, lastBefore := name, last;
      var j := 0;
      while j < |strings|
        invariant 0 <= j <= |strings|
        invariant last == i || last == lastBefore
        invariant last == i <==> exists t :: 0 <= t < j && Occurs(strings[t], column)
        invariant last == i ==> name == column
        invariant last == lastBefore ==> name == nameBefore
      {
        if Occurs(strings[j], column) {
          name := column;
          last := i;
        }
        j := j + 1;
      }
      i := i + 1;
    }
    if last >= 0 {
      assert IsLastWithAny(columns, strings, last);
    }
  }

  /**
   * The navigation column the day-seconds key is read from: 'Time' for a TRINAV
   * log, otherwise the last column whose header contains 'GPSTIME' (an SPN log).
   */
  method NavTimeColumn(nav: string, columns: seq<string>) returns (name: string)
    ensures Occurs("TRINAV", nav) ==> name == "Time"
    ensures !Occurs("TRINAV", nav) && (forall k :: 0 <= k < |columns| ==> !Occurs("GPSTIME", columns[k])) ==>
              name == ""
    ensures !Occurs("TRINAV", nav) && (exists k :: 0 <= k < |columns| && Occurs("GPSTIME", columns[k])) ==>
              exists i :: IsLastWithAny(columns, ["GPSTIME"], i) && name == columns[i] && Occurs("GPSTIME", name)
  {
    if Occurs("TRINAV", nav) {
      name := "Time";
    } else {
      name := ColumnNameSingle(columns, ["GPSTIME"]);
      forall k | 0 <= k < |columns|
        ensures AnyOccurs(["GPSTIME"], columns[k]) <==> Occurs("GPSTIME", columns[k])
      {
        if Occurs("GPSTIME", columns[k]) {
          assert Occurs(["GPSTIME"][0], columns[k]);
        }
      }
    }
  }

  /**
   * The latitude and longitude columns of positioning system `system`: the last
   * header naming the system together with 'LAT'/'lat'/'Lat' (respectively
   * 'LON'/'lon'/'Lon'), or '' when there is none.
   */
  method LatLonColumns(columns: seq<string>, system: string) returns (lat: string, lon: string)
    ensures (exists k :: 0 <= k < |columns| && Selected(columns[k], system, ["LAT", "lat", "Lat"])) ==>
              exists i :: IsLastSelected(columns, system, ["LAT", "lat", "Lat"], i) && lat == columns[i]
    ensures (forall k :: 0 <= k < |columns| ==> !Selected(columns[k], system, ["LAT", "lat", "Lat"])) ==> lat == ""
    ensures (exists k :: 0 <= k < |columns| && Selected(columns[k], system, ["LON", "lon", "Lon"])) ==>
              exists i :: IsLastSelected(columns, system, ["LON", "lon", "Lon"], i) && lon == columns[i]
    ensures (forall k :: 0 <= k < |columns| ==> !Selected(columns[k], system, ["LON", "lon", "Lon"])) ==> lon == ""
  {
    lat := ColumnName(columns, system, ["LAT", "lat", "Lat"]);
    lon := ColumnName(columns, system, ["LON", "lon", "Lon"]);
  }

  /** `column_name_single` is `column_name` with an empty `str1`, which every header contains. */
  lemma SingleIsUnfiltered(column: string, strings: seq<string>)
    ensures Selected(column, "", strings) <==> AnyOccurs(strings, column)
  {
    OccursEmpty(column);
  }
}
