/** `write_parquet`: the `date` column derived from `hour`, and the path of
    the one output object of a run, `<uri without trailing slashes>/run_ts=
    <UTC run time as %Y%m%dT%H%M%S>/aggregates.parquet`. The file system and
    the Parquet encoding are not modelled: the result is what would be
    written, and where. */
module Writer {
  import opened Wrappers
  import opened Format
  import opened Calendar
  import opened Stamps
  import opened Aggregation
  import opened Anomaly

  /** The `date` column of one row: the UTC calendar date of its hour as text. */
  function RowDate(hour: Instant): string
  {
    DateText(DateOf(CivilOf(hour)))
  }

  /** `strftime("%Y%m%dT%H%M%S")` of the run time `now`. */
  function RunStamp(now: Instant): string
  {
    StampText(CivilOf(now))
  }

  /** `strftime("%Y%m%dT%H%M%S")` of a UTC date-time: fifteen characters
      whose six digit fields read back as its date and time. */
  function StampText(dt: CivilTime): (s: string)
    ensures |s| == 15 && s[8] == 'T' && AllDigits(s[..8]) && AllDigits(s[9..])
    ensures && Value(s[..4]) == dt.date.year && Value(s[4..6]) == dt.date.month && Value(s[6..8]) == dt.date.day
            && Value(s[9..11]) == dt.hour && Value(s[11..13]) == dt.minute && Value(s[13..]) == dt.second
  {
    var date := Digits3(dt.date.year, dt.date.month, dt.date.day, 4);
    var time := Digits3(dt.hour, dt.minute, dt.second, 2);
    StampSlices(date, time);
    date + "T" + time
  }

  lemma StampSlices(date: string, time: string)
    requires |date| == 8 && |time| == 6
    ensures var s := date + "T" + time;
            && s[..8] == date && s[9..] == time
            && s[..4] == date[..4] && s[4..6] == date[4..6] && s[6..8] == date[6..]
            && s[9..11] == time[..2] && s[11..13] == time[2..4] && s[13..] == time[4..]
  {
  }

  /** Runs at different seconds get different stamps. */
  lemma RunStampInjective(t1: Instant, t2: Instant)
    requires RunStamp(t1) == RunStamp(t2)
    ensures t1 == t2
  {
    var a, b := CivilOf(t1), CivilOf(t2);
    assert a == b;
  }

  const TableFile: string := "aggregates.parquet"

  /** The output URI without trailing slashes, then the run segment and the
      file name. */
  function OutputPath(uri: string, stamp: string): string
  {
    RstripSlash(uri) + "/run_ts=" + stamp + "/" + TableFile
  }

  /** The joined path does not depend on trailing slashes of the URI, and
      the part before "/run_ts=" is the URI up to them and ends in no slash. */
  lemma OutputPathTrailingSlash(uri: string, stamp: string)
    ensures OutputPath(uri + "/", stamp) == OutputPath(uri, stamp)
    ensures var base := RstripSlash(uri);
            && OutputPath(uri, stamp)[..|base|] == base
            && (base == [] || OutputPath(uri, stamp)[|base| - 1] != '/')
            && OutputPath(uri, stamp)[|base|..|base| + 8] == "/run_ts="
  {
    assert (uri + "/")[..|uri|] == uri;
  }

  /** Runs at different seconds write to different objects. */
  lemma OutputPathsDistinct(uri: string, t1: Instant, t2: Instant)
    requires OutputPath(uri, RunStamp(t1)) == OutputPath(uri, RunStamp(t2))
    ensures t1 == t2
  {
    var s1, s2 := RunStamp(t1), RunStamp(t2);
    StampInPath(uri, s1);
    StampInPath(uri, s2);
    assert |s1| == |s2|;
    RunStampInjective(t1, t2);
  }

  /** The stamp sits right after "/run_ts=", and the path ends with the
      file name after it. */
  lemma StampInPath(uri: string, stamp: string)
    ensures var n := |RstripSlash(uri)| + 8;
            && |OutputPath(uri, stamp)| == n + |stamp| + 19
            && OutputPath(uri, stamp)[n..n + |stamp|] == stamp
            && OutputPath(uri, stamp)[n + |stamp|..] == "/aggregates.parquet"
  {
  }

  /** One row of the written table: the flagged aggregate and its `date`. */
  datatype OutputRow = OutputRow(row: Aggregate, anomaly: bool, date: string)

  /** What one run writes: one object, holding every row. */
  datatype Written = Written(path: string, rows: seq<OutputRow>)

  /** `write_parquet(df, s3_uri)` at the run time `now`: every row keeps its
      place and its columns and gains the date of its hour, all in one
      object under the run's path. */
  function WriteParquet(df: seq<Flagged>, uri: string, now: Instant): (w: Written)
    ensures w.path == OutputPath(uri, RunStamp(now))
    ensures |w.rows| == |df|
    ensures forall i :: 0 <= i < |df| ==>
              w.rows[i].row == df[i].row && w.rows[i].anomaly == df[i].anomaly
  {
    Written(OutputPath(uri, RunStamp(now)),
            seq(|df|, i requires 0 <= i < |df| => OutputRow(df[i].row, df[i].anomaly, RowDate(df[i].row.hour))))
  }

  /** The `date` of a row is the UTC calendar date of its hour, in
      "YYYY-MM-DD" form. */
  lemma WrittenDates(df: seq<Flagged>, uri: string, now: Instant, i: int)
    requires 0 <= i < |df|
    ensures var d := WriteParquet(df, uri, now).rows[i].date;
            var c := CivilOf(df[i].row.hour).date;
            |d| == 10 && Value(d[..4]) == c.year && Value(d[5..7]) == c.month && Value(d[8..]) == c.day
  {
  }

  /** The `date` of an aggregate row is the UTC date of every reading it
      summarises: flooring to the hour never crosses midnight. */
  lemma RowDateOfReadings(rs: seq<Reading>, i: int, j: int)
    requires 0 <= i < |HourlyAgg(rs)| && 0 <= j < |rs|
    requires KeyOf(rs[j]) == Some(RowKey(HourlyAgg(rs)[i]))
    ensures RowDate(HourlyAgg(rs)[i].hour) == DateText(DateOf(CivilOf(rs[j].ts.value)))
  {
    var t := rs[j].ts.value;
    assert HourlyAgg(rs)[i].hour == HourFloor(t);
    HourFloorFields(t);
  }
}
