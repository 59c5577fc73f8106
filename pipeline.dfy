/** The batch job's main flow (lines 80-86): list the keys, stop when there
    are none, read the records, aggregate them by device and hour, flag
    anomalies and write the result. Any step that raises ends the run. */
module Pipeline {
  import opened Wrappers
  import opened Json
  import opened Calendar
  import opened Listing
  import opened Reader
  import opened Aggregation
  import opened Anomaly
  import opened Writer

  /** How a run ends: the empty-listing exit, an exception, or one object
      written. */
  datatype RunResult = NoData | Failed(error: string) | Wrote(written: Written)

  const NoDataMessage: string := "No data found under prefix."

  /** Everything after reading, as a function of the loaded records:
      building the table, converting its columns, `hourly_agg`,
      `detect_anomalies` and `write_parquet`. */
  function Process(records: seq<Json>, toDatetime: Json -> Result<Option<Instant>, string>, predict: Predictor,
                   output: string, now: Instant): Result<Written, string>
  {
    match FromRecords(records)
    case Failure(e) => Failure(e)
    case Success(table) =>
      match Decode(table, toDatetime)
      case Failure(e) => Failure(e)
      case Success(rs) =>
        match Detect(HourlyAgg(rs), predict)
        case Failure(e) => Failure(e)
        case Success(flagged) => Success(WriteParquet(flagged, output, now))
  }

  /** The records of `keys` when every object loads. */
  function LoadedValues(bucket: string, keys: seq<string>, load: string -> Result<Json, string>): (vs: seq<Json>)
    requires forall i :: 0 <= i < |keys| ==> load(ObjectUri(bucket, keys[i])).Success?
    ensures |vs| == |keys|
  {
    seq(|keys|, i requires 0 <= i < |keys| => load(ObjectUri(bucket, keys[i])).value)
  }

  /** One run of the job. `pages` are the listing responses, `load` the
      object reads, `toDatetime` the conversion of `ts`, `predict` the
      detector and `now` the clock at the write. */
  method Run(bucket: string, prefix: string, output: string, pages: seq<Page>,
             load: string -> Result<Json, string>, toDatetime: Json -> Result<Option<Instant>, string>,
             predict: Predictor, now: Instant)
    returns (result: RunResult, requests: seq<ListRequest>, fetched: seq<string>)
    requires exists n :: 0 <= n < |pages| && !pages[n].isTruncated
    ensures 1 <= |requests| <= |pages| && IsLast(pages, |requests| - 1)
    ensures var keys := PagesJsonKeys(pages[..|requests|]);
            && (result == NoData <==> keys == [])
            && (keys == [] ==> fetched == [])
            && |fetched| <= |keys|
            && (forall i :: 0 <= i < |fetched| ==> fetched[i] == ObjectUri(bucket, keys[i]))
            && (result.Wrote? <==>
                  keys != [] &&
                  (forall i :: 0 <= i < |keys| ==> load(ObjectUri(bucket, keys[i])).Success?) &&
                  Process(LoadedValues(bucket, keys, load), toDatetime, predict, output, now).Success?)
            && (result.Wrote? ==>
                  result.written == Process(LoadedValues(bucket, keys, load), toDatetime, predict, output, now).value)
  {
    var keys;
    keys, requests := ListObjects(bucket, prefix, pages);
    if keys == [] {
      return NoData, requests, [];
    }
    var records;
    records, fetched := ReadJsonRecords(bucket, keys, load);
    if records.Failure? {
      return Failed(records.error), requests, fetched;
    }
    assert records.value == LoadedValues(bucket, keys, load);
    var table := FromRecords(records.value);
    if table.Failure? {
      return Failed(table.error), requests, fetched;
    }
    var rs := Decode(table.value, toDatetime);
    if rs.Failure? {
      return Failed(rs.error), requests, fetched;
    }
    var grp := HourlyAgg(rs.value);
    var res := DetectAnomalies(grp, predict);
    if res.Failure? {
      return Failed(res.error), requests, fetched;
    }
    return Wrote(WriteParquet(res.value, output, now)), requests, fetched;
  }

  /** The rows a run writes, without their flag and date. */
  function WrittenRows(w: Written): (rows: seq<Aggregate>)
    ensures |rows| == |w.rows| && forall i :: 0 <= i < |w.rows| ==> rows[i] == w.rows[i].row
  {
    seq(|w.rows|, i requires 0 <= i < |w.rows| => w.rows[i].row)
  }

  /** A run that writes writes the aggregate table of its readings, every
      row once (regrouped by device), each with the date of its hour, to
      the path of its run time. */
  lemma WrittenTableIsTheAggregates(records: seq<Json>, toDatetime: Json -> Result<Option<Instant>, string>, predict: Predictor,
                                    output: string, now: Instant)
    requires Process(records, toDatetime, predict, output, now).Success?
    ensures FromRecords(records).Success? && Decode(FromRecords(records).value, toDatetime).Success?
    ensures var rs := Decode(FromRecords(records).value, toDatetime).value;
            var w := Process(records, toDatetime, predict, output, now).value;
            && w.path == OutputPath(output, RunStamp(now))
            && multiset(WrittenRows(w)) == multiset(HourlyAgg(rs))
            && |w.rows| == |HourlyAgg(rs)|
            && forall i :: 0 <= i < |w.rows| ==> w.rows[i].date == RowDate(w.rows[i].row.hour)
  {
    var rs := Decode(FromRecords(records).value, toDatetime).value;
    var grp := HourlyAgg(rs);
    var flagged := Detect(grp, predict).value;
    DetectKeepsRows(grp, predict);
    assert WrittenRows(WriteParquet(flagged, output, now)) == Unflag(flagged);
  }
}
