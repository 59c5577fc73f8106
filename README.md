# IoT readings: ingest function and hourly aggregation job

This project models two programs of a small sensor-data pipeline.

- **The ingest function** is `lambda/ingest_handler.py`. It sits behind an HTTP endpoint. It parses one JSON reading, checks that `device_id`, `temperature` and `humidity` are present, and fills in `ts` from the clock when it is absent. It then stores the reading as one object under a key partitioned by UTC year, month, day and hour, and by device: `raw/year=YYYY/month=MM/day=DD/hour=HH/device_id=<id>/event_<uuid>.json`.
- **The batch job** is `analytics/aggregate_anomaly.py`. Each run does the following:
  - lists every `.json` key under a prefix, following continuation tokens;
  - stops when the listing is empty;
  - loads the objects;
  - groups the readings by device and UTC hour and computes `temp_avg`, `temp_min`, `temp_max`, `hum_avg` and `count`;
  - flags anomalous hours per device, leaving devices with fewer than 10 rows unflagged;
  - writes one table per run under `run_ts=<YYYYMMDDTHHMMSS>/aggregates.parquet`.

The Dafny modules follow the programs:

- Programs:
  - `Listing`: `list_objects`.
  - `Reader`: `read_json_records`.
  - `Aggregation`: `hourly_agg`.
  - `Anomaly`: `detect_anomalies`.
  - `Writer`: `write_parquet`.
  - `Pipeline`: the main block of the batch job.
  - `Ingest`: `handler` and `_partitioned_key`.
- Support modules:
  - `Json`: decoded JSON and Python truthiness.
  - `Calendar`: the proleptic Gregorian calendar and UTC epoch seconds.
  - `Format`: zero-padded decimals, `endswith` and `rstrip`.
  - `Stamps`: date text.
  - `Ordering`: sorted distinct sequences and string order.
  - `Grouping`: selecting and gathering by a key.
  - `Wrappers`: `Option` and `Result`.

Python exceptions are `Failure` values. A run of the batch job ends in `NoData`, `Failed(error)` or `Wrote(written)`. A call of the ingest function ends either in a returned response, together with the object it stored if any, or in an exception that escapes the handler.

The loops of the source are methods proved against specification functions:

- `ListObjects` against `PagesJsonKeys`;
- `ReadJsonRecords` against the loads it makes;
- `DetectAnomalies` against `Detect`;
- `Handler` against `Handle`;
- `Run` against `Process`.

The properties the programs promise are lemmas about those functions:

- the groups partition the readings;
- `count` is the number of temperatures in a group;
- min ≤ mean ≤ max;
- the threshold-and-detector policy;
- no aggregate row is lost or duplicated by the detector;
- partition keys and run stamps read back to their fields;
- the calendar conversion is a bijection;
- the 200 and 400 responses and what each stores.

The system's design describes three behaviours the code does not have. The model follows the code:

- The design says a record missing a field aggregation needs aborts the run. In the code it does not: pandas fills NaN for that cell. A reading without `device_id` or `ts` drops out of every group. A reading without `temperature` or `humidity` stays in its group, and only that statistic skips it. Only a column that no record has raises (`KeyError`), as `Decode` states.
- The design says successive runs never collide on their output path. Two runs in the same second write to the same path, because the stamp has one-second resolution. `OutputPathsDistinct` proves the paths differ only for different seconds.
- The design says the ingest function answers an invalid field with a client error. It does not answer every invalid payload with one. A payload that is not a dict but holds the three names raises. So do a list or string whose membership test passes, a `ts` that neither `float` nor `fromisoformat` accepts, and any other `ts` that is not a string. These are `Raised` outcomes, not 400 responses.

## Model

| member | source | states |
|---|---|---|
| Listing.ListObjects | analytics/aggregate_anomaly.py:9-24 | The first request has no token and `MaxKeys=1000`. Each later request carries the previous page's non-empty continuation token. Requests stop at the first page that is not truncated. The keys are the `.json` keys of the pages read, in order. |
| Listing.AppendJsonKeys | analytics/aggregate_anomaly.py:17-19 | The inner loop appends exactly the keys of one page that end in `.json`, in page order. |
| Listing.Carried | analytics/aggregate_anomaly.py:15 | A token is sent exactly when it is present and non-empty (Python truthiness), and it is sent unchanged. |
| Listing.JsonKeysMembers | analytics/aggregate_anomaly.py:18-19 | A key is kept if and only if it was listed and ends in `.json`. |
| Listing.ListedKeys | analytics/aggregate_anomaly.py:13-23 | A key is returned if and only if some page read lists it and it ends in `.json`. |
| Listing.PagesJsonKeysFilter | analytics/aggregate_anomaly.py:13-23 | Filtering page by page is the same as filtering the concatenated listing. |
| Listing.ListedKeysDistinct | analytics/aggregate_anomaly.py:13-23 | Nothing is deduplicated, yet the returned keys are distinct whenever the pages list each key once. |
| Listing.ListingComplete | analytics/aggregate_anomaly.py:13-23 | When every listed key ends in `.json` and the listing has no repeats, the result is the whole listing and is duplicate-free. |
| Reader.ReadJsonRecords | analytics/aggregate_anomaly.py:26-32 | Objects are fetched in key order at `s3://bucket/key`. The read succeeds if and only if every object loads, and then yields one record per key in order. Otherwise the last object fetched is the first that failed, and nothing after it is fetched. |
| Reader.FromRecords | analytics/aggregate_anomaly.py:33 | The table exists if and only if every record is a JSON object. It then has one row per record, equal to that record's fields, and its columns are exactly the union of the records' field names. |
| Aggregation.Decode | analytics/aggregate_anomaly.py:36-38 | Converting the columns succeeds if and only if `ts`, `device_id`, `temperature` and `humidity` are all columns and every row converts. The result is one reading per row, in order. |
| Aggregation.DecodeRows | analytics/aggregate_anomaly.py:36 | Converting the rows succeeds if and only if each row converts, and the readings are the rows' conversions, position by position. |
| Aggregation.HourOf | analytics/aggregate_anomaly.py:37 | The hour of a reading is a multiple of 3600 seconds and contains its time: `h <= t < h + 3600`. |
| Calendar.HourFloorUnique | analytics/aggregate_anomaly.py:37 | Only one value is hour-aligned with `t` in its hour, so the floor is determined. |
| Calendar.HourFloorFields | analytics/aggregate_anomaly.py:37 | Flooring to the hour keeps the date and hour fields and zeroes the minutes and seconds. |
| Aggregation.GroupKeys | analytics/aggregate_anomaly.py:38 | The group keys are strictly sorted by device and then hour. They are exactly the keys of the readings that have both a device and a time. |
| Aggregation.KeyLessIsStrictTotalOrder | analytics/aggregate_anomaly.py:38 | The sort order of the group keys is a strict total order. |
| Aggregation.HourlyAgg | analytics/aggregate_anomaly.py:38-45 | The rows are strictly sorted by `(device_id, hour)`, so no key repeats. A row exists for a key if and only if some reading has that key. |
| Aggregation.HourlyAggRowStats | analytics/aggregate_anomaly.py:38-44 | For every output row and its key: `count` is the number of readings of the key with a temperature. With none, the three temperature columns are NaN. Otherwise min ≤ avg ≤ max, every temperature of the key lies between min and max, and both are attained by readings of the key. `hum_avg` is NaN if and only if no reading of the key has a humidity. Each mean times the number of its values is their sum. |
| Aggregation.ReadingInExactlyOneRow | analytics/aggregate_anomaly.py:38-44 | A reading with a device and a time has exactly one row. That row's group holds the reading, and no other row's group does. |
| Aggregation.UnkeyedReadingDropped | analytics/aggregate_anomaly.py:38 | A reading whose device or time is missing is in no group. |
| Aggregation.NaTReadingDropped | analytics/aggregate_anomaly.py:36-38 | A row whose `ts` pandas converts to NaT, such as an empty text, decodes to a reading without a time, and that reading is in no group. |
| Aggregation.GroupsPartitionReadings | analytics/aggregate_anomaly.py:38-44 | The groups, taken together, are a permutation of the keyed readings: nothing is lost or counted twice. |
| Aggregation.CountIsNumberOfReadings | analytics/aggregate_anomaly.py:43 | The number of temperatures in a group is the number of readings of that key with a temperature. |
| Aggregation.GroupTemperatureStats | analytics/aggregate_anomaly.py:39-43 | `count` is the number of readings of the key with a temperature. With none, the three statistics are NaN. Otherwise min ≤ avg ≤ max, every temperature of the group lies between min and max, and both min and max are attained by readings of the group. |
| Aggregation.TemperatureBounds | analytics/aggregate_anomaly.py:40-41 | Every temperature of a reading of the key lies between the group's min and max. |
| Aggregation.AttainedBy | analytics/aggregate_anomaly.py:40-41 | Every temperature of a group belongs to some reading of that key. |
| Aggregation.GroupHumidityStats | analytics/aggregate_anomaly.py:42 | `hum_avg` is NaN if and only if no reading of the key has a humidity. |
| Aggregation.GroupMeans | analytics/aggregate_anomaly.py:39-42 | `temp_avg` times the number of temperatures is their sum, and the same holds for `hum_avg` and the humidities. |
| Aggregation.Mean | analytics/aggregate_anomaly.py:39 | The mean exists if and only if the series is non-empty, and it times the length equals the sum. |
| Aggregation.Min | analytics/aggregate_anomaly.py:40 | The minimum is an element of the series and no element is below it. |
| Aggregation.Max | analytics/aggregate_anomaly.py:41 | The maximum is an element of the series and no element is above it. |
| Aggregation.MeanWithinRange | analytics/aggregate_anomaly.py:39-41 | The mean lies between the minimum and the maximum. |
| Aggregation.TemperaturesMembers | analytics/aggregate_anomaly.py:39-41 | The temperatures of a group are exactly the present temperatures of its readings. |
| Aggregation.HumiditiesMembers | analytics/aggregate_anomaly.py:42 | The humidities of a group are exactly the present humidities of its readings. |
| Anomaly.Devices | analytics/aggregate_anomaly.py:50 | The devices are strictly sorted and are exactly the device ids of the aggregate rows. |
| Anomaly.Features | analytics/aggregate_anomaly.py:51 | There is one feature pair `(temp_avg, hum_avg)` per row, in row order. |
| Anomaly.FlagDevice | analytics/aggregate_anomaly.py:51-58 | A device's frame fails if and only if it has at least 10 rows and a NaN feature. On success its rows are kept in order. Below 10 rows no row is flagged. Otherwise row `i` is flagged if and only if the detector predicts -1 for it. |
| Anomaly.Detect | analytics/aggregate_anomaly.py:47-59 | Detection succeeds if and only if there is at least one row and every device's frame succeeds. |
| Anomaly.DetectAnomalies | analytics/aggregate_anomaly.py:47-59 | The loop over the devices, in sorted order, stops at the first frame that raises and concatenates the frames; its result is that of `Detect`. |
| Anomaly.FailureStops | analytics/aggregate_anomaly.py:50-58 | Devices after the first failing frame do not change the outcome. |
| Anomaly.FlagsKeepRows | analytics/aggregate_anomaly.py:53-58 | Flagging a device's frame keeps its rows unchanged and in order. |
| Anomaly.DetectFromRows | analytics/aggregate_anomaly.py:50-59 | The concatenated output rows are the devices' frames, one after the other. |
| Anomaly.DetectKeepsRows | analytics/aggregate_anomaly.py:50-59 | The output is the input regrouped by device: a permutation of the aggregate rows, of the same length. |
| Anomaly.FromOwnFrame | analytics/aggregate_anomaly.py:50-58 | Every output row comes from its own device's frame. |
| Anomaly.AnomalyPolicy | analytics/aggregate_anomaly.py:52-57 | A row of a device with fewer than 10 rows is never flagged. A row of any other device has complete features and is flagged if and only if the detector, run on that device's features, predicts -1 at its position. |
| Anomaly.EmptyTableFails | analytics/aggregate_anomaly.py:59 | With no aggregate rows there is nothing to concatenate, and the step raises. |
| Stamps.DateText | analytics/aggregate_anomaly.py:62 | The date text has 10 characters, `YYYY-MM-DD`, and its fields read back as the year, month and day. |
| Stamps.DateTextInjective | analytics/aggregate_anomaly.py:62 | Different dates give different date texts. |
| Writer.WrittenDates | analytics/aggregate_anomaly.py:62 | The `date` of each written row reads back as the UTC calendar date of its hour. |
| Writer.RowDateOfReadings | analytics/aggregate_anomaly.py:37-62 | The `date` of an aggregate row is the UTC date of every reading it summarises, because flooring to the hour never crosses midnight. |
| Format.RstripSlash | analytics/aggregate_anomaly.py:64 | The result is a prefix of the URI that does not end in `/`, and only `/` characters were removed. |
| Format.RstripSlashUnique | analytics/aggregate_anomaly.py:64 | Only one string has all three properties, so the result is determined. |
| Writer.OutputPathTrailingSlash | analytics/aggregate_anomaly.py:64-68 | A trailing slash on the output URI does not change the path. The path starts with the stripped URI, which ends in no slash, followed by `/run_ts=`. |
| Writer.StampText | analytics/aggregate_anomaly.py:67 | The run stamp has 15 characters: eight digits, `T`, then six digits. These read back as the year, month, day, hour, minute and second. |
| Writer.RunStampInjective | analytics/aggregate_anomaly.py:67 | Runs at different seconds get different stamps. |
| Writer.StampInPath | analytics/aggregate_anomaly.py:68 | The stamp sits in the path right after `run_ts=`, and the path ends with `/aggregates.parquet` right after the stamp. |
| Writer.OutputPathsDistinct | analytics/aggregate_anomaly.py:67-68 | Runs at different seconds write to different paths. |
| Writer.WriteParquet | analytics/aggregate_anomaly.py:61-70 | One object is written at the run's path, with one row per input row in order. Each row keeps its columns and its flag. |
| Pipeline.Run | analytics/aggregate_anomaly.py:80-86 | The run ends with "No data" if and only if the listing has no `.json` key, and then fetches nothing. It writes if and only if every object loads and every later step succeeds, and it then writes exactly the processed table. |
| Pipeline.WrittenTableIsTheAggregates | analytics/aggregate_anomaly.py:83-86 | A run that writes writes the aggregate table of its readings, each row once and regrouped by device, each dated by its hour, at the path of its run time. |
| Calendar.CivilFromDays | lambda/ingest_handler.py:14 | Every epoch day is a valid calendar date whose day number is that day. |
| Calendar.CivilFromDaysOfCivil | lambda/ingest_handler.py:14 | Every valid date is the civil date of its own day number. The conversion is therefore a bijection. |
| Calendar.DaysFromCivilInjective | lambda/ingest_handler.py:14 | Two valid dates with the same day number are equal. |
| Calendar.ToDateTime | lambda/ingest_handler.py:14 | The UTC date-time of an epoch second is valid and counts back to that second. |
| Calendar.ToDateTimeOfEpochSeconds | lambda/ingest_handler.py:14 | Every valid date-time is the UTC date-time of its own epoch second. |
| Calendar.InstantYears | lambda/ingest_handler.py:14 | Every accepted epoch second falls in years 1 to 9999. |
| Calendar.FirstInstant | lambda/ingest_handler.py:14 | The smallest accepted epoch second is 0001-01-01 00:00:00 UTC. |
| Calendar.LastInstant | lambda/ingest_handler.py:14 | The largest accepted epoch second is 9999-12-31 23:59:59 UTC. |
| Calendar.EpochDayIs1970 | lambda/ingest_handler.py:14 | Epoch day 0 is 1970-01-01. |
| Calendar.DaysBeforeYearClosed | lambda/ingest_handler.py:14 | The year-by-year day count equals the closed leap-year formula. |
| Calendar.YearOf | lambda/ingest_handler.py:14 | The year found for a day number contains that day. |
| Ingest.RoundHalfEven | lambda/ingest_handler.py:14 | The result is within one half of the input, and an exact tie goes to the even integer. |
| Ingest.TimestampSecond | lambda/ingest_handler.py:14 | The second of `fromtimestamp` after rounding to microseconds is the unique `s` with `s − 0.0000005 ≤ x < s + 0.9999995`. |
| Ingest.RoundsIntoNextSecond | lambda/ingest_handler.py:14 | `3599.9999996` is rounded into second 3600. |
| Ingest.ReplaceZ | lambda/ingest_handler.py:16 | After the replacement no `Z` is left, and text without `Z` is unchanged. |
| Ingest.ReplaceZChar | lambda/ingest_handler.py:16 | A `Z` becomes `+00:00`, and any other character stays as it is. |
| Ingest.ReplaceZAppend | lambda/ingest_handler.py:16 | Replacing in a concatenation is the concatenation of the replaced parts, so with `ReplaceZChar` the replacement works character by character. |
| Ingest.KeyTime | lambda/ingest_handler.py:10-18 | An absent or falsy `ts` gives the clock's time. An epoch `ts` that `fromtimestamp` accepts gives that instant. Otherwise a string `ts` that `fromisoformat` accepts after the `Z` replacement gives the date-time it parses. The step raises if and only if `ts` is truthy, not an accepted epoch, and either not a string or a string `fromisoformat` rejects. |
| Ingest.PartitionedKey | lambda/ingest_handler.py:8-26 | A key is built if and only if the time of the reading can be determined. |
| Ingest.NumericTsKey | lambda/ingest_handler.py:10-14 | A non-zero integer epoch `ts` puts the reading under that instant's UTC date and hour. |
| Ingest.FloatTsKey | lambda/ingest_handler.py:10-14 | A non-zero float epoch `ts` whose rounded second is in range puts the reading under that second's UTC date and hour. |
| Ingest.ClockAndDefaultDevice | lambda/ingest_handler.py:10-20 | An absent or falsy `ts` puts the reading under the clock's hour. A missing `device_id` is written as `unknown`. |
| Ingest.ParseKeyText | lambda/ingest_handler.py:21-26 | The key reads back as the year, month, day and hour of the reading, its device and the UUID. |
| Ingest.KeyTextInjective | lambda/ingest_handler.py:21-26 | Keys built from different hours, devices or UUIDs of one length differ. |
| Ingest.KeyIsListed | lambda/ingest_handler.py:26 | Every key starts with `raw/` and ends in `.json`, so the batch job's default listing reads it. |
| Ingest.KeyHourIsAggregateHour | lambda/ingest_handler.py:21-24 | Flooring an instant to its UTC hour does not change the key built from it. |
| Ingest.IsoText | lambda/ingest_handler.py:49 | The clock's text is 25 characters long with no `Z`. It is the `YYYY-MM-DD` date, `T`, then two-digit hour, minute and second separated by `:`, then `+00:00`. The fields read back as the date-time's. |
| Ingest.FirstMissing | lambda/ingest_handler.py:43-45 | The check passes if and only if every required name is found. Otherwise it reports the first name not found, after all earlier ones were found, or raises on the first test when the payload is not iterable. |
| Ingest.FirstMissingAt | lambda/ingest_handler.py:43-45 | A check that passes the first `i` names and stops at name `i` reports name `i`. |
| Ingest.WithTs | lambda/ingest_handler.py:48-49 | Adding `ts` keeps every field and adds only `ts`, set to the clock's text when it was absent. |
| Ingest.Handler | lambda/ingest_handler.py:28-60 | The handler's early returns, check loop and in-place `ts` update give exactly the outcome of `Handle`. |
| Ingest.ResponsesAndStores | lambda/ingest_handler.py:28-60 | Every returned response is 200 or 400. A 400 stores nothing. A 200 stores one object in the bucket as `application/json` and reports its key with `ok: true`. |
| Ingest.NoBody | lambda/ingest_handler.py:30-31 | An event without a body is answered 400 "Missing body". |
| Ingest.BodyParsing | lambda/ingest_handler.py:33-40 | A string body that does not parse is answered 400 "Invalid JSON: ..." with the parser's message. A body that is not a string is the payload as it is. |
| Ingest.FirstMissingField | lambda/ingest_handler.py:43-45 | When the first `i` required fields are present and field `i` is not, the answer is 400 naming field `i`, and nothing is stored. |
| Ingest.AcceptedPut | lambda/ingest_handler.py:51-60 | A 200 comes from a parsed dict payload that passed the check. What it stores is that payload with `ts` filled in, under its partition key. |
| Ingest.DictStored | lambda/ingest_handler.py:43-60 | Conversely, a parsed dict holding every required field whose key can be built is stored under that key and answered 200. |
| Ingest.RequiredFound | lambda/ingest_handler.py:43-45 | A dict that passes the check holds every required field. |
| Ingest.RequiredChecked | lambda/ingest_handler.py:43-45 | A dict holding every required field passes the check. |
| Ingest.StoredPayload | lambda/ingest_handler.py:43-58 | A 200 stores the payload with every field unchanged, every required field present, and `ts` added from the clock only when absent. |
| Ingest.StoredKey | lambda/ingest_handler.py:51-60 | The key of a 200 starts with `raw/`, ends in `.json`, and reads back as the partition of the stored `ts`, the stored device and the UUID. |
| Ingest.DeviceKept | lambda/ingest_handler.py:48-49 | Filling in `ts` leaves the device text unchanged. |
| Ingest.ClockTsKey | lambda/ingest_handler.py:14-16 | A `ts` holding the clock's `isoformat` text keys the reading by the clock's hour. |
| Ingest.ServerTimestamp | lambda/ingest_handler.py:47-51 | A reading sent without `ts` is stored under the hour of the clock reading. |

## Left out

- The storage service is a parameter. A listing is a given sequence of pages, an object read is a `load` function and the write is a returned value. Network and permission failures of `list_objects_v2` and `put_object` are not modelled, and neither is a failed write in `write_parquet`.
- `Listing.ListObjects` requires the listing to end with a non-truncated page. A listing that stays truncated forever makes the source loop forever, and that case is not modelled.
- JSON text, `json.dumps` serialisation and key order, the UTF-8 encoding of the stored body, and the Parquet encoding are left out. Bodies are decoded `Json` values and the table is a sequence of rows.
- `print("Wrote:", path)`, the exit status of `SystemExit` and `argparse` are left out. The main block's arguments are parameters, and `NoData` stands for the exit message.
- IsolationForest is an arbitrary `Predictor` function on the feature matrix. Its fitting, its fixed hyperparameters and its determinism are not modelled. The policy around it is modelled.
- Floating point is modelled as exact reals. NaN and NaT are `None`, and infinities are not modelled. Means are exact quotients, not rounded floats.
- `Aggregation.Decode` rejects a non-string `device_id` and a non-numeric `temperature` or `humidity`. pandas would keep or coerce some of these.
- `Reader.FromRecords` rejects records that are not JSON objects. pandas accepts some of those, such as lists.
- `pd.to_datetime` is the parameter `toDatetime`. It gives a whole epoch second, NaT (`Success(None)`) or an exception. pandas reads a numeric `ts` as nanoseconds, and its exact text parsing is not modelled.
- Time is kept in whole seconds. `fromtimestamp` rounds the time to microseconds, ties to even, and the model keeps the second that rounded time falls in (`Ingest.TimestampSecond`). The microseconds themselves are dropped, which the key does not need. The microseconds that `datetime.now().isoformat()` and `utcnow()` carry are not modelled, so `Ingest.IsoText` is always the 25-character form.
- The ingest key and the batch job's hour are not tied together. `Ingest.KeyHourIsAggregateHour` states only that flooring an instant to its hour keeps its key. The stored `ts` is read by the batch job through `pd.to_datetime` (the parameter `toDatetime`), which disagrees with the ingest function in three cases. A numeric `ts` is read as nanoseconds, so `ts=1700000000` is keyed under 2023-11-14 hour 22 but aggregated under 1970-01-01 hour 00. An ISO `ts` with a non-UTC offset is keyed by its wall-clock fields but floored in UTC. A falsy `ts` is keyed by the clock, while the batch job drops a null `ts` and any `ts` it converts to NaT, such as an empty text (`Aggregation.NaTReadingDropped`), and reads `0` as 1970.
- `Ingest.ClockTsKey` and `Ingest.ServerTimestamp` assume two things about Python's libraries. First, `float` rejects the `isoformat` text. Second, `fromisoformat` reads that text back as the clock's time. Both hold in CPython, but the model takes them as hypotheses.
- `datetime.fromisoformat`, `float` on strings, `json.loads` and `str` of a non-string value are the parameter `Library`. Their parsing is not modelled.
- The clock, `uuid.uuid4().hex` and the `BUCKET_NAME` environment variable are parameters.
- `Ingest.KeyText` and `Writer.StampText` always pad the year to four digits. The C library `strftime` on Linux writes years below 1000 without padding for `%Y`, and that variant is not modelled.
- The `context` argument of the handler is unused in the source and is left out.
