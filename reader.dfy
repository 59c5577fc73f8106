/** `read_json_records`: fetching and parsing every listed object in order,
    then building the table. `load` stands for `fs.open` followed by
    `json.load`: the parsed document or the text of the exception raised. */
module Reader {
  import opened Wrappers
  import opened Json

  /** `f"s3://{bucket}/{k}"`. */
  function ObjectUri(bucket: string, key: string): string
  {
    "s3://" + bucket + "/" + key
  }

  /** Loads each key in order, one record per key. The first object that
      fails to load aborts the whole read; no later object is fetched. */
  method ReadJsonRecords(bucket: string, keys: seq<string>, load: string -> Result<Json, string>)
    returns (records: Result<seq<Json>, string>, fetched: seq<string>)
    ensures |fetched| <= |keys|
    ensures forall i :: 0 <= i < |fetched| ==> fetched[i] == ObjectUri(bucket, keys[i])
    ensures records.Success? <==> forall i :: 0 <= i < |keys| ==> load(ObjectUri(bucket, keys[i])).Success?
    ensures records.Success? ==>
              |fetched| == |keys| && |records.value| == |keys| &&
              forall i :: 0 <= i < |keys| ==> records.value[i] == load(fetched[i]).value
    ensures records.Failure? ==>
              fetched != [] && load(fetched[|fetched| - 1]) == Failure(records.error) &&
              forall i :: 0 <= i < |fetched| - 1 ==> load(fetched[i]).Success?
  {
    var values: seq<Json> := [];
    fetched := [];
    for i := 0 to |keys|
      invariant |fetched| == |values| == i
      invariant forall j :: 0 <= j < i ==> fetched[j] == ObjectUri(bucket, keys[j])
      invariant forall j :: 0 <= j < i ==> load(fetched[j]).Success? && values[j] == load(fetched[j]).value
    {
      var uri := ObjectUri(bucket, keys[i]);
      fetched := fetched + [uri];
      var rec := load(uri);
      if rec.Failure? {
        return Failure(rec.error), fetched;
      }
      values := values + [rec.value];
    }
    records := Success(values);
  }

  /** The columns of a `DataFrame` built from records and its rows; a row has
      no entry for a column its record lacks (pandas fills NaN). */
  datatype Table = Table(columns: set<string>, rows: seq<map<string, Json>>)

  /** Every field name that occurs in some record. */
  function Columns(rows: seq<map<string, Json>>): (cs: set<string>)
    ensures forall c :: c in cs <==> exists i :: 0 <= i < |rows| && c in rows[i]
  {
    if rows == [] then {}
    else
      var rest := rows[1..];
      var cs := Columns(rest) + rows[0].Keys;
      assert forall i :: 0 <= i < |rest| ==> rest[i] == rows[i + 1];
      cs
  }

  /** `pd.DataFrame.from_records`: one row per record, the columns the union
      of the records' fields. Only JSON objects are accepted as records. */
  function FromRecords(records: seq<Json>): (t: Result<Table, string>)
    ensures t.Success? <==> forall i :: 0 <= i < |records| ==> records[i].JObj?
    ensures t.Success? ==>
              |t.value.rows| == |records| &&
              (forall i :: 0 <= i < |records| ==> t.value.rows[i] == records[i].fields) &&
              forall c :: c in t.value.columns <==> exists i :: 0 <= i < |records| && c in records[i].fields
  {
    if forall i :: 0 <= i < |records| ==> records[i].JObj? then
      var rows := seq(|records|, i requires 0 <= i < |records| => records[i].fields);
      Success(Table(Columns(rows), rows))
    else
      Failure("records must be JSON objects")
  }
}
