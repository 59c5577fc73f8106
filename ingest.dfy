/** The ingest function behind the HTTP endpoint (`handler`) and the object
    key it stores a reading under (`_partitioned_key`). The storage service,
    the clock, the UUID generator and the `json`, `float` and
    `datetime.fromisoformat` library calls are parameters. */
module Ingest {
  import opened Wrappers
  import opened Json
  import opened Format
  import opened Calendar
  import opened Stamps
  import opened Listing
  import opened Aggregation

  /** The library calls the handler makes, as they behave on their inputs:
      `json.loads` (a `Failure` carries the text of the exception), `float`
      on a string (`None` when it raises or gives a non-finite number),
      `datetime.fromisoformat` (`None` when it raises; otherwise the
      wall-clock fields of the parsed date-time, in whatever offset the text
      names) and `str` of a value that is not a string. */
  datatype Library = Library(
    loads: string -> Result<Json, string>,
    toFloat: string -> Option<real>,
    fromIso: string -> Option<CivilTime>,
    repr: Json -> string)

  /** The fields the handler requires, in the order it checks them. */
  const Required: seq<string> := ["device_id", "temperature", "humidity"]

  const DefaultDevice: string := "unknown"
  const KeyPrefix: string := "raw/"
  const ContentType: string := "application/json"
  const MissingBody: string := "Missing body"

  // ---------------------------------------------------------------------------
  // The time of a reading

  predicate NoZ(s: string)
  {
    forall i :: 0 <= i < |s| ==> s[i] != 'Z'
  }

  lemma NoZAppend(a: string, b: string)
    requires NoZ(a) && NoZ(b)
    ensures NoZ(a + b)
  {
    assert forall i :: |a| <= i < |a + b| ==> (a + b)[i] == b[i - |a|];
  }

  /** `s.replace("Z", "+00:00")`. */
  function ReplaceZ(s: string): (r: string)
    ensures NoZ(r)
    ensures NoZ(s) ==> r == s
  {
    if s == [] then []
    else (if s[0] == 'Z' then "+00:00" else [s[0]]) + ReplaceZ(s[1..])
  }

  /** The replacement works character by character: a 'Z' becomes "+00:00"
      and every other character stays. */
  lemma ReplaceZChar(c: char)
    ensures ReplaceZ([c]) == if c == 'Z' then "+00:00" else [c]
  {
    assert [c][1..] == [];
  }

  /** Replacing in a concatenation replaces in each part. */
  lemma {:induction false} ReplaceZAppend(a: string, b: string)
    ensures ReplaceZ(a + b) == ReplaceZ(a) + ReplaceZ(b)
  {
    if a != [] {
      assert (a + b)[1..] == a[1..] + b;
      ReplaceZAppend(a[1..], b);
    } else {
      assert a + b == b;
    }
  }

  /** An epoch second `datetime.fromtimestamp` accepts. */
  function InRange(x: int): Option<Instant>
  {
    if MinInstant <= x <= MaxInstant then Some(x) else None
  }

  /** Python's rounding of a real to an integer: the nearest one, ties to
      the even one. */
  function RoundHalfEven(y: real): (r: int)
    ensures r as real - 0.5 <= y <= r as real + 0.5
    ensures (y - r as real == 0.5 || r as real - y == 0.5) ==> r % 2 == 0
  {
    var fl := y.Floor;
    var d := y - fl as real;
    if d < 0.5 then fl
    else if d > 0.5 then fl + 1
    else if fl % 2 == 0 then fl
    else fl + 1
  }

  /** The whole second of `datetime.fromtimestamp(x)`: the time is rounded
      to whole microseconds, ties to even, and the second is the one that
      rounded time falls in. So `x` lies in the half-open interval from half
      a microsecond before `s` to half a microsecond before `s + 1`. */
  function TimestampSecond(x: real): (s: int)
    ensures s as real - 0.0000005 <= x < s as real + 0.9999995
  {
    SecondOfMicros(x);
    RoundHalfEven(x * 1000000.0) / 1000000
  }

  /** A time less than half a microsecond below a whole second already
      falls in that second. */
  lemma RoundsIntoNextSecond()
    ensures TimestampSecond(3599.9999996) == 3600
  {
    var s := TimestampSecond(3599.9999996);
    assert 3599.0000001 < s as real < 3600.0000001;
  }

  lemma SecondOfMicros(x: real)
    ensures var s := RoundHalfEven(x * 1000000.0) / 1000000;
            s as real - 0.0000005 <= x < s as real + 0.9999995
  {
    var y := x * 1000000.0;
    var r := RoundHalfEven(y);
    var s := r / 1000000;
    var m := r % 1000000;
    assert r == 2 * (s * 500000) + m;
    assert m == 999999 ==> r % 2 == 1;
    var sr := s as real;
    assert (s * 1000000) as real == sr * 1000000.0;
    assert r as real == sr * 1000000.0 + m as real;
    assert sr * 1000000.0 - 0.5 <= y < sr * 1000000.0 + 999999.5;
  }

  /** `datetime.fromtimestamp(float(ts), tz=timezone.utc)` when neither call
      raises: the whole epoch second of the instant, or `None`. */
  function FromTimestamp(ts: Json, lib: Library): Option<Instant>
  {
    match ts
    case JInt(i) => InRange(i)
    case JFloat(f) => InRange(TimestampSecond(f))
    case JBool(b) => Some(if b then 1 else 0)
    case JStr(s) =>
      (match lib.toFloat(s)
       case Some(x) => InRange(TimestampSecond(x))
       case None => None)
    case _ => None
  }

  const IsoError: string := "ValueError: Invalid isoformat string"
  const ReplaceError: string := "AttributeError: object has no attribute 'replace'"

  /** The date-time `_partitioned_key` formats (lines 10-18): the clock
      when `ts` is absent or falsy; otherwise the UTC date-time of `ts` read
      as epoch seconds, or failing that `ts` read as an ISO-8601 string with
      a trailing `Z` accepted. A `ts` that is neither raises. */
  function KeyTime(ts: Option<Json>, now: Instant, lib: Library): (r: Result<CivilTime, string>)
    ensures ts.None? || !Truthy(ts.value) ==> r == Success(CivilOf(now))
    ensures ts.Some? && Truthy(ts.value) && FromTimestamp(ts.value, lib).Some? ==>
              r == Success(CivilOf(FromTimestamp(ts.value, lib).value))
    ensures ts.Some? && Truthy(ts.value) && FromTimestamp(ts.value, lib).None? && ts.value.JStr? &&
            lib.fromIso(ReplaceZ(ts.value.s)).Some? ==>
              r == Success(lib.fromIso(ReplaceZ(ts.value.s)).value)
    ensures r.Failure? <==>
              ts.Some? && Truthy(ts.value) && FromTimestamp(ts.value, lib).None? &&
              (ts.value.JStr? ==> lib.fromIso(ReplaceZ(ts.value.s)).None?)
  {
    if ts.None? || !Truthy(ts.value) then Success(CivilOf(now))
    else match FromTimestamp(ts.value, lib)
      case Some(t) => Success(CivilOf(t))
      case None =>
        match ts.value
        case JStr(s) =>
          (match lib.fromIso(ReplaceZ(s))
           case Some(dt) => Success(dt)
           case None => Failure(IsoError))
        case _ => Failure(ReplaceError)
  }

  // ---------------------------------------------------------------------------
  // The partition key

  /** The device text of the key: the text of `device_id`, or "unknown" when
      the field is absent. */
  function DeviceText(evt: map<string, Json>, lib: Library): string
  {
    if "device_id" !in evt then DefaultDevice
    else match evt["device_id"]
      case JStr(s) => s
      case v => lib.repr(v)
  }

  /** "raw/year=YYYY/month=MM/day=DD/hour=HH": 37 characters, the four
      fields zero-padded and reading back as the date and the hour. */
  function KeyHead(dt: CivilTime): (h: string)
    ensures |h| == 37
    ensures h[..9] == "raw/year=" && h[13..20] == "/month=" && h[22..27] == "/day=" && h[29..35] == "/hour="
    ensures AllDigits(h[9..13]) && AllDigits(h[20..22]) && AllDigits(h[27..29]) && AllDigits(h[35..37])
    ensures Value(h[9..13]) == dt.date.year && Value(h[20..22]) == dt.date.month
    ensures Value(h[27..29]) == dt.date.day && Value(h[35..37]) == dt.hour
  {
    FixedField(dt.date.year, 4);
    FixedField(dt.date.month, 2);
    FixedField(dt.date.day, 2);
    FixedField(dt.hour, 2);
    var y, m, d, hh := Pad(dt.date.year, 4), Pad(dt.date.month, 2), Pad(dt.date.day, 2), Pad(dt.hour, 2);
    HeadSlices(y, m, d, hh);
    "raw/year=" + y + "/month=" + m + "/day=" + d + "/hour=" + hh
  }

  lemma HeadSlices(y: string, m: string, d: string, hh: string)
    requires |y| == 4 && |m| == 2 && |d| == 2 && |hh| == 2
    ensures var h := "raw/year=" + y + "/month=" + m + "/day=" + d + "/hour=" + hh;
            && |h| == 37
            && h[..9] == "raw/year=" && h[9..13] == y && h[13..20] == "/month=" && h[20..22] == m
            && h[22..27] == "/day=" && h[27..29] == d && h[29..35] == "/hour=" && h[35..37] == hh
  {
  }

  /** The key of line 26. */
  function KeyText(dt: CivilTime, device: string, uid: string): string
  {
    KeyHead(dt) + "/device_id=" + device + "/event_" + uid + ".json"
  }

  /** `_partitioned_key(evt)` with the clock reading `now` and the hex UUID
      `uid`. */
  function PartitionedKey(evt: map<string, Json>, now: Instant, uid: string, lib: Library): (r: Result<string, string>)
    ensures r.Success? <==> KeyTime(if "ts" in evt then Some(evt["ts"]) else None, now, lib).Success?
  {
    match KeyTime(if "ts" in evt then Some(evt["ts"]) else None, now, lib)
    case Failure(e) => Failure(e)
    case Success(dt) => Success(KeyText(dt, DeviceText(evt, lib), uid))
  }

  /** The fields a partition key carries. */
  datatype KeyFields = KeyFields(year: nat, month: nat, day: nat, hour: nat, device: string, uid: string)

  /** Reads a key of the shape of line 26 back into its fields, given the
      length of the UUID. */
  function ParseKey(key: string, uidLen: nat): Option<KeyFields>
  {
    var n := |key|;
    if n < 60 + uidLen then None
    else
      var h := key[..37];
      var devEnd := n - (12 + uidLen);
      if && h[..9] == "raw/year=" && h[13..20] == "/month=" && h[22..27] == "/day=" && h[29..35] == "/hour="
         && AllDigits(h[9..13]) && AllDigits(h[20..22]) && AllDigits(h[27..29]) && AllDigits(h[35..37])
         && key[37..48] == "/device_id=" && key[devEnd..devEnd + 7] == "/event_" && key[n - 5..] == ".json"
      then Some(KeyFields(Value(h[9..13]), Value(h[20..22]), Value(h[27..29]), Value(h[35..37]),
                          key[48..devEnd], key[devEnd + 7..n - 5]))
      else None
  }

  lemma KeySlices(head: string, device: string, uid: string)
    requires |head| == 37
    ensures var key := head + "/device_id=" + device + "/event_" + uid + ".json";
            var n, devEnd := |key|, |key| - (12 + |uid|);
            && n == 60 + |device| + |uid| && devEnd == 48 + |device|
            && key[..37] == head && key[37..48] == "/device_id=" && key[48..devEnd] == device
            && key[devEnd..devEnd + 7] == "/event_" && key[devEnd + 7..n - 5] == uid && key[n - 5..] == ".json"
  {
  }

  /** The key reads back as the year, month, day and hour of `dt`, the
      device and the UUID it was built from. */
  lemma ParseKeyText(dt: CivilTime, device: string, uid: string)
    ensures ParseKey(KeyText(dt, device, uid), |uid|)
         == Some(KeyFields(dt.date.year, dt.date.month, dt.date.day, dt.hour, device, uid))
  {
    KeySlices(KeyHead(dt), device, uid);
  }

  /** Two keys built from different hours, devices or UUIDs (of one length)
      differ. */
  lemma KeyTextInjective(a: CivilTime, b: CivilTime, d1: string, d2: string, u1: string, u2: string)
    requires |u1| == |u2| && KeyText(a, d1, u1) == KeyText(b, d2, u2)
    ensures a.date == b.date && a.hour == b.hour && d1 == d2 && u1 == u2
  {
    ParseKeyText(a, d1, u1);
    ParseKeyText(b, d2, u2);
  }

  /** Every key lies under "raw/" and ends in ".json", so the batch job,
      listing its default prefix, reads it. */
  lemma KeyIsListed(dt: CivilTime, device: string, uid: string)
    ensures var key := KeyText(dt, device, uid);
            key[..|KeyPrefix|] == KeyPrefix && JsonKeys([key]) == [key]
  {
    var key := KeyText(dt, device, uid);
    KeySlices(KeyHead(dt), device, uid);
    assert EndsWith(key, JsonSuffix);
    assert JsonKeys([key]) == JsonKeys([]) + [key];
  }

  /** An integer epoch `ts` other than 0 puts the reading under the UTC
      date and hour of that instant. */
  lemma NumericTsKey(evt: map<string, Json>, t: Instant, now: Instant, uid: string, lib: Library)
    requires "ts" in evt && evt["ts"] == JInt(t) && t != 0
    ensures PartitionedKey(evt, now, uid, lib) == Success(KeyText(CivilOf(t), DeviceText(evt, lib), uid))
  {
  }

  /** A float epoch `ts` other than 0 whose rounded second `datetime`
      accepts puts the reading under the UTC date and hour of that second. */
  lemma FloatTsKey(evt: map<string, Json>, f: real, now: Instant, uid: string, lib: Library)
    requires "ts" in evt && evt["ts"] == JFloat(f) && f != 0.0
    requires MinInstant <= TimestampSecond(f) <= MaxInstant
    ensures PartitionedKey(evt, now, uid, lib) == Success(KeyText(CivilOf(TimestampSecond(f)), DeviceText(evt, lib), uid))
  {
  }

  /** Flooring an instant to the start of its UTC hour does not change the
      key built from it. */
  lemma KeyHourIsAggregateHour(t: Instant, device: string, uid: string)
    ensures KeyText(CivilOf(t), device, uid) == KeyText(CivilOf(HourOf(t)), device, uid)
  {
    HourFloorFields(t);
    SameKeyHead(CivilOf(t), CivilOf(HourOf(t)));
  }

  lemma SameKeyHead(a: CivilTime, b: CivilTime)
    requires a.date == b.date && a.hour == b.hour
    ensures KeyHead(a) == KeyHead(b)
  {
  }

  /** An absent or falsy `ts` uses the clock; a missing `device_id` is
      "unknown". */
  lemma ClockAndDefaultDevice(evt: map<string, Json>, now: Instant, uid: string, lib: Library)
    requires "ts" !in evt || !Truthy(evt["ts"])
    ensures PartitionedKey(evt, now, uid, lib) == Success(KeyText(CivilOf(now), DeviceText(evt, lib), uid))
    ensures "device_id" !in evt ==> DeviceText(evt, lib) == DefaultDevice
  {
  }

  // ---------------------------------------------------------------------------
  // The handler

  /** `datetime.now(tz=timezone.utc).isoformat()` at a whole second: the
      `isoformat` text of the clock's UTC date-time. */
  function IsoFormat(now: Instant): string
  {
    IsoText(CivilOf(now))
  }

  /** The `isoformat` text of a UTC date-time: the date, 'T', the hour,
      minute and second as two digits each separated by ':', then the UTC
      offset "+00:00". */
  function IsoText(dt: CivilTime): (s: string)
    ensures |s| == 25 && NoZ(s)
    ensures s[..10] == DateText(DateOf(dt)) && s[10] == 'T' && s[13] == ':' && s[16] == ':' && s[19..] == "+00:00"
    ensures AllDigits(s[11..13]) && AllDigits(s[14..16]) && AllDigits(s[17..19])
    ensures Value(s[11..13]) == dt.hour && Value(s[14..16]) == dt.minute && Value(s[17..19]) == dt.second
  {
    FixedField(dt.hour, 2);
    FixedField(dt.minute, 2);
    FixedField(dt.second, 2);
    var date := DateText(DateOf(dt));
    var h, m, sec := Pad(dt.hour, 2), Pad(dt.minute, 2), Pad(dt.second, 2);
    DateNoZ(date);
    IsoSlices(date, h, m, sec);
    IsoNoZ(date, h, m, sec);
    date + "T" + h + ":" + m + ":" + sec + "+00:00"
  }

  lemma IsoSlices(date: string, h: string, m: string, sec: string)
    requires |date| == 10 && |h| == 2 && |m| == 2 && |sec| == 2
    ensures var s := date + "T" + h + ":" + m + ":" + sec + "+00:00";
            && |s| == 25 && s[..10] == date && s[10] == 'T' && s[11..13] == h && s[13] == ':'
            && s[14..16] == m && s[16] == ':' && s[17..19] == sec && s[19..] == "+00:00"
  {
  }

  lemma IsoNoZ(date: string, h: string, m: string, sec: string)
    requires NoZ(date) && AllDigits(h) && AllDigits(m) && AllDigits(sec)
    ensures NoZ(date + "T" + h + ":" + m + ":" + sec + "+00:00")
  {
    NoZAppend(date, "T");
    NoZAppend(date + "T", h);
    NoZAppend(date + "T" + h, ":");
    NoZAppend(date + "T" + h + ":", m);
    NoZAppend(date + "T" + h + ":" + m, ":");
    NoZAppend(date + "T" + h + ":" + m + ":", sec);
    NoZAppend(date + "T" + h + ":" + m + ":" + sec, "+00:00");
  }

  lemma DateNoZ(date: string)
    requires |date| == 10 && date[4] == '-' && date[7] == '-'
    requires AllDigits(date[..4]) && AllDigits(date[5..7]) && AllDigits(date[8..])
    ensures NoZ(date)
  {
    forall i | 0 <= i < |date| ensures date[i] != 'Z' {
      if i < 4 {
        assert date[..4][i] == date[i];
      } else if 5 <= i < 7 {
        assert date[5..7][i - 5] == date[i];
      } else if 8 <= i {
        assert date[8..][i - 8] == date[i];
      }
    }
  }

  /** `s` occurs in `text` at position `i`. */
  predicate OccursAt(s: string, text: string, i: int)
  {
    0 <= i <= |text| - |s| && text[i..i + |s|] == s
  }

  /** `s in text` for strings. */
  predicate Substring(s: string, text: string)
  {
    exists i :: 0 <= i <= |text| - |s| && OccursAt(s, text, i)
  }

  const NotIterableError: string := "TypeError: argument is not iterable"

  /** `k in payload`: a key of a dict, an element of a list, a substring of
      a string; any other value raises. */
  function Contains(payload: Json, k: string): Result<bool, string>
  {
    match payload
    case JObj(fields) => Success(k in fields)
    case JArr(items) => Success(JStr(k) in items)
    case JStr(s) => Success(Substring(k, s))
    case _ => Failure(NotIterableError)
  }

  /** The outcome of the check loop of lines 43-45. */
  datatype Check = AllPresent | Missing(key: string) | CheckRaised(error: string)

  /** The first of `keys` the payload lacks, checked in order. */
  function FirstMissing(payload: Json, keys: seq<string>): (c: Check)
    ensures c.AllPresent? <==> forall i :: 0 <= i < |keys| ==> Contains(payload, keys[i]) == Success(true)
    ensures c.Missing? ==>
              exists i :: 0 <= i < |keys| && keys[i] == c.key && Contains(payload, keys[i]) == Success(false) &&
                forall j :: 0 <= j < i ==> Contains(payload, keys[j]) == Success(true)
    ensures c.CheckRaised? ==> keys != [] && Contains(payload, keys[0]).Failure?
  {
    if keys == [] then AllPresent
    else match Contains(payload, keys[0])
      case Failure(e) => CheckRaised(e)
      case Success(false) => Missing(keys[0])
      case Success(true) =>
        var rest := FirstMissing(payload, keys[1..]);
        assert forall i :: 1 <= i < |keys| ==> keys[i] == keys[1..][i - 1];
        if rest.Missing? then
          var i :| 0 <= i < |keys[1..]| && keys[1..][i] == rest.key && Contains(payload, keys[1..][i]) == Success(false) &&
                   forall j :: 0 <= j < i ==> Contains(payload, keys[1..][j]) == Success(true);
          assert forall j :: 0 <= j < i + 1 ==> Contains(payload, keys[j]) == Success(true) by {
            forall j | 0 <= j < i + 1 ensures Contains(payload, keys[j]) == Success(true) {
              if j > 0 {
                assert keys[j] == keys[1..][j - 1];
              }
            }
          }
          rest
        else if rest.CheckRaised? then
          CheckRaised(NotIterableError)
        else rest
  }

  /** The response body: plain text, or the JSON document `json.dumps`
      serialises. */
  datatype Body = Text(text: string) | Document(doc: Json)

  datatype Response = Response(statusCode: int, body: Body)

  /** One `put_object` call. */
  datatype Put = Put(bucket: string, key: string, body: Json, contentType: string)

  /** A returned response, with the object stored before it if any, or an
      exception that escapes the handler. */
  datatype Outcome = Returned(response: Response, stored: Option<Put>) | Raised(error: string)

  /** The payload of lines 34-38: a string body parsed as JSON, any other
      body as it is. */
  function Payload(body: Json, lib: Library): Result<Json, string>
  {
    if body.JStr? then lib.loads(body.s) else Success(body)
  }

  /** What reading or adding `ts` does to a payload that is not a dict: a
      list or string has no `get`, nor item assignment by a string. */
  function NonDictError(payload: Json): string
  {
    if Contains(payload, "ts") == Success(true) then "AttributeError: object has no attribute 'get'"
    else "TypeError: object does not support item assignment"
  }

  /** The payload with `ts` set to the clock's text `stamp` when it has
      none (lines 48-49). */
  function WithTs(fields: map<string, Json>, stamp: string): (r: map<string, Json>)
    ensures r.Keys == fields.Keys + {"ts"}
    ensures forall k :: k in fields ==> r[k] == fields[k]
    ensures "ts" !in fields ==> r["ts"] == JStr(stamp)
  {
    if "ts" in fields then fields else fields["ts" := JStr(stamp)]
  }

  function Accepted(key: string): Json
  {
    JObj(map["ok" := JBool(true), "s3_key" := JStr(key)])
  }

  /** `handler(event, context)` with the storage bucket `bucket`, the clock
      reading `now` and the UUID `uid`. */
  function Handle(event: map<string, Json>, bucket: string, now: Instant, uid: string, lib: Library): Outcome
  {
    if "body" !in event then Returned(Response(400, Text(MissingBody)), None)
    else match Payload(event["body"], lib)
      case Failure(e) => Returned(Response(400, Text("Invalid JSON: " + e)), None)
      case Success(payload) =>
        match FirstMissing(payload, Required)
        case CheckRaised(e) => Raised(e)
        case Missing(k) => Returned(Response(400, Text("Missing '" + k + "'")), None)
        case AllPresent =>
          if !payload.JObj? then Raised(NonDictError(payload))
          else
            var fields := WithTs(payload.fields, IsoFormat(now));
            match PartitionedKey(fields, now, uid, lib)
            case Failure(e) => Raised(e)
            case Success(key) =>
              Returned(Response(200, Document(Accepted(key))), Some(Put(bucket, key, JObj(fields), ContentType)))
  }

  /** A check that passes the first `i` keys and stops at key `i` is the
      first missing or raising key. */
  lemma {:induction false} FirstMissingAt(payload: Json, keys: seq<string>, i: int)
    requires 0 <= i < |keys|
    requires forall j :: 0 <= j < i ==> Contains(payload, keys[j]) == Success(true)
    ensures Contains(payload, keys[i]) == Success(false) ==> FirstMissing(payload, keys) == Missing(keys[i])
    ensures Contains(payload, keys[i]).Failure? ==> FirstMissing(payload, keys) == CheckRaised(Contains(payload, keys[i]).error)
  {
    if i > 0 {
      assert Contains(payload, keys[0]) == Success(true);
      assert forall j :: 0 <= j < i - 1 ==> keys[1..][j] == keys[j + 1];
      FirstMissingAt(payload, keys[1..], i - 1);
    }
  }

  /** The handler (lines 28-60): early returns in the order of the source,
      the check loop over the required fields, `ts` filled in in place. */
  method Handler(event: map<string, Json>, bucket: string, now: Instant, uid: string, lib: Library)
    returns (outcome: Outcome)
    ensures outcome == Handle(event, bucket, now, uid, lib)
  {
    if "body" !in event {
      return Returned(Response(400, Text(MissingBody)), None);
    }
    var body := event["body"];
    var payload: Json;
    if body.JStr? {
      var parsed := lib.loads(body.s);
      if parsed.Failure? {
        return Returned(Response(400, Text("Invalid JSON: " + parsed.error)), None);
      }
      payload := parsed.value;
    } else {
      payload := body;
    }
    for i := 0 to |Required|
      invariant forall j :: 0 <= j < i ==> Contains(payload, Required[j]) == Success(true)
    {
      var k := Required[i];
      var present := Contains(payload, k);
      if present.Failure? {
        FirstMissingAt(payload, Required, i);
        return Raised(present.error);
      }
      if !present.value {
        FirstMissingAt(payload, Required, i);
        return Returned(Response(400, Text("Missing '" + k + "'")), None);
      }
    }
    if !payload.JObj? {
      return Raised(NonDictError(payload));
    }
    var fields := payload.fields;
    if "ts" !in fields {
      fields := fields["ts" := JStr(IsoFormat(now))];
    }
    var key := PartitionedKey(fields, now, uid, lib);
    if key.Failure? {
      return Raised(key.error);
    }
    var put := Put(bucket, key.value, JObj(fields), ContentType);
    return Returned(Response(200, Document(Accepted(key.value))), Some(put));
  }

  /** Every returned response is 200 or 400; a 400 stores nothing; a 200
      stores one object and reports its key with `ok: true`. */
  lemma ResponsesAndStores(event: map<string, Json>, bucket: string, now: Instant, uid: string, lib: Library)
    ensures var o := Handle(event, bucket, now, uid, lib);
            o.Returned? ==>
              && (o.response.statusCode == 200 || o.response.statusCode == 400)
              && (o.response.statusCode == 400 <==> o.stored.None?)
              && (o.response.statusCode == 200 ==>
                    o.response.body == Document(Accepted(o.stored.value.key)) &&
                    o.stored.value.bucket == bucket && o.stored.value.contentType == ContentType)
  {
  }

  /** An event without a body is answered 400 "Missing body". */
  lemma NoBody(event: map<string, Json>, bucket: string, now: Instant, uid: string, lib: Library)
    requires "body" !in event
    ensures Handle(event, bucket, now, uid, lib) == Returned(Response(400, Text(MissingBody)), None)
  {
  }

  /** A string body that does not parse is answered 400 with the parser's
      message; a body that is not a string is the payload as it is. */
  lemma BodyParsing(event: map<string, Json>, bucket: string, now: Instant, uid: string, lib: Library)
    requires "body" in event
    ensures event["body"].JStr? && lib.loads(event["body"].s).Failure? ==>
              Handle(event, bucket, now, uid, lib)
              == Returned(Response(400, Text("Invalid JSON: " + lib.loads(event["body"].s).error)), None)
    ensures !event["body"].JStr? ==> Payload(event["body"], lib) == Success(event["body"])
  {
  }

  /** The required fields are checked in order: when the first `i` are
      present and field `i` is not, the answer is 400 naming field `i`, and
      nothing is stored. */
  lemma FirstMissingField(event: map<string, Json>, bucket: string, now: Instant, uid: string, lib: Library, i: int)
    requires "body" in event && Payload(event["body"], lib).Success? && Payload(event["body"], lib).value.JObj?
    requires 0 <= i < |Required|
    requires var fields := Payload(event["body"], lib).value.fields;
             Required[i] !in fields && forall j :: 0 <= j < i ==> Required[j] in fields
    ensures Handle(event, bucket, now, uid, lib) == Returned(Response(400, Text("Missing '" + Required[i] + "'")), None)
  {
    FirstMissingAt(Payload(event["body"], lib).value, Required, i);
  }

  /** A 200 comes from a parsed dict payload in which every required field
      was found; it stores that payload, with `ts` filled in, under its
      partition key. */
  lemma AcceptedPut(event: map<string, Json>, bucket: string, now: Instant, uid: string, lib: Library)
    requires var o := Handle(event, bucket, now, uid, lib);
             o.Returned? && o.response.statusCode == 200
    ensures "body" in event && Payload(event["body"], lib).Success?
    ensures var payload := Payload(event["body"], lib).value;
            && payload.JObj? && FirstMissing(payload, Required) == AllPresent
            && PartitionedKey(WithTs(payload.fields, IsoFormat(now)), now, uid, lib).Success?
            && Handle(event, bucket, now, uid, lib).stored
               == Some(Put(bucket, PartitionedKey(WithTs(payload.fields, IsoFormat(now)), now, uid, lib).value,
                           JObj(WithTs(payload.fields, IsoFormat(now))), ContentType))
  {
  }

  /** A dict that passes the check holds every required field. */
  lemma RequiredFound(payload: Json)
    requires payload.JObj? && FirstMissing(payload, Required) == AllPresent
    ensures forall k :: k in Required ==> k in payload.fields
  {
    var fields := payload.fields;
    assert Contains(payload, "device_id") == Success("device_id" in fields);
    assert Contains(payload, "temperature") == Success("temperature" in fields);
    assert Contains(payload, "humidity") == Success("humidity" in fields);
    assert Required[0] == "device_id" && Required[1] == "temperature" && Required[2] == "humidity";
  }

  /** What a 200 stores: the payload, a dict with every required field,
      with each of its fields unchanged and `ts` added from the clock when
      it had none. */
  lemma StoredPayload(event: map<string, Json>, bucket: string, now: Instant, uid: string, lib: Library)
    requires var o := Handle(event, bucket, now, uid, lib);
             o.Returned? && o.response.statusCode == 200
    ensures "body" in event && Payload(event["body"], lib).Success? && Payload(event["body"], lib).value.JObj?
    ensures var payload := Payload(event["body"], lib).value.fields;
            var put := Handle(event, bucket, now, uid, lib).stored.value;
            && (forall k :: k in Required ==> k in payload)
            && put.body.JObj?
            && put.body.fields.Keys == payload.Keys + {"ts"}
            && (forall k :: k in payload ==> put.body.fields[k] == payload[k])
            && ("ts" !in payload ==> put.body.fields["ts"] == JStr(IsoFormat(now)))
  {
    AcceptedPut(event, bucket, now, uid, lib);
    var payload := Payload(event["body"], lib).value;
    RequiredFound(payload);
  }

  /** The key of a 200 lies in "raw/", ends in ".json" and reads back as the
      partition of the stored `ts`, the stored device and the UUID. */
  lemma StoredKey(event: map<string, Json>, bucket: string, now: Instant, uid: string, lib: Library)
    requires var o := Handle(event, bucket, now, uid, lib);
             o.Returned? && o.response.statusCode == 200
    ensures var put := Handle(event, bucket, now, uid, lib).stored.value;
            && put.body.JObj? && "ts" in put.body.fields
            && put.key[..|KeyPrefix|] == KeyPrefix && JsonKeys([put.key]) == [put.key]
            && exists dt :: KeyTime(Some(put.body.fields["ts"]), now, lib) == Success(dt) &&
                 ParseKey(put.key, |uid|)
                 == Some(KeyFields(dt.date.year, dt.date.month, dt.date.day, dt.hour, DeviceText(put.body.fields, lib), uid))
  {
    AcceptedPut(event, bucket, now, uid, lib);
    var payload := Payload(event["body"], lib).value;
    var fields := WithTs(payload.fields, IsoFormat(now));
    var dt := KeyTime(Some(fields["ts"]), now, lib).value;
    var device := DeviceText(fields, lib);
    assert Handle(event, bucket, now, uid, lib).stored.value == Put(bucket, KeyText(dt, device, uid), JObj(fields), ContentType);
    ParseKeyText(dt, device, uid);
    KeyIsListed(dt, device, uid);
  }

  /** A reading sent without `ts` is stored under the hour of the clock
      reading, given that Python's `float` rejects the text `isoformat`
      writes and `fromisoformat` reads it back. */
  lemma ServerTimestamp(event: map<string, Json>, bucket: string, now: Instant, uid: string, lib: Library)
    requires "body" in event && Payload(event["body"], lib).Success?
    requires var payload := Payload(event["body"], lib).value;
             payload.JObj? && "ts" !in payload.fields && forall k :: k in Required ==> k in payload.fields
    requires lib.toFloat(IsoFormat(now)).None? && lib.fromIso(IsoFormat(now)) == Some(CivilOf(now))
    ensures var o := Handle(event, bucket, now, uid, lib);
            var fields := Payload(event["body"], lib).value.fields;
            o.Returned? && o.stored.Some? &&
            o.stored.value.key == KeyText(CivilOf(now), DeviceText(fields, lib), uid)
  {
    var payload := Payload(event["body"], lib).value;
    var fields := WithTs(payload.fields, IsoFormat(now));
    ClockTsKey(fields, now, uid, lib);
    DeviceKept(payload.fields, IsoFormat(now), lib);
    DictStored(event, bucket, now, uid, lib, KeyText(CivilOf(now), DeviceText(fields, lib), uid));
  }

  /** Conversely to `AcceptedPut`: a body that parses to a dict holding
      every required field, whose key can be built, is stored under that key
      and answered 200. */
  lemma DictStored(event: map<string, Json>, bucket: string, now: Instant, uid: string, lib: Library, key: string)
    requires "body" in event && Payload(event["body"], lib).Success?
    requires var payload := Payload(event["body"], lib).value;
             && payload.JObj? && (forall k :: k in Required ==> k in payload.fields)
             && PartitionedKey(WithTs(payload.fields, IsoFormat(now)), now, uid, lib) == Success(key)
    ensures var fields := WithTs(Payload(event["body"], lib).value.fields, IsoFormat(now));
            Handle(event, bucket, now, uid, lib)
            == Returned(Response(200, Document(Accepted(key))), Some(Put(bucket, key, JObj(fields), ContentType)))
  {
    RequiredChecked(Payload(event["body"], lib).value);
  }

  /** A dict holding every required field passes the check. */
  lemma RequiredChecked(payload: Json)
    requires payload.JObj? && forall k :: k in Required ==> k in payload.fields
    ensures FirstMissing(payload, Required) == AllPresent
  {
    assert forall i :: 0 <= i < |Required| ==> Contains(payload, Required[i]) == Success(true);
  }

  /** Filling in `ts` leaves the device text alone. */
  lemma DeviceKept(fields: map<string, Json>, stamp: string, lib: Library)
    ensures DeviceText(WithTs(fields, stamp), lib) == DeviceText(fields, lib)
  {
    assert "device_id" != "ts";
  }

  /** A `ts` holding the clock's `isoformat` text keys the reading by the
      clock's hour, under the same two library assumptions. */
  lemma ClockTsKey(fields: map<string, Json>, now: Instant, uid: string, lib: Library)
    requires "ts" in fields && fields["ts"] == JStr(IsoFormat(now))
    requires lib.toFloat(IsoFormat(now)).None? && lib.fromIso(IsoFormat(now)) == Some(CivilOf(now))
    ensures PartitionedKey(fields, now, uid, lib) == Success(KeyText(CivilOf(now), DeviceText(fields, lib), uid))
  {
    assert ReplaceZ(IsoFormat(now)) == IsoFormat(now);
  }
}
