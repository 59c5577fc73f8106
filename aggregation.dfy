/** `hourly_agg`: floor each reading's timestamp to its UTC hour, group by
    `(device_id, hour)` and summarise each group. pandas' `groupby` sorts the
    group keys and leaves out rows whose key is NaN; mean, min, max and count
    skip missing values, and the mean, min and max of a group without any
    value are NaN (`None` here). */
module Aggregation {
  import opened Wrappers
  import opened Json
  import opened Ordering
  import opened Grouping
  import opened Calendar
  import opened Reader

  /** One row of the table once its columns are converted: `ts` decoded to
      epoch seconds by `pd.to_datetime`; NaN and NaT are `None`. */
  datatype Reading = Reading(deviceId: Option<string>, ts: Option<Instant>, temperature: Option<real>, humidity: Option<real>)

  /** The columns `hourly_agg` looks up. */
  const AggColumns: seq<string> := ["ts", "device_id", "temperature", "humidity"]

  /** A numeric cell: an absent or null cell is NaN. */
  function NumberCell(row: map<string, Json>, column: string): Result<Option<real>, string>
  {
    if column !in row then Success(None)
    else match row[column]
      case JNull => Success(None)
      case JInt(i) => Success(Some(i as real))
      case JFloat(f) => Success(Some(f))
      case _ => Failure("non-numeric " + column)
  }

  /** A `device_id` cell: an absent or null cell is NaN. */
  function DeviceCell(row: map<string, Json>): Result<Option<string>, string>
  {
    if "device_id" !in row then Success(None)
    else match row["device_id"]
      case JNull => Success(None)
      case JStr(s) => Success(Some(s))
      case _ => Failure("non-string device_id")
  }

  /** A `ts` cell through `pd.to_datetime(..., utc=True)`, which `toDatetime`
      stands for: `Success(None)` is NaT (pandas gives it for texts such as
      "", "NaT" or "nan"), a `Failure` is the exception it raises. An
      absent or null cell is NaT. */
  function TsCell(row: map<string, Json>, toDatetime: Json -> Result<Option<Instant>, string>): Result<Option<Instant>, string>
  {
    if "ts" !in row || row["ts"] == JNull then Success(None)
    else toDatetime(row["ts"])
  }

  function DecodeRow(row: map<string, Json>, toDatetime: Json -> Result<Option<Instant>, string>): Result<Reading, string>
  {
    match (DeviceCell(row), TsCell(row, toDatetime), NumberCell(row, "temperature"), NumberCell(row, "humidity"))
    case (Success(d), Success(t), Success(temp), Success(hum)) => Success(Reading(d, t, temp, hum))
    case (Failure(e), _, _, _) => Failure(e)
    case (_, Failure(e), _, _) => Failure(e)
    case (_, _, Failure(e), _) => Failure(e)
    case (_, _, _, Failure(e)) => Failure(e)
  }

  function DecodeRows(rows: seq<map<string, Json>>, toDatetime: Json -> Result<Option<Instant>, string>): (r: Result<seq<Reading>, string>)
    ensures r.Success? <==> forall i :: 0 <= i < |rows| ==> DecodeRow(rows[i], toDatetime).Success?
    ensures r.Success? ==>
              |r.value| == |rows| &&
              forall i :: 0 <= i < |rows| ==> DecodeRow(rows[i], toDatetime) == Success(r.value[i])
  {
    if rows == [] then Success([])
    else match (DecodeRow(rows[0], toDatetime), DecodeRows(rows[1..], toDatetime))
      case (Success(x), Success(xs)) =>
        assert forall i :: 1 <= i < |rows| ==> rows[i] == rows[1..][i - 1];
        Success([x] + xs)
      case (Failure(e), _) => Failure(e)
      case (_, Failure(e)) =>
        assert forall i :: 0 <= i < |rows[1..]| ==> rows[1..][i] == rows[i + 1];
        Failure(e)
  }

  /** Converting the table's columns (lines 36-37 and the column lookups of
      the `groupby`): fails when a column is missing (`KeyError`) or a cell
      cannot be converted; otherwise one reading per row, in row order. */
  function Decode(t: Table, toDatetime: Json -> Result<Option<Instant>, string>): (r: Result<seq<Reading>, string>)
    ensures r.Success? <==>
              (forall c :: c in AggColumns ==> c in t.columns) &&
              forall i :: 0 <= i < |t.rows| ==> DecodeRow(t.rows[i], toDatetime).Success?
    ensures r.Success? ==>
              |r.value| == |t.rows| &&
              forall i :: 0 <= i < |t.rows| ==> DecodeRow(t.rows[i], toDatetime) == Success(r.value[i])
  {
    if exists c :: c in AggColumns && c !in t.columns then Failure("KeyError")
    else DecodeRows(t.rows, toDatetime)
  }

  /** A group key: a device and the start of an hour. */
  datatype Key = Key(deviceId: string, hour: Instant)

  /** The order of the sorted `groupby` keys: by device id, then by hour. */
  predicate KeyLess(a: Key, b: Key)
  {
    StrLess(a.deviceId, b.deviceId) || (a.deviceId == b.deviceId && a.hour < b.hour)
  }

  lemma KeyLessIsStrictTotalOrder()
    ensures IsStrictTotalOrder(KeyLess)
  {
    StrLessIsStrictTotalOrder();
  }

  /** `dt.floor("H")`: the start of the UTC hour of `t`. */
  function HourOf(t: Instant): (h: Instant)
    ensures h % SecondsPerHour == 0 && h <= t < h + SecondsPerHour
  {
    HourFloorInstant(t);
    HourFloor(t)
  }

  /** The group of a reading; `None` when its device or time is NaN, which
      `groupby` leaves out. */
  function KeyOf(r: Reading): Option<Key>
  {
    if r.deviceId.Some? && r.ts.Some? then Some(Key(r.deviceId.value, HourOf(r.ts.value))) else None
  }

  /** The keys of the readings that have one, in reading order. */
  function PresentKeys(rs: seq<Reading>): (ks: seq<Key>)
    ensures forall k :: k in ks <==> Some(k) in Keys(rs)
  {
    if rs == [] then []
    else
      assert Keys(rs) == [KeyOf(rs[0])] + Keys(rs[1..]);
      (if KeyOf(rs[0]).Some? then [KeyOf(rs[0]).value] else []) + PresentKeys(rs[1..])
  }

  /** The key of every reading (present or not), in reading order. */
  function Keys(rs: seq<Reading>): (ks: seq<Option<Key>>)
    ensures |ks| == |rs| && forall i :: 0 <= i < |rs| ==> ks[i] == KeyOf(rs[i])
  {
    seq(|rs|, i requires 0 <= i < |rs| => KeyOf(rs[i]))
  }

  /** The sorted, distinct group keys. */
  function GroupKeys(rs: seq<Reading>): (ks: seq<Key>)
    ensures StrictlySorted(ks, KeyLess)
    ensures forall k :: k in ks <==> Some(k) in Keys(rs)
  {
    KeyLessIsStrictTotalOrder();
    SortedSet(PresentKeys(rs), KeyLess)
  }

  /** The readings of one group, in input order. */
  function Group(rs: seq<Reading>, k: Key): seq<Reading>
  {
    Select(rs, KeyOf, Some(k))
  }

  /** The readings that belong to some group, in input order. */
  function Keyed(rs: seq<Reading>): seq<Reading>
  {
    if rs == [] then [] else (if KeyOf(rs[0]).Some? then [rs[0]] else []) + Keyed(rs[1..])
  }

  /** The non-missing temperatures, in order. */
  function Temperatures(g: seq<Reading>): seq<real>
  {
    if g == [] then []
    else (if g[0].temperature.Some? then [g[0].temperature.value] else []) + Temperatures(g[1..])
  }

  /** The non-missing humidities, in order. */
  function Humidities(g: seq<Reading>): seq<real>
  {
    if g == [] then []
    else (if g[0].humidity.Some? then [g[0].humidity.value] else []) + Humidities(g[1..])
  }

  /** The temperatures of a group are exactly those of its readings. */
  lemma {:induction false} TemperaturesMembers(g: seq<Reading>)
    ensures forall x :: x in Temperatures(g) ==> exists r :: r in g && r.temperature == Some(x)
    ensures forall r :: r in g && r.temperature.Some? ==> r.temperature.value in Temperatures(g)
  {
    if g != [] {
      TemperaturesMembers(g[1..]);
      assert g == [g[0]] + g[1..];
    }
  }

  /** The humidities of a group are exactly those of its readings. */
  lemma {:induction false} HumiditiesMembers(g: seq<Reading>)
    ensures forall x :: x in Humidities(g) ==> exists r :: r in g && r.humidity == Some(x)
    ensures forall r :: r in g && r.humidity.Some? ==> r.humidity.value in Humidities(g)
  {
    if g != [] {
      HumiditiesMembers(g[1..]);
      assert g == [g[0]] + g[1..];
    }
  }

  function Sum(xs: seq<real>): real
  {
    if xs == [] then 0.0 else xs[0] + Sum(xs[1..])
  }

  /** `m` is the mean of `xs`: `|xs|` copies of it add up to their sum. */
  predicate IsMeanOf(m: real, xs: seq<real>)
  {
    m * (|xs| as real) == Sum(xs)
  }

  /** The arithmetic mean; NaN (`None`) when there is no value. */
  function Mean(xs: seq<real>): (m: Option<real>)
    ensures m.Some? <==> xs != []
    ensures m.Some? ==> IsMeanOf(m.value, xs)
  {
    if xs == [] then None else Some(Sum(xs) / (|xs| as real))
  }

  function Min(xs: seq<real>): (m: real)
    requires xs != []
    ensures m in xs && forall x :: x in xs ==> m <= x
  {
    if |xs| == 1 then xs[0]
    else
      var rest := Min(xs[1..]);
      assert forall x :: x in xs ==> x == xs[0] || x in xs[1..];
      if xs[0] <= rest then xs[0] else rest
  }

  function Max(xs: seq<real>): (m: real)
    requires xs != []
    ensures m in xs && forall x :: x in xs ==> x <= m
  {
    if |xs| == 1 then xs[0]
    else
      var rest := Max(xs[1..]);
      assert forall x :: x in xs ==> x == xs[0] || x in xs[1..];
      if xs[0] >= rest then xs[0] else rest
  }

  /** One output row of `hourly_agg`. */
  datatype Aggregate = Aggregate(
    deviceId: string, hour: Instant,
    tempAvg: Option<real>, tempMin: Option<real>, tempMax: Option<real>,
    humAvg: Option<real>, count: nat)

  function RowKey(a: Aggregate): Key
  {
    Key(a.deviceId, a.hour)
  }

  /** The named aggregations of one group. */
  function Summarize(k: Key, g: seq<Reading>): Aggregate
  {
    var temps := Temperatures(g);
    Aggregate(
      k.deviceId, k.hour,
      Mean(temps),
      if temps == [] then None else Some(Min(temps)),
      if temps == [] then None else Some(Max(temps)),
      Mean(Humidities(g)),
      |temps|)
  }

  /** The aggregate table: one row per group key, sorted by key (so no key
      repeats), and a row exactly for each key some reading has. */
  function HourlyAgg(rs: seq<Reading>): (rows: seq<Aggregate>)
    ensures forall i, j :: 0 <= i < j < |rows| ==> KeyLess(RowKey(rows[i]), RowKey(rows[j]))
    ensures forall k :: (exists i :: 0 <= i < |rows| && RowKey(rows[i]) == k) <==> Some(k) in Keys(rs)
  {
    var ks := GroupKeys(rs);
    var rows := seq(|ks|, i requires 0 <= i < |ks| => Summarize(ks[i], Group(rs, ks[i])));
    assert forall i :: 0 <= i < |ks| ==> RowKey(rows[i]) == ks[i];
    rows
  }

  /** The statistics of each output row, stated over the input readings of
      its key: `count` of them have a temperature; with none, the three
      temperature columns are NaN; otherwise min <= avg <= max, every
      temperature of the key lies between min and max and both are attained.
      `hum_avg` is NaN exactly when no reading of the key has a humidity, and
      each mean is the mean of its values. */
  lemma HourlyAggRowStats(rs: seq<Reading>, i: int)
    requires 0 <= i < |HourlyAgg(rs)|
    ensures var row := HourlyAgg(rs)[i];
            var k := RowKey(row);
            && row.count == |TempIndices(rs, k)|
            && (row.count == 0 <==> row.tempAvg.None?)
            && (row.count == 0 ==> row.tempMin.None? && row.tempMax.None?)
            && (row.count > 0 ==>
                  && row.tempMin.Some? && row.tempMax.Some? && row.tempAvg.Some?
                  && row.tempMin.value <= row.tempAvg.value <= row.tempMax.value
                  && (forall j :: 0 <= j < |rs| && KeyOf(rs[j]) == Some(k) && rs[j].temperature.Some? ==>
                        row.tempMin.value <= rs[j].temperature.value <= row.tempMax.value)
                  && (exists j :: 0 <= j < |rs| && KeyOf(rs[j]) == Some(k) && rs[j].temperature == row.tempMin)
                  && (exists j :: 0 <= j < |rs| && KeyOf(rs[j]) == Some(k) && rs[j].temperature == row.tempMax))
            && (row.humAvg.None? <==> (forall j :: 0 <= j < |rs| && KeyOf(rs[j]) == Some(k) ==> rs[j].humidity.None?))
            && (row.tempAvg.Some? ==> IsMeanOf(row.tempAvg.value, Temperatures(Group(rs, k))))
            && (row.humAvg.Some? ==> IsMeanOf(row.humAvg.value, Humidities(Group(rs, k))))
  {
    var k := RowKey(HourlyAgg(rs)[i]);
    assert HourlyAgg(rs)[i] == Summarize(k, Group(rs, k));
    GroupTemperatureStats(rs, k);
    GroupHumidityStats(rs, k);
    GroupMeans(rs, k);
  }

  /** Every reading with a device and a time is summarised in exactly one row:
      the row of its own key, whose group holds it; every other group leaves
      it out. */
  lemma ReadingInExactlyOneRow(rs: seq<Reading>, j: int)
    requires 0 <= j < |rs| && KeyOf(rs[j]).Some?
    ensures exists i :: 0 <= i < |HourlyAgg(rs)| && RowKey(HourlyAgg(rs)[i]) == KeyOf(rs[j]).value
    ensures forall i :: 0 <= i < |HourlyAgg(rs)| ==>
              (rs[j] in Group(rs, RowKey(HourlyAgg(rs)[i])) <==> RowKey(HourlyAgg(rs)[i]) == KeyOf(rs[j]).value)
    ensures forall i1, i2 ::
              (0 <= i1 < |HourlyAgg(rs)| && 0 <= i2 < |HourlyAgg(rs)| &&
               RowKey(HourlyAgg(rs)[i1]) == KeyOf(rs[j]).value && RowKey(HourlyAgg(rs)[i2]) == KeyOf(rs[j]).value)
              ==> i1 == i2
  {
    var k := KeyOf(rs[j]).value;
    assert Keys(rs)[j] == Some(k);
    var rows := HourlyAgg(rs);
    assert exists i :: 0 <= i < |rows| && RowKey(rows[i]) == k;
    KeyLessIsStrictTotalOrder();
  }

  /** A reading without a device or a time is in no group. */
  lemma UnkeyedReadingDropped(rs: seq<Reading>, j: int)
    requires 0 <= j < |rs| && KeyOf(rs[j]).None?
    ensures forall i :: 0 <= i < |HourlyAgg(rs)| ==> rs[j] !in Group(rs, RowKey(HourlyAgg(rs)[i]))
  {
  }

  /** A row whose `ts` pandas converts to NaT (an empty text, say) decodes
      to a reading without a time, which is in no group. */
  lemma NaTReadingDropped(t: Table, toDatetime: Json -> Result<Option<Instant>, string>, j: int)
    requires Decode(t, toDatetime).Success? && 0 <= j < |t.rows|
    requires "ts" in t.rows[j] && toDatetime(t.rows[j]["ts"]) == Success(None)
    ensures var rs := Decode(t, toDatetime).value;
            && rs[j].ts.None? && KeyOf(rs[j]).None?
            && forall i :: 0 <= i < |HourlyAgg(rs)| ==> rs[j] !in Group(rs, RowKey(HourlyAgg(rs)[i]))
  {
    var rs := Decode(t, toDatetime).value;
    assert DecodeRow(t.rows[j], toDatetime) == Success(rs[j]);
    UnkeyedReadingDropped(rs, j);
  }

  /** The group keys, as the values `KeyOf` gives. */
  function Wrapped(ks: seq<Key>): (ws: seq<Option<Key>>)
    ensures |ws| == |ks| && forall i :: 0 <= i < |ks| ==> ws[i] == Some(ks[i])
  {
    seq(|ks|, i requires 0 <= i < |ks| => Some(ks[i]))
  }

  lemma {:induction false} SelectInKeyed(s: seq<Reading>, ks: seq<Key>)
    requires forall r :: r in s && KeyOf(r).Some? ==> KeyOf(r).value in ks
    ensures SelectIn(s, KeyOf, Wrapped(ks)) == Keyed(s)
  {
    if s != [] {
      SelectInKeyed(s[1..], ks);
      if KeyOf(s[0]).Some? {
        var i :| 0 <= i < |ks| && ks[i] == KeyOf(s[0]).value;
        assert Wrapped(ks)[i] == KeyOf(s[0]);
      }
    }
  }

  /** No reading is dropped or counted twice: the groups, one after the
      other, are a permutation of the readings that have a key. */
  lemma GroupsPartitionReadings(rs: seq<Reading>)
    ensures multiset(Gather(rs, KeyOf, Wrapped(GroupKeys(rs)))) == multiset(Keyed(rs))
    ensures |Gather(rs, KeyOf, Wrapped(GroupKeys(rs)))| == |Keyed(rs)|
  {
    var ks := GroupKeys(rs);
    KeyLessIsStrictTotalOrder();
    SortedIsDistinct(ks, KeyLess);
    GatherIsPermutation(rs, KeyOf, Wrapped(ks));
    forall r | r in rs && KeyOf(r).Some? ensures KeyOf(r).value in ks {
      var j :| 0 <= j < |rs| && rs[j] == r;
      assert Keys(rs)[j] == KeyOf(r);
    }
    SelectInKeyed(rs, ks);
    assert |multiset(Gather(rs, KeyOf, Wrapped(ks)))| == |multiset(Keyed(rs))|;
  }

  /** Positions of the readings of group `k` that have a temperature. */
  function TempIndices(rs: seq<Reading>, k: Key): set<int>
  {
    set j | 0 <= j < |rs| && KeyOf(rs[j]) == Some(k) && rs[j].temperature.Some?
  }

  lemma {:induction false} TemperaturesAppend(a: seq<Reading>, b: seq<Reading>)
    ensures Temperatures(a + b) == Temperatures(a) + Temperatures(b)
  {
    if a == [] {
      assert a + b == b;
    } else {
      TemperaturesAppend(a[1..], b);
      assert (a + b)[0] == a[0] && (a + b)[1..] == a[1..] + b;
      var head := if a[0].temperature.Some? then [a[0].temperature.value] else [];
      assert Temperatures(a + b) == head + Temperatures(a[1..] + b);
      assert Temperatures(a) == head + Temperatures(a[1..]);
    }
  }

  /** `count` counts the input readings of the group that have a temperature. */
  lemma {:induction false} CountIsNumberOfReadings(rs: seq<Reading>, k: Key)
    ensures |Temperatures(Group(rs, k))| == |TempIndices(rs, k)|
    decreases |rs|
  {
    if rs == [] {
      assert TempIndices(rs, k) == {};
    } else {
      CountIsNumberOfReadings(rs[..|rs| - 1], k);
      GroupTemperaturesSnoc(rs, k);
      TempIndicesSnoc(rs, k);
    }
  }

  /** The last reading adds one temperature to group `k` when it is a
      reading of the group with a temperature, and none otherwise. */
  lemma GroupTemperaturesSnoc(rs: seq<Reading>, k: Key)
    requires rs != []
    ensures var last := rs[|rs| - 1];
            |Temperatures(Group(rs, k))|
            == |Temperatures(Group(rs[..|rs| - 1], k))| + (if KeyOf(last) == Some(k) && last.temperature.Some? then 1 else 0)
  {
    var n := |rs|;
    var init, last := rs[..n - 1], rs[n - 1];
    assert init + [last] == rs;
    SelectAppend(init, [last], KeyOf, Some(k));
    var tail := Select([last], KeyOf, Some(k));
    assert [last][1..] == [];
    assert tail == if KeyOf(last) == Some(k) then [last] else [];
    TemperaturesAppend(Group(init, k), tail);
  }

  /** The same for the positions: the last one is added exactly then. */
  lemma TempIndicesSnoc(rs: seq<Reading>, k: Key)
    requires rs != []
    ensures var last := rs[|rs| - 1];
            |TempIndices(rs, k)|
            == |TempIndices(rs[..|rs| - 1], k)| + (if KeyOf(last) == Some(k) && last.temperature.Some? then 1 else 0)
  {
    var n := |rs|;
    var init, last := rs[..n - 1], rs[n - 1];
    var extra := if KeyOf(last) == Some(k) && last.temperature.Some? then {n - 1} else {};
    forall j ensures j in TempIndices(rs, k) <==> j in TempIndices(init, k) || j in extra {
      if 0 <= j < n - 1 {
        assert rs[j] == init[j];
      }
    }
    assert TempIndices(rs, k) == TempIndices(init, k) + extra;
    assert TempIndices(init, k) !! extra;
  }

  lemma {:induction false} SumAtLeast(xs: seq<real>, lo: real)
    requires forall x :: x in xs ==> lo <= x
    ensures (|xs| as real) * lo <= Sum(xs)
  {
    if xs != [] {
      assert forall x :: x in xs[1..] ==> x in xs;
      SumAtLeast(xs[1..], lo);
      assert xs[0] in xs;
      assert Sum(xs) == xs[0] + Sum(xs[1..]);
      var n := |xs[1..]| as real;
      assert |xs| as real == n + 1.0;
      DistributeOne(n, lo);
    }
  }

  lemma {:induction false} SumAtMost(xs: seq<real>, hi: real)
    requires forall x :: x in xs ==> x <= hi
    ensures Sum(xs) <= (|xs| as real) * hi
  {
    if xs != [] {
      assert forall x :: x in xs[1..] ==> x in xs;
      SumAtMost(xs[1..], hi);
      assert xs[0] in xs;
      assert Sum(xs) == xs[0] + Sum(xs[1..]);
      var n := |xs[1..]| as real;
      assert |xs| as real == n + 1.0;
      DistributeOne(n, hi);
    }
  }

  lemma DistributeOne(n: real, x: real)
    ensures (n + 1.0) * x == x + n * x
  {
  }

  /** A bound on a sum over `n` values bounds the mean. */
  lemma QuotientBounds(s: real, n: real, lo: real, hi: real)
    requires n > 0.0 && n * lo <= s <= n * hi
    ensures lo <= s / n <= hi
  {
  }

  /** The mean lies between the minimum and the maximum. */
  lemma MeanWithinRange(xs: seq<real>)
    requires xs != []
    ensures Min(xs) <= Mean(xs).value <= Max(xs)
  {
    SumAtLeast(xs, Min(xs));
    SumAtMost(xs, Max(xs));
    QuotientBounds(Sum(xs), |xs| as real, Min(xs), Max(xs));
  }

  lemma SummarizeFields(k: Key, g: seq<Reading>)
    ensures var row := Summarize(k, g);
            var temps := Temperatures(g);
            && row.count == |temps| && row.tempAvg == Mean(temps) && row.humAvg == Mean(Humidities(g))
            && row.tempMin == (if temps == [] then None else Some(Min(temps)))
            && row.tempMax == (if temps == [] then None else Some(Max(temps)))
  {
  }

  /** The temperature statistics of a group, stated over the input readings
      whose key it is: `count` of them have a temperature; when one does, the
      minimum and maximum are temperatures of the group that bound all of
      them and the mean lies between the two; when none does, the three are
      NaN. */
  lemma GroupTemperatureStats(rs: seq<Reading>, k: Key)
    ensures var row := Summarize(k, Group(rs, k));
            && row.count == |TempIndices(rs, k)|
            && (row.count == 0 <==> row.tempAvg.None?)
            && (row.count == 0 ==> row.tempMin.None? && row.tempMax.None?)
            && (row.count > 0 ==>
                  && row.tempMin.Some? && row.tempMax.Some? && row.tempAvg.Some?
                  && row.tempMin.value <= row.tempAvg.value <= row.tempMax.value
                  && (forall j :: 0 <= j < |rs| && KeyOf(rs[j]) == Some(k) && rs[j].temperature.Some? ==>
                        row.tempMin.value <= rs[j].temperature.value <= row.tempMax.value)
                  && (exists j :: 0 <= j < |rs| && KeyOf(rs[j]) == Some(k) && rs[j].temperature == row.tempMin)
                  && (exists j :: 0 <= j < |rs| && KeyOf(rs[j]) == Some(k) && rs[j].temperature == row.tempMax))
  {
    var g := Group(rs, k);
    var temps := Temperatures(g);
    SummarizeFields(k, g);
    CountIsNumberOfReadings(rs, k);
    if temps != [] {
      MeanWithinRange(temps);
      TemperatureBounds(rs, k);
      AttainedBy(rs, k, Min(temps));
      AttainedBy(rs, k, Max(temps));
    }
  }

  lemma TemperatureBounds(rs: seq<Reading>, k: Key)
    requires Temperatures(Group(rs, k)) != []
    ensures forall j :: 0 <= j < |rs| && KeyOf(rs[j]) == Some(k) && rs[j].temperature.Some? ==>
              Min(Temperatures(Group(rs, k))) <= rs[j].temperature.value <= Max(Temperatures(Group(rs, k)))
  {
    var g := Group(rs, k);
    TemperaturesMembers(g);
    forall j | 0 <= j < |rs| && KeyOf(rs[j]) == Some(k) && rs[j].temperature.Some?
      ensures Min(Temperatures(g)) <= rs[j].temperature.value <= Max(Temperatures(g))
    {
      assert rs[j] in g && rs[j].temperature == Some(rs[j].temperature.value);
      assert rs[j].temperature.value in Temperatures(g);
    }
  }

  lemma AttainedBy(rs: seq<Reading>, k: Key, x: real)
    requires x in Temperatures(Group(rs, k))
    ensures exists j :: 0 <= j < |rs| && KeyOf(rs[j]) == Some(k) && rs[j].temperature == Some(x)
  {
    TemperaturesMembers(Group(rs, k));
    var r :| r in Group(rs, k) && r.temperature == Some(x);
    var j :| 0 <= j < |rs| && rs[j] == r;
  }

  /** `hum_avg` is NaN exactly when no reading of the group has a humidity
      (`GroupMeans` states its value otherwise). */
  lemma GroupHumidityStats(rs: seq<Reading>, k: Key)
    ensures var row := Summarize(k, Group(rs, k));
            row.humAvg.None? <==> (forall j :: 0 <= j < |rs| && KeyOf(rs[j]) == Some(k) ==> rs[j].humidity.None?)
  {
    var g := Group(rs, k);
    SummarizeFields(k, g);
    HumiditiesMembers(g);
    if Humidities(g) != [] {
      var h := Humidities(g)[0];
      var r :| r in g && r.humidity == Some(h);
      var j :| 0 <= j < |rs| && rs[j] == r;
    } else {
      forall j | 0 <= j < |rs| && KeyOf(rs[j]) == Some(k) ensures rs[j].humidity.None? {
        assert rs[j] in g;
      }
    }
  }

  /** The mean temperature of a group is the mean of its temperatures, and
      the mean humidity the mean of its humidities. */
  lemma GroupMeans(rs: seq<Reading>, k: Key)
    ensures var row := Summarize(k, Group(rs, k));
            row.tempAvg.Some? ==> IsMeanOf(row.tempAvg.value, Temperatures(Group(rs, k)))
    ensures var row := Summarize(k, Group(rs, k));
            row.humAvg.Some? ==> IsMeanOf(row.humAvg.value, Humidities(Group(rs, k)))
  {
    SummarizeFields(k, Group(rs, k));
  }
}
