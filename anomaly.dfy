/** `detect_anomalies`: the aggregate rows are regrouped by device (pandas'
    `groupby("device_id")`, devices in ascending order, each device's rows in
    table order); a device with fewer than `MinRows` rows gets every flag
    false, any other device is flagged where the outlier detector predicts
    -1; the per-device frames are concatenated. */
module Anomaly {
  import opened Wrappers
  import opened Ordering
  import opened Grouping
  import opened Aggregation

  /** An aggregate row with the added `anomaly` column. */
  datatype Flagged = Flagged(row: Aggregate, anomaly: bool)

  /** One detector input: `(temp_avg, hum_avg)`. */
  type Feature = (real, real)

  /** `IsolationForest(...).fit_predict`: one prediction (1 or -1) per
      input row; the fitted forest itself is not modelled. */
  type Predictor = f: seq<Feature> -> seq<int> | forall x :: |f(x)| == |x|
    witness (x: seq<Feature>) => seq(|x|, i => 1)

  /** Devices with fewer rows than this are never passed to the detector. */
  const MinRows: nat := 10

  /** The detector raises on a NaN feature. */
  const NaNError: string := "Input contains NaN"

  /** `pd.concat` raises when there is no frame to concatenate. */
  const NoFramesError: string := "No objects to concatenate"

  function DeviceOf(a: Aggregate): string
  {
    a.deviceId
  }

  /** The device ids of the table's rows, in row order. */
  function DeviceIds(grp: seq<Aggregate>): (ds: seq<string>)
    ensures |ds| == |grp| && forall i :: 0 <= i < |grp| ==> ds[i] == grp[i].deviceId
  {
    seq(|grp|, i requires 0 <= i < |grp| => grp[i].deviceId)
  }

  /** The keys of `groupby("device_id")`: each device once, ascending. */
  function Devices(grp: seq<Aggregate>): (devs: seq<string>)
    ensures StrictlySorted(devs, StrLess)
    ensures forall d :: d in devs <==> exists a :: a in grp && a.deviceId == d
  {
    StrLessIsStrictTotalOrder();
    var ids := DeviceIds(grp);
    assert forall d :: d in ids <==> exists a :: a in grp && a.deviceId == d by {
      forall d | d in ids ensures exists a :: a in grp && a.deviceId == d {
        var i :| 0 <= i < |ids| && ids[i] == d;
        assert grp[i] in grp;
      }
      forall d | exists a :: a in grp && a.deviceId == d ensures d in ids {
        var a :| a in grp && a.deviceId == d;
        var i :| 0 <= i < |grp| && grp[i] == a;
        assert ids[i] == d;
      }
    }
    SortedSet(ids, StrLess)
  }

  /** The rows of one device, in table order. */
  function RowsOf(grp: seq<Aggregate>, dev: string): seq<Aggregate>
  {
    Select(grp, DeviceOf, dev)
  }

  /** Neither feature of the row is NaN. */
  predicate Complete(a: Aggregate)
  {
    a.tempAvg.Some? && a.humAvg.Some?
  }

  predicate AllComplete(g: seq<Aggregate>)
  {
    forall i :: 0 <= i < |g| ==> Complete(g[i])
  }

  /** The feature matrix of a device: `temp_avg` and `hum_avg` per row, for
      rows without NaN. */
  function Features(g: seq<Aggregate>): (fs: seq<Feature>)
    requires AllComplete(g)
    ensures |fs| == |g|
    ensures forall i :: 0 <= i < |g| ==> fs[i] == (g[i].tempAvg.value, g[i].humAvg.value)
  {
    seq(|g|, i requires 0 <= i < |g| => (g[i].tempAvg.value, g[i].humAvg.value))
  }

  /** The flags of one device's rows (lines 51-57). */
  function FlagDevice(g: seq<Aggregate>, predict: Predictor): (r: Result<seq<Flagged>, string>)
    ensures r.Failure? <==> |g| >= MinRows && !AllComplete(g)
    ensures r.Success? ==> |r.value| == |g| && forall i :: 0 <= i < |g| ==> r.value[i].row == g[i]
    ensures r.Success? && |g| < MinRows ==> forall i :: 0 <= i < |g| ==> !r.value[i].anomaly
    ensures r.Success? && |g| >= MinRows ==>
              forall i :: 0 <= i < |g| ==> (r.value[i].anomaly <==> predict(Features(g))[i] == -1)
  {
    if |g| < MinRows then
      Success(seq(|g|, i requires 0 <= i < |g| => Flagged(g[i], false)))
    else if !AllComplete(g) then
      Failure(NaNError)
    else
      var preds := predict(Features(g));
      Success(seq(|g|, i requires 0 <= i < |g| => Flagged(g[i], preds[i] == -1)))
  }

  /** The frames of `devs`, one after the other; the first device whose
      flags fail stops the loop. */
  function DetectFrom(grp: seq<Aggregate>, devs: seq<string>, predict: Predictor): (r: Result<seq<Flagged>, string>)
    ensures r.Success? <==> forall d :: d in devs ==> FlagDevice(RowsOf(grp, d), predict).Success?
  {
    if devs == [] then Success([])
    else
      var init := devs[..|devs| - 1];
      assert forall d :: d in devs <==> d in init || d == devs[|devs| - 1];
      match DetectFrom(grp, init, predict)
      case Failure(e) => Failure(e)
      case Success(out) =>
        match FlagDevice(RowsOf(grp, devs[|devs| - 1]), predict)
        case Failure(e) => Failure(e)
        case Success(flags) => Success(out + flags)
  }

  /** The result of `detect_anomalies`. */
  function Detect(grp: seq<Aggregate>, predict: Predictor): (r: Result<seq<Flagged>, string>)
    ensures r.Success? <==> grp != [] && forall d :: d in Devices(grp) ==> FlagDevice(RowsOf(grp, d), predict).Success?
  {
    var devs := Devices(grp);
    assert grp != [] ==> grp[0].deviceId in devs;
    if devs == [] then Failure(NoFramesError) else DetectFrom(grp, devs, predict)
  }

  /** The loop of lines 49-59. */
  method DetectAnomalies(grp: seq<Aggregate>, predict: Predictor) returns (res: Result<seq<Flagged>, string>)
    ensures res == Detect(grp, predict)
  {
    var devs := Devices(grp);
    var outFrames: seq<Flagged> := [];
    for i := 0 to |devs|
      invariant DetectFrom(grp, devs[..i], predict) == Success(outFrames)
    {
      var g := RowsOf(grp, devs[i]);
      var flags: seq<Flagged>;
      if |g| < MinRows {
        flags := seq(|g|, j requires 0 <= j < |g| => Flagged(g[j], false));
      } else if !AllComplete(g) {
        assert devs[..i + 1][..i] == devs[..i];
        FailureStops(grp, devs, i + 1, predict);
        return Failure(NaNError);
      } else {
        var preds := predict(Features(g));
        flags := seq(|g|, j requires 0 <= j < |g| => Flagged(g[j], preds[j] == -1));
      }
      assert devs[..i + 1][..i] == devs[..i];
      outFrames := outFrames + flags;
    }
    assert devs[..|devs|] == devs;
    if devs == [] {
      return Failure(NoFramesError);
    }
    return Success(outFrames);
  }

  /** Once a prefix of the devices fails, the whole run fails the same way. */
  lemma {:induction false} FailureStops(grp: seq<Aggregate>, devs: seq<string>, n: nat, predict: Predictor)
    requires n <= |devs| && DetectFrom(grp, devs[..n], predict).Failure?
    ensures DetectFrom(grp, devs, predict) == DetectFrom(grp, devs[..n], predict)
    decreases |devs| - n
  {
    if n < |devs| {
      FailureStops(grp, devs, n + 1, predict);
      assert devs[..n + 1][..n] == devs[..n];
    } else {
      assert devs[..n] == devs;
    }
  }

  /** The rows of a flagged frame, without the flag. */
  function Unflag(fs: seq<Flagged>): (rows: seq<Aggregate>)
    ensures |rows| == |fs| && forall i :: 0 <= i < |fs| ==> rows[i] == fs[i].row
  {
    seq(|fs|, i requires 0 <= i < |fs| => fs[i].row)
  }

  lemma UnflagAppend(a: seq<Flagged>, b: seq<Flagged>)
    ensures Unflag(a + b) == Unflag(a) + Unflag(b)
  {
    assert forall i :: 0 <= i < |a + b| ==> Unflag(a + b)[i] == (Unflag(a) + Unflag(b))[i];
  }

  /** Flagging a device's rows keeps them, in order. */
  lemma FlagsKeepRows(g: seq<Aggregate>, predict: Predictor)
    requires FlagDevice(g, predict).Success?
    ensures Unflag(FlagDevice(g, predict).value) == g
  {
    assert forall i :: 0 <= i < |g| ==> Unflag(FlagDevice(g, predict).value)[i] == g[i];
  }

  /** Gathering one more group appends it. */
  lemma {:induction false} GatherSnoc(grp: seq<Aggregate>, devs: seq<string>, d: string)
    ensures Gather(grp, DeviceOf, devs + [d]) == Gather(grp, DeviceOf, devs) + RowsOf(grp, d)
  {
    if devs == [] {
      assert Gather(grp, DeviceOf, [d]) == RowsOf(grp, d) + Gather(grp, DeviceOf, []);
    } else {
      assert (devs + [d])[1..] == devs[1..] + [d];
      GatherSnoc(grp, devs[1..], d);
    }
  }

  lemma DetectFromStep(grp: seq<Aggregate>, devs: seq<string>, predict: Predictor)
    requires devs != [] && DetectFrom(grp, devs, predict).Success?
    ensures DetectFrom(grp, devs[..|devs| - 1], predict).Success?
    ensures FlagDevice(RowsOf(grp, devs[|devs| - 1]), predict).Success?
    ensures DetectFrom(grp, devs, predict).value
         == DetectFrom(grp, devs[..|devs| - 1], predict).value + FlagDevice(RowsOf(grp, devs[|devs| - 1]), predict).value
  {
  }

  /** The frames of `devs` hold exactly the rows of those devices, device
      by device, each row unchanged. */
  lemma {:induction false} DetectFromRows(grp: seq<Aggregate>, devs: seq<string>, predict: Predictor)
    requires DetectFrom(grp, devs, predict).Success?
    ensures Unflag(DetectFrom(grp, devs, predict).value) == Gather(grp, DeviceOf, devs)
  {
    if devs != [] {
      var init := devs[..|devs| - 1];
      var last := devs[|devs| - 1];
      DetectFromStep(grp, devs, predict);
      var out := DetectFrom(grp, init, predict).value;
      var flags := FlagDevice(RowsOf(grp, last), predict).value;
      DetectFromRows(grp, init, predict);
      GatherSnoc(grp, init, last);
      assert init + [last] == devs;
      FlagsKeepRows(RowsOf(grp, last), predict);
      UnflagAppend(out, flags);
    }
  }

  /** `detect_anomalies` keeps every input row: its output, without the
      flags, is the input regrouped by device (each device's rows in table
      order), so a permutation of the input with as many rows. */
  lemma DetectKeepsRows(grp: seq<Aggregate>, predict: Predictor)
    requires Detect(grp, predict).Success?
    ensures Unflag(Detect(grp, predict).value) == Gather(grp, DeviceOf, Devices(grp))
    ensures multiset(Unflag(Detect(grp, predict).value)) == multiset(grp)
    ensures |Detect(grp, predict).value| == |grp|
  {
    var devs := Devices(grp);
    DetectFromRows(grp, devs, predict);
    StrLessIsStrictTotalOrder();
    SortedIsDistinct(devs, StrLess);
    GatherIsPermutation(grp, DeviceOf, devs);
    forall a | a in grp ensures DeviceOf(a) in devs {
    }
    SelectInAll(grp, DeviceOf, devs);
    assert |multiset(Unflag(Detect(grp, predict).value))| == |multiset(grp)|;
  }

  /** Every output row comes from the frame of its own device. */
  lemma {:induction false} FromOwnFrame(grp: seq<Aggregate>, devs: seq<string>, predict: Predictor, o: Flagged)
    requires DetectFrom(grp, devs, predict).Success? && o in DetectFrom(grp, devs, predict).value
    ensures o.row.deviceId in devs
    ensures var r := FlagDevice(RowsOf(grp, o.row.deviceId), predict);
            r.Success? && o in r.value
  {
    if devs != [] {
      var init := devs[..|devs| - 1];
      var last := devs[|devs| - 1];
      var out := DetectFrom(grp, init, predict).value;
      var flags := FlagDevice(RowsOf(grp, last), predict).value;
      if o in out {
        FromOwnFrame(grp, init, predict, o);
      } else {
        assert o in flags;
        var i :| 0 <= i < |flags| && flags[i] == o;
        assert o.row in RowsOf(grp, last);
      }
    }
  }

  /** The threshold policy over the whole output: a row of a device with
      fewer than `MinRows` rows is never flagged; a row of any other device
      is flagged exactly where the detector, run on that device's features,
      predicts -1. */
  lemma AnomalyPolicy(grp: seq<Aggregate>, predict: Predictor, o: Flagged)
    requires Detect(grp, predict).Success? && o in Detect(grp, predict).value
    ensures var g := RowsOf(grp, o.row.deviceId);
            && (|g| < MinRows ==> !o.anomaly)
            && (|g| >= MinRows ==>
                  AllComplete(g) &&
                  exists i :: 0 <= i < |g| && g[i] == o.row && (o.anomaly <==> predict(Features(g))[i] == -1))
  {
    FromOwnFrame(grp, Devices(grp), predict, o);
    var g := RowsOf(grp, o.row.deviceId);
    var flags := FlagDevice(g, predict).value;
    var i :| 0 <= i < |flags| && flags[i] == o;
  }

  /** With no aggregate row there is nothing to concatenate and the step
      raises. */
  lemma EmptyTableFails(predict: Predictor)
    ensures Detect([], predict) == Failure(NoFramesError)
  {
  }
}
