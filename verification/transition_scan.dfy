/** The per-ticker transition scan of `get_zone_transitions_today` in
    archive/unused_core/zone_transition.py: classify every hourly close with
    the archived classifier and emit a row whenever two consecutive zones
    differ. An exception ends the ticker's scan but keeps the rows it had
    already emitted. */
module TransitionScan {
  import opened Wrappers
  import opened Numbers
  import opened Zones
  import opened ArchivedZones
  import opened Snapshot

  /** An hourly bar as the feed returns it; `otherNaN` records a NaN in a
      column other than Close. */
  datatype RawBar = RawBar(time: int, close: Float, otherNaN: bool)

  /** A bar that survived `dropna`. */
  datatype Bar = Bar(time: int, close: real)

  /** A ticker's classifier: a close to its zone, or the exception it raises. */
  type Classifier = real -> Result<string, ZoneError>

  /** A row of the transition log as the archived scan emits it. */
  datatype ScanRow = ScanRow(time: int, ticker: string, fromZone: string, toZone: string, price: real)

  /** `data.dropna()`: the bars with no NaN cell, in order. */
  function DropIncomplete(raw: seq<RawBar>): (bars: seq<Bar>)
    ensures |bars| <= |raw|
    ensures forall b | b in bars :: RawBar(b.time, Num(b.close), false) in raw
    ensures forall r | r in raw && r.close.Num? && !r.otherNaN :: Bar(r.time, r.close.value) in bars
  {
    if |raw| == 0 then []
    else
      var rest := DropIncomplete(raw[1..]);
      assert forall r | r in raw[1..] :: r in raw;
      if raw[0].close.Num? && !raw[0].otherNaN then [Bar(raw[0].time, raw[0].close.value)] + rest else rest
  }

  /** `dropna` works row by row: dropping from two runs of bars is dropping
      from each and concatenating, so the surviving bars keep their order. */
  lemma {:induction false} DropIncompleteAppend(a: seq<RawBar>, b: seq<RawBar>)
    ensures DropIncomplete(a + b) == DropIncomplete(a) + DropIncomplete(b)
    decreases |a|
  {
    if |a| == 0 {
      assert a + b == b;
    } else {
      assert (a + b)[0] == a[0];
      assert (a + b)[1..] == a[1..] + b;
      DropIncompleteAppend(a[1..], b);
    }
  }

  /** A bar survives exactly when its close and its other cells are present,
      keeping its time and close. */
  lemma DropIncompleteOne(r: RawBar)
    ensures DropIncomplete([r]) == if r.close.Num? && !r.otherNaN then [Bar(r.time, r.close.value)] else []
  {
    assert [r][1..] == [];
  }

  /** The zones of the bars, in order, up to (not including) the first bar
      whose classification raises. */
  function ZonesUntilRaise(bars: seq<Bar>, classify: Classifier): (zones: seq<string>)
    ensures |zones| <= |bars|
    decreases |bars|
  {
    if |bars| == 0 then []
    else
      var before := ZonesUntilRaise(bars[..|bars| - 1], classify);
      if |before| < |bars| - 1 then before
      else
        match classify(bars[|bars| - 1].close)
        case Ok(z) => before + [z]
        case Fail(_) => before
  }

  /** The zones are the bars' classifications, in order, and stop short of
      the bars only at a bar whose classification raises. */
  lemma {:induction false} ZonesUntilRaiseSpec(bars: seq<Bar>, classify: Classifier)
    ensures forall i | 0 <= i < |ZonesUntilRaise(bars, classify)| ::
              classify(bars[i].close) == Ok(ZonesUntilRaise(bars, classify)[i])
    ensures |ZonesUntilRaise(bars, classify)| < |bars| ==>
              classify(bars[|ZonesUntilRaise(bars, classify)|].close).Fail?
    decreases |bars|
  {
    if |bars| > 0 {
      var prefix := bars[..|bars| - 1];
      ZonesUntilRaiseSpec(prefix, classify);
      assert forall i | 0 <= i < |prefix| :: prefix[i] == bars[i];
    }
  }

  /** The rows for a sequence of consecutive zones: one for each position
      whose zone differs from the one before it. */
  function ChangeRows(ticker: string, bars: seq<Bar>, zones: seq<string>): seq<ScanRow>
    requires |zones| <= |bars|
    decreases |zones|
  {
    if |zones| <= 1 then []
    else
      var n := |zones|;
      ChangeRows(ticker, bars, zones[..n - 1])
        + (if zones[n - 1] != zones[n - 2]
           then [ScanRow(bars[n - 1].time, ticker, zones[n - 2], zones[n - 1], bars[n - 1].close)]
           else [])
  }

  /** The rows one ticker's scan emits, given the ticker's classifier. */
  function SeriesRows(ticker: string, bars: seq<Bar>, classify: Classifier): seq<ScanRow>
  {
    ChangeRows(ticker, bars, ZonesUntilRaise(bars, classify))
  }

  /** Once a prefix has raised, longer prefixes keep the same zones. */
  lemma {:induction false} ZonesStopAtRaise(bars: seq<Bar>, classify: Classifier, i: nat)
    requires i < |bars|
    requires |ZonesUntilRaise(bars[..i], classify)| == i
    requires classify(bars[i].close).Fail?
    ensures ZonesUntilRaise(bars, classify) == ZonesUntilRaise(bars[..i], classify)
    decreases |bars| - i
  {
    if i == |bars| - 1 {
      assert bars[..|bars| - 1] == bars[..i];
    } else {
      var shorter := bars[..|bars| - 1];
      assert shorter[..i] == bars[..i];
      ZonesStopAtRaise(shorter, classify, i);
    }
  }

  /** A prefix that has not raised grows by the next bar's zone. */
  lemma ZonesExtend(bars: seq<Bar>, classify: Classifier, i: nat, zone: string)
    requires i < |bars| && |ZonesUntilRaise(bars[..i], classify)| == i
    requires classify(bars[i].close) == Ok(zone)
    ensures ZonesUntilRaise(bars[..i + 1], classify) == ZonesUntilRaise(bars[..i], classify) + [zone]
  {
    assert bars[..i + 1][..i] == bars[..i];
  }

  /** Appending a zone appends a row exactly when it differs from the last one. */
  lemma ChangeRowsExtend(ticker: string, bars: seq<Bar>, zones: seq<string>, zone: string)
    requires |zones| < |bars|
    ensures ChangeRows(ticker, bars, zones + [zone]) ==
              ChangeRows(ticker, bars, zones)
                + (if |zones| > 0 && zone != zones[|zones| - 1]
                   then [ScanRow(bars[|zones|].time, ticker, zones[|zones| - 1], zone, bars[|zones|].close)]
                   else [])
  {
    assert (zones + [zone])[..|zones|] == zones;
  }

  /** The scan loop itself, with the previous zone carried from bar to bar.
      It computes exactly the rows of `SeriesRows` and reports whether an
      exception ended it early. */
  method ScanSeries(ticker: string, bars: seq<Bar>, classify: Classifier)
    returns (rows: seq<ScanRow>, raised: bool)
    ensures rows == SeriesRows(ticker, bars, classify)
    ensures raised <==> |ZonesUntilRaise(bars, classify)| < |bars|
  {
    rows := [];
    raised := false;
    var previous: Option<string> := None;
    ghost var zones: seq<string> := [];
    var i := 0;
    while i < |bars|
      invariant 0 <= i <= |bars| && |zones| == i
      invariant forall k | 0 <= k < i :: classify(bars[k].close) == Ok(zones[k])
      invariant previous == if i == 0 then None else Some(zones[i - 1])
      invariant rows == ChangeRows(ticker, bars, zones)
    {
      var classified := classify(bars[i].close);
      if classified.Fail? {
        raised := true;
        break;
      }
      var zone := classified.value;
      ChangeRowsExtend(ticker, bars, zones, zone);
      if previous.Some? && zone != previous.value {
        rows := rows + [ScanRow(bars[i].time, ticker, previous.value, zone, bars[i].close)];
      }
      previous := Some(zone);
      zones := zones + [zone];
      i := i + 1;
    }
    ZonesOfClassifiedPrefix(bars, classify, zones);
    if raised {
      RaiseEndsScan(ticker, bars, classify, i);
    } else {
      assert bars[..i] == bars;
    }
  }

  /** Zones that classify the first bars one by one are the zones of that
      prefix. */
  lemma {:induction false} ZonesOfClassifiedPrefix(bars: seq<Bar>, classify: Classifier, zones: seq<string>)
    requires |zones| <= |bars|
    requires forall k | 0 <= k < |zones| :: classify(bars[k].close) == Ok(zones[k])
    ensures ZonesUntilRaise(bars[..|zones|], classify) == zones
    decreases |zones|
  {
    var i := |zones|;
    if i == 0 {
      assert bars[..0] == [];
    } else {
      ZonesOfClassifiedPrefix(bars, classify, zones[..i - 1]);
      assert bars[..i][..i - 1] == bars[..i - 1];
      assert bars[..i][i - 1] == bars[i - 1];
      assert zones[..i - 1] + [zones[i - 1]] == zones;
    }
  }

  /** An exception at bar `i` ends the scan with the rows found so far, and
      fewer zones than bars. */
  lemma RaiseEndsScan(ticker: string, bars: seq<Bar>, classify: Classifier, i: nat)
    requires i < |bars|
    requires |ZonesUntilRaise(bars[..i], classify)| == i
    requires classify(bars[i].close).Fail?
    ensures SeriesRows(ticker, bars, classify) == ChangeRows(ticker, bars, ZonesUntilRaise(bars[..i], classify))
    ensures |ZonesUntilRaise(bars, classify)| < |bars|
  {
    ZonesStopAtRaise(bars, classify, i);
  }

  /** The row for a change of zone at position `i`. */
  function RowAt(ticker: string, bars: seq<Bar>, zones: seq<string>, i: nat): ScanRow
    requires 1 <= i < |zones| <= |bars|
  {
    ScanRow(bars[i].time, ticker, zones[i - 1], zones[i], bars[i].close)
  }

  /** A row is emitted for position `i` exactly when the zone there differs
      from the zone before it; the first position never emits, so there are
      at most one fewer rows than zones. */
  lemma ChangeRowsSpec(ticker: string, bars: seq<Bar>, zones: seq<string>)
    requires |zones| <= |bars|
    ensures |zones| > 0 ==> |ChangeRows(ticker, bars, zones)| <= |zones| - 1
    ensures |zones| == 0 ==> ChangeRows(ticker, bars, zones) == []
    ensures forall i | 1 <= i < |zones| && zones[i] != zones[i - 1] ::
              RowAt(ticker, bars, zones, i) in ChangeRows(ticker, bars, zones)
    ensures forall r | r in ChangeRows(ticker, bars, zones) ::
              exists i | 1 <= i < |zones| :: zones[i] != zones[i - 1] && r == RowAt(ticker, bars, zones, i)
  {
    ChangeRowsBound(ticker, bars, zones);
    ChangeRowsComplete(ticker, bars, zones);
    ChangeRowsSound(ticker, bars, zones);
  }

  /** The first position never emits a row. */
  lemma {:induction false} ChangeRowsBound(ticker: string, bars: seq<Bar>, zones: seq<string>)
    requires |zones| <= |bars|
    ensures |zones| > 0 ==> |ChangeRows(ticker, bars, zones)| <= |zones| - 1
    ensures |zones| == 0 ==> ChangeRows(ticker, bars, zones) == []
    decreases |zones|
  {
    if |zones| > 1 {
      ChangeRowsBound(ticker, bars, zones[..|zones| - 1]);
    }
  }

  /** Every change of zone emits its row. */
  lemma {:induction false} ChangeRowsComplete(ticker: string, bars: seq<Bar>, zones: seq<string>)
    requires |zones| <= |bars|
    ensures forall i | 1 <= i < |zones| && zones[i] != zones[i - 1] ::
              RowAt(ticker, bars, zones, i) in ChangeRows(ticker, bars, zones)
    decreases |zones|
  {
    if |zones| > 1 {
      var n := |zones|;
      var prefix := zones[..n - 1];
      ChangeRowsComplete(ticker, bars, prefix);
      var before := ChangeRows(ticker, bars, prefix);
      var extra := if zones[n - 1] != zones[n - 2] then [RowAt(ticker, bars, zones, n - 1)] else [];
      assert ChangeRows(ticker, bars, zones) == before + extra;
      forall i | 1 <= i < n && zones[i] != zones[i - 1]
        ensures RowAt(ticker, bars, zones, i) in before + extra
      {
        if i < n - 1 {
          assert RowAt(ticker, bars, prefix, i) == RowAt(ticker, bars, zones, i);
          assert RowAt(ticker, bars, prefix, i) in before;
        } else {
          assert RowAt(ticker, bars, zones, i) in extra;
        }
      }
    }
  }

  /** Every emitted row is the row of a change of zone. */
  lemma {:induction false} ChangeRowsSound(ticker: string, bars: seq<Bar>, zones: seq<string>)
    requires |zones| <= |bars|
    ensures forall r | r in ChangeRows(ticker, bars, zones) ::
              exists i | 1 <= i < |zones| :: zones[i] != zones[i - 1] && r == RowAt(ticker, bars, zones, i)
    decreases |zones|
  {
    if |zones| > 1 {
      var n := |zones|;
      var prefix := zones[..n - 1];
      ChangeRowsSound(ticker, bars, prefix);
      var before := ChangeRows(ticker, bars, prefix);
      var extra := if zones[n - 1] != zones[n - 2] then [RowAt(ticker, bars, zones, n - 1)] else [];
      assert ChangeRows(ticker, bars, zones) == before + extra;
      forall r | r in before + extra
        ensures exists i | 1 <= i < n :: zones[i] != zones[i - 1] && r == RowAt(ticker, bars, zones, i)
      {
        if r in before {
          var i :| 1 <= i < n - 1 && prefix[i] != prefix[i - 1] && r == RowAt(ticker, bars, prefix, i);
          assert zones[i] != zones[i - 1] && r == RowAt(ticker, bars, zones, i);
        } else {
          assert r == RowAt(ticker, bars, zones, n - 1) && zones[n - 1] != zones[n - 2];
        }
      }
    }
  }

  /** Consecutive rows chain: each row leaves the zone the previous row
      entered; the first leaves the first zone, the last enters the last one,
      and no row stays in its zone. */
  lemma ChangeRowsChain(ticker: string, bars: seq<Bar>, zones: seq<string>)
    requires |zones| <= |bars|
    ensures var rows := ChangeRows(ticker, bars, zones);
            && (forall k | 0 <= k < |rows| - 1 :: rows[k + 1].fromZone == rows[k].toZone)
            && (forall r | r in rows :: r.ticker == ticker && r.fromZone != r.toZone)
            && (|rows| > 0 ==> rows[0].fromZone == zones[0] && rows[|rows| - 1].toZone == zones[|zones| - 1])
  {
    ChangeRowsLinked(ticker, bars, zones);
    ChangeRowsSound(ticker, bars, zones);
    forall r | r in ChangeRows(ticker, bars, zones)
      ensures r.ticker == ticker && r.fromZone != r.toZone
    {
      var i :| 1 <= i < |zones| && zones[i] != zones[i - 1] && r == RowAt(ticker, bars, zones, i);
    }
  }

  /** Consecutive rows link up, and the rows run from the first zone to the
      last one. */
  lemma {:induction false} ChangeRowsLinked(ticker: string, bars: seq<Bar>, zones: seq<string>)
    requires |zones| <= |bars|
    ensures var rows := ChangeRows(ticker, bars, zones);
            && (forall k | 0 <= k < |rows| - 1 :: rows[k + 1].fromZone == rows[k].toZone)
            && (|rows| > 0 ==> rows[0].fromZone == zones[0] && rows[|rows| - 1].toZone == zones[|zones| - 1])
    decreases |zones|
  {
    if |zones| > 1 {
      var n := |zones|;
      var prefix := zones[..n - 1];
      ChangeRowsLinked(ticker, bars, prefix);
      var before := ChangeRows(ticker, bars, prefix);
      if |before| == 0 && zones[n - 1] != zones[n - 2] {
        // The only row leaves the zone held since the first position.
        assert forall j | 0 <= j < n - 1 :: prefix[j] == prefix[0] by {
          ChangeRowsSpec(ticker, bars, prefix);
          ConstantWithoutChanges(prefix, ticker, bars);
        }
      }
    }
  }

  /** Zones that produce no row are all equal to the first one. */
  lemma {:induction false} ConstantWithoutChanges(zones: seq<string>, ticker: string, bars: seq<Bar>)
    requires |zones| <= |bars|
    requires ChangeRows(ticker, bars, zones) == []
    ensures forall j | 0 <= j < |zones| :: zones[j] == zones[0]
    decreases |zones|
  {
    if |zones| > 1 {
      var prefix := zones[..|zones| - 1];
      ConstantWithoutChanges(prefix, ticker, bars);
      assert forall j | 0 <= j < |prefix| :: prefix[j] == zones[j];
    }
  }

  /** One ticker's scan emits at most one row fewer than it has bars. */
  lemma SeriesRowsBound(ticker: string, bars: seq<Bar>, classify: Classifier)
    ensures |bars| > 0 ==> |SeriesRows(ticker, bars, classify)| <= |bars| - 1
    ensures |bars| == 0 ==> SeriesRows(ticker, bars, classify) == []
  {
    ChangeRowsSpec(ticker, bars, ZonesUntilRaise(bars, classify));
  }
}

