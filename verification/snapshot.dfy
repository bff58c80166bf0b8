/** One run of `generate_current_zone_snapshot` in core/zone_locator.py: for
    each ticker in list order, classify its latest close, append a history
    row, emit a transition row when the zone differs from the last known one,
    and update the last-known-zone map. The price feed, the key-level table
    and the clock are inputs. */
module Snapshot {
  import opened Wrappers
  import opened Numbers
  import opened Zones

  /** What the price feed gives for one ticker: an exception, or the hourly
      closes of the day (possibly none). */
  datatype Feed = FeedRaised | Closes(closes: seq<Float>)

  /** How the ticker's appends to the two CSV logs fare. `to_csv` raises
      inside the ticker's `try` when the file cannot be written. The logs
      are named relative to the working directory, while the module creates
      its reports folder next to its own package, so an append fails, for
      one, when the run starts elsewhere and no reports folder exists there.
      The transition append is reached only when a transition fires. */
  datatype Appends = AppendsSucceed | HistoryAppendRaises | TransitionAppendRaises

  /** One ticker of the run with what the feed, the clock and the file
      system did for it (`today` is the history row's date, `now` the
      transition row's stamp). */
  datatype TickerInput = TickerInput(ticker: string, feed: Feed, today: string, now: string, appends: Appends)

  /** The key-level table: one row of possibly-NaN cells per short ticker. */
  type LevelTable = map<string, map<string, Float>>

  /** A row of reports/zone_history.csv. */
  datatype HistoryRow = HistoryRow(date: string, ticker: string, zone: string)

  /** A row of reports/zone_transition_log.csv as the live engine writes it. */
  datatype TransitionRow = TransitionRow(date: string, ticker: string, fromZone: string, toZone: string)

  /** A row of the returned snapshot table. */
  datatype Reading = Reading(ticker: string, zone: string, price: Float)

  /** Everything one run produces: the last-known-zone map to be saved, the
      rows appended to the two logs, and the snapshot table. */
  datatype Snapshot = Snapshot(state: map<string, string>, history: seq<HistoryRow>,
                               transitions: seq<TransitionRow>, readings: seq<Reading>)

  /** The tickers the engine tracks, `TICKER_LIST`. */
  const TickerList: seq<string> := [
    "GBPNZD=X", "EURCHF=X", "NZDCAD=X", "USDZAR=X", "CADCHF=X",
    "GBPJPY=X", "AUDNZD=X", "GBPCHF=X", "USDCAD=X", "CADJPY=X",
    "AUDJPY=X", "EURUSD=X", "EURGBP=X", "USDNOK=X", "NOKSEK=X"
  ]

  /** Whether `t` contains the substring "=X". */
  predicate HasEqX(t: string)
  {
    exists i | 0 <= i < |t| - 1 :: t[i] == '=' && t[i + 1] == 'X'
  }

  /** `t.split("=")[0]`: everything before the first '='. */
  function BeforeEquals(t: string): (p: string)
    ensures p <= t && '=' !in p
    ensures |p| < |t| ==> t[|p|] == '='
  {
    if |t| == 0 then []
    else if t[0] == '=' then []
    else [t[0]] + BeforeEquals(t[1..])
  }

  /** The key-level table's row name for a ticker. */
  function ShortName(t: string): string
  {
    if HasEqX(t) then BeforeEquals(t) + "=X" else t
  }

  /** A symbol followed by "=X", with no other '=', is its own short name. */
  lemma ShortNameOfYahooSymbol(base: string)
    requires '=' !in base
    ensures ShortName(base + "=X") == base + "=X"
  {
    var t := base + "=X";
    assert t[|base|] == '=' && t[|base| + 1] == 'X';
    var p := BeforeEquals(t);
    assert forall i | 0 <= i < |base| :: t[i] == base[i] && t[i] != '=';
    assert |p| == |base|;
    assert p == base;
  }

  /** Every tracked ticker is its own short name. */
  lemma TrackedTickersAreShort()
    ensures forall t | t in TickerList :: ShortName(t) == t
  {
    forall t | t in TickerList
      ensures ShortName(t) == t
    {
      assert SixLetterSymbol(t);
      SixLetterSymbolIsShort(t);
    }
  }

  /** The form of every tracked ticker: six characters other than '='
      followed by "=X". */
  predicate SixLetterSymbol(t: string)
  {
    && |t| == 8 && t[6] == '=' && t[7] == 'X'
    && forall i | 0 <= i < 6 :: t[i] != '='
  }

  /** A ticker of that form is its own short name. */
  lemma SixLetterSymbolIsShort(t: string)
    requires SixLetterSymbol(t)
    ensures ShortName(t) == t
  {
    assert t[..6] + "=X" == t;
    ShortNameOfYahooSymbol(t[..6]);
  }

  /** `levels_series.dropna()`: the row's non-NaN cells. */
  function DropNaN(row: map<string, Float>): (levelMap: map<string, real>)
    ensures forall k :: k in levelMap <==> k in row && row[k].Num?
    ensures forall k | k in levelMap :: levelMap[k] == row[k].value
  {
    map k | k in row && row[k].Num? :: row[k].value
  }

  /** The zone of a close: a NaN close fails every comparison, so the walk
      ends with "Unknown". */
  function ZoneOfClose(close: Float, levelMap: map<string, real>): string
  {
    match close
    case NaN => UnknownZone
    case Num(p) => CurrentZone(p, ZoneDefinitions, levelMap)
  }

  /** What the run learns about one ticker. */
  datatype Observation = Skipped | Observed(price: Float, zone: string)

  /** The per-ticker `try` block up to the classification: a raising feed,
      an empty result or a ticker missing from the level table skips it. */
  function Observe(input: TickerInput, table: LevelTable): Observation
  {
    match input.feed
    case FeedRaised => Skipped
    case Closes(closes) =>
      if |closes| == 0 then Skipped
      else
        var short := ShortName(input.ticker);
        if short !in table then Skipped
        else
          var close := closes[|closes| - 1];
          Observed(close, ZoneOfClose(close, DropNaN(table[short])))
  }

  /** Whether the ticker's classification fires a transition against `state`. */
  predicate Fires(state: map<string, string>, ticker: string, zone: string)
  {
    ticker in state && state[ticker] != zone
  }

  /** The ticker was classified and its history row was written. */
  predicate WritesHistory(input: TickerInput, table: LevelTable)
  {
    Observe(input, table).Observed? && input.appends != HistoryAppendRaises
  }

  /** The ticker's `try` block ran to its end against `state`: the history
      row was written, and so was the transition row if one fired. */
  predicate Completes(state: map<string, string>, input: TickerInput, table: LevelTable)
  {
    && WritesHistory(input, table)
    && !(input.appends == TransitionAppendRaises && Fires(state, input.ticker, Observe(input, table).zone))
  }

  /** Processing one ticker. A skipped ticker, or one whose history append
      raises, leaves everything as it was. When the transition append
      raises, only the history row stays written. A completed one appends
      one history row and one reading and records its zone; a transition
      row, from the previous zone to the new one, is appended exactly when a
      previous zone is known and differs. */
  function Step(snap: Snapshot, input: TickerInput, table: LevelTable): (next: Snapshot)
    ensures !WritesHistory(input, table) ==> next == snap
    ensures WritesHistory(input, table) ==>
              next.history == snap.history + [HistoryRow(input.today, input.ticker, Observe(input, table).zone)]
    ensures WritesHistory(input, table) && !Completes(snap.state, input, table) ==>
              next.state == snap.state && next.transitions == snap.transitions && next.readings == snap.readings
    ensures Completes(snap.state, input, table) ==>
              var zone := Observe(input, table).zone;
              && next.state.Keys == snap.state.Keys + {input.ticker}
              && next.state[input.ticker] == zone
              && (forall t | t in snap.state && t != input.ticker :: next.state[t] == snap.state[t])
              && next.readings == snap.readings + [Reading(input.ticker, zone, Observe(input, table).price)]
              && (Fires(snap.state, input.ticker, zone) ==>
                    next.transitions == snap.transitions
                      + [TransitionRow(input.now, input.ticker, snap.state[input.ticker], zone)])
              && (!Fires(snap.state, input.ticker, zone) ==> next.transitions == snap.transitions)
  {
    match Observe(input, table)
    case Skipped => snap
    case Observed(price, zone) =>
      if input.appends == HistoryAppendRaises then snap
      else
        var history := snap.history + [HistoryRow(input.today, input.ticker, zone)];
        var previous := if input.ticker in snap.state then Some(snap.state[input.ticker]) else None;
        if previous.Some? && previous.value != zone then
          if input.appends == TransitionAppendRaises then snap.(history := history)
          else
            Snapshot(snap.state[input.ticker := zone], history,
                     snap.transitions + [TransitionRow(input.now, input.ticker, previous.value, zone)],
                     snap.readings + [Reading(input.ticker, zone, price)])
        else
          Snapshot(snap.state[input.ticker := zone], history, snap.transitions,
                   snap.readings + [Reading(input.ticker, zone, price)])
  }

  /** The whole loop over the tickers, starting from the loaded state. */
  function Run(inputs: seq<TickerInput>, table: LevelTable, state: map<string, string>): Snapshot
    decreases |inputs|
  {
    if |inputs| == 0 then Snapshot(state, [], [], [])
    else Step(Run(inputs[..|inputs| - 1], table, state), inputs[|inputs| - 1], table)
  }

  /** The zone of the last completed occurrence of ticker `t`, if any. */
  function LastZone(inputs: seq<TickerInput>, table: LevelTable, state: map<string, string>, t: string): Option<string>
    decreases |inputs|
  {
    if |inputs| == 0 then None
    else
      var last := inputs[|inputs| - 1];
      var prefix := inputs[..|inputs| - 1];
      if last.ticker == t && Completes(Run(prefix, table, state).state, last, table)
      then Some(Observe(last, table).zone)
      else LastZone(prefix, table, state, t)
  }

  /** How many tickers of the run wrote their history row. */
  function HistoryCount(inputs: seq<TickerInput>, table: LevelTable): nat
    decreases |inputs|
  {
    if |inputs| == 0 then 0
    else HistoryCount(inputs[..|inputs| - 1], table)
         + (if WritesHistory(inputs[|inputs| - 1], table) then 1 else 0)
  }

  /** How many tickers of the run completed. */
  function CompletedCount(inputs: seq<TickerInput>, table: LevelTable, state: map<string, string>): nat
    decreases |inputs|
  {
    if |inputs| == 0 then 0
    else
      var prefix := inputs[..|inputs| - 1];
      CompletedCount(prefix, table, state)
        + (if Completes(Run(prefix, table, state).state, inputs[|inputs| - 1], table) then 1 else 0)
  }

  /** The saved state: a ticker's entry is the zone of its last completed
      occurrence in this run; a ticker skipped, failed or absent from the
      run keeps its old entry; no entry is ever dropped. */
  lemma {:induction false} RunState(inputs: seq<TickerInput>, table: LevelTable,
                                    state: map<string, string>, t: string)
    ensures t in Run(inputs, table, state).state <==> t in state || LastZone(inputs, table, state, t).Some?
    ensures LastZone(inputs, table, state, t).Some? ==>
              Run(inputs, table, state).state[t] == LastZone(inputs, table, state, t).value
    ensures LastZone(inputs, table, state, t).None? && t in state ==>
              Run(inputs, table, state).state[t] == state[t]
    decreases |inputs|
  {
    if |inputs| > 0 {
      RunState(inputs[..|inputs| - 1], table, state, t);
    }
  }

  /** One history row per ticker that wrote it, one reading per completed
      ticker, and at most that many transition rows, none of which leads
      from a zone to itself. */
  lemma {:induction false} RunCounts(inputs: seq<TickerInput>, table: LevelTable, state: map<string, string>)
    ensures |Run(inputs, table, state).history| == HistoryCount(inputs, table)
    ensures |Run(inputs, table, state).readings| == CompletedCount(inputs, table, state) <= HistoryCount(inputs, table)
    ensures |Run(inputs, table, state).transitions| <= CompletedCount(inputs, table, state)
    ensures forall r | r in Run(inputs, table, state).transitions :: r.fromZone != r.toZone
    decreases |inputs|
  {
    if |inputs| > 0 {
      RunCounts(inputs[..|inputs| - 1], table, state);
    }
  }

  /** Every observed ticker of the run either has its observed zone in
      `state` already, or fails before it could change anything: its
      history append raises, or it is remembered and its transition append
      raises. */
  ghost predicate Settled(inputs: seq<TickerInput>, table: LevelTable, state: map<string, string>)
  {
    forall i | 0 <= i < |inputs| && Observe(inputs[i], table).Observed? ::
      || inputs[i].appends == HistoryAppendRaises
      || (inputs[i].ticker in state
          && (state[inputs[i].ticker] == Observe(inputs[i], table).zone || inputs[i].appends == TransitionAppendRaises))
  }

  /** From a settled state, a run writes no transition and changes no entry. */
  lemma {:induction false} SettledRunIsQuiet(inputs: seq<TickerInput>, table: LevelTable,
                                             state: map<string, string>)
    requires Settled(inputs, table, state)
    ensures Run(inputs, table, state).state == state
    ensures Run(inputs, table, state).transitions == []
    decreases |inputs|
  {
    if |inputs| > 0 {
      var prefix := inputs[..|inputs| - 1];
      var last := inputs[|inputs| - 1];
      assert forall i | 0 <= i < |prefix| :: prefix[i] == inputs[i];
      SettledRunIsQuiet(prefix, table, state);
      if Completes(state, last, table) {
        assert state[last.ticker := Observe(last, table).zone] == state;
      }
    }
  }

  /** No ticker appears twice in the run. */
  predicate DistinctTickers(inputs: seq<TickerInput>)
  {
    forall i, j | 0 <= i < j < |inputs| :: inputs[i].ticker != inputs[j].ticker
  }

  /** A ticker that does not occur in the run has no last zone. */
  lemma {:induction false} LastZoneAbsent(inputs: seq<TickerInput>, table: LevelTable, state: map<string, string>, t: string)
    requires forall k | 0 <= k < |inputs| :: inputs[k].ticker != t
    ensures LastZone(inputs, table, state, t).None?
    decreases |inputs|
  {
    if |inputs| > 0 {
      var prefix := inputs[..|inputs| - 1];
      assert forall k | 0 <= k < |prefix| :: prefix[k] == inputs[k];
      LastZoneAbsent(prefix, table, state, t);
    }
  }

  /** With distinct tickers, a ticker that completed has its zone as its
      last zone. */
  lemma {:induction false} LastZoneOfDistinct(inputs: seq<TickerInput>, table: LevelTable,
                                              state: map<string, string>, i: nat)
    requires DistinctTickers(inputs)
    requires i < |inputs| && Completes(Run(inputs[..i], table, state).state, inputs[i], table)
    ensures LastZone(inputs, table, state, inputs[i].ticker) == Some(Observe(inputs[i], table).zone)
    decreases |inputs|
  {
    if i < |inputs| - 1 {
      var prefix := inputs[..|inputs| - 1];
      assert prefix[i] == inputs[i];
      assert prefix[..i] == inputs[..i];
      LastZoneOfDistinct(prefix, table, state, i);
    } else {
      assert inputs[..|inputs| - 1] == inputs[..i];
    }
  }

  /** With distinct tickers, each ticker meets the loaded state's entry for
      it: it is remembered when it reaches the loop exactly when it was
      remembered at the start, with the same zone. */
  lemma StateBeforeDistinct(inputs: seq<TickerInput>, table: LevelTable, state: map<string, string>, i: nat)
    requires DistinctTickers(inputs)
    requires i < |inputs|
    ensures var before := Run(inputs[..i], table, state).state;
            && (inputs[i].ticker in before <==> inputs[i].ticker in state)
            && (inputs[i].ticker in state ==> before[inputs[i].ticker] == state[inputs[i].ticker])
  {
    var prefix := inputs[..i];
    assert forall k | 0 <= k < |prefix| :: prefix[k] == inputs[k];
    LastZoneAbsent(prefix, table, state, inputs[i].ticker);
    RunState(prefix, table, state, inputs[i].ticker);
  }

  /** Running twice in a row on unchanged prices, level table and file
      system writes no transition the second time, and leaves the saved
      state as the first run left it. */
  lemma SecondRunQuiet(inputs: seq<TickerInput>, table: LevelTable, state: map<string, string>)
    requires DistinctTickers(inputs)
    ensures Run(inputs, table, Run(inputs, table, state).state).transitions == []
    ensures Run(inputs, table, Run(inputs, table, state).state).state == Run(inputs, table, state).state
  {
    var first := Run(inputs, table, state);
    forall i | 0 <= i < |inputs| && Observe(inputs[i], table).Observed?
      ensures || inputs[i].appends == HistoryAppendRaises
              || (inputs[i].ticker in first.state
                  && (first.state[inputs[i].ticker] == Observe(inputs[i], table).zone
                      || inputs[i].appends == TransitionAppendRaises))
    {
      var t := inputs[i].ticker;
      StateBeforeDistinct(inputs, table, state, i);
      RunState(inputs, table, state, t);
      if Completes(Run(inputs[..i], table, state).state, inputs[i], table) {
        LastZoneOfDistinct(inputs, table, state, i);
      }
    }
    SettledRunIsQuiet(inputs, table, first.state);
  }

  /** A NaN level is the same as a missing one: a ticker's zone does not
      change when one of its level cells is NaN rather than absent. */
  lemma NaNLevelIsMissing(close: Float, row: map<string, Float>, name: string)
    ensures ZoneOfClose(close, DropNaN(row[name := NaN])) == ZoneOfClose(close, DropNaN(row - {name}))
  {
    assert DropNaN(row[name := NaN]) == DropNaN(row - {name});
  }

  /** What one call returns, besides the state it saves and the rows it
      appends: the current-results table, or the exception it raised. */
  datatype SnapshotResult = SnapshotResult(run: Snapshot, returned: Result<seq<Reading>, string>)

  /** `generate_current_zone_snapshot` as written: the state is saved, then
      the results frame is sorted by "Current Zone". With no reading the
      frame has no such column and `sort_values` raises `KeyError`. */
  function GenerateSnapshotAsWritten(inputs: seq<TickerInput>, table: LevelTable, state: map<string, string>)
    : (r: SnapshotResult)
    ensures r.run == Run(inputs, table, state)
    ensures r.returned.Ok? ==> r.returned.value == r.run.readings && |r.returned.value| > 0
  {
    var run := Run(inputs, table, state);
    if |run.readings| == 0 then SnapshotResult(run, Fail("KeyError: 'Current Zone'"))
    else SnapshotResult(run, Ok(run.readings))
  }

  /** The call returning the empty table when no ticker completed, which the
      callers' `.empty` tests expect. */
  function GenerateSnapshot(inputs: seq<TickerInput>, table: LevelTable, state: map<string, string>): SnapshotResult
  {
    var run := Run(inputs, table, state);
    SnapshotResult(run, Ok(run.readings))
  }

  /** What the zone-locator page makes of the call: the readings, the "No
      zone data available" warning, or the caught exception's error. */
  datatype ZoneView = ZoneData(readings: seq<Reading>) | NoZoneData | LoadError(message: string)

  function ZonePage(result: SnapshotResult): ZoneView
  {
    match result.returned
    case Fail(e) => LoadError(e)
    case Ok(readings) => if |readings| == 0 then NoZoneData else ZoneData(readings)
  }

  /** As written, a run where no ticker completes still saves its state and
      appends its rows, but the call raises, and the page shows a load error
      instead of its "no zone data" warning, which it never reaches. */
  lemma SnapshotRaisesWithoutReadings(inputs: seq<TickerInput>, table: LevelTable, state: map<string, string>)
    ensures var r := GenerateSnapshotAsWritten(inputs, table, state);
            && (r.returned.Fail? <==> CompletedCount(inputs, table, state) == 0)
            && (ZonePage(r).LoadError? <==> CompletedCount(inputs, table, state) == 0)
            && !ZonePage(r).NoZoneData?
  {
    RunCounts(inputs, table, state);
  }

  /** When every feed raises, the call as written raises, and the page
      shows the load error. */
  lemma AllFeedsFailingRaises(inputs: seq<TickerInput>, table: LevelTable, state: map<string, string>)
    requires forall i | 0 <= i < |inputs| :: inputs[i].feed == FeedRaised
    ensures GenerateSnapshotAsWritten(inputs, table, state).returned == Fail("KeyError: 'Current Zone'")
    ensures ZonePage(GenerateSnapshotAsWritten(inputs, table, state)) == LoadError("KeyError: 'Current Zone'")
  {
    NoneCompletes(inputs, table, state);
    RunCounts(inputs, table, state);
  }

  /** With every feed raising, no ticker completes. */
  lemma {:induction false} NoneCompletes(inputs: seq<TickerInput>, table: LevelTable, state: map<string, string>)
    requires forall i | 0 <= i < |inputs| :: inputs[i].feed == FeedRaised
    ensures CompletedCount(inputs, table, state) == 0
    decreases |inputs|
  {
    if |inputs| > 0 {
      var prefix := inputs[..|inputs| - 1];
      assert forall i | 0 <= i < |prefix| :: prefix[i] == inputs[i];
      NoneCompletes(prefix, table, state);
    }
  }

  /** With the empty table returned, the page warns "no zone data" exactly
      when no ticker completed, never shows a load error, and otherwise
      shows one reading per completed ticker. */
  lemma ZonePageSpec(inputs: seq<TickerInput>, table: LevelTable, state: map<string, string>)
    ensures var page := ZonePage(GenerateSnapshot(inputs, table, state));
            && (page.NoZoneData? <==> CompletedCount(inputs, table, state) == 0)
            && !page.LoadError?
            && (page.ZoneData? ==> |page.readings| == CompletedCount(inputs, table, state))
  {
    RunCounts(inputs, table, state);
  }

  /** The tracked tickers are pairwise distinct. */
  lemma TrackedTickersDistinct()
    ensures forall i, j | 0 <= i < j < |TickerList| :: TickerList[i] != TickerList[j]
  {
  }
}

