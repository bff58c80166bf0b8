/** The whole of `get_zone_transitions_today` in
    archive/unused_core/zone_transition.py: the weekend guard, the scan of
    every ticker, and the write of the found rows to the transition log
    with its one-time `Date` to `Timestamp` migration and its
    backup-and-restart on a log that cannot be read. */
module TransitionLog {
  import opened Wrappers
  import opened Numbers
  import opened Zones
  import opened ArchivedZones
  import opened Snapshot
  import opened TransitionScan

  /** What the feed gives for one ticker: an exception, or raw hourly bars. */
  datatype ScanFeed = ScanRaised | RawBars(bars: seq<RawBar>)

  /** One ticker of the scan with its feed result. */
  datatype ScanInput = ScanInput(ticker: string, feed: ScanFeed)

  /** The rows one ticker contributes: none when the feed raised, returned
      no bars or the ticker has no key-level row; otherwise the rows its scan
      emitted before finishing or raising. */
  function TickerRows(input: ScanInput, table: LevelTable): seq<ScanRow>
  {
    match input.feed
    case ScanRaised => []
    case RawBars(raw) =>
      if |raw| == 0 then []
      else
        var short := ShortName(input.ticker);
        if short !in table then []
        else
          var levelMap := DropNaN(table[short]);
          SeriesRows(input.ticker, DropIncomplete(raw), p => ArchivedZone(p, ZoneDefinitions, levelMap))
  }

  /** The rows of all tickers, in ticker order. */
  function ScanAll(inputs: seq<ScanInput>, table: LevelTable): seq<ScanRow>
    decreases |inputs|
  {
    if |inputs| == 0 then [] else ScanAll(inputs[..|inputs| - 1], table) + TickerRows(inputs[|inputs| - 1], table)
  }

  /** The scan starts afresh for every ticker: scanning two lists of tickers
      one after the other gives the rows of each, concatenated. */
  lemma {:induction false} ScanAllSplits(a: seq<ScanInput>, b: seq<ScanInput>, table: LevelTable)
    ensures ScanAll(a + b, table) == ScanAll(a, table) + ScanAll(b, table)
    decreases |b|
  {
    if |b| == 0 {
      assert a + b == a;
    } else {
      assert (a + b)[..|a + b| - 1] == a + b[..|b| - 1];
      ScanAllSplits(a, b[..|b| - 1], table);
    }
  }

  /** Every row of one ticker names that ticker and changes zone. */
  lemma TickerRowsShape(input: ScanInput, table: LevelTable)
    ensures forall r | r in TickerRows(input, table) :: r.ticker == input.ticker && r.fromZone != r.toZone
  {
    if input.feed.RawBars? && |input.feed.bars| > 0 && ShortName(input.ticker) in table {
      var levelMap := DropNaN(table[ShortName(input.ticker)]);
      var bars := DropIncomplete(input.feed.bars);
      var classify: Classifier := p => ArchivedZone(p, ZoneDefinitions, levelMap);
      assert TickerRows(input, table) == SeriesRows(input.ticker, bars, classify);
      ChangeRowsChain(input.ticker, bars, ZonesUntilRaise(bars, classify));
    }
  }

  /** Every row names a ticker of the run and leaves a zone for a different one. */
  lemma {:induction false} ScanAllRows(inputs: seq<ScanInput>, table: LevelTable)
    ensures forall r | r in ScanAll(inputs, table) ::
              r.fromZone != r.toZone && exists i | 0 <= i < |inputs| :: inputs[i].ticker == r.ticker
    decreases |inputs|
  {
    if |inputs| > 0 {
      var n := |inputs|;
      var prefix := inputs[..n - 1];
      ScanAllRows(prefix, table);
      TickerRowsShape(inputs[n - 1], table);
      forall r | r in ScanAll(inputs, table)
        ensures r.fromZone != r.toZone && exists i | 0 <= i < n :: inputs[i].ticker == r.ticker
      {
        if r in ScanAll(prefix, table) {
          var i :| 0 <= i < n - 1 && prefix[i].ticker == r.ticker;
          assert inputs[i] == prefix[i];
        } else {
          assert inputs[n - 1].ticker == r.ticker;
        }
      }
    }
  }

  /** A ticker whose classification raises at its first bar contributes
      nothing: the exception is caught and the ticker skipped. */
  lemma RaisingTickerSkipped(input: ScanInput, table: LevelTable)
    requires input.feed.RawBars? && ShortName(input.ticker) in table
    requires |DropIncomplete(input.feed.bars)| > 0
    requires ArchivedZone(DropIncomplete(input.feed.bars)[0].close, ZoneDefinitions,
                          DropNaN(table[ShortName(input.ticker)])).Fail?
    ensures TickerRows(input, table) == []
  {
    var bars := DropIncomplete(input.feed.bars);
    var levelMap := DropNaN(table[ShortName(input.ticker)]);
    var classify: Classifier := p => ArchivedZone(p, ZoneDefinitions, levelMap);
    ZonesStopAtRaise(bars, classify, 0);
    assert bars[..0] == [];
  }

  /** A log file as records, the header record first. */
  type Records = seq<seq<string>>

  /** The files the scan may touch: the log and its backup. */
  datatype Disk = Disk(log: Option<Records>, backup: Option<Records>)

  /** The columns of a log the scan creates. */
  const ScanColumns: seq<string> := ["Timestamp", "Ticker", "From Zone", "To Zone", "Price"]

  /** Whether the header still names the legacy `Date` column and not `Timestamp`. */
  predicate NeedsMigration(header: seq<string>)
  {
    "Date" in header && "Timestamp" !in header
  }

  /** The header with every `Date` column renamed to `Timestamp`. */
  function RenameDate(header: seq<string>): (renamed: seq<string>)
    ensures |renamed| == |header|
    ensures forall i | 0 <= i < |header| ::
              renamed[i] == if header[i] == "Date" then "Timestamp" else header[i]
  {
    if |header| == 0 then []
    else [if header[0] == "Date" then "Timestamp" else header[0]] + RenameDate(header[1..])
  }

  /** The migration of a readable log: rewritten with the renamed header
      when it needs it, left alone otherwise. */
  function Migrate(records: Records): (migrated: Records)
    requires |records| > 0
    ensures |migrated| == |records| && migrated[1..] == records[1..]
    ensures NeedsMigration(records[0]) ==>
              && "Timestamp" in migrated[0] && "Date" !in migrated[0] && |migrated[0]| == |records[0]|
              && forall i | 0 <= i < |records[0]| && records[0][i] != "Date" :: migrated[0][i] == records[0][i]
    ensures !NeedsMigration(records[0]) ==> migrated == records
    ensures !NeedsMigration(migrated[0])
  {
    if NeedsMigration(records[0]) then
      var header := RenameDate(records[0]);
      var i :| 0 <= i < |records[0]| && records[0][i] == "Date";
      assert header[i] == "Timestamp";
      [header] + records[1..]
    else records
  }

  /** The migration is idempotent: a migrated log is not rewritten again. */
  lemma MigrateIdempotent(records: Records)
    requires |records| > 0
    ensures Migrate(Migrate(records)) == Migrate(records)
  {
  }

  /** The error `os.rename` raises on Windows when the target exists. */
  const BackupExists: string := "FileExistsError"

  /** What the three file operations inside the `try` would do if reached:
      `pd.read_csv` on the log, the rewrite with the renamed header, and
      the append of the new rows. A raise is taken to happen before the
      file is changed. */
  datatype LogIo = LogIo(readRaises: bool, rewriteRaises: bool, appendRaises: bool)

  /** The operations all succeed. */
  const NoRaise: LogIo := LogIo(false, false, false)

  /** Whether writing to an existing log ends in the `except` handler: the
      read raises (pandas also does on an empty file), the rewrite is
      reached and raises, or the append raises. */
  predicate Restarts(records: Records, io: LogIo)
  {
    || io.readRaises || |records| == 0
    || (NeedsMigration(records[0]) && io.rewriteRaises)
    || io.appendRaises
  }

  /** Writing the found rows. Nothing is written when there are none. A
      missing log is created with a header. An existing log is read,
      rewritten with the renamed header when it needs it, and the rows are
      appended without a header. When one of these steps raises, the log as
      it then is (migrated once the rewrite has succeeded) is renamed to the
      backup and a fresh log with a header takes its place. The module's
      paths are Windows paths, and there `os.rename` refuses to overwrite:
      with a backup already present it raises inside the handler, so the
      call fails and nothing more is written. */
  function WriteLog(disk: Disk, io: LogIo, rows: Records): (after: Result<Disk, string>)
    ensures |rows| == 0 ==> after == Ok(disk)
    ensures |rows| > 0 && disk.log.None? ==> after == Ok(Disk(Some([ScanColumns] + rows), disk.backup))
    ensures |rows| > 0 && disk.log.Some? && !Restarts(disk.log.value, io) ==>
              after == Ok(Disk(Some(Migrate(disk.log.value) + rows), disk.backup))
    ensures |rows| > 0 && disk.log.Some? && Restarts(disk.log.value, io) && disk.backup.Some? ==>
              after == Fail(BackupExists)
    ensures |rows| > 0 && disk.log.Some? && Restarts(disk.log.value, io) && disk.backup.None? ==>
              && after.Ok? && after.value.log == Some([ScanColumns] + rows)
              && after.value.backup.Some?
              && (io.readRaises || |disk.log.value| == 0 || (NeedsMigration(disk.log.value[0]) && io.rewriteRaises) ==>
                    after.value.backup == disk.log)
              && (!io.readRaises && |disk.log.value| > 0 && !(NeedsMigration(disk.log.value[0]) && io.rewriteRaises) ==>
                    io.appendRaises && after.value.backup == Some(Migrate(disk.log.value)))
  {
    if |rows| == 0 then Ok(disk)
    else
      match disk.log
      case None => Ok(Disk(Some([ScanColumns] + rows), disk.backup))
      case Some(records) =>
        if io.readRaises || |records| == 0 then Restart(disk, records, rows)
        else if NeedsMigration(records[0]) && io.rewriteRaises then Restart(disk, records, rows)
        else
          var migrated := Migrate(records);
          if io.appendRaises then Restart(disk, migrated, rows)
          else Ok(Disk(Some(migrated + rows), disk.backup))
  }

  /** The `except` handler: rename the log as it is to the backup (which
      raises when a backup exists) and write a fresh log. */
  function Restart(disk: Disk, current: Records, rows: Records): Result<Disk, string>
  {
    if disk.backup.Some? then Fail(BackupExists)
    else Ok(Disk(Some([ScanColumns] + rows), Some(current)))
  }

  /** Writing fails exactly when a step raises into the handler and a backup
      is already present. A successful write of some rows ends the log with
      those rows and never loses the old log's records: they are in the
      backup, or they stay at the head of the new log. */
  lemma WriteLogFails(disk: Disk, io: LogIo, rows: Records)
    ensures WriteLog(disk, io, rows).Fail? <==>
              |rows| > 0 && disk.log.Some? && Restarts(disk.log.value, io) && disk.backup.Some?
    ensures WriteLog(disk, io, rows).Ok? && |rows| > 0 ==>
              var after := WriteLog(disk, io, rows).value;
              after.log.Some? && |after.log.value| > |rows|
              && after.log.value[|after.log.value| - |rows|..] == rows
    ensures WriteLog(disk, io, rows).Ok? && disk.log.Some? && |rows| > 0 ==>
              var after := WriteLog(disk, io, rows).value;
              || (after.backup.Some? && |after.backup.value| == |disk.log.value|
                  && (|disk.log.value| > 0 ==> after.backup.value[1..] == disk.log.value[1..]))
              || (after.log.Some? && |after.log.value| >= |disk.log.value| > 0
                  && after.log.value[1..|disk.log.value|] == disk.log.value[1..])
  {
    if WriteLog(disk, io, rows).Ok? && |rows| > 0 {
      var after := WriteLog(disk, io, rows).value;
      if disk.log.Some? && !Restarts(disk.log.value, io) {
        var migrated := Migrate(disk.log.value);
        assert (migrated + rows)[1..|disk.log.value|] == migrated[1..];
        assert (migrated + rows)[|migrated|..] == rows;
      } else {
        assert ([ScanColumns] + rows)[1..] == rows;
      }
    }
  }

  /** A log that was read and migrated but whose append raised is renamed
      with its new header: the backup is the migrated log, not the file as
      it was before the call. */
  lemma AppendRaiseBacksUpMigrated(records: Records, rows: Records)
    requires |records| > 0 && |rows| > 0 && NeedsMigration(records[0])
    ensures WriteLog(Disk(Some(records), None), LogIo(false, false, true), rows)
              == Ok(Disk(Some([ScanColumns] + rows), Some(Migrate(records))))
    ensures Migrate(records) != records
  {
    assert !NeedsMigration(Migrate(records)[0]);
  }

  /** The result of one call: the rows found and the files afterwards. */
  datatype TodayResult = TodayResult(rows: seq<ScanRow>, disk: Disk)

  /** `get_zone_transitions_today`, with the weekday (0 = Monday), the feed,
      the level table, the files and what the file operations on the log
      do as inputs. `render` stands for pandas' formatting of a row into CSV
      fields. The call raises when writing the log does. */
  function TransitionsToday(weekday: int, inputs: seq<ScanInput>, table: LevelTable, disk: Disk,
                            io: LogIo, render: ScanRow -> seq<string>): (result: Result<TodayResult, string>)
    ensures weekday >= 5 ==> result == Ok(TodayResult([], disk))
    ensures result.Ok? && |result.value.rows| == 0 ==> result.value.disk == disk
    ensures result.Fail? <==>
              && weekday < 5 && |ScanAll(inputs, table)| > 0
              && disk.log.Some? && Restarts(disk.log.value, io) && disk.backup.Some?
    ensures result.Ok? && weekday < 5 ==> result.value.rows == ScanAll(inputs, table)
  {
    if weekday >= 5 then Ok(TodayResult([], disk))
    else
      var rows := ScanAll(inputs, table);
      var records := seq(|rows|, i requires 0 <= i < |rows| => render(rows[i]));
      WriteLogFails(disk, io, records);
      match WriteLog(disk, io, records)
      case Ok(after) => Ok(TodayResult(rows, after))
      case Fail(e) => Fail(e)
  }

  /** A log written twice (two runs with rows) keeps its migrated header, and
      the second write adds rows after the first ones without a header. */
  lemma SecondWriteAppends(disk: Disk, first: Records, second: Records)
    requires |first| > 0 && |second| > 0
    requires disk.log.Some? && |disk.log.value| > 0
    ensures WriteLog(disk, NoRaise, first).Ok?
    ensures var once := WriteLog(disk, NoRaise, first).value;
            WriteLog(once, NoRaise, second) == Ok(Disk(Some(Migrate(disk.log.value) + first + second), disk.backup))
  {
    var migrated := Migrate(disk.log.value);
    MigrateIdempotent(disk.log.value);
    assert (migrated + first)[0] == migrated[0];
    assert Migrate(migrated + first) == migrated + first;
  }
}
