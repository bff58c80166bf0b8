# FX zone dashboard — a Dafny model of its rule engine

The dashboard tracks a fixed list of FX pairs against a table of key price
levels ("Purple upper", "Red  Upper", "Yellow Upper", "Green", "Yellow Lower",
"Red Lower", "Purple lower"). These levels cut the price axis into eight
named zones. A ticker's zone is found by resolving the level names against
that ticker's row of the level table. The zones are then walked from the
top, and the first one containing the price wins. Each snapshot run
classifies every tracked ticker's latest close. It appends a history row.
When the zone differs from the one remembered from the previous run, it also
appends a transition row and updates the remembered zone.

Besides the live classifier, the repository keeps an archived variant. That
variant scans a whole day of hourly closes per ticker and writes the
transitions it finds to a CSV log. The log has a one-time `Date` to
`Timestamp` header migration. When reading, rewriting or appending to the
existing log raises, the log is backed up and restarted. There is also a cleaner that drops malformed log lines. On
top of this sit the rule sets of the dashboard pages:

- the zone-transitions page, which lists the last 24 hours of the log;
- the currency-strength meter, which averages signed daily pair changes per
  currency and ranks the currencies;
- the correlation page, which guards, enumerates and buckets the pairwise
  correlations;
- the archived MACD crossover back-test, a position state machine over bars.

The model is a set of pure Dafny functions over immutable datatypes. Numbers
are mathematical reals. `Float` adds pandas' NaN, whose comparisons are all
false. `ExtReal` adds the ±infinity that the zone table uses as outer bounds.
Everything the program gets from outside becomes a parameter:

- price feeds, the key-level table, the clock, the weekday;
- timestamp parsing, `np.mean`, `round`, and the correlation matrix.

Modules follow the program's files:

| module | file |
|---|---|
| `Wrappers`, `Numbers` | shared `Option`/`Result`, NaN-aware floats, extended reals |
| `Zones` | core/zone_locator.py — zone table and classifier |
| `Snapshot` | core/zone_locator.py — the snapshot run; viz/zone_locator.py:124-138 — the page loading it |
| `ArchivedZones` | archive/unused_core/zone_transition.py — archived classifier and `check_proximity` |
| `TransitionScan` | archive/unused_core/zone_transition.py — per-ticker scan |
| `TransitionLog` | archive/unused_core/zone_transition.py — all tickers and the log file |
| `CleanLog` | archive/unused_core/clean_zone_log.py |
| `Sorting` | the descending sort shared by the pages |
| `TransitionsPage` | viz/zone_transitions.py |
| `Strength` | viz/strength_meter.py |
| `Correlation` | viz/fx_correlation.py |
| `Macd` | archive/unused_core/strategies/macd_strategy.py |

## Model

| member | source | states |
|---|---|---|
| Zones.Walk | core/zone_locator.py:62-67 | The zone is the name of the first table row that contains the price. It is "Unknown" exactly when no row contains it. |
| Zones.CurrentZone | core/zone_locator.py:51-67 | The live classifier: resolve the level names against the stored levels, then walk the table. Zones.OrderedLevelsClassify states its result for complete, strictly decreasing levels (exactly one zone, never "Unknown"), and Zones.MissingInnerLevelClosesZone states the zone a missing inner level shuts. |
| Zones.ZoneTableChained | core/zone_locator.py:29-38 | The table has eight rows from +inf down to -inf. Each row's upper bound is the previous row's lower bound. The seven inner bounds are the seven level names in order. |
| Zones.ResolveFromValue | core/zone_locator.py:53-60 | Resolution defines exactly the names the table mentions. Each gets the stored level if present, otherwise the default of the last bound that mentions it. Names the table does not mention are left alone. |
| Zones.ReferencedIff | core/zone_locator.py:53-60 | A name gets resolved if and only if some row of the table mentions it. |
| Zones.LastDefaultOfUpper | core/zone_locator.py:55-60 | A name last seen as an upper bound defaults to +inf. |
| Zones.ResolvedLevel | core/zone_locator.py:53-60 | The live resolution defines exactly the seven level names. A stored level is used as is. A missing "Purple lower" becomes -inf, and any other missing level becomes +inf. |
| Zones.LevelNamesDistinct | core/zone_locator.py:29-38 | The seven level names in the table are pairwise different. |
| Zones.LiveLevelsDomain | core/zone_locator.py:53-60 | A name is resolved if and only if it is one of the seven level names. |
| Zones.LiveLevelValue | core/zone_locator.py:53-60 | Each level name resolves to its stored value when present. A missing "Purple lower" becomes -inf, and any other missing level becomes +inf. |
| Zones.InnerLevelValue | core/zone_locator.py:53-57 | Each of the five inner levels resolves to its stored value, or to +inf when it is missing. |
| Zones.ChainedLastDefault | core/zone_locator.py:53-57 | In a table whose rows chain and whose inner bounds are distinct names, each name is last met as the upper bound of the row below it, so its default is +inf. |
| Zones.ZoneNamesDistinct | core/zone_locator.py:29-38 | The eight zone names are pairwise different, and none is "Unknown". |
| Zones.MissingInnerLevelClosesZone | core/zone_locator.py:53-67 | When one of the inner levels is missing, the zone just below it has +inf as its upper bound and so can never be reported. |
| Zones.CountSplitsDecreasing | core/zone_locator.py:62-67 | For strictly decreasing levels, the prices at or above the levels are a prefix, and the price is above all the rest. |
| Zones.OrderedLevelsClassify | core/zone_locator.py:29-67 | When all seven levels are present and strictly decreasing, every price lies in exactly one zone. That zone is the reported one, and it is never "Unknown". |
| Zones.OrderedBands | core/zone_locator.py:29-67 | With all levels present and strictly decreasing, the band that holds a price is the one indexed by how many levels lie at or above it, and no other band holds it. |
| Snapshot.BeforeEquals | core/zone_locator.py:82 | The short name is the longest prefix free of '=', and it stops at the first '='. |
| Snapshot.ShortNameOfYahooSymbol | core/zone_locator.py:82 | Shortening a Yahoo symbol `XXXYYY=X` gives back the symbol unchanged, so the level table is looked up by the full symbol. |
| Snapshot.TrackedTickersAreShort | core/zone_locator.py:82 | Every ticker of the tracked list (lines 20-24) is its own short name. |
| Snapshot.NaNLevelIsMissing | core/zone_locator.py:83-85 | A NaN level cell classifies a ticker exactly as an absent one would, because `dropna` removes it before the levels are looked up. |
| Snapshot.Observe | core/zone_locator.py:75-85 | The per-ticker classification: a raising feed, an empty download or a ticker missing from the level table is skipped, and otherwise the last close is classified against the ticker's non-NaN levels. Snapshot.Step states what each outcome does to the run. |
| Snapshot.Step | core/zone_locator.py:73-114 | A skipped ticker (feed error, no data, no level row) or one whose history append raises changes nothing. If the transition append raises, only the history row stays written: no reading, and the last zone is not updated. A completed ticker adds one history row and one reading, and sets its last zone to the new zone. A transition row is added exactly when the new zone differs from a remembered one. |
| Snapshot.Run | core/zone_locator.py:73-114 | The loop over the tracked tickers from the loaded state, one step each. Snapshot.RunState, Snapshot.RunCounts and Snapshot.SecondRunQuiet state its contract. |
| Snapshot.RunState | core/zone_locator.py:73-117 | After a run, a ticker is remembered exactly when it was remembered before or completed in the run. Its zone is the zone of its last completion, or unchanged if it never completed. |
| Snapshot.RunCounts | core/zone_locator.py:87-104 | History has one row per ticker whose history append succeeded, readings one per completed ticker, which are no more. Transitions are at most the readings, and each joins two different zones. |
| Snapshot.SettledRunIsQuiet | core/zone_locator.py:95-105 | When every observed ticker is already remembered in its current zone, or fails before it could change the state, a run emits no transitions and leaves the state unchanged. |
| Snapshot.LastZoneAbsent | core/zone_locator.py:95-105 | A ticker that is not in the run has no last zone from it. |
| Snapshot.LastZoneOfDistinct | core/zone_locator.py:105 | With distinct tickers, the remembered zone of a completed ticker is its classification in this run. |
| Snapshot.StateBeforeDistinct | core/zone_locator.py:95 | With distinct tickers, each ticker finds the same remembered zone the run started with. |
| Snapshot.SecondRunQuiet | core/zone_locator.py:73-117 | Running the snapshot twice on the same prices and the same write outcomes emits no transitions the second time and reaches the same state. |
| Snapshot.GenerateSnapshotAsWritten | core/zone_locator.py:69-127 | As written, the call saves the run's state and rows and returns its readings, but never an empty table: with no reading, the sort by "Current Zone" raises KeyError. |
| Snapshot.SnapshotRaisesWithoutReadings | core/zone_locator.py:116-119 | As written, the call raises exactly when no ticker completed, after the state was saved. The page then shows a load error exactly then, and its "No zone data" warning is never shown. |
| Snapshot.AllFeedsFailingRaises | core/zone_locator.py:73-119 | Concrete case: when every download raises, the call as written raises KeyError, and the page shows it as a load error. |
| Snapshot.NoneCompletes | core/zone_locator.py:75-78 | When every download raises, no ticker completes. |
| Snapshot.GenerateSnapshot | core/zone_locator.py:69-127 | The corrected call returns the readings, empty when no ticker completed. Snapshot.ZonePageSpec states what the page makes of it. |
| Snapshot.ZonePage | viz/zone_locator.py:124-138 | The page shows the readings, warns when the table is empty, and shows the error of an exception. Snapshot.SnapshotRaisesWithoutReadings and Snapshot.ZonePageSpec state what it shows for each call. |
| Snapshot.ZonePageSpec | viz/zone_locator.py:124-138 | With the corrected call, the page warns "No zone data available" exactly when no ticker completed, never shows a load error, and otherwise shows one reading per completed ticker. |
| Snapshot.TrackedTickersDistinct | core/zone_locator.py:20-24 | The tracked tickers are pairwise different. |
| ArchivedZones.ArchivedResolveFromValue | archive/unused_core/zone_transition.py:43-49 | The archived resolution defines exactly the names the table mentions, each mapped to the stored level or to None. |
| ArchivedZones.ArchivedResolvedLevel | archive/unused_core/zone_transition.py:43-49 | It defines exactly the seven level names. A present level is used as is. A missing "Purple upper" becomes +inf and a missing "Purple lower" -inf, while a missing inner level is None. |
| ArchivedZones.ArchivedRefinesLive | archive/unused_core/zone_transition.py:43-49 | Every level the archived classifier resolves has the live resolution's value. With all seven levels present, the two resolutions coincide. |
| ArchivedZones.ArchivedWalkAgrees | archive/unused_core/zone_transition.py:51-56 | Whenever the archived walk succeeds, it names the zone the live walk names. With no missing level, it always succeeds. |
| ArchivedZones.ArchivedMatchesLive | archive/unused_core/zone_transition.py:41-56 | The archived classifier either raises or agrees with the live one, and it always agrees when all seven levels are present. |
| ArchivedZones.ArchivedZone | archive/unused_core/zone_transition.py:41-56 | The archived classifier. ArchivedZones.ArchivedMatchesLive, ArchivedZones.ArchivedFailNeedsMissingLevel and ArchivedZones.ArchivedNeverRaises state its contract: it raises only when an inner level is missing, and otherwise names the live classifier's zone. |
| ArchivedZones.ArchivedWalkRaisesAt | archive/unused_core/zone_transition.py:51-56 | The walk raises when the first row whose test does not return false is a row whose chained comparison meets a None bound. |
| ArchivedZones.ArchivedWalkFailSource | archive/unused_core/zone_transition.py:51-56 | A raise always comes from some row's comparison. |
| ArchivedZones.ArchivedFailNeedsMissingLevel | archive/unused_core/zone_transition.py:41-56 | The archived classifier raises only if one of the five inner levels is missing. |
| ArchivedZones.InnerLevelsNoneFree | archive/unused_core/zone_transition.py:43-49 | When the five inner levels are present, the archived resolution maps no name to None. |
| ArchivedZones.ArchivedNeverRaises | archive/unused_core/zone_transition.py:41-56 | When the five inner levels are present, the archived classifier succeeds with the live classifier's zone. |
| ArchivedZones.ArchivedRaisesOnMissingInnerLevel | archive/unused_core/zone_transition.py:41-56 | Concrete case: with only the purple levels stored, the live classifier says "Clearance" while the archived one raises on comparing with None. |
| ArchivedZones.OnlyPurpleIsClearance | core/zone_locator.py:51-67 | With only the purple levels stored, the live classifier puts 1.1 in "Clearance". |
| ArchivedZones.OnlyPurpleRaises | archive/unused_core/zone_transition.py:41-56 | With only the purple levels stored, the archived classifier passes the Purple row and raises at the Red row. |
| ArchivedZones.CheckProximity | archive/unused_core/zone_transition.py:32-39 | The hits are exactly the non-NaN levels that the bar's low-to-high range reaches within `PIP_RANGE` (0.001), each with its name. |
| ArchivedZones.CheckProximityOrder | archive/unused_core/zone_transition.py:32-39 | Proximity checking distributes over concatenation, so hit order follows level order. |
| TransitionScan.DropIncomplete | archive/unused_core/zone_transition.py:75 | The kept bars are no more than the raw bars. Every kept bar comes from a raw bar with a close and no NaN cell, and every such raw bar is kept with its time and close. |
| TransitionScan.DropIncompleteAppend | archive/unused_core/zone_transition.py:75 | Dropping works bar by bar: dropping from two runs of bars is dropping from each and concatenating, so the kept bars stay in their original order. |
| TransitionScan.DropIncompleteOne | archive/unused_core/zone_transition.py:75 | A single bar is kept, with its time and close, exactly when its close and its other cells are present. |
| TransitionScan.ZonesUntilRaise | archive/unused_core/zone_transition.py:81-93 | Classification yields at most one zone per bar. |
| TransitionScan.ZonesUntilRaiseSpec | archive/unused_core/zone_transition.py:81-96 | Each zone is the classification of its bar. If classification stops early, it stopped at the first bar whose classification raised. |
| TransitionScan.ZonesStopAtRaise | archive/unused_core/zone_transition.py:81-96 | A raise at bar i ends the scan: later bars add nothing. |
| TransitionScan.ZonesExtend | archive/unused_core/zone_transition.py:81-93 | A successful classification extends the zone list by exactly that zone. |
| TransitionScan.ChangeRowsExtend | archive/unused_core/zone_transition.py:84-92 | Adding a zone adds a row exactly when it differs from the previous zone, and the earlier rows stay as they were. |
| TransitionScan.ScanSeries | archive/unused_core/zone_transition.py:81-96 | The loop emits exactly the change rows of the zones classified before the first raise, and reports a raise exactly when one occurred. |
| TransitionScan.ZonesOfClassifiedPrefix | archive/unused_core/zone_transition.py:81-93 | Zones that match the classifications of the first bars, one by one, are the zones of that prefix. |
| TransitionScan.RaiseEndsScan | archive/unused_core/zone_transition.py:81-96 | A raise at bar i ends the scan with the rows of the first i zones, and with fewer zones than bars. |
| TransitionScan.ChangeRowsSpec | archive/unused_core/zone_transition.py:84-92 | There is at most one row per consecutive pair. Every zone change gives a row carrying that bar's time, close and the two zones. Every row is such a change. |
| TransitionScan.ChangeRowsBound | archive/unused_core/zone_transition.py:84-92 | The rows are at most one fewer than the zones, and none for no zones. |
| TransitionScan.ChangeRowsComplete | archive/unused_core/zone_transition.py:84-92 | Every change of zone gives a row carrying that bar's time, close and the two zones. |
| TransitionScan.ChangeRowsSound | archive/unused_core/zone_transition.py:84-92 | Every row is the row of some change of zone. |
| TransitionScan.ChangeRowsChain | archive/unused_core/zone_transition.py:84-92 | Consecutive transition rows chain: each row's from-zone is the previous row's to-zone. |
| TransitionScan.ChangeRowsLinked | archive/unused_core/zone_transition.py:84-92 | Consecutive rows link up: each row's from-zone is the previous row's to-zone. The first row leaves the first zone, and the last enters the last zone. |
| TransitionScan.ConstantWithoutChanges | archive/unused_core/zone_transition.py:84-92 | No transition rows means the zone never changed. |
| TransitionScan.SeriesRowsBound | archive/unused_core/zone_transition.py:81-93 | A ticker with n bars gives at most n-1 rows, and none when it has no bars. |
| TransitionLog.TickerRows | archive/unused_core/zone_transition.py:70-96 | One ticker's rows: none when the download raises, is empty or the ticker has no level row, and otherwise the change rows of its complete bars up to the first raise. TransitionLog.TickerRowsShape, TransitionLog.RaisingTickerSkipped and TransitionScan.ScanSeries state them. |
| TransitionLog.ScanAll | archive/unused_core/zone_transition.py:68-96 | The rows of all tickers, in ticker order. TransitionLog.ScanAllSplits and TransitionLog.ScanAllRows state its contract. |
| TransitionLog.ScanAllSplits | archive/unused_core/zone_transition.py:68-96 | The scan of all tickers is the concatenation of the per-ticker scans, in ticker order. |
| TransitionLog.TickerRowsShape | archive/unused_core/zone_transition.py:77-93 | Every row of a ticker names that ticker and two different zones. |
| TransitionLog.ScanAllRows | archive/unused_core/zone_transition.py:68-96 | Every row of the whole scan comes from one of the inputs and joins two different zones. |
| TransitionLog.RaisingTickerSkipped | archive/unused_core/zone_transition.py:81-96 | A ticker whose first complete bar already raises contributes no rows. |
| TransitionLog.RenameDate | archive/unused_core/zone_transition.py:104-113 | The header keeps its length. Every "Date" column becomes "Timestamp", and every other column is kept. |
| TransitionLog.Migrate | archive/unused_core/zone_transition.py:104-113 | Only the header changes. A log with "Date" and no "Timestamp" is renamed, any other log is left alone, and afterwards no migration is needed. |
| TransitionLog.MigrateIdempotent | archive/unused_core/zone_transition.py:104-113 | Migrating twice is migrating once. |
| TransitionLog.WriteLog | archive/unused_core/zone_transition.py:98-132 | No rows means no write. With no log, a new log starts with the header. An existing log is migrated and the rows appended when the read, the rewrite (if needed) and the append all succeed. When one of them raises, or the log is empty, the log as it then is becomes the backup: the old file when the read or the rewrite raised, the migrated log when the append raised. A fresh log with the header and the rows takes its place, unless a backup exists: then `os.rename` raises (Windows semantics) and nothing more is written. |
| TransitionLog.WriteLogFails | archive/unused_core/zone_transition.py:104-127 | Writing fails exactly when a step inside the `try` raises (or the log is empty) and a backup is already present. A successful write of rows ends the log with those rows, and keeps the old log's records, in the backup or at the head of the new log. |
| TransitionLog.AppendRaiseBacksUpMigrated | archive/unused_core/zone_transition.py:110-125 | Concrete case: a `Date` log whose migration succeeded but whose append raised is backed up with its new `Timestamp` header, so the backup differs from the file the call found. |
| TransitionLog.TransitionsToday | archive/unused_core/zone_transition.py:59-134 | On a weekend nothing is scanned or written. A scan without rows leaves the disk unchanged. On a weekday a completed call returns the rows of the scan. The call raises exactly when there were rows to write, a step on the existing log raised into the handler, and a backup blocked the restart. |
| TransitionLog.SecondWriteAppends | archive/unused_core/zone_transition.py:100-117 | Two writes to a readable log leave the old log followed by both batches, with no second header. |
| CleanLog.CommaCountAppend | archive/unused_core/clean_zone_log.py:19 | Comma counts add up over concatenation. |
| CleanLog.FirstLineLength | archive/unused_core/clean_zone_log.py:12-13 | The first line runs to and including the first newline, or to the end of the text. |
| CleanLog.ReadLinesSpec | archive/unused_core/clean_zone_log.py:12-13 | `readlines` loses nothing: its lines concatenate back to the text, and each but the last ends in a newline. |
| CleanLog.ReadLinesConcat | archive/unused_core/clean_zone_log.py:12-13 | The lines of a text concatenate back to the text. |
| CleanLog.ReadLinesShape | archive/unused_core/clean_zone_log.py:12-13 | No line is empty, none holds a newline before its end, and each but the last ends in one. |
| CleanLog.ReadBackLines | archive/unused_core/clean_zone_log.py:12-25 | Writing well-shaped lines and reading them back gives the same lines. |
| CleanLog.StripLeftSpec | archive/unused_core/clean_zone_log.py:19 | Left stripping removes a whitespace prefix and leaves a result that does not start with whitespace. |
| CleanLog.StripRightSpec | archive/unused_core/clean_zone_log.py:19 | Right stripping removes a whitespace suffix and leaves a result that does not end with whitespace. |
| CleanLog.SplitLines | archive/unused_core/clean_zone_log.py:18-22 | Every line is either kept or reported. |
| CleanLog.KeptAreFitting | archive/unused_core/clean_zone_log.py:18-22 | Kept lines are exactly the lines whose comma count is the expected field count minus one. |
| CleanLog.SkippedAreMisfits | archive/unused_core/clean_zone_log.py:18-22 | Reported lines are exactly the misfits, each with its 1-based line number and its stripped text. |
| CleanLog.SkippedSound | archive/unused_core/clean_zone_log.py:18-22 | Every reported entry is a misfit line, under its 1-based number and its stripped text. |
| CleanLog.SkippedComplete | archive/unused_core/clean_zone_log.py:18-22 | Every misfit line is reported under its 1-based number and its stripped text. |
| CleanLog.SkippedInOrder | archive/unused_core/clean_zone_log.py:18-22 | Reported line numbers are strictly increasing from the first line number. |
| CleanLog.KeptInOrder | archive/unused_core/clean_zone_log.py:18-22 | Kept lines keep their order: the split distributes over concatenation. |
| CleanLog.KeptShape | archive/unused_core/clean_zone_log.py:18-25 | Kept lines of a file are still lines of a file, so only the last may lack a newline. |
| CleanLog.CleanZoneTransitionLog | archive/unused_core/clean_zone_log.py:7-32 | A missing input writes nothing. Otherwise the output reads back as exactly the kept lines, and kept plus reported is the number of lines. |
| CleanLog.CleanIdempotent | archive/unused_core/clean_zone_log.py:7-32 | Cleaning a cleaned log changes nothing and reports nothing. |
| CleanLog.AllFitKeptWhole | archive/unused_core/clean_zone_log.py:18-22 | A log whose lines all fit is kept whole. |
| CleanLog.JoinedCommas | archive/unused_core/clean_zone_log.py:19 | Joining n comma-free fields gives n-1 commas. |
| CleanLog.DefaultKeepsFourFieldRows | archive/unused_core/clean_zone_log.py:5-19 | With the default of four fields, a row of comma-free fields is kept if and only if it has four fields. |
| Sorting.InsertPermutes | viz/zone_transitions.py:40 | Insertion adds exactly the inserted element. |
| Sorting.InsertMembers | viz/zone_transitions.py:40 | Insertion introduces no other element. |
| Sorting.InsertSorted | viz/zone_transitions.py:40 | Insertion into a descending sequence keeps it descending. |
| Sorting.SortSpec | viz/zone_transitions.py:40 | The sort is a descending permutation of its input. |
| TransitionsPage.IndexOf | viz/zone_transitions.py:20-23 | The position is the first occurrence of the column, and it is None exactly when the column is absent. |
| TransitionsPage.Normalise | viz/zone_transitions.py:20-21 | The column renaming. TransitionsPage.NormaliseSpec and TransitionsPage.NormaliseIdempotent state its contract. |
| TransitionsPage.NormaliseSpec | viz/zone_transitions.py:20-21 | "Date" becomes "Timestamp" only when there is no "Timestamp" column, and every other column is unchanged. Afterwards "Timestamp" is present exactly when either was. |
| TransitionsPage.NormaliseIdempotent | viz/zone_transitions.py:20-21 | Normalising twice is normalising once. |
| TransitionsPage.Recent | viz/zone_transitions.py:37 | The recent rows are no more than all rows. |
| TransitionsPage.RecentSpec | viz/zone_transitions.py:37-51 | A row is recent exactly when its timestamp parsed and is at or after the cutoff. Recent rows plus the filtered-out count is the row count. |
| TransitionsPage.RecentAppend | viz/zone_transitions.py:37 | The mask selects row by row: selecting from two runs of rows is selecting from each and concatenating, so the listed rows keep file order and multiplicity. |
| TransitionsPage.RecentNonEmpty | viz/zone_transitions.py:37-43 | Some row is listed if and only if some row parsed to a time at or after the cutoff. |
| TransitionsPage.SortNewestFirst | viz/zone_transitions.py:40 | The newest-first sort of the recent rows, stated by TransitionsPage.SortNewestFirstSpec. |
| TransitionsPage.SortNewestFirstSpec | viz/zone_transitions.py:40 | The listing is the recent rows, newest first. |
| TransitionsPage.TimeRange | viz/zone_transitions.py:49-50 | The earliest and latest parsed time, stated by TransitionsPage.TimeRangeSpec. |
| TransitionsPage.TimeRangeSpec | viz/zone_transitions.py:49-50 | The range is None exactly when no timestamp parsed. Otherwise its ends are a parsed minimum and maximum. |
| TransitionsPage.TickerCells | viz/zone_transitions.py:91 | Missing ticker cells are not counted. |
| TransitionsPage.OccurrencesAppend | viz/zone_transitions.py:91 | Appending a cell raises its count by one. |
| TransitionsPage.BumpSpec | viz/zone_transitions.py:91 | Counting one more cell keeps keys distinct, raises the total by one, and adds at most the new key. |
| TransitionsPage.BumpKeys | viz/zone_transitions.py:91 | After one more cell, the keys stay distinct and are the old keys plus that cell. |
| TransitionsPage.BumpTotal | viz/zone_transitions.py:91 | One more cell raises the total by one. |
| TransitionsPage.BumpCounts | viz/zone_transitions.py:91 | After one more cell, every entry holds its old count, plus one for the cell's own entry. |
| TransitionsPage.KeysCons | viz/zone_transitions.py:91 | The keys of a tally are its first key and the keys of the rest. |
| TransitionsPage.CountOfDistinct | viz/zone_transitions.py:91 | With distinct keys, the count read for a key is its entry's count. |
| TransitionsPage.Tally | viz/zone_transitions.py:91 | `value_counts` of the ticker cells, stated by TransitionsPage.TallySpec. |
| TransitionsPage.TallySpec | viz/zone_transitions.py:91 | The ticker breakdown has one entry per distinct ticker, counting exactly its occurrences, and the counts sum to the number of cells. |
| TransitionsPage.CountOfBump | viz/zone_transitions.py:91 | Bumping a key raises its count by one and leaves the others alone. |
| TransitionsPage.ZoneTransitionsPage | viz/zone_transitions.py:10-96 | A missing log gives the warning and nothing else does. An unreadable log, or one without a date column, gives an error. A listing is non-empty and newest first. The "nothing recent" summary counts every row as filtered out, with oldest at most newest, and is only reached with a Ticker column. |
| TransitionsPage.StaleSummaryNeedsTicker | viz/zone_transitions.py:43-67 | When no row is recent but some row has a time, the summary is shown exactly when there is a Ticker column. Otherwise the debug listing of old rows raises and the error page is shown. |
| TransitionsPage.NoTickerColumnFails | viz/zone_transitions.py:60-67 | Concrete case: a log with only a Timestamp column and one day-old row gives the error page. |
| TransitionsPage.PageShowsLastDay | viz/zone_transitions.py:28-57 | An unparseable timestamp gives the error page. Otherwise rows are listed exactly when some row is recent, and the listing is a permutation of the recent rows. "Nothing recent" means every row was filtered out. |
| TransitionsPage.Breakdown | viz/zone_transitions.py:89-92 | The per-ticker breakdown of the listed rows, or none without a Ticker column. TransitionsPage.BreakdownCounts states its contract. |
| TransitionsPage.BreakdownCounts | viz/zone_transitions.py:89-92 | With a Ticker column, the breakdown counts exactly the non-missing ticker cells of the listed rows. |
| TransitionsPage.TickerCellsComplete | viz/zone_transitions.py:91 | The counted cells are at most the listed rows, and all of them when none is missing. |
| TransitionsPage.LocalClockDropsRecentRow | viz/zone_transitions.py:28-37 | Concrete case: a host at UTC+3 hides a transition logged 22 hours ago, which the UTC comparison lists. |
| TransitionsPage.UtcClockKeepsLastDay | viz/zone_transitions.py:28-37 | Comparing against a UTC cutoff lists a row exactly when it was logged at most 24 hours ago. |
| Strength.PairsOf | viz/strength_meter.py:40-45 | A base is paired with every quote of the list other than itself, and with nothing else. |
| Strength.Pairs | viz/strength_meter.py:40-45 | The enumerated pairs are exactly the (base, quote) pairs with the base from the base list, the quote from the quote list, and the two different. |
| Strength.Collect | viz/strength_meter.py:47-54 | The score lists after the loop: each fetched pair adds its change to its base and the negated change to its quote. Strength.CollectCounts, Strength.ContributionsCancel and Strength.DataPointsBound state its contract. |
| Strength.CollectCounts | viz/strength_meter.py:47-54 | A currency's score list has one entry per fetched pair that it is part of. |
| Strength.AddToTotal | viz/strength_meter.py:50-54 | Appending a score to a listed currency raises the total of all scores by that score. |
| Strength.SumOverUntouched | viz/strength_meter.py:50-54 | Appending a score to an unlisted currency leaves the total alone. |
| Strength.ContributionsCancel | viz/strength_meter.py:50-54 | Every pair adds a change to its base and its negation to its quote, so all scores sum to zero. |
| Strength.PairCancels | viz/strength_meter.py:50-54 | A pair's change on its base and the negated change on its quote leave the total of all scores unchanged. |
| Strength.SumOverEmpty | viz/strength_meter.py:31 | With no scores, the total is zero. |
| Strength.PairsOfHolding | viz/strength_meter.py:40-54 | One base's pairs give a currency at most its allowance of data points. |
| Strength.TouchingAppend | viz/strength_meter.py:40-54 | Data points add up over consecutive runs of pairs. |
| Strength.PairsHolding | viz/strength_meter.py:40-54 | All pairs give a currency at most the sum of its allowances. |
| Strength.AllowancesDistinct | viz/strength_meter.py:40-54 | Over distinct currencies, the allowance of a listed currency is n-1 as base plus n-1 as quote. |
| Strength.OccurrencesBound | viz/strength_meter.py:12 | A currency occurs at most as often as the list is long. |
| Strength.OccurrencesDistinct | viz/strength_meter.py:12 | In a list of distinct currencies, a currency occurs once if listed and otherwise never. |
| Strength.DataPointsBound | viz/strength_meter.py:27-57 | A currency's data points are the fetched pairs it is part of: at most 2(n-1), none when not listed, and all scores sum to zero. |
| Strength.NotTouching | viz/strength_meter.py:50-54 | A currency in none of the pairs gets no scores. |
| Strength.StrengthRows | viz/strength_meter.py:64-72 | There is at most one row per currency. |
| Strength.StrengthRowsSpec | viz/strength_meter.py:64-72 | Rows are exactly the currencies with data, each with its rounded mean score and data-point count. |
| Strength.StrengthRowFacts | viz/strength_meter.py:40-72 | Over distinct currencies, each row is for a listed currency, with its rounded mean score, and its data points are the number of fetched pairs it is part of: at least one and at most 2(n-1). |
| Strength.RankSpec | viz/strength_meter.py:75-77 | The ranked table is a permutation of the rows in descending score, with ranks 1, 2, 3 and so on. |
| Strength.RankedFromRows | viz/strength_meter.py:75-77 | Each ranked row, without its rank, is one of the unranked rows. |
| Strength.StrengthTable | viz/strength_meter.py:27-79 | The strength table ranks 1..k, in descending score, exactly the listed currencies with data: each with its rounded mean score and its fetched-pair count as data points, at most 2(n-1). The unrounded scores sum to zero. |
| Strength.CalculateCurrencyStrength | viz/strength_meter.py:27-79 | The corrected meter over the ten listed currencies. Strength.StrengthTable and Strength.EmptyTableIffNoData state its contract. |
| Strength.RowIsRanked | viz/strength_meter.py:75-77 | Sorting loses no row: every row's currency appears in the ranked table. |
| Strength.CalculateCurrencyStrengthAsWritten | viz/strength_meter.py:62-79 | As written, a table that is returned is never empty. With no row, `sort_values` on the column-less frame raises KeyError. |
| Strength.AsWrittenRaisesWithoutData | viz/strength_meter.py:47-79 | As written, the meter raises exactly when no pair could be fetched. |
| Strength.AllFetchesFailingRaises | viz/strength_meter.py:47-79 | Concrete case: when every download fails, the meter as written raises, where the corrected table is empty. |
| Strength.EmptyTableIffNoData | viz/strength_meter.py:47-79 | The corrected table is empty exactly when no pair could be fetched. |
| Strength.StrengthPage | viz/strength_meter.py:184-275 | The page's branch on an empty table over the ten listed currencies, stated by Strength.StrengthPageSpec. |
| Strength.StrengthPageSpec | viz/strength_meter.py:184-275 | With the corrected table, the page shows "no data available" exactly when no pair could be fetched, and otherwise the ranking of that table. |
| Strength.RowsEmptyIffNoFetch | viz/strength_meter.py:47-72 | Some currency gets a row exactly when some pair was fetched. |
| Strength.TouchedByFetched | viz/strength_meter.py:47-54 | A fetched pair gives its base a data point. |
| Strength.FetchedWhenTouched | viz/strength_meter.py:47-54 | Every data point comes from a fetched pair. |
| Strength.CurrencyListDistinct | viz/strength_meter.py:12 | The ten currencies differ, so each has at most 18 data points. |
| Strength.ColourAndEmojiAgree | viz/strength_meter.py:84-96 | Chart colour and table emoji (lines 147-157) pick the same five buckets, and buckets are monotone in the score. |
| Correlation.RowPairs | viz/fx_correlation.py:169-172 | Row i's pairs are (i, j) for each j from i+1 up. |
| Correlation.AllPairsMembers | viz/fx_correlation.py:168-172 | The loops visit exactly the pairs a < b of the upper triangle. |
| Correlation.AllPairsLex | viz/fx_correlation.py:168-172 | The pairs come in strictly increasing lexicographic order, so none repeats. |
| Correlation.AllPairsCount | viz/fx_correlation.py:168-172 | n columns give n(n-1)/2 pairs, the page's "total pairs" (line 389). |
| Correlation.Kept | viz/fx_correlation.py:174 | Dropping NaN correlations keeps no more than all pairs. |
| Correlation.KeptSpec | viz/fx_correlation.py:174 | Exactly the pairs with a non-NaN correlation are kept, still in order, and all are kept when none is NaN. |
| Correlation.KeptMembers | viz/fx_correlation.py:174 | The kept pairs are exactly the non-NaN ones, and none is dropped when no correlation is NaN. |
| Correlation.KeptOrdered | viz/fx_correlation.py:168-174 | Dropping NaN pairs keeps them in loop order. |
| Correlation.CorrelationsList | viz/fx_correlation.py:162-180 | The list of non-NaN upper-triangle correlations. Correlation.EntriesSound, Correlation.EntriesComplete, Correlation.EntriesOnce and Correlation.EntriesCount state its contract. |
| Correlation.EntriesSound | viz/fx_correlation.py:168-180 | Every entry names two different columns, with their correlation and its absolute value. |
| Correlation.EntriesComplete | viz/fx_correlation.py:168-180 | Every non-NaN upper-triangle correlation is listed. |
| Correlation.EntriesOnce | viz/fx_correlation.py:162-180 | With distinct column names, no unordered pair of names is listed twice. |
| Correlation.PairNamesDiffer | viz/fx_correlation.py:168-172 | Two different upper-triangle positions over distinct column names name two different sets of columns. |
| Correlation.EntriesCount | viz/fx_correlation.py:168-180 | Without NaN, there are n(n-1)/2 entries, the count shown at line 389. |
| Correlation.SelectSpec | viz/fx_correlation.py:191-194 | A filter keeps exactly the matching entries and keeps them sorted. |
| Correlation.SelectMembers | viz/fx_correlation.py:191-194 | A filter keeps exactly the entries matching its mask. |
| Correlation.SelectOrdered | viz/fx_correlation.py:191-194 | Filtering a list sorted by strength leaves it sorted by strength. |
| Correlation.SortedSameMembers | viz/fx_correlation.py:188 | Sorting by strength keeps the entries and orders them descending. |
| Correlation.HeadOfSelection | viz/fx_correlation.py:191-194 | The first five matching entries of a sorted list are its top five. |
| Correlation.LeftOutIsWeaker | viz/fx_correlation.py:188-194 | In a list sorted by strength, an entry left out of the first rows is no stronger than any of them. |
| Correlation.HeadIsTop | viz/fx_correlation.py:188-194 | Each "top five" bucket holds at most five matching entries, and none left out is stronger than one taken. |
| Correlation.AnalyzeCorrelations | viz/fx_correlation.py:159-196 | The summary buckets of the correlation list, stated by Correlation.AnalyzeSpec. |
| Correlation.AnalyzeSpec | viz/fx_correlation.py:159-196 | There is no summary exactly when no correlation is listed. The positive, negative and uncorrelated buckets are top-five selections. "Very correlated" is exactly the entries with \|r\| >= 0.75, strongest first. |
| Correlation.Put | viz/fx_correlation.py:90 | Storing a pair adds at most one entry. |
| Correlation.CommonDatesSpec | viz/fx_correlation.py:112-118 | A date is common exactly when every stored pair has it. |
| Correlation.AlignedKeepsAll | viz/fx_correlation.py:127-131 | When the common dates are non-empty, alignment keeps every pair. |
| Correlation.PutDistinct | viz/fx_correlation.py:90 | Dictionary stores keep names distinct. The stored pair is present afterwards: a re-stored name holds the new returns in its old position, entries of other names keep their positions, and no entry appears that was not there or stored. |
| Correlation.PutStores | viz/fx_correlation.py:90 | After `data[name] = returns`, the entry (name, returns) is stored, in the place of an earlier entry with that name, and every entry of another name stays where it was. |
| Correlation.PutNames | viz/fx_correlation.py:90 | A re-stored name keeps its place among the names, and a new name goes last. |
| Correlation.RemoveSuffixMarks | viz/fx_correlation.py:85 | `pair.replace('=X', '')`, which names every stored column. Correlation.RemoveSuffixMarksOfSymbol, Correlation.RemoveSuffixMarksFree, Correlation.SinglePassReplace and Correlation.MajorPairNames state it. |
| Correlation.RemoveSuffixMarksOfSymbol | viz/fx_correlation.py:85 | A name without `=` followed by `=X` is stored under that name. |
| Correlation.RemoveSuffixMarksFree | viz/fx_correlation.py:85 | A name without `=` is left unchanged. |
| Correlation.SinglePassReplace | viz/fx_correlation.py:85 | The marks are removed in one pass from the left, so "==XX" becomes "=X", as Python's `replace` does. |
| Correlation.MajorPairNames | viz/fx_correlation.py:14-32 | Every pair of the major-pair list is an eight-character Yahoo symbol whose stored name is its six-letter prefix. |
| Correlation.FetchReturns | viz/fx_correlation.py:84-96 | The download loop storing every pair with at least five returns under its short name. Correlation.FetchReturnsSpec and Correlation.FetchReturnsComplete state its contract. |
| Correlation.FetchReturnsSpec | viz/fx_correlation.py:84-96 | Stored names are distinct. Each stored name holds at least five returns, downloaded for some pair with that short name. |
| Correlation.FetchReturnsComplete | viz/fx_correlation.py:84-96 | Every pair that downloaded at least five returns has its short name stored. |
| Correlation.PutNew | viz/fx_correlation.py:90 | The only new entry a store makes is the stored one. |
| Correlation.CorrelationFrame | viz/fx_correlation.py:70-141 | The guarded returns frame, stated by Correlation.CorrelationFrameSpec. |
| Correlation.CorrelationFrameSpec | viz/fx_correlation.py:70-141 | No frame exactly when fewer than two pairs were stored or they share fewer than five dates. A frame has the stored names as columns (at least two, distinct) and at least five dates, each of them in every stored series. |
| Macd.Bracket | archive/unused_core/strategies/macd_strategy.py:33-46 | The stop and target of an entry, stated by Macd.BracketSymmetric. |
| Macd.Enter | archive/unused_core/strategies/macd_strategy.py:29-51 | A position opens exactly on a bull or bear crossover, and it is long exactly on a bull crossover. |
| Macd.KeepOpen | archive/unused_core/strategies/macd_strategy.py:53-79 | A position that hits neither stop nor target stays properly opened one bar longer. |
| Macd.CloseValid | archive/unused_core/strategies/macd_strategy.py:53-79 | Every trade closed from a properly opened position is a valid trade. |
| Macd.ExitAt | archive/unused_core/strategies/macd_strategy.py:56-79 | The exit tests of an open position, stated by Macd.ExitRules and Macd.NaNBracketTimesOut. |
| Macd.Step | archive/unused_core/strategies/macd_strategy.py:24-79 | One bar of the loop, stated by Macd.StepKeeps and Macd.EntryOnlyWhenFlat. |
| Macd.StepKeeps | archive/unused_core/strategies/macd_strategy.py:24-79 | One bar of the loop preserves the back-test invariant. |
| Macd.FlatStepKeeps | archive/unused_core/strategies/macd_strategy.py:29-51 | A bar seen while flat keeps the invariant: any position it opens is properly opened on this bar. |
| Macd.HoldingStepKeeps | archive/unused_core/strategies/macd_strategy.py:53-79 | A bar seen while holding keeps the invariant: it closes a valid trade or keeps the position properly open. |
| Macd.ClosingStepKeeps | archive/unused_core/strategies/macd_strategy.py:53-79 | A bar that closes the position appends a valid trade. The trade starts after every earlier one ended and ends on this bar. |
| Macd.Run | archive/unused_core/strategies/macd_strategy.py:19-79 | The loop over bars 1 to n-1, stated by Macd.RunKeeps. |
| Macd.RunKeeps | archive/unused_core/strategies/macd_strategy.py:19-81 | The invariant holds after every prefix of the bars. |
| Macd.MacdCrossover | archive/unused_core/strategies/macd_strategy.py:9-81 | The closed trades of the back-test, stated by Macd.TradesValid. |
| Macd.TradesValid | archive/unused_core/strategies/macd_strategy.py:19-81 | Every trade opened on a crossover with its ATR bracket and closed by stop, target or timeout at the first bar the rule fires. Trades do not overlap: each exits before the next enters. |
| Macd.ExitRules | archive/unused_core/strategies/macd_strategy.py:56-79 | The stop is checked before the target, the target before the timeout. A timeout happens only after max_bars bars, at the close. |
| Macd.BracketSymmetric | archive/unused_core/strategies/macd_strategy.py:33-46 | Stop and target sit symmetrically about the entry price, on the side the direction implies, and a NaN ATR makes both NaN. |
| Macd.NaNBracketTimesOut | archive/unused_core/strategies/macd_strategy.py:57-79 | With a NaN bracket, only the timeout closes a trade. |
| Macd.EntryOnlyWhenFlat | archive/unused_core/strategies/macd_strategy.py:29-79 | Entry signals count only while flat. An open position either closes into one new trade or is carried one bar further. |

## Left out

- Fetching prices, reading and writing files, the Streamlit widgets,
  progress bars, `print`, `st.write` debug output and the debug expanders.
  These are I/O; their results become function parameters.
- Parsing CSV text. A log file is given as a header plus rows. Whether
  pandas could read it is a flag, so quoting and pandas' mangling of
  duplicate column names are not modelled. Of pandas' missing-value
  spellings, only the empty cell is treated as missing.
- The EMA, ATR, `pct_change`, `np.mean`, `round` and `DataFrame.corr`
  computations. The indicators come with each bar, and the rest are
  parameters or plain real arithmetic.
- Floating point. Prices are reals, and infinities appear only as zone
  bounds. NaN is modelled only where a value has the type `Float`: key
  levels, the snapshot's closes, the scan's raw closes, the MACD ATR and the
  correlation matrix. It cannot be represented in the close, high, low,
  MACD and signal of `Macd.Bar`; there a NaN low would never trigger the
  stop (archive/unused_core/strategies/macd_strategy.py:57). It cannot be
  represented in the pair changes a `Strength.Fetch` returns either; there
  a NaN change would make its currencies' means NaN
  (viz/strength_meter.py:50-54, 67). Nor can it be represented in the high
  and low that `ArchivedZones.CheckProximity` is given.
- `sort_index` in the MACD back-test. The bars are given in index order.
- The unstable `sort_values` of pandas is modelled by a stable insertion
  sort. Its contract (descending, a permutation) is what both sorts
  promise, so the order among equal keys is not modelled.
- The clock and the weekday are parameters. Timestamps are integer seconds.
- The backup of a transition log whose read, rewrite or append raised uses
  `os.rename`. The module
  hard-codes a Windows path (archive/unused_core/zone_transition.py:13), so
  the rename follows Windows, where an existing backup makes it raise. On
  a POSIX file system it would overwrite the backup instead; that is not
  modelled. A raising file operation is taken to raise before it changes
  the file, so a partly written log is not modelled. The writes outside the
  `try` (a new log at line 128) and the handler's fresh log (line 125) are
  taken to succeed.
- The sort of the current-results table by zone name, its Excel export and
  the zone heatmap export of core/zone_locator.py. The table itself is the
  readings. The sort raising on an empty table is modelled (see Findings);
  the order among readings and the files written are not.
- metrics.py, top_movers.py, the heatmaps and the remaining dashboard pages.
  They are not part of this model.
- ArchivedZones.CheckProximity: a hit carries the level unrounded, because
  Python's `round(level, 5)` is float formatting that the model does not
  reproduce.
- Correlation.FetchReturnsSpec: says that each stored name's returns came
  from some pair with that short name, not that they came from the last
  such pair. `Correlation.PutStores` and `Correlation.PutDistinct` state,
  for one store, the replacement that makes a later pair win.

## Findings

| source | as written | input that shows it | evidently intended | confidence | as-written member | corrected member |
|---|---|---|---|---|---|---|
| viz/zone_transitions.py:28-37 | Timestamps are parsed as UTC and made naive. They are compared with `datetime.now()`, the host's local time, minus 24 hours. | A host at UTC+3 shows the page at 22:00 UTC. A transition logged at 00:00 UTC the same day is 22 hours old, but the local cutoff is 01:00, so it is filtered out. | Compare UTC timestamps with a UTC cutoff, so that a row is listed exactly when it is at most 24 hours old. | medium, not executed | TransitionsPage.LocalClockDropsRecentRow | TransitionsPage.UtcClockKeepsLastDay |
| viz/strength_meter.py:62-79 | With no currency data, `pd.DataFrame([])` has no `Strength_Score` column, so `sort_values` raises KeyError. The call at line 184 is outside any `try`, so the page's "no data available" branch (line 275) is never reached. | Every download fails, for example with no network: `fetch` returns `None` for all pairs. | Return the empty table, so that the page's `.empty` test shows "no data available" exactly when no pair could be fetched. | high, not executed | Strength.AllFetchesFailingRaises | Strength.StrengthPageSpec |
| core/zone_locator.py:116-119 | When no ticker completes, `pd.DataFrame([])` has no "Current Zone" column, so `sort_values` raises KeyError, after the state was saved. The caller's `.empty` guard (viz/zone_locator.py:132) and `export_current_zone_heatmap`'s guard (line 130) are never reached with an empty table. | Every download raises, for example with no network. | Return the empty table, so that the page warns "No zone data available" exactly when no ticker completed. | high, not executed | Snapshot.AllFeedsFailingRaises | Snapshot.ZonePageSpec |
