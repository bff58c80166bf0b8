/** The logic of the zone-transitions page (viz/zone_transitions.py): read
    the transition log, normalise its date column, keep the last day's rows,
    list them newest first and count them per ticker. The table is the log
    as read into a data frame; timestamp parsing and the clock are
    parameters. */
module TransitionsPage {
  import opened Wrappers
  import opened Sorting

  /** `timedelta(hours=24)`, in seconds. */
  const DayLength: int := 86400

  /** The log as a frame: column names and one list of cells per row. */
  datatype Table = Table(columns: seq<string>, rows: seq<seq<string>>)

  /** The log file: absent, present but rejected by the CSV reader, or read. */
  datatype LogFile = Missing | Unreadable | Read(table: Table)

  /** What the timestamp parser makes of one cell: it raises on text it
      cannot parse, gives NaT for a missing value, and otherwise a time in
      seconds on the UTC clock. */
  datatype Parsed = Raises | NaT | At(seconds: int)

  type Parser = string -> Parsed

  /** A row together with its parsed timestamp. */
  datatype Stamped = Stamped(parsed: Parsed, row: seq<string>)

  /** A row shown on the page: its time and its cells, unchanged. */
  datatype Entry = Entry(time: int, row: seq<string>)

  /** The summary shown when no row is recent. */
  datatype Summary = Summary(total: nat, filteredOut: nat, oldest: int, newest: int)

  /** What the page ends up showing. `Listed` carries the per-ticker
      breakdown, or `None` when building it raised after the table was
      shown. */
  datatype Page =
    | Warning
    | Error
    | NoneRecent(summary: Option<Summary>)
    | Listed(recent: seq<Entry>, breakdown: Option<seq<(string, nat)>>)

  /** A cell of a row; a short row reads as a missing value. */
  function Cell(row: seq<string>, j: nat): string
  {
    if j < |row| then row[j] else ""
  }

  /** The position of the first column called `name`. */
  function IndexOf(columns: seq<string>, name: string): (r: Option<nat>)
    ensures r.None? <==> name !in columns
    ensures r.Some? ==> r.value < |columns| && columns[r.value] == name
    ensures r.Some? ==> forall k | 0 <= k < r.value :: columns[k] != name
  {
    if |columns| == 0 then None
    else if columns[0] == name then Some(0)
    else match IndexOf(columns[1..], name)
      case None => None
      case Some(k) => Some(k + 1)
  }

  /** The column renaming of viz/zone_transitions.py:20-21. */
  function Normalise(columns: seq<string>): seq<string>
  {
    if "Date" in columns && "Timestamp" !in columns then
      seq(|columns|, k requires 0 <= k < |columns| => if columns[k] == "Date" then "Timestamp" else columns[k])
    else columns
  }

  /** `Date` becomes `Timestamp` only when there is no `Timestamp` yet; after
      renaming there is a `Timestamp` column iff there was one of the two,
      and no other column changes. */
  lemma NormaliseSpec(columns: seq<string>)
    ensures |Normalise(columns)| == |columns|
    ensures "Timestamp" in Normalise(columns) <==> "Timestamp" in columns || "Date" in columns
    ensures "Timestamp" in columns || "Date" !in columns ==> Normalise(columns) == columns
    ensures forall k | 0 <= k < |columns| && columns[k] != "Date" ::
              Normalise(columns)[k] == columns[k]
    ensures "Timestamp" !in columns ==>
              forall k | 0 <= k < |columns| && columns[k] == "Date" :: Normalise(columns)[k] == "Timestamp"
  {
    var r := Normalise(columns);
    if "Date" in columns && "Timestamp" !in columns {
      var k :| 0 <= k < |columns| && columns[k] == "Date";
      assert r[k] == "Timestamp";
    }
  }

  /** Normalising twice is normalising once. */
  lemma NormaliseIdempotent(columns: seq<string>)
    ensures Normalise(Normalise(columns)) == Normalise(columns)
  {
    NormaliseSpec(columns);
  }

  /** Every row paired with the parse of its timestamp cell. */
  function Stamp(rows: seq<seq<string>>, col: nat, parse: Parser): (s: seq<Stamped>)
    ensures |s| == |rows|
    ensures forall i | 0 <= i < |rows| :: s[i] == Stamped(parse(Cell(rows[i], col)), rows[i])
  {
    seq(|rows|, i requires 0 <= i < |rows| => Stamped(parse(Cell(rows[i], col)), rows[i]))
  }

  /** Whether parsing the column raises on some row. */
  predicate Raising(stamped: seq<Stamped>)
  {
    exists i | 0 <= i < |stamped| :: stamped[i].parsed.Raises?
  }

  /** Whether a row passes `Timestamp >= cutoff` (NaT never does). */
  predicate IsRecent(s: Stamped, cutoff: int)
  {
    s.parsed.At? && s.parsed.seconds >= cutoff
  }

  /** The boolean-mask selection `df[df['Timestamp'] >= cutoff]`. */
  function Recent(stamped: seq<Stamped>, cutoff: int): (r: seq<Entry>)
    ensures |r| <= |stamped|
    decreases |stamped|
  {
    if |stamped| == 0 then []
    else
      var s := stamped[0];
      (if IsRecent(s, cutoff) then [Entry(s.parsed.seconds, s.row)] else []) + Recent(stamped[1..], cutoff)
  }

  /** The mask works row by row: selecting from two runs of rows is
      selecting from each and concatenating, so the selection keeps the
      file order. */
  lemma {:induction false} RecentAppend(a: seq<Stamped>, b: seq<Stamped>, cutoff: int)
    ensures Recent(a + b, cutoff) == Recent(a, cutoff) + Recent(b, cutoff)
    decreases |a|
  {
    if |a| == 0 {
      assert a + b == b;
    } else {
      var head := if IsRecent(a[0], cutoff) then [Entry(a[0].parsed.seconds, a[0].row)] else [];
      assert (a + b)[0] == a[0];
      assert (a + b)[1..] == a[1..] + b;
      assert Recent(a + b, cutoff) == head + Recent(a[1..] + b, cutoff);
      assert Recent(a, cutoff) == head + Recent(a[1..], cutoff);
      RecentAppend(a[1..], b, cutoff);
    }
  }

  /** Rows that fail the mask: too old, or with no time. */
  function StaleCount(stamped: seq<Stamped>, cutoff: int): nat
    decreases |stamped|
  {
    if |stamped| == 0 then 0
    else (if IsRecent(stamped[0], cutoff) then 0 else 1) + StaleCount(stamped[1..], cutoff)
  }

  /** The selection holds exactly the recent rows, each with its time and
      its cells unchanged, and every other row is stale (the file order is
      `RecentAppend`). */
  lemma {:induction false} RecentSpec(stamped: seq<Stamped>, cutoff: int)
    ensures forall e | e in Recent(stamped, cutoff) ::
              e.time >= cutoff && Stamped(At(e.time), e.row) in stamped
    ensures forall i | 0 <= i < |stamped| && IsRecent(stamped[i], cutoff) ::
              Entry(stamped[i].parsed.seconds, stamped[i].row) in Recent(stamped, cutoff)
    ensures |Recent(stamped, cutoff)| + StaleCount(stamped, cutoff) == |stamped|
    decreases |stamped|
  {
    if |stamped| > 0 {
      RecentSpec(stamped[1..], cutoff);
      var r := Recent(stamped, cutoff);
      var rest := Recent(stamped[1..], cutoff);
      assert forall e | e in rest :: e in r;
      assert forall x | x in stamped[1..] :: x in stamped;
      forall i | 0 <= i < |stamped| && IsRecent(stamped[i], cutoff)
        ensures Entry(stamped[i].parsed.seconds, stamped[i].row) in r
      {
        if i > 0 {
          assert stamped[i] == stamped[1..][i - 1];
        }
      }
    }
  }

  /** The sort key: newest first is largest time first. */
  function TimeKey(e: Entry): real
  {
    e.time as real
  }

  /** Sorted on time, newest first. */
  predicate NewestFirst(s: seq<Entry>)
  {
    forall i, j | 0 <= i < j < |s| :: s[i].time >= s[j].time
  }

  /** `sort_values(by='Timestamp', ascending=False)`. */
  function SortNewestFirst(s: seq<Entry>): seq<Entry>
  {
    SortDescending(TimeKey, s)
  }

  /** The sort orders newest first and neither drops nor adds a row. */
  lemma SortNewestFirstSpec(s: seq<Entry>)
    ensures NewestFirst(SortNewestFirst(s))
    ensures multiset(SortNewestFirst(s)) == multiset(s)
    ensures |SortNewestFirst(s)| == |s|
  {
    SortSpec(TimeKey, s);
    var r := SortNewestFirst(s);
    assert forall i, j | 0 <= i < j < |r| :: TimeKey(r[i]) >= TimeKey(r[j]);
  }

  /** The earliest and latest parsed times, skipping NaT; `None` if there is
      no time at all. */
  function TimeRange(stamped: seq<Stamped>): Option<(int, int)>
    decreases |stamped|
  {
    if |stamped| == 0 then None
    else
      var rest := TimeRange(stamped[1..]);
      match stamped[0].parsed
      case At(t) =>
        (match rest
         case None => Some((t, t))
         case Some((lo, hi)) => Some((if t < lo then t else lo, if t > hi then t else hi)))
      case _ => rest
  }

  /** `min()`/`max()` of the column: both bounds are attained, and every
      parsed time lies between them. */
  lemma {:induction false} TimeRangeSpec(stamped: seq<Stamped>)
    ensures TimeRange(stamped).None? <==> forall i | 0 <= i < |stamped| :: !stamped[i].parsed.At?
    ensures TimeRange(stamped).Some? ==>
              var (lo, hi) := TimeRange(stamped).value;
              && (exists i | 0 <= i < |stamped| :: stamped[i].parsed == At(lo))
              && (exists i | 0 <= i < |stamped| :: stamped[i].parsed == At(hi))
              && (forall i | 0 <= i < |stamped| && stamped[i].parsed.At? :: lo <= stamped[i].parsed.seconds <= hi)
    decreases |stamped|
  {
    if |stamped| > 0 {
      TimeRangeSpec(stamped[1..]);
      assert forall i | 1 <= i < |stamped| :: stamped[i] == stamped[1..][i - 1];
      var rest := TimeRange(stamped[1..]);
      if rest.Some? {
        var (lo, hi) := rest.value;
        var a :| 0 <= a < |stamped[1..]| && stamped[1..][a].parsed == At(lo);
        var b :| 0 <= b < |stamped[1..]| && stamped[1..][b].parsed == At(hi);
        assert stamped[a + 1].parsed == At(lo);
        assert stamped[b + 1].parsed == At(hi);
      }
    }
  }

  /** The non-missing ticker cells of the shown rows. */
  function TickerCells(recent: seq<Entry>, j: nat): (cells: seq<string>)
    ensures forall c | c in cells :: c != ""
    decreases |recent|
  {
    if |recent| == 0 then []
    else
      var c := Cell(recent[0].row, j);
      (if c == "" then [] else [c]) + TickerCells(recent[1..], j)
  }

  /** How often `x` occurs in `s`. */
  function Occurrences(s: seq<string>, x: string): nat
    decreases |s|
  {
    if |s| == 0 then 0 else (if s[0] == x then 1 else 0) + Occurrences(s[1..], x)
  }

  lemma {:induction false} OccurrencesAppend(s: seq<string>, x: string, y: string)
    ensures Occurrences(s + [y], x) == Occurrences(s, x) + (if y == x then 1 else 0)
    decreases |s|
  {
    if |s| > 0 {
      assert (s + [y])[1..] == s[1..] + [y];
      OccurrencesAppend(s[1..], x, y);
    }
  }

  /** The counts of a tally, added up. */
  function Total(tally: seq<(string, nat)>): nat
  {
    if |tally| == 0 then 0 else tally[0].1 + Total(tally[1..])
  }

  /** Whether no value is counted twice. */
  predicate KeysDistinct(tally: seq<(string, nat)>)
  {
    forall a, b | 0 <= a < b < |tally| :: tally[a].0 != tally[b].0
  }

  /** Counting one more `x`. */
  function Bump(tally: seq<(string, nat)>, x: string): seq<(string, nat)>
    decreases |tally|
  {
    if |tally| == 0 then [(x, 1)]
    else if tally[0].0 == x then [(x, tally[0].1 + 1)] + tally[1..]
    else [tally[0]] + Bump(tally[1..], x)
  }

  /** Counting one more `x` keeps the keys distinct and adds only `x`, adds
      one to the total, and leaves every count but `x`'s as it was. */
  lemma BumpSpec(tally: seq<(string, nat)>, x: string)
    requires KeysDistinct(tally)
    ensures KeysDistinct(Bump(tally, x))
    ensures Total(Bump(tally, x)) == Total(tally) + 1
    ensures forall y :: (y in Keys(Bump(tally, x)) <==> y in Keys(tally) || y == x)
    ensures forall k | 0 <= k < |Bump(tally, x)| ::
              Bump(tally, x)[k].1 == CountOf(tally, Bump(tally, x)[k].0) + (if Bump(tally, x)[k].0 == x then 1 else 0)
  {
    BumpKeys(tally, x);
    BumpTotal(tally, x);
    BumpCounts(tally, x);
  }

  /** The keys after one more `x`: distinct, and those before plus `x`. */
  lemma {:induction false} BumpKeys(tally: seq<(string, nat)>, x: string)
    requires KeysDistinct(tally)
    ensures KeysDistinct(Bump(tally, x))
    ensures forall y :: (y in Keys(Bump(tally, x)) <==> y in Keys(tally) || y == x)
    decreases |tally|
  {
    if |tally| > 0 {
      var r := Bump(tally, x);
      assert forall k | 1 <= k < |tally| :: tally[k] == tally[1..][k - 1];
      assert KeysDistinct(tally[1..]);
      KeysCons(r);
      KeysCons(tally);
      if tally[0].0 != x {
        BumpKeys(tally[1..], x);
        var rest := Bump(tally[1..], x);
        assert r == [tally[0]] + rest;
        assert forall k | 1 <= k < |r| :: r[k] == rest[k - 1];
        forall k | 1 <= k < |r| ensures r[k].0 != tally[0].0 {
          assert r[k].0 in Keys(rest);
        }
      } else {
        assert r[1..] == tally[1..];
        assert forall k | 1 <= k < |r| :: r[k] == tally[k];
      }
    } else {
      KeysCons(Bump(tally, x));
      assert Bump(tally, x)[1..] == [];
    }
  }

  /** One more `x` adds one to the total. */
  lemma {:induction false} BumpTotal(tally: seq<(string, nat)>, x: string)
    ensures Total(Bump(tally, x)) == Total(tally) + 1
    decreases |tally|
  {
    if |tally| > 0 {
      var r := Bump(tally, x);
      if tally[0].0 != x {
        BumpTotal(tally[1..], x);
        assert r[1..] == Bump(tally[1..], x);
      } else {
        assert r[1..] == tally[1..];
      }
    }
  }

  /** After one more `x`, each entry holds its old count, plus one for `x`. */
  lemma {:induction false} BumpCounts(tally: seq<(string, nat)>, x: string)
    requires KeysDistinct(tally)
    ensures forall k | 0 <= k < |Bump(tally, x)| ::
              Bump(tally, x)[k].1 == CountOf(tally, Bump(tally, x)[k].0) + (if Bump(tally, x)[k].0 == x then 1 else 0)
    decreases |tally|
  {
    if |tally| > 0 {
      var r := Bump(tally, x);
      assert forall k | 1 <= k < |tally| :: tally[k] == tally[1..][k - 1];
      assert KeysDistinct(tally[1..]);
      if tally[0].0 != x {
        BumpCounts(tally[1..], x);
        BumpKeys(tally[1..], x);
        var rest := Bump(tally[1..], x);
        assert r == [tally[0]] + rest;
        forall k | 1 <= k < |r|
          ensures r[k].1 == CountOf(tally, r[k].0) + (if r[k].0 == x then 1 else 0)
        {
          assert r[k] == rest[k - 1];
          assert r[k].0 in Keys(rest);
          KeysCons(tally);
          assert r[k].0 != tally[0].0;
        }
      } else {
        forall k | 1 <= k < |r|
          ensures r[k].1 == CountOf(tally, r[k].0) + (if r[k].0 == x then 1 else 0)
        {
          assert r[k] == tally[k];
          CountOfDistinct(tally, k);
        }
      }
    }
  }

  /** The values counted by a tally. */
  function Keys(tally: seq<(string, nat)>): set<string>
  {
    set k | 0 <= k < |tally| :: tally[k].0
  }

  lemma KeysCons(tally: seq<(string, nat)>)
    requires |tally| > 0
    ensures Keys(tally) == {tally[0].0} + Keys(tally[1..])
  {
    forall y | y in Keys(tally) ensures y in {tally[0].0} + Keys(tally[1..]) {
      var k :| 0 <= k < |tally| && tally[k].0 == y;
      if k > 0 {
        assert tally[1..][k - 1].0 == y;
      }
    }
    forall y | y in Keys(tally[1..]) ensures y in Keys(tally) {
      var k :| 0 <= k < |tally[1..]| && tally[1..][k].0 == y;
      assert tally[k + 1].0 == y;
    }
  }

  /** The count a tally holds for `x`, zero if it holds none. */
  function CountOf(tally: seq<(string, nat)>, x: string): nat
    decreases |tally|
  {
    if |tally| == 0 then 0 else if tally[0].0 == x then tally[0].1 else CountOf(tally[1..], x)
  }

  lemma {:induction false} CountOfDistinct(tally: seq<(string, nat)>, k: nat)
    requires KeysDistinct(tally)
    requires k < |tally|
    ensures CountOf(tally, tally[k].0) == tally[k].1
    decreases k
  {
    if k > 0 {
      assert forall a | 1 <= a < |tally| :: tally[a] == tally[1..][a - 1];
      CountOfDistinct(tally[1..], k - 1);
    }
  }

  /** `value_counts()`: one entry per distinct value, with its count. The
      tally keeps first-seen order; pandas orders the entries by count, and
      that order is not part of this model. */
  function Tally(cells: seq<string>): seq<(string, nat)>
    decreases |cells|
  {
    if |cells| == 0 then [] else Bump(Tally(cells[..|cells| - 1]), cells[|cells| - 1])
  }

  /** The tally names each value once, with its number of occurrences, and
      its counts add up to the number of cells. */
  lemma {:induction false} TallySpec(cells: seq<string>)
    ensures KeysDistinct(Tally(cells))
    ensures Total(Tally(cells)) == |cells|
    ensures Keys(Tally(cells)) == set c | c in cells
    ensures forall x :: CountOf(Tally(cells), x) == Occurrences(cells, x)
    decreases |cells|
  {
    if |cells| > 0 {
      var init := cells[..|cells| - 1];
      var x := cells[|cells| - 1];
      TallySpec(init);
      BumpSpec(Tally(init), x);
      assert cells == init + [x];
      forall y ensures CountOf(Tally(cells), y) == Occurrences(cells, y) {
        OccurrencesAppend(init, y, x);
        CountOfBump(Tally(init), x, y);
      }
    }
  }

  lemma {:induction false} CountOfBump(tally: seq<(string, nat)>, x: string, y: string)
    ensures CountOf(Bump(tally, x), y) == CountOf(tally, y) + (if x == y then 1 else 0)
    decreases |tally|
  {
    if |tally| > 0 && tally[0].0 != x {
      CountOfBump(tally[1..], x, y);
    }
  }

  /** The per-ticker breakdown over the shown rows; `None` when there is no
      `Ticker` column, which makes the page raise. */
  function Breakdown(recent: seq<Entry>, columns: seq<string>): Option<seq<(string, nat)>>
  {
    match IndexOf(columns, "Ticker")
    case None => None
    case Some(j) => Some(Tally(TickerCells(recent, j)))
  }

  /** `zone_transitions` with the cutoff time given. */
  function ZoneTransitionsPage(file: LogFile, parse: Parser, cutoff: int): (page: Page)
    ensures file.Missing? <==> page.Warning?
    ensures file.Unreadable? ==> page.Error?
    ensures file.Read? && "Timestamp" !in file.table.columns && "Date" !in file.table.columns ==> page.Error?
    ensures page.Listed? ==> |page.recent| > 0 && NewestFirst(page.recent)
    ensures page.NoneRecent? && page.summary.Some? ==>
              page.summary.value.filteredOut == page.summary.value.total > 0
              && page.summary.value.oldest <= page.summary.value.newest
              && file.Read? && "Ticker" in Normalise(file.table.columns)
  {
    match file
    case Missing => Warning
    case Unreadable => Error
    case Read(table) =>
      var columns := Normalise(table.columns);
      NormaliseSpec(table.columns);
      match IndexOf(columns, "Timestamp")
      case None => Error
      case Some(col) =>
        var stamped := Stamp(table.rows, col, parse);
        if Raising(stamped) then Error
        else
          var selected := Recent(stamped, cutoff);
          var recent := SortNewestFirst(selected);
          SortNewestFirstSpec(selected);
          if |recent| == 0 then
            if |table.rows| == 0 then NoneRecent(None)
            else
              TimeRangeSpec(stamped);
              match TimeRange(stamped)
              case None => Error
              case Some((lo, hi)) =>
                // The debug expander selects the Ticker column of the old rows.
                if "Ticker" !in columns then Error
                else NoneRecent(Some(Summary(|table.rows|, |table.rows| - |recent|, lo, hi)))
          else Listed(recent, Breakdown(recent, columns))
  }

  /** Once the timestamp column is found and parses, the page lists rows iff
      some row is recent, and then it lists exactly the recent rows; when
      it lists none, every row is stale and so counts as filtered out. */
  lemma PageShowsLastDay(table: Table, parse: Parser, cutoff: int, col: nat)
    requires IndexOf(Normalise(table.columns), "Timestamp") == Some(col)
    ensures var stamped := Stamp(table.rows, col, parse);
            var page := ZoneTransitionsPage(Read(table), parse, cutoff);
            && (Raising(stamped) ==> page.Error?)
            && (!Raising(stamped) ==>
                  && (page.Listed? <==> exists i | 0 <= i < |stamped| :: IsRecent(stamped[i], cutoff))
                  && (page.Listed? ==> multiset(page.recent) == multiset(Recent(stamped, cutoff)))
                  && (page.NoneRecent? ==> StaleCount(stamped, cutoff) == |table.rows|))
  {
    var stamped := Stamp(table.rows, col, parse);
    var selected := Recent(stamped, cutoff);
    RecentSpec(stamped, cutoff);
    RecentNonEmpty(stamped, cutoff);
    SortNewestFirstSpec(selected);
  }

  /** When no row is recent but some row has a time, the summary is shown
      exactly when there is a Ticker column; without one, the debug listing
      of the old rows raises and the page shows the error. */
  lemma StaleSummaryNeedsTicker(table: Table, parse: Parser, cutoff: int, col: nat)
    requires IndexOf(Normalise(table.columns), "Timestamp") == Some(col)
    requires !Raising(Stamp(table.rows, col, parse))
    requires forall i | 0 <= i < |table.rows| :: !IsRecent(Stamp(table.rows, col, parse)[i], cutoff)
    requires exists i | 0 <= i < |table.rows| :: Stamp(table.rows, col, parse)[i].parsed.At?
    ensures var page := ZoneTransitionsPage(Read(table), parse, cutoff);
            && (page.Error? <==> "Ticker" !in Normalise(table.columns))
            && (page.NoneRecent? <==> "Ticker" in Normalise(table.columns))
            && (page.NoneRecent? ==> page.summary.Some? && page.summary.value.total == |table.rows|)
  {
    var stamped := Stamp(table.rows, col, parse);
    var selected := Recent(stamped, cutoff);
    RecentNonEmpty(stamped, cutoff);
    SortNewestFirstSpec(selected);
    TimeRangeSpec(stamped);
    assert TimeRange(stamped).Some?;
  }

  /** A log with only a Timestamp column and one day-old row gives the
      error page, not the summary. */
  lemma NoTickerColumnFails()
    ensures var table := Table(["Timestamp"], [["t0"]]);
            var parse := (c: string) => if c == "t0" then At(0) else NaT;
            ZoneTransitionsPage(Read(table), parse, DayLength) == Error
  {
    var table := Table(["Timestamp"], [["t0"]]);
    var parse := (c: string) => if c == "t0" then At(0) else NaT;
    assert Normalise(table.columns) == table.columns;
    assert IndexOf(table.columns, "Timestamp") == Some(0);
    var stamped := Stamp(table.rows, 0, parse);
    assert stamped == [Stamped(At(0), ["t0"])];
    assert stamped[0].parsed.At?;
    StaleSummaryNeedsTicker(table, parse, DayLength, 0);
  }

  /** Some row is selected exactly when some row is recent. */
  lemma RecentNonEmpty(stamped: seq<Stamped>, cutoff: int)
    ensures |Recent(stamped, cutoff)| > 0 <==> exists i | 0 <= i < |stamped| :: IsRecent(stamped[i], cutoff)
  {
    var selected := Recent(stamped, cutoff);
    RecentSpec(stamped, cutoff);
    if |selected| > 0 {
      var e := selected[0];
      assert e in selected;
      var i :| 0 <= i < |stamped| && stamped[i] == Stamped(At(e.time), e.row);
      assert IsRecent(stamped[i], cutoff);
    }
  }

  /** With a `Ticker` column the breakdown counts every non-missing ticker
      cell of the shown rows once: one entry per ticker, its count the
      number of shown rows with that ticker, the counts adding up to the
      number of such rows. */
  lemma BreakdownCounts(recent: seq<Entry>, columns: seq<string>, j: nat)
    requires IndexOf(columns, "Ticker") == Some(j)
    ensures Breakdown(recent, columns).Some?
    ensures var tally := Breakdown(recent, columns).value;
            && KeysDistinct(tally)
            && Total(tally) == |TickerCells(recent, j)|
            && (forall x :: CountOf(tally, x) == Occurrences(TickerCells(recent, j), x))
  {
    TallySpec(TickerCells(recent, j));
  }

  /** When every shown row names its ticker, the counts add up to the number
      of shown rows. */
  lemma {:induction false} TickerCellsComplete(recent: seq<Entry>, j: nat)
    ensures |TickerCells(recent, j)| <= |recent|
    ensures (forall k | 0 <= k < |recent| :: Cell(recent[k].row, j) != "") ==>
              |TickerCells(recent, j)| == |recent|
    decreases |recent|
  {
    if |recent| > 0 {
      TickerCellsComplete(recent[1..], j);
      assert forall k | 1 <= k < |recent| :: recent[k] == recent[1..][k - 1];
    }
  }

  /** `datetime.now() - timedelta(hours=24)`: the host's local wall clock,
      which runs `utcOffset` seconds ahead of UTC, minus a day. */
  function LocalCutoff(utcNow: int, utcOffset: int): int
  {
    utcNow + utcOffset - DayLength
  }

  /** The cutoff on the clock the parsed timestamps use. */
  function UtcCutoff(utcNow: int): int
  {
    utcNow - DayLength
  }

  /** The page as written: UTC timestamps against the local cutoff. */
  function PageAsWritten(file: LogFile, parse: Parser, utcNow: int, utcOffset: int): Page
  {
    ZoneTransitionsPage(file, parse, LocalCutoff(utcNow, utcOffset))
  }

  /** The page with the cutoff taken on the UTC clock. */
  function PageOnUtc(file: LogFile, parse: Parser, utcNow: int): Page
  {
    ZoneTransitionsPage(file, parse, UtcCutoff(utcNow))
  }

  /** On a host three hours ahead of UTC, a transition logged 22 hours ago
      is left out of the "last 24 hours" by the page as written. */
  lemma LocalClockDropsRecentRow()
    ensures var table := Table(["Timestamp", "Ticker"], [["t0", "EURUSD"]]);
            var parse := (c: string) => if c == "t0" then At(0) else NaT;
            var utcNow := 22 * 3600;
            && utcNow - 0 < DayLength
            && PageAsWritten(Read(table), parse, utcNow, 3 * 3600).NoneRecent?
            && PageOnUtc(Read(table), parse, utcNow).Listed?
  {
    var table := Table(["Timestamp", "Ticker"], [["t0", "EURUSD"]]);
    var parse := (c: string) => if c == "t0" then At(0) else NaT;
    var utcNow := 22 * 3600;
    assert Normalise(table.columns) == table.columns;
    assert IndexOf(table.columns, "Timestamp") == Some(0);
    var stamped := Stamp(table.rows, 0, parse);
    assert stamped == [Stamped(At(0), ["t0", "EURUSD"])];
    assert !Raising(stamped);
    assert Recent(stamped, LocalCutoff(utcNow, 3 * 3600)) == [];
    assert Recent(stamped, UtcCutoff(utcNow)) == [Entry(0, ["t0", "EURUSD"])];
  }

  /** With the cutoff on the UTC clock, a row is listed iff it was logged at
      most a day before now, whatever the host's time zone. */
  lemma UtcClockKeepsLastDay(table: Table, parse: Parser, utcNow: int, col: nat, i: nat)
    requires IndexOf(Normalise(table.columns), "Timestamp") == Some(col)
    requires !Raising(Stamp(table.rows, col, parse))
    requires i < |table.rows|
    requires parse(Cell(table.rows[i], col)).At?
    ensures var t := parse(Cell(table.rows[i], col)).seconds;
            var page := PageOnUtc(Read(table), parse, utcNow);
            utcNow - t <= DayLength <==> page.Listed? && Entry(t, table.rows[i]) in page.recent
  {
    var stamped := Stamp(table.rows, col, parse);
    var cutoff := UtcCutoff(utcNow);
    var t := parse(Cell(table.rows[i], col)).seconds;
    var page := PageOnUtc(Read(table), parse, utcNow);
    PageShowsLastDay(table, parse, cutoff, col);
    RecentSpec(stamped, cutoff);
    assert stamped[i] == Stamped(At(t), table.rows[i]);
    if utcNow - t <= DayLength {
      assert IsRecent(stamped[i], cutoff);
      assert page.Listed?;
      assert Entry(t, table.rows[i]) in multiset(page.recent);
    } else if page.Listed? {
      assert Entry(t, table.rows[i]) !in multiset(Recent(stamped, cutoff));
    }
  }
}
