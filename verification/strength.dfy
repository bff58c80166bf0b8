/** The currency-strength meter (viz/strength_meter.py): every ordered pair
    of distinct currencies contributes its daily change to the base and its
    negation to the quote; a currency's strength is the mean of its
    contributions; currencies are ranked by strength and put in one of five
    buckets. The daily change of a pair comes from a fetch parameter. */
module Strength {
  import opened Wrappers
  import opened Sorting

  /** `CURRENCY_LIST`. */
  const CurrencyList: seq<string> := ["USD", "CAD", "EUR", "GBP", "CHF", "NOK", "SGD", "JPY", "AUD", "NZD"]

  /** `get_daily_pct_change`: the pair's change in percent, or `None` when
      the download fails or returns fewer than two rows. */
  type Fetch = string -> Option<real>

  /** The Yahoo symbol of a pair. */
  function PairSymbol(base: string, quote: string): string
  {
    base + quote + "=X"
  }

  /** The pairs `base` is quoted against, in list order, itself skipped. */
  function PairsOf(base: string, quotes: seq<string>): (ps: seq<(string, string)>)
    ensures forall k | 0 <= k < |ps| :: ps[k].0 == base && ps[k].1 != base && ps[k].1 in quotes
    ensures forall q | q in quotes && q != base :: (base, q) in ps
    decreases |quotes|
  {
    if |quotes| == 0 then []
    else
      var rest := PairsOf(base, quotes[1..]);
      assert forall q | q in quotes && q != quotes[0] :: q in quotes[1..];
      (if quotes[0] == base then [] else [(base, quotes[0])]) + rest
  }

  /** The nested loop over bases and quotes. */
  function Pairs(bases: seq<string>, quotes: seq<string>): (ps: seq<(string, string)>)
    ensures forall k | 0 <= k < |ps| :: ps[k].0 != ps[k].1 && ps[k].0 in bases && ps[k].1 in quotes
    ensures forall b, q | b in bases && q in quotes && b != q :: (b, q) in ps
    decreases |bases|
  {
    if |bases| == 0 then []
    else
      var rest := Pairs(bases[1..], quotes);
      assert forall k | 0 <= k < |rest| :: rest[k].0 in bases;
      assert forall b | b in bases && b != bases[0] :: b in bases[1..];
      PairsOf(bases[0], quotes) + rest
  }

  /** The contributions a currency has collected so far. */
  function Get(scores: map<string, seq<real>>, c: string): seq<real>
  {
    if c in scores then scores[c] else []
  }

  /** Appending one contribution to a currency's list. */
  function Add(scores: map<string, seq<real>>, c: string, x: real): map<string, seq<real>>
  {
    scores[c := Get(scores, c) + [x]]
  }

  /** The lists after the loop has handled `pairs` in order. */
  function Collect(pairs: seq<(string, string)>, fetch: Fetch): map<string, seq<real>>
    decreases |pairs|
  {
    if |pairs| == 0 then map[]
    else
      var scores := Collect(pairs[..|pairs| - 1], fetch);
      var (base, quote) := pairs[|pairs| - 1];
      match fetch(PairSymbol(base, quote))
      case None => scores
      case Some(p) => Add(Add(scores, base, p), quote, -p)
  }

  /** The number of pairs holding `c` whose change was fetched. */
  function Touching(pairs: seq<(string, string)>, c: string, fetch: Fetch): nat
    decreases |pairs|
  {
    if |pairs| == 0 then 0
    else
      var (base, quote) := pairs[|pairs| - 1];
      Touching(pairs[..|pairs| - 1], c, fetch)
        + (if (base == c || quote == c) && fetch(PairSymbol(base, quote)).Some? then 1 else 0)
  }

  /** A currency collects one contribution per fetched pair it is part of. */
  lemma {:induction false} CollectCounts(pairs: seq<(string, string)>, c: string, fetch: Fetch)
    requires forall k | 0 <= k < |pairs| :: pairs[k].0 != pairs[k].1
    ensures |Get(Collect(pairs, fetch), c)| == Touching(pairs, c, fetch)
    decreases |pairs|
  {
    if |pairs| > 0 {
      CollectCounts(pairs[..|pairs| - 1], c, fetch);
    }
  }

  function Sum(xs: seq<real>): real
  {
    if |xs| == 0 then 0.0 else Sum(xs[..|xs| - 1]) + xs[|xs| - 1]
  }

  /** All contributions of the currencies in `cs` added up. */
  function SumOver(cs: seq<string>, scores: map<string, seq<real>>): real
  {
    if |cs| == 0 then 0.0 else Sum(Get(scores, cs[0])) + SumOver(cs[1..], scores)
  }

  predicate Distinct(cs: seq<string>)
  {
    forall a, b | 0 <= a < b < |cs| :: cs[a] != cs[b]
  }

  /** Adding `x` to one listed currency adds `x` to the grand total. */
  lemma {:induction false} AddToTotal(cs: seq<string>, scores: map<string, seq<real>>, c: string, x: real)
    requires Distinct(cs) && c in cs
    ensures SumOver(cs, Add(scores, c, x)) == SumOver(cs, scores) + x
    decreases |cs|
  {
    DistinctTail(cs);
    GetAdd(scores, c, x, cs[0]);
    if cs[0] == c {
      SumAppend(Get(scores, c), x);
      SumOverUntouched(cs[1..], scores, c, x);
    } else {
      AddToTotal(cs[1..], scores, c, x);
    }
  }

  /** Appending to a list adds to its sum. */
  lemma SumAppend(xs: seq<real>, x: real)
    ensures Sum(xs + [x]) == Sum(xs) + x
  {
    assert (xs + [x])[..|xs|] == xs;
  }

  /** Appending to one currency's list leaves the other lists alone. */
  lemma GetAdd(scores: map<string, seq<real>>, c: string, x: real, d: string)
    ensures Get(Add(scores, c, x), d) == if d == c then Get(scores, c) + [x] else Get(scores, d)
  {
  }

  /** The tail of a distinct list is distinct and misses its head. */
  lemma DistinctTail(cs: seq<string>)
    requires Distinct(cs) && |cs| > 0
    ensures Distinct(cs[1..]) && cs[0] !in cs[1..]
  {
    assert forall a | 0 <= a < |cs[1..]| :: cs[1..][a] == cs[a + 1];
  }

  /** Adding to a currency not listed leaves the total alone. */
  lemma {:induction false} SumOverUntouched(cs: seq<string>, scores: map<string, seq<real>>, c: string, x: real)
    requires c !in cs
    ensures SumOver(cs, Add(scores, c, x)) == SumOver(cs, scores)
    decreases |cs|
  {
    if |cs| > 0 {
      SumOverUntouched(cs[1..], scores, c, x);
    }
  }

  /** Every change is counted once for its base and once, negated, for its
      quote, so the contributions over all currencies add up to zero. */
  lemma {:induction false} ContributionsCancel(cs: seq<string>, pairs: seq<(string, string)>, fetch: Fetch)
    requires Distinct(cs)
    requires forall k | 0 <= k < |pairs| :: pairs[k].0 in cs && pairs[k].1 in cs
    ensures SumOver(cs, Collect(pairs, fetch)) == 0.0
    decreases |pairs|
  {
    if |pairs| == 0 {
      SumOverEmpty(cs);
    } else {
      var init := pairs[..|pairs| - 1];
      assert forall k | 0 <= k < |init| :: init[k] == pairs[k];
      ContributionsCancel(cs, init, fetch);
      var (base, quote) := pairs[|pairs| - 1];
      match fetch(PairSymbol(base, quote))
      case None =>
      case Some(p) => PairCancels(cs, Collect(init, fetch), base, quote, p);
    }
  }

  /** One pair's change and its negation leave the total unchanged. */
  lemma PairCancels(cs: seq<string>, scores: map<string, seq<real>>, base: string, quote: string, p: real)
    requires Distinct(cs) && base in cs && quote in cs
    ensures SumOver(cs, Add(Add(scores, base, p), quote, -p)) == SumOver(cs, scores)
  {
    var once := Add(scores, base, p);
    AddToTotal(cs, scores, base, p);
    AddToTotal(cs, once, quote, -p);
    assert SumOver(cs, once) == SumOver(cs, scores) + p;
  }

  lemma {:induction false} SumOverEmpty(cs: seq<string>)
    ensures SumOver(cs, map[]) == 0.0
    decreases |cs|
  {
    if |cs| > 0 {
      SumOverEmpty(cs[1..]);
    }
  }

  /** How often `c` occurs in `cs`. */
  function Occurrences(cs: seq<string>, c: string): nat
  {
    if |cs| == 0 then 0 else (if cs[0] == c then 1 else 0) + Occurrences(cs[1..], c)
  }

  /** The most pairs of `base` against `quotes` that can hold `c`: every
      other quote if `base` is `c`, else the quotes that are `c`. */
  function Allowance(base: string, quotes: seq<string>, c: string): int
  {
    if base == c then |quotes| - Occurrences(quotes, c) else Occurrences(quotes, c)
  }

  /** The allowances of all bases added up. */
  function Allowances(bs: seq<string>, quotes: seq<string>, c: string): int
  {
    if |bs| == 0 then 0 else Allowance(bs[0], quotes, c) + Allowances(bs[1..], quotes, c)
  }

  /** Pairs of `PairsOf(base, quotes)` that hold `c`, fetched or not. */
  lemma {:induction false} PairsOfHolding(base: string, quotes: seq<string>, c: string, fetch: Fetch)
    ensures Touching(PairsOf(base, quotes), c, fetch) <= Allowance(base, quotes, c)
    decreases |quotes|
  {
    if |quotes| > 0 {
      PairsOfHolding(base, quotes[1..], c, fetch);
      var head := if quotes[0] == base then [] else [(base, quotes[0])];
      TouchingAppend(head, PairsOf(base, quotes[1..]), c, fetch);
    }
  }

  lemma {:induction false} TouchingAppend(a: seq<(string, string)>, b: seq<(string, string)>, c: string, fetch: Fetch)
    ensures Touching(a + b, c, fetch) == Touching(a, c, fetch) + Touching(b, c, fetch)
    decreases |b|
  {
    if |b| == 0 {
      assert a + b == a;
    } else {
      assert (a + b)[..|a + b| - 1] == a + b[..|b| - 1];
      TouchingAppend(a, b[..|b| - 1], c, fetch);
    }
  }

  /** Over the bases `bs`, a currency is held by at most the allowances of
      the bases. */
  lemma {:induction false} PairsHolding(bs: seq<string>, quotes: seq<string>, c: string, fetch: Fetch)
    ensures Touching(Pairs(bs, quotes), c, fetch) <= Allowances(bs, quotes, c)
    decreases |bs|
  {
    if |bs| > 0 {
      PairsHolding(bs[1..], quotes, c, fetch);
      PairsOfHolding(bs[0], quotes, c, fetch);
      TouchingAppend(PairsOf(bs[0], quotes), Pairs(bs[1..], quotes), c, fetch);
    }
  }

  /** Against a list holding `c` once, the allowances of distinct bases are
      the other quotes for `c` itself plus one for every other base. */
  lemma {:induction false} AllowancesDistinct(bs: seq<string>, quotes: seq<string>, c: string)
    requires Distinct(bs)
    requires Occurrences(quotes, c) == 1
    ensures Allowances(bs, quotes, c) == (if c in bs then |quotes| - 1 + |bs| - 1 else |bs|)
    decreases |bs|
  {
    if |bs| > 0 {
      assert Distinct(bs[1..]) by {
        assert forall a | 0 <= a < |bs[1..]| :: bs[1..][a] == bs[a + 1];
      }
      AllowancesDistinct(bs[1..], quotes, c);
      assert c in bs <==> bs[0] == c || c in bs[1..];
      if bs[0] == c {
        assert c !in bs[1..] by {
          assert forall a | 0 <= a < |bs[1..]| :: bs[1..][a] == bs[a + 1];
        }
      }
    }
  }

  lemma {:induction false} OccurrencesBound(cs: seq<string>, c: string)
    ensures Occurrences(cs, c) <= |cs|
    decreases |cs|
  {
    if |cs| > 0 {
      OccurrencesBound(cs[1..], c);
    }
  }

  lemma {:induction false} OccurrencesDistinct(cs: seq<string>, c: string)
    requires Distinct(cs)
    ensures Occurrences(cs, c) == (if c in cs then 1 else 0)
    decreases |cs|
  {
    if |cs| > 0 {
      assert Distinct(cs[1..]) by {
        assert forall a | 0 <= a < |cs[1..]| :: cs[1..][a] == cs[a + 1];
      }
      OccurrencesDistinct(cs[1..], c);
      if cs[0] == c {
        assert c !in cs[1..] by {
          assert forall a | 0 <= a < |cs[1..]| :: cs[1..][a] == cs[a + 1];
        }
      }
    }
  }

  /** The lists after the whole loop over `cs` against itself. */
  function CurrencyScores(cs: seq<string>, fetch: Fetch): map<string, seq<real>>
  {
    Collect(Pairs(cs, cs), fetch)
  }

  /** A listed currency's Data_Points is the number of fetched pairs it is
      part of, at most 2·(n−1), and the scores of all currencies cancel. */
  lemma DataPointsBound(cs: seq<string>, c: string, fetch: Fetch)
    requires Distinct(cs)
    ensures |Get(CurrencyScores(cs, fetch), c)| == Touching(Pairs(cs, cs), c, fetch)
    ensures c in cs ==> |Get(CurrencyScores(cs, fetch), c)| <= 2 * (|cs| - 1)
    ensures c !in cs ==> Get(CurrencyScores(cs, fetch), c) == []
    ensures SumOver(cs, CurrencyScores(cs, fetch)) == 0.0
  {
    CollectCounts(Pairs(cs, cs), c, fetch);
    PairsHolding(cs, cs, c, fetch);
    OccurrencesDistinct(cs, c);
    if c in cs {
      AllowancesDistinct(cs, cs, c);
    }
    ContributionsCancel(cs, Pairs(cs, cs), fetch);
    if c !in cs {
      NotTouching(Pairs(cs, cs), c, fetch);
    }
  }

  lemma {:induction false} NotTouching(pairs: seq<(string, string)>, c: string, fetch: Fetch)
    requires forall k | 0 <= k < |pairs| :: pairs[k].0 != c && pairs[k].1 != c
    ensures Get(Collect(pairs, fetch), c) == []
    decreases |pairs|
  {
    if |pairs| > 0 {
      NotTouching(pairs[..|pairs| - 1], c, fetch);
    }
  }

  /** One row of the strength table before ranking. */
  datatype StrengthRow = StrengthRow(currency: string, score: real, dataPoints: nat)

  /** `np.mean`. */
  function Mean(xs: seq<real>): real
    requires |xs| > 0
  {
    Sum(xs) / (|xs| as real)
  }

  /** The rows in currency-list order, skipping currencies with no data;
      `round` is `round(·, 3)`. */
  function StrengthRows(cs: seq<string>, scores: map<string, seq<real>>, round: real -> real): (rows: seq<StrengthRow>)
    ensures |rows| <= |cs|
  {
    if |cs| == 0 then []
    else
      var xs := Get(scores, cs[0]);
      (if |xs| > 0 then [StrengthRow(cs[0], round(Mean(xs)), |xs|)] else []) + StrengthRows(cs[1..], scores, round)
  }

  /** A currency gets a row iff it collected some contribution, and that row
      holds its rounded mean and its number of contributions. */
  lemma {:induction false} StrengthRowsSpec(cs: seq<string>, scores: map<string, seq<real>>, round: real -> real)
    ensures forall r | r in StrengthRows(cs, scores, round) ::
              && r.currency in cs
              && |Get(scores, r.currency)| == r.dataPoints > 0
              && r.score == round(Mean(Get(scores, r.currency)))
    ensures forall c | c in cs && |Get(scores, c)| > 0 ::
              exists r | r in StrengthRows(cs, scores, round) :: r.currency == c
    decreases |cs|
  {
    if |cs| > 0 {
      StrengthRowsSpec(cs[1..], scores, round);
      var rows := StrengthRows(cs, scores, round);
      var rest := StrengthRows(cs[1..], scores, round);
      assert forall r | r in rest :: r in rows;
      assert forall c | c in cs[1..] :: c in cs;
      forall c | c in cs && |Get(scores, c)| > 0
        ensures exists r | r in rows :: r.currency == c
      {
        if c == cs[0] {
          assert rows[0].currency == c;
        } else {
          assert c in cs[1..];
        }
      }
    }
  }

  /** A row of the ranked table. */
  datatype RankedRow = RankedRow(currency: string, score: real, dataPoints: nat, rank: nat)

  function ScoreKey(r: StrengthRow): real
  {
    r.score
  }

  /** `sort_values('Strength_Score', ascending=False)` and `Rank = index + 1`. */
  function Rank(rows: seq<StrengthRow>): seq<RankedRow>
  {
    var sorted := SortDescending(ScoreKey, rows);
    seq(|sorted|, i requires 0 <= i < |sorted| =>
      RankedRow(sorted[i].currency, sorted[i].score, sorted[i].dataPoints, i + 1))
  }

  /** A ranked row without its rank. */
  function Unranked(table: seq<RankedRow>): (rows: seq<StrengthRow>)
    ensures |rows| == |table|
    ensures forall i | 0 <= i < |table| ::
              rows[i] == StrengthRow(table[i].currency, table[i].score, table[i].dataPoints)
  {
    seq(|table|, i requires 0 <= i < |table| => StrengthRow(table[i].currency, table[i].score, table[i].dataPoints))
  }

  /** The ranked table has the same rows, strongest first, ranked 1..k. */
  lemma RankSpec(rows: seq<StrengthRow>)
    ensures |Rank(rows)| == |rows|
    ensures forall i | 0 <= i < |Rank(rows)| :: Rank(rows)[i].rank == i + 1
    ensures forall i, j | 0 <= i < j < |Rank(rows)| :: Rank(rows)[i].score >= Rank(rows)[j].score
    ensures multiset(Unranked(Rank(rows))) == multiset(rows)
  {
    var sorted := SortDescending(ScoreKey, rows);
    SortSpec(ScoreKey, rows);
    var ranked := Rank(rows);
    assert Unranked(ranked) == sorted;
    assert forall i, j | 0 <= i < j < |ranked| :: ScoreKey(sorted[i]) >= ScoreKey(sorted[j]);
  }

  /** `calculate_currency_strength` over the currency list `cs`. */
  function StrengthTableOf(cs: seq<string>, fetch: Fetch, round: real -> real): seq<RankedRow>
  {
    Rank(StrengthRows(cs, CurrencyScores(cs, fetch), round))
  }

  /** `calculate_currency_strength`, given the fetch and the rounding, with
      the empty table the page's `.empty` test expects when nothing was
      fetched. */
  function CalculateCurrencyStrength(fetch: Fetch, round: real -> real): seq<RankedRow>
  {
    StrengthTableOf(CurrencyList, fetch, round)
  }

  /** Some enumerated pair's change was fetched. */
  predicate AnyFetched(pairs: seq<(string, string)>, fetch: Fetch)
  {
    exists k | 0 <= k < |pairs| :: fetch(PairSymbol(pairs[k].0, pairs[k].1)).Some?
  }

  /** `calculate_currency_strength` as written: with no row, the frame built
      from an empty list has no `Strength_Score` column, so `sort_values`
      raises `KeyError`. A table it does return is never empty. */
  function CalculateCurrencyStrengthAsWritten(cs: seq<string>, fetch: Fetch, round: real -> real)
    : (r: Result<seq<RankedRow>, string>)
    ensures r.Ok? ==> r.value == StrengthTableOf(cs, fetch, round) && |r.value| > 0
  {
    var rows := StrengthRows(cs, CurrencyScores(cs, fetch), round);
    if |rows| == 0 then Fail("KeyError: 'Strength_Score'")
    else
      RankSpec(rows);
      Ok(Rank(rows))
  }

  /** As written, the meter raises exactly when no pair could be fetched. */
  lemma AsWrittenRaisesWithoutData(cs: seq<string>, fetch: Fetch, round: real -> real)
    ensures CalculateCurrencyStrengthAsWritten(cs, fetch, round).Fail? <==> !AnyFetched(Pairs(cs, cs), fetch)
  {
    RowsEmptyIffNoFetch(cs, fetch, round);
  }

  /** When every download fails, the meter as written raises instead of
      returning the empty table that leads to the "no data available"
      message; the corrected table is empty. */
  lemma AllFetchesFailingRaises(cs: seq<string>, round: real -> real)
    ensures CalculateCurrencyStrengthAsWritten(cs, _ => None, round) == Fail("KeyError: 'Strength_Score'")
    ensures StrengthTableOf(cs, _ => None, round) == []
  {
    var none: Fetch := _ => None;
    assert !AnyFetched(Pairs(cs, cs), none);
    RowsEmptyIffNoFetch(cs, none, round);
    RankSpec(StrengthRows(cs, CurrencyScores(cs, none), round));
  }

  /** The strength table is empty exactly when no pair could be fetched. */
  lemma EmptyTableIffNoData(cs: seq<string>, fetch: Fetch, round: real -> real)
    ensures |StrengthTableOf(cs, fetch, round)| == 0 <==> !AnyFetched(Pairs(cs, cs), fetch)
  {
    RowsEmptyIffNoFetch(cs, fetch, round);
    RankSpec(StrengthRows(cs, CurrencyScores(cs, fetch), round));
  }

  /** What the strength page shows: the chart and ranking, or the "no data
      available" error. */
  datatype StrengthView = Ranking(table: seq<RankedRow>) | NoDataError

  /** The branch on `strength_df.empty` over the currencies `cs`, fed the
      corrected table. */
  function StrengthPageOf(cs: seq<string>, fetch: Fetch, round: real -> real): StrengthView
  {
    var table := StrengthTableOf(cs, fetch, round);
    if |table| == 0 then NoDataError else Ranking(table)
  }

  /** `currency_strength_page` on the listed currencies. */
  function StrengthPage(fetch: Fetch, round: real -> real): StrengthView
  {
    StrengthPageOf(CurrencyList, fetch, round)
  }

  /** The page reports "no data" exactly when no pair could be fetched, and
      otherwise shows the strength table. */
  lemma StrengthPageSpec(cs: seq<string>, fetch: Fetch, round: real -> real)
    ensures StrengthPageOf(cs, fetch, round).NoDataError? <==> !AnyFetched(Pairs(cs, cs), fetch)
    ensures StrengthPageOf(cs, fetch, round).Ranking? ==>
              StrengthPageOf(cs, fetch, round).table == StrengthTableOf(cs, fetch, round)
  {
    EmptyTableIffNoData(cs, fetch, round);
  }

  /** There are strength rows exactly when some pair was fetched. */
  lemma RowsEmptyIffNoFetch(cs: seq<string>, fetch: Fetch, round: real -> real)
    ensures |StrengthRows(cs, CurrencyScores(cs, fetch), round)| == 0 <==> !AnyFetched(Pairs(cs, cs), fetch)
  {
    var pairs := Pairs(cs, cs);
    var scores := CurrencyScores(cs, fetch);
    var rows := StrengthRows(cs, scores, round);
    StrengthRowsSpec(cs, scores, round);
    if |rows| > 0 {
      assert rows[0] in rows;
      CollectCounts(pairs, rows[0].currency, fetch);
      FetchedWhenTouched(pairs, rows[0].currency, fetch);
    }
    if AnyFetched(pairs, fetch) {
      var k :| 0 <= k < |pairs| && fetch(PairSymbol(pairs[k].0, pairs[k].1)).Some?;
      TouchedByFetched(pairs, k, fetch);
      CollectCounts(pairs, pairs[k].0, fetch);
      assert pairs[k].0 in cs;
    }
  }

  /** A fetched pair gives its base a data point. */
  lemma {:induction false} TouchedByFetched(pairs: seq<(string, string)>, k: nat, fetch: Fetch)
    requires k < |pairs| && fetch(PairSymbol(pairs[k].0, pairs[k].1)).Some?
    ensures Touching(pairs, pairs[k].0, fetch) > 0
    decreases |pairs|
  {
    if k < |pairs| - 1 {
      assert pairs[..|pairs| - 1][k] == pairs[k];
      TouchedByFetched(pairs[..|pairs| - 1], k, fetch);
    }
  }

  /** A data point comes from a fetched pair. */
  lemma {:induction false} FetchedWhenTouched(pairs: seq<(string, string)>, c: string, fetch: Fetch)
    requires Touching(pairs, c, fetch) > 0
    ensures AnyFetched(pairs, fetch)
    decreases |pairs|
  {
    var n := |pairs|;
    if fetch(PairSymbol(pairs[n - 1].0, pairs[n - 1].1)).Some? {
      assert 0 <= n - 1 < n;
    } else {
      FetchedWhenTouched(pairs[..n - 1], c, fetch);
      var k :| 0 <= k < n - 1 && fetch(PairSymbol(pairs[..n - 1][k].0, pairs[..n - 1][k].1)).Some?;
      assert pairs[..n - 1][k] == pairs[k];
    }
  }

  /** Every ranked row is a listed currency with data, ranked by score, with
      its rounded mean score; its Data_Points is its number of fetched
      pairs, at most 2·(n−1); every listed currency with data has a row; and
      the unrounded scores behind the table cancel out. */
  lemma StrengthTable(cs: seq<string>, fetch: Fetch, round: real -> real)
    requires Distinct(cs)
    ensures var table := StrengthTableOf(cs, fetch, round);
            && |table| <= |cs|
            && (forall i | 0 <= i < |table| :: table[i].rank == i + 1)
            && (forall i, j | 0 <= i < j < |table| :: table[i].score >= table[j].score)
            && (forall i | 0 <= i < |table| ::
                  && table[i].currency in cs
                  && 0 < table[i].dataPoints == Touching(Pairs(cs, cs), table[i].currency, fetch) <= 2 * (|cs| - 1)
                  && |Get(CurrencyScores(cs, fetch), table[i].currency)| == table[i].dataPoints
                  && table[i].score == round(Mean(Get(CurrencyScores(cs, fetch), table[i].currency))))
            && (forall c | c in cs && Touching(Pairs(cs, cs), c, fetch) > 0 ::
                  exists i | 0 <= i < |table| :: table[i].currency == c)
            && SumOver(cs, CurrencyScores(cs, fetch)) == 0.0
  {
    var scores := CurrencyScores(cs, fetch);
    var rows := StrengthRows(cs, scores, round);
    var table := StrengthTableOf(cs, fetch, round);
    RankSpec(rows);
    ContributionsCancel(cs, Pairs(cs, cs), fetch);
    forall i | 0 <= i < |table|
      ensures && table[i].currency in cs
              && 0 < table[i].dataPoints == Touching(Pairs(cs, cs), table[i].currency, fetch) <= 2 * (|cs| - 1)
              && |Get(scores, table[i].currency)| == table[i].dataPoints
              && table[i].score == round(Mean(Get(scores, table[i].currency)))
    {
      RankedFromRows(rows, i);
      StrengthRowFacts(cs, fetch, round, Unranked(table)[i]);
    }
    forall c | c in cs && Touching(Pairs(cs, cs), c, fetch) > 0
      ensures exists i | 0 <= i < |table| :: table[i].currency == c
    {
      CollectCounts(Pairs(cs, cs), c, fetch);
      StrengthRowsSpec(cs, scores, round);
      var r :| r in rows && r.currency == c;
      RowIsRanked(rows, r);
    }
  }

  /** Every row appears in the ranked table. */
  lemma RowIsRanked(rows: seq<StrengthRow>, r: StrengthRow)
    requires r in rows
    ensures exists i | 0 <= i < |Rank(rows)| :: Rank(rows)[i].currency == r.currency
  {
    RankSpec(rows);
    assert r in multiset(rows);
    assert r in multiset(Unranked(Rank(rows)));
    var i :| 0 <= i < |Unranked(Rank(rows))| && Unranked(Rank(rows))[i] == r;
    assert Rank(rows)[i].currency == r.currency;
  }

  /** Every ranked row is one of the rows, with its rank dropped. */
  lemma RankedFromRows(rows: seq<StrengthRow>, i: nat)
    requires i < |Rank(rows)|
    ensures Unranked(Rank(rows))[i] in rows
    ensures Unranked(Rank(rows))[i].currency == Rank(rows)[i].currency
    ensures Unranked(Rank(rows))[i].dataPoints == Rank(rows)[i].dataPoints
    ensures Unranked(Rank(rows))[i].score == Rank(rows)[i].score
  {
    RankSpec(rows);
    assert Unranked(Rank(rows))[i] in multiset(Unranked(Rank(rows)));
  }

  /** A row of the strength rows is a listed currency whose data points
      are its fetched pairs, at most 2·(n−1). */
  lemma StrengthRowFacts(cs: seq<string>, fetch: Fetch, round: real -> real, r: StrengthRow)
    requires Distinct(cs)
    requires r in StrengthRows(cs, CurrencyScores(cs, fetch), round)
    ensures r.currency in cs
    ensures 0 < r.dataPoints == Touching(Pairs(cs, cs), r.currency, fetch) <= 2 * (|cs| - 1)
    ensures |Get(CurrencyScores(cs, fetch), r.currency)| == r.dataPoints
    ensures r.score == round(Mean(Get(CurrencyScores(cs, fetch), r.currency)))
  {
    StrengthRowsSpec(cs, CurrencyScores(cs, fetch), round);
    DataPointsBound(cs, r.currency, fetch);
  }

  /** The ten listed currencies are distinct, so each has at most 18 data
      points. */
  lemma CurrencyListDistinct()
    ensures Distinct(CurrencyList) && 2 * (|CurrencyList| - 1) == 18
  {
  }

  /** The five strength buckets, strongest first. */
  datatype Bucket = StrongUp | Up | Neutral | Down | StrongDown

  /** The thresholds of `create_strength_chart` and `get_strength_emoji`. */
  function BucketOf(score: real): Bucket
  {
    if score > 0.5 then StrongUp
    else if score > 0.1 then Up
    else if score > -0.1 then Neutral
    else if score > -0.5 then Down
    else StrongDown
  }

  /** The bar colour chosen in `create_strength_chart`. */
  function Colour(score: real): string
  {
    if score > 0.5 then "#63BE7B"
    else if score > 0.1 then "#90EE90"
    else if score > -0.1 then "#FFEB84"
    else if score > -0.5 then "#FFB6C1"
    else "#F8696B"
  }

  /** The status emoji chosen by `get_strength_emoji`. */
  function Emoji(score: real): string
  {
    if score > 0.5 then "\U{1F680}"
    else if score > 0.1 then "\U{1F4C8}"
    else if score > -0.1 then "\U{27A1}\U{FE0F}"
    else if score > -0.5 then "\U{1F4C9}"
    else "\U{1F53B}"
  }

  /** Colour and emoji are two names for the same bucket: two scores share a
      colour iff they share an emoji iff they fall in the same bucket, and a
      higher score never gets a weaker bucket. */
  lemma ColourAndEmojiAgree(a: real, b: real)
    ensures Colour(a) == Colour(b) <==> BucketOf(a) == BucketOf(b)
    ensures Emoji(a) == Emoji(b) <==> BucketOf(a) == BucketOf(b)
    ensures a <= b ==> BucketRank(BucketOf(a)) <= BucketRank(BucketOf(b))
  {
  }

  /** Buckets from weakest (0) to strongest (4). */
  function BucketRank(b: Bucket): nat
  {
    match b
    case StrongDown => 0
    case Down => 1
    case Neutral => 2
    case Up => 3
    case StrongUp => 4
  }
}
