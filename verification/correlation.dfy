/** The pair analysis of the correlation page (viz/fx_correlation.py): the
    guards that decide whether a correlation matrix is built at all, and the
    enumeration, ordering and selection of the matrix's pairs. Downloading
    returns and computing correlations are parameters. */
module Correlation {
  import opened Wrappers
  import opened Numbers
  import opened Sorting

  /** The correlation matrix: the value at row i, column j, NaN where
      pandas could not compute one. */
  type Corr = (nat, nat) -> Float

  /** A pair of distinct column positions, the first below the second. */
  predicate Ordered(p: (nat, nat), n: nat)
  {
    p.0 < p.1 < n
  }

  /** Lexicographic order of position pairs: the order the loops visit them. */
  predicate LexLess(p: (nat, nat), q: (nat, nat))
  {
    p.0 < q.0 || (p.0 == q.0 && p.1 < q.1)
  }

  predicate StrictlyLex(ps: seq<(nat, nat)>)
  {
    forall k, l | 0 <= k < l < |ps| :: LexLess(ps[k], ps[l])
  }

  /** The inner loop: `(i, j)` for `j` from `from` up to `n - 1`. */
  function RowPairs(i: nat, from: nat, n: nat): (ps: seq<(nat, nat)>)
    ensures |ps| == if from <= n then n - from else 0
    ensures forall k | 0 <= k < |ps| :: ps[k] == (i, from + k)
    decreases n - from
  {
    if from >= n then [] else [(i, from)] + RowPairs(i, from + 1, n)
  }

  /** The nested loops from row `i` on: every `(a, b)` with `i <= a < b < n`. */
  function AllPairs(i: nat, n: nat): seq<(nat, nat)>
    decreases n - i
  {
    if i >= n then [] else RowPairs(i, i + 1, n) + AllPairs(i + 1, n)
  }

  /** The loops visit exactly the pairs of distinct columns from row `i`
      on, the lower position first. */
  lemma {:induction false} AllPairsMembers(i: nat, n: nat)
    ensures forall p | p in AllPairs(i, n) :: i <= p.0 && Ordered(p, n)
    ensures forall a, b | i <= a < b < n :: (a, b) in AllPairs(i, n)
    decreases n - i
  {
    if i < n {
      AllPairsMembers(i + 1, n);
      var row := RowPairs(i, i + 1, n);
      var rest := AllPairs(i + 1, n);
      forall a, b | i <= a < b < n ensures (a, b) in row + rest {
        if a == i {
          assert row[b - i - 1] == (a, b);
        } else {
          assert (a, b) in rest;
        }
      }
    }
  }

  /** The loops visit the pairs in lexicographic order, so none twice. */
  lemma {:induction false} AllPairsLex(i: nat, n: nat)
    ensures StrictlyLex(AllPairs(i, n))
    decreases n - i
  {
    if i < n {
      AllPairsLex(i + 1, n);
      AllPairsMembers(i + 1, n);
      var row := RowPairs(i, i + 1, n);
      var rest := AllPairs(i + 1, n);
      var all := row + rest;
      forall k, l | 0 <= k < l < |all| ensures LexLess(all[k], all[l]) {
        if l >= |row| {
          assert all[l] == rest[l - |row|] && all[l] in rest;
          if k >= |row| {
            assert all[k] == rest[k - |row|];
          }
        }
      }
    }
  }

  /** There are `(n - i)(n - i - 1) / 2` such pairs. */
  lemma {:induction false} AllPairsCount(i: nat, n: nat)
    requires i <= n
    ensures 2 * |AllPairs(i, n)| == (n - i) * (n - i - 1)
    decreases n - i
  {
    if i < n {
      AllPairsCount(i + 1, n);
      var m := n - i - 1;
      assert 2 * |AllPairs(i, n)| == 2 * m + m * (m - 1);
      assert (n - i) * (n - i - 1) == (m + 1) * m;
    }
  }

  /** The non-NaN entries of the upper triangle, as position pairs. */
  function Kept(ps: seq<(nat, nat)>, corr: Corr): (kept: seq<(nat, nat)>)
    ensures |kept| <= |ps|
    decreases |ps|
  {
    if |ps| == 0 then []
    else (if corr(ps[0].0, ps[0].1).Num? then [ps[0]] else []) + Kept(ps[1..], corr)
  }

  /** Keeping entries keeps exactly the non-NaN pairs, in loop order. */
  lemma KeptSpec(ps: seq<(nat, nat)>, corr: Corr)
    requires StrictlyLex(ps)
    ensures forall p | p in Kept(ps, corr) :: p in ps && corr(p.0, p.1).Num?
    ensures forall p | p in ps && corr(p.0, p.1).Num? :: p in Kept(ps, corr)
    ensures StrictlyLex(Kept(ps, corr))
    ensures (forall p | p in ps :: corr(p.0, p.1).Num?) ==> |Kept(ps, corr)| == |ps|
  {
    KeptMembers(ps, corr);
    KeptOrdered(ps, corr);
  }

  /** The kept pairs are exactly the non-NaN ones; none is dropped when
      there is no NaN. */
  lemma {:induction false} KeptMembers(ps: seq<(nat, nat)>, corr: Corr)
    ensures forall p | p in Kept(ps, corr) :: p in ps && corr(p.0, p.1).Num?
    ensures forall p | p in ps && corr(p.0, p.1).Num? :: p in Kept(ps, corr)
    ensures (forall p | p in ps :: corr(p.0, p.1).Num?) ==> |Kept(ps, corr)| == |ps|
    decreases |ps|
  {
    if |ps| > 0 {
      KeptMembers(ps[1..], corr);
      assert forall p | p in ps[1..] :: p in ps;
      assert ps == [ps[0]] + ps[1..];
    }
  }

  /** Keeping pairs keeps the loop order. */
  lemma {:induction false} KeptOrdered(ps: seq<(nat, nat)>, corr: Corr)
    requires StrictlyLex(ps)
    ensures StrictlyLex(Kept(ps, corr))
    decreases |ps|
  {
    if |ps| > 0 {
      LexTail(ps);
      KeptOrdered(ps[1..], corr);
      KeptMembers(ps[1..], corr);
      if corr(ps[0].0, ps[0].1).Num? {
        LexCons(ps[0], Kept(ps[1..], corr));
      }
    }
  }

  /** A pair below every pair of a lexicographically increasing list can
      go in front of it. */
  lemma LexCons(p: (nat, nat), ps: seq<(nat, nat)>)
    requires StrictlyLex(ps)
    requires forall q | q in ps :: LexLess(p, q)
    ensures StrictlyLex([p] + ps)
  {
    var r := [p] + ps;
    forall k, l | 0 <= k < l < |r|
      ensures LexLess(r[k], r[l])
    {
      assert r[l] == ps[l - 1] && ps[l - 1] in ps;
      if k > 0 {
        assert r[k] == ps[k - 1];
      }
    }
  }

  /** The tail of a lexicographically increasing list is increasing and
      above its head. */
  lemma LexTail(ps: seq<(nat, nat)>)
    requires StrictlyLex(ps) && |ps| > 0
    ensures StrictlyLex(ps[1..])
    ensures forall q | q in ps[1..] :: LexLess(ps[0], q)
  {
    assert forall k | 0 <= k < |ps[1..]| :: ps[1..][k] == ps[k + 1];
  }

  /** One record of `correlations_list`. */
  datatype CorrPair = CorrPair(pair1: string, pair2: string, correlation: real, absCorrelation: real)

  /** The record of a kept position pair. */
  function Record(columns: seq<string>, corr: Corr, p: (nat, nat)): CorrPair
  {
    var c := corr(p.0, p.1);
    var v := if c.Num? then c.value else 0.0;
    CorrPair(if p.0 < |columns| then columns[p.0] else "",
             if p.1 < |columns| then columns[p.1] else "", v, Abs(v))
  }

  /** `correlations_list` for a matrix over `columns`. */
  function CorrelationsList(columns: seq<string>, corr: Corr): (entries: seq<CorrPair>)
  {
    var kept := Kept(AllPairs(0, |columns|), corr);
    seq(|kept|, k requires 0 <= k < |kept| => Record(columns, corr, kept[k]))
  }

  predicate Distinct(cs: seq<string>)
  {
    forall a, b | 0 <= a < b < |cs| :: cs[a] != cs[b]
  }

  /** Each entry is a non-NaN value above the diagonal with its absolute
      value, and names two different columns. */
  lemma EntriesSound(columns: seq<string>, corr: Corr)
    requires Distinct(columns)
    ensures forall e | e in CorrelationsList(columns, corr) ::
              && e.absCorrelation == Abs(e.correlation)
              && e.pair1 != e.pair2
              && exists a, b | 0 <= a < b < |columns| ::
                   e.pair1 == columns[a] && e.pair2 == columns[b] && corr(a, b) == Num(e.correlation)
  {
    var n := |columns|;
    var ps := AllPairs(0, n);
    AllPairsMembers(0, n);
    AllPairsLex(0, n);
    KeptSpec(ps, corr);
    var kept := Kept(ps, corr);
    var entries := CorrelationsList(columns, corr);
    forall e | e in entries
      ensures && e.absCorrelation == Abs(e.correlation)
              && e.pair1 != e.pair2
              && exists a, b | 0 <= a < b < n ::
                   e.pair1 == columns[a] && e.pair2 == columns[b] && corr(a, b) == Num(e.correlation)
    {
      var k :| 0 <= k < |entries| && entries[k] == e;
      var p := kept[k];
      assert p in kept;
      assert Ordered(p, n);
      assert e.pair1 == columns[p.0] && e.pair2 == columns[p.1];
    }
  }

  /** Every non-NaN value above the diagonal is listed. */
  lemma EntriesComplete(columns: seq<string>, corr: Corr)
    ensures forall a, b | 0 <= a < b < |columns| && corr(a, b).Num? ::
              CorrPair(columns[a], columns[b], corr(a, b).value, Abs(corr(a, b).value)) in CorrelationsList(columns, corr)
  {
    var n := |columns|;
    var ps := AllPairs(0, n);
    AllPairsMembers(0, n);
    AllPairsLex(0, n);
    KeptSpec(ps, corr);
    var kept := Kept(ps, corr);
    var entries := CorrelationsList(columns, corr);
    forall a, b | 0 <= a < b < n && corr(a, b).Num?
      ensures CorrPair(columns[a], columns[b], corr(a, b).value, Abs(corr(a, b).value)) in entries
    {
      assert (a, b) in kept;
      var k :| 0 <= k < |kept| && kept[k] == (a, b);
      assert entries[k] == Record(columns, corr, (a, b));
    }
  }

  /** No two entries name the same two columns, in either order. */
  lemma EntriesOnce(columns: seq<string>, corr: Corr)
    requires Distinct(columns)
    ensures var entries := CorrelationsList(columns, corr);
            forall k, l | 0 <= k < l < |entries| ::
              {entries[k].pair1, entries[k].pair2} != {entries[l].pair1, entries[l].pair2}
  {
    var n := |columns|;
    var ps := AllPairs(0, n);
    AllPairsMembers(0, n);
    AllPairsLex(0, n);
    KeptSpec(ps, corr);
    var kept := Kept(ps, corr);
    var entries := CorrelationsList(columns, corr);
    forall k, l | 0 <= k < l < |entries|
      ensures {entries[k].pair1, entries[k].pair2} != {entries[l].pair1, entries[l].pair2}
    {
      var p, q := kept[k], kept[l];
      assert p in kept && q in kept;
      assert LexLess(p, q) && Ordered(p, n) && Ordered(q, n);
      assert entries[k].pair1 == columns[p.0] && entries[k].pair2 == columns[p.1];
      assert entries[l].pair1 == columns[q.0] && entries[l].pair2 == columns[q.1];
      PairNamesDiffer(columns, p, q);
    }
  }

  /** Two different position pairs above the diagonal name two different
      sets of distinct columns. */
  lemma PairNamesDiffer(columns: seq<string>, p: (nat, nat), q: (nat, nat))
    requires Distinct(columns)
    requires Ordered(p, |columns|) && Ordered(q, |columns|) && LexLess(p, q)
    ensures {columns[p.0], columns[p.1]} != {columns[q.0], columns[q.1]}
  {
    if p.0 < q.0 {
      assert columns[p.0] != columns[q.0] && columns[p.0] != columns[q.1];
      assert columns[p.0] !in {columns[q.0], columns[q.1]};
    } else {
      assert columns[p.1] != columns[q.0] && columns[p.1] != columns[q.1];
      assert columns[p.1] !in {columns[q.0], columns[q.1]};
    }
  }

  /** Without NaN there are n(n−1)/2 entries, the page's Total Pairs. */
  lemma EntriesCount(columns: seq<string>, corr: Corr)
    requires forall a, b | 0 <= a < b < |columns| :: corr(a, b).Num?
    ensures |CorrelationsList(columns, corr)| == |columns| * (|columns| - 1) / 2
  {
    var n := |columns|;
    var ps := AllPairs(0, n);
    AllPairsMembers(0, n);
    AllPairsLex(0, n);
    AllPairsCount(0, n);
    KeptSpec(ps, corr);
    assert forall p | p in ps :: corr(p.0, p.1).Num?;
  }

  /** The selections the page shows, and the mean absolute correlation. */
  datatype Summary = Summary(
    strongestPositive: seq<CorrPair>, strongestNegative: seq<CorrPair>,
    veryCorrelated: seq<CorrPair>, uncorrelated: seq<CorrPair>, avgCorrelation: real)

  function AbsKey(e: CorrPair): real
  {
    e.absCorrelation
  }

  /** A boolean-mask selection: the rows satisfying `keep`, in order. */
  function Select(s: seq<CorrPair>, keep: CorrPair -> bool): seq<CorrPair>
    decreases |s|
  {
    if |s| == 0 then []
    else (if keep(s[0]) then [s[0]] else []) + Select(s[1..], keep)
  }

  /** A selection holds exactly the rows satisfying the mask, and a
      selection of a list sorted by strength is sorted by strength. */
  lemma SelectSpec(s: seq<CorrPair>, keep: CorrPair -> bool)
    ensures forall e | e in Select(s, keep) :: e in s && keep(e)
    ensures forall e | e in s && keep(e) :: e in Select(s, keep)
    ensures Descending(AbsKey, s) ==> Descending(AbsKey, Select(s, keep))
  {
    SelectMembers(s, keep);
    if Descending(AbsKey, s) {
      SelectOrdered(s, keep);
    }
  }

  /** A selection holds exactly the rows satisfying the mask. */
  lemma {:induction false} SelectMembers(s: seq<CorrPair>, keep: CorrPair -> bool)
    ensures forall e | e in Select(s, keep) :: e in s && keep(e)
    ensures forall e | e in s && keep(e) :: e in Select(s, keep)
    decreases |s|
  {
    if |s| > 0 {
      SelectMembers(s[1..], keep);
      assert forall e | e in s[1..] :: e in s;
      assert s == [s[0]] + s[1..];
    }
  }

  /** A selection of a list sorted by strength is sorted by strength. */
  lemma {:induction false} SelectOrdered(s: seq<CorrPair>, keep: CorrPair -> bool)
    requires Descending(AbsKey, s)
    ensures Descending(AbsKey, Select(s, keep))
    decreases |s|
  {
    if |s| > 0 {
      DescendingTail(AbsKey, s);
      SelectOrdered(s[1..], keep);
      SelectMembers(s[1..], keep);
      if keep(s[0]) {
        DescendingCons(AbsKey, s[0], Select(s[1..], keep));
      }
    }
  }

  /** `head(n)`. */
  function Head(s: seq<CorrPair>, n: nat): seq<CorrPair>
  {
    if |s| <= n then s else s[..n]
  }

  function SumAbs(s: seq<CorrPair>): real
  {
    if |s| == 0 then 0.0 else s[0].absCorrelation + SumAbs(s[1..])
  }

  predicate IsPositive(e: CorrPair) { e.correlation > 0.0 }
  predicate IsNegative(e: CorrPair) { e.correlation < 0.0 }
  predicate IsVeryCorrelated(e: CorrPair) { e.absCorrelation >= 0.75 }
  predicate IsUncorrelated(e: CorrPair) { e.absCorrelation <= 0.25 }

  /** `analyze_correlations`: `None` when no pair has a value. */
  function AnalyzeCorrelations(columns: seq<string>, corr: Corr): Option<Summary>
  {
    var entries := CorrelationsList(columns, corr);
    if |entries| == 0 then None
    else
      var sorted := SortDescending(AbsKey, entries);
      Some(Summary(
        Head(Select(sorted, IsPositive), 5),
        Head(Select(sorted, IsNegative), 5),
        Select(sorted, IsVeryCorrelated),
        Head(Select(sorted, IsUncorrelated), 5),
        SumAbs(entries) / (|entries| as real)))
  }

  /** What a bucket of at most `limit` rows taken from the top of the
      sorted list promises: its rows satisfy the mask and are listed pairs,
      it is sorted by strength, and no listed pair satisfying the mask and
      left out is stronger than any row in it; when it holds fewer than
      `limit` rows, no such pair is left out. */
  predicate TopOf(bucket: seq<CorrPair>, entries: seq<CorrPair>, keep: CorrPair -> bool, limit: nat)
  {
    && |bucket| <= limit
    && (forall e | e in bucket :: e in entries && keep(e))
    && Descending(AbsKey, bucket)
    && (forall e, k | e in entries && keep(e) && e !in bucket && 0 <= k < |bucket| ::
          e.absCorrelation <= bucket[k].absCorrelation)
    && (|bucket| < limit ==> forall e | e in entries && keep(e) :: e in bucket)
  }

  /** The sorted list holds the same pairs as the unsorted one. */
  lemma SortedSameMembers(entries: seq<CorrPair>)
    ensures forall e :: e in SortDescending(AbsKey, entries) <==> e in entries
    ensures Descending(AbsKey, SortDescending(AbsKey, entries))
  {
    SortSpec(AbsKey, entries);
    var sorted := SortDescending(AbsKey, entries);
    forall e ensures e in sorted <==> e in entries {
      assert e in sorted <==> e in multiset(sorted);
      assert e in entries <==> e in multiset(entries);
    }
  }

  /** The first rows of a selection from a sorted list are its top rows. */
  lemma HeadOfSelection(sorted: seq<CorrPair>, keep: CorrPair -> bool, limit: nat)
    requires Descending(AbsKey, sorted)
    ensures TopOf(Head(Select(sorted, keep), limit), sorted, keep, limit)
  {
    var sel := Select(sorted, keep);
    SelectSpec(sorted, keep);
    var top := Head(sel, limit);
    assert forall e | e in top :: e in sel;
    assert Descending(AbsKey, top);
    forall e, k | e in sorted && keep(e) && e !in top && 0 <= k < |top|
      ensures e.absCorrelation <= top[k].absCorrelation
    {
      LeftOutIsWeaker(sel, limit, e, k);
    }
  }

  /** A row of a sorted list that its first `limit` rows leave out is no
      stronger than any of them. */
  lemma LeftOutIsWeaker(sel: seq<CorrPair>, limit: nat, e: CorrPair, k: nat)
    requires Descending(AbsKey, sel)
    requires e in sel && e !in Head(sel, limit) && k < |Head(sel, limit)|
    ensures e.absCorrelation <= Head(sel, limit)[k].absCorrelation
  {
    var top := Head(sel, limit);
    var m :| 0 <= m < |sel| && sel[m] == e;
    assert forall j | 0 <= j < |top| :: sel[j] == top[j] && top[j] in top;
    assert k < m;
  }

  /** Taking the first rows of a sorted selection yields its top rows. */
  lemma HeadIsTop(entries: seq<CorrPair>, keep: CorrPair -> bool, limit: nat)
    ensures TopOf(Head(Select(SortDescending(AbsKey, entries), keep), limit), entries, keep, limit)
  {
    SortedSameMembers(entries);
    HeadOfSelection(SortDescending(AbsKey, entries), keep, limit);
  }

  /** The page's four buckets: the five strongest positive and negative
      pairs, all pairs with |c| ≥ 0.75, and the five strongest with
      |c| ≤ 0.25; with no pair at all there is no summary. */
  lemma AnalyzeSpec(columns: seq<string>, corr: Corr)
    ensures var entries := CorrelationsList(columns, corr);
            var summary := AnalyzeCorrelations(columns, corr);
            && (summary.None? <==> |entries| == 0)
            && (summary.Some? ==>
                  && TopOf(summary.value.strongestPositive, entries, IsPositive, 5)
                  && TopOf(summary.value.strongestNegative, entries, IsNegative, 5)
                  && TopOf(summary.value.uncorrelated, entries, IsUncorrelated, 5)
                  && (forall e | e in summary.value.veryCorrelated :: e in entries && IsVeryCorrelated(e))
                  && (forall e | e in entries && IsVeryCorrelated(e) :: e in summary.value.veryCorrelated)
                  && Descending(AbsKey, summary.value.veryCorrelated))
  {
    var entries := CorrelationsList(columns, corr);
    if |entries| > 0 {
      HeadIsTop(entries, IsPositive, 5);
      HeadIsTop(entries, IsNegative, 5);
      HeadIsTop(entries, IsUncorrelated, 5);
      var sorted := SortDescending(AbsKey, entries);
      SortedSameMembers(entries);
      SelectSpec(sorted, IsVeryCorrelated);
    }
  }

  /** `pair.replace('=X', '')`: every occurrence removed, left to right. */
  function RemoveSuffixMarks(s: string): string
    decreases |s|
  {
    if |s| == 0 then ""
    else if |s| >= 2 && s[0] == '=' && s[1] == 'X' then RemoveSuffixMarks(s[2..])
    else [s[0]] + RemoveSuffixMarks(s[1..])
  }

  /** A name without `=` followed by Yahoo's `=X` suffix loses exactly the
      suffix. */
  lemma {:induction false} RemoveSuffixMarksOfSymbol(s: string)
    requires '=' !in s
    ensures RemoveSuffixMarks(s + "=X") == s
    decreases |s|
  {
    if |s| == 0 {
      assert s + "=X" == "=X";
      assert "=X"[2..] == "";
    } else {
      assert (s + "=X")[1..] == s[1..] + "=X";
      assert forall c | c in s[1..] :: c in s;
      RemoveSuffixMarksOfSymbol(s[1..]);
    }
  }

  /** A name without `=` is left unchanged. */
  lemma {:induction false} RemoveSuffixMarksFree(s: string)
    requires '=' !in s
    ensures RemoveSuffixMarks(s) == s
    decreases |s|
  {
    if |s| > 0 {
      assert forall c | c in s[1..] :: c in s;
      RemoveSuffixMarksFree(s[1..]);
    }
  }

  /** The occurrences are removed in one pass from the left, not until none
      is left: `"==XX"` becomes `"=X"`. */
  lemma SinglePassReplace()
    ensures RemoveSuffixMarks("==XX") == "=X"
  {
    assert "==XX"[1..] == "=XX";
    assert "=XX"[2..] == "X";
    assert "X"[1..] == "";
  }

  /** `generate_major_pairs`: the Yahoo symbols of the correlation page. */
  const MajorPairs: seq<string> := [
    "EURUSD=X", "GBPUSD=X", "AUDUSD=X", "NZDUSD=X",
    "USDCAD=X", "USDCHF=X", "USDJPY=X", "USDSGD=X",
    "EURGBP=X", "EURJPY=X", "EURCHF=X", "EURAUD=X",
    "GBPJPY=X", "GBPCHF=X", "GBPAUD=X",
    "AUDJPY=X", "AUDCAD=X", "AUDCHF=X",
    "NZDJPY=X", "NZDCAD=X", "NZDCHF=X",
    "CADJPY=X", "CADCHF=X",
    "CHFJPY=X"]

  /** Each major pair is stored under its six-letter name. */
  lemma MajorPairNames()
    ensures forall i | 0 <= i < |MajorPairs| ::
              |MajorPairs[i]| == 8 && RemoveSuffixMarks(MajorPairs[i]) == MajorPairs[i][..6]
  {
    forall i | 0 <= i < |MajorPairs|
      ensures |MajorPairs[i]| == 8 && RemoveSuffixMarks(MajorPairs[i]) == MajorPairs[i][..6]
    {
      var p := MajorPairs[i];
      assert p == p[..6] + "=X";
      assert '=' !in p[..6];
      RemoveSuffixMarksOfSymbol(p[..6]);
    }
  }

  /** A pair's returns: the dates of its index, one per row. */
  type Returns = seq<int>

  /** `get_historical_data`: `None` on failure or too little data. */
  type History = string -> Option<Returns>

  /** `returns_data`: a dict, so a repeated name keeps its first place and
      takes the latest returns. */
  function Put(data: seq<(string, Returns)>, name: string, r: Returns): (out: seq<(string, Returns)>)
    ensures |out| == |data| || |out| == |data| + 1
    decreases |data|
  {
    if |data| == 0 then [(name, r)]
    else if data[0].0 == name then [(name, r)] + data[1..]
    else [data[0]] + Put(data[1..], name, r)
  }

  /** The fetch loop: pairs with at least five returns are stored. */
  function FetchReturns(pairs: seq<string>, history: History): seq<(string, Returns)>
    decreases |pairs|
  {
    if |pairs| == 0 then []
    else
      var data := FetchReturns(pairs[..|pairs| - 1], history);
      var pair := pairs[|pairs| - 1];
      match history(pair)
      case Some(r) => if |r| >= 5 then Put(data, RemoveSuffixMarks(pair), r) else data
      case None => data
  }

  /** The index as a set of dates. */
  function DateSet(r: Returns): set<int>
  {
    set k | 0 <= k < |r| :: r[k]
  }

  /** `common_dates` after two or more pairs: the dates every pair has. */
  function CommonDates(data: seq<(string, Returns)>): set<int>
    requires |data| > 0
    decreases |data|
  {
    if |data| == 1 then DateSet(data[0].1)
    else CommonDates(data[..|data| - 1]) * DateSet(data[|data| - 1].1)
  }

  /** A date is common iff every stored pair has it. */
  lemma {:induction false} CommonDatesSpec(data: seq<(string, Returns)>, d: int)
    requires |data| > 0
    ensures d in CommonDates(data) <==> forall k | 0 <= k < |data| :: d in DateSet(data[k].1)
    decreases |data|
  {
    if |data| > 1 {
      CommonDatesSpec(data[..|data| - 1], d);
      assert forall k | 0 <= k < |data| - 1 :: data[..|data| - 1][k] == data[k];
    }
  }

  /** The alignment loop: pairs whose rows at the common dates are not
      empty. */
  function Aligned(data: seq<(string, Returns)>, common: set<int>): seq<(string, Returns)>
    decreases |data|
  {
    if |data| == 0 then []
    else (if common * DateSet(data[0].1) != {} then [data[0]] else []) + Aligned(data[1..], common)
  }

  /** The columns of the returns frame and its dates, or `None` when one of
      the guards stops the page. */
  datatype Frame = Frame(columns: seq<string>, dates: set<int>)

  function CorrelationFrame(pairs: seq<string>, history: History): Option<Frame>
  {
    var data := FetchReturns(pairs, history);
    if |data| < 2 then None
    else
      var common := CommonDates(data);
      if |common| < 5 then None
      else
        var aligned := Aligned(data, common);
        if |aligned| < 2 then None
        else Some(Frame(Names(aligned), common))
  }

  /** Once five dates are common to all pairs, alignment keeps every pair. */
  lemma {:induction false} AlignedKeepsAll(data: seq<(string, Returns)>, common: set<int>)
    requires |common| > 0
    requires forall k | 0 <= k < |data| :: common <= DateSet(data[k].1)
    ensures Aligned(data, common) == data
    decreases |data|
  {
    if |data| > 0 {
      assert common * DateSet(data[0].1) == common;
      AlignedKeepsAll(data[1..], common);
    }
  }

  /** Storing keeps dictionary order: a name already stored keeps its
      place, a new name goes last. */
  lemma {:induction false} PutNames(data: seq<(string, Returns)>, name: string, r: Returns)
    ensures Names(Put(data, name, r)) == if name in Names(data) then Names(data) else Names(data) + [name]
    decreases |data|
  {
    if |data| > 0 {
      var rest := data[1..];
      NamesCons(data[0], rest);
      assert data == [data[0]] + rest;
      if data[0].0 != name {
        PutNames(rest, name, r);
        NamesCons(data[0], Put(rest, name, r));
      } else {
        NamesCons((name, r), rest);
      }
    }
  }

  /** The names of an entry in front of others. */
  lemma NamesCons(x: (string, Returns), data: seq<(string, Returns)>)
    ensures Names([x] + data) == [x.0] + Names(data)
  {
  }

  /** Storing keeps names distinct; the stored entry carries the new
      returns, in the old entry's place when the name was there; entries of
      other names keep their places; and every other entry it holds was
      there before. */
  lemma PutDistinct(data: seq<(string, Returns)>, name: string, r: Returns)
    requires Distinct(Names(data))
    ensures Distinct(Names(Put(data, name, r)))
    ensures (name, r) in Put(data, name, r)
    ensures forall k | 0 <= k < |data| && data[k].0 == name :: Put(data, name, r)[k] == (name, r)
    ensures forall k | 0 <= k < |data| && data[k].0 != name :: Put(data, name, r)[k] == data[k]
    ensures forall k | 0 <= k < |Put(data, name, r)| ::
              Put(data, name, r)[k].0 == name || Put(data, name, r)[k] in data
  {
    PutStores(data, name, r);
    PutNames(data, name, r);
    var out := Put(data, name, r);
    forall k | 0 <= k < |out|
      ensures out[k].0 == name || out[k] in data
    {
      if out[k] !in data {
        PutNew(data, name, r, k);
      }
    }
  }

  /** The new returns are stored, and over distinct names they replace the
      old entry in its place; every entry of another name stays where it
      was. */
  lemma {:induction false} PutStores(data: seq<(string, Returns)>, name: string, r: Returns)
    requires Distinct(Names(data))
    ensures (name, r) in Put(data, name, r)
    ensures forall k | 0 <= k < |data| && data[k].0 == name :: Put(data, name, r)[k] == (name, r)
    ensures forall k | 0 <= k < |data| && data[k].0 != name :: Put(data, name, r)[k] == data[k]
    decreases |data|
  {
    if |data| > 0 {
      var out := Put(data, name, r);
      if data[0].0 == name {
        assert out[0] == (name, r);
        assert forall k | 0 < k < |data| :: Names(data)[k] != Names(data)[0];
      } else {
        var rest := data[1..];
        assert Names(rest) == Names(data)[1..];
        PutStores(rest, name, r);
        assert out == [data[0]] + Put(rest, name, r);
        forall k | 0 <= k < |data|
          ensures out[k] == if data[k].0 == name then (name, r) else data[k]
        {
          if k > 0 {
            assert rest[k - 1] == data[k];
          }
        }
      }
    }
  }

  /** The names of the stored entries, in storage order. */
  function Names(data: seq<(string, Returns)>): (names: seq<string>)
    ensures |names| == |data|
    ensures forall k | 0 <= k < |data| :: names[k] == data[k].0
  {
    seq(|data|, k requires 0 <= k < |data| => data[k].0)
  }

  /** The fetch loop stores distinct names, each with at least five returns
      downloaded for some pair of that name. */
  lemma {:induction false} FetchReturnsSpec(pairs: seq<string>, history: History)
    ensures var data := FetchReturns(pairs, history);
            && Distinct(Names(data))
            && (forall k | 0 <= k < |data| ::
                  |data[k].1| >= 5
                  && exists i | 0 <= i < |pairs| ::
                       RemoveSuffixMarks(pairs[i]) == data[k].0 && history(pairs[i]) == Some(data[k].1))
    decreases |pairs|
  {
    if |pairs| > 0 {
      var init := pairs[..|pairs| - 1];
      var pair := pairs[|pairs| - 1];
      FetchReturnsSpec(init, history);
      var data := FetchReturns(init, history);
      assert forall i | 0 <= i < |init| :: init[i] == pairs[i];
      match history(pair)
      case None =>
      case Some(r) =>
        if |r| >= 5 {
          PutDistinct(data, RemoveSuffixMarks(pair), r);
          var out := Put(data, RemoveSuffixMarks(pair), r);
          forall k | 0 <= k < |out|
            ensures |out[k].1| >= 5
                    && exists i | 0 <= i < |pairs| ::
                         RemoveSuffixMarks(pairs[i]) == out[k].0 && history(pairs[i]) == Some(out[k].1)
          {
            if out[k] !in data {
              PutNew(data, RemoveSuffixMarks(pair), r, k);
              assert RemoveSuffixMarks(pairs[|pairs| - 1]) == out[k].0;
            } else {
              var m :| 0 <= m < |data| && data[m] == out[k];
            }
          }
        }
    }
  }

  /** Every pair that downloaded at least five returns has its name stored. */
  lemma {:induction false} FetchReturnsComplete(pairs: seq<string>, history: History)
    ensures forall i | 0 <= i < |pairs| && history(pairs[i]).Some? && |history(pairs[i]).value| >= 5 ::
              RemoveSuffixMarks(pairs[i]) in Names(FetchReturns(pairs, history))
    decreases |pairs|
  {
    if |pairs| > 0 {
      var init := pairs[..|pairs| - 1];
      var pair := pairs[|pairs| - 1];
      FetchReturnsComplete(init, history);
      var data := FetchReturns(init, history);
      assert forall i | 0 <= i < |init| :: init[i] == pairs[i];
      match history(pair)
      case None =>
      case Some(r) =>
        if |r| >= 5 {
          PutNames(data, RemoveSuffixMarks(pair), r);
        }
    }
  }

  /** An entry of `Put` that was not there before is the one just put. */
  lemma {:induction false} PutNew(data: seq<(string, Returns)>, name: string, r: Returns, k: nat)
    requires k < |Put(data, name, r)|
    requires Put(data, name, r)[k] !in data
    ensures Put(data, name, r)[k] == (name, r)
    decreases |data|
  {
    if |data| > 0 && data[0].0 != name && k > 0 {
      assert Put(data, name, r)[k] == Put(data[1..], name, r)[k - 1];
      assert forall x | x in data[1..] :: x in data;
      PutNew(data[1..], name, r, k - 1);
    }
  }

  /** The guards of `calculate_correlation_matrix`: no frame with fewer than
      two stored pairs or fewer than five common dates; otherwise the frame
      has every stored pair as a distinct column, and exactly the dates all
      of them share. */
  lemma CorrelationFrameSpec(pairs: seq<string>, history: History)
    ensures var data := FetchReturns(pairs, history);
            var frame := CorrelationFrame(pairs, history);
            && (frame.None? <==> |data| < 2 || |CommonDates(data)| < 5)
            && (frame.Some? ==>
                  && frame.value.columns == Names(data)
                  && 2 <= |frame.value.columns|
                  && Distinct(frame.value.columns)
                  && 5 <= |frame.value.dates|
                  && forall d :: d in frame.value.dates <==> forall k | 0 <= k < |data| :: d in DateSet(data[k].1))
  {
    var data := FetchReturns(pairs, history);
    FetchReturnsSpec(pairs, history);
    if |data| >= 2 {
      var common := CommonDates(data);
      CommonDatesAll(data);
      if |common| >= 5 {
        AlignedKeepsAll(data, common);
      }
    }
  }

  /** `CommonDatesSpec` for every date at once, and the common dates as a
      subset of each pair's dates. */
  lemma CommonDatesAll(data: seq<(string, Returns)>)
    requires |data| > 0
    ensures forall d :: d in CommonDates(data) <==> forall k | 0 <= k < |data| :: d in DateSet(data[k].1)
    ensures forall k | 0 <= k < |data| :: CommonDates(data) <= DateSet(data[k].1)
  {
    forall d ensures d in CommonDates(data) <==> forall k | 0 <= k < |data| :: d in DateSet(data[k].1) {
      CommonDatesSpec(data, d);
    }
    forall k | 0 <= k < |data| ensures CommonDates(data) <= DateSet(data[k].1) {
      forall d | d in CommonDates(data) ensures d in DateSet(data[k].1) {
        CommonDatesSpec(data, d);
      }
    }
  }
}
