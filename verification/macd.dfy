/** The trade loop of `macd_crossover`
    (archive/unused_core/strategies/macd_strategy.py): a position state
    machine folded over the bars. The indicators (MACD, Signal, ATR) come
    with each bar instead of being computed here. */
module Macd {
  import opened Wrappers
  import opened Numbers

  /** One row of the frame, in index order. ATR is NaN until its rolling
      window fills. */
  datatype Bar = Bar(time: int, close: real, high: real, low: real, macd: real, signal: real, atr: Float)

  datatype Direction = Long | Short

  datatype TradeResult = Win | Loss | Timeout

  const BullReason: string := "MACD Bull Crossover"
  const BearReason: string := "MACD Bear Crossover"

  /** The open position: where it was entered and its stop and target. */
  datatype Position = Position(
    direction: Direction, entryBar: nat, entryDate: int, entryPrice: real,
    sl: Float, tp: Float, held: nat)

  /** A closed trade. `entryBar`/`exitBar` are the rows' positions in the
      frame, `entryDate`/`exitDate` their index labels. */
  datatype Trade = Trade(
    entryBar: nat, entryDate: int, entryPrice: real, sl: Float, tp: Float,
    exitBar: nat, exitDate: int, exitPrice: Float, result: TradeResult, reason: string)

  /** The loop's state: the open position, if any, and the trades so far. */
  datatype State = State(open: Option<Position>, trades: seq<Trade>)

  /** MACD crosses above Signal below the zero line. */
  predicate BullCross(prev: Bar, row: Bar)
  {
    prev.macd < prev.signal && row.macd > row.signal && row.macd < 0.0
  }

  /** MACD crosses below Signal above the zero line. */
  predicate BearCross(prev: Bar, row: Bar)
  {
    prev.macd > prev.signal && row.macd < row.signal && row.macd > 0.0
  }

  /** `price + atr * mult` in float arithmetic: NaN stays NaN. */
  function AddScaled(price: real, atr: Float, mult: real): Float
  {
    match atr
    case NaN => NaN
    case Num(a) => Num(price + a * mult)
  }

  /** The stop and the target of a position entered at `price`. */
  function Bracket(direction: Direction, price: real, atr: Float, mult: real): (Float, Float)
  {
    match direction
    case Long => (AddScaled(price, atr, -mult), AddScaled(price, atr, mult))
    case Short => (AddScaled(price, atr, mult), AddScaled(price, atr, -mult))
  }

  function ReasonOf(direction: Direction): string
  {
    match direction
    case Long => BullReason
    case Short => BearReason
  }

  /** The entry test made while flat at bar `i`. */
  function Enter(prev: Bar, row: Bar, i: nat, mult: real): (p: Option<Position>)
    ensures p.Some? <==> BullCross(prev, row) || BearCross(prev, row)
    ensures p.Some? ==> (p.value.direction.Long? <==> BullCross(prev, row))
  {
    var direction :=
      if BullCross(prev, row) then Some(Long)
      else if BearCross(prev, row) then Some(Short)
      else None;
    match direction
    case None => None
    case Some(d) =>
      var (sl, tp) := Bracket(d, row.close, row.atr, mult);
      Some(Position(d, i, row.time, row.close, sl, tp, 0))
  }

  /** The stop is touched by the bar (a NaN stop never is). */
  predicate StopHit(p: Position, row: Bar)
  {
    match p.direction
    case Long => Le(row.low, p.sl)
    case Short => Ge(row.high, p.sl)
  }

  /** The target is touched by the bar (a NaN target never is). */
  predicate TargetHit(p: Position, row: Bar)
  {
    match p.direction
    case Long => Ge(row.high, p.tp)
    case Short => Le(row.low, p.tp)
  }

  function Closed(p: Position, row: Bar, i: nat, price: Float, result: TradeResult): Trade
  {
    Trade(p.entryBar, p.entryDate, p.entryPrice, p.sl, p.tp, i, row.time, price, result, ReasonOf(p.direction))
  }

  /** The exit tests made at bar `i` after `held` bars in the trade: stop
      first, then target, then the bar limit. */
  function ExitAt(p: Position, row: Bar, i: nat, held: nat, maxBars: int): Option<Trade>
  {
    if StopHit(p, row) then Some(Closed(p, row, i, p.sl, Loss))
    else if TargetHit(p, row) then Some(Closed(p, row, i, p.tp, Win))
    else if held >= maxBars then Some(Closed(p, row, i, Num(row.close), Timeout))
    else None
  }

  /** One iteration of the loop at bar `i`. */
  function Step(s: State, prev: Bar, row: Bar, i: nat, mult: real, maxBars: int): State
  {
    match s.open
    case None => State(Enter(prev, row, i, mult), s.trades)
    case Some(p) =>
      var held := p.held + 1;
      match ExitAt(p, row, i, held, maxBars)
      case Some(t) => State(None, s.trades + [t])
      case None => State(Some(p.(held := held)), s.trades)
  }

  /** The state after the loop has seen bars 1 .. n-1. */
  function Run(bars: seq<Bar>, n: nat, mult: real, maxBars: int): State
    requires n <= |bars|
    decreases n
  {
    if n <= 1 then State(None, [])
    else Step(Run(bars, n - 1, mult, maxBars), bars[n - 2], bars[n - 1], n - 1, mult, maxBars)
  }

  /** `macd_crossover`: the closed trades; a position still open at the end
      is not returned. */
  function MacdCrossover(bars: seq<Bar>, mult: real, maxBars: int): seq<Trade>
  {
    Run(bars, |bars|, mult, maxBars).trades
  }

  /** The longest a trade can be held: `max_bars`, but at least one bar. */
  function Horizon(maxBars: int): nat
  {
    if maxBars < 1 then 1 else maxBars
  }

  /** Bar `i` shows the crossover that opens a position in `direction`. */
  predicate EntrySignal(bars: seq<Bar>, i: nat, direction: Direction)
    requires 1 <= i < |bars|
  {
    match direction
    case Long => BullCross(bars[i - 1], bars[i])
    case Short => !BullCross(bars[i - 1], bars[i]) && BearCross(bars[i - 1], bars[i])
  }

  /** A position opened at its entry bar and not closed by bars up to `last`. */
  predicate OpenedProperly(bars: seq<Bar>, p: Position, last: nat, mult: real)
  {
    && 1 <= p.entryBar <= last < |bars|
    && EntrySignal(bars, p.entryBar, p.direction)
    && p.entryDate == bars[p.entryBar].time
    && p.entryPrice == bars[p.entryBar].close
    && (p.sl, p.tp) == Bracket(p.direction, p.entryPrice, bars[p.entryBar].atr, mult)
    && (forall j | p.entryBar < j <= last :: !StopHit(p, bars[j]) && !TargetHit(p, bars[j]))
  }

  /** A closed trade as the loop produces it: opened on a crossover, held
      between 1 and `Horizon(maxBars)` bars without touching its stop or
      target before the exit bar, and exited at the stop (Loss), at the
      target (Win, only if the stop was not touched) or at the close after
      exactly `Horizon(maxBars)` bars (Timeout). */
  predicate ValidTrade(bars: seq<Bar>, t: Trade, mult: real, maxBars: int)
  {
    exists d: Direction ::
      var p := Position(d, t.entryBar, t.entryDate, t.entryPrice, t.sl, t.tp, 0);
      && t.entryBar < t.exitBar < |bars|
      && OpenedProperly(bars, p, t.exitBar - 1, mult)
      && t.reason == ReasonOf(d)
      && t.exitBar - t.entryBar <= Horizon(maxBars)
      && t.exitDate == bars[t.exitBar].time
      && match t.result
         case Loss => StopHit(p, bars[t.exitBar]) && t.exitPrice == t.sl
         case Win => !StopHit(p, bars[t.exitBar]) && TargetHit(p, bars[t.exitBar]) && t.exitPrice == t.tp
         case Timeout =>
           && !StopHit(p, bars[t.exitBar]) && !TargetHit(p, bars[t.exitBar])
           && t.exitBar - t.entryBar == Horizon(maxBars)
           && t.exitPrice == Num(bars[t.exitBar].close)
  }

  /** What holds after the loop has seen bars 1 .. n-1. */
  predicate Invariant(bars: seq<Bar>, n: nat, s: State, mult: real, maxBars: int)
  {
    && (forall k | 0 <= k < |s.trades| :: ValidTrade(bars, s.trades[k], mult, maxBars) && s.trades[k].exitBar < n)
    && (forall k | 0 <= k < |s.trades| - 1 :: s.trades[k].exitBar < s.trades[k + 1].entryBar)
    && (s.open.Some? ==>
          var p := s.open.value;
          && 1 <= n
          && OpenedProperly(bars, p, n - 1, mult)
          && p.held == n - 1 - p.entryBar < Horizon(maxBars)
          && (forall k | 0 <= k < |s.trades| :: s.trades[k].exitBar < p.entryBar))
  }

  /** A position kept open one more bar stays properly opened. */
  lemma KeepOpen(bars: seq<Bar>, p: Position, n: nat, mult: real)
    requires 1 <= n < |bars| && OpenedProperly(bars, p, n - 1, mult)
    requires !StopHit(p, bars[n]) && !TargetHit(p, bars[n])
    ensures OpenedProperly(bars, p.(held := p.held + 1), n, mult)
  {
    var q := p.(held := p.held + 1);
    forall j | q.entryBar < j <= n ensures !StopHit(q, bars[j]) && !TargetHit(q, bars[j]) {
      if j < n {
        assert !StopHit(p, bars[j]) && !TargetHit(p, bars[j]);
      }
    }
  }

  /** A closed position makes a valid trade. */
  lemma CloseValid(bars: seq<Bar>, p: Position, n: nat, mult: real, maxBars: int)
    requires 1 <= n < |bars|
    requires OpenedProperly(bars, p, n - 1, mult)
    requires p.held == n - 1 - p.entryBar < Horizon(maxBars)
    requires ExitAt(p, bars[n], n, p.held + 1, maxBars).Some?
    ensures ValidTrade(bars, ExitAt(p, bars[n], n, p.held + 1, maxBars).value, mult, maxBars)
  {
    var t := ExitAt(p, bars[n], n, p.held + 1, maxBars).value;
    var q := Position(p.direction, t.entryBar, t.entryDate, t.entryPrice, t.sl, t.tp, 0);
    assert forall j | q.entryBar < j <= n - 1 :: StopHit(q, bars[j]) == StopHit(p, bars[j]);
    assert forall j | q.entryBar < j <= n - 1 :: TargetHit(q, bars[j]) == TargetHit(p, bars[j]);
    assert OpenedProperly(bars, q, t.exitBar - 1, mult);
    assert StopHit(q, bars[n]) == StopHit(p, bars[n]);
    assert TargetHit(q, bars[n]) == TargetHit(p, bars[n]);
  }

  /** One iteration keeps the invariant. */
  lemma StepKeeps(bars: seq<Bar>, n: nat, s: State, mult: real, maxBars: int)
    requires 1 <= n < |bars|
    requires Invariant(bars, n, s, mult, maxBars)
    ensures Invariant(bars, n + 1, Step(s, bars[n - 1], bars[n], n, mult, maxBars), mult, maxBars)
  {
    if s.open.None? {
      FlatStepKeeps(bars, n, s, mult, maxBars);
    } else {
      HoldingStepKeeps(bars, n, s, mult, maxBars);
    }
  }

  /** An iteration without an open position keeps the invariant: an entry
      it makes is properly opened on this bar. */
  lemma FlatStepKeeps(bars: seq<Bar>, n: nat, s: State, mult: real, maxBars: int)
    requires 1 <= n < |bars| && s.open.None?
    requires Invariant(bars, n, s, mult, maxBars)
    ensures Invariant(bars, n + 1, Step(s, bars[n - 1], bars[n], n, mult, maxBars), mult, maxBars)
  {
    var e := Enter(bars[n - 1], bars[n], n, mult);
    assert Step(s, bars[n - 1], bars[n], n, mult, maxBars) == State(e, s.trades);
    if e.Some? {
      var p := e.value;
      assert EntrySignal(bars, n, p.direction);
      assert OpenedProperly(bars, p, n, mult);
    }
  }

  /** An iteration with an open position keeps the invariant: it either
      closes a valid trade or keeps the position properly open. */
  lemma HoldingStepKeeps(bars: seq<Bar>, n: nat, s: State, mult: real, maxBars: int)
    requires 1 <= n < |bars| && s.open.Some?
    requires Invariant(bars, n, s, mult, maxBars)
    ensures Invariant(bars, n + 1, Step(s, bars[n - 1], bars[n], n, mult, maxBars), mult, maxBars)
  {
    var p := s.open.value;
    var out := ExitAt(p, bars[n], n, p.held + 1, maxBars);
    if out.Some? {
      ClosingStepKeeps(bars, n, s, mult, maxBars);
    } else {
      KeepOpen(bars, p, n, mult);
      assert Step(s, bars[n - 1], bars[n], n, mult, maxBars) == State(Some(p.(held := p.held + 1)), s.trades);
      assert p.held + 1 < Horizon(maxBars);
    }
  }

  /** An iteration that closes the open position appends a valid trade that
      starts after every earlier one ended and ends on this bar. */
  lemma ClosingStepKeeps(bars: seq<Bar>, n: nat, s: State, mult: real, maxBars: int)
    requires 1 <= n < |bars| && s.open.Some?
    requires Invariant(bars, n, s, mult, maxBars)
    requires ExitAt(s.open.value, bars[n], n, s.open.value.held + 1, maxBars).Some?
    ensures Invariant(bars, n + 1, Step(s, bars[n - 1], bars[n], n, mult, maxBars), mult, maxBars)
  {
    var p := s.open.value;
    var t := ExitAt(p, bars[n], n, p.held + 1, maxBars).value;
    CloseValid(bars, p, n, mult, maxBars);
    assert t.exitBar == n && t.entryBar == p.entryBar;
    AppendTrade(bars, s.trades, t, n, mult, maxBars);
    assert Invariant(bars, n + 1, State(None, s.trades + [t]), mult, maxBars);
    assert Step(s, bars[n - 1], bars[n], n, mult, maxBars) == State(None, s.trades + [t]);
  }

  /** A valid trade ending at bar `n` and starting after every earlier one
      ended extends a valid, non-overlapping trade list. */
  lemma AppendTrade(bars: seq<Bar>, trades: seq<Trade>, t: Trade, n: nat, mult: real, maxBars: int)
    requires forall k | 0 <= k < |trades| :: ValidTrade(bars, trades[k], mult, maxBars) && trades[k].exitBar < n
    requires forall k | 0 <= k < |trades| - 1 :: trades[k].exitBar < trades[k + 1].entryBar
    requires forall k | 0 <= k < |trades| :: trades[k].exitBar < t.entryBar
    requires ValidTrade(bars, t, mult, maxBars) && t.exitBar == n
    ensures var all := trades + [t];
            && (forall k | 0 <= k < |all| :: ValidTrade(bars, all[k], mult, maxBars) && all[k].exitBar < n + 1)
            && (forall k | 0 <= k < |all| - 1 :: all[k].exitBar < all[k + 1].entryBar)
  {
    var all := trades + [t];
    forall k | 0 <= k < |all| ensures ValidTrade(bars, all[k], mult, maxBars) && all[k].exitBar < n + 1 {
      if k < |trades| {
        assert all[k] == trades[k];
      } else {
        assert all[k] == t;
      }
    }
    forall k | 0 <= k < |all| - 1 ensures all[k].exitBar < all[k + 1].entryBar {
      assert all[k] == trades[k];
      if k + 1 < |trades| {
        assert all[k + 1] == trades[k + 1];
      } else {
        assert all[k + 1] == t;
      }
    }
  }

  lemma {:induction false} RunKeeps(bars: seq<Bar>, n: nat, mult: real, maxBars: int)
    requires n <= |bars|
    ensures Invariant(bars, n, Run(bars, n, mult, maxBars), mult, maxBars)
    decreases n
  {
    if n > 1 {
      RunKeeps(bars, n - 1, mult, maxBars);
      StepKeeps(bars, n - 1, Run(bars, n - 1, mult, maxBars), mult, maxBars);
    }
  }

  /** Every returned trade is valid, trades never overlap, and a new trade
      is entered only on a bar after the previous exit. */
  lemma TradesValid(bars: seq<Bar>, mult: real, maxBars: int)
    ensures var trades := MacdCrossover(bars, mult, maxBars);
            && (forall k | 0 <= k < |trades| :: ValidTrade(bars, trades[k], mult, maxBars))
            && (forall k | 0 <= k < |trades| - 1 :: trades[k].exitBar < trades[k + 1].entryBar)
  {
    RunKeeps(bars, |bars|, mult, maxBars);
  }

  /** The exit rules of one step: a bar that touches the stop closes the
      trade as a Loss at the stop even if it also touches the target; a
      target touch alone closes it as a Win at the target; otherwise the
      trade times out at the close once it has been held `maxBars` bars. */
  lemma ExitRules(p: Position, row: Bar, i: nat, held: nat, maxBars: int)
    ensures var out := ExitAt(p, row, i, held, maxBars);
            && (StopHit(p, row) ==> out.Some? && out.value.result == Loss && out.value.exitPrice == p.sl)
            && (!StopHit(p, row) && TargetHit(p, row) ==> out.Some? && out.value.result == Win && out.value.exitPrice == p.tp)
            && (!StopHit(p, row) && !TargetHit(p, row) ==>
                  (out.Some? <==> held >= maxBars)
                  && (out.Some? ==> out.value.result == Timeout && out.value.exitPrice == Num(row.close)))
            && (out.Some? ==> out.value.exitBar == i && out.value.entryBar == p.entryBar)
  {
  }

  /** A long position's stop lies below its entry and its target above by
      the same ATR multiple, and a short position is the mirror image; a NaN
      ATR leaves both NaN, so that only the bar limit can close the trade. */
  lemma BracketSymmetric(direction: Direction, price: real, atr: Float, mult: real)
    ensures var (sl, tp) := Bracket(direction, price, atr, mult);
            && (atr.NaN? <==> sl.NaN? && tp.NaN?)
            && (atr.Num? ==> sl.Num? && tp.Num? && sl.value + tp.value == 2.0 * price)
            && (atr.Num? && atr.value * mult > 0.0 ==>
                  (direction.Long? <==> sl.value < price < tp.value))
  {
  }

  /** With a NaN stop and target only the bar limit closes a trade. */
  lemma NaNBracketTimesOut(p: Position, row: Bar, i: nat, held: nat, maxBars: int)
    requires p.sl.NaN? && p.tp.NaN?
    ensures var out := ExitAt(p, row, i, held, maxBars);
            (out.Some? <==> held >= maxBars) && (out.Some? ==> out.value.result == Timeout)
  {
  }

  /** Entry signals count only while flat: an open position either closes
      into exactly one new trade or is carried one bar further unchanged,
      and a flat step opens a position iff the bar shows a crossover,
      without closing any trade. */
  lemma EntryOnlyWhenFlat(s: State, prev: Bar, row: Bar, i: nat, mult: real, maxBars: int)
    ensures var next := Step(s, prev, row, i, mult, maxBars);
            && (s.open.None? ==>
                  next.trades == s.trades && (next.open.Some? <==> BullCross(prev, row) || BearCross(prev, row)))
            && (s.open.Some? ==>
                  var p := s.open.value;
                  || (next.open == Some(p.(held := p.held + 1)) && next.trades == s.trades)
                  || (next.open.None? && |next.trades| == |s.trades| + 1 && next.trades[..|s.trades|] == s.trades))
  {
    var next := Step(s, prev, row, i, mult, maxBars);
    if s.open.Some? && next.open.None? {
      assert next.trades[..|s.trades|] == s.trades;
    }
  }
}
