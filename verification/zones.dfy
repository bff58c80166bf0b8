/** The live zone classifier of core/zone_locator.py: the eight-band zone
    table, the resolution of symbolic bounds against one ticker's levels, and
    the first-match walk that names the zone a price falls in. */
module Zones {
  import opened Numbers

  /** A zone boundary: a literal extreme, or the name of a level to look up. */
  datatype Bound = Literal(extreme: ExtReal) | Level(name: string)

  /** One row of the zone table: the zone's name, its upper and its lower bound. */
  datatype ZoneDef = ZoneDef(name: string, upper: Bound, lower: Bound)

  // Level names exactly as the key-level table spells them (note the double
  // space in "Red  Upper").
  const PurpleUpper: string := "Purple upper"
  const RedUpper: string := "Red  Upper"
  const YellowUpper: string := "Yellow Upper"
  const Green: string := "Green"
  const YellowLower: string := "Yellow Lower"
  const RedLower: string := "Red Lower"
  const PurpleLower: string := "Purple lower"

  /** The name returned when no band contains the price. */
  const UnknownZone: string := "Unknown"

  /** The zone table, most premium band first. */
  const ZoneDefinitions: seq<ZoneDef> := [
    ZoneDef("Premium+", Literal(PosInf), Level(PurpleUpper)),
    ZoneDef("Premium", Level(PurpleUpper), Level(RedUpper)),
    ZoneDef("Plus+", Level(RedUpper), Level(YellowUpper)),
    ZoneDef("Fair", Level(YellowUpper), Level(Green)),
    ZoneDef("Budget", Level(Green), Level(YellowLower)),
    ZoneDef("Discount", Level(YellowLower), Level(RedLower)),
    ZoneDef("Clearance", Level(RedLower), Level(PurpleLower)),
    ZoneDef("Reset", Level(PurpleLower), Literal(NegInf))
  ]

  /** The seven level names, from the top of the table to the bottom. */
  const LevelNames: seq<string> :=
    [PurpleUpper, RedUpper, YellowUpper, Green, YellowLower, RedLower, PurpleLower]

  /** The eight zone names, in table order. */
  const ZoneNames: seq<string> :=
    ["Premium+", "Premium", "Plus+", "Fair", "Budget", "Discount", "Clearance", "Reset"]

  /** `float(level_dict.get(name, dflt))`: the level if the ticker has it, else the default. */
  function Lookup(levelMap: map<string, real>, name: string, dflt: ExtReal): ExtReal
  {
    if name in levelMap then Fin(levelMap[name]) else dflt
  }

  /** Whether a zone row names the level `n` as one of its bounds. */
  predicate Mentions(d: ZoneDef, n: string)
  {
    d.upper == Level(n) || d.lower == Level(n)
  }

  /** Whether some row of the table names the level `n`. */
  predicate Referenced(defs: seq<ZoneDef>, n: string)
  {
    |defs| > 0 && (Mentions(defs[0], n) || Referenced(defs[1..], n))
  }

  /** The default a missing level receives from the resolution loop: the one
      belonging to its last assignment, made as an upper bound (+inf) or,
      when the row's lower bound comes second, as a lower bound (-inf). */
  function LastDefault(defs: seq<ZoneDef>, n: string): ExtReal
    requires Referenced(defs, n)
  {
    if Referenced(defs[1..], n) then LastDefault(defs[1..], n)
    else if defs[0].lower == Level(n) then NegInf
    else PosInf
  }

  /** The resolution loop over the rows not yet visited: each row's symbolic
      upper bound is stored with default +inf, then its lower bound with default -inf. */
  function ResolveFrom(defs: seq<ZoneDef>, levelMap: map<string, real>, acc: map<string, ExtReal>)
    : map<string, ExtReal>
    decreases |defs|
  {
    if |defs| == 0 then acc
    else
      var d := defs[0];
      var afterUpper :=
        if d.upper.Level? then acc[d.upper.name := Lookup(levelMap, d.upper.name, PosInf)] else acc;
      var afterLower :=
        if d.lower.Level? then afterUpper[d.lower.name := Lookup(levelMap, d.lower.name, NegInf)]
        else afterUpper;
      ResolveFrom(defs[1..], levelMap, afterLower)
  }

  /** The resolved level map: the loop, then the two Purple levels forced to
      their own defaults. */
  function ResolveLevels(defs: seq<ZoneDef>, levelMap: map<string, real>): map<string, ExtReal>
  {
    ResolveFrom(defs, levelMap, map[])
      [PurpleUpper := Lookup(levelMap, PurpleUpper, PosInf)]
      [PurpleLower := Lookup(levelMap, PurpleLower, NegInf)]
  }

  /** The value of a bound once levels are resolved; an unresolved name falls
      back to `dflt` as `levels.get(bound, dflt)` does. */
  function BoundValue(b: Bound, levels: map<string, ExtReal>, dflt: ExtReal): ExtReal
  {
    match b
    case Literal(v) => v
    case Level(n) => if n in levels then levels[n] else dflt
  }

  /** The band test `lower < price <= upper`. */
  predicate InZone(price: real, d: ZoneDef, levels: map<string, ExtReal>)
  {
    Less(BoundValue(d.lower, levels, NegInf), Fin(price))
    && LessEq(Fin(price), BoundValue(d.upper, levels, PosInf))
  }

  /** The first-match walk over the zone table. */
  function Walk(price: real, defs: seq<ZoneDef>, levels: map<string, ExtReal>): (zone: string)
    ensures (forall i | 0 <= i < |defs| :: !InZone(price, defs[i], levels)) ==> zone == UnknownZone
    ensures forall i | 0 <= i < |defs| ::
              InZone(price, defs[i], levels) && (forall j | 0 <= j < i :: !InZone(price, defs[j], levels))
              ==> zone == defs[i].name
    ensures zone == UnknownZone || exists i | 0 <= i < |defs| :: InZone(price, defs[i], levels) && zone == defs[i].name
    decreases |defs|
  {
    if |defs| == 0 then UnknownZone
    else if InZone(price, defs[0], levels) then defs[0].name
    else
      var rest := Walk(price, defs[1..], levels);
      assert forall i | 1 <= i < |defs| :: defs[i] == defs[1..][i - 1];
      rest
  }

  /** `compute_current_zone` of core/zone_locator.py. */
  function CurrentZone(price: real, defs: seq<ZoneDef>, levelMap: map<string, real>): (zone: string)
  {
    Walk(price, defs, ResolveLevels(defs, levelMap))
  }

  /** The resolved levels for the live zone table. */
  function LiveLevels(levelMap: map<string, real>): map<string, ExtReal>
  {
    ResolveLevels(ZoneDefinitions, levelMap)
  }

  /** The bands are chained: each zone's upper bound is the previous zone's
      lower bound, with +inf above the first and -inf below the last. */
  lemma ZoneTableChained()
    ensures |ZoneDefinitions| == 8
    ensures ZoneDefinitions[0].upper == Literal(PosInf)
    ensures ZoneDefinitions[7].lower == Literal(NegInf)
    ensures forall i | 1 <= i < 8 :: ZoneDefinitions[i].upper == ZoneDefinitions[i - 1].lower
    ensures forall i | 0 <= i < 7 :: ZoneDefinitions[i].lower == Level(LevelNames[i])
    ensures forall i | 0 <= i < 8 :: ZoneDefinitions[i].name == ZoneNames[i]
  {
  }

  /** What the resolution loop stores for one name: a referenced level takes
      the ticker's value when present and otherwise the default of its last
      assignment; a name no row references keeps what it had. */
  lemma {:induction false} ResolveFromValue(defs: seq<ZoneDef>, levelMap: map<string, real>,
                                            acc: map<string, ExtReal>, n: string)
    ensures n in ResolveFrom(defs, levelMap, acc) <==> n in acc || Referenced(defs, n)
    ensures Referenced(defs, n) ==>
              ResolveFrom(defs, levelMap, acc)[n] == Lookup(levelMap, n, LastDefault(defs, n))
    ensures !Referenced(defs, n) && n in acc ==> ResolveFrom(defs, levelMap, acc)[n] == acc[n]
    decreases |defs|
  {
    if |defs| > 0 {
      var d := defs[0];
      var afterUpper :=
        if d.upper.Level? then acc[d.upper.name := Lookup(levelMap, d.upper.name, PosInf)] else acc;
      var afterLower :=
        if d.lower.Level? then afterUpper[d.lower.name := Lookup(levelMap, d.lower.name, NegInf)]
        else afterUpper;
      ResolveFromValue(defs[1..], levelMap, afterLower, n);
    }
  }

  /** A name is referenced exactly when some row mentions it. */
  lemma {:induction false} ReferencedIff(defs: seq<ZoneDef>, n: string)
    ensures Referenced(defs, n) <==> exists i | 0 <= i < |defs| :: Mentions(defs[i], n)
    decreases |defs|
  {
    if |defs| > 0 {
      ReferencedIff(defs[1..], n);
      assert forall i | 1 <= i < |defs| :: defs[i] == defs[1..][i - 1];
      if Referenced(defs[1..], n) {
        var i :| 0 <= i < |defs[1..]| && Mentions(defs[1..][i], n);
        assert Mentions(defs[i + 1], n);
      }
    }
  }

  /** A level whose last mention is as a row's upper bound (and not also its
      lower bound) gets +inf when missing. */
  lemma {:induction false} LastDefaultOfUpper(defs: seq<ZoneDef>, n: string, k: nat)
    requires k < |defs|
    requires defs[k].upper == Level(n) && defs[k].lower != Level(n)
    requires forall j | k < j < |defs| :: !Mentions(defs[j], n)
    ensures Referenced(defs, n)
    ensures LastDefault(defs, n) == PosInf
    decreases k
  {
    ReferencedIff(defs, n);
    ReferencedIff(defs[1..], n);
    if k == 0 {
      assert forall i | 0 <= i < |defs[1..]| :: defs[1..][i] == defs[i + 1];
    } else {
      LastDefaultOfUpper(defs[1..], n, k - 1);
    }
  }

  /** For the live table, a level the ticker has resolves to exactly its
      value; a missing "Purple lower" resolves to -inf, and every other missing
      level to +inf (the inner ones because their last assignment in the loop
      is as an upper bound). No other name is resolved. */
  lemma ResolvedLevel(levelMap: map<string, real>, n: string)
    ensures n in LiveLevels(levelMap) <==> n in LevelNames
    ensures n in LevelNames ==>
              LiveLevels(levelMap)[n] ==
                if n in levelMap then Fin(levelMap[n])
                else if n == PurpleLower then NegInf
                else PosInf
  {
    LiveLevelsDomain(levelMap, n);
    if n in LevelNames {
      var m :| 0 <= m < 7 && LevelNames[m] == n;
      LevelNamesDistinct();
      LiveLevelValue(levelMap, m);
    }
  }

  /** The seven level names are pairwise distinct. */
  lemma LevelNamesDistinct()
    ensures forall i, j | 0 <= i < j < 7 :: LevelNames[i] != LevelNames[j]
  {
  }

  /** The live resolution resolves exactly the seven level names. */
  lemma LiveLevelsDomain(levelMap: map<string, real>, n: string)
    ensures n in LiveLevels(levelMap) <==> n in LevelNames
  {
    ResolveFromValue(ZoneDefinitions, levelMap, map[], n);
    ReferencedIff(ZoneDefinitions, n);
    ZoneTableChained();
    if n in LevelNames {
      var m :| 0 <= m < 7 && LevelNames[m] == n;
      assert Mentions(ZoneDefinitions[m], n);
    } else {
      assert forall i | 0 <= i < 8 :: !Mentions(ZoneDefinitions[i], n);
    }
  }

  /** The value the live resolution gives the level at position `m`. */
  lemma LiveLevelValue(levelMap: map<string, real>, m: nat)
    requires m < 7
    ensures LevelNames[m] in LiveLevels(levelMap)
    ensures LiveLevels(levelMap)[LevelNames[m]] ==
              if LevelNames[m] in levelMap then Fin(levelMap[LevelNames[m]])
              else if m == 6 then NegInf
              else PosInf
  {
    if 1 <= m <= 5 {
      InnerLevelValue(levelMap, m);
    }
  }

  /** `LiveLevelValue` for the five inner levels, which the walk alone
      resolves: a missing one defaults to +inf. */
  lemma InnerLevelValue(levelMap: map<string, real>, m: nat)
    requires 1 <= m <= 5
    ensures LevelNames[m] in LiveLevels(levelMap)
    ensures LiveLevels(levelMap)[LevelNames[m]] == Lookup(levelMap, LevelNames[m], PosInf)
  {
    var n := LevelNames[m];
    LevelNamesDistinct();
    ZoneTableChained();
    ResolveFromValue(ZoneDefinitions, levelMap, map[], n);
    ChainedLastDefault(ZoneDefinitions, LevelNames, m);
    assert n != PurpleUpper && n != PurpleLower;
  }

  /** In a chained table whose inner bounds are distinct names, every name's
      last mention is as the upper bound of the row below it, so a missing
      level defaults to +inf. */
  lemma ChainedLastDefault(defs: seq<ZoneDef>, names: seq<string>, m: nat)
    requires |defs| == |names| + 1 && m < |names|
    requires defs[|names|].lower.Literal?
    requires forall i | 0 <= i < |names| :: defs[i].lower == Level(names[i])
    requires forall i | 1 <= i < |defs| :: defs[i].upper == defs[i - 1].lower
    requires forall i, j | 0 <= i < j < |names| :: names[i] != names[j]
    ensures Referenced(defs, names[m])
    ensures LastDefault(defs, names[m]) == PosInf
  {
    var n := names[m];
    assert defs[m + 1].upper == Level(n);
    forall j | m + 1 < j < |defs|
      ensures !Mentions(defs[j], n)
    {
      assert defs[j].upper == Level(names[j - 1]);
    }
    LastDefaultOfUpper(defs, n, m + 1);
  }

  /** The zone names are pairwise distinct. */
  lemma ZoneNamesDistinct()
    ensures forall i, j | 0 <= i < j < 8 :: ZoneNames[i] != ZoneNames[j]
    ensures forall i | 0 <= i < 8 :: ZoneNames[i] != UnknownZone
  {
  }

  /** A missing inner level resolves to +inf, so the zone whose lower bound it
      is can never contain a price and is never the classification. */
  lemma MissingInnerLevelClosesZone(price: real, levelMap: map<string, real>, k: nat)
    requires 1 <= k <= 5 && LevelNames[k] !in levelMap
    ensures !InZone(price, ZoneDefinitions[k], LiveLevels(levelMap))
    ensures CurrentZone(price, ZoneDefinitions, levelMap) != ZoneNames[k]
  {
    var live := LiveLevels(levelMap);
    ZoneTableChained();
    ZoneNamesDistinct();
    InnerLevelValue(levelMap, k);
    assert !InZone(price, ZoneDefinitions[k], live);
    assert forall i | 0 <= i < 8 && i != k :: ZoneDefinitions[i].name != ZoneNames[k];
    assert CurrentZone(price, ZoneDefinitions, levelMap) == Walk(price, ZoneDefinitions, live);
  }

  /** How many of the values `vs` lie at or above `price`. */
  function CountAtOrAbove(price: real, vs: seq<real>): nat
  {
    if |vs| == 0 then 0
    else (if price <= vs[0] then 1 else 0) + CountAtOrAbove(price, vs[1..])
  }

  /** In a strictly decreasing list, the values at or above `price` form a prefix. */
  lemma {:induction false} CountSplitsDecreasing(price: real, vs: seq<real>)
    requires forall i, j | 0 <= i < j < |vs| :: vs[i] > vs[j]
    ensures CountAtOrAbove(price, vs) <= |vs|
    ensures forall i | 0 <= i < CountAtOrAbove(price, vs) :: price <= vs[i]
    ensures forall i | CountAtOrAbove(price, vs) <= i < |vs| :: price > vs[i]
    decreases |vs|
  {
    if |vs| > 0 {
      CountSplitsDecreasing(price, vs[1..]);
      assert forall i | 1 <= i < |vs| :: vs[i] == vs[1..][i - 1];
      if price > vs[0] {
        assert forall i | 0 <= i < |vs[1..]| :: price > vs[1..][i];
        assert CountAtOrAbove(price, vs[1..]) == 0;
      }
    }
  }

  /** All seven levels are present and strictly decreasing down the table. */
  predicate OrderedLevels(levelMap: map<string, real>)
  {
    && (forall i | 0 <= i < 7 :: LevelNames[i] in levelMap)
    && (forall i, j | 0 <= i < j < 7 :: levelMap[LevelNames[i]] > levelMap[LevelNames[j]])
  }

  /** The seven level values, top to bottom. */
  function LevelValues(levelMap: map<string, real>): (vs: seq<real>)
    requires forall i | 0 <= i < 7 :: LevelNames[i] in levelMap
    ensures |vs| == 7 && forall i | 0 <= i < 7 :: vs[i] == levelMap[LevelNames[i]]
  {
    seq(7, i requires 0 <= i < 7 => levelMap[LevelNames[i]])
  }

  /** With all seven levels present and strictly decreasing, every price lies
      in exactly one of the eight bands, namely the one indexed by how many
      levels lie at or above it, and is never classified "Unknown". */
  lemma OrderedLevelsClassify(price: real, levelMap: map<string, real>)
    requires OrderedLevels(levelMap)
    ensures CountAtOrAbove(price, LevelValues(levelMap)) < 8
    ensures forall i | 0 <= i < 8 ::
              InZone(price, ZoneDefinitions[i], LiveLevels(levelMap))
              <==> i == CountAtOrAbove(price, LevelValues(levelMap))
    ensures CurrentZone(price, ZoneDefinitions, levelMap)
              == ZoneNames[CountAtOrAbove(price, LevelValues(levelMap))]
    ensures CurrentZone(price, ZoneDefinitions, levelMap) != UnknownZone
  {
    var k := CountAtOrAbove(price, LevelValues(levelMap));
    var levels := LiveLevels(levelMap);
    OrderedBands(price, levelMap);
    ZoneTableChained();
    ZoneNamesDistinct();
    assert InZone(price, ZoneDefinitions[k], levels);
    assert forall j | 0 <= j < k :: !InZone(price, ZoneDefinitions[j], levels);
    assert CurrentZone(price, ZoneDefinitions, levelMap) == Walk(price, ZoneDefinitions, levels);
  }

  /** With ordered levels, the band holding a price is the one indexed by
      how many levels lie at or above it. */
  lemma OrderedBands(price: real, levelMap: map<string, real>)
    requires OrderedLevels(levelMap)
    ensures CountAtOrAbove(price, LevelValues(levelMap)) < 8
    ensures forall i | 0 <= i < 8 ::
              InZone(price, ZoneDefinitions[i], LiveLevels(levelMap))
              <==> i == CountAtOrAbove(price, LevelValues(levelMap))
  {
    var vs := LevelValues(levelMap);
    var levels := LiveLevels(levelMap);
    var k := CountAtOrAbove(price, vs);
    CountSplitsDecreasing(price, vs);
    ZoneTableChained();
    forall i | 0 <= i < 7
      ensures LevelNames[i] in levels && levels[LevelNames[i]] == Fin(vs[i])
    {
      LiveLevelValue(levelMap, i);
    }
    forall i | 0 <= i < 8
      ensures InZone(price, ZoneDefinitions[i], levels) <==> i == k
    {
      var lower := BoundValue(ZoneDefinitions[i].lower, levels, NegInf);
      var upper := BoundValue(ZoneDefinitions[i].upper, levels, PosInf);
      assert lower == if i == 7 then NegInf else Fin(vs[i]);
      assert upper == if i == 0 then PosInf else Fin(vs[i - 1]);
    }
  }
}

