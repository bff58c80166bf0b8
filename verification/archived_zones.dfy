/** The archived zone classifier of archive/unused_core/zone_transition.py,
    which stores a missing inner level as `None` instead of an infinity, and
    its `check_proximity` helper. */
module ArchivedZones {
  import opened Numbers
  import opened Wrappers
  import opened Zones

  /** The exception a comparison with `None` raises. */
  datatype ZoneError = ComparedWithNone

  /** A level as the archived loop stores it: `level_dict.get(name, None)`. */
  function StoredLevel(levelMap: map<string, real>, name: string): Option<ExtReal>
  {
    if name in levelMap then Some(Fin(levelMap[name])) else None
  }

  /** The archived resolution loop over the rows not yet visited. */
  function ArchivedResolveFrom(defs: seq<ZoneDef>, levelMap: map<string, real>,
                               acc: map<string, Option<ExtReal>>): map<string, Option<ExtReal>>
    decreases |defs|
  {
    if |defs| == 0 then acc
    else
      var d := defs[0];
      var afterUpper :=
        if d.upper.Level? then acc[d.upper.name := StoredLevel(levelMap, d.upper.name)] else acc;
      var afterLower :=
        if d.lower.Level? then afterUpper[d.lower.name := StoredLevel(levelMap, d.lower.name)]
        else afterUpper;
      ArchivedResolveFrom(defs[1..], levelMap, afterLower)
  }

  /** The archived level map: only the two Purple levels get infinite defaults. */
  function ArchivedLevels(defs: seq<ZoneDef>, levelMap: map<string, real>): map<string, Option<ExtReal>>
  {
    ArchivedResolveFrom(defs, levelMap, map[])
      [PurpleUpper := Some(Lookup(levelMap, PurpleUpper, PosInf))]
      [PurpleLower := Some(Lookup(levelMap, PurpleLower, NegInf))]
  }

  /** A bound's value: `levels.get(bound, dflt)` for a name, the literal otherwise. */
  function ArchivedBound(b: Bound, levels: map<string, Option<ExtReal>>, dflt: ExtReal): Option<ExtReal>
  {
    match b
    case Literal(v) => Some(v)
    case Level(n) => if n in levels then levels[n] else Some(dflt)
  }

  /** Python's chained `lower < price <= upper`: the left comparison runs
      first and, when false, the right one is never evaluated; either
      comparison raises when its level is `None`. */
  function ChainedTest(lower: Option<ExtReal>, price: real, upper: Option<ExtReal>): Result<bool, ZoneError>
  {
    match lower
    case None => Fail(ComparedWithNone)
    case Some(lo) =>
      if !Less(lo, Fin(price)) then Ok(false)
      else
        match upper
        case None => Fail(ComparedWithNone)
        case Some(up) => Ok(LessEq(Fin(price), up))
  }

  /** The band test of one row under the archived level map. */
  function ArchivedTest(price: real, d: ZoneDef, levels: map<string, Option<ExtReal>>): Result<bool, ZoneError>
  {
    ChainedTest(ArchivedBound(d.lower, levels, NegInf), price, ArchivedBound(d.upper, levels, PosInf))
  }

  /** The archived first-match walk; an exception ends it. */
  function ArchivedWalk(price: real, defs: seq<ZoneDef>, levels: map<string, Option<ExtReal>>)
    : Result<string, ZoneError>
    decreases |defs|
  {
    if |defs| == 0 then Ok(UnknownZone)
    else
      match ArchivedTest(price, defs[0], levels)
      case Fail(e) => Fail(e)
      case Ok(hit) => if hit then Ok(defs[0].name) else ArchivedWalk(price, defs[1..], levels)
  }

  /** `compute_current_zone` of the archived module. */
  function ArchivedZone(price: real, defs: seq<ZoneDef>, levelMap: map<string, real>): Result<string, ZoneError>
  {
    ArchivedWalk(price, defs, ArchivedLevels(defs, levelMap))
  }

  /** The archived map holds the live map's value wherever it is not `None`. */
  ghost predicate Refines(archived: map<string, Option<ExtReal>>, live: map<string, ExtReal>)
  {
    && archived.Keys == live.Keys
    && forall n | n in archived :: archived[n] == None || archived[n] == Some(live[n])
  }

  /** No level in the archived map is `None`. */
  ghost predicate NoneFree(archived: map<string, Option<ExtReal>>)
  {
    forall n | n in archived :: archived[n].Some?
  }

  /** What the archived loop stores for one name: the ticker's value when
      present, `None` when a referenced level is missing. */
  lemma {:induction false} ArchivedResolveFromValue(defs: seq<ZoneDef>, levelMap: map<string, real>,
                                                    acc: map<string, Option<ExtReal>>, n: string)
    ensures n in ArchivedResolveFrom(defs, levelMap, acc) <==> n in acc || Referenced(defs, n)
    ensures Referenced(defs, n) ==> ArchivedResolveFrom(defs, levelMap, acc)[n] == StoredLevel(levelMap, n)
    ensures !Referenced(defs, n) && n in acc ==> ArchivedResolveFrom(defs, levelMap, acc)[n] == acc[n]
    decreases |defs|
  {
    if |defs| > 0 {
      var d := defs[0];
      var afterUpper :=
        if d.upper.Level? then acc[d.upper.name := StoredLevel(levelMap, d.upper.name)] else acc;
      var afterLower :=
        if d.lower.Level? then afterUpper[d.lower.name := StoredLevel(levelMap, d.lower.name)]
        else afterUpper;
      ArchivedResolveFromValue(defs[1..], levelMap, afterLower, n);
    }
  }

  /** For the zone table, the archived map stores a present level's value,
      +inf / -inf for a missing Purple upper / lower, and `None` for a missing
      inner level. */
  lemma ArchivedResolvedLevel(levelMap: map<string, real>, n: string)
    ensures n in ArchivedLevels(ZoneDefinitions, levelMap) <==> n in LevelNames
    ensures n in LevelNames ==>
              ArchivedLevels(ZoneDefinitions, levelMap)[n] ==
                if n in levelMap then Some(Fin(levelMap[n]))
                else if n == PurpleUpper then Some(PosInf)
                else if n == PurpleLower then Some(NegInf)
                else None
  {
    ZoneTableChained();
    ArchivedResolveFromValue(ZoneDefinitions, levelMap, map[], n);
    ReferencedIff(ZoneDefinitions, n);
  }

  /** The archived map refines the live one: they agree except where the
      archived one holds `None`, and with every level present it holds none. */
  lemma ArchivedRefinesLive(levelMap: map<string, real>)
    ensures Refines(ArchivedLevels(ZoneDefinitions, levelMap), LiveLevels(levelMap))
    ensures (forall i | 0 <= i < 7 :: LevelNames[i] in levelMap) ==>
              NoneFree(ArchivedLevels(ZoneDefinitions, levelMap))
  {
    var archived := ArchivedLevels(ZoneDefinitions, levelMap);
    var live := LiveLevels(levelMap);
    forall n
      ensures n in archived <==> n in live
      ensures n in archived ==> archived[n] == None || archived[n] == Some(live[n])
      ensures n in archived && (forall i | 0 <= i < 7 :: LevelNames[i] in levelMap) ==> archived[n].Some?
    {
      ArchivedResolvedLevel(levelMap, n);
      ResolvedLevel(levelMap, n);
    }
  }

  /** Walking under a refining archived map: a result that is not an
      exception is the live walk's zone, and without `None` levels there is
      no exception at all. */
  lemma {:induction false} ArchivedWalkAgrees(price: real, defs: seq<ZoneDef>,
                                              archived: map<string, Option<ExtReal>>,
                                              live: map<string, ExtReal>)
    requires Refines(archived, live)
    ensures ArchivedWalk(price, defs, archived).Ok? ==>
              ArchivedWalk(price, defs, archived).value == Walk(price, defs, live)
    ensures NoneFree(archived) ==> ArchivedWalk(price, defs, archived) == Ok(Walk(price, defs, live))
    decreases |defs|
  {
    if |defs| > 0 {
      ArchivedWalkAgrees(price, defs[1..], archived, live);
      var t := ArchivedTest(price, defs[0], archived);
      if t.Ok? {
        assert t.value == InZone(price, defs[0], live);
      }
    }
  }

  /** When it does not raise, the archived classifier names the same zone as
      the live one; when every level is present it never raises. */
  lemma ArchivedMatchesLive(price: real, levelMap: map<string, real>)
    ensures ArchivedZone(price, ZoneDefinitions, levelMap).Ok? ==>
              ArchivedZone(price, ZoneDefinitions, levelMap).value
                == CurrentZone(price, ZoneDefinitions, levelMap)
    ensures (forall i | 0 <= i < 7 :: LevelNames[i] in levelMap) ==>
              ArchivedZone(price, ZoneDefinitions, levelMap) == Ok(CurrentZone(price, ZoneDefinitions, levelMap))
  {
    ArchivedRefinesLive(levelMap);
    ArchivedWalkAgrees(price, ZoneDefinitions, ArchivedLevels(ZoneDefinitions, levelMap), LiveLevels(levelMap));
  }

  /** The walk raises at the first row whose test raises, provided every
      earlier row's test returned false. */
  lemma {:induction false} ArchivedWalkRaisesAt(price: real, defs: seq<ZoneDef>,
                                                levels: map<string, Option<ExtReal>>, k: nat)
    requires k < |defs|
    requires forall j | 0 <= j < k :: ArchivedTest(price, defs[j], levels) == Ok(false)
    requires ArchivedTest(price, defs[k], levels).Fail?
    ensures ArchivedWalk(price, defs, levels).Fail?
    decreases k
  {
    if k > 0 {
      assert forall j | 0 <= j < k - 1 :: defs[1..][j] == defs[j + 1];
      ArchivedWalkRaisesAt(price, defs[1..], levels, k - 1);
    }
  }

  /** An exception from the walk comes from some row whose test raised. */
  lemma {:induction false} ArchivedWalkFailSource(price: real, defs: seq<ZoneDef>,
                                                  levels: map<string, Option<ExtReal>>)
    requires ArchivedWalk(price, defs, levels).Fail?
    ensures exists i | 0 <= i < |defs| :: ArchivedTest(price, defs[i], levels).Fail?
    decreases |defs|
  {
    if ArchivedTest(price, defs[0], levels).Ok? {
      ArchivedWalkFailSource(price, defs[1..], levels);
      var i :| 0 <= i < |defs[1..]| && ArchivedTest(price, defs[1..][i], levels).Fail?;
      assert defs[1..][i] == defs[i + 1];
    }
  }

  /** With the five inner levels present the archived map holds no `None`:
      the two Purple levels always have an infinite default. */
  lemma InnerLevelsNoneFree(levelMap: map<string, real>)
    requires forall k | 1 <= k <= 5 :: LevelNames[k] in levelMap
    ensures NoneFree(ArchivedLevels(ZoneDefinitions, levelMap))
  {
    var archived := ArchivedLevels(ZoneDefinitions, levelMap);
    forall n | n in archived
      ensures archived[n].Some?
    {
      ArchivedResolvedLevel(levelMap, n);
      var m :| 0 <= m < 7 && LevelNames[m] == n;
    }
  }

  /** With the five inner levels present, the archived classifier never
      raises and names the live classifier's zone. */
  lemma ArchivedNeverRaises(price: real, levelMap: map<string, real>)
    requires forall k | 1 <= k <= 5 :: LevelNames[k] in levelMap
    ensures ArchivedZone(price, ZoneDefinitions, levelMap) == Ok(CurrentZone(price, ZoneDefinitions, levelMap))
  {
    InnerLevelsNoneFree(levelMap);
    ArchivedRefinesLive(levelMap);
    ArchivedWalkAgrees(price, ZoneDefinitions, ArchivedLevels(ZoneDefinitions, levelMap), LiveLevels(levelMap));
  }

  /** The archived classifier raises only when some inner level is missing. */
  lemma ArchivedFailNeedsMissingLevel(price: real, levelMap: map<string, real>)
    requires ArchivedZone(price, ZoneDefinitions, levelMap).Fail?
    ensures exists k | 1 <= k <= 5 :: LevelNames[k] !in levelMap
  {
    if forall k | 1 <= k <= 5 :: LevelNames[k] in levelMap {
      ArchivedNeverRaises(price, levelMap);
      assert false;
    }
  }

  /** A concrete case where the two classifiers part ways: with only the
      Purple levels known and a price between them, the live classifier
      answers "Clearance" while the archived one raises at "Premium", whose
      lower bound "Red  Upper" is `None`. */
  lemma ArchivedRaisesOnMissingInnerLevel()
    ensures CurrentZone(1.1, ZoneDefinitions, map[PurpleUpper := 1.2, PurpleLower := 1.0]) == "Clearance"
    ensures ArchivedZone(1.1, ZoneDefinitions, map[PurpleUpper := 1.2, PurpleLower := 1.0]).Fail?
  {
    OnlyPurpleIsClearance();
    OnlyPurpleRaises();
  }

  /** With only the Purple band given, 1.1 falls through to Clearance in
      the live locator. */
  lemma OnlyPurpleIsClearance()
    ensures CurrentZone(1.1, ZoneDefinitions, map[PurpleUpper := 1.2, PurpleLower := 1.0]) == "Clearance"
  {
    var levelMap := map[PurpleUpper := 1.2, PurpleLower := 1.0];
    var live := LiveLevels(levelMap);
    ZoneTableChained();
    LevelNamesDistinct();
    forall i | 0 <= i < 7
      ensures LevelNames[i] in live
      ensures live[LevelNames[i]] == if i == 0 then Fin(1.2) else if i == 6 then Fin(1.0) else PosInf
    {
      LiveLevelValue(levelMap, i);
    }
    assert forall j | 0 <= j < 6 :: !InZone(1.1, ZoneDefinitions[j], live);
    assert ZoneDefinitions[6].upper == Level(LevelNames[5]) && ZoneDefinitions[6].lower == Level(LevelNames[6]);
    assert InZone(1.1, ZoneDefinitions[6], live);
  }

  /** With only the Purple band given, the archived walk passes Purple and
      raises at the Red row. */
  lemma OnlyPurpleRaises()
    ensures ArchivedZone(1.1, ZoneDefinitions, map[PurpleUpper := 1.2, PurpleLower := 1.0]).Fail?
  {
    var levelMap := map[PurpleUpper := 1.2, PurpleLower := 1.0];
    var archived := ArchivedLevels(ZoneDefinitions, levelMap);
    ZoneTableChained();
    ArchivedResolvedLevel(levelMap, PurpleUpper);
    ArchivedResolvedLevel(levelMap, RedUpper);
    assert ArchivedTest(1.1, ZoneDefinitions[0], archived) == Ok(false);
    ArchivedWalkRaisesAt(1.1, ZoneDefinitions, archived, 1);
  }

  /** The half-width of the proximity window, `PIP_RANGE`. */
  const PipRange: real := 0.001

  /** One proximity match: the level's value and its name. */
  datatype LevelHit = LevelHit(level: real, name: string)

  /** The proximity test of one non-NaN level against a bar's range. */
  predicate Near(level: real, high: real, low: real)
  {
    low <= level + PipRange && high >= level - PipRange
  }

  /** `check_proximity`: the levels, in dictionary order, that the bar's
      range touches within `PIP_RANGE`; NaN levels are skipped. */
  function CheckProximity(levels: seq<(string, Float)>, high: real, low: real): (hits: seq<LevelHit>)
    ensures |hits| <= |levels|
    ensures forall h | h in hits :: Near(h.level, high, low) && (h.name, Num(h.level)) in levels
    ensures forall i | 0 <= i < |levels| && levels[i].1.Num? && Near(levels[i].1.value, high, low) ::
              LevelHit(levels[i].1.value, levels[i].0) in hits
  {
    if |levels| == 0 then []
    else
      var (name, value) := levels[0];
      var rest := CheckProximity(levels[1..], high, low);
      assert forall i | 1 <= i < |levels| :: levels[i] == levels[1..][i - 1];
      if value.Num? && Near(value.value, high, low) then [LevelHit(value.value, name)] + rest else rest
  }

  /** Matches keep dictionary order: the matches of a concatenation are the
      matches of each part, in turn. */
  lemma {:induction false} CheckProximityOrder(a: seq<(string, Float)>, b: seq<(string, Float)>,
                                               high: real, low: real)
    ensures CheckProximity(a + b, high, low) == CheckProximity(a, high, low) + CheckProximity(b, high, low)
    decreases |a|
  {
    if |a| > 0 {
      assert (a + b)[1..] == a[1..] + b;
      CheckProximityOrder(a[1..], b, high, low);
    } else {
      assert a + b == b;
    }
  }
}

