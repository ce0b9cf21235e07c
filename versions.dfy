/**
 * `get_current_versions` (`__init__.py`, lines 358-406) as a fold over the
 * configured targets it visits: each target's check is populated, resolved
 * through the version cache and turned into a report entry, and the
 * aggregate flags are or-ed over the entries.
 */
module Versions {
  import opened Wrappers
  import opened Lists
  import opened Checks
  import opened Resolver

  /** The `get_current_versions` report: entries per target and the two aggregate flags. */
  datatype VersionReport = VersionReport(information: map<string, TargetInfo>, updateAvailable: bool, updatePossible: bool)

  /** Why `get_current_versions` raised: a check without `type`, a display version that is no string, a failed `format`. */
  datatype ReportError = MissingCheckType(target: string) | DisplayVersionNotText(target: string) | FormatFailed(target: string)

  /**
   * The report entry of one target from its resolution: none when there is
   * no information, otherwise the information with its defaults, the two
   * flags, the display name and the formatted display version; raising when
   * the display version is no string or does not format.
   */
  function TargetReport(res: Resolution, target: string, check: Check, host: Host): Result<Option<TargetInfo>, ReportError> {
    match res.information
    case None => Success(None)
    case Some(info) =>
      var information := WithDefaults(info);
      match PluginDisplayVersion(target, check)
      case Text(template) =>
        (match FormatDisplayVersion(template, host.version, information["local"]["name"], information["local"]["value"])
         case Some(version) =>
           Success(Some(TargetInfo(res.updateAvailable, res.updatePossible, information, PluginName(target, check, host), version)))
         case None => Failure(FormatFailed(target)))
      case _ => Failure(DisplayVersionNotText(target))
  }

  /** A report entry reflects the resolution of its target and the check's display settings. */
  ghost predicate Reports(e: TargetInfo, res: Resolution, target: string, check: Check, host: Host) {
    && res.information.Some?
    && e.information == WithDefaults(res.information.value)
    && e.updateAvailable == res.updateAvailable
    && e.updatePossible == res.updatePossible
    && e.displayName == PluginName(target, check, host)
    && PluginDisplayVersion(target, check).Text?
    && FormatDisplayVersion(PluginDisplayVersion(target, check).s, host.version,
         e.information["local"]["name"], e.information["local"]["value"]) == Some(e.displayVersion)
  }

  /**
   * A target is reported exactly when it has version information and its
   * display version formats, and the entry then reflects the resolution;
   * a target without information is left out and never raises.
   */
  lemma TargetReportMeaning(res: Resolution, target: string, check: Check, host: Host)
    ensures var r := TargetReport(res, target, check, host);
      && (r.Success? && r.value.Some? ==> Reports(r.value.value, res, target, check, host))
      && (res.information.None? <==> r == Success(None))
      && (r.Failure? ==> r.error.target == target && res.information.Some?)
      && (r.Failure? && r.error.DisplayVersionNotText? <==> res.information.Some? && !PluginDisplayVersion(target, check).Text?)
      && (forall e :: Reports(e, res, target, check, host) ==> r == Success(Some(e)))
  {
  }

  /** Some entry of the report has an update available. */
  predicate AnyAvailable(information: map<string, TargetInfo>) {
    exists t :: t in information && information[t].updateAvailable
  }

  /** Some entry of the report has an update that is available and possible. */
  predicate AnyPossible(information: map<string, TargetInfo>) {
    exists t :: t in information && information[t].updateAvailable && information[t].updatePossible
  }

  lemma AggregateExtend(information: map<string, TargetInfo>, t: string, e: TargetInfo)
    requires t !in information
    ensures AnyAvailable(information[t := e]) <==> AnyAvailable(information) || e.updateAvailable
    ensures AnyPossible(information[t := e]) <==> AnyPossible(information) || (e.updateAvailable && e.updatePossible)
  {
    var m := information[t := e];
    assert t in m && m[t] == e;
    if AnyAvailable(information) {
      var u :| u in information && information[u].updateAvailable;
      assert m[u] == information[u];
    }
    if AnyPossible(information) {
      var u :| u in information && information[u].updateAvailable && information[u].updatePossible;
      assert m[u] == information[u];
    }
    if AnyAvailable(m) {
      var u :| u in m && m[u].updateAvailable;
      if u != t { assert information[u] == m[u]; }
    }
    if AnyPossible(m) {
      var u :| u in m && m[u].updateAvailable && m[u].updatePossible;
      if u != t { assert information[u] == m[u]; }
    }
  }

  /** What one call of `get_current_versions` runs against: the cache's time to live, the clock, `force`, the collaborators. */
  datatype Query = Query(ttl: real, now: real, force: bool, env: Environment, host: Host, globalPip: Value)

  /** The lookup of a configured target, made with its populated check. */
  function TargetLookup(q: Query, cache: VersionCache, target: string, check: Check): Lookup
    requires "type" in check
  {
    LookupVersion(cache, q.ttl, q.now, q.force, q.env, target, Populated(target, check, q.host), q.globalPip)
  }

  /**
   * One target's outcome against a cache: the entry the lookup stored, if
   * any, and the target's report entry or what it raised. A check without
   * `type` raises before the cache is consulted.
   */
  datatype TargetOutcome = TargetOutcome(stored: Option<CacheEntry>, report: Result<Option<TargetInfo>, ReportError>)

  function TargetStep(q: Query, cache: VersionCache, target: string, check: Check): TargetOutcome {
    if "type" !in check then TargetOutcome(None, Failure(MissingCheckType(target)))
    else
      var l := TargetLookup(q, cache, target, check);
      TargetOutcome(if l.stored then Some(l.cache[target]) else None, TargetReport(l.resolution, target, check, q.host))
  }

  /** A target's outcome depends on the cache only through the target's own entry. */
  lemma StepLocal(q: Query, c1: VersionCache, c2: VersionCache, target: string, check: Check)
    requires target in c1 <==> target in c2
    requires target in c1 ==> c1[target] == c2[target]
    ensures TargetStep(q, c1, target, check) == TargetStep(q, c2, target, check)
  {
    if "type" in check {
      LookupLocal(c1, c2, q.ttl, q.now, q.force, q.env, target, Populated(target, check, q.host), q.globalPip);
    }
  }

  /** A target visited by the loop, with its outcome. */
  datatype Visit = Visit(target: string, outcome: TargetOutcome)

  /** The loop's variables, the cache with its dirty flag, and what was raised, if anything. */
  datatype VersionsState = VersionsState(cache: VersionCache, dirty: bool, information: map<string, TargetInfo>,
                                         updateAvailable: bool, updatePossible: bool, error: Option<ReportError>)

  /** The state before the first target. */
  function Begin(cache: VersionCache, dirty: bool): VersionsState {
    VersionsState(cache, dirty, map[], false, false, None)
  }

  /** The cache after a visit: a stored entry replaces the target's entry and marks the cache dirty. */
  function StoreOutcome(cache: VersionCache, v: Visit): VersionCache {
    if v.outcome.stored.Some? then cache[v.target := v.outcome.stored.value] else cache
  }

  /** Taking in one visit; nothing happens after something was raised. */
  function Absorb(st: VersionsState, v: Visit): VersionsState {
    if st.error.Some? then st
    else
      var st' := st.(cache := StoreOutcome(st.cache, v), dirty := st.dirty || v.outcome.stored.Some?);
      match v.outcome.report
      case Failure(e) => st'.(error := Some(e))
      case Success(None) => st'
      case Success(Some(e)) =>
        st'.(information := st.information[v.target := e],
             updateAvailable := st.updateAvailable || e.updateAvailable,
             updatePossible := st.updatePossible || (e.updatePossible && e.updateAvailable))
  }

  /** The state after the visits, in order. */
  function AbsorbAll(start: VersionsState, visits: seq<Visit>): VersionsState
    decreases |visits|
  {
    if |visits| == 0 then start
    else Absorb(AbsorbAll(start, visits[..|visits| - 1]), visits[|visits| - 1])
  }

  /** The targets visited, in order. */
  function TargetsOf(visits: seq<Visit>): (r: seq<string>)
    ensures |r| == |visits| && forall j :: 0 <= j < |visits| ==> r[j] == visits[j].target
  {
    seq(|visits|, j requires 0 <= j < |visits| => visits[j].target)
  }

  /** Each visit is of a configured target and has the outcome its lookup has against the given cache. */
  predicate ValidVisits(visits: seq<Visit>, q: Query, checks: map<string, Check>, cache: VersionCache) {
    forall j :: 0 <= j < |visits| ==>
      visits[j].target in checks && visits[j].outcome == TargetStep(q, cache, visits[j].target, checks[visits[j].target])
  }

  /** Visiting one more target that the loop has not visited yet. */
  lemma VisitsAppend(visits: seq<Visit>, q: Query, checks: map<string, Check>, cache: VersionCache, start: VersionsState, v: Visit)
    requires ValidVisits(visits, q, checks, cache) && NoDuplicates(TargetsOf(visits))
    requires v.target in checks && v.outcome == TargetStep(q, cache, v.target, checks[v.target])
    requires v.target !in TargetsOf(visits)
    ensures ValidVisits(visits + [v], q, checks, cache) && NoDuplicates(TargetsOf(visits + [v]))
    ensures AbsorbAll(start, visits + [v]) == Absorb(AbsorbAll(start, visits), v)
  {
    var extended := visits + [v];
    assert extended[..|visits|] == visits;
    assert forall j :: 0 <= j < |extended| ==> extended[j] == if j < |visits| then visits[j] else v;
    assert TargetsOf(extended) == TargetsOf(visits) + [v.target];
    NoDuplicatesAppend(TargetsOf(visits), v.target);
  }

  /**
   * Visiting one more target against a cache that agrees with the original
   * one on that target extends a valid history.
   */
  lemma VisitStep(visits: seq<Visit>, q: Query, checks: map<string, Check>, cache: VersionCache, start: VersionsState,
                  current: VersionCache, target: string)
    requires ValidVisits(visits, q, checks, cache) && NoDuplicates(TargetsOf(visits))
    requires target in checks && target !in TargetsOf(visits)
    requires target in current <==> target in cache
    requires target in current ==> current[target] == cache[target]
    ensures var v := Visit(target, TargetStep(q, current, target, checks[target]));
      && ValidVisits(visits + [v], q, checks, cache) && NoDuplicates(TargetsOf(visits + [v]))
      && TargetsOf(visits + [v]) == TargetsOf(visits) + [target]
      && AbsorbAll(start, visits + [v]) == Absorb(AbsorbAll(start, visits), v)
  {
    StepLocal(q, current, cache, target, checks[target]);
    var v := Visit(target, TargetStep(q, current, target, checks[target]));
    VisitsAppend(visits, q, checks, cache, start, v);
    assert TargetsOf(visits + [v]) == TargetsOf(visits) + [target];
  }

  /** What one visit does to a state in which nothing was raised yet. */
  lemma AbsorbStep(st: VersionsState, v: Visit)
    requires st.error.None?
    ensures var st' := Absorb(st, v);
      && st'.cache == StoreOutcome(st.cache, v) && st'.dirty == (st.dirty || v.outcome.stored.Some?)
      && (v.outcome.report.Failure? ==> st'.error == Some(v.outcome.report.error))
      && (v.outcome.report == Success(None) ==>
            st'.error.None? && st'.information == st.information
            && st'.updateAvailable == st.updateAvailable && st'.updatePossible == st.updatePossible)
      && (v.outcome.report.Success? && v.outcome.report.value.Some? ==>
            var e := v.outcome.report.value.value;
            && st'.error.None? && st'.information == st.information[v.target := e]
            && st'.updateAvailable == (st.updateAvailable || e.updateAvailable)
            && st'.updatePossible == (st.updatePossible || (e.updatePossible && e.updateAvailable)))
  {
  }

  /** A visit changes no cache entry but its target's. */
  lemma AbsorbKeepsOthers(st: VersionsState, v: Visit, k: string)
    requires k != v.target
    ensures var st' := Absorb(st, v);
      (k in st'.cache <==> k in st.cache) && (k in st'.cache ==> st'.cache[k] == st.cache[k])
  {
    assert Absorb(st, v).cache == st.cache || Absorb(st, v).cache == StoreOutcome(st.cache, v);
  }

  /** The cache entry of a target that was not visited is as it was. */
  lemma {:induction false} VisitKeepsOthers(start: VersionsState, visits: seq<Visit>, k: string)
    requires k !in TargetsOf(visits)
    ensures var st := AbsorbAll(start, visits);
      (k in st.cache <==> k in start.cache) && (k in st.cache ==> st.cache[k] == start.cache[k])
    decreases |visits|
  {
    if |visits| > 0 {
      var n := |visits| - 1;
      var ts := TargetsOf(visits);
      assert ts[n] == visits[n].target;
      assert TargetsOf(visits[..n]) == ts[..n];
      VisitKeepsOthers(start, visits[..n], k);
      AbsorbKeepsOthers(AbsorbAll(start, visits[..n]), visits[n], k);
    }
  }

  /** What the loop's state says about one visit once the loop is done. */
  predicate OutcomeHeld(st: VersionsState, cache: VersionCache, v: Visit) {
    && v.outcome.report.Success?
    && (v.target in st.information <==> v.outcome.report.value.Some?)
    && (v.outcome.report.value.Some? ==> st.information[v.target] == v.outcome.report.value.value)
    && (v.outcome.stored.Some? ==> v.target in st.cache && st.cache[v.target] == v.outcome.stored.value && st.dirty)
    && (v.outcome.stored.None? ==>
          (v.target in st.cache <==> v.target in cache) && (v.target in st.cache ==> st.cache[v.target] == cache[v.target]))
  }

  /**
   * Over visits of distinct targets: the report holds only visited
   * targets, the flags are the or of the entries' flags, and a dirty cache
   * stays dirty.
   */
  lemma {:induction false} VisitAggregates(visits: seq<Visit>, cache: VersionCache, dirty: bool)
    requires NoDuplicates(TargetsOf(visits))
    ensures var st := AbsorbAll(Begin(cache, dirty), visits);
      && (forall t :: t in st.information ==> t in TargetsOf(visits))
      && (st.updateAvailable <==> AnyAvailable(st.information))
      && (st.updatePossible <==> AnyPossible(st.information))
      && (dirty ==> st.dirty)
    decreases |visits|
  {
    if |visits| > 0 {
      var n := |visits| - 1;
      var v, prefix := visits[n], visits[..n];
      var ts := TargetsOf(visits);
      assert TargetsOf(prefix) == ts[..n];
      NoDuplicatesPrefix(ts, n);
      NoDuplicatesFresh(ts, n);
      VisitAggregates(prefix, cache, dirty);
      var before := AbsorbAll(Begin(cache, dirty), prefix);
      if before.error.None? && v.outcome.report.Success? && v.outcome.report.value.Some? {
        assert v.target !in before.information;
        AggregateExtend(before.information, v.target, v.outcome.report.value.value);
      }
    }
  }

  lemma {:induction false} VisitErrorSource(visits: seq<Visit>, cache: VersionCache, dirty: bool)
    ensures var st := AbsorbAll(Begin(cache, dirty), visits);
      st.error.Some? ==> exists j :: 0 <= j < |visits| && visits[j].outcome.report == Failure(st.error.value)
    decreases |visits|
  {
    if |visits| > 0 {
      var n := |visits| - 1;
      var prefix := visits[..n];
      VisitErrorSource(prefix, cache, dirty);
      var before := AbsorbAll(Begin(cache, dirty), prefix);
      if before.error.Some? {
        var j :| 0 <= j < n && prefix[j].outcome.report == Failure(before.error.value);
        assert visits[j] == prefix[j];
      }
    }
  }

  /** Over visits of distinct targets that raised nothing, every visit's outcome is in the final state. */
  lemma {:induction false} VisitOutcomes(visits: seq<Visit>, cache: VersionCache, dirty: bool)
    requires NoDuplicates(TargetsOf(visits))
    ensures var st := AbsorbAll(Begin(cache, dirty), visits);
      st.error.None? ==> forall j :: 0 <= j < |visits| ==> OutcomeHeld(st, cache, visits[j])
    decreases |visits|
  {
    if |visits| > 0 {
      var n := |visits| - 1;
      var v, prefix := visits[n], visits[..n];
      var ts := TargetsOf(visits);
      assert TargetsOf(prefix) == ts[..n];
      NoDuplicatesPrefix(ts, n);
      NoDuplicatesFresh(ts, n);
      VisitOutcomes(prefix, cache, dirty);
      VisitKeepsOthers(Begin(cache, dirty), prefix, v.target);
      var before := AbsorbAll(Begin(cache, dirty), prefix);
      var st := AbsorbAll(Begin(cache, dirty), visits);
      if st.error.None? {
        assert before.error.None?;
        VisitAggregates(prefix, cache, dirty);
        AbsorbHoldsOwn(before, cache, v);
        forall j | 0 <= j < n ensures OutcomeHeld(st, cache, visits[j]) {
          assert visits[j] == prefix[j];
          assert visits[j].target != v.target by {
            assert ts[j] == visits[j].target;
          }
          AbsorbHoldsOther(before, cache, v, visits[j]);
        }
      }
    }
  }

  /** A visit that raises nothing holds its own outcome when its target was fresh. */
  lemma AbsorbHoldsOwn(before: VersionsState, cache: VersionCache, v: Visit)
    requires before.error.None? && Absorb(before, v).error.None?
    requires v.target !in before.information
    requires (v.target in before.cache <==> v.target in cache) && (v.target in before.cache ==> before.cache[v.target] == cache[v.target])
    ensures OutcomeHeld(Absorb(before, v), cache, v)
  {
    AbsorbStep(before, v);
  }

  /** A visit that raises nothing keeps the outcome of an earlier visit of another target. */
  lemma AbsorbHoldsOther(before: VersionsState, cache: VersionCache, v: Visit, w: Visit)
    requires before.error.None? && Absorb(before, v).error.None?
    requires OutcomeHeld(before, cache, w) && w.target != v.target
    ensures OutcomeHeld(Absorb(before, v), cache, w)
  {
    AbsorbStep(before, v);
  }

  /**
   * One target's outcome against a cache is its lookup with the populated
   * check: the stored entry is the lookup's new entry, an entry that was
   * not replaced is the one the cache already had, and the report is made
   * from the lookup's resolution.
   */
  lemma StepMeaning(q: Query, cache: VersionCache, target: string, check: Check)
    requires "type" in check
    ensures var o := TargetStep(q, cache, target, check);
      var l := TargetLookup(q, cache, target, check);
      && (o.stored.Some? <==> l.stored)
      && (o.stored.Some? ==> o.stored.value == l.cache[target])
      && (o.stored.None? ==> target in cache && cache[target] == l.cache[target])
      && o.report == TargetReport(l.resolution, target, check, q.host)
  {
  }

  /** What is raised names the target that raised it. */
  lemma StepErrorTarget(q: Query, cache: VersionCache, target: string, check: Check)
    ensures var o := TargetStep(q, cache, target, check);
      && (o.report.Failure? ==> o.report.error.target == target)
      && ("type" !in check <==> o.report == Failure(MissingCheckType(target)))
  {
    if "type" in check {
      var l := TargetLookup(q, cache, target, check);
      TargetReportMeaning(l.resolution, target, check, q.host);
    }
  }

  /**
   * `get_current_versions` over distinct configured targets, when nothing
   * was raised: each visited target was resolved with its populated check
   * against the cache as it was, its cache entry is that resolution's, it is
   * reported exactly when it has version information, its entry reflects
   * the resolution, and a newly stored entry leaves the cache dirty.
   */
  lemma VersionsMeaning(visits: seq<Visit>, q: Query, checks: map<string, Check>, cache: VersionCache, dirty: bool)
    requires ValidVisits(visits, q, checks, cache) && NoDuplicates(TargetsOf(visits))
    ensures var st := AbsorbAll(Begin(cache, dirty), visits);
      st.error.None? ==> forall t :: t in TargetsOf(visits) ==>
        && t in checks && "type" in checks[t]
        && var l := TargetLookup(q, cache, t, checks[t]);
        && t in st.cache && st.cache[t] == l.cache[t]
        && (t in st.information <==> l.resolution.information.Some?)
        && (t in st.information ==> Reports(st.information[t], l.resolution, t, checks[t], q.host))
        && (l.stored ==> st.dirty)
  {
    var st := AbsorbAll(Begin(cache, dirty), visits);
    VisitOutcomes(visits, cache, dirty);
    VisitAggregates(visits, cache, dirty);
    if st.error.None? {
      forall t | t in TargetsOf(visits)
        ensures t in checks && "type" in checks[t]
        ensures var l := TargetLookup(q, cache, t, checks[t]);
          && t in st.cache && st.cache[t] == l.cache[t]
          && (t in st.information <==> l.resolution.information.Some?)
          && (t in st.information ==> Reports(st.information[t], l.resolution, t, checks[t], q.host))
          && (l.stored ==> st.dirty)
      {
        var j :| 0 <= j < |visits| && TargetsOf(visits)[j] == t;
        assert OutcomeHeld(st, cache, visits[j]);
        HeldMeaning(q, cache, st, visits[j], checks[t]);
      }
    }
  }

  /** A held outcome of a visit against the original cache, restated through the lookup. */
  lemma HeldMeaning(q: Query, cache: VersionCache, st: VersionsState, v: Visit, check: Check)
    requires OutcomeHeld(st, cache, v) && v.outcome == TargetStep(q, cache, v.target, check)
    ensures "type" in check
    ensures var l := TargetLookup(q, cache, v.target, check);
      && v.target in st.cache && st.cache[v.target] == l.cache[v.target]
      && (v.target in st.information <==> l.resolution.information.Some?)
      && (v.target in st.information ==> Reports(st.information[v.target], l.resolution, v.target, check, q.host))
      && (l.stored ==> st.dirty)
  {
    StepErrorTarget(q, cache, v.target, check);
    StepMeaning(q, cache, v.target, check);
    var l := TargetLookup(q, cache, v.target, check);
    TargetReportMeaning(l.resolution, v.target, check, q.host);
  }

  /** What `get_current_versions` raises comes from a visited target whose check has no `type` or whose entry does not format. */
  lemma VersionsErrorMeaning(visits: seq<Visit>, q: Query, checks: map<string, Check>, cache: VersionCache, dirty: bool)
    requires ValidVisits(visits, q, checks, cache) && NoDuplicates(TargetsOf(visits))
    ensures var st := AbsorbAll(Begin(cache, dirty), visits);
      st.error.Some? ==>
        && var t := st.error.value.target;
        && t in TargetsOf(visits) && t in checks
        && ("type" !in checks[t] ==> st.error.value == MissingCheckType(t))
        && ("type" in checks[t] ==> TargetReport(TargetLookup(q, cache, t, checks[t]).resolution, t, checks[t], q.host) == Failure(st.error.value))
  {
    var st := AbsorbAll(Begin(cache, dirty), visits);
    VisitErrorSource(visits, cache, dirty);
    if st.error.Some? {
      var j :| 0 <= j < |visits| && visits[j].outcome.report == Failure(st.error.value);
      var t := visits[j].target;
      StepErrorTarget(q, cache, t, checks[t]);
      assert TargetsOf(visits)[j] == t;
      if "type" in checks[t] {
        StepMeaning(q, cache, t, checks[t]);
      }
    }
  }
}
