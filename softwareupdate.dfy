/**
 * The Software Update plugin object: its version cache with the dirty flag
 * and the persisted copy, the configured checks with their refresh flag,
 * the in-progress flag of an update run, and the messages and settings
 * operations it issues.
 */
module SoftwareUpdate {
  import opened Wrappers
  import opened Lists
  import opened Ordering
  import opened Checks
  import opened Resolver
  import opened Restart
  import opened Run
  import opened Versions

  /** What `versioncache.yaml` holds when the plugin starts. */
  datatype CacheFile = Missing | Unreadable | Found(data: VersionCache)

  /**
   * `_load_version_cache` uses a cache only when it holds an entry for the
   * host whose local version is the running version.
   */
  predicate CacheUsable(data: VersionCache, hostVersion: string) {
    && HostTarget in data
    && data[HostTarget].information.Some?
    && "local" in data[HostTarget].information.value
    && "value" in data[HostTarget].information.value["local"]
    && data[HostTarget].information.value["local"]["value"] == Text(hostVersion)
  }

  /** The inner loop of `_get_configured_checks`: one hook's checks merged key by key. */
  method MergeHook(configured: map<string, Check>, contributed: map<string, Check>) returns (merged: map<string, Check>)
    ensures forall k :: k in merged <==> k in configured || k in contributed
    ensures forall k :: k in contributed ==> merged[k] == MergedCheck(configured, contributed, k)
    ensures forall k :: k in configured && k !in contributed ==> merged[k] == configured[k]
  {
    merged := configured;
    var remaining := contributed.Keys;
    ghost var done: set<string> := {};
    while remaining != {}
      invariant remaining <= contributed.Keys && done == contributed.Keys - remaining
      invariant forall k :: k in merged <==> k in configured || k in done
      invariant forall k :: k in done ==> merged[k] == MergedCheck(configured, contributed, k)
      invariant forall k :: k in configured && k !in done ==> merged[k] == configured[k]
      decreases |remaining|
    {
      var key :| key in remaining;
      assert key !in done && (key in merged <==> key in configured);
      var data := contributed[key];
      if key in merged {
        data := data + merged[key];
      }
      assert data == MergedCheck(configured, contributed, key);
      merged := merged[key := data];
      remaining := remaining - {key};
      done := done + {key};
    }
  }

  /** The check `dict_merge(data, configured[key])` yields for a contributed key. */
  function MergedCheck(configured: map<string, Check>, contributed: map<string, Check>, key: string): Check
    requires key in contributed
  {
    if key in configured then contributed[key] + configured[key] else contributed[key]
  }

  lemma MergeHookChecksPointwise(configured: map<string, Check>, contributed: map<string, Check>, merged: map<string, Check>)
    requires forall k :: k in merged <==> k in configured || k in contributed
    requires forall k :: k in contributed ==> merged[k] == MergedCheck(configured, contributed, k)
    requires forall k :: k in configured && k !in contributed ==> merged[k] == configured[k]
    ensures merged == MergeHookChecks(configured, contributed)
  {
    var r := MergeHookChecks(configured, contributed);
    assert merged.Keys == r.Keys;
    assert forall k :: k in merged ==> merged[k] == r[k];
  }

  /** The names `perform_updates` returns: each ordered target's `displayName`, or the target itself. */
  function DisplayNames(checks: map<string, Check>, order: seq<string>): (names: map<string, Value>)
    ensures forall t :: t in names <==> t in checks && t in order
    ensures forall t :: t in names && "displayName" in checks[t] ==> names[t] == checks[t]["displayName"]
    ensures forall t :: t in names && "displayName" !in checks[t] ==> names[t] == Text(t)
  {
    map t | t in checks && t in order :: Get(checks[t], "displayName", Text(t))
  }

  /** Checks that only gained `pip_command` show the same display names. */
  lemma DisplayNamesIgnorePipCommand(before: map<string, Check>, after: map<string, Check>, order: seq<string>)
    requires OnlyAddsEach(after, before, "pip_command")
    ensures DisplayNames(after, order) == DisplayNames(before, order)
  {
    forall t | t in before && t in order ensures DisplayNames(after, order)[t] == DisplayNames(before, order)[t] {
      OnlyAddsKeeps(after[t], before[t], "pip_command", "displayName");
    }
  }

  /**
   * The guards of the `/update` route: no update while a print job is
   * running or paused (409), and only a JSON request body is accepted (400).
   */
  function UpdateRequestRejection(printingOrPaused: bool, contentType: string): (r: Option<nat>)
    ensures r == Some(409) <==> printingOrPaused
    ensures r == Some(400) <==> !printingOrPaused && !IsSubstring("application/json", contentType)
    ensures r.None? <==> !printingOrPaused && IsSubstring("application/json", contentType)
  {
    if printingOrPaused then Some(409)
    else if !IsSubstring("application/json", contentType) then Some(400)
    else None
  }

  /**
   * A run over the update order of `perform_updates`: the order holds
   * exactly the eligible targets, so every attempt is of an eligible
   * target, and a finished run attempted every eligible target that is
   * enabled.
   */
  lemma OrderedRun(requested: Option<seq<string>>, checks: map<string, Check>, finished: bool,
                   attempts: seq<Attempt>, reached: nat, q: RunQuery, cache0: VersionCache)
    requires var order := UpdateOrder(requested, checks.Keys);
      && (forall j :: 0 <= j < |attempts| ==> attempts[j].target in order)
      && RunCoverage(attempts, reached, finished, order, checks, q, cache0)
    ensures forall j :: 0 <= j < |attempts| ==> attempts[j].target in Eligible(requested, checks.Keys)
    ensures finished ==> forall t :: t in AttemptedTargets(attempts) <==> t in Eligible(requested, checks.Keys) && Wanted(checks, t)
  {
    WantedTargetsMembers(UpdateOrder(requested, checks.Keys), checks);
  }

  /** The display names of an update order are those of its eligible targets. */
  lemma NamesOfOrder(requested: Option<seq<string>>, checks: map<string, Check>)
    ensures DisplayNames(checks, UpdateOrder(requested, checks.Keys)).Keys == Eligible(requested, checks.Keys)
  {
    var order := UpdateOrder(requested, checks.Keys);
    assert forall t :: t in DisplayNames(checks, order) <==> t in Eligible(requested, checks.Keys);
  }

  class Plugin {
    var versionCache: VersionCache
    var cacheTtl: real
    var cacheDirty: bool
    /** The cache as last written to `versioncache.yaml` by this plugin. */
    var persistedCache: Option<VersionCache>
    var updateInProgress: bool
    var configuredChecks: Option<map<string, Check>>
    var refreshConfiguredChecks: bool
    var messages: seq<Message>
    var settingsLog: seq<SettingsOp>

    /** `__init__`: nothing cached, no checks loaded, no run in progress. */
    constructor()
      ensures versionCache == map[] && cacheTtl == 0.0 && !cacheDirty && persistedCache == None
      ensures !updateInProgress && configuredChecks == None && !refreshConfiguredChecks
      ensures messages == [] && settingsLog == []
    {
      versionCache := map[];
      cacheTtl := 0.0;
      cacheDirty := false;
      persistedCache := None;
      updateInProgress := false;
      configuredChecks := None;
      refreshConfiguredChecks := false;
      messages := [];
      settingsLog := [];
    }

    /** `initialize`: the time to live is configured in minutes; then the cache file is loaded. */
    method Initialize(cacheTtlMinutes: int, file: CacheFile, hostVersion: string)
      modifies this`cacheTtl, this`versionCache, this`cacheDirty
      ensures cacheTtl == (cacheTtlMinutes * 60) as real
      ensures file.Found? && CacheUsable(file.data, hostVersion) ==> versionCache == file.data && !cacheDirty
      ensures !(file.Found? && CacheUsable(file.data, hostVersion)) ==>
        versionCache == old(versionCache) && cacheDirty == old(cacheDirty)
    {
      cacheTtl := (cacheTtlMinutes * 60) as real;
      LoadVersionCache(file, hostVersion);
    }

    /** `_load_version_cache`: a usable cache file replaces the cache; anything else leaves it as it is. */
    method LoadVersionCache(file: CacheFile, hostVersion: string)
      modifies this`versionCache, this`cacheDirty
      ensures file.Found? && CacheUsable(file.data, hostVersion) ==> versionCache == file.data && !cacheDirty
      ensures !(file.Found? && CacheUsable(file.data, hostVersion)) ==>
        versionCache == old(versionCache) && cacheDirty == old(cacheDirty)
      ensures versionCache == old(versionCache) || CacheUsable(versionCache, hostVersion)
    {
      if file.Found? && CacheUsable(file.data, hostVersion) {
        versionCache := file.data;
        cacheDirty := false;
      }
    }

    /** `_save_version_cache`: the cache is written out and no longer dirty. */
    method SaveVersionCache()
      modifies this`persistedCache, this`cacheDirty
      ensures persistedCache == Some(versionCache) && !cacheDirty
    {
      persistedCache := Some(versionCache);
      cacheDirty := false;
    }

    /** The lifecycle callback for enabled and disabled plugins: the checks are re-read on next use. */
    method RefreshChecks()
      modifies this`refreshConfiguredChecks, this`messages
      ensures refreshConfiguredChecks && messages == old(messages) + [VersionsChanged]
    {
      refreshConfiguredChecks := true;
      messages := messages + [VersionsChanged];
    }

    /**
     * `_get_configured_checks`: when asked to refresh or never loaded, the
     * stored checks are re-read and every hook's checks merged into them in
     * order; otherwise the loaded checks are returned as they are.
     */
    method GetConfiguredChecks(stored: map<string, Check>, hooks: seq<HookReply>) returns (checks: map<string, Check>)
      modifies this`configuredChecks, this`refreshConfiguredChecks
      ensures configuredChecks == Some(checks)
      ensures old(refreshConfiguredChecks) || old(configuredChecks).None? ==>
        checks == MergeAllHooks(stored, hooks) && !refreshConfiguredChecks
      ensures !(old(refreshConfiguredChecks) || old(configuredChecks).None?) ==>
        configuredChecks == old(configuredChecks) && refreshConfiguredChecks == old(refreshConfiguredChecks)
    {
      if refreshConfiguredChecks || configuredChecks.None? {
        var merged := stored;
        var i := 0;
        while i < |hooks|
          invariant 0 <= i <= |hooks|
          invariant merged == MergeAllHooks(stored, hooks[..i])
        {
          assert hooks[..i + 1][..i] == hooks[..i];
          match hooks[i] {
            case HookRaised =>
            case Contributed(contributed) =>
              ghost var before := merged;
              merged := MergeHook(merged, contributed);
              MergeHookChecksPointwise(before, contributed, merged);
          }
          i := i + 1;
        }
        assert hooks[..|hooks|] == hooks;
        refreshConfiguredChecks := false;
        configuredChecks := Some(merged);
      }
      checks := configuredChecks.value;
    }

    /**
     * `_get_current_version`: answers from a fresh cache entry unless
     * forced, otherwise resolves the target and stores the new entry,
     * which marks the cache dirty.
     */
    method GetCurrentVersion(target: string, check: Check, force: bool, now: real, env: Environment, globalPip: Value)
      returns (res: Resolution)
      modifies this`versionCache, this`cacheDirty
      ensures var l := LookupVersion(old(versionCache), cacheTtl, now, force, env, target, check, globalPip);
        res == l.resolution && versionCache == l.cache && cacheDirty == (old(cacheDirty) || l.stored)
    {
      if target in versionCache && !force {
        var entry := versionCache[target];
        if CacheValid(entry.timestamp, cacheTtl, now) {
          return Resolution(entry.information, entry.updateAvailable, entry.updatePossible, check);
        }
      }
      res := Resolve(env, target, check, globalPip);
      versionCache := versionCache[target := CacheEntry(now, res.information, res.updateAvailable, res.updatePossible)];
      cacheDirty := true;
    }

    /**
     * One target of `get_current_versions`: its check is populated (which
     * raises without a `type`), resolved through the cache, and turned into
     * a report entry.
     */
    method ReportTarget(target: string, check: Check, force: bool, now: real, env: Environment, host: Host, globalPip: Value)
      returns (r: Result<Option<TargetInfo>, ReportError>)
      modifies this`versionCache, this`cacheDirty
      ensures var o := TargetStep(Query(cacheTtl, now, force, env, host, globalPip), old(versionCache), target, check);
        && versionCache == StoreOutcome(old(versionCache), Visit(target, o))
        && cacheDirty == (old(cacheDirty) || o.stored.Some?)
        && r == o.report
    {
      match PopulatedCheck(target, check, host)
      case Failure(_) =>
        r := Failure(MissingCheckType(target));
      case Success(populated) =>
        ghost var l := LookupVersion(versionCache, cacheTtl, now, force, env, target, populated, globalPip);
        var res := GetCurrentVersion(target, populated, force, now, env, globalPip);
        if l.stored {
          assert versionCache == old(versionCache)[target := l.cache[target]];
        }
        r := TargetReport(res, target, check, host);
    }

    /**
     * One pass of `get_current_versions`' loop for a target that is asked
     * for: the target is reported and the visit taken into the loop's state.
     */
    method VisitTarget(target: string, checks: map<string, Check>, force: bool, now: real, env: Environment, host: Host,
                       globalPip: Value, information: map<string, TargetInfo>, updateAvailable: bool, updatePossible: bool,
                       ghost cache: VersionCache, ghost start: VersionsState, ghost visits: seq<Visit>)
      returns (information': map<string, TargetInfo>, updateAvailable': bool, updatePossible': bool,
               raised: Option<ReportError>, ghost visits': seq<Visit>)
      requires target in checks && target !in TargetsOf(visits) && start == Begin(cache, start.dirty)
      requires ValidVisits(visits, Query(cacheTtl, now, force, env, host, globalPip), checks, cache)
      requires NoDuplicates(TargetsOf(visits))
      requires var st := AbsorbAll(start, visits);
        && st.error.None?
        && versionCache == st.cache && cacheDirty == st.dirty
        && information == st.information && updateAvailable == st.updateAvailable && updatePossible == st.updatePossible
      modifies this`versionCache, this`cacheDirty
      ensures ValidVisits(visits', Query(cacheTtl, now, force, env, host, globalPip), checks, cache)
      ensures NoDuplicates(TargetsOf(visits')) && TargetsOf(visits') == TargetsOf(visits) + [target]
      ensures var st := AbsorbAll(start, visits');
        && versionCache == st.cache && cacheDirty == st.dirty
        && raised == st.error
        && (raised.None? ==>
              information' == st.information && updateAvailable' == st.updateAvailable && updatePossible' == st.updatePossible)
    {
      ghost var q := Query(cacheTtl, now, force, env, host, globalPip);
      ghost var st := AbsorbAll(start, visits);
      VisitKeepsOthers(start, visits, target);
      ghost var before := versionCache;
      var entry := ReportTarget(target, checks[target], force, now, env, host, globalPip);
      VisitStep(visits, q, checks, cache, start, before, target);
      ghost var v := Visit(target, TargetStep(q, before, target, checks[target]));
      visits' := visits + [v];
      AbsorbStep(st, v);
      information', updateAvailable', updatePossible', raised := information, updateAvailable, updatePossible, None;
      match entry
      case Failure(e) =>
        raised := Some(e);
      case Success(None) =>
      case Success(Some(e)) =>
        information' := information[target := e];
        updateAvailable' := updateAvailable || e.updateAvailable;
        updatePossible' := updatePossible || (e.updatePossible && e.updateAvailable);
    }

    /**
     * The loop of `get_current_versions` over the configured checks and
     * the final write of a dirty cache.
     */
    method VisitTargets(checks: map<string, Check>, eligible: set<string>, force: bool, now: real, env: Environment, host: Host,
                        globalPip: Value)
      returns (r: Result<VersionReport, ReportError>, ghost visits: seq<Visit>)
      modifies this`versionCache, this`cacheDirty, this`persistedCache
      ensures ValidVisits(visits, Query(cacheTtl, now, force, env, host, globalPip), checks, old(versionCache))
      ensures NoDuplicates(TargetsOf(visits))
      ensures forall t :: t in TargetsOf(visits) ==> t in eligible
      ensures var st := AbsorbAll(Begin(old(versionCache), old(cacheDirty)), visits);
        && versionCache == st.cache
        && (st.error.Some? ==> r == Failure(st.error.value) && cacheDirty == st.dirty && persistedCache == old(persistedCache))
        && (st.error.None? ==>
              && (forall t :: t in checks && t in eligible ==> t in TargetsOf(visits))
              && r == Success(VersionReport(st.information, st.updateAvailable, st.updatePossible))
              && !cacheDirty
              && persistedCache == (if st.dirty then Some(st.cache) else old(persistedCache)))
    {
      ghost var start := Begin(versionCache, cacheDirty);
      var information: map<string, TargetInfo> := map[];
      var updateAvailable, updatePossible := false, false;
      var remaining := checks.Keys;
      visits := [];
      while remaining != {}
        invariant forall t :: t in remaining ==> t in checks
        invariant forall t :: t in checks && t in eligible ==> t in remaining || t in TargetsOf(visits)
        invariant forall t :: t in TargetsOf(visits) ==> t in eligible && t !in remaining
        invariant ValidVisits(visits, Query(cacheTtl, now, force, env, host, globalPip), checks, old(versionCache))
        invariant NoDuplicates(TargetsOf(visits))
        invariant var st := AbsorbAll(start, visits);
          && st.error.None?
          && versionCache == st.cache && cacheDirty == st.dirty
          && information == st.information && updateAvailable == st.updateAvailable && updatePossible == st.updatePossible
        invariant persistedCache == old(persistedCache)
        decreases |remaining|
      {
        var target :| target in remaining;
        remaining := remaining - {target};
        if target in eligible {
          var raised;
          information, updateAvailable, updatePossible, raised, visits :=
            VisitTarget(target, checks, force, now, env, host, globalPip, information, updateAvailable, updatePossible,
                        old(versionCache), start, visits);
          if raised.Some? {
            r := Failure(raised.value);
            return;
          }
        }
      }
      if cacheDirty {
        SaveVersionCache();
      }
      r := Success(VersionReport(information, updateAvailable, updatePossible));
    }

    /**
     * `get_current_versions`: every configured target asked for is visited
     * once, in the order the configured checks are iterated, and the report
     * and flags are the fold of the visits; a cache left dirty is written
     * out before returning. What a target raises ends the call with the
     * cache as far as it got.
     */
    method GetCurrentVersions(requested: Option<seq<string>>, force: bool, now: real, env: Environment, host: Host,
                              globalPip: Value, stored: map<string, Check>, hooks: seq<HookReply>)
      returns (checks: map<string, Check>, r: Result<VersionReport, ReportError>, ghost visits: seq<Visit>)
      modifies this`configuredChecks, this`refreshConfiguredChecks, this`versionCache, this`cacheDirty, this`persistedCache
      ensures configuredChecks == Some(checks)
      ensures old(refreshConfiguredChecks) || old(configuredChecks).None? ==> checks == MergeAllHooks(stored, hooks)
      ensures !(old(refreshConfiguredChecks) || old(configuredChecks).None?) ==> checks == old(configuredChecks).value
      ensures ValidVisits(visits, Query(cacheTtl, now, force, env, host, globalPip), checks, old(versionCache))
      ensures NoDuplicates(TargetsOf(visits))
      ensures forall t :: t in TargetsOf(visits) ==> t in Eligible(requested, checks.Keys)
      ensures var st := AbsorbAll(Begin(old(versionCache), old(cacheDirty)), visits);
        && versionCache == st.cache
        && (st.error.Some? ==> r == Failure(st.error.value) && cacheDirty == st.dirty && persistedCache == old(persistedCache))
        && (st.error.None? ==>
              && (forall t :: t in Eligible(requested, checks.Keys) ==> t in TargetsOf(visits))
              && r == Success(VersionReport(st.information, st.updateAvailable, st.updatePossible))
              && !cacheDirty
              && persistedCache == (if st.dirty then Some(st.cache) else old(persistedCache)))
    {
      checks := GetConfiguredChecks(stored, hooks);
      r, visits := VisitTargets(checks, Eligible(requested, checks.Keys), force, now, env, host, globalPip);
    }

    /**
     * `_perform_update`: resolves the target (honouring the cache) and
     * performs the step; a successful update drops the target's cache entry
     * and marks the cache dirty. No other cache entry changes.
     */
    method PerformUpdate(target: string, check: Check, force: bool, now: real, env: Environment, host: Host, globalPip: Value)
      returns (s: Step)
      modifies this`versionCache, this`cacheDirty, this`messages, this`settingsLog
      ensures var l := LookupVersion(old(versionCache), cacheTtl, now, false, env, target, check, globalPip);
        && s == PerformStep(l.resolution, target, force, host, globalPip, env)
        && versionCache == (if StepSucceeded(s) then l.cache - {target} else l.cache)
        && cacheDirty == (old(cacheDirty) || l.stored || StepSucceeded(s))
      ensures s.Step? ==> messages == old(messages) + s.messages && settingsLog == old(settingsLog) + s.settings
      ensures s.Raised? ==> messages == old(messages) && settingsLog == old(settingsLog)
      ensures forall k :: k != target ==>
        (k in versionCache <==> k in old(versionCache)) && (k in versionCache ==> versionCache[k] == old(versionCache)[k])
    {
      var res := GetCurrentVersion(target, check, false, now, env, globalPip);
      s := PerformStep(res, target, force, host, globalPip, env);
      ApplyStep(target, s);
    }

    /**
     * The state changes of `_perform_update` once the step is known: its
     * messages and settings operations are logged, and a successful update
     * drops the target's cache entry and marks the cache dirty.
     */
    method ApplyStep(target: string, s: Step)
      modifies this`versionCache, this`cacheDirty, this`messages, this`settingsLog
      ensures versionCache == (if StepSucceeded(s) then old(versionCache) - {target} else old(versionCache))
      ensures cacheDirty == (old(cacheDirty) || StepSucceeded(s))
      ensures s.Step? ==> messages == old(messages) + s.messages && settingsLog == old(settingsLog) + s.settings
      ensures s.Raised? ==> messages == old(messages) && settingsLog == old(settingsLog)
    {
      if s.Step? {
        messages := messages + s.messages;
        settingsLog := settingsLog + s.settings;
        if StepSucceeded(s) {
          versionCache := versionCache - {target};
          cacheDirty := true;
        }
      }
    }

    /**
     * One iteration of `_update_worker`'s loop: a target that is not
     * configured, or is disabled, is skipped; otherwise its update is
     * performed and recorded in the run state, unless it raised.
     */
    method UpdateTarget(st: RunState, target: string, force: bool, now: real, env: Environment, host: Host,
                        globalPip: Value, ghost checks: map<string, Check>)
      returns (next: RunState, raised: bool, ghost attempt: Option<Attempt>)
      requires st.checks.Keys == checks.Keys
      requires forall t :: t in checks ==> OnlyAdds(st.checks[t], checks[t], "pip_command")
      modifies this`versionCache, this`cacheDirty, this`messages, this`settingsLog
      ensures attempt.Some? ==> !raised && attempt.value.target == target && ValidAttempt(attempt.value, checks)
      ensures attempt.Some? ==>
        && next == Record(st, attempt.value)
        && messages == old(messages) + attempt.value.step.messages
        && settingsLog == old(settingsLog) + attempt.value.step.settings
      ensures attempt.None? ==> next == st && messages == old(messages) && settingsLog == old(settingsLog)
      ensures attempt.None? && !raised ==> !(target in checks && Enabled(checks[target]))
      ensures raised ==> target in checks && Enabled(checks[target])
      ensures forall k :: k != target ==>
        (k in versionCache <==> k in old(versionCache)) && (k in versionCache ==> versionCache[k] == old(versionCache)[k])
      ensures Wanted(st.checks, target) ==>
        StepMatches(raised, attempt, UpdateStepOf(RunQuery(cacheTtl, now, force, env, host, globalPip), old(versionCache), target, st.checks[target]))
      ensures attempt.None? && !raised ==> versionCache == old(versionCache) && cacheDirty == old(cacheDirty)
      ensures attempt.Some? && StepSucceeded(attempt.value.step) ==> target !in versionCache && cacheDirty
      ensures old(cacheDirty) ==> cacheDirty
    {
      next, raised, attempt := st, false, None;
      if target in checks {
        OnlyAddsKeeps(st.checks[target], checks[target], "pip_command", "enabled");
      }
      if target in st.checks && Enabled(st.checks[target]) {
        var check := st.checks[target];
        ghost var l := LookupVersion(versionCache, cacheTtl, now, false, env, target, check, globalPip);
        var step := PerformUpdate(target, check, force, now, env, host, globalPip);
        if step.Raised? {
          raised := true;
        } else {
          StepIsValidAttempt(checks, target, check, l.resolution, force, host, globalPip, env);
          attempt := Some(Attempt(target, step));
          next := Record(st, Attempt(target, step));
        }
      }
    }

    /**
     * `UpdateTarget` on the target at `i` of a list, in the middle of a run
     * that began with the version cache `cache0`: for a list without
     * duplicates, the step taken is the one the cache at the start of the
     * run leads to.
     */
    method UpdateTargetAt(checks: map<string, Check>, targets: seq<string>, i: nat, force: bool, now: real,
                          env: Environment, host: Host, globalPip: Value, st: RunState, ghost attempts: seq<Attempt>,
                          ghost positions: seq<nat>, ghost touched: set<string>, ghost cache0: VersionCache)
      returns (next: RunState, raised: bool, ghost attempt: Option<Attempt>)
      requires i < |targets|
      requires ValidAttempts(attempts, checks)
      requires st == RecordAll(Start(checks), attempts)
      requires Placed(attempts, positions, targets, i)
      requires forall k :: k in touched ==> exists p :: 0 <= p < i && targets[p] == k
      requires forall k :: k !in touched ==>
        (k in versionCache <==> k in cache0) && (k in versionCache ==> versionCache[k] == cache0[k])
      requires NoDuplicates(targets) ==> PerformedAgainst(attempts, RunQuery(cacheTtl, now, force, env, host, globalPip), checks, cache0)
      requires NoDuplicates(targets) ==> SucceededAbsent(attempts, versionCache)
      modifies this`versionCache, this`cacheDirty, this`messages, this`settingsLog
      ensures attempt.Some? ==> !raised && attempt.value.target == targets[i] && ValidAttempt(attempt.value, checks)
      ensures attempt.Some? ==>
        && next == Record(st, attempt.value)
        && messages == old(messages) + attempt.value.step.messages
        && settingsLog == old(settingsLog) + attempt.value.step.settings
      ensures attempt.None? ==> next == st && messages == old(messages) && settingsLog == old(settingsLog)
      ensures attempt.None? && !raised ==> !Wanted(checks, targets[i])
      ensures raised ==> Wanted(checks, targets[i])
      ensures forall k :: k != targets[i] ==>
        (k in versionCache <==> k in old(versionCache)) && (k in versionCache ==> versionCache[k] == old(versionCache)[k])
      ensures attempt.None? && !raised ==> versionCache == old(versionCache) && cacheDirty == old(cacheDirty)
      ensures attempt.Some? && StepSucceeded(attempt.value.step) ==> cacheDirty
      ensures old(cacheDirty) ==> cacheDirty
      ensures raised && NoDuplicates(targets) ==>
        UpdateStepOf(RunQuery(cacheTtl, now, force, env, host, globalPip), cache0, targets[i], checks[targets[i]]).Raised?
      ensures attempt.Some? && NoDuplicates(targets) ==>
        PerformedAgainst(attempts + [attempt.value], RunQuery(cacheTtl, now, force, env, host, globalPip), checks, cache0)
      ensures attempt.Some? && NoDuplicates(targets) ==> SucceededAbsent(attempts + [attempt.value], versionCache)
      ensures attempt.None? && NoDuplicates(targets) ==> SucceededAbsent(attempts, versionCache)
    {
      ghost var q := RunQuery(cacheTtl, now, force, env, host, globalPip);
      RecordAllChecks(checks, attempts);
      ghost var cacheBefore := versionCache;
      next, raised, attempt := UpdateTarget(st, targets[i], force, now, env, host, globalPip, checks);
      assert q == RunQuery(cacheTtl, now, force, env, host, globalPip);
      if NoDuplicates(targets) {
        NextWithoutDuplicates(q, checks, attempts, positions, targets, i, touched, cacheBefore, versionCache, cache0,
                              raised, attempt);
      }
    }

    /**
     * One iteration of the loop of `_update_worker`, for the target at `i`,
     * with what the loop keeps about the run so far: the attempts made, the
     * positions they were made at, and the targets whose cache entries may
     * have changed since the run began with `cache0` and `dirty0`, the
     * messages `messages0` and the settings operations `settings0`.
     */
    method UpdateNext(checks: map<string, Check>, targets: seq<string>, i: nat, force: bool, now: real,
                      env: Environment, host: Host, globalPip: Value, st: RunState, ghost attempts: seq<Attempt>,
                      ghost positions: seq<nat>, ghost touched: set<string>, ghost messages0: seq<Message>,
                      ghost settings0: seq<SettingsOp>, ghost cache0: VersionCache, ghost dirty0: bool)
      returns (next: RunState, raised: bool, i': nat, ghost attempts': seq<Attempt>, ghost positions': seq<nat>,
               ghost touched': set<string>)
      requires i < |targets|
      requires ValidAttempts(attempts, checks) && AllSteps(attempts)
      requires st == RecordAll(Start(checks), attempts)
      requires Placed(attempts, positions, targets, i)
      requires AttemptedTargets(attempts) == WantedTargets(targets[..i], checks)
      requires messages == messages0 + StepMessages(attempts)
      requires settingsLog == settings0 + StepSettings(attempts)
      requires forall k :: k in touched ==> exists p :: 0 <= p < i && targets[p] == k
      requires forall k :: k !in touched ==>
        (k in versionCache <==> k in cache0) && (k in versionCache ==> versionCache[k] == cache0[k])
      requires NoDuplicates(targets) ==> PerformedAgainst(attempts, RunQuery(cacheTtl, now, force, env, host, globalPip), checks, cache0)
      requires NoDuplicates(targets) ==> SucceededAbsent(attempts, versionCache)
      requires AnySucceeded(attempts) ==> cacheDirty
      requires dirty0 ==> cacheDirty
      modifies this`versionCache, this`cacheDirty, this`messages, this`settingsLog
      ensures i' == if raised then i else i + 1
      ensures ValidAttempts(attempts', checks) && AllSteps(attempts')
      ensures next == RecordAll(Start(checks), attempts')
      ensures Placed(attempts', positions', targets, i')
      ensures AttemptedTargets(attempts') == WantedTargets(targets[..i'], checks)
      ensures raised ==> i' < |targets| && Wanted(checks, targets[i'])
      ensures raised && NoDuplicates(targets) ==>
        UpdateStepOf(RunQuery(cacheTtl, now, force, env, host, globalPip), cache0, targets[i'], checks[targets[i']]).Raised?
      ensures messages == messages0 + StepMessages(attempts')
      ensures settingsLog == settings0 + StepSettings(attempts')
      ensures forall k :: k in touched' ==> exists p :: 0 <= p < (if raised then i' + 1 else i') && targets[p] == k
      ensures forall k :: k !in touched' ==>
        (k in versionCache <==> k in cache0) && (k in versionCache ==> versionCache[k] == cache0[k])
      ensures NoDuplicates(targets) ==> PerformedAgainst(attempts', RunQuery(cacheTtl, now, force, env, host, globalPip), checks, cache0)
      ensures NoDuplicates(targets) ==> SucceededAbsent(attempts', versionCache)
      ensures AnySucceeded(attempts') ==> cacheDirty
      ensures dirty0 ==> cacheDirty
    {
      var target := targets[i];
      ghost var attempt: Option<Attempt>;
      next, raised, attempt := UpdateTargetAt(checks, targets, i, force, now, env, host, globalPip, st,
                                              attempts, positions, touched, cache0);
      touched' := touched + {target};
      attempts', positions' := attempts, positions;
      i' := if raised then i else i + 1;
      if raised {
      } else if attempt.Some? {
        AdvanceAppend(checks, attempts, positions, targets, i, attempt.value, messages0, settings0);
        attempts', positions' := attempts + [attempt.value], positions + [i];
      } else {
        AdvanceSkip(checks, attempts, positions, targets, i);
      }
    }

    /**
     * The loop of `_update_worker`: the targets in order, each skipped or
     * updated and recorded, until one raises.
     */
    method UpdateTargets(checks: map<string, Check>, targets: seq<string>, force: bool, now: real, env: Environment,
                         host: Host, globalPip: Value)
      returns (st: RunState, finished: bool, ghost attempts: seq<Attempt>, ghost reached: nat)
      modifies this`versionCache, this`cacheDirty, this`messages, this`settingsLog
      ensures ValidAttempts(attempts, checks) && AllSteps(attempts)
      ensures st == RecordAll(Start(checks), attempts)
      ensures RunCoverage(attempts, reached, finished, targets, checks,
                          RunQuery(cacheTtl, now, force, env, host, globalPip), old(versionCache))
      ensures forall j :: 0 <= j < |attempts| ==> attempts[j].target in targets
      ensures NoDuplicates(targets) ==> DistinctTargets(attempts)
      ensures messages == old(messages) + StepMessages(attempts)
      ensures settingsLog == old(settingsLog) + StepSettings(attempts)
      ensures forall k :: k !in targets ==>
        (k in versionCache <==> k in old(versionCache)) && (k in versionCache ==> versionCache[k] == old(versionCache)[k])
      ensures NoDuplicates(targets) ==> SucceededAbsent(attempts, versionCache)
      ensures AnySucceeded(attempts) ==> cacheDirty
      ensures old(cacheDirty) ==> cacheDirty
    {
      st := Start(checks);
      finished := true;
      attempts := [];
      ghost var positions: seq<nat> := [];
      ghost var touched: set<string> := {};
      var i := 0;
      while i < |targets| && finished
        invariant 0 <= i <= |targets|
        invariant !finished ==> i < |targets| && Wanted(checks, targets[i])
        invariant !finished && NoDuplicates(targets) ==>
          UpdateStepOf(RunQuery(cacheTtl, now, force, env, host, globalPip), old(versionCache), targets[i], checks[targets[i]]).Raised?
        invariant ValidAttempts(attempts, checks) && AllSteps(attempts)
        invariant st == RecordAll(Start(checks), attempts)
        invariant Placed(attempts, positions, targets, i)
        invariant AttemptedTargets(attempts) == WantedTargets(targets[..i], checks)
        invariant messages == old(messages) + StepMessages(attempts)
        invariant settingsLog == old(settingsLog) + StepSettings(attempts)
        invariant forall k :: k in touched ==> exists p :: 0 <= p < (if finished then i else i + 1) && targets[p] == k
        invariant forall k :: k !in touched ==>
          (k in versionCache <==> k in old(versionCache)) && (k in versionCache ==> versionCache[k] == old(versionCache)[k])
        invariant NoDuplicates(targets) ==> PerformedAgainst(attempts, RunQuery(cacheTtl, now, force, env, host, globalPip), checks, old(versionCache))
        invariant NoDuplicates(targets) ==> SucceededAbsent(attempts, versionCache)
        invariant AnySucceeded(attempts) ==> cacheDirty
        invariant old(cacheDirty) ==> cacheDirty
        decreases |targets| - i, if finished then 1 else 0
      {
        var raised;
        st, raised, i, attempts, positions, touched := UpdateNext(checks, targets, i, force, now, env, host, globalPip, st,
          attempts, positions, touched, old(messages), old(settingsLog), old(versionCache), old(cacheDirty));
        finished := !raised;
      }
      reached := i;
      PlacedDistinct(attempts, positions, targets, i);
      RunCoverageAtEnd(attempts, reached, finished, targets, checks,
                       RunQuery(cacheTtl, now, force, env, host, globalPip), old(versionCache));
      forall k | k !in targets
        ensures (k in versionCache <==> k in old(versionCache)) && (k in versionCache ==> versionCache[k] == old(versionCache)[k])
      {
        assert k !in touched;
      }
    }

    /**
     * `_update_worker`: updates the targets in order, skipping those not
     * configured or disabled. However it ends, the settings are saved and
     * the run is no longer in progress; a run that did not raise closes with
     * its messages, and only a run without error writes the version cache
     * out. The worker is handed the configured checks themselves, so the
     * `pip_command` settings `_get_updater` copies in stay configured.
     */
    method UpdateWorker(checks: map<string, Check>, targets: seq<string>, force: bool, now: real, env: Environment,
                        host: Host, globalPip: Value, commands: RestartCommands)
      returns (st: RunState, finished: bool, ghost attempts: seq<Attempt>, ghost reached: nat)
      requires configuredChecks == Some(checks)
      modifies this`configuredChecks, this`versionCache, this`cacheDirty, this`persistedCache, this`updateInProgress, this`messages, this`settingsLog
      ensures ValidAttempts(attempts, checks) && AllSteps(attempts)
      ensures st == RecordAll(Start(checks), attempts)
      ensures configuredChecks == Some(st.checks) && OnlyAddsEach(st.checks, checks, "pip_command")
      ensures forall j :: 0 <= j < |attempts| ==> attempts[j].target in targets
      ensures NoDuplicates(targets) ==> DistinctTargets(attempts)
      ensures !updateInProgress
      ensures settingsLog == old(settingsLog) + StepSettings(attempts) + [SettingsSaved]
      ensures finished ==>
        messages == old(messages) + StepMessages(attempts) + RunMessages(st.error, st.results, st.restartType, commands, env.restartSucceeds)
      ensures !finished ==> messages == old(messages) + StepMessages(attempts)
      ensures finished && !st.error ==> persistedCache == Some(versionCache) && !cacheDirty
      ensures !(finished && !st.error) ==> persistedCache == old(persistedCache)
      ensures forall k :: k !in targets ==>
        (k in versionCache <==> k in old(versionCache)) && (k in versionCache ==> versionCache[k] == old(versionCache)[k])
      ensures NoDuplicates(targets) ==> RunCacheOutcome(st, finished, attempts, versionCache, persistedCache, cacheDirty)
      ensures RunCoverage(attempts, reached, finished, targets, checks,
                          RunQuery(cacheTtl, now, force, env, host, globalPip), old(versionCache))
    {
      updateInProgress := true;
      st, finished, attempts, reached := UpdateTargets(checks, targets, force, now, env, host, globalPip);
      RecordAllChecks(checks, attempts);
      if NoDuplicates(targets) {
        SucceededResultsGone(checks, attempts, versionCache);
      }
      FinishRun(st, finished, commands, env.restartSucceeds);
    }

    /**
     * The end of `_update_worker`, after its loop: the `finally` block keeps
     * the checks the run left, saves the settings and ends the run; a run
     * that did not raise then writes the version cache out unless it failed,
     * and sends its closing messages.
     */
    method FinishRun(st: RunState, finished: bool, commands: RestartCommands, restartSucceeds: Value -> bool)
      modifies this`configuredChecks, this`persistedCache, this`cacheDirty, this`updateInProgress, this`messages, this`settingsLog
      ensures configuredChecks == Some(st.checks) && !updateInProgress
      ensures settingsLog == old(settingsLog) + [SettingsSaved]
      ensures finished ==> messages == old(messages) + RunMessages(st.error, st.results, st.restartType, commands, restartSucceeds)
      ensures !finished ==> messages == old(messages)
      ensures finished && !st.error ==> persistedCache == Some(versionCache) && !cacheDirty
      ensures !(finished && !st.error) ==> persistedCache == old(persistedCache) && cacheDirty == old(cacheDirty)
    {
      configuredChecks := Some(st.checks);
      settingsLog := settingsLog + [SettingsSaved];
      updateInProgress := false;
      if finished {
        if !st.error {
          SaveVersionCache();
        }
        messages := messages + RunMessages(st.error, st.results, st.restartType, commands, restartSucceeds);
      }
    }

    /**
     * `perform_updates`: the configured checks are read, the update order
     * computed, and the worker run on that order (sequentially here, where
     * the source starts a thread). The order and the display names of the
     * ordered targets are returned.
     */
    method PerformUpdates(requested: Option<seq<string>>, force: bool, now: real, env: Environment, host: Host,
                          globalPip: Value, stored: map<string, Check>, hooks: seq<HookReply>, commands: RestartCommands)
      returns (checks: map<string, Check>, order: seq<string>, names: map<string, Value>,
               st: RunState, finished: bool, ghost attempts: seq<Attempt>, ghost reached: nat)
      modifies this`configuredChecks, this`refreshConfiguredChecks, this`versionCache, this`cacheDirty,
               this`persistedCache, this`updateInProgress, this`messages, this`settingsLog
      ensures old(refreshConfiguredChecks) || old(configuredChecks).None? ==> checks == MergeAllHooks(stored, hooks)
      ensures !(old(refreshConfiguredChecks) || old(configuredChecks).None?) ==> checks == old(configuredChecks).value
      ensures configuredChecks == Some(st.checks)
      ensures OnlyAddsEach(st.checks, checks, "pip_command")
      ensures order == UpdateOrder(requested, checks.Keys)
      ensures names.Keys == Eligible(requested, checks.Keys) && names == DisplayNames(checks, order)
      ensures ValidAttempts(attempts, checks) && AllSteps(attempts) && DistinctTargets(attempts)
      ensures st == RecordAll(Start(checks), attempts)
      ensures forall j :: 0 <= j < |attempts| ==> attempts[j].target in Eligible(requested, checks.Keys)
      ensures !updateInProgress
      ensures settingsLog == old(settingsLog) + StepSettings(attempts) + [SettingsSaved]
      ensures finished ==>
        messages == old(messages) + StepMessages(attempts) + RunMessages(st.error, st.results, st.restartType, commands, env.restartSucceeds)
      ensures !finished ==> messages == old(messages) + StepMessages(attempts)
      ensures finished && !st.error ==> persistedCache == Some(versionCache) && !cacheDirty
      ensures !(finished && !st.error) ==> persistedCache == old(persistedCache)
      ensures RunCacheOutcome(st, finished, attempts, versionCache, persistedCache, cacheDirty)
      ensures RunCoverage(attempts, reached, finished, order, checks,
                          RunQuery(cacheTtl, now, force, env, host, globalPip), old(versionCache))
      ensures finished ==> forall t :: t in AttemptedTargets(attempts) <==> t in Eligible(requested, checks.Keys) && Wanted(checks, t)
    {
      checks := GetConfiguredChecks(stored, hooks);
      assert messages == old(messages) && settingsLog == old(settingsLog) && versionCache == old(versionCache)
          && persistedCache == old(persistedCache);
      order, names, st, finished, attempts, reached := UpdateInOrder(checks, requested, force, now, env, host, globalPip, commands);
    }

    /**
     * `perform_updates` once the configured checks are read: the update
     * order is computed, with the display names of its targets, and the
     * worker runs on that order.
     */
    method UpdateInOrder(checks: map<string, Check>, requested: Option<seq<string>>, force: bool, now: real,
                         env: Environment, host: Host, globalPip: Value, commands: RestartCommands)
      returns (order: seq<string>, names: map<string, Value>,
               st: RunState, finished: bool, ghost attempts: seq<Attempt>, ghost reached: nat)
      requires configuredChecks == Some(checks)
      modifies this`configuredChecks, this`versionCache, this`cacheDirty,
               this`persistedCache, this`updateInProgress, this`messages, this`settingsLog
      ensures configuredChecks == Some(st.checks)
      ensures OnlyAddsEach(st.checks, checks, "pip_command")
      ensures order == UpdateOrder(requested, checks.Keys)
      ensures names.Keys == Eligible(requested, checks.Keys) && names == DisplayNames(checks, order)
      ensures ValidAttempts(attempts, checks) && AllSteps(attempts) && DistinctTargets(attempts)
      ensures st == RecordAll(Start(checks), attempts)
      ensures forall j :: 0 <= j < |attempts| ==> attempts[j].target in Eligible(requested, checks.Keys)
      ensures !updateInProgress
      ensures settingsLog == old(settingsLog) + StepSettings(attempts) + [SettingsSaved]
      ensures finished ==>
        messages == old(messages) + StepMessages(attempts) + RunMessages(st.error, st.results, st.restartType, commands, env.restartSucceeds)
      ensures !finished ==> messages == old(messages) + StepMessages(attempts)
      ensures finished && !st.error ==> persistedCache == Some(versionCache) && !cacheDirty
      ensures !(finished && !st.error) ==> persistedCache == old(persistedCache)
      ensures RunCacheOutcome(st, finished, attempts, versionCache, persistedCache, cacheDirty)
      ensures RunCoverage(attempts, reached, finished, order, checks,
                          RunQuery(cacheTtl, now, force, env, host, globalPip), old(versionCache))
      ensures finished ==> forall t :: t in AttemptedTargets(attempts) <==> t in Eligible(requested, checks.Keys) && Wanted(checks, t)
    {
      order := UpdateOrder(requested, checks.Keys);
      names := DisplayNames(checks, order);
      NamesOfOrder(requested, checks);
      st, finished, attempts, reached := UpdateWorker(checks, order, force, now, env, host, globalPip, commands);
      OrderedRun(requested, checks, finished, attempts, reached, RunQuery(cacheTtl, now, force, env, host, globalPip), old(versionCache));
    }

    /**
     * The `/update` route: a rejected request changes nothing; otherwise the
     * updates are performed on the requested targets.
     */
    method UpdateRequest(printingOrPaused: bool, contentType: string, requested: Option<seq<string>>, force: bool,
                         now: real, env: Environment, host: Host, globalPip: Value, stored: map<string, Check>,
                         hooks: seq<HookReply>, commands: RestartCommands)
      returns (r: Result<(seq<string>, map<string, Value>), nat>, ghost checks: map<string, Check>,
               ghost attempts: seq<Attempt>, ghost finished: bool, ghost reached: nat)
      modifies this`configuredChecks, this`refreshConfiguredChecks, this`versionCache, this`cacheDirty,
               this`persistedCache, this`updateInProgress, this`messages, this`settingsLog
      ensures printingOrPaused ==> r == Failure(409)
      ensures r.Failure? ==> UpdateRequestRejection(printingOrPaused, contentType) == Some(r.error)
      ensures r.Failure? ==>
        && versionCache == old(versionCache) && cacheDirty == old(cacheDirty) && persistedCache == old(persistedCache)
        && messages == old(messages) && settingsLog == old(settingsLog) && updateInProgress == old(updateInProgress)
        && configuredChecks == old(configuredChecks) && refreshConfiguredChecks == old(refreshConfiguredChecks)
      ensures r.Success? <==> UpdateRequestRejection(printingOrPaused, contentType).None?
      ensures r.Success? ==>
        && !updateInProgress && configuredChecks.Some?
        && r.value.0 == UpdateOrder(requested, configuredChecks.value.Keys)
        && r.value.1 == DisplayNames(configuredChecks.value, r.value.0)
      ensures r.Failure? ==> attempts == []
      ensures r.Success? && (old(refreshConfiguredChecks) || old(configuredChecks).None?) ==> checks == MergeAllHooks(stored, hooks)
      ensures r.Success? && !(old(refreshConfiguredChecks) || old(configuredChecks).None?) ==> checks == old(configuredChecks).value
      ensures r.Success? ==> ValidAttempts(attempts, checks) && DistinctTargets(attempts)
      ensures r.Success? ==> forall j :: 0 <= j < |attempts| ==> attempts[j].target in Eligible(requested, checks.Keys)
      ensures r.Success? ==> RunCoverage(attempts, reached, finished, r.value.0, checks,
                                         RunQuery(cacheTtl, now, force, env, host, globalPip), old(versionCache))
      ensures r.Success? && finished ==>
        forall t :: t in AttemptedTargets(attempts) <==> t in Eligible(requested, checks.Keys) && Wanted(checks, t)
    {
      match UpdateRequestRejection(printingOrPaused, contentType)
      case Some(status) =>
        r := Failure(status);
        checks, attempts, finished, reached := map[], [], false, 0;
      case None =>
        var order, names, st;
        checks, order, names, st, finished, attempts, reached :=
          PerformUpdates(requested, force, now, env, host, globalPip, stored, hooks, commands);
        DisplayNamesIgnorePipCommand(checks, st.checks, order);
        r := Success((order, names));
    }
  }
}
