/**
 * One target's update step (`_perform_update` after the resolution) and the
 * messages that close an update run (`_update_worker`, lines 510-538).
 */
module Run {
  import opened Wrappers
  import opened Checks
  import opened Resolver
  import opened Restart
  import opened Lists

  /** `("success", update_result)` or `("failed", data)`. */
  datatype TargetResult = Succeeded(payload: Value) | Failed(data: Value)

  /** The plugin messages sent to connected clients. */
  datatype Message =
    | Updating(target: string, version: Value, name: Value)
    | UpdateFailed(target: string, version: Value, name: Value, reason: Value)
    | RunFailed(results: map<string, TargetResult>)
    | RunSucceeded(results: map<string, TargetResult>)
    | Restarting(restartType: Value, results: map<string, TargetResult>)
    | RestartFailed(restartType: Value, results: map<string, TargetResult>)
    | RestartManually(restartType: Value, results: map<string, TargetResult>)
    | VersionsChanged

  /** What the plugin does to its settings store. */
  datatype SettingsOp = SettingsLoaded | SettingsSaved | CurrentSet(target: string, version: Value)

  /**
   * The outcome of `_perform_update`: the `(error, result)` pair with the
   * messages sent, the settings operations performed and the check as
   * `_get_updater` left it; `Raised` when an exception escapes.
   */
  datatype Step =
    | Step(error: bool, result: Option<TargetResult>, messages: seq<Message>, settings: seq<SettingsOp>, check: Check)
    | Raised

  /** The step updated its target. */
  predicate StepSucceeded(s: Step) {
    s.Step? && s.result.Some? && s.result.value.Succeeded?
  }

  const UnknownUpdateTypeReason := Text("Unknown update type")
  const UnknownReason := Text("unknown")

  /**
   * `_perform_update` given the resolution of the target. A target that is
   * neither available nor forced, or not possible, is left alone. Otherwise
   * the remote version is read (raising when the information has none), the
   * `updating` message is sent and the selected updater runs; a failure is
   * an error unless the check is ignorable, and a success reloads the
   * settings and, for a `github_commit` check, records the new version.
   */
  function PerformStep(res: Resolution, target: string, force: bool, host: Host, globalPip: Value, env: Environment): (s: Step)
    ensures (!res.updateAvailable && !force) || !res.updatePossible ==> s == Step(false, None, [], [], res.check)
    ensures s.Raised? <==>
      (res.updateAvailable || force) && res.updatePossible && (RemoteVersion(res.information).None? || "type" !in res.check)
    ensures s.Step? ==> OnlyAdds(s.check, res.check, "pip_command")
    ensures s.Step? && s.error ==> s.result.Some? && s.result.value.Failed? && !Ignorable(res.check)
    ensures s.Step? && s.result.Some? && s.result.value.Failed? && !Ignorable(res.check) ==> s.error
    ensures s.Step? && s.result.Some? ==> GetUpdater(res.check, globalPip).Success?
    ensures s.Step? && s.messages != [] ==>
      && RemoteVersion(res.information).Some? && "type" in res.check
      && s.messages[0] == Updating(target, RemoteVersion(res.information).value, Populated(target, res.check, host)["displayName"])
    ensures s.Step? && s.messages != [] && s.result.None? ==>
      s.messages == [s.messages[0], UpdateFailed(target, s.messages[0].version, s.messages[0].name, UnknownUpdateTypeReason)]
    ensures s.Step? && s.result.Some? ==>
      && s.messages != []
      && (s.result.value.Succeeded? <==> |s.messages| == 1)
      && (s.result.value.Failed? ==> s.messages[1].UpdateFailed?)
    ensures s.Step? && s.result.Some? && s.result.value.Succeeded? ==>
      && s.settings != [] && s.settings[0] == SettingsLoaded
      && (IsCommitCheck(res.check) <==> CurrentSet(target, RemoteVersion(res.information).value) in s.settings)
    ensures s.Step? && (s.result.None? || s.result.value.Failed?) ==> s.settings == []
  {
    var check := res.check;
    if !res.updateAvailable && !force then Step(false, None, [], [], check)
    else if !res.updatePossible then Step(false, None, [], [], check)
    else
      match RemoteVersion(res.information)
      case None => Raised
      case Some(version) =>
        match PopulatedCheck(target, check, host)
        case Failure(_) => Raised
        case Success(populated) =>
          assert Ignorable(populated) == Ignorable(check);
          UpdaterStep(target, version, populated, check, globalPip, env)
  }

  /**
   * The part of `_perform_update` from the `updating` message on: the
   * updater selected for `check` runs on the populated check, and what it
   * raises decides the error flag, the result and the closing message.
   */
  function UpdaterStep(target: string, version: Value, populated: Check, check: Check, globalPip: Value, env: Environment): (s: Step)
    requires "displayName" in populated
    ensures s.Step? && OnlyAdds(s.check, check, "pip_command")
    ensures s.error ==> s.result.Some? && s.result.value.Failed? && !Ignorable(populated)
    ensures s.result.Some? && s.result.value.Failed? && !Ignorable(populated) ==> s.error
    ensures s.result.None? <==>
      GetUpdater(check, globalPip).Failure?
      || env.perform(GetUpdater(check, globalPip).value.kind, target, populated, version) == UnknownUpdateTypeRaised
    ensures s.messages != [] && s.messages[0] == Updating(target, version, populated["displayName"])
    ensures s.result.None? ==>
      s.messages == [s.messages[0], UpdateFailed(target, version, populated["displayName"], UnknownUpdateTypeReason)]
    ensures s.result.Some? ==>
      && (s.result.value.Succeeded? <==> |s.messages| == 1)
      && (s.result.value.Failed? ==> |s.messages| == 2 && s.messages[1].UpdateFailed?)
    ensures s.result.Some? && s.result.value.Succeeded? ==>
      && s.settings != [] && s.settings[0] == SettingsLoaded
      && (IsCommitCheck(check) <==> CurrentSet(target, version) in s.settings)
    ensures s.result.None? || s.result.value.Failed? ==> s.settings == []
  {
    var name := populated["displayName"];
    var updating := Updating(target, version, name);
    match GetUpdater(check, globalPip)
    case Failure(_) =>
      Step(false, None, [updating, UpdateFailed(target, version, name, UnknownUpdateTypeReason)], [], check)
    case Success(choice) =>
      match env.perform(choice.kind, target, populated, version)
      case Updated(payload) =>
        var record := if IsCommitCheck(check) then [CurrentSet(target, version), SettingsSaved] else [];
        Step(false, Some(Succeeded(payload)), [updating], [SettingsLoaded] + record, choice.check)
      case UnknownUpdateTypeRaised =>
        Step(false, None, [updating, UpdateFailed(target, version, name, UnknownUpdateTypeReason)], [], choice.check)
      case UpdateErrorRaised(data) =>
        Step(!Ignorable(populated), Some(Failed(data)), [updating, UpdateFailed(target, version, name, data)], [], choice.check)
      case UpdateRaised =>
        Step(!Ignorable(populated), Some(Failed(Null)), [updating, UpdateFailed(target, version, name, UnknownReason)], [], choice.check)
  }

  /** A target without a selectable updater ends the step with neither an error nor a result. */
  lemma UnknownUpdateTypeIsNoError(res: Resolution, target: string, force: bool, host: Host, globalPip: Value, env: Environment)
    requires GetUpdater(res.check, globalPip).Failure?
    ensures PerformStep(res, target, force, host, globalPip, env).Step? ==>
      && !PerformStep(res, target, force, host, globalPip, env).error
      && PerformStep(res, target, force, host, globalPip, env).result.None?
  {
  }

  /** The step of a resolution of `check`, restated against `check` itself. */
  lemma StepAgainstCheck(res: Resolution, check: Check, target: string, force: bool, host: Host, globalPip: Value, env: Environment)
    requires OnlyAdds(res.check, check, "pip_command")
    ensures var s := PerformStep(res, target, force, host, globalPip, env);
      && (s.Step? ==> OnlyAdds(s.check, check, "pip_command"))
      && (s.Step? ==> (s.error <==> s.result.Some? && s.result.value.Failed? && !Ignorable(check)))
  {
    var s := PerformStep(res, target, force, host, globalPip, env);
    OnlyAddsKeeps(res.check, check, "pip_command", "ignorable");
    if s.Step? {
      OnlyAddsTransitive(s.check, res.check, check, "pip_command");
    }
  }

  // ----- the state an update run accumulates -----

  /** An update actually carried out for a target, with the step it produced. */
  datatype Attempt = Attempt(target: string, step: Step)

  /** The run's variables: the checks (as `_get_updater` left them), `target_results`, `error`, `restart_type`. */
  datatype RunState = RunState(checks: map<string, Check>, results: map<string, TargetResult>, error: bool, restartType: Value)

  /** The run state before the first target. */
  function Start(checks: map<string, Check>): RunState {
    RunState(checks, map[], false, Null)
  }

  /** Recording one step: the check is kept, an error or-ed in, a result stored and its restart type adopted. */
  function Record(st: RunState, a: Attempt): RunState
    requires a.step.Step?
  {
    var s := a.step;
    RunState(st.checks[a.target := s.check],
             if s.result.Some? then st.results[a.target := s.result.value] else st.results,
             st.error || s.error,
             if s.result.Some? then Adopt(st.restartType, TargetRestart(s.check)) else st.restartType)
  }

  predicate AllSteps(attempts: seq<Attempt>) {
    forall j :: 0 <= j < |attempts| ==> attempts[j].step.Step?
  }

  /** The run state after the given attempts, in order. */
  function RecordAll(start: RunState, attempts: seq<Attempt>): RunState
    requires AllSteps(attempts)
    decreases |attempts|
  {
    if |attempts| == 0 then start
    else Record(RecordAll(start, attempts[..|attempts| - 1]), attempts[|attempts| - 1])
  }

  /** The messages the attempts sent, in order. */
  function StepMessages(attempts: seq<Attempt>): seq<Message>
    requires AllSteps(attempts)
    decreases |attempts|
  {
    if |attempts| == 0 then []
    else StepMessages(attempts[..|attempts| - 1]) + attempts[|attempts| - 1].step.messages
  }

  /** The settings operations the attempts performed, in order. */
  function StepSettings(attempts: seq<Attempt>): seq<SettingsOp>
    requires AllSteps(attempts)
    decreases |attempts|
  {
    if |attempts| == 0 then []
    else StepSettings(attempts[..|attempts| - 1]) + attempts[|attempts| - 1].step.settings
  }

  /**
   * Recording one more valid attempt extends the fold and the logs by that
   * attempt; the logs of a run are those of its attempts after the messages
   * and settings operations `messages0` and `settings0` that came before it.
   */
  lemma AppendAttempt(checks: map<string, Check>, attempts: seq<Attempt>, a: Attempt,
                      messages0: seq<Message>, settings0: seq<SettingsOp>)
    requires ValidAttempts(attempts, checks) && ValidAttempt(a, checks)
    ensures ValidAttempts(attempts + [a], checks) && AllSteps(attempts + [a])
    ensures RecordAll(Start(checks), attempts + [a]) == Record(RecordAll(Start(checks), attempts), a)
    ensures StepMessages(attempts + [a]) == StepMessages(attempts) + a.step.messages
    ensures StepSettings(attempts + [a]) == StepSettings(attempts) + a.step.settings
    ensures messages0 + StepMessages(attempts + [a]) == messages0 + StepMessages(attempts) + a.step.messages
    ensures settings0 + StepSettings(attempts + [a]) == settings0 + StepSettings(attempts) + a.step.settings
  {
    var extended := attempts + [a];
    assert extended[..|attempts|] == attempts;
    assert forall j :: 0 <= j < |extended| ==> extended[j] == if j < |attempts| then attempts[j] else a;
  }

  /** The attempts were made for the targets at strictly increasing positions below `i`. */
  ghost predicate Placed(attempts: seq<Attempt>, positions: seq<nat>, targets: seq<string>, i: nat) {
    && |positions| == |attempts|
    && (forall j :: 0 <= j < |attempts| ==> positions[j] < i && positions[j] < |targets| && targets[positions[j]] == attempts[j].target)
    && (forall a, b :: 0 <= a < b < |attempts| ==> positions[a] < positions[b])
  }

  lemma PlacedSkip(attempts: seq<Attempt>, positions: seq<nat>, targets: seq<string>, i: nat)
    requires Placed(attempts, positions, targets, i)
    ensures Placed(attempts, positions, targets, i + 1)
  {
  }

  lemma PlacedAppend(attempts: seq<Attempt>, positions: seq<nat>, targets: seq<string>, i: nat, a: Attempt)
    requires Placed(attempts, positions, targets, i) && i < |targets| && a.target == targets[i]
    ensures Placed(attempts + [a], positions + [i], targets, i + 1)
  {
  }

  /** Attempts placed in a sequence without duplicates are for distinct targets, all of them in the sequence. */
  lemma PlacedDistinct(attempts: seq<Attempt>, positions: seq<nat>, targets: seq<string>, i: nat)
    requires Placed(attempts, positions, targets, i)
    ensures forall j :: 0 <= j < |attempts| ==> attempts[j].target in targets
    ensures NoDuplicates(targets) ==> DistinctTargets(attempts)
  {
    if NoDuplicates(targets) {
      forall a, b | 0 <= a < b < |attempts| ensures attempts[a].target != attempts[b].target {
        assert targets[positions[a]] != targets[positions[b]];
      }
    }
  }

  /** An attempt placed before position `i` of a list without duplicates is for another target than `targets[i]`. */
  lemma PlacedBefore(attempts: seq<Attempt>, positions: seq<nat>, targets: seq<string>, i: nat)
    requires Placed(attempts, positions, targets, i) && i < |targets| && NoDuplicates(targets)
    ensures forall j :: 0 <= j < |attempts| ==> attempts[j].target != targets[i]
  {
    forall j | 0 <= j < |attempts| ensures attempts[j].target != targets[i] {
      assert targets[positions[j]] == attempts[j].target && positions[j] < i;
    }
  }

  /** A target the worker updates: configured, and not disabled. */
  predicate Wanted(checks: map<string, Check>, t: string) {
    t in checks && Enabled(checks[t])
  }

  /** The targets attempted, in order. */
  function AttemptedTargets(attempts: seq<Attempt>): (r: seq<string>)
    ensures |r| == |attempts| && forall j :: 0 <= j < |attempts| ==> r[j] == attempts[j].target
  {
    seq(|attempts|, j requires 0 <= j < |attempts| => attempts[j].target)
  }

  lemma AttemptedTargetsAppend(attempts: seq<Attempt>, a: Attempt)
    ensures AttemptedTargets(attempts + [a]) == AttemptedTargets(attempts) + [a.target]
  {
    assert |AttemptedTargets(attempts + [a])| == |AttemptedTargets(attempts) + [a.target]|;
  }

  /** The targets of a list that the worker updates, in list order: those configured and not disabled. */
  function WantedTargets(targets: seq<string>, checks: map<string, Check>): seq<string>
    decreases |targets|
  {
    if |targets| == 0 then []
    else
      var last := targets[|targets| - 1];
      WantedTargets(targets[..|targets| - 1], checks) + (if Wanted(checks, last) then [last] else [])
  }

  /** The wanted targets of a list are exactly its targets that are configured and not disabled. */
  lemma {:induction false} WantedTargetsMembers(targets: seq<string>, checks: map<string, Check>)
    ensures forall t :: t in WantedTargets(targets, checks) <==> t in targets && Wanted(checks, t)
    decreases |targets|
  {
    if |targets| > 0 {
      var n := |targets| - 1;
      WantedTargetsMembers(targets[..n], checks);
      assert targets == targets[..n] + [targets[n]];
    }
  }

  /** One more position of the list: the wanted targets gain it exactly when it is wanted. */
  lemma WantedTargetsNext(targets: seq<string>, checks: map<string, Check>, i: nat)
    requires i < |targets|
    ensures WantedTargets(targets[..i + 1], checks)
         == WantedTargets(targets[..i], checks) + (if Wanted(checks, targets[i]) then [targets[i]] else [])
  {
    assert targets[..i + 1][..i] == targets[..i];
  }

  /**
   * The bookkeeping of the worker's loop when the target at `i` is
   * attempted: the attempt is appended with its messages and settings
   * operations, placed at `i`, and the attempted targets stay the wanted
   * ones up to the next position.
   */
  lemma AdvanceAppend(checks: map<string, Check>, attempts: seq<Attempt>, positions: seq<nat>, targets: seq<string>,
                      i: nat, a: Attempt, messages0: seq<Message>, settings0: seq<SettingsOp>)
    requires ValidAttempts(attempts, checks) && ValidAttempt(a, checks)
    requires Placed(attempts, positions, targets, i) && i < |targets| && a.target == targets[i]
    requires AttemptedTargets(attempts) == WantedTargets(targets[..i], checks)
    ensures ValidAttempts(attempts + [a], checks) && AllSteps(attempts + [a])
    ensures RecordAll(Start(checks), attempts + [a]) == Record(RecordAll(Start(checks), attempts), a)
    ensures messages0 + StepMessages(attempts + [a]) == messages0 + StepMessages(attempts) + a.step.messages
    ensures settings0 + StepSettings(attempts + [a]) == settings0 + StepSettings(attempts) + a.step.settings
    ensures Placed(attempts + [a], positions + [i], targets, i + 1)
    ensures AttemptedTargets(attempts + [a]) == WantedTargets(targets[..i + 1], checks)
    ensures AnySucceeded(attempts + [a]) <==> AnySucceeded(attempts) || StepSucceeded(a.step)
  {
    AnySucceededAppend(attempts, a);
    AppendAttempt(checks, attempts, a, messages0, settings0);
    PlacedAppend(attempts, positions, targets, i, a);
    AttemptedTargetsAppend(attempts, a);
    WantedTargetsNext(targets, checks, i);
  }

  /** The bookkeeping of the worker's loop when the target at `i` is skipped. */
  lemma AdvanceSkip(checks: map<string, Check>, attempts: seq<Attempt>, positions: seq<nat>, targets: seq<string>, i: nat)
    requires Placed(attempts, positions, targets, i) && i < |targets| && !Wanted(checks, targets[i])
    requires AttemptedTargets(attempts) == WantedTargets(targets[..i], checks)
    ensures Placed(attempts, positions, targets, i + 1)
    ensures AttemptedTargets(attempts) == WantedTargets(targets[..i + 1], checks)
  {
    PlacedSkip(attempts, positions, targets, i);
    WantedTargetsNext(targets, checks, i);
  }

  /** What one update run shares across its targets: the time to live, the clock, `force`, the collaborators, the host and the global `pip_command`. */
  datatype RunQuery = RunQuery(ttl: real, now: real, force: bool, env: Environment, host: Host, globalPip: Value)

  /** `_perform_update` of `target` with `check` against the cache `cache`: the unforced lookup, then the step. */
  function UpdateStepOf(q: RunQuery, cache: VersionCache, target: string, check: Check): Step {
    PerformStep(LookupVersion(cache, q.ttl, q.now, false, q.env, target, check, q.globalPip).resolution,
                target, q.force, q.host, q.globalPip, q.env)
  }

  /** A pass of the worker's loop raised exactly when the step did, and recorded that step when it made an attempt. */
  predicate StepMatches(raised: bool, attempt: Option<Attempt>, s: Step) {
    (raised <==> s.Raised?) && (attempt.Some? ==> attempt.value.step == s)
  }

  /** A step depends on the cache only through the target's own entry. */
  lemma UpdateStepLocal(q: RunQuery, c1: VersionCache, c2: VersionCache, target: string, check: Check)
    requires target in c1 <==> target in c2
    requires target in c1 ==> c1[target] == c2[target]
    ensures UpdateStepOf(q, c1, target, check) == UpdateStepOf(q, c2, target, check)
  {
    LookupLocal(c1, c2, q.ttl, q.now, false, q.env, target, check, q.globalPip);
  }

  /**
   * Every attempt's step is `_perform_update` of its target, with its
   * configured check, against the cache `cache0` the run began with.
   */
  predicate PerformedAgainst(attempts: seq<Attempt>, q: RunQuery, checks: map<string, Check>, cache0: VersionCache) {
    && (forall j :: 0 <= j < |attempts| ==> attempts[j].target in checks)
    && (forall j {:trigger UpdateStepOf(q, cache0, attempts[j].target, checks[attempts[j].target])} :: 0 <= j < |attempts| ==>
          attempts[j].step == UpdateStepOf(q, cache0, attempts[j].target, checks[attempts[j].target]))
  }

  /**
   * What an update run over `targets`, begun on the cache `cache0`, did: it
   * went through the list in order up to position `reached`, and attempted
   * exactly the wanted targets before it, in list order. It finished
   * exactly when it reached the end, having then attempted every wanted
   * target of the list; otherwise it stopped at a wanted target whose step
   * raised. In a list without duplicates each attempt's step, and the
   * raise, is `_perform_update` of the target with its configured check
   * against `cache0`.
   */
  predicate RunCoverage(attempts: seq<Attempt>, reached: nat, finished: bool, targets: seq<string>,
                        checks: map<string, Check>, q: RunQuery, cache0: VersionCache) {
    && reached <= |targets| && (finished <==> reached == |targets|)
    && AttemptedTargets(attempts) == WantedTargets(targets[..reached], checks)
    && (finished ==> AttemptedTargets(attempts) == WantedTargets(targets, checks))
    && (!finished ==> Wanted(checks, targets[reached]))
    && (!finished && NoDuplicates(targets) ==> UpdateStepOf(q, cache0, targets[reached], checks[targets[reached]]).Raised?)
    && (NoDuplicates(targets) ==> PerformedAgainst(attempts, q, checks, cache0))
  }

  /** The loop's facts where it stops give `RunCoverage`. */
  lemma RunCoverageAtEnd(attempts: seq<Attempt>, reached: nat, finished: bool, targets: seq<string>,
                         checks: map<string, Check>, q: RunQuery, cache0: VersionCache)
    requires reached <= |targets| && (finished <==> reached == |targets|)
    requires AttemptedTargets(attempts) == WantedTargets(targets[..reached], checks)
    requires !finished ==> Wanted(checks, targets[reached])
    requires !finished && NoDuplicates(targets) ==> UpdateStepOf(q, cache0, targets[reached], checks[targets[reached]]).Raised?
    requires NoDuplicates(targets) ==> PerformedAgainst(attempts, q, checks, cache0)
    ensures RunCoverage(attempts, reached, finished, targets, checks, q, cache0)
  {
    if finished {
      assert targets[..reached] == targets;
    }
  }

  lemma PerformedAppend(attempts: seq<Attempt>, q: RunQuery, checks: map<string, Check>, cache0: VersionCache, a: Attempt)
    requires PerformedAgainst(attempts, q, checks, cache0)
    requires a.target in checks && a.step == UpdateStepOf(q, cache0, a.target, checks[a.target])
    ensures PerformedAgainst(attempts + [a], q, checks, cache0)
  {
    var extended := attempts + [a];
    assert forall j :: 0 <= j < |extended| ==> extended[j] == if j < |attempts| then attempts[j] else a;
  }

  /**
   * In a list without duplicates, the target at `i` has had no attempt and
   * its cache entry is untouched, so its step now is the one against the
   * cache `cache0` the run began with, with its configured check.
   */
  lemma StepAsAtStart(q: RunQuery, checks: map<string, Check>, attempts: seq<Attempt>, positions: seq<nat>,
                      targets: seq<string>, i: nat, touched: set<string>, cache: VersionCache, cache0: VersionCache)
    requires AllSteps(attempts) && Placed(attempts, positions, targets, i)
    requires i < |targets| && NoDuplicates(targets) && targets[i] in checks
    requires forall k :: k in touched ==> exists p :: 0 <= p < i && targets[p] == k
    requires forall k :: k !in touched ==> (k in cache <==> k in cache0) && (k in cache ==> cache[k] == cache0[k])
    ensures targets[i] in RecordAll(Start(checks), attempts).checks
    ensures RecordAll(Start(checks), attempts).checks[targets[i]] == checks[targets[i]]
    ensures UpdateStepOf(q, cache, targets[i], checks[targets[i]]) == UpdateStepOf(q, cache0, targets[i], checks[targets[i]])
  {
    var target := targets[i];
    PlacedBefore(attempts, positions, targets, i);
    UnattemptedKeepsCheck(checks, attempts, target);
    assert target !in touched;
    UpdateStepLocal(q, cache, cache0, target, checks[target]);
  }

  /**
   * One pass of the worker's loop over a list without duplicates, with the
   * cache `cache` before the step and `cache'` after it. What the step did
   * against the current cache and run state is what it does against the
   * cache the run began with and the configured check, so the attempts stay
   * those of `_perform_update` and a raise is that step's. The targets whose
   * update succeeded still have no cache entry.
   */
  lemma NextWithoutDuplicates(q: RunQuery, checks: map<string, Check>, attempts: seq<Attempt>, positions: seq<nat>,
                              targets: seq<string>, i: nat, touched: set<string>, cache: VersionCache,
                              cache': VersionCache, cache0: VersionCache, raised: bool, attempt: Option<Attempt>)
    requires AllSteps(attempts) && Placed(attempts, positions, targets, i)
    requires i < |targets| && NoDuplicates(targets)
    requires forall k :: k in touched ==> exists p :: 0 <= p < i && targets[p] == k
    requires forall k :: k !in touched ==> (k in cache <==> k in cache0) && (k in cache ==> cache[k] == cache0[k])
    requires PerformedAgainst(attempts, q, checks, cache0) && SucceededAbsent(attempts, cache)
    requires OnlyAddsEach(RecordAll(Start(checks), attempts).checks, checks, "pip_command")
    requires Wanted(RecordAll(Start(checks), attempts).checks, targets[i]) ==>
      StepMatches(raised, attempt, UpdateStepOf(q, cache, targets[i], RecordAll(Start(checks), attempts).checks[targets[i]]))
    requires attempt.Some? ==> attempt.value.target == targets[i] && Wanted(checks, targets[i])
    requires raised ==> Wanted(checks, targets[i])
    requires forall k :: k != targets[i] ==> (k in cache' <==> k in cache)
    requires attempt.None? && !raised ==> cache' == cache
    requires attempt.Some? && StepSucceeded(attempt.value.step) ==> targets[i] !in cache'
    ensures raised ==> UpdateStepOf(q, cache0, targets[i], checks[targets[i]]).Raised?
    ensures attempt.Some? ==> PerformedAgainst(attempts + [attempt.value], q, checks, cache0)
    ensures attempt.Some? ==> SucceededAbsent(attempts + [attempt.value], cache')
    ensures attempt.None? ==> SucceededAbsent(attempts, cache')
  {
    var target := targets[i];
    PlacedBefore(attempts, positions, targets, i);
    if target in checks {
      StepAsAtStart(q, checks, attempts, positions, targets, i, touched, cache, cache0);
    }
    if attempt.Some? {
      PerformedAppend(attempts, q, checks, cache0, attempt.value);
      SucceededAppend(attempts, attempt.value, cache, cache');
    } else {
      SucceededUnaffected(attempts, target, cache, cache');
    }
  }

  /** A target no attempt was made for keeps its configured check in the run state. */
  lemma {:induction false} UnattemptedKeepsCheck(checks: map<string, Check>, attempts: seq<Attempt>, t: string)
    requires AllSteps(attempts) && t in checks
    requires forall j :: 0 <= j < |attempts| ==> attempts[j].target != t
    ensures t in RecordAll(Start(checks), attempts).checks
    ensures RecordAll(Start(checks), attempts).checks[t] == checks[t]
    decreases |attempts|
  {
    if |attempts| > 0 {
      var n := |attempts| - 1;
      assert forall j :: 0 <= j < n ==> attempts[..n][j] == attempts[j];
      UnattemptedKeepsCheck(checks, attempts[..n], t);
    }
  }

  // ----- the version cache over a run -----

  /** No target whose update succeeded in these attempts has an entry in `cache`. */
  predicate SucceededAbsent(attempts: seq<Attempt>, cache: VersionCache) {
    forall j :: 0 <= j < |attempts| && StepSucceeded(attempts[j].step) ==> attempts[j].target !in cache
  }

  /** Some update in these attempts succeeded. */
  predicate AnySucceeded(attempts: seq<Attempt>) {
    exists j :: 0 <= j < |attempts| && StepSucceeded(attempts[j].step)
  }

  /** Changing only `target`'s entry keeps the earlier successes of other targets absent. */
  lemma SucceededUnaffected(attempts: seq<Attempt>, target: string, cache: VersionCache, cache': VersionCache)
    requires SucceededAbsent(attempts, cache)
    requires forall j :: 0 <= j < |attempts| ==> attempts[j].target != target
    requires forall k :: k != target ==> (k in cache' <==> k in cache)
    ensures SucceededAbsent(attempts, cache')
  {
  }

  /** One more attempt, for a target not attempted before, whose success dropped its entry. */
  lemma SucceededAppend(attempts: seq<Attempt>, a: Attempt, cache: VersionCache, cache': VersionCache)
    requires SucceededAbsent(attempts, cache)
    requires forall j :: 0 <= j < |attempts| ==> attempts[j].target != a.target
    requires forall k :: k != a.target ==> (k in cache' <==> k in cache)
    requires StepSucceeded(a.step) ==> a.target !in cache'
    ensures SucceededAbsent(attempts + [a], cache')
  {
    var extended := attempts + [a];
    assert forall j :: 0 <= j < |extended| ==> extended[j] == if j < |attempts| then attempts[j] else a;
  }

  /** No target whose stored result is a success has an entry in `cache`. */
  predicate SucceededResultsAbsent(results: map<string, TargetResult>, cache: VersionCache) {
    forall t :: t in results && results[t].Succeeded? ==> t !in cache
  }

  /**
   * The version cache after an update run: no target whose update succeeded
   * has an entry, in memory or, after a run that finished without error, in
   * the saved copy; and a success left unsaved marks the cache dirty.
   */
  predicate RunCacheOutcome(st: RunState, finished: bool, attempts: seq<Attempt>, cache: VersionCache,
                            persisted: Option<VersionCache>, dirty: bool) {
    && SucceededResultsAbsent(st.results, cache)
    && (finished && !st.error ==> persisted.Some? && SucceededResultsAbsent(st.results, persisted.value))
    && (AnySucceeded(attempts) && !(finished && !st.error) ==> dirty)
  }

  /** When the succeeded attempts have no cache entry, neither has any target whose stored result is a success. */
  lemma SucceededResultsGone(checks: map<string, Check>, attempts: seq<Attempt>, cache: VersionCache)
    requires AllSteps(attempts) && SucceededAbsent(attempts, cache)
    ensures SucceededResultsAbsent(RecordAll(Start(checks), attempts).results, cache)
  {
    var results := RecordAll(Start(checks), attempts).results;
    forall t | t in results && results[t].Succeeded? ensures t !in cache {
      SucceededResultAttempted(checks, attempts, t);
    }
  }

  /** Some update succeeded after one more attempt exactly when one had before or this one did. */
  lemma AnySucceededAppend(attempts: seq<Attempt>, a: Attempt)
    ensures AnySucceeded(attempts + [a]) <==> AnySucceeded(attempts) || StepSucceeded(a.step)
  {
    var extended := attempts + [a];
    assert forall j :: 0 <= j < |attempts| ==> extended[j] == attempts[j];
    if AnySucceeded(extended) && !StepSucceeded(a.step) {
      var j :| 0 <= j < |extended| && StepSucceeded(extended[j].step);
      assert j < |attempts| && StepSucceeded(attempts[j].step);
    }
    if StepSucceeded(a.step) {
      assert StepSucceeded(extended[|attempts|].step);
    }
  }

  /** The targets whose attempt produced a result, in run order. */
  function ResultTargets(attempts: seq<Attempt>): seq<string>
    decreases |attempts|
  {
    if |attempts| == 0 then []
    else
      var last := attempts[|attempts| - 1];
      ResultTargets(attempts[..|attempts| - 1]) + (if last.step.Step? && last.step.result.Some? then [last.target] else [])
  }

  /**
   * A step the run may record for a target of `checks`: its check only gained
   * `pip_command`, and it is an error exactly when it failed and the target
   * is not ignorable.
   */
  predicate ValidAttempt(a: Attempt, checks: map<string, Check>) {
    && a.step.Step?
    && a.target in checks
    && Enabled(checks[a.target])
    && OnlyAdds(a.step.check, checks[a.target], "pip_command")
    && (a.step.error <==> a.step.result.Some? && a.step.result.value.Failed? && !Ignorable(checks[a.target]))
  }

  predicate ValidAttempts(attempts: seq<Attempt>, checks: map<string, Check>) {
    forall j :: 0 <= j < |attempts| ==> ValidAttempt(attempts[j], checks)
  }

  predicate DistinctTargets(attempts: seq<Attempt>) {
    forall a, b :: 0 <= a < b < |attempts| ==> attempts[a].target != attempts[b].target
  }

  /** The checks of the given targets, in order. */
  function ChecksOf(checks: map<string, Check>, targets: seq<string>): (r: seq<Check>)
    requires forall t :: t in targets ==> t in checks
    ensures |r| == |targets| && forall k :: 0 <= k < |targets| ==> r[k] == checks[targets[k]]
  {
    seq(|targets|, k requires 0 <= k < |targets| => checks[targets[k]])
  }

  lemma {:induction false} PrefixValid(attempts: seq<Attempt>, checks: map<string, Check>, n: nat)
    requires ValidAttempts(attempts, checks) && n <= |attempts|
    ensures ValidAttempts(attempts[..n], checks) && AllSteps(attempts[..n])
  {
    assert forall j :: 0 <= j < n ==> attempts[..n][j] == attempts[j];
  }

  /** A step the run performs on a configured, enabled target is a valid attempt. */
  lemma StepIsValidAttempt(checks: map<string, Check>, target: string, check: Check, res: Resolution,
                           force: bool, host: Host, globalPip: Value, env: Environment)
    requires target in checks && OnlyAdds(check, checks[target], "pip_command") && Enabled(check)
    requires OnlyAdds(res.check, check, "pip_command")
    requires PerformStep(res, target, force, host, globalPip, env).Step?
    ensures ValidAttempt(Attempt(target, PerformStep(res, target, force, host, globalPip, env)), checks)
  {
    var s := PerformStep(res, target, force, host, globalPip, env);
    StepAgainstCheck(res, check, target, force, host, globalPip, env);
    OnlyAddsTransitive(s.check, check, checks[target], "pip_command");
    OnlyAddsKeeps(check, checks[target], "pip_command", "enabled");
    OnlyAddsKeeps(check, checks[target], "pip_command", "ignorable");
  }

  /** Over a run of valid attempts the checks keep their keys and only gain `pip_command`. */
  lemma {:induction false} RecordAllChecks(checks: map<string, Check>, attempts: seq<Attempt>)
    requires ValidAttempts(attempts, checks)
    ensures AllSteps(attempts)
    ensures OnlyAddsEach(RecordAll(Start(checks), attempts).checks, checks, "pip_command")
    decreases |attempts|
  {
    if |attempts| > 0 {
      var n := |attempts| - 1;
      PrefixValid(attempts, checks, n);
      RecordAllChecks(checks, attempts[..n]);
      assert ValidAttempt(attempts[n], checks);
    }
  }

  /** The results belong to exactly the result-bearing targets, all of them configured. */
  lemma {:induction false} RecordAllResults(checks: map<string, Check>, attempts: seq<Attempt>)
    requires ValidAttempts(attempts, checks)
    ensures AllSteps(attempts)
    ensures forall t :: t in RecordAll(Start(checks), attempts).results <==> t in ResultTargets(attempts)
    ensures forall t :: t in ResultTargets(attempts) ==> t in checks && Enabled(checks[t])
    ensures forall t :: t in RecordAll(Start(checks), attempts).results ==> exists j :: 0 <= j < |attempts| && attempts[j].target == t
    decreases |attempts|
  {
    if |attempts| > 0 {
      var n := |attempts| - 1;
      PrefixValid(attempts, checks, n);
      RecordAllResults(checks, attempts[..n]);
      assert forall j :: 0 <= j < n ==> attempts[..n][j] == attempts[j];
      assert ValidAttempt(attempts[n], checks);
    }
  }

  /** The run's error is set exactly when some attempt was an error. */
  lemma {:induction false} RecordAllError(checks: map<string, Check>, attempts: seq<Attempt>)
    requires AllSteps(attempts)
    ensures RecordAll(Start(checks), attempts).error <==> exists j :: 0 <= j < |attempts| && attempts[j].step.error
    decreases |attempts|
  {
    if |attempts| > 0 {
      var n := |attempts| - 1;
      var prefix := attempts[..n];
      assert forall j :: 0 <= j < n ==> prefix[j] == attempts[j];
      RecordAllError(checks, prefix);
    }
  }

  /** Appending a target appends its check, and the reduction adopts that check's restart type. */
  lemma ReduceSnoc(checks: map<string, Check>, targets: seq<string>, t: string)
    requires forall u :: u in targets ==> u in checks
    requires t in checks
    ensures forall u :: u in targets + [t] ==> u in checks
    ensures Reduce(ChecksOf(checks, targets + [t])) == Adopt(Reduce(ChecksOf(checks, targets)), TargetRestart(checks[t]))
  {
    var cs := ChecksOf(checks, targets + [t]);
    assert cs[..|targets|] == ChecksOf(checks, targets);
    assert cs[|targets|] == checks[t];
  }

  /** The run's restart type is the reduction over the checks of the result-bearing targets, in run order. */
  lemma {:induction false} RecordAllRestart(checks: map<string, Check>, attempts: seq<Attempt>)
    requires ValidAttempts(attempts, checks)
    ensures AllSteps(attempts) && forall t :: t in ResultTargets(attempts) ==> t in checks
    ensures RecordAll(Start(checks), attempts).restartType == Reduce(ChecksOf(checks, ResultTargets(attempts)))
    decreases |attempts|
  {
    RecordAllResults(checks, attempts);
    if |attempts| > 0 {
      var n := |attempts| - 1;
      var a := attempts[n];
      PrefixValid(attempts, checks, n);
      RecordAllRestart(checks, attempts[..n]);
      RecordAllResults(checks, attempts[..n]);
      assert ValidAttempt(a, checks);
      var rt := ResultTargets(attempts[..n]);
      if a.step.result.Some? {
        RestartUnaffected(a.step.check, checks[a.target]);
        assert ResultTargets(attempts) == rt + [a.target];
        ReduceSnoc(checks, rt, a.target);
      } else {
        assert ResultTargets(attempts) == rt;
      }
    }
  }

  lemma {:induction false} UnattemptedHasNoResult(attempts: seq<Attempt>, t: string)
    requires forall j :: 0 <= j < |attempts| ==> attempts[j].target != t
    ensures t !in ResultTargets(attempts)
    decreases |attempts|
  {
    if |attempts| > 0 {
      var n := |attempts| - 1;
      assert forall j :: 0 <= j < n ==> attempts[..n][j] == attempts[j];
      UnattemptedHasNoResult(attempts[..n], t);
    }
  }

  /** A success stored in the run's results comes from an attempt of that target whose update succeeded. */
  lemma {:induction false} SucceededResultAttempted(checks: map<string, Check>, attempts: seq<Attempt>, t: string)
    requires AllSteps(attempts)
    requires t in RecordAll(Start(checks), attempts).results && RecordAll(Start(checks), attempts).results[t].Succeeded?
    ensures exists j :: 0 <= j < |attempts| && attempts[j].target == t && StepSucceeded(attempts[j].step)
    decreases |attempts|
  {
    if |attempts| > 0 {
      var n := |attempts| - 1;
      var a := attempts[n];
      assert forall j :: 0 <= j < n ==> attempts[..n][j] == attempts[j];
      if a.target == t && a.step.result.Some? {
        assert StepSucceeded(attempts[n].step);
      } else {
        SucceededResultAttempted(checks, attempts[..n], t);
        var j :| 0 <= j < n && attempts[..n][j].target == t && StepSucceeded(attempts[..n][j].step);
        assert attempts[j].target == t && StepSucceeded(attempts[j].step);
      }
    }
  }

  /** With every target attempted at most once, the error is set exactly when a stored result is a failure of a target that is not ignorable. */
  lemma {:induction false} ErrorMeansUnignorableFailure(checks: map<string, Check>, attempts: seq<Attempt>)
    requires ValidAttempts(attempts, checks) && DistinctTargets(attempts)
    ensures AllSteps(attempts)
    ensures forall t :: t in RecordAll(Start(checks), attempts).results ==> t in checks
    ensures var st := RecordAll(Start(checks), attempts);
      st.error <==> exists t :: t in st.results && st.results[t].Failed? && !Ignorable(checks[t])
    decreases |attempts|
  {
    RecordAllResults(checks, attempts);
    if |attempts| > 0 {
      var n := |attempts| - 1;
      var prefix, a := attempts[..n], attempts[n];
      PrefixValid(attempts, checks, n);
      DistinctSplit(attempts);
      ErrorMeansUnignorableFailure(checks, prefix);
      RecordAllResults(checks, prefix);
      var before := RecordAll(Start(checks), prefix);
      UnattemptedHasNoResult(prefix, a.target);
      RecordKeepsErrorMeaning(checks, before, a);
    }
  }

  /** Without its last attempt a history still has distinct targets, none of them the last one's. */
  lemma DistinctSplit(attempts: seq<Attempt>)
    requires DistinctTargets(attempts) && |attempts| > 0
    ensures var n := |attempts| - 1;
      && DistinctTargets(attempts[..n])
      && forall j :: 0 <= j < n ==> attempts[..n][j].target != attempts[n].target
  {
    var n := |attempts| - 1;
    assert forall j :: 0 <= j < n ==> attempts[..n][j] == attempts[j];
  }

  /** One more attempt at a target without a result keeps the error tied to the unignorable failures. */
  lemma RecordKeepsErrorMeaning(checks: map<string, Check>, before: RunState, a: Attempt)
    requires ValidAttempt(a, checks) && a.target !in before.results
    requires forall t :: t in before.results ==> t in checks
    requires before.error <==> exists t :: t in before.results && before.results[t].Failed? && !Ignorable(checks[t])
    ensures var st := Record(before, a);
      st.error <==> exists t :: t in st.results && st.results[t].Failed? && !Ignorable(checks[t])
  {
    var st := Record(before, a);
    if before.error {
      var t :| t in before.results && before.results[t].Failed? && !Ignorable(checks[t]);
      assert t in st.results && st.results[t] == before.results[t];
    }
    if a.step.error {
      assert a.target in st.results && st.results[a.target].Failed?;
    }
    if !before.error && !a.step.error {
      forall t | t in st.results ensures !(st.results[t].Failed? && !Ignorable(checks[t])) {
        if t != a.target { assert st.results[t] == before.results[t]; }
      }
    }
  }

  /** The configured restart commands `serverRestartCommand` and `systemRestartCommand`. */
  datatype RestartCommands = RestartCommands(server: Value, system: Value)

  function RestartCommand(restartType: Value, commands: RestartCommands): Value {
    if restartType == OctoPrintRestart then commands.server else commands.system
  }

  /**
   * The messages that close a run that did not raise: `error` when a target
   * failed; otherwise `restarting` (then `restart_failed` if the command
   * fails) for an "octoprint" or "environment" restart whose command is
   * configured, `restart_manually` when it is not, and `success` when no
   * restart is needed.
   */
  function RunMessages(error: bool, results: map<string, TargetResult>, restartType: Value,
                       commands: RestartCommands, restartSucceeds: Value -> bool): (m: seq<Message>)
    ensures 1 <= |m| <= 2
    ensures error ==> m == [RunFailed(results)]
    ensures !error && restartType != OctoPrintRestart && restartType != EnvironmentRestart ==> m == [RunSucceeded(results)]
    ensures !error && (restartType == OctoPrintRestart || restartType == EnvironmentRestart) ==>
      var command := if restartType == OctoPrintRestart then commands.server else commands.system;
      && (command == Null ==> m == [RestartManually(restartType, results)])
      && (command != Null ==> m[0] == Restarting(restartType, results) && (|m| == 2 <==> !restartSucceeds(command)))
    ensures |m| == 2 ==> m == [Restarting(restartType, results), RestartFailed(restartType, results)]
  {
    if error then [RunFailed(results)]
    else if restartType == OctoPrintRestart || restartType == EnvironmentRestart then
      var command := RestartCommand(restartType, commands);
      if command != Null then
        if restartSucceeds(command) then [Restarting(restartType, results)]
        else [Restarting(restartType, results), RestartFailed(restartType, results)]
      else [RestartManually(restartType, results)]
    else [RunSucceeded(results)]
  }
}
