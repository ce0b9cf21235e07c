# OctoPrint Software Update: update orchestration, modelled in Dafny

This project models the update orchestration of OctoPrint's Software Update
plugin and the `PipCaller` wrapper that plugin updates go through, and proves
properties about the model.

The plugin keeps a version cache with one entry per target. An entry holds
`(timestamp, information, update_available, update_possible)`. The plugin
also tracks:

- a time to live for cache entries;
- a dirty flag;
- the configured checks, merged from the settings and the
  `check_config` hooks;
- a flag that marks an update run as in progress.

A check selects two collaborators:

- a version checker, chosen by `type`;
- an updater, chosen by the marker keys `update_script`, `pip` and
  `python_updater`.

**Resolving a target.** The plugin asks the checker for the latest version
and the updater whether it can perform the update. It caches the answer and
reports it through `get_current_versions`.

**An update run.** `perform_updates` sorts the requested targets and puts
`octoprint` first. A worker then updates them one by one: each target is
skipped, succeeds or fails, and an `ignorable` failure does not fail the run.
The worker reduces the restart types of the updated targets to one. However
the run ends, it saves the settings and clears the in-progress flag. Only a
run without error writes the version cache out.

**`PipCaller.execute`.** It re-discovers pip when asked to refresh. It raises
`UnknownPip` without a pip command. For an `install` it adapts the
`--process-dependency-links` and `--no-use-wheel` flags to the pip version.

Modules, by file:

- `wrappers.dfy` (`Wrappers`): `Option` and `Result`.
- `lists.dfy` (`Lists`): Python's `list.index` and `list.remove` on sequences.
- `ordering.dfy` (`Ordering`): Python's string order, `sorted(set)` and the
  update order of `perform_updates`.
- `checks.dfy` (`Checks`):
  - check configurations;
  - checker and updater dispatch;
  - `_populated_check`;
  - the hook merge of `_get_configured_checks`;
  - the default-filled version information.
- `restart.dfy` (`Restart`): the restart-type reduction of `_update_worker`.
- `resolver.dfy` (`Resolver`):
  - the cache entry and its validity window;
  - the resolution of `_get_current_version` as functions;
  - the `displayVersion` formatting.
- `versions.dfy` (`Versions`): `get_current_versions` as a fold over the
  targets it visits.
- `run.dfy` (`Run`):
  - one target's update step (`_perform_update`);
  - the run state the worker accumulates;
  - the messages that close a run.
- `softwareupdate.dfy` (`SoftwareUpdate`): the plugin object as a class
  `Plugin` whose methods update its fields in place, and the `/update`
  route's guard.
- `pip.dfy` (`Pip`):
  - pip versions and the three version ranges;
  - the argument rewriting;
  - the class `PipCaller`.

Inputs become parameters:

- The version checkers, updaters and restart runner are a datatype
  `Environment` of functions that may answer or raise.
- The host's version, revision and translated name are a datatype `Host`.
- The settings read (`pip_command`, the restart commands), the clock (`now`)
  and the hooks' replies are passed in.
- `_find_pip`'s result is a `Discovery` value.

Messages sent to clients and operations on the settings store are appended
to the sequence fields `messages` and `settingsLog`.

Where the code and the plugin's documented intent differ, the model follows
the code, with one exception: the three defects listed under "## Findings".
There, the code as written is modelled beside a corrected definition, and the
plugin's operations use the corrected one. Each operation affected is named
under "## Left out". The differences the model follows:

- **Cache validity.** The test is `timestamp + ttl >= now > timestamp`. An
  entry exactly `ttl` old is still served. An entry stamped at `now` is not.
- **Unknown update type.** A target without an updater key ends its step
  with no error and no result, even though an `update_failed` message is sent.
  The same `except` clause (`__init__.py:568-571`) also catches an
  `UnknownUpdateType` that the updater's `perform_update` raises (line 564),
  with the same outcome and the same message.
- **Restart reduction.** It runs over every target with a result, including
  failures, ignorable or not (`("failed", ...)` is a result), not only
  successful ones.

## Model

| member | source | states |
|---|---|---|
| Checks.Truthy | src/octoprint/plugins/softwareupdate/__init__.py:483 | Python truthiness of a setting: `None`, `False`, `0` and `""` are false, so `not check["enabled"]` holds exactly for those. |
| Checks.Enabled | src/octoprint/plugins/softwareupdate/__init__.py:483 | A run skips a target exactly when its check has `enabled` with a falsy value. |
| Checks.Ignorable | src/octoprint/plugins/softwareupdate/__init__.py:575 | A failure is ignorable exactly when the check has `ignorable` with a truthy value. |
| Checks.GetVersionChecker | src/octoprint/plugins/softwareupdate/__init__.py:654-675 | A check without `type` gives `ConfigurationInvalid`. Each of the five type names selects its own checker. Any other type value gives `UnknownCheckType`. A selected checker's name is the check's type. |
| Checks.UnknownTypeName | src/octoprint/plugins/softwareupdate/__init__.py:663-675 | A type value outside the five names matches no checker. |
| Checks.GetUpdater | src/octoprint/plugins/softwareupdate/__init__.py:677-692 | An updater is selected exactly when one of the three marker keys is present, with precedence `update_script` > `pip` > `python_updater`; otherwise `UnknownUpdateType`. The check only ever gains `pip_command`. It gains it only for a pip check that lacks one, and always then when the global `pip_command` is not `None`. |
| Checks.GetUpdaterIdempotent | src/octoprint/plugins/softwareupdate/__init__.py:683-688 | Selecting again on the check the first selection left picks the same updater and changes nothing more. |
| Checks.HostRevision | src/octoprint/plugins/softwareupdate/__init__.py:641 | `versions.get("full-revisionid", versions.get("full", "unknown"))`. |
| Checks.IsSubstring | src/octoprint/plugins/softwareupdate/__init__.py:647 | Python's `in` on two strings: the first occurs in the second at some position. `SubstringAt` gives a position that shows it, and `OnlyCommitTypeIsSubstring` which of the five type names occur in `"github_commit"`. |
| Checks.PopulatedCheck | src/octoprint/plugins/softwareupdate/__init__.py:630-652 | Raises exactly for a check without `type`. Otherwise it is a copy of the check with exactly `displayName`, `displayVersion` and `current` set. The host target takes the host's name, `{octoprint_version}` and its revision or version. A plugin target takes its own name and `current`, the latter falling back to `displayVersion` except for `github_commit`. |
| Checks.PopulatedCheckAsWritten | src/octoprint/plugins/softwareupdate/__init__.py:630-652 | The same copy with the `type` test of line 647 taken as a substring test; it succeeds only for a check with a type. |
| Checks.OnlyCommitTypeIsSubstring | src/octoprint/plugins/softwareupdate/__init__.py:647 | Of the five type names only `github_commit` occurs inside `"github_commit"`. |
| Checks.PopulatedCheckAgreesOnKnownTypes | src/octoprint/plugins/softwareupdate/__init__.py:644-650 | For every check whose type is one of the five names, the code as written and the intended test agree. |
| Checks.PopulatedCheckSubstringCounterexample | src/octoprint/plugins/softwareupdate/__init__.py:646-650 | A check of type `"commit"` with a `displayVersion` differs: as written it gets `current = None`; as intended it gets the `displayVersion`. |
| Checks.MergeHookChecks | src/octoprint/plugins/softwareupdate/__init__.py:83-86 | The merged targets are the configured ones plus the contributed ones. A target only one side has keeps that side's check. For a target both have, the configured settings override the contributed ones. |
| Checks.ConfiguredSettingsWin | src/octoprint/plugins/softwareupdate/__init__.py:73-86 | After every hook, every configured target is still present and every configured setting keeps its value. |
| Checks.MergedTargets | src/octoprint/plugins/softwareupdate/__init__.py:75-86 | A target is present after the merge exactly when it is configured or some hook that did not raise contributed it. |
| Checks.WithDefaults | src/octoprint/plugins/softwareupdate/__init__.py:388 | The reported information keeps every reported field. It always has `local` and `remote` names and values, any missing one reading `"unknown"`. |
| Checks.MergeAllHooks | src/octoprint/plugins/softwareupdate/__init__.py:76-86 | The hook loop: each hook that returned merges its checks into the result so far, in order; a hook that raised contributes nothing. No configured target is lost. Its further properties are ConfiguredSettingsWin and MergedTargets. |
| Checks.RemoteVersion | src/octoprint/plugins/softwareupdate/__init__.py:551 | The target version exists exactly when the information has `remote.value`; otherwise the lookup raises. |
| Restart.Declared | src/octoprint/plugins/softwareupdate/__init__.py:494-497 | A check declares its `restart` setting, else `"octoprint"` for a pip check, else nothing. |
| Restart.Adopt | src/octoprint/plugins/softwareupdate/__init__.py:499-501 | An unset aggregate takes the target's type. A set one changes only from `"octoprint"` to `"environment"`. |
| Restart.RestartUnaffected | src/octoprint/plugins/softwareupdate/__init__.py:494-497 | Copying `pip_command` into a check does not change the restart type it declares. |
| Restart.TargetRestart | src/octoprint/plugins/softwareupdate/__init__.py:494-497 | The restart type a result-bearing target contributes in the corrected reduction: the declared one, or `None` when its check declares none. |
| Restart.Reduce | src/octoprint/plugins/softwareupdate/__init__.py:494-501 | The corrected reduction: `Adopt` folded over the result-bearing targets' types in run order. Its result is `None` or the type some target declares. |
| Restart.StateAsWritten | src/octoprint/plugins/softwareupdate/__init__.py:494-501 | The code as written: the aggregate together with the last value bound to `target_restart_type`, carried across iterations; `None` once the unbound name is read. |
| Restart.ReduceAsWritten | src/octoprint/plugins/softwareupdate/__init__.py:494-501 | The restart type as written, or `None` for the UnboundLocalError. Its properties are AsWrittenAgreesWhenBound and AsWrittenRaisesIff. |
| Restart.ReduceIsFirstDeclaredUpgraded | src/octoprint/plugins/softwareupdate/__init__.py:494-501 | The run's restart type is the first one declared. The one exception: a first `"octoprint"` becomes `"environment"` when any target declares `"environment"`. |
| Restart.FirstDeclaredSnoc | src/octoprint/plugins/softwareupdate/__init__.py:499-501 | The first declared type of a longer run is the earlier one, or the new target's if none was declared before. |
| Restart.NoFirstNoEnvironment | src/octoprint/plugins/softwareupdate/__init__.py:499-501 | A run in which no target declares a type has no `"environment"` target. |
| Restart.EnvironmentIsNeverDowngraded | src/octoprint/plugins/softwareupdate/__init__.py:499-501 | Once the aggregate is `"environment"`, no later target changes it. |
| Restart.AsWrittenAgreesWhenBound | src/octoprint/plugins/softwareupdate/__init__.py:494-501 | Whenever the reduction as written does not raise, its aggregate is the intended one. That holds even though `target_restart_type` carries over from earlier iterations. |
| Restart.AsWrittenRaisesIff | src/octoprint/plugins/softwareupdate/__init__.py:494-501 | The code as written raises exactly when the first result-bearing target declares no restart type. |
| Restart.RestartUnboundCounterexample | src/octoprint/plugins/softwareupdate/__init__.py:494-501 | A single `update_script` target without `restart`: as written the run raises; as intended the restart type is `None`. |
| Lists.IndexOf | src/octoprint/plugins/softwareupdate/__init__.py:456 | Python's `list.index`: for a present element, a position holding it. `RemoveFirstSplit` shows it is the first such position. |
| Lists.RemoveFirst | src/octoprint/plugins/softwareupdate/__init__.py:455-456 | Python's `list.remove` on a list holding the element: one element shorter. Python raises `ValueError` for a missing element; both call sites test membership first (`__init__.py:455`, `pip.py:73-75`), so the model returns such a list as it is only to stay total. |
| Lists.RemoveFirstSplit | src/octoprint/plugins/softwareupdate/__init__.py:456 | `list.remove` cuts out exactly the first occurrence: what comes before it, then what comes after it. |
| Lists.RemoveFirstMultiset | src/octoprint/plugins/softwareupdate/__init__.py:456 | `list.remove` takes away exactly one occurrence and keeps every other element's count. |
| Lists.RemoveFirstNoDuplicates | src/octoprint/plugins/softwareupdate/__init__.py:456 | On a list without duplicates, `list.remove` leaves exactly the other elements, still without duplicates. |
| Ordering.SortedFromSet | src/octoprint/plugins/softwareupdate/__init__.py:454 | `sorted(set)` lists exactly the set's elements, in strictly ascending string order. |
| Ordering.SortedListingUnique | src/octoprint/plugins/softwareupdate/__init__.py:454 | Two strictly ascending listings of the same elements are equal, so the sorted listing is unique. |
| Ordering.SortedFromSetIsTheSortedListing | src/octoprint/plugins/softwareupdate/__init__.py:454 | Every strictly ascending listing of a set is `SortedFromSet` of it. |
| Ordering.Eligible | src/octoprint/plugins/softwareupdate/__init__.py:451-454 | `set(check_targets) & set(checks.keys())`, or every configured target when no targets are given. `UpdateOrder` lists exactly these. |
| Ordering.UpdateOrder | src/octoprint/plugins/softwareupdate/__init__.py:451-458 | The order lists exactly the requested targets that are configured (every configured target when none is requested), each once. `octoprint`, when present, comes first. The rest are in ascending order. |
| Ordering.HostMovedFirst | src/octoprint/plugins/softwareupdate/__init__.py:455-458 | Moving `octoprint` to the front of a sorted listing keeps the elements, without duplicates, and leaves the rest sorted. |
| Ordering.RemovalKeepsSorted | src/octoprint/plugins/softwareupdate/__init__.py:456 | `list.remove` on a strictly ascending listing keeps it strictly ascending. |
| Ordering.LexLess | src/octoprint/plugins/softwareupdate/__init__.py:454 | Python's `<` on `str`: code point by code point, with a proper prefix first. It is irreflexive, transitive and total. |
| Ordering.LexTransitive | src/octoprint/plugins/softwareupdate/__init__.py:454 | Python's string order is transitive. |
| Ordering.LexTotal | src/octoprint/plugins/softwareupdate/__init__.py:454 | Python's string order is total. |
| Resolver.CacheValid | src/octoprint/plugins/softwareupdate/__init__.py:415 | The freshness test `timestamp + ttl >= now > timestamp`. |
| Resolver.CacheHit | src/octoprint/plugins/softwareupdate/__init__.py:413-417 | The cache answers exactly when the target is cached, `force` is off and `timestamp + ttl >= now > timestamp`; it answers with the stored entry unchanged. |
| Resolver.EntryServedWithinWindow | src/octoprint/plugins/softwareupdate/__init__.py:413-417 | A stored entry is served exactly inside its window. It is not served at its own timestamp. It is still served exactly `ttl` later when `ttl` is positive. |
| Resolver.CheckerAnswer | src/octoprint/plugins/softwareupdate/__init__.py:422-432 | The checker answers exactly when the check selects one and that checker does not raise. |
| Resolver.UpdaterCapable | src/octoprint/plugins/softwareupdate/__init__.py:434-438 | The update is possible exactly when an updater is selected and its `can_perform_update` answers true; no updater, or a raise, makes it false. |
| Resolver.Resolve | src/octoprint/plugins/softwareupdate/__init__.py:419-438 | A missing, unknown or raising checker gives empty information and neither an available nor a possible update. Otherwise the update is available exactly when there is information that is not current. It is possible exactly when the selected updater says so without raising. The check only gains `pip_command`. |
| Resolver.LookupVersion | src/octoprint/plugins/softwareupdate/__init__.py:408-442 | A dirty-making store happens exactly when the cache does not answer. A store sets the target's entry to `now` and the fresh resolution. No other entry changes. |
| Resolver.CachedAnswerIgnoresCollaborators | src/octoprint/plugins/softwareupdate/__init__.py:413-417 | An answer from the cache is the same whatever the checkers and updaters would say. |
| Resolver.StoredResolutionIsServedLater | src/octoprint/plugins/softwareupdate/__init__.py:413-442 | A resolution stored at `now` is served unchanged to an unforced lookup at any later instant up to `now + ttl`. |
| Resolver.LookupLocal | src/octoprint/plugins/softwareupdate/__init__.py:408-442 | A lookup depends on the cache only through the target's own entry. |
| Resolver.Render | src/octoprint/plugins/softwareupdate/__init__.py:402 | `str()` of a setting as `str.format` inserts it: `None`, `True`/`False`, decimal numbers and text itself. |
| Resolver.FormatDisplayVersion | src/octoprint/plugins/softwareupdate/__init__.py:402 | `str.format` with the three keyword fields. A doubled brace stands for one brace, and `{name}` for the named value. A lone `}`, an unclosed field or an unknown name fails. |
| Resolver.FormatWithoutBraces | src/octoprint/plugins/softwareupdate/__init__.py:402 | A display-version template without braces formats to itself. |
| Resolver.FormatSinglePlaceholder | src/octoprint/plugins/softwareupdate/__init__.py:402 | The template `{name}` formats to the named value, and fails for a name the call does not supply. |
| Resolver.FormatHostDefault | src/octoprint/plugins/softwareupdate/__init__.py:402 | The host's default `{octoprint_version}` shows the running version. |
| Versions.TargetReport | src/octoprint/plugins/softwareupdate/__init__.py:382-402 | One target's report entry from its resolution. Its meaning is TargetReportMeaning. |
| Versions.TargetReportMeaning | src/octoprint/plugins/softwareupdate/__init__.py:378-402 | A target is left out of the report exactly when it has no information. Otherwise its entry carries its information with the defaults, both flags, its display name and its formatted display version. A display version that is no string raises. What raises names the target. |
| Versions.AggregateExtend | src/octoprint/plugins/softwareupdate/__init__.py:390-391 | Adding an entry ors its availability into `update_available`. It ors availability-and-possibility into `update_possible`. |
| Versions.TargetLookup | src/octoprint/plugins/softwareupdate/__init__.py:378-381 | A configured target's lookup through the cache, made with its populated check, as `_get_current_version` is called at line 381. `StepMeaning` states what it gives. |
| Versions.TargetStep | src/octoprint/plugins/softwareupdate/__init__.py:374-402 | One visited target: without `type` it raises before the cache is consulted; otherwise it is resolved through the cache with its populated check and reported. Its meaning is StepMeaning and StepErrorTarget. |
| Versions.AbsorbAll | src/octoprint/plugins/softwareupdate/__init__.py:370-403 | The loop of `get_current_versions` as a fold: a stored entry replaces the target's and marks the cache dirty, a report entry is added and or-ed into the flags, and nothing changes after something raised. Its meaning is VersionsMeaning, VersionsErrorMeaning and VisitAggregates. |
| Versions.StepMeaning | src/octoprint/plugins/softwareupdate/__init__.py:378-402 | A visited target's outcome is its lookup with the populated check: the stored entry is the lookup's, and the report entry is made from the lookup's resolution. |
| Versions.StepErrorTarget | src/octoprint/plugins/softwareupdate/__init__.py:378 | A target raises `MissingCheckType` exactly when its check has no `type`, and whatever it raises names it. |
| Versions.StepLocal | src/octoprint/plugins/softwareupdate/__init__.py:374-402 | A target's outcome depends on the cache only through its own entry. |
| Versions.VisitAggregates | src/octoprint/plugins/softwareupdate/__init__.py:370-391 | The two flags of the fold are the existential aggregates over the reported entries. |
| Versions.VisitOutcomes | src/octoprint/plugins/softwareupdate/__init__.py:374-403 | When nothing raised, every visited target's entry and cache slot are those of its own step. |
| Versions.VersionsMeaning | src/octoprint/plugins/softwareupdate/__init__.py:358-406 | When nothing raised, each visited target was resolved with its populated check against the cache as it was. Its cache entry is that resolution's. It is reported exactly when it has information, and its entry reflects the resolution. A new entry leaves the cache dirty. |
| Versions.VersionsErrorMeaning | src/octoprint/plugins/softwareupdate/__init__.py:358-406 | What the call raises comes from a visited target. Either that target's check has no `type`, or its report entry fails to build. |
| Run.PerformStep | src/octoprint/plugins/softwareupdate/__init__.py:540-603 | A target neither available nor forced, or not possible, gives `(False, None)`. It raises when the information has no remote version or the check no `type`. The step is an error exactly when it failed and the check is not ignorable. A result requires a selected updater. A success sends one `updating` message, loads the settings, and records the new `current` exactly for `github_commit`. An unknown update type sends `updating` then `update_failed` and gives no result. That includes a `perform_update` that raises `UnknownUpdateType` (lines 564 and 568-571). |
| Run.UpdaterStep | src/octoprint/plugins/softwareupdate/__init__.py:559-603 | From the `updating` message on: no result exactly when no updater is selected or the selected updater's `perform_update` raises `UnknownUpdateType`. Then come the error, result, message and settings rules above. |
| Run.UnknownUpdateTypeIsNoError | src/octoprint/plugins/softwareupdate/__init__.py:560-571 | Without an updater the step has neither an error nor a result. |
| Run.StepAgainstCheck | src/octoprint/plugins/softwareupdate/__init__.py:560-587 | Stated against the configured check, the step's check only gains `pip_command`. It is an error exactly when it failed on a check that is not ignorable. |
| Run.StepIsValidAttempt | src/octoprint/plugins/softwareupdate/__init__.py:478-492 | A step the worker performs on a configured, enabled target is a valid attempt of the run. |
| Run.Record | src/octoprint/plugins/softwareupdate/__init__.py:489-501 | One attempt in the worker's loop: its check is kept, its error or-ed in, and a result stored under its target. The target's restart type is adopted by the corrected reduction of the second finding (`Restart.TargetRestart`), not the carried binding of lines 494-497. |
| Run.RecordAll | src/octoprint/plugins/softwareupdate/__init__.py:478-501 | The worker's loop as a fold of `Record` over the attempts in order, so with the corrected restart reduction. Its meaning is RecordAllError, RecordAllResults, RecordAllRestart and ErrorMeansUnignorableFailure. |
| Run.AppendAttempt | src/octoprint/plugins/softwareupdate/__init__.py:478-501 | One more attempt extends the run state, the messages and the settings operations by that attempt's. |
| Run.PlacedDistinct | src/octoprint/plugins/softwareupdate/__init__.py:478-489 | Attempts made in list order are for targets of the list, and for distinct targets when the list has no duplicates. |
| Run.SucceededResultAttempted | src/octoprint/plugins/softwareupdate/__init__.py:489-492 | A success stored in the run's results comes from an attempt of that target whose update succeeded. |
| Run.RunCacheOutcome | src/octoprint/plugins/softwareupdate/__init__.py:600-601 | The cache after a run: no target with a successful result has an entry, in memory or, after a run that finished without error, in the persisted copy; and a success left unsaved marks the cache dirty. `SucceededResultsGone` derives its first part from the attempts. |
| Run.SucceededResultsGone | src/octoprint/plugins/softwareupdate/__init__.py:600-601 | When no succeeded attempt's target has a cache entry, no target whose stored result is a success has one. |
| Run.RestartCommand | src/octoprint/plugins/softwareupdate/__init__.py:522-525 | The command of the restart type: `serverRestartCommand` for "octoprint", `systemRestartCommand` otherwise. It is used only for "octoprint" and "environment", as `RunMessages` shows. |
| Run.RecordAllChecks | src/octoprint/plugins/softwareupdate/__init__.py:683-688 | Over a run the checks keep their targets and only gain `pip_command`. |
| Run.RecordAllResults | src/octoprint/plugins/softwareupdate/__init__.py:489-492 | `target_results` holds exactly the targets whose attempt had a result. All of them are configured and enabled. |
| Run.RecordAllError | src/octoprint/plugins/softwareupdate/__init__.py:489-490 | The run's error is set exactly when some attempt was an error. |
| Run.RecordAllRestart | src/octoprint/plugins/softwareupdate/__init__.py:491-501 | The run's restart type is the reduction over the checks of the result-bearing targets, in run order. |
| Run.ErrorMeansUnignorableFailure | src/octoprint/plugins/softwareupdate/__init__.py:489-492 | With each target attempted once, the run's error is set exactly when some stored result is a failure of a target that is not ignorable. |
| Run.RecordKeepsErrorMeaning | src/octoprint/plugins/softwareupdate/__init__.py:489-492 | One more attempt for a target without a result keeps the error tied to the unignorable failures. |
| Run.UnattemptedHasNoResult | src/octoprint/plugins/softwareupdate/__init__.py:491-492 | A target never attempted has no result. |
| Run.ReduceSnoc | src/octoprint/plugins/softwareupdate/__init__.py:499-501 | One more result-bearing target adopts its restart type into the aggregate. |
| Run.RunMessages | src/octoprint/plugins/softwareupdate/__init__.py:510-538 | An error sends `error`. An `"octoprint"` or `"environment"` restart sends `restarting` when its command is configured, then `restart_failed` exactly when the command fails. It sends `restart_manually` when the command is not configured. Anything else sends `success`. |
| Run.WantedTargetsMembers | src/octoprint/plugins/softwareupdate/__init__.py:478-485 | The wanted targets of a list are exactly its members that are configured and not disabled, the ones the loop does not skip. |
| Run.UpdateStepLocal | src/octoprint/plugins/softwareupdate/__init__.py:413-417 | `_perform_update`'s lookup reads the cache only at its own target, so the step depends on the cache only through that entry. |
| Run.StepAsAtStart | src/octoprint/plugins/softwareupdate/__init__.py:478-488 | On a list without duplicates, a target not yet reached still has its configured check in the run state, and its step against the cache now is its step against the cache at the run's start. |
| Run.UnattemptedKeepsCheck | src/octoprint/plugins/softwareupdate/__init__.py:478-492 | A target no attempt was made for keeps its configured check in the run state. |
| Run.NextWithoutDuplicates | src/octoprint/plugins/softwareupdate/__init__.py:478-488 | On a list without duplicates, the step taken at the next position is the one the cache at the run's start leads to. So a raise there is that step's, the new attempt is performed against the start, and no succeeded target keeps a cache entry. |
| Run.AdvanceAppend | src/octoprint/plugins/softwareupdate/__init__.py:486-492 | An attempted target extends the attempts, the fold, the logs and the placement by one, and the attempted targets remain the wanted ones up to the next position. |
| Run.RunCoverageAtEnd | src/octoprint/plugins/softwareupdate/__init__.py:478-488 | What the loop keeps at its exit gives `RunCoverage`: a finished loop reached the end of the list, so its attempts cover all wanted targets of the list. |
| SoftwareUpdate.CacheUsable | src/octoprint/plugins/softwareupdate/__init__.py:102-114 | A loaded cache is used only when its host entry has a local version equal to the running one. |
| SoftwareUpdate.MergeHook | src/octoprint/plugins/softwareupdate/__init__.py:83-86 | The loop over one hook's checks yields the contributed targets merged with the configured ones; untouched targets keep their checks. |
| SoftwareUpdate.MergeHookChecksPointwise | src/octoprint/plugins/softwareupdate/__init__.py:83-86 | The loop's result is `MergeHookChecks` of the two maps. |
| SoftwareUpdate.DisplayNames | src/octoprint/plugins/softwareupdate/__init__.py:464 | The returned names cover exactly the ordered targets. Each is the check's `displayName`, or the target itself when it has none. |
| SoftwareUpdate.DisplayNamesIgnorePipCommand | src/octoprint/plugins/softwareupdate/__init__.py:464 | Checks that only gained `pip_command` show the same display names. |
| SoftwareUpdate.UpdateRequestRejection | src/octoprint/plugins/softwareupdate/__init__.py:316-322 | 409 exactly while printing or paused. 400 exactly otherwise for a content type without `application/json`. No rejection otherwise. |
| SoftwareUpdate.Plugin.constructor | src/octoprint/plugins/softwareupdate/__init__.py:35-45 | Nothing cached, not dirty, no checks loaded, no run in progress. |
| SoftwareUpdate.Plugin.Initialize | src/octoprint/plugins/softwareupdate/__init__.py:48-53 | The time to live is the configured minutes times 60. A usable cache file replaces the cache and clears the dirty flag; otherwise the cache is kept. |
| SoftwareUpdate.Plugin.LoadVersionCache | src/octoprint/plugins/softwareupdate/__init__.py:90-118 | Only a found, usable cache file replaces the cache, and then the cache is not dirty. Anything else leaves both as they were. |
| SoftwareUpdate.Plugin.SaveVersionCache | src/octoprint/plugins/softwareupdate/__init__.py:120-138 | The persisted cache becomes the current one and the cache is no longer dirty. |
| SoftwareUpdate.Plugin.RefreshChecks | src/octoprint/plugins/softwareupdate/__init__.py:55-57 | The checks are marked for re-reading and an `update_versions` message is sent. |
| SoftwareUpdate.Plugin.GetConfiguredChecks | src/octoprint/plugins/softwareupdate/__init__.py:71-88 | When refresh is requested or nothing is loaded, the checks are re-read and merged with every hook's, and the refresh flag is cleared. Otherwise the loaded checks are returned unchanged. |
| SoftwareUpdate.Plugin.GetCurrentVersion | src/octoprint/plugins/softwareupdate/__init__.py:408-442 | The answer and the new cache are those of `LookupVersion`. The cache becomes dirty exactly when an entry was stored. |
| SoftwareUpdate.Plugin.ReportTarget | src/octoprint/plugins/softwareupdate/__init__.py:378-402 | One visited target: its populated check is resolved through the cache and reported, as `TargetStep` specifies. |
| SoftwareUpdate.Plugin.VisitTarget | src/octoprint/plugins/softwareupdate/__init__.py:374-403 | One pass of the loop extends the recorded visits by the target's step against the original cache, and the state by that visit. |
| SoftwareUpdate.Plugin.VisitTargets | src/octoprint/plugins/softwareupdate/__init__.py:374-405 | Every configured target asked for is visited once, until one raises. The report, flags and cache are the fold of the visits. A dirty cache is written out when nothing raised. |
| SoftwareUpdate.Plugin.GetCurrentVersions | src/octoprint/plugins/softwareupdate/__init__.py:358-406 | The checks come from `_get_configured_checks`. The visits are eligible targets, each once, and all of them when nothing raised. The report is the fold of their steps. A dirty cache is written out before returning. |
| SoftwareUpdate.Plugin.PerformUpdate | src/octoprint/plugins/softwareupdate/__init__.py:540-603 | The target is resolved unforced through the cache and stepped. A success deletes only that target's entry and marks the cache dirty. The step's messages and settings operations are appended. |
| SoftwareUpdate.Plugin.ApplyStep | src/octoprint/plugins/softwareupdate/__init__.py:585-603 | A successful step deletes the target's cache entry and sets the dirty flag; other steps leave the cache alone. |
| SoftwareUpdate.Plugin.UpdateTarget | src/octoprint/plugins/softwareupdate/__init__.py:478-501 | A target that is not configured, or is disabled, is skipped, and the cache, its dirty flag, the messages and the settings log stay as they were. Any other target raises exactly when `_perform_update`, done with the unforced lookup against the cache as it was (line 541), raises (`Run.UpdateStepOf`). Otherwise that step is recorded as a valid attempt, with its messages and settings operations appended. A successful update leaves the target without a cache entry and the cache dirty (lines 600-601). No other target's entry changes, and a dirty cache stays dirty. |
| SoftwareUpdate.Plugin.UpdateNext | src/octoprint/plugins/softwareupdate/__init__.py:478-501 | One pass of the worker's loop keeps what the loop promises. The attempts stay valid and placed at increasing positions, and their targets are exactly the wanted targets (configured, not disabled) of the list up to the next position, in list order. The run state is their fold, and the logs are theirs after what came before. Only the current target's cache entry can change. The position advances unless the step raised, and a raise happens only at a wanted target. For a list without duplicates, every attempt's step and any raise are those of `_perform_update` against the cache at the start of the run, and no target whose update succeeded keeps its entry. A success marks the cache dirty. |
| SoftwareUpdate.Plugin.UpdateTargets | src/octoprint/plugins/softwareupdate/__init__.py:470-501 | `RunCoverage` holds. A finished loop went through the whole list and attempted exactly its wanted targets, in list order. A loop that stopped did so at a wanted target, after attempting exactly the wanted targets before it. For a list without duplicates, that target's step raises, and every attempt's step is `_perform_update` against the cache at the start of the run. The run state is the fold of the attempts; messages and settings operations are the attempts' in order. Targets not in the list keep their cache entries. For a list without duplicates, no target whose update succeeded has a cache entry afterwards. Any success leaves the cache dirty. |
| SoftwareUpdate.Plugin.UpdateWorker | src/octoprint/plugins/softwareupdate/__init__.py:466-538 | The loop's `RunCoverage` over the list, stated against the cache as the worker found it. However the run ends, the settings are saved and `update_in_progress` is false. A run that did not raise sends the closing messages. The cache is persisted exactly when the run finished without error. For a list without duplicates, `RunCacheOutcome` holds: no target with a successful result has an entry in the cache, nor in the persisted copy after a run that finished without error, and a success left unsaved marks the cache dirty. The worker is handed the configured checks themselves, as `perform_updates` does (`__init__.py:460`). So afterwards the configured checks are the run's checks: the same targets, each having gained at most `pip_command`. |
| SoftwareUpdate.Plugin.PerformUpdates | src/octoprint/plugins/softwareupdate/__init__.py:444-464 | The checks are the configured ones: stored settings merged with the hooks when a refresh is due, the cached ones otherwise. The order is `UpdateOrder` of the request and those checks. The names are the ordered targets' display names. `RunCoverage` holds over that order, so a finished run attempted exactly the eligible targets that are configured and not disabled, in the update order, each with the step `_perform_update` takes against the cache as it was. A run that stopped did so at such a target whose step raises. The worker's attempts are distinct, each for an eligible target, and its state is their fold. The settings log gains the steps' settings and one save. The messages gain the steps' messages, and a closing one when the run finished. The cache is persisted only after a run that finished without error. `RunCacheOutcome` holds: no target whose update succeeded has an entry in the cache or in the persisted copy, and a success left unsaved marks the cache dirty. The worker runs on the configured checks themselves, so afterwards they are the run's checks: the same targets, each having gained at most the `pip_command` that `_get_updater` copied in (lines 686-687). |
| SoftwareUpdate.Plugin.UpdateInOrder | src/octoprint/plugins/softwareupdate/__init__.py:451-464 | The part of `perform_updates` after the checks are read: the order is `UpdateOrder`, the names are its targets' display names, and the worker's facts hold over that order, so a finished run attempted exactly the eligible, wanted targets. |
| SoftwareUpdate.Plugin.UpdateTargetAt | src/octoprint/plugins/softwareupdate/__init__.py:478-488 | `UpdateTarget` at a position of the list in the middle of a run: a skip exactly for a target that is not wanted, a raise only at a wanted one, and for a list without duplicates the step and any raise are those the cache at the run's start leads to. |
| SoftwareUpdate.Plugin.FinishRun | src/octoprint/plugins/softwareupdate/__init__.py:502-538 | The `finally` block and what follows: the settings are saved, `update_in_progress` is cleared, a finished run sends its closing messages, and the cache is persisted exactly after a run that finished without error. |
| SoftwareUpdate.OrderedRun | src/octoprint/plugins/softwareupdate/__init__.py:451-457 | A run over the update order attempts only eligible targets. When it finished, it attempted exactly the eligible targets that are configured and not disabled. |
| SoftwareUpdate.NamesOfOrder | src/octoprint/plugins/softwareupdate/__init__.py:464 | The response's display names are given for exactly the eligible targets. |
| SoftwareUpdate.Plugin.UpdateRequest | src/octoprint/plugins/softwareupdate/__init__.py:316-337 | A request while printing or paused gets 409, and one without JSON content gets 400; both change nothing and attempt nothing. Otherwise the updates run, and the response is the order and the display names. The run's checks are the configured ones, its attempts are distinct and each for an eligible target, and `RunCoverage` holds over the returned order: a finished run attempted exactly the eligible targets that are configured and not disabled, in that order. |
| Pip.Cmp | src/octoprint/util/pip.py:39-49 | The release comparison is a three-way sign. |
| Pip.CmpAntisymmetric | src/octoprint/util/pip.py:39-49 | Swapping the operands negates the comparison. |
| Pip.CmpTransitive | src/octoprint/util/pip.py:39-49 | `<=` on releases is transitive. |
| Pip.CmpZeroPadding | src/octoprint/util/pip.py:22-24 | A trailing zero segment does not change a release, so `1.5` equals `1.5.0`. |
| Pip.InProcessDependencyLinksRange | src/octoprint/util/pip.py:22 | `pip>=1.5`, as intended: a known release at least 1.5. |
| Pip.IsNoUseWheelVersion | src/octoprint/util/pip.py:23 | `pip==1.5.0`, as intended: a known release equal to 1.5.0, trailing zeros aside. |
| Pip.VersionLe | src/octoprint/util/pip.py:39-46 | `<=` of two known versions by their releases; `>=` swaps the operands. |
| Pip.VersionLt | src/octoprint/util/pip.py:42-49 | `<` of two known versions by their releases; `>` swaps the operands. |
| Pip.RangeExamples | src/octoprint/util/pip.py:22-24 | Worked points of the three ranges (`pip>=1.5`, `pip==1.5.0`, `pip>=6.0.1,<=6.0.3`). An unknown version lies in none of them. |
| Pip.DropLinks | src/octoprint/util/pip.py:72-75 | The corrected first step of an `install`: outside `pip>=1.5` the first `--process-dependency-links` is removed, otherwise the arguments are kept. `DropLinksKeepsOthers` characterises it. |
| Pip.RewriteArgs | src/octoprint/util/pip.py:71-78 | The corrected rewriting of an `install`. Its properties are RewriteWithoutInstall, RewriteProcessDependencyLinks and RewriteNoUseWheel. |
| Pip.RewriteArgsAsWritten | src/octoprint/util/pip.py:71-78 | The rewriting as written, whatever the version: an `install` loses its first `--process-dependency-links`, and any other argument list is left as it is. |
| Pip.DropLinksKeepsOthers | src/octoprint/util/pip.py:72-75 | Dropping `--process-dependency-links` leaves every other argument's count unchanged. |
| Pip.RewriteArgsAsWrittenCounterexample | src/octoprint/util/pip.py:22-78 | For pip 1.5.0 and `install --process-dependency-links`, as written the flag is dropped and `--no-use-wheel` is not added. As intended the flag is kept and `--no-use-wheel` is appended. |
| Pip.RewriteWithoutInstall | src/octoprint/util/pip.py:71-81 | Without `install` the arguments pass through unchanged and in order. |
| Pip.RewriteProcessDependencyLinks | src/octoprint/util/pip.py:72-75 | For an `install`, `--process-dependency-links` loses one occurrence when the version is outside `pip>=1.5`, and keeps its count otherwise. |
| Pip.RewriteNoUseWheel | src/octoprint/util/pip.py:76-78 | For an `install` without the flag, `--no-use-wheel` is appended exactly for pip 1.5.0, and then occurs once. A flag already present keeps its count. |
| Pip.PipCaller.constructor | src/octoprint/util/pip.py:26-37 | The command and version are the discovered ones; no refresh pending. |
| Pip.PipCaller.Execute | src/octoprint/util/pip.py:63-81 | A pending refresh re-discovers command and version and is cleared. The call fails with `UnknownPip` exactly when there is no command, and then nothing is called. Otherwise the command line `[command] + RewriteArgs(args, version)` is called. |
| Pip.PipCaller.Available | src/octoprint/util/pip.py:59-61 | `available`: exactly when a pip command is known. |
| Pip.PipCaller.Le | src/octoprint/util/pip.py:39-40 | `<=`: a version is known and it is at most `other`. |
| Pip.PipCaller.Lt | src/octoprint/util/pip.py:42-43 | `<`: a version is known and it is below `other`. |
| Pip.PipCaller.Ge | src/octoprint/util/pip.py:45-46 | `>=`: a version is known and it is at least `other`. |
| Pip.PipCaller.Gt | src/octoprint/util/pip.py:48-49 | `>`: a version is known and it is above `other`. |
| Pip.ComparisonsComplementary | src/octoprint/util/pip.py:39-61 | Without a version every comparison is false. With one, `<=` and `>` are complementary, as are `<` and `>=`, and `<=` with `>=` means equal. |
| Pip.LeIsOrder | src/octoprint/util/pip.py:39-40 | With a version, `<=` is reflexive and transitive. |

## Left out

- The routes other than the `/update` guard and the response of `/update`
  (`__init__.py:293-311`, the `/check` route): request plumbing.
- `SoftwareUpdate.Plugin.UpdateRequest`: it takes the requested targets and
  `force` as already parsed, so it does not model `str.strip` on the targets
  or the `valid_boolean_trues` lookup.
- The worker thread and the checks mutex: the worker runs as a direct,
  sequential call of `PerformUpdates`.
- YAML and temporary-file I/O of loading and saving the cache. A cache file
  is a value that is missing, unreadable or found. Saving records the cache
  as persisted.
- `SoftwareUpdate.CacheUsable`: cache entries are typed, so the
  `len(...) == 4` test of `__init__.py:102` has no counterpart.
- The settings defaults, settings load/save callbacks, migration and
  `_clean_settings_check` (`__init__.py:140-289`): these are settings-store
  plumbing. The settings store itself is an append-only log of operations.
- The `version_checks` and `updaters` modules, `util.execute` and
  `_perform_restart`: these are modules this model does not contain. They are
  functions in `Environment` that answer or raise.
- Logging and the console log callback `_log`: side channels. Client
  messages are modelled as the `messages` sequence.
- `_find_pip` (`pip.py:83-151`): filesystem and subprocess probing. Its
  result is the `Discovery` parameter. Its broken-version test at line 147
  uses the same always-false generator membership as the finding below; it
  is not part of this model. The configured command that `__init__` stores
  (`pip.py:30`) is read only by `_find_pip` (line 84). So it enters the model
  through the `Discovery` value and is not a field of `Pip.PipCaller`.
- `Pip.PipCaller.Execute`: it returns the command line handed to `call`, not
  the process result, because process spawning is outside the model.
- `Pip.PipCaller.Execute`: it rewrites the arguments with the corrected
  `Pip.RewriteArgs` (the third finding), not with the always-false
  membership tests of `pip.py:73-76`. So for a version in a range it keeps
  `--process-dependency-links` or adds `--no-use-wheel`, where the code as
  written drops the first and never adds the second. The code as written is
  `Pip.RewriteArgsAsWritten`.
- `Pip.Cmp`: versions are release segments only, so pre-, post- and
  development releases of version parsing are not modelled.
- `Resolver.LookupVersion`: one clock value `now` serves both the freshness
  test and the new timestamp, where the source reads the clock twice.
- `SoftwareUpdate.Plugin.VisitTargets`: one clock value `now` serves every
  target of a `get_current_versions` call. The source reads `time.time()`
  again for each target (`__init__.py:415` and `:440`), so a cache entry that
  expires during the call is not modelled.
- `Resolver.CacheValid`: `time.time()` is a floating-point number, so
  `timestamp + ttl` at `__init__.py:415` is rounded to a double. The model
  compares exact `real` values, so an entry whose window edge falls between
  two doubles may be served by one and not by the other.
- `SoftwareUpdate.Plugin.UpdateTargets`: one clock value `now` serves every
  target of an update run, where `_perform_update` reads the clock afresh for
  each target through `_get_current_version`. The same holds for
  `SoftwareUpdate.Plugin.UpdateWorker` and `SoftwareUpdate.Plugin.PerformUpdates`,
  which pass their `now` down.
- `Resolver.FormatDisplayVersion`: it handles replacement fields by name only.
  Conversions, format specifications and attribute or index access in
  `str.format` are not modelled; a template using them counts as failing.
- `SoftwareUpdate.Plugin.VisitTargets`: the order in which a Python dict is
  iterated is not fixed. The visits may come in any order, and the contract
  holds for every one.

- The plugin's operations use the corrected half of each finding, so the
  failure each finding's code raises or the value it computes wrongly is not
  part of their contracts. The members these lines name are affected; the
  code as written is modelled beside them, in the members named in the
  table below.
- `Versions.TargetStep`: it populates the check with the corrected
  `Checks.PopulatedCheck` (the first finding). So a non-host check whose
  `type` is not text is resolved, where `__init__.py:647` as written raises
  `TypeError` out of `get_current_versions`. A check of type `"commit"` keeps
  its `displayVersion` fallback for `current`.
- `Versions.StepErrorTarget`: it is about `Versions.TargetStep`, so the
  `TypeError` of the first finding is not among the errors it accounts for.
- `Versions.VersionsErrorMeaning`: the same holds. What
  `get_current_versions` raises is a missing `type` or an entry that does not
  format, never the `TypeError` of line 647.
- `Run.PerformStep`: it populates the check with the corrected
  `Checks.PopulatedCheck` at `__init__.py:556`. So a non-host check whose
  `type` is not text does not raise `TypeError` out of the worker.
- `SoftwareUpdate.Plugin.ReportTarget`: the same holds for the entry it
  reports to `get_current_versions` (`__init__.py:378`).
- `Run.RecordAllRestart`: it folds the corrected `Restart.Adopt` over
  `Restart.TargetRestart` (the second finding). A result-bearing target that
  declares no restart type contributes none. The code as written reuses the
  previous target's `target_restart_type` instead, or raises
  `UnboundLocalError` at `__init__.py:500-501` when there is none.
- `SoftwareUpdate.Plugin.UpdateTarget`: it records its attempt with that
  corrected reduction.
- `SoftwareUpdate.Plugin.UpdateTargets`: the same holds. When the code as
  written raises `UnboundLocalError`, the model goes on with the run.
- `SoftwareUpdate.Plugin.UpdateWorker`: the same holds. Where the code as
  written raises after saving the settings and sends no closing message, the
  model sends the closing message of a finished run. `Restart.ReduceAsWritten`
  and `Restart.RestartUnboundCounterexample` model the code as written.
- `SoftwareUpdate.Plugin.UpdateTargets`: for a list with duplicates, its
  contract does not tie a step to the cache at the start of the run, since an
  earlier step for the same target may have changed that entry. The update
  order of `perform_updates` has no duplicates, so `PerformUpdates` and
  `UpdateRequest` always get the full statement.
- `SoftwareUpdate.Plugin.PerformUpdates`: when a target raises after
  `_get_updater` copied `pip_command` into its check, the copy is not kept.
  That happens when the copy comes from a fresh resolution (`__init__.py:435`)
  and `information["remote"]["value"]` then raises (line 551). The checks of
  the steps that did not raise are kept.
- `Checks.MergeHookChecks`: `dict_merge` (`__init__.py:85`) merges nested
  dictionaries recursively. Check values here are flat, so the merge of a
  key both sides have is the one-level `contributed[k] + configured[k]`. A
  nested setting that a hook and the user both give in part is not modelled.
- `Checks.MergeAllHooks`: a hook reply is either a dictionary of checks or
  a raise (`Checks.HookReply`). A hook that returns something else, such as
  `None`, makes `hook_checks.items()` (`__init__.py:83`) raise outside the
  `try`, and that case is not modelled. In the code the refresh flag is then
  already cleared (line 74) and `_configured_checks` already replaced (line
  75), so the checks merged before that hook stay in use by later calls.
- `SoftwareUpdate.Plugin.GetConfiguredChecks`: for the same reason it never
  raises. Its callers `get_current_versions` and `perform_updates` would pass
  that raise on to their own callers.
- `Run.Record`: it adopts the restart type of the corrected
  `Restart.TargetRestart`, not the `target_restart_type` carried over from an
  earlier iteration, and never raises `UnboundLocalError` at
  `__init__.py:500-501`.
- `Run.RecordAll`: it folds `Run.Record`, so the same holds for every result.

## Findings

| source | as written | input that shows it | evidently intended | confidence | as-written member | corrected member |
|---|---|---|---|---|---|---|
| src/octoprint/plugins/softwareupdate/__init__.py:647 | `check["type"] in ("github_commit")` tests whether the type is a substring of `"github_commit"`, because `("github_commit")` is a string, not a tuple | a plugin check `{"type": "commit", "displayVersion": "1.0"}` gets `current = None` instead of `"1.0"` | `check["type"] == "github_commit"` | not executed | Checks.PopulatedCheckAsWritten, Checks.PopulatedCheckSubstringCounterexample | Checks.PopulatedCheck |
| src/octoprint/plugins/softwareupdate/__init__.py:494-501 | `target_restart_type` is bound only for a check with `restart` or `pip`, and is reused from an earlier iteration otherwise | a single `update_script` target without `restart` whose update succeeds: after the settings are saved, the worker raises `UnboundLocalError` and sends no closing message | a target declaring no restart type contributes none | not executed | Restart.ReduceAsWritten, Restart.RestartUnboundCounterexample | Restart.Reduce |
| src/octoprint/util/pip.py:22-24 | the ranges are generators from `parse_requirements`; `version in generator` at lines 73 and 76 compares the version with requirement objects and is never true | pip 1.5.0 with `install --process-dependency-links`: the flag is removed and `--no-use-wheel` is not added | membership of the version in the requirement's range | not executed | Pip.RewriteArgsAsWritten, Pip.RewriteArgsAsWrittenCounterexample | Pip.RewriteArgs |
