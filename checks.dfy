/**
 * Check configurations of the Software Update plugin and the pure rules over
 * them: which version checker and which updater a configuration selects
 * (`_get_version_checker`, `_get_updater`), the populated copy handed to
 * updaters (`_populated_check`) and the merge of plugin-contributed checks
 * into the configured ones (`_get_configured_checks`).
 */
module Checks {
  import opened Wrappers
  import Ordering

  /** A scalar stored in a configuration; `Null` is Python's `None`. */
  datatype Value = Null | Text(s: string) | Flag(b: bool) | Number(n: int)

  /** A check configuration: a dictionary from setting name to value. */
  type Check = map<string, Value>

  /** Version information, e.g. {"local": {"name": .., "value": ..}, "remote": {..}}. */
  type Info = map<string, map<string, Value>>

  /** Python truthiness of a configured value. */
  predicate Truthy(v: Value) {
    match v
    case Null => false
    case Text(s) => s != ""
    case Flag(b) => b
    case Number(n) => n != 0
  }

  /** `check.get(key, default)`. */
  function Get(check: Check, key: string, default: Value): Value {
    if key in check then check[key] else default
  }

  /** A target is skipped by a run when its check says `enabled` and that value is falsy. */
  predicate Enabled(check: Check) {
    !("enabled" in check && !Truthy(check["enabled"]))
  }

  /** A failed update of this target does not make the whole run fail. */
  predicate Ignorable(check: Check) {
    "ignorable" in check && Truthy(check["ignorable"])
  }

  /** `check["type"] == "github_commit"`, for a check that has a type. */
  predicate IsCommitCheck(check: Check) {
    "type" in check && check["type"] == Text("github_commit")
  }

  // ----- version checker dispatch -----

  datatype CheckType = GithubRelease | GithubCommit | GitCommit | Commandline | PythonChecker

  /** The `type` string that selects each version checker. */
  function TypeName(t: CheckType): string {
    match t
    case GithubRelease => "github_release"
    case GithubCommit => "github_commit"
    case GitCommit => "git_commit"
    case Commandline => "commandline"
    case PythonChecker => "python_checker"
  }

  datatype DispatchError = ConfigurationInvalid | UnknownCheckType | UnknownUpdateType

  /**
   * `_get_version_checker`: a check without `type` is invalid, each of the
   * five type names selects its checker, any other value is unknown.
   */
  function GetVersionChecker(check: Check): (r: Result<CheckType, DispatchError>)
    ensures "type" !in check <==> r == Failure(ConfigurationInvalid)
    ensures forall t :: "type" in check && check["type"] == Text(TypeName(t)) ==> r == Success(t)
    ensures r.Success? ==> "type" in check && check["type"] == Text(TypeName(r.value))
    ensures r == Failure(UnknownCheckType) <==>
      "type" in check && forall t :: check["type"] != Text(TypeName(t))
  {
    if "type" !in check then Failure(ConfigurationInvalid)
    else
      var name := check["type"];
      if name == Text("github_release") then Success(GithubRelease)
      else if name == Text("github_commit") then Success(GithubCommit)
      else if name == Text("git_commit") then Success(GitCommit)
      else if name == Text("commandline") then Success(Commandline)
      else if name == Text("python_checker") then Success(PythonChecker)
      else
        UnknownTypeName(name);
        Failure(UnknownCheckType)
  }

  lemma UnknownTypeName(name: Value)
    requires name !in {Text("github_release"), Text("github_commit"), Text("git_commit"), Text("commandline"), Text("python_checker")}
    ensures forall t :: name != Text(TypeName(t))
  {
    forall t ensures name != Text(TypeName(t)) {
      match t
      case GithubRelease =>
      case GithubCommit =>
      case GitCommit =>
      case Commandline =>
      case PythonChecker =>
    }
  }

  // ----- updater dispatch -----

  datatype UpdaterKind = UpdateScript | PipUpdater | PythonUpdater

  /** The updater `_get_updater` selected and the check as it left it. */
  datatype UpdaterChoice = UpdaterChoice(kind: UpdaterKind, check: Check)

  /** The precedence `_get_updater` applies: `update_script`, then `pip`, then `python_updater`. */
  function SelectedKind(check: Check): UpdaterKind {
    if "update_script" in check then UpdateScript
    else if "pip" in check then PipUpdater
    else PythonUpdater
  }

  /** `after` keeps every setting of `before` and adds at most the setting `key`. */
  predicate OnlyAdds(after: Check, before: Check, key: string) {
    && (forall k :: k in before ==> k in after && after[k] == before[k])
    && (forall k :: k in after ==> k in before || k == key)
  }

  /** `after` has the targets of `before`, and each of its checks only adds the setting `key`. */
  predicate OnlyAddsEach(after: map<string, Check>, before: map<string, Check>, key: string) {
    after.Keys == before.Keys && forall t :: t in before ==> OnlyAdds(after[t], before[t], key)
  }

  lemma OnlyAddsKeeps(after: Check, before: Check, key: string, k: string)
    requires OnlyAdds(after, before, key) && k != key
    ensures k in after <==> k in before
    ensures k in before ==> after[k] == before[k]
  {
  }

  lemma OnlyAddsTransitive(c3: Check, c2: Check, c1: Check, key: string)
    requires OnlyAdds(c3, c2, key) && OnlyAdds(c2, c1, key)
    ensures OnlyAdds(c3, c1, key)
  {
  }

  /**
   * `_get_updater`: the markers `update_script`, `pip`, `python_updater`
   * select an updater in that order of precedence; for `pip` the global
   * `pip_command` is copied into the check when the check has none and the
   * global one is not `None`.
   */
  function GetUpdater(check: Check, globalPip: Value): (r: Result<UpdaterChoice, DispatchError>)
    ensures r.Success? <==> "update_script" in check || "pip" in check || "python_updater" in check
    ensures r.Failure? ==> r.error == UnknownUpdateType
    ensures r.Success? ==> r.value.kind == SelectedKind(check)
    ensures r.Success? ==> OnlyAdds(r.value.check, check, "pip_command")
    ensures r.Success? && "pip_command" !in check && "pip_command" in r.value.check ==>
      r.value.kind == PipUpdater && globalPip != Null && r.value.check["pip_command"] == globalPip
    ensures r.Success? && r.value.kind == PipUpdater && globalPip != Null ==> "pip_command" in r.value.check
  {
    if "update_script" in check then Success(UpdaterChoice(UpdateScript, check))
    else if "pip" in check then
      if "pip_command" !in check && globalPip != Null then
        Success(UpdaterChoice(PipUpdater, check["pip_command" := globalPip]))
      else
        Success(UpdaterChoice(PipUpdater, check))
    else if "python_updater" in check then Success(UpdaterChoice(PythonUpdater, check))
    else Failure(UnknownUpdateType)
  }

  /** A second `_get_updater` on the check the first one left selects the same updater and changes nothing. */
  lemma GetUpdaterIdempotent(check: Check, globalPip: Value)
    requires GetUpdater(check, globalPip).Success?
    ensures var first := GetUpdater(check, globalPip).value;
      GetUpdater(first.check, globalPip) == Success(first)
  {
    var first := GetUpdater(check, globalPip).value;
    if first.check != check {
      assert "pip_command" in first.check;
    }
  }

  // ----- populated check -----

  /** What `get_versions()` and `gettext` report about the running host application. */
  datatype Host = Host(version: string, fullRevision: Option<string>, full: Option<string>, translatedName: string)

  /** `versions.get("full-revisionid", versions.get("full", "unknown"))`. */
  function HostRevision(host: Host): string {
    host.fullRevision.GetOr(host.full.GetOr("unknown"))
  }

  /** Why `_populated_check` raises: a check without `type` (KeyError), or, as written, a non-string type (TypeError). */
  datatype PopulateError = MissingType | TypeNotText

  /** Python's `t in s` on two strings: `t` occurs in `s` at some position. */
  predicate IsSubstring(t: string, s: string)
    decreases |s|
  {
    (|t| <= |s| && s[..|t|] == t) || (|s| > 0 && IsSubstring(t, s[1..]))
  }

  /** The copy of `check` with `displayName`, `displayVersion` and `current` set. */
  function Populate(check: Check, name: Value, version: Value, current: Value): (r: Check)
    ensures r.Keys == check.Keys + {"displayName", "displayVersion", "current"}
    ensures r["displayName"] == name && r["displayVersion"] == version && r["current"] == current
    ensures forall k :: k in check && k != "displayName" && k != "displayVersion" && k != "current" ==> r[k] == check[k]
  {
    check["displayName" := name]["displayVersion" := version]["current" := current]
  }

  function HostCurrent(check: Check, host: Host): Value {
    Text(if IsCommitCheck(check) then HostRevision(host) else host.version)
  }

  function PluginName(target: string, check: Check, host: Host): Value {
    Get(check, "displayName", Text(if target == Ordering.HostTarget then host.translatedName else target))
  }

  function PluginDisplayVersion(target: string, check: Check): Value {
    if target == Ordering.HostTarget then Get(check, "displayVersion", Text("{octoprint_version}"))
    else Get(check, "displayVersion", Get(check, "current", Text("unknown")))
  }

  /**
   * `_populated_check` as the code is evidently meant to read
   * (`check["type"] in ("github_commit",)`): the display name and version
   * default to the target, and a non-host target's `current` falls back to
   * its `displayVersion` unless it is a `github_commit` check.
   */
  function PopulatedCheck(target: string, check: Check, host: Host): (r: Result<Check, PopulateError>)
    ensures r.Success? <==> "type" in check
    ensures r.Failure? ==> r.error == MissingType
    ensures r.Success? ==> r.value.Keys == check.Keys + {"displayName", "displayVersion", "current"}
    ensures r.Success? ==> forall k :: k in check && k != "displayName" && k != "displayVersion" && k != "current" ==>
      r.value[k] == check[k]
    ensures r.Success? ==> r.value["displayName"] == PluginName(target, check, host)
    ensures r.Success? ==> r.value["displayVersion"] == PluginDisplayVersion(target, check)
    ensures r.Success? && target == Ordering.HostTarget ==> r.value["current"] == HostCurrent(check, host)
    ensures r.Success? && target != Ordering.HostTarget && "current" in check ==> r.value["current"] == check["current"]
    ensures r.Success? && target != Ordering.HostTarget && "current" !in check ==>
      r.value["current"] == if IsCommitCheck(check) then Null else Get(check, "displayVersion", Null)
  {
    if "type" !in check then Failure(MissingType)
    else if target == Ordering.HostTarget then
      Success(Populate(check, PluginName(target, check, host), PluginDisplayVersion(target, check), HostCurrent(check, host)))
    else
      var current := if IsCommitCheck(check) then Get(check, "current", Null)
                     else Get(check, "current", Get(check, "displayVersion", Null));
      Success(Populate(check, PluginName(target, check, host), PluginDisplayVersion(target, check), current))
  }

  /** `_populated_check` on a check known to have a type. */
  function Populated(target: string, check: Check, host: Host): Check
    requires "type" in check
  {
    PopulatedCheck(target, check, host).value
  }

  /**
   * `_populated_check` as written: for a non-host target the test
   * `check["type"] in ("github_commit")` is a substring test on a string
   * (the parentheses make no tuple), and it raises for a non-string type.
   */
  function PopulatedCheckAsWritten(target: string, check: Check, host: Host): (r: Result<Check, PopulateError>)
    ensures r.Success? ==> "type" in check
  {
    if "type" !in check then Failure(MissingType)
    else if target == Ordering.HostTarget then
      Success(Populate(check, PluginName(target, check, host), PluginDisplayVersion(target, check), HostCurrent(check, host)))
    else if !check["type"].Text? then Failure(TypeNotText)
    else
      var current := if IsSubstring(check["type"].s, "github_commit") then Get(check, "current", Null)
                     else Get(check, "current", Get(check, "displayVersion", Null));
      Success(Populate(check, PluginName(target, check, host), PluginDisplayVersion(target, check), current))
  }

  lemma {:induction false} SubstringAt(t: string, s: string, i: nat)
    requires i <= |s| && |t| <= |s| - i && s[i..i + |t|] == t
    ensures IsSubstring(t, s)
    decreases i
  {
    if i > 0 {
      assert s[1..][i - 1..i - 1 + |t|] == s[i..i + |t|];
      SubstringAt(t, s[1..], i - 1);
    }
  }

  lemma {:induction false} LongerNotSubstring(t: string, s: string)
    requires |t| > |s|
    ensures !IsSubstring(t, s)
    decreases |s|
  {
    if |s| > 0 { LongerNotSubstring(t, s[1..]); }
  }

  /** Of the five check type names only "github_commit" occurs inside "github_commit". */
  lemma OnlyCommitTypeIsSubstring(t: CheckType)
    ensures IsSubstring(TypeName(t), "github_commit") <==> t == GithubCommit
  {
    var s := "github_commit";
    match t
    case GithubCommit =>
      assert s[..|s|] == s;
    case GithubRelease =>
      LongerNotSubstring(TypeName(t), s);
    case PythonChecker =>
      LongerNotSubstring(TypeName(t), s);
    case GitCommit =>
      var n := TypeName(t);
      assert s[..|n|] != n by { assert s[..|n|][3] != n[3]; }
      assert s[1..][..|n|] != n by { assert s[1..][..|n|][0] != n[0]; }
      assert s[2..][..|n|] != n by { assert s[2..][..|n|][0] != n[0]; }
      assert s[3..][..|n|] != n by { assert s[3..][..|n|][0] != n[0]; }
      assert s[1..][1..] == s[2..] && s[2..][1..] == s[3..] && s[3..][1..] == s[4..];
      LongerNotSubstring(n, s[4..]);
    case Commandline =>
      var n := TypeName(t);
      assert s[..|n|] != n by { assert s[..|n|][0] != n[0]; }
      assert s[1..][..|n|] != n by { assert s[1..][..|n|][0] != n[0]; }
      assert s[2..][..|n|] != n by { assert s[2..][..|n|][0] != n[0]; }
      assert s[1..][1..] == s[2..] && s[2..][1..] == s[3..];
      LongerNotSubstring(n, s[3..]);
  }

  /** On every configuration with one of the five check types, the code as written and as intended agree. */
  lemma PopulatedCheckAgreesOnKnownTypes(target: string, check: Check, host: Host, t: CheckType)
    requires "type" in check && check["type"] == Text(TypeName(t))
    ensures PopulatedCheckAsWritten(target, check, host) == PopulatedCheck(target, check, host)
  {
    OnlyCommitTypeIsSubstring(t);
  }

  /** A check of type "commit" shows the difference: as written it loses the `displayVersion` fallback for `current`. */
  lemma PopulatedCheckSubstringCounterexample(host: Host)
    ensures var check := map["type" := Text("commit"), "displayVersion" := Text("1.0")];
      && PopulatedCheckAsWritten("plugin", check, host).Success?
      && PopulatedCheckAsWritten("plugin", check, host).value["current"] == Null
      && PopulatedCheck("plugin", check, host).value["current"] == Text("1.0")
  {
    var s := "github_commit";
    SubstringAt("commit", s, 7);
  }

  // ----- plugin-contributed checks -----

  /** What one `octoprint.plugin.softwareupdate.check_config` hook returned, or that it raised. */
  datatype HookReply = Contributed(checks: map<string, Check>) | HookRaised

  /**
   * One hook's checks merged into the configured ones: for a key both have,
   * `dict_merge(data, configured)`, so configured settings win.
   */
  function MergeHookChecks(configured: map<string, Check>, contributed: map<string, Check>): (r: map<string, Check>)
    ensures r.Keys == configured.Keys + contributed.Keys
    ensures forall k :: k in configured && k !in contributed ==> r[k] == configured[k]
    ensures forall k :: k in contributed && k !in configured ==> r[k] == contributed[k]
    ensures forall k :: k in contributed && k in configured ==> r[k] == contributed[k] + configured[k]
  {
    map k | k in configured.Keys + contributed.Keys ::
      if k in contributed then (if k in configured then contributed[k] + configured[k] else contributed[k])
      else configured[k]
  }

  /** The configured checks after every hook, in order; a hook that raised contributes nothing. */
  function MergeAllHooks(configured: map<string, Check>, hooks: seq<HookReply>): (r: map<string, Check>)
    ensures configured.Keys <= r.Keys
    decreases |hooks|
  {
    if |hooks| == 0 then configured
    else
      var before := MergeAllHooks(configured, hooks[..|hooks| - 1]);
      match hooks[|hooks| - 1]
      case HookRaised => before
      case Contributed(checks) => MergeHookChecks(before, checks)
  }

  /** Contributed checks never override a setting the user configured, and no configured target is lost. */
  lemma {:induction false} ConfiguredSettingsWin(configured: map<string, Check>, hooks: seq<HookReply>)
    ensures var r := MergeAllHooks(configured, hooks);
      && configured.Keys <= r.Keys
      && forall k, f :: k in configured && f in configured[k] ==> f in r[k] && r[k][f] == configured[k][f]
    decreases |hooks|
  {
    if |hooks| > 0 {
      ConfiguredSettingsWin(configured, hooks[..|hooks| - 1]);
    }
  }

  /** A target exists after the merge exactly when it was configured or some hook that returned contributed it. */
  lemma {:induction false} MergedTargets(configured: map<string, Check>, hooks: seq<HookReply>, k: string)
    ensures k in MergeAllHooks(configured, hooks) <==>
      k in configured || exists i :: 0 <= i < |hooks| && hooks[i].Contributed? && k in hooks[i].checks
    decreases |hooks|
  {
    if |hooks| > 0 {
      var n := |hooks| - 1;
      MergedTargets(configured, hooks[..n], k);
      assert forall i :: 0 <= i < n ==> hooks[..n][i] == hooks[i];
    }
  }

  // ----- version information -----

  const UnknownPair: map<string, Value> := map["name" := Text("unknown"), "value" := Text("unknown")]

  /**
   * `dict_merge(dict(local=dict(name="unknown", value="unknown"), remote=...), information)`:
   * the reported fields win, missing `local`/`remote` names and values read "unknown".
   */
  function WithDefaults(info: Info): (r: Info)
    ensures r.Keys == info.Keys + {"local", "remote"}
    ensures "name" in r["local"] && "value" in r["local"] && "name" in r["remote"] && "value" in r["remote"]
    ensures forall k, f :: k in info && f in info[k] ==> f in r[k] && r[k][f] == info[k][f]
    ensures forall k, f :: k in r && f in r[k] && !(k in info && f in info[k]) ==> r[k][f] == Text("unknown")
  {
    map k | k in info.Keys + {"local", "remote"} ::
      if k in info then (if k == "local" || k == "remote" then UnknownPair + info[k] else info[k])
      else UnknownPair
  }

  /** `information["remote"]["value"]`, or `None` where that would raise. */
  function RemoteVersion(info: Option<Info>): (r: Option<Value>)
    ensures r.Some? <==> info.Some? && "remote" in info.value && "value" in info.value["remote"]
  {
    if info.Some? && "remote" in info.value && "value" in info.value["remote"] then
      Some(info.value["remote"]["value"])
    else None
  }
}
