/**
 * Resolving one target's version information (`_get_current_version`):
 * the per-target version cache with its validity window, the external
 * version checkers and updaters as functions of their arguments, and the
 * report entry `get_current_versions` builds from a resolution.
 */
module Resolver {
  import opened Wrappers
  import opened Checks

  // ----- version cache -----

  /** One cached resolution: `(timestamp, information, update_available, update_possible)`. */
  datatype CacheEntry = CacheEntry(timestamp: real, information: Option<Info>, updateAvailable: bool, updatePossible: bool)

  type VersionCache = map<string, CacheEntry>

  /** The freshness test of `_get_current_version`: `timestamp + ttl >= now > timestamp`. */
  predicate CacheValid(timestamp: real, ttl: real, now: real) {
    timestamp + ttl >= now > timestamp
  }

  /** The cached entry `_get_current_version` answers with, if it answers from the cache. */
  function CacheHit(cache: VersionCache, ttl: real, now: real, force: bool, target: string): (r: Option<CacheEntry>)
    ensures r.Some? <==> target in cache && !force && CacheValid(cache[target].timestamp, ttl, now)
    ensures r.Some? ==> r.value == cache[target]
  {
    if target in cache && !force && CacheValid(cache[target].timestamp, ttl, now) then Some(cache[target]) else None
  }

  /**
   * An entry is served exactly while the clock stands after its timestamp
   * and at most `ttl` past it: an entry exactly `ttl` old is still served,
   * one read at its own timestamp, or after the clock went back, is not.
   */
  lemma EntryServedWithinWindow(cache: VersionCache, target: string, entry: CacheEntry, ttl: real, now: real)
    ensures CacheHit(cache[target := entry], ttl, now, false, target).Some? <==>
      entry.timestamp < now <= entry.timestamp + ttl
    ensures CacheHit(cache[target := entry], ttl, entry.timestamp, false, target).None?
    ensures ttl >= 0.0 ==> CacheHit(cache[target := entry], ttl, entry.timestamp + ttl, false, target).Some? == (ttl > 0.0)
  {
  }

  // ----- external collaborators -----

  /** What a version checker's `get_latest` returned, or that it raised. */
  datatype CheckerReply = Latest(information: Option<Info>, isCurrent: bool) | CheckerRaised

  /** What an updater's `can_perform_update` returned, or that it raised. */
  datatype Capability = Capable(possible: bool) | CapabilityRaised

  /**
   * What an updater's `perform_update` returned, or that it raised
   * `UnknownUpdateType`, `UpdateError(data)` or another exception.
   */
  datatype UpdateReply = Updated(payload: Value) | UnknownUpdateTypeRaised | UpdateErrorRaised(data: Value) | UpdateRaised

  /**
   * The collaborators outside the plugin: the version checkers, the updaters
   * and the restart command runner (`util.execute`).
   */
  datatype Environment = Environment(
    latest: (CheckType, string, Check) -> CheckerReply,
    canPerform: (UpdaterKind, string, Check) -> Capability,
    perform: (UpdaterKind, string, Check, Value) -> UpdateReply,
    restartSucceeds: Value -> bool)

  // ----- resolution -----

  /** A resolution and the check as `_get_updater` left it. */
  datatype Resolution = Resolution(information: Option<Info>, updateAvailable: bool, updatePossible: bool, check: Check)

  /** The checker's answer `(information, is_current)`, `None` when no checker is selected or it raised. */
  function CheckerAnswer(env: Environment, target: string, check: Check): (r: Option<(Option<Info>, bool)>)
    ensures r.Some? <==>
      GetVersionChecker(check).Success? && env.latest(GetVersionChecker(check).value, target, check).Latest?
  {
    match GetVersionChecker(check)
    case Failure(_) => None
    case Success(t) =>
      match env.latest(t, target, check)
      case CheckerRaised => None
      case Latest(information, isCurrent) => Some((information, isCurrent))
  }

  /** Whether the selected updater says it can perform the update; `False` when none is selected or it raised. */
  function UpdaterCapable(env: Environment, target: string, check: Check, globalPip: Value): bool {
    match GetUpdater(check, globalPip)
    case Failure(_) => false
    case Success(choice) => env.canPerform(choice.kind, target, choice.check) == Capable(true)
  }

  /**
   * The uncached part of `_get_current_version`. A checker that cannot be
   * selected or raises leaves empty information and neither flag set;
   * otherwise an update is available when the checker reported information
   * that is not current, and possible when the selected updater says so.
   */
  function Resolve(env: Environment, target: string, check: Check, globalPip: Value): (r: Resolution)
    ensures CheckerAnswer(env, target, check).None? ==> r == Resolution(Some(map[]), false, false, check)
    ensures CheckerAnswer(env, target, check).Some? ==> r.information == CheckerAnswer(env, target, check).value.0
    ensures r.updateAvailable <==>
      CheckerAnswer(env, target, check).Some? && CheckerAnswer(env, target, check).value.0.Some?
      && !CheckerAnswer(env, target, check).value.1
    ensures r.updatePossible <==> CheckerAnswer(env, target, check).Some? && UpdaterCapable(env, target, check, globalPip)
    ensures OnlyAdds(r.check, check, "pip_command")
    ensures CheckerAnswer(env, target, check).Some? && GetUpdater(check, globalPip).Success? ==>
      r.check == GetUpdater(check, globalPip).value.check
  {
    match CheckerAnswer(env, target, check)
    case None => Resolution(Some(map[]), false, false, check)
    case Some(answer) =>
      var available := answer.0.Some? && !answer.1;
      match GetUpdater(check, globalPip)
      case Failure(_) => Resolution(answer.0, available, false, check)
      case Success(choice) =>
        Resolution(answer.0, available, env.canPerform(choice.kind, target, choice.check) == Capable(true), choice.check)
  }

  /** A resolution, the cache after it, and whether a new entry was stored (which marks the cache dirty). */
  datatype Lookup = Lookup(resolution: Resolution, cache: VersionCache, stored: bool)

  /**
   * `_get_current_version`: a fresh cached entry is returned as it is;
   * otherwise the target is resolved and its entry replaced by the new
   * resolution stamped `now`. Either way the cache ends up holding what was
   * returned for the target, and no other entry changes.
   */
  function LookupVersion(cache: VersionCache, ttl: real, now: real, force: bool, env: Environment,
                         target: string, check: Check, globalPip: Value): (l: Lookup)
    ensures l.stored <==> CacheHit(cache, ttl, now, force, target).None?
    ensures !l.stored ==> l.cache == cache && l.resolution.check == check
    ensures OnlyAdds(l.resolution.check, check, "pip_command")
    ensures target in l.cache
    ensures l.stored ==> l.resolution == Resolve(env, target, check, globalPip) && l.cache[target].timestamp == now
    ensures l.cache[target].information == l.resolution.information
    ensures l.cache[target].updateAvailable == l.resolution.updateAvailable
    ensures l.cache[target].updatePossible == l.resolution.updatePossible
    ensures l.cache.Keys == cache.Keys + {target}
    ensures forall k :: k in cache && k != target ==> l.cache[k] == cache[k]
  {
    match CacheHit(cache, ttl, now, force, target)
    case Some(e) => Lookup(Resolution(e.information, e.updateAvailable, e.updatePossible, check), cache, false)
    case None =>
      var r := Resolve(env, target, check, globalPip);
      Lookup(r, cache[target := CacheEntry(now, r.information, r.updateAvailable, r.updatePossible)], true)
  }

  /** An answer from the cache does not depend on the checkers or updaters at all. */
  lemma CachedAnswerIgnoresCollaborators(cache: VersionCache, ttl: real, now: real, target: string, check: Check,
                                         globalPip: Value, env1: Environment, env2: Environment)
    requires CacheHit(cache, ttl, now, false, target).Some?
    ensures LookupVersion(cache, ttl, now, false, env1, target, check, globalPip)
         == LookupVersion(cache, ttl, now, false, env2, target, check, globalPip)
  {
  }

  /** Asking again at a later instant within the time to live returns the stored resolution without a new check. */
  lemma StoredResolutionIsServedLater(cache: VersionCache, ttl: real, now: real, later: real, env: Environment,
                                      env2: Environment, target: string, check: Check, globalPip: Value)
    requires now < later <= now + ttl
    ensures var first := LookupVersion(cache, ttl, now, true, env, target, check, globalPip);
      var second := LookupVersion(first.cache, ttl, later, false, env2, target, check, globalPip);
      && !second.stored && second.cache == first.cache
      && second.resolution.information == first.resolution.information
      && second.resolution.updateAvailable == first.resolution.updateAvailable
      && second.resolution.updatePossible == first.resolution.updatePossible
  {
  }

  /** A lookup depends on the cache only through the target's own entry. */
  lemma LookupLocal(c1: VersionCache, c2: VersionCache, ttl: real, now: real, force: bool, env: Environment,
                    target: string, check: Check, globalPip: Value)
    requires target in c1 <==> target in c2
    requires target in c1 ==> c1[target] == c2[target]
    ensures var l1 := LookupVersion(c1, ttl, now, force, env, target, check, globalPip);
      var l2 := LookupVersion(c2, ttl, now, force, env, target, check, globalPip);
      l1.resolution == l2.resolution && l1.stored == l2.stored && l1.cache[target] == l2.cache[target]
  {
    assert CacheHit(c1, ttl, now, force, target) == CacheHit(c2, ttl, now, force, target);
  }

  // ----- report entries -----

  /** One entry of the `get_current_versions` report. */
  datatype TargetInfo = TargetInfo(updateAvailable: bool, updatePossible: bool, information: Info,
                                   displayName: Value, displayVersion: string)

  function DigitChar(d: nat): char
    requires d < 10
  {
    "0123456789"[d]
  }

  function NatToString(n: nat): string
    decreases n
  {
    if n < 10 then [DigitChar(n)] else NatToString(n / 10) + [DigitChar(n % 10)]
  }

  /** `str(v)`. */
  function Render(v: Value): string {
    match v
    case Null => "None"
    case Text(s) => s
    case Flag(b) => if b then "True" else "False"
    case Number(n) => if n < 0 then "-" + NatToString(-n) else NatToString(n)
  }

  /** The first position at or after `i` holding a brace, or `|s|`. */
  function NextBrace(s: string, i: nat): (j: nat)
    requires i <= |s|
    ensures i <= j <= |s|
    ensures j < |s| ==> s[j] == '{' || s[j] == '}'
    ensures forall k :: i <= k < j ==> s[k] != '{' && s[k] != '}'
    decreases |s| - i
  {
    if i == |s| || s[i] == '{' || s[i] == '}' then i else NextBrace(s, i + 1)
  }

  /** The value of a replacement field named `name`; `None` for a name the call does not supply (KeyError). */
  function Field(name: string, hostVersion: string, localName: Value, localValue: Value): Option<string> {
    if name == "octoprint_version" then Some(hostVersion)
    else if name == "local_name" then Some(Render(localName))
    else if name == "local_value" then Some(Render(localValue))
    else None
  }

  function Prepend(prefix: string, rest: Option<string>): Option<string> {
    match rest
    case None => None
    case Some(s) => Some(prefix + s)
  }

  /**
   * `template.format(octoprint_version=.., local_name=.., local_value=..)`:
   * doubled braces stand for one brace, `{name}` for the named value;
   * `None` where Python raises.
   */
  function FormatDisplayVersion(template: string, hostVersion: string, localName: Value, localValue: Value): Option<string>
    decreases |template|
  {
    if |template| == 0 then Some("")
    else if |template| > 1 && template[0] == template[1] && (template[0] == '{' || template[0] == '}') then
      Prepend([template[0]], FormatDisplayVersion(template[2..], hostVersion, localName, localValue))
    else if template[0] == '}' then None
    else if template[0] == '{' then
      var close := NextBrace(template, 1);
      if close == |template| || template[close] == '{' then None
      else
        match Field(template[1..close], hostVersion, localName, localValue)
        case None => None
        case Some(v) => Prepend(v, FormatDisplayVersion(template[close + 1..], hostVersion, localName, localValue))
    else Prepend([template[0]], FormatDisplayVersion(template[1..], hostVersion, localName, localValue))
  }

  /** A template without braces is shown as it is. */
  lemma {:induction false} FormatWithoutBraces(template: string, hostVersion: string, localName: Value, localValue: Value)
    requires forall k :: 0 <= k < |template| ==> template[k] != '{' && template[k] != '}'
    ensures FormatDisplayVersion(template, hostVersion, localName, localValue) == Some(template)
    decreases |template|
  {
    if |template| > 0 {
      FormatWithoutBraces(template[1..], hostVersion, localName, localValue);
      assert [template[0]] + template[1..] == template;
    }
  }

  predicate NoBraces(s: string) {
    forall k :: 0 <= k < |s| ==> s[k] != '{' && s[k] != '}'
  }

  lemma {:induction false} NextBraceAfter(s: string, i: nat, j: nat)
    requires i <= j <= |s| && NoBraces(s[i..j])
    ensures NextBrace(s, i) >= j
    decreases j - i
  {
    if i < j {
      assert s[i..j][0] == s[i];
      assert s[i + 1..j] == s[i..j][1..];
      NextBraceAfter(s, i + 1, j);
    }
  }

  /** A single placeholder `{name}` is replaced by the named value. */
  lemma FormatSinglePlaceholder(name: string, hostVersion: string, localName: Value, localValue: Value)
    requires NoBraces(name)
    ensures FormatDisplayVersion("{" + name + "}", hostVersion, localName, localValue) ==
      Field(name, hostVersion, localName, localValue)
  {
    var t := "{" + name + "}";
    assert t[1..|t| - 1] == name;
    NextBraceAfter(t, 1, |t| - 1);
    assert t[|t| - 1] == '}';
    assert NextBrace(t, 1) == |t| - 1;
    assert t[|t|..] == "";
    if Field(name, hostVersion, localName, localValue).Some? {
      var v := Field(name, hostVersion, localName, localValue).value;
      assert v + "" == v;
    }
  }

  /** The host's default display version "{octoprint_version}" shows the running version. */
  lemma FormatHostDefault(hostVersion: string, localName: Value, localValue: Value)
    ensures FormatDisplayVersion("{octoprint_version}", hostVersion, localName, localValue) == Some(hostVersion)
  {
    var name := "octoprint_version";
    assert NoBraces(name);
    assert "{octoprint_version}" == "{" + name + "}";
    FormatSinglePlaceholder(name, hostVersion, localName, localValue);
  }
}
