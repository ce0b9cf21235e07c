/**
 * The restart type of an update run (`_update_worker`, lines 494-501): each
 * target that produced a result contributes the restart type its check
 * declares, and the run keeps the first one, upgrading "octoprint" to
 * "environment" when a later target asks for that.
 */
module Restart {
  import opened Wrappers
  import opened Checks

  const OctoPrintRestart := Text("octoprint")
  const EnvironmentRestart := Text("environment")

  /** The restart type a check declares: its `restart` setting, else "octoprint" for a pip check. */
  function Declared(check: Check): (r: Option<Value>)
    ensures r.Some? <==> "restart" in check || "pip" in check
    ensures "restart" in check ==> r == Some(check["restart"])
    ensures "restart" !in check && "pip" in check ==> r == Some(OctoPrintRestart)
  {
    if "restart" in check then Some(check["restart"])
    else if "pip" in check then Some(OctoPrintRestart)
    else None
  }

  /** One aggregation step: an unset aggregate adopts `t`; afterwards only "octoprint" may become "environment". */
  function Adopt(aggregate: Value, t: Value): (r: Value)
    ensures aggregate == Null ==> r == t
    ensures aggregate != Null ==> r == aggregate || (aggregate == OctoPrintRestart && r == EnvironmentRestart)
    ensures r == aggregate || r == t
  {
    if aggregate == Null || (aggregate == OctoPrintRestart && t == EnvironmentRestart) then t else aggregate
  }

  /** The restart type a target contributes as intended: `None` when its check declares none. */
  function TargetRestart(check: Check): Value {
    Declared(check).GetOr(Null)
  }

  /** Copying `pip_command` into a check does not change the restart type it declares. */
  lemma RestartUnaffected(after: Check, before: Check)
    requires OnlyAdds(after, before, "pip_command")
    ensures TargetRestart(after) == TargetRestart(before)
  {
    OnlyAddsKeeps(after, before, "pip_command", "restart");
    OnlyAddsKeeps(after, before, "pip_command", "pip");
  }

  /** The run's restart type over the checks of the result-bearing targets, in run order. */
  function Reduce(checks: seq<Check>): (r: Value)
    ensures r == Null || exists i :: 0 <= i < |checks| && r == TargetRestart(checks[i])
    decreases |checks|
  {
    if |checks| == 0 then Null
    else
      var n := |checks| - 1;
      var before := Reduce(checks[..n]);
      assert forall i :: 0 <= i < n ==> checks[..n][i] == checks[i];
      Adopt(before, TargetRestart(checks[n]))
  }

  /** The first restart type declared (and not `None`) along the run, or `None`. */
  function FirstDeclared(checks: seq<Check>): Value
    decreases |checks|
  {
    if |checks| == 0 then Null
    else if TargetRestart(checks[0]) != Null then TargetRestart(checks[0])
    else FirstDeclared(checks[1..])
  }

  predicate DeclaresEnvironment(checks: seq<Check>) {
    exists i :: 0 <= i < |checks| && TargetRestart(checks[i]) == EnvironmentRestart
  }

  lemma {:induction false} FirstDeclaredSnoc(checks: seq<Check>, c: Check)
    ensures FirstDeclared(checks + [c]) ==
      if FirstDeclared(checks) != Null then FirstDeclared(checks) else TargetRestart(c)
    decreases |checks|
  {
    if |checks| == 0 {
      assert checks + [c] == [c];
      assert [c][1..] == [];
    } else {
      assert (checks + [c])[0] == checks[0];
      assert (checks + [c])[1..] == checks[1..] + [c];
      FirstDeclaredSnoc(checks[1..], c);
    }
  }

  /**
   * The run's restart type is the first declared one, except that a first
   * "octoprint" becomes "environment" when any target declares "environment".
   */
  lemma {:induction false} ReduceIsFirstDeclaredUpgraded(checks: seq<Check>)
    ensures Reduce(checks) ==
      if FirstDeclared(checks) == OctoPrintRestart && DeclaresEnvironment(checks) then EnvironmentRestart
      else FirstDeclared(checks)
    decreases |checks|
  {
    if |checks| > 0 {
      var n := |checks| - 1;
      var prefix, c := checks[..n], checks[n];
      assert checks == prefix + [c];
      ReduceIsFirstDeclaredUpgraded(prefix);
      FirstDeclaredSnoc(prefix, c);
      assert DeclaresEnvironment(checks) <==> DeclaresEnvironment(prefix) || TargetRestart(c) == EnvironmentRestart by {
        if DeclaresEnvironment(checks) {
          var i :| 0 <= i < |checks| && TargetRestart(checks[i]) == EnvironmentRestart;
          if i < n { assert prefix[i] == checks[i]; }
        }
        if DeclaresEnvironment(prefix) {
          var i :| 0 <= i < |prefix| && TargetRestart(prefix[i]) == EnvironmentRestart;
          assert checks[i] == prefix[i];
        }
        if TargetRestart(c) == EnvironmentRestart { assert TargetRestart(checks[n]) == EnvironmentRestart; }
      }
      if FirstDeclared(prefix) == Null && DeclaresEnvironment(prefix) {
        NoFirstNoEnvironment(prefix);
      }
    }
  }

  lemma {:induction false} NoFirstNoEnvironment(checks: seq<Check>)
    requires FirstDeclared(checks) == Null
    ensures !DeclaresEnvironment(checks)
    decreases |checks|
  {
    if |checks| > 0 {
      NoFirstNoEnvironment(checks[1..]);
      forall i | 0 <= i < |checks| ensures TargetRestart(checks[i]) != EnvironmentRestart {
        if i > 0 { assert checks[i] == checks[1..][i - 1]; }
      }
    }
  }

  /** Once a run's restart type is "environment", no later target downgrades it. */
  lemma {:induction false} EnvironmentIsNeverDowngraded(checks: seq<Check>, more: seq<Check>)
    requires Reduce(checks) == EnvironmentRestart
    ensures Reduce(checks + more) == EnvironmentRestart
    decreases |more|
  {
    if |more| == 0 {
      assert checks + more == checks;
    } else {
      var n := |more| - 1;
      var all := checks + more;
      assert all[..|all| - 1] == checks + more[..n];
      assert all[|all| - 1] == more[n];
      EnvironmentIsNeverDowngraded(checks, more[..n]);
    }
  }

  // ----- the reduction as written -----

  /**
   * The state of the reduction as written after the given result-bearing
   * targets: the aggregate and the last value bound to
   * `target_restart_type`, which survives loop iterations; `None` when the
   * run raised UnboundLocalError because that name was never bound.
   */
  function StateAsWritten(checks: seq<Check>): Option<(Value, Option<Value>)>
    decreases |checks|
  {
    if |checks| == 0 then Some((Null, None))
    else
      match StateAsWritten(checks[..|checks| - 1])
      case None => None
      case Some(state) =>
        var bound := if Declared(checks[|checks| - 1]).Some? then Declared(checks[|checks| - 1]) else state.1;
        if bound.None? then None
        else Some((Adopt(state.0, bound.value), bound))
  }

  /** The restart type as written, `None` for the UnboundLocalError. */
  function ReduceAsWritten(checks: seq<Check>): Option<Value> {
    match StateAsWritten(checks)
    case None => None
    case Some(state) => Some(state.0)
  }

  /** Whenever the code as written gets through, it computes the intended restart type. */
  lemma {:induction false} AsWrittenAgreesWhenBound(checks: seq<Check>)
    ensures StateAsWritten(checks).Some? ==>
      var state := StateAsWritten(checks).value;
      && state.0 == Reduce(checks)
      && (state.1.Some? ==> Adopt(state.0, state.1.value) == state.0)
      && (|checks| > 0 ==> state.1.Some?)
    decreases |checks|
  {
    if |checks| > 0 {
      AsWrittenAgreesWhenBound(checks[..|checks| - 1]);
    }
  }

  /** The code as written raises exactly when the first result-bearing target declares no restart type. */
  lemma {:induction false} AsWrittenRaisesIff(checks: seq<Check>)
    ensures StateAsWritten(checks).None? <==> |checks| > 0 && Declared(checks[0]).None?
    decreases |checks|
  {
    if |checks| > 1 {
      var n := |checks| - 1;
      AsWrittenRaisesIff(checks[..n]);
      AsWrittenAgreesWhenBound(checks[..n]);
      assert checks[..n][0] == checks[0];
    }
  }

  /** A single update-script target without a `restart` setting: the code as written raises, the intended reduction gives `None`. */
  lemma RestartUnboundCounterexample()
    ensures ReduceAsWritten([map["update_script" := Text("update.sh")]]) == None
    ensures Reduce([map["update_script" := Text("update.sh")]]) == Null
  {
    var checks: seq<Check> := [map["update_script" := Text("update.sh")]];
    assert checks[..0] == [];
  }
}
