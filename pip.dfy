/**
 * `PipCaller` (src/octoprint/util/pip.py): the pip version ranges it tests,
 * the argument rewriting of `execute`, its guard against a missing pip, the
 * re-discovery on `refresh`, and the `None`-safe comparisons.
 */
module Pip {
  import opened Wrappers
  import opened Lists

  // ----- versions -----

  /** A pip version, by its release segments (`1.5.0` is `[1, 5, 0]`). */
  datatype Version = Version(release: seq<nat>)

  function Tail(s: seq<nat>): seq<nat> {
    if |s| == 0 then [] else s[1..]
  }

  function Head(s: seq<nat>): nat {
    if |s| == 0 then 0 else s[0]
  }

  /**
   * The release comparison of version parsing: segment by segment, a
   * missing segment counting as zero, so `1.5` and `1.5.0` are equal.
   */
  function Cmp(a: seq<nat>, b: seq<nat>): (r: int)
    ensures -1 <= r <= 1
    decreases |a| + |b|
  {
    if |a| == 0 && |b| == 0 then 0
    else if Head(a) < Head(b) then -1
    else if Head(a) > Head(b) then 1
    else Cmp(Tail(a), Tail(b))
  }

  lemma {:induction false} CmpAntisymmetric(a: seq<nat>, b: seq<nat>)
    ensures Cmp(a, b) == -Cmp(b, a)
    decreases |a| + |b|
  {
    if !(|a| == 0 && |b| == 0) && Head(a) == Head(b) {
      CmpAntisymmetric(Tail(a), Tail(b));
    }
  }

  lemma {:induction false} CmpTransitive(a: seq<nat>, b: seq<nat>, c: seq<nat>)
    requires Cmp(a, b) <= 0 && Cmp(b, c) <= 0
    ensures Cmp(a, c) <= 0
    decreases |a| + |b| + |c|
  {
    if |a| == 0 && |c| == 0 {
    } else if Head(a) == Head(b) && Head(b) == Head(c) {
      var ta, tb, tc := Tail(a), Tail(b), Tail(c);
      if |a| == 0 && |b| == 0 {
        assert Cmp(b, c) == Cmp(tb, tc);
        assert Cmp(a, c) == Cmp(ta, tc);
      }
      CmpTransitive(ta, tb, tc);
    }
  }

  /** Trailing zero segments do not change a version. */
  lemma {:induction false} CmpZeroPadding(a: seq<nat>)
    ensures Cmp(a, a + [0]) == 0
    decreases |a|
  {
    if |a| > 0 {
      assert Tail(a + [0]) == Tail(a) + [0];
      CmpZeroPadding(Tail(a));
    }
  }

  /** `pip>=1.5`: pip processes dependency links without being told to. */
  predicate InProcessDependencyLinksRange(v: Option<Version>) {
    v.Some? && Cmp(v.value.release, [1, 5]) >= 0
  }

  /** `pip==1.5.0`: the release whose wheel support is to be switched off. */
  predicate IsNoUseWheelVersion(v: Option<Version>) {
    v.Some? && Cmp(v.value.release, [1, 5, 0]) == 0
  }

  /** `pip>=6.0.1,<=6.0.3`: the releases known not to work. */
  predicate IsBroken(v: Option<Version>) {
    v.Some? && Cmp(v.value.release, [6, 0, 1]) >= 0 && Cmp(v.value.release, [6, 0, 3]) <= 0
  }

  /** The three ranges as the class attributes state them. */
  lemma RangeExamples()
    ensures IsNoUseWheelVersion(Some(Version([1, 5]))) && IsNoUseWheelVersion(Some(Version([1, 5, 0])))
    ensures InProcessDependencyLinksRange(Some(Version([1, 5, 0]))) && !InProcessDependencyLinksRange(Some(Version([1, 4, 1])))
    ensures IsBroken(Some(Version([6, 0, 2]))) && !IsBroken(Some(Version([6, 0]))) && !IsBroken(Some(Version([6, 1])))
    ensures !InProcessDependencyLinksRange(None) && !IsNoUseWheelVersion(None) && !IsBroken(None)
  {
    assert Cmp([1, 5], [1, 5, 0]) == Cmp([5], [5, 0]) == Cmp([], [0]) == 0;
    assert Cmp([1, 5, 0], [1, 5]) == Cmp([5, 0], [5]) == Cmp([0], []) == 0;
    assert Cmp([6, 0, 2], [6, 0, 1]) == Cmp([0, 2], [0, 1]) == Cmp([2], [1]) == 1;
    assert Cmp([6, 0, 2], [6, 0, 3]) == Cmp([0, 2], [0, 3]) == Cmp([2], [3]) == -1;
    assert Cmp([6, 0], [6, 0, 1]) == Cmp([0], [0, 1]) == Cmp([], [1]) == -1;
    assert Cmp([6, 1], [6, 0, 3]) == Cmp([1], [0, 3]) == 1;
    assert Cmp([1, 4, 1], [1, 5]) == Cmp([4, 1], [5]) == -1;
  }

  // ----- argument rewriting -----

  const Install := "install"
  const ProcessDependencyLinks := "--process-dependency-links"
  const NoUseWheel := "--no-use-wheel"

  /**
   * The argument list `execute` runs pip with: for an `install`,
   * `--process-dependency-links` is removed (its first occurrence) when
   * pip is below 1.5, and `--no-use-wheel` is added at the end for pip
   * 1.5.0 unless it is already there.
   */
  function RewriteArgs(args: seq<string>, version: Option<Version>): seq<string> {
    if Install !in args then args
    else
      var dropped := DropLinks(args, version);
      if IsNoUseWheelVersion(version) && NoUseWheel !in dropped then dropped + [NoUseWheel] else dropped
  }

  /** The first rewriting step of an `install`. */
  function DropLinks(args: seq<string>, version: Option<Version>): seq<string> {
    if !InProcessDependencyLinksRange(version) && ProcessDependencyLinks in args
    then RemoveFirst(args, ProcessDependencyLinks) else args
  }

  /** The first step leaves every other argument's count alone. */
  lemma DropLinksKeepsOthers(args: seq<string>, version: Option<Version>, y: string)
    requires y != ProcessDependencyLinks
    ensures multiset(DropLinks(args, version))[y] == multiset(args)[y]
  {
    if DropLinks(args, version) != args {
      RemoveFirstMultiset(args, ProcessDependencyLinks);
    }
  }

  /**
   * The rewriting as written: the ranges are tested with `in` against the
   * generators `parse_requirements` returns, a test that never holds, so
   * the flag is removed whatever the version and never added.
   */
  function RewriteArgsAsWritten(args: seq<string>, version: Option<Version>): (r: seq<string>)
    ensures Install in args && ProcessDependencyLinks in args ==> r == RemoveFirst(args, ProcessDependencyLinks)
    ensures !(Install in args && ProcessDependencyLinks in args) ==> r == args
  {
    var inProcessRange, noUseWheelVersion := false, false;
    if Install !in args then args
    else
      var dropped := if !inProcessRange && ProcessDependencyLinks in args
                     then RemoveFirst(args, ProcessDependencyLinks) else args;
      if noUseWheelVersion && NoUseWheel !in dropped then dropped + [NoUseWheel] else dropped
  }

  /** For pip 1.5.0 the rewriting as written drops a flag it should keep and misses the one it should add. */
  lemma RewriteArgsAsWrittenCounterexample()
    ensures var args, v := [Install, ProcessDependencyLinks], Some(Version([1, 5, 0]));
      && RewriteArgsAsWritten(args, v) == [Install]
      && RewriteArgs(args, v) == [Install, ProcessDependencyLinks, NoUseWheel]
  {
    var args, v := [Install, ProcessDependencyLinks], Some(Version([1, 5, 0]));
    RangeExamples();
    assert RemoveFirst(args, ProcessDependencyLinks) == [Install] + RemoveFirst([ProcessDependencyLinks], ProcessDependencyLinks);
    assert NoUseWheel !in args;
  }

  /** Without `install` the arguments pass through unchanged and in order. */
  lemma RewriteWithoutInstall(args: seq<string>, version: Option<Version>)
    requires Install !in args
    ensures RewriteArgs(args, version) == args
  {
  }

  /** `--process-dependency-links` loses one occurrence below pip 1.5 and keeps its count otherwise. */
  lemma RewriteProcessDependencyLinks(args: seq<string>, version: Option<Version>)
    requires Install in args
    ensures var r := RewriteArgs(args, version);
      multiset(r)[ProcessDependencyLinks] ==
        if !InProcessDependencyLinksRange(version) && ProcessDependencyLinks in args
        then multiset(args)[ProcessDependencyLinks] - 1
        else multiset(args)[ProcessDependencyLinks]
  {
    var dropped := DropLinks(args, version);
    if dropped != args {
      RemoveFirstMultiset(args, ProcessDependencyLinks);
    }
    assert multiset(dropped + [NoUseWheel]) == multiset(dropped) + multiset{NoUseWheel};
  }

  /** `--no-use-wheel` is appended exactly for pip 1.5.0 without the flag, and then occurs once. */
  lemma RewriteNoUseWheel(args: seq<string>, version: Option<Version>)
    requires Install in args
    ensures var r := RewriteArgs(args, version);
      && (NoUseWheel !in args ==> (r == DropLinks(args, version) + [NoUseWheel] <==> IsNoUseWheelVersion(version)))
      && (NoUseWheel !in args ==> multiset(r)[NoUseWheel] == if IsNoUseWheelVersion(version) then 1 else 0)
      && (NoUseWheel in args ==> multiset(r)[NoUseWheel] == multiset(args)[NoUseWheel])
  {
    var dropped := DropLinks(args, version);
    DropLinksKeepsOthers(args, version, NoUseWheel);
    assert NoUseWheel in dropped <==> NoUseWheel in args;
    assert multiset(dropped + [NoUseWheel]) == multiset(dropped) + multiset{NoUseWheel};
    if NoUseWheel !in args && !IsNoUseWheelVersion(version) {
      assert |dropped + [NoUseWheel]| != |dropped|;
    }
  }

  // ----- the caller -----

  datatype PipError = UnknownPip

  /** Where `_find_pip` found pip and which version it reported; `None` when it found none. */
  datatype Discovery = Discovery(command: Option<string>, version: Option<Version>)

  /** `version op other` of a known version. */
  predicate VersionLe(v: Version, other: Version) { Cmp(v.release, other.release) <= 0 }
  predicate VersionLt(v: Version, other: Version) { Cmp(v.release, other.release) < 0 }

  class PipCaller {
    var command: Option<string>
    var version: Option<Version>
    var refresh: bool
    /** The command lines handed to `call`, in order. */
    var calls: seq<seq<string>>

    /**
     * `__init__`: pip is looked for once, on construction. The configured
     * command is only where `_find_pip` starts looking, so it enters through
     * what was found.
     */
    constructor(found: Discovery)
      ensures command == found.command && version == found.version
      ensures !refresh && calls == []
    {
      command := found.command;
      version := found.version;
      refresh := false;
      calls := [];
    }

    predicate Available()
      reads this
    {
      command.Some?
    }

    predicate Le(other: Version)
      reads this
    {
      version.Some? && VersionLe(version.value, other)
    }

    predicate Lt(other: Version)
      reads this
    {
      version.Some? && VersionLt(version.value, other)
    }

    predicate Ge(other: Version)
      reads this
    {
      version.Some? && VersionLe(other, version.value)
    }

    predicate Gt(other: Version)
      reads this
    {
      version.Some? && VersionLt(other, version.value)
    }

    /**
     * `execute`: a pending refresh re-discovers pip first; without a pip
     * command it raises `UnknownPip`, otherwise it calls pip with the
     * rewritten arguments.
     */
    method Execute(args: seq<string>, rediscovered: Discovery) returns (r: Result<seq<string>, PipError>)
      modifies this`command, this`version, this`refresh, this`calls
      ensures !refresh
      ensures old(refresh) ==> command == rediscovered.command && version == rediscovered.version
      ensures !old(refresh) ==> command == old(command) && version == old(version)
      ensures r.Failure? <==> !Available()
      ensures r.Failure? ==> calls == old(calls)
      ensures r.Success? ==> r.value == [command.value] + RewriteArgs(args, version) && calls == old(calls) + [r.value]
    {
      if refresh {
        command, version := rediscovered.command, rediscovered.version;
        refresh := false;
      }
      if command.None? {
        return Failure(UnknownPip);
      }
      var argList := args;
      if Install in argList {
        if !InProcessDependencyLinksRange(version) && ProcessDependencyLinks in argList {
          argList := RemoveFirst(argList, ProcessDependencyLinks);
        }
        if IsNoUseWheelVersion(version) && NoUseWheel !in argList {
          argList := argList + [NoUseWheel];
        }
      }
      var line := [command.value] + argList;
      calls := calls + [line];
      r := Success(line);
    }
  }

  /** Every comparison is false without a version; with one, they agree with the version order. */
  lemma ComparisonsComplementary(p: PipCaller, other: Version)
    ensures p.version.None? ==> !p.Le(other) && !p.Lt(other) && !p.Ge(other) && !p.Gt(other)
    ensures p.version.Some? ==>
      && (p.Le(other) <==> !p.Gt(other))
      && (p.Lt(other) <==> !p.Ge(other))
      && (p.Le(other) && p.Ge(other) <==> Cmp(p.version.value.release, other.release) == 0)
  {
    if p.version.Some? {
      CmpAntisymmetric(p.version.value.release, other.release);
    }
  }

  /** With a version, `<=` is an order: it is transitive and reflexive. */
  lemma LeIsOrder(a: Version, b: Version, c: Version)
    ensures VersionLe(a, a)
    ensures VersionLe(a, b) && VersionLe(b, c) ==> VersionLe(a, c)
  {
    CmpAntisymmetric(a.release, a.release);
    if VersionLe(a, b) && VersionLe(b, c) {
      CmpTransitive(a.release, b.release, c.release);
    }
  }
}
