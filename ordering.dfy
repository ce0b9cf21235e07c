/**
 * The order in which an update run visits its targets (`perform_updates`):
 * the requested targets that are also configured, sorted as Python sorts
 * strings, with the host application "octoprint" moved to the front.
 */
module Ordering {
  import opened Wrappers
  import opened Lists

  /** The target name of the host application itself. */
  const HostTarget := "octoprint"

  /** Python's `<` on `str`: code point by code point, a proper prefix first. */
  predicate LexLess(a: string, b: string)
    decreases |a|
  {
    |b| > 0 && (|a| == 0 || a[0] < b[0] || (a[0] == b[0] && LexLess(a[1..], b[1..])))
  }

  lemma {:induction false} LexIrreflexive(a: string)
    ensures !LexLess(a, a)
  {
    if |a| > 0 { LexIrreflexive(a[1..]); }
  }

  lemma {:induction false} LexTransitive(a: string, b: string, c: string)
    requires LexLess(a, b) && LexLess(b, c)
    ensures LexLess(a, c)
  {
    if |a| > 0 && a[0] == b[0] && b[0] == c[0] {
      LexTransitive(a[1..], b[1..], c[1..]);
    }
  }

  lemma {:induction false} LexTotal(a: string, b: string)
    ensures a == b || LexLess(a, b) || LexLess(b, a)
  {
    if |a| > 0 && |b| > 0 && a[0] == b[0] {
      LexTotal(a[1..], b[1..]);
      if a[1..] == b[1..] {
        assert a == [a[0]] + a[1..] && b == [b[0]] + b[1..];
      }
    }
  }

  predicate StrictlySorted(s: seq<string>) {
    forall i, j :: 0 <= i < j < |s| ==> LexLess(s[i], s[j])
  }

  lemma SortedNoDuplicates(s: seq<string>)
    requires StrictlySorted(s)
    ensures NoDuplicates(s)
  {
    forall i, j | 0 <= i < j < |s| ensures s[i] != s[j] {
      LexIrreflexive(s[i]);
    }
  }

  /** `m` is the smallest element of `s`. */
  predicate IsLeast(m: string, s: set<string>) {
    m in s && forall x :: x in s && x != m ==> LexLess(m, x)
  }

  lemma {:induction false} LeastExists(s: set<string>)
    requires s != {}
    ensures exists m :: IsLeast(m, s)
    decreases |s|
  {
    var x :| x in s;
    if s == {x} {
      assert IsLeast(x, s);
    } else {
      LeastExists(s - {x});
      var m :| IsLeast(m, s - {x});
      LexTotal(m, x);
      if LexLess(m, x) {
        assert IsLeast(m, s);
      } else {
        forall y | y in s && y != x ensures LexLess(x, y) {
          if y != m { LexTransitive(x, m, y); }
        }
        assert IsLeast(x, s);
      }
    }
  }

  lemma LeastUnique(s: set<string>)
    ensures forall a, b :: IsLeast(a, s) && IsLeast(b, s) ==> a == b
  {
    forall a, b | IsLeast(a, s) && IsLeast(b, s) ensures a == b {
      if a != b {
        LexTransitive(a, b, a);
        LexIrreflexive(a);
      }
    }
  }

  /** `sorted(s)` for a set of strings: its elements in ascending order, each once. */
  function SortedFromSet(s: set<string>): (r: seq<string>)
    ensures forall x :: x in r <==> x in s
    ensures |r| == |s|
    ensures StrictlySorted(r)
    decreases |s|
  {
    if s == {} then []
    else
      LeastExists(s);
      LeastUnique(s);
      var m :| IsLeast(m, s);
      var rest := SortedFromSet(s - {m});
      ConsSorted(m, rest);
      [m] + rest
  }

  lemma ConsSorted(m: string, rest: seq<string>)
    requires StrictlySorted(rest) && forall x :: x in rest ==> LexLess(m, x)
    ensures StrictlySorted([m] + rest)
  {
    var r := [m] + rest;
    forall i, j | 0 <= i < j < |r| ensures LexLess(r[i], r[j]) {
      assert r[j] == rest[j - 1];
      if i > 0 { assert r[i] == rest[i - 1]; }
    }
  }

  /** A strictly ascending listing of a set is unique, so `SortedFromSet` is the only one. */
  lemma {:induction false} SortedListingUnique(a: seq<string>, b: seq<string>)
    requires StrictlySorted(a) && StrictlySorted(b)
    requires forall x :: x in a <==> x in b
    ensures a == b
    decreases |a|
  {
    if |a| > 0 { NonEmptyListing(a, b); }
    if |b| > 0 { NonEmptyListing(b, a); }
    if |a| > 0 {
      HeadIsLeast(a);
      HeadIsLeast(b);
      assert a[0] in b && b[0] in a;
      if a[0] != b[0] {
        LexTransitive(a[0], b[0], a[0]);
        LexIrreflexive(a[0]);
      }
      forall x ensures x in a[1..] <==> x in b[1..] {
        TailMembers(a, x);
        TailMembers(b, x);
      }
      SortedListingUnique(a[1..], b[1..]);
      assert a == [a[0]] + a[1..] && b == [b[0]] + b[1..];
    } else {
      assert a == [] == b;
    }
  }

  lemma NonEmptyListing(a: seq<string>, b: seq<string>)
    requires |a| > 0 && forall x :: x in a <==> x in b
    ensures |b| > 0
  {
    assert a[0] in b;
  }

  lemma HeadIsLeast(a: seq<string>)
    requires StrictlySorted(a) && |a| > 0
    ensures forall x :: x in a && x != a[0] ==> LexLess(a[0], x)
  {
  }

  lemma TailMembers(a: seq<string>, x: string)
    requires StrictlySorted(a) && |a| > 0
    ensures x in a[1..] <==> x in a && x != a[0]
  {
    if x in a[1..] {
      var i :| 1 <= i < |a| && a[i] == x;
      LexIrreflexive(x);
    }
    if x in a && x != a[0] {
      var i :| 0 <= i < |a| && a[i] == x;
      assert a[1..][i - 1] == x;
    }
  }

  lemma SortedFromSetIsTheSortedListing(s: set<string>, r: seq<string>)
    requires StrictlySorted(r) && forall x :: x in r <==> x in s
    ensures r == SortedFromSet(s)
  {
    SortedListingUnique(r, SortedFromSet(s));
  }

  /** `set(check_targets) & set(checks.keys())`; no requested list means every configured target. */
  function Eligible(requested: Option<seq<string>>, configured: set<string>): set<string> {
    match requested
    case None => configured
    case Some(targets) => (set t | t in targets) * configured
  }

  /** The update order of `perform_updates`. */
  function UpdateOrder(requested: Option<seq<string>>, configured: set<string>): (r: seq<string>)
    ensures forall t :: t in r <==> t in Eligible(requested, configured)
    ensures NoDuplicates(r) && |r| == |Eligible(requested, configured)|
    ensures HostTarget in r ==> r[0] == HostTarget && StrictlySorted(r[1..])
    ensures HostTarget !in r ==> StrictlySorted(r)
  {
    var sorted := SortedFromSet(Eligible(requested, configured));
    SortedNoDuplicates(sorted);
    if HostTarget in sorted then
      HostMovedFirst(sorted);
      [HostTarget] + RemoveFirst(sorted, HostTarget)
    else
      sorted
  }

  /** Moving the host target of a sorted listing to the front keeps the rest sorted. */
  lemma HostMovedFirst(sorted: seq<string>)
    requires StrictlySorted(sorted) && HostTarget in sorted
    ensures var r := [HostTarget] + RemoveFirst(sorted, HostTarget);
      && (forall t :: t in r <==> t in sorted)
      && NoDuplicates(r) && |r| == |sorted|
      && r[0] == HostTarget && StrictlySorted(r[1..])
  {
    SortedNoDuplicates(sorted);
    RemoveFirstNoDuplicates(sorted, HostTarget);
    var rest := RemoveFirst(sorted, HostTarget);
    RemovalKeepsSorted(sorted, HostTarget);
    NoDuplicatesCons(HostTarget, rest);
    assert ([HostTarget] + rest)[1..] == rest;
  }

  /** Removing an element from a strictly ascending listing keeps it strictly ascending. */
  lemma RemovalKeepsSorted(sorted: seq<string>, x: string)
    requires StrictlySorted(sorted) && x in sorted
    ensures StrictlySorted(RemoveFirst(sorted, x))
  {
    RemoveFirstAt(sorted, x);
    var rest := RemoveFirst(sorted, x);
    var i := IndexOf(sorted, x);
    forall p, q | 0 <= p < q < |rest| ensures LexLess(rest[p], rest[q]) {
      var p', q' := if p < i then p else p + 1, if q < i then q else q + 1;
      assert rest[p] == sorted[p'] && rest[q] == sorted[q'];
    }
  }
}
