/** Small facts about Python lists modelled as sequences. */
module Lists {

  predicate NoDuplicates<T(==)>(s: seq<T>) {
    forall i, j :: 0 <= i < j < |s| ==> s[i] != s[j]
  }

  /** The position of the first occurrence of `x` (Python's `list.index`). */
  function IndexOf<T(==)>(s: seq<T>, x: T): (i: nat)
    requires x in s
    ensures i < |s| && s[i] == x
  {
    if s[0] == x then 0 else IndexOf(s[1..], x) + 1
  }

  /** Python's `list.remove(x)` on a list that holds `x`, or the list itself otherwise. */
  function RemoveFirst<T(==)>(s: seq<T>, x: T): (r: seq<T>)
    ensures x !in s ==> r == s
    ensures |r| == if x in s then |s| - 1 else |s|
  {
    if |s| == 0 then []
    else if s[0] == x then s[1..]
    else [s[0]] + RemoveFirst(s[1..], x)
  }

  /** `remove` deletes exactly the first occurrence and keeps the rest in order. */
  lemma {:induction false} RemoveFirstSplit<T>(s: seq<T>, x: T)
    requires x in s
    ensures RemoveFirst(s, x) == s[..IndexOf(s, x)] + s[IndexOf(s, x) + 1..]
    ensures forall k :: 0 <= k < IndexOf(s, x) ==> s[k] != x
  {
    if s[0] == x {
      assert s[..0] == [];
    } else {
      var t := s[1..];
      RemoveFirstSplit(t, x);
      var k := IndexOf(t, x);
      assert IndexOf(s, x) == k + 1;
      assert s[..k + 1] == [s[0]] + t[..k];
      assert s[k + 2..] == t[k + 1..];
    }
  }

  /** Position by position, `remove` shifts the elements after the removed one down by one. */
  lemma RemoveFirstAt<T>(s: seq<T>, x: T)
    requires x in s
    ensures |RemoveFirst(s, x)| == |s| - 1
    ensures forall k :: 0 <= k < IndexOf(s, x) ==> RemoveFirst(s, x)[k] == s[k]
    ensures forall k :: IndexOf(s, x) <= k < |s| - 1 ==> RemoveFirst(s, x)[k] == s[k + 1]
  {
    RemoveFirstSplit(s, x);
  }

  /** A duplicate-free list keeps no copy of the element it had removed. */
  lemma RemoveFirstNoDuplicates<T>(s: seq<T>, x: T)
    requires NoDuplicates(s) && x in s
    ensures x !in RemoveFirst(s, x) && NoDuplicates(RemoveFirst(s, x))
    ensures forall y :: y in RemoveFirst(s, x) <==> y in s && y != x
  {
    RemoveFirstAt(s, x);
    var i := IndexOf(s, x);
    var r := RemoveFirst(s, x);
    forall y | y in r ensures y in s && y != x {
      var k :| 0 <= k < |r| && r[k] == y;
      if k < i { assert s[k] == y && k != i; } else { assert s[k + 1] == y && k + 1 != i; }
    }
    forall y | y in s && y != x ensures y in r {
      var k :| 0 <= k < |s| && s[k] == y;
      if k < i { assert r[k] == y; } else { assert k != i && r[k - 1] == y; }
    }
    forall p, q | 0 <= p < q < |r| ensures r[p] != r[q] {
      var p', q' := if p < i then p else p + 1, if q < i then q else q + 1;
      assert r[p] == s[p'] && r[q] == s[q'];
    }
  }

  /** Removing the first occurrence takes exactly one copy out of the multiset. */
  lemma {:induction false} RemoveFirstMultiset<T>(s: seq<T>, x: T)
    requires x in s
    ensures multiset(RemoveFirst(s, x)) == multiset(s) - multiset{x}
  {
    assert s == [s[0]] + s[1..];
    assert multiset(s) == multiset{s[0]} + multiset(s[1..]);
    if s[0] != x {
      RemoveFirstMultiset(s[1..], x);
      assert multiset(RemoveFirst(s, x)) == multiset{s[0]} + multiset(RemoveFirst(s[1..], x));
    }
  }

  /** Putting an element not yet present in front keeps a sequence free of duplicates. */
  lemma NoDuplicatesCons<T>(x: T, s: seq<T>)
    requires NoDuplicates(s) && x !in s
    ensures NoDuplicates([x] + s)
  {
    var r := [x] + s;
    forall p, q | 0 <= p < q < |r| ensures r[p] != r[q] {
      assert r[q] == s[q - 1];
      if p > 0 { assert r[p] == s[p - 1]; }
    }
  }

  /** In a sequence without duplicates an element does not occur before its own position. */
  lemma NoDuplicatesFresh<T>(s: seq<T>, i: nat)
    requires NoDuplicates(s) && i < |s|
    ensures s[i] !in s[..i]
  {
    forall j | 0 <= j < i ensures s[..i][j] != s[i] {
      assert s[..i][j] == s[j];
    }
  }

  lemma NoDuplicatesPrefix<T>(s: seq<T>, n: nat)
    requires NoDuplicates(s) && n <= |s|
    ensures NoDuplicates(s[..n])
  {
    assert forall j :: 0 <= j < n ==> s[..n][j] == s[j];
  }

  /** Appending an element not yet present keeps a sequence free of duplicates. */
  lemma NoDuplicatesAppend<T>(s: seq<T>, x: T)
    requires NoDuplicates(s) && x !in s
    ensures NoDuplicates(s + [x])
  {
    var r := s + [x];
    forall i, j | 0 <= i < j < |r| ensures r[i] != r[j] {
      if j < |s| { assert r[i] == s[i] && r[j] == s[j]; } else { assert r[i] == s[i]; }
    }
  }
}
