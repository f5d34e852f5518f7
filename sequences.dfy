/** Sequence facts used by the tree: ordering predicates, and the preparation
    of the constructor's input array (drop repeated values, then sort). */
module Sequences {

  predicate Ascending(s: seq<int>) {
    forall i, j :: 0 <= i < j < |s| ==> s[i] <= s[j]
  }

  predicate StrictlyIncreasing(s: seq<int>) {
    forall i, j :: 0 <= i < j < |s| ==> s[i] < s[j]
  }

  predicate Distinct(s: seq<int>) {
    forall i, j :: 0 <= i < j < |s| ==> s[i] != s[j]
  }

  /** The first-occurrence filter `filter((item, index, self) => self.indexOf(item) === index)`:
      the last element is kept exactly when it does not occur earlier. */
  function Dedup(s: seq<int>): (r: seq<int>)
    ensures Distinct(r)
    ensures forall x :: x in r <==> x in s
    decreases |s|
  {
    if s == [] then []
    else
      var init, last := s[..|s| - 1], s[|s| - 1];
      assert s == init + [last];
      if last in init then Dedup(init) else Dedup(init) + [last]
  }

  /** Inserts `x` into an ascending sequence, keeping it ascending. */
  function InsertSorted(x: int, s: seq<int>): (r: seq<int>)
    requires Ascending(s)
    ensures Ascending(r)
    ensures forall y :: y in r <==> y == x || y in s
  {
    if s == [] || x <= s[0] then [x] + s
    else
      var rest := InsertSorted(x, s[1..]);
      assert forall i :: 0 <= i < |rest| ==> rest[i] in rest;
      assert forall y :: y in s[1..] ==> s[0] <= y;
      [s[0]] + rest
  }

  lemma {:induction false} InsertSortedPermutes(x: int, s: seq<int>)
    requires Ascending(s)
    ensures multiset(InsertSorted(x, s)) == multiset(s) + multiset{x}
  {
    if s != [] && x > s[0] {
      InsertSortedPermutes(x, s[1..]);
      assert s == [s[0]] + s[1..];
    }
  }

  lemma {:induction false} InsertSortedStrict(x: int, s: seq<int>)
    requires StrictlyIncreasing(s) && x !in s
    ensures StrictlyIncreasing(InsertSorted(x, s))
  {
    if s != [] && x > s[0] {
      InsertSortedStrict(x, s[1..]);
      var rest := InsertSorted(x, s[1..]);
      assert forall y :: y in rest ==> y == x || y in s[1..];
      assert forall i :: 0 <= i < |rest| ==> rest[i] in rest;
    }
  }

  /** The numeric ascending sort `sort((a, b) => a - b)`, written as an insertion sort
      and characterised by its result only. */
  function Sort(s: seq<int>): (r: seq<int>)
    ensures Ascending(r)
    ensures forall y :: y in r <==> y in s
  {
    if s == [] then []
    else
      assert s == [s[0]] + s[1..];
      InsertSorted(s[0], Sort(s[1..]))
  }

  lemma {:induction false} SortPermutes(s: seq<int>)
    ensures multiset(Sort(s)) == multiset(s)
  {
    if s != [] {
      SortPermutes(s[1..]);
      InsertSortedPermutes(s[0], Sort(s[1..]));
      assert s == [s[0]] + s[1..];
    }
  }

  lemma {:induction false} SortDistinctIsStrict(s: seq<int>)
    requires Distinct(s)
    ensures StrictlyIncreasing(Sort(s))
  {
    if s != [] {
      assert s == [s[0]] + s[1..];
      SortDistinctIsStrict(s[1..]);
      InsertSortedStrict(s[0], Sort(s[1..]));
    }
  }

  /** The constructor's preparation of its input: the distinct values, sorted ascending. */
  function SortedDistinct(s: seq<int>): (r: seq<int>)
    ensures StrictlyIncreasing(r)
    ensures forall x :: x in r <==> x in s
  {
    var d := Dedup(s);
    SortDistinctIsStrict(d);
    Sort(d)
  }

  /** A strictly increasing sequence is determined by its set of elements, so
      the prepared array is THE ascending enumeration of the input's distinct values. */
  lemma {:induction false} StrictlyIncreasingUnique(a: seq<int>, b: seq<int>)
    requires StrictlyIncreasing(a) && StrictlyIncreasing(b)
    requires forall x :: x in a <==> x in b
    ensures a == b
  {
    assert a == [] <==> b == [] by {
      if a != [] { assert a[0] in a; }
      if b != [] { assert b[0] in b; }
    }
    if a != [] {
      assert a[0] in b && b[0] in a;
      assert a[0] == b[0];
      forall x
        ensures x in a[1..] <==> x in b[1..]
      {
        if x in a[1..] {
          assert x in b && x != b[0];
          assert a == [a[0]] + a[1..];
        }
        if x in b[1..] {
          assert x in a && x != a[0];
          assert b == [b[0]] + b[1..];
        }
      }
      StrictlyIncreasingUnique(a[1..], b[1..]);
      assert a == [a[0]] + a[1..] && b == [b[0]] + b[1..];
    }
  }

  /** Splitting a strictly increasing sequence around one element. */
  lemma StrictlyIncreasingAround(a: seq<int>, d: int, b: seq<int>)
    ensures StrictlyIncreasing(a + [d] + b) <==>
      StrictlyIncreasing(a) && StrictlyIncreasing(b) &&
      (forall x :: x in a ==> x < d) && (forall x :: x in b ==> d < x)
  {
    if StrictlyIncreasing(a + [d] + b) {
      StrictlyIncreasingSplit(a, d, b);
    }
    if StrictlyIncreasing(a) && StrictlyIncreasing(b) &&
      (forall x :: x in a ==> x < d) && (forall x :: x in b ==> d < x)
    {
      StrictlyIncreasingJoin(a, d, b);
    }
  }

  lemma StrictlyIncreasingSplit(a: seq<int>, d: int, b: seq<int>)
    requires StrictlyIncreasing(a + [d] + b)
    ensures StrictlyIncreasing(a) && StrictlyIncreasing(b)
    ensures forall x :: x in a ==> x < d
    ensures forall x :: x in b ==> d < x
  {
    var s := a + [d] + b;
    assert forall i :: 0 <= i < |a| ==> s[i] == a[i];
    assert forall i :: 0 <= i < |b| ==> s[|a| + 1 + i] == b[i];
    assert s[|a|] == d;
    forall x | x in a ensures x < d {
      var i :| 0 <= i < |a| && a[i] == x;
      assert s[i] == x;
    }
    forall x | x in b ensures d < x {
      var i :| 0 <= i < |b| && b[i] == x;
      assert s[|a| + 1 + i] == x;
    }
  }

  lemma StrictlyIncreasingJoin(a: seq<int>, d: int, b: seq<int>)
    requires StrictlyIncreasing(a) && StrictlyIncreasing(b)
    requires forall x :: x in a ==> x < d
    requires forall x :: x in b ==> d < x
    ensures StrictlyIncreasing(a + [d] + b)
  {
    var s := a + [d] + b;
    forall i, j | 0 <= i < j < |s| ensures s[i] < s[j] {
      if j < |a| {
        assert s[i] == a[i] && s[j] == a[j];
      } else if j == |a| {
        assert s[i] == a[i] && a[i] in a;
      } else if i > |a| {
        assert s[i] == b[i - |a| - 1] && s[j] == b[j - |a| - 1];
      } else if i == |a| {
        assert s[j] == b[j - |a| - 1] && b[j - |a| - 1] in b;
      } else {
        assert s[i] == a[i] && a[i] in a;
        assert s[j] == b[j - |a| - 1] && b[j - |a| - 1] in b;
      }
    }
  }
}
