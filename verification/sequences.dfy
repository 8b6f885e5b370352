/** Sequences without repetitions, and taking an element out. */
module Sequences {
  ghost predicate Distinct<T>(s: seq<T>) {
    forall i, j :: 0 <= i < j < |s| ==> s[i] != s[j]
  }

  function Removed<T>(s: seq<T>, i: nat): seq<T>
    requires i < |s|
  {
    s[..i] + s[i + 1..]
  }

  lemma RemovedMembers<T>(s: seq<T>, i: nat)
    requires Distinct(s) && i < |s|
    ensures Distinct(Removed(s, i))
    ensures forall x :: x in Removed(s, i) <==> x in s && x != s[i]
  {
    var r := Removed(s, i);
    assert forall k :: 0 <= k < |r| ==> r[k] == s[if k < i then k else k + 1];
    forall x | x in s && x != s[i]
      ensures x in r
    {
      var k :| 0 <= k < |s| && s[k] == x;
      assert r[if k < i then k else k - 1] == x;
    }
  }

  /** Distinct elements are as many as the set of them. */
  lemma {:induction false} DistinctCount<T>(s: seq<T>, items: set<T>)
    requires Distinct(s) && forall x :: x in s <==> x in items
    ensures |s| == |items|
  {
    if s == [] {
      assert items == {};
    } else {
      var init, last := s[..|s| - 1], s[|s| - 1];
      assert forall x :: x in s <==> x in init || x == last;
      assert last !in init;
      DistinctCount(init, items - {last});
    }
  }

  lemma SubsetCount<T>(a: set<T>, b: set<T>)
    requires a <= b
    ensures |a| <= |b|
  {
    assert b == a + (b - a);
  }

  lemma Regroup<T>(a: seq<T>, b: seq<T>, x: T, c: seq<T>, d: seq<T>)
    ensures a + (b + [x] + c) + d == a + b + ([x] + c + d)
    ensures a + (b + [x] + c) + d == (a + b + [x]) + c + d
  {
  }

  lemma RegroupAround<T>(a: seq<T>, b: seq<T>, x: T, c: seq<T>, d: seq<T>)
    ensures a + (b + [x] + c) + d == (a + b) + [x] + (c + d)
  {
  }

  lemma RegroupFour<T>(a: seq<T>, b: seq<T>, c: seq<T>, d: seq<T>)
    ensures a + (b + c) + d == a + b + c + d
  {
  }

  /** A run of a longer sequence, taken apart around one of its elements. */
  lemma RunSplit<T>(s: seq<T>, from: nat, a: seq<T>, x: T, b: seq<T>)
    requires from + |a| + 1 + |b| <= |s| && a + [x] + b == s[from..from + |a| + 1 + |b|]
    ensures a == s[from..from + |a|] && x == s[from + |a|]
    ensures b == s[from + |a| + 1..from + |a| + 1 + |b|]
  {
    var run := a + [x] + b;
    assert a == run[..|a|] && x == run[|a|] && b == run[|a| + 1..];
  }

  lemma Joined<T>(a: seq<T>, b: seq<T>, c: seq<T>)
    ensures a + b + c == a + (b + c)
  {
  }

  /** One sequence after the other. */
  function Flat<T>(all: seq<seq<T>>): seq<T> {
    if all == [] then [] else Flat(all[..|all| - 1]) + all[|all| - 1]
  }

  lemma FlatMore<T>(all: seq<seq<T>>, last: seq<T>)
    ensures Flat(all + [last]) == Flat(all) + last
  {
    assert (all + [last])[..|all|] == all;
  }
}
