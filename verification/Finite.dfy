/**
 Counting facts about finite sets and sequences that several modules share.
 */
module Finite {

  /** The integers `0..n`. */
  ghost function Range(n: nat): (s: set<int>)
    ensures |s| == n
    ensures forall i :: i in s <==> 0 <= i < n
    decreases n
  {
    if n == 0 then {} else Range(n - 1) + {n - 1}
  }

  ghost predicate Distinct<T>(s: seq<T>) {
    forall i, j :: 0 <= i < j < |s| ==> s[i] != s[j]
  }

  ghost function Elements<T>(s: seq<T>): set<T> {
    set x | x in s
  }

  lemma AnElement<T>(s: set<T>) returns (x: T)
    requires s != {}
    ensures x in s
  {
    x :| x in s;
  }

  method Pick(s: set<int>) returns (x: int)
    requires s != {}
    ensures x in s
  {
    assert exists x :: x in s by {
      var x := AnElement(s);
    }
    x :| x in s;
  }

  lemma SubsetSize<T>(a: set<T>, b: set<T>)
    requires a <= b
    ensures |a| <= |b|
    ensures |a| == |b| ==> a == b
  {
    assert b == a + (b - a);
    assert |b| == |a| + |b - a|;
  }

  /** A sequence without repetition holds as many elements as its length. */
  lemma {:induction false} DistinctSize<T>(s: seq<T>)
    requires Distinct(s)
    ensures |Elements(s)| == |s|
    decreases |s|
  {
    if s == [] {
      assert Elements(s) == {};
    } else {
      var n := |s| - 1;
      DistinctSize(s[..n]);
      assert Elements(s) == Elements(s[..n]) + {s[n]};
    }
  }

  /** A sequence has no repetition if all but its last element have none and do not hold that one. */
  lemma DistinctGrows<T>(s: seq<T>, before: seq<T>)
    requires |s| > 0 && before == s[..|s| - 1]
    ensures Distinct(s) <==> Distinct(before) && s[|s| - 1] !in before
  {
    var n := |s| - 1;
    if Distinct(before) && s[n] !in before {
      forall i, j | 0 <= i < j < |s|
        ensures s[i] != s[j]
      {
        assert s[i] == before[i] && (j < n ==> s[j] == before[j]);
      }
    }
    if s[n] in before {
      var i :| 0 <= i < n && before[i] == s[n];
    }
  }

  /** A sequence without repetition, drawn from `u`, is no longer than `u`. */
  lemma DistinctBound<T>(s: seq<T>, u: set<T>)
    requires Distinct(s)
    requires forall i :: 0 <= i < |s| ==> s[i] in u
    ensures |s| <= |u|
  {
    DistinctSize(s);
    SubsetSize(Elements(s), u);
  }
}
