/**
 Words over a finite alphabet of letters `0..n`, the shortlex order on them, and
 deterministic walks through complete transition tables.

 Words grow at their end, so every recursion here peels the last letter.
 */
module Words {

  type Word = seq<nat>

  /** The word without its last letter. */
  function Init(w: Word): Word
    requires w != []
  {
    w[..|w| - 1]
  }

  function Last(w: Word): nat
    requires w != []
  {
    w[|w| - 1]
  }

  /** Every letter of `w` belongs to the alphabet `0..n`. */
  ghost predicate Over(w: Word, n: nat) {
    forall i :: 0 <= i < |w| ==> w[i] < n
  }

  /** Shortlex: shorter words first, then letter by letter. */
  predicate Before(u: Word, v: Word)
    decreases |u|
  {
    || |u| < |v|
    || (|u| == |v| && u != [] && (Before(Init(u), Init(v)) || (Init(u) == Init(v) && Last(u) < Last(v))))
  }

  ghost predicate AtMost(u: Word, v: Word) {
    u == v || Before(u, v)
  }

  /** `Before` is the usual shortlex order: length, then the first letter that differs. */
  lemma {:induction false} BeforeIsShortlex(u: Word, v: Word)
    ensures Before(u, v) <==>
            || |u| < |v|
            || (|u| == |v| && exists i :: 0 <= i < |u| && u[..i] == v[..i] && u[i] < v[i])
    decreases |u|
  {
    if |u| == |v| && u != [] {
      BeforeIsShortlex(Init(u), Init(v));
      var n := |u| - 1;
      if Before(Init(u), Init(v)) {
        var i :| 0 <= i < n && Init(u)[..i] == Init(v)[..i] && Init(u)[i] < Init(v)[i];
        assert u[..i] == Init(u)[..i] && v[..i] == Init(v)[..i];
        assert u[i] < v[i];
      } else if Init(u) == Init(v) && Last(u) < Last(v) {
        assert u[..n] == v[..n] && u[n] < v[n];
      } else {
        forall i | 0 <= i < |u| && u[..i] == v[..i]
          ensures u[i] >= v[i]
        {
          if i < n {
            assert Init(u)[..i] == u[..i] && Init(v)[..i] == v[..i];
            assert Init(u)[i] == u[i] && Init(v)[i] == v[i];
          } else {
            assert Init(u) == u[..i] && Init(v) == v[..i];
          }
        }
      }
    }
  }

  lemma {:induction false} BeforeTransitive(u: Word, v: Word, w: Word)
    requires Before(u, v) && Before(v, w)
    ensures Before(u, w)
    decreases |u|
  {
    if |u| == |v| == |w| {
      if Before(Init(u), Init(v)) && Before(Init(v), Init(w)) {
        BeforeTransitive(Init(u), Init(v), Init(w));
      }
    }
  }

  lemma {:induction false} BeforeIrreflexive(u: Word)
    ensures !Before(u, u)
    decreases |u|
  {
    if u != [] {
      BeforeIrreflexive(Init(u));
    }
  }

  lemma {:induction false} BeforeTotal(u: Word, v: Word)
    ensures u == v || Before(u, v) || Before(v, u)
    decreases |u|
  {
    if |u| == |v| && u != [] {
      BeforeTotal(Init(u), Init(v));
      assert u == Init(u) + [Last(u)] && v == Init(v) + [Last(v)];
    }
  }

  /** Two words that are each at most the other are the same word. */
  lemma AtMostAntisymmetric(u: Word, v: Word)
    requires AtMost(u, v) && AtMost(v, u)
    ensures u == v
  {
    if u != v {
      BeforeTransitive(u, v, u);
      BeforeIrreflexive(u);
    }
  }

  lemma AtMostTransitive(u: Word, v: Word, w: Word)
    requires AtMost(u, v) && AtMost(v, w)
    ensures AtMost(u, w)
  {
    if u != v && v != w {
      BeforeTransitive(u, v, w);
    }
  }

  /** A complete transition table: every class has one successor per letter. */
  ghost predicate Table(act: seq<seq<nat>>, n: nat) {
    && (forall c {:trigger act[c]} :: 0 <= c < |act| ==> |act[c]| == n)
    && (forall c, a {:trigger act[c][a]} :: 0 <= c < |act| && 0 <= a < n ==> act[c][a] < |act|)
  }

  /** The class reached from `c` by reading `w`. */
  ghost function Walk(act: seq<seq<nat>>, n: nat, c: nat, w: Word): (d: nat)
    requires Table(act, n) && c < |act| && Over(w, n)
    ensures d < |act|
    decreases |w|
  {
    if w == [] then c else act[Walk(act, n, c, Init(w))][Last(w)]
  }

  lemma {:induction false} WalkConcat(act: seq<seq<nat>>, n: nat, c: nat, u: Word, v: Word)
    requires Table(act, n) && c < |act| && Over(u, n) && Over(v, n)
    ensures Over(u + v, n)
    ensures Walk(act, n, c, u + v) == Walk(act, n, Walk(act, n, c, u), v)
    decreases |v|
  {
    if v == [] {
      assert u + v == u;
    } else {
      WalkConcat(act, n, c, u, Init(v));
      assert Init(u + v) == u + Init(v);
    }
  }
}
