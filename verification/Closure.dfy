/**
 Reflexive-transitive closures of relations.
 */
module Closures {

  /** `p` leads from `a` to `b` by steps of `R`. */
  ghost predicate Path<W(!new)>(R: (W, W) -> bool, p: seq<W>, a: W, b: W) {
    if p == [] then a == b else R(a, p[0]) && Path(R, p[1..], p[0], b)
  }

  ghost predicate Star<W(!new)>(R: (W, W) -> bool, a: W, b: W) {
    exists p :: Path(R, p, a, b)
  }

  lemma StarRefl<W(!new)>(R: (W, W) -> bool, a: W)
    ensures Star(R, a, a)
  {
    assert Path(R, [], a, a);
  }

  lemma {:induction false} PathConcat<W(!new)>(R: (W, W) -> bool, p: seq<W>, q: seq<W>, a: W, b: W, c: W)
    requires Path(R, p, a, b) && Path(R, q, b, c)
    ensures Path(R, p + q, a, c)
    decreases |p|
  {
    if p == [] {
      assert p + q == q;
    } else {
      PathConcat(R, p[1..], q, p[0], b, c);
      assert (p + q)[1..] == p[1..] + q;
    }
  }

  lemma StarTrans<W(!new)>(R: (W, W) -> bool, a: W, b: W, c: W)
    requires Star(R, a, b) && Star(R, b, c)
    ensures Star(R, a, c)
  {
    var p :| Path(R, p, a, b);
    var q :| Path(R, q, b, c);
    PathConcat(R, p, q, a, b, c);
  }

  lemma StarStep<W(!new)>(R: (W, W) -> bool, a: W, b: W)
    requires R(a, b)
    ensures Star(R, a, b)
  {
    assert Path(R, [b], a, b) by {
      assert Path(R, [b][1..], b, b);
    }
  }

  /** A set closed under the relation holds whatever it leads to. */
  lemma {:induction false} ClosedHolds<W(!new)>(R: (W, W) -> bool, X: W -> bool, p: seq<W>, a: W, b: W)
    requires Path(R, p, a, b) && X(a) && forall x, y :: X(x) && R(x, y) ==> X(y)
    ensures X(b)
    decreases |p|
  {
    if p != [] {
      ClosedHolds(R, X, p[1..], p[0], b);
    }
  }

  /** Steps of `R` are runs of `S`, so runs of `R` are runs of `S`. */
  lemma {:induction false} PathWithin<W(!new)>(R: (W, W) -> bool, S: (W, W) -> bool, p: seq<W>, a: W, b: W)
    requires Path(R, p, a, b) && forall x, y :: R(x, y) ==> Star(S, x, y)
    ensures Star(S, a, b)
    decreases |p|
  {
    if p == [] {
      StarRefl(S, a);
    } else {
      PathWithin(R, S, p[1..], p[0], b);
      StarTrans(S, a, p[0], b);
    }
  }

  lemma StarWithin<W(!new)>(R: (W, W) -> bool, S: (W, W) -> bool, a: W, b: W)
    requires Star(R, a, b) && forall x, y :: R(x, y) ==> Star(S, x, y)
    ensures Star(S, a, b)
  {
    var p :| Path(R, p, a, b);
    PathWithin(R, S, p, a, b);
  }

  /** Mutually derivable relations have the same closure. */
  lemma StarSame<W(!new)>(R: (W, W) -> bool, S: (W, W) -> bool, a: W, b: W)
    requires forall x, y :: R(x, y) ==> Star(S, x, y)
    requires forall x, y :: S(x, y) ==> Star(R, x, y)
    ensures Star(R, a, b) <==> Star(S, a, b)
  {
    if Star(R, a, b) {
      StarWithin(R, S, a, b);
    }
    if Star(S, a, b) {
      StarWithin(S, R, a, b);
    }
  }

  /** A run inside `X`, step by step reversed by `S`. */
  lemma {:induction false} StarReverse<W(!new)>(R: (W, W) -> bool, S: (W, W) -> bool, X: W -> bool, p: seq<W>, a: W, b: W)
    requires Path(R, p, a, b) && X(a) && forall x, y :: X(x) && R(x, y) ==> X(y) && S(y, x)
    ensures Star(S, b, a)
    decreases |p|
  {
    if p == [] {
      StarRefl(S, a);
    } else {
      StarReverse(R, S, X, p[1..], p[0], b);
      StarStep(S, p[0], a);
      StarTrans(S, b, p[0], a);
    }
  }
}
