/**
 Leaves: partial deterministic transition tables, state 0 initial
 (src/cegar/model.cc). A leaf's language is the set of words it fires to completion.
 */
module Leaves {
  import opened Words

  datatype Option<T> = None | Some(value: T)

  /** `delta[q][a]` is the successor of state `q` on letter `a`, or -1. */
  datatype Lts = Lts(nStates: nat, nLetters: nat, delta: seq<seq<int>>) {
    ghost predicate Valid() {
      && nStates >= 1
      && |delta| == nStates
      && (forall q {:trigger delta[q]} :: 0 <= q < nStates ==> |delta[q]| == nLetters)
      && (forall q, a {:trigger delta[q][a]} :: 0 <= q < nStates && 0 <= a < nLetters ==>
            -1 <= delta[q][a] < nStates)
    }

    function Step(q: nat, a: nat): (r: int)
      requires Valid() && q < nStates && a < nLetters
      ensures -1 <= r < nStates
    {
      delta[q][a]
    }

    /** The state reached from `q` by `w`, or -1 if some step is undefined. */
    ghost function Run(q: nat, w: Word): (r: int)
      requires Valid() && q < nStates && Over(w, nLetters)
      ensures -1 <= r < nStates
      decreases |w|
    {
      if w == [] then q
      else
        var p := Run(q, Init(w));
        if p < 0 then -1 else Step(p, Last(w))
    }

    ghost predicate Fires(w: Word)
      requires Valid() && Over(w, nLetters)
    {
      Run(0, w) >= 0
    }

    /** Membership: the reached state, or none if some step is undefined. */
    method Fire(w: Word) returns (r: Option<nat>)
      requires Valid() && Over(w, nLetters)
      ensures r.Some? <==> Fires(w)
      ensures r.Some? ==> r.value == Run(0, w)
    {
      var q: nat := 0;
      for i := 0 to |w|
        invariant q < nStates && q == Run(0, w[..i])
      {
        assert Init(w[..i + 1]) == w[..i];
        var next := Step(q, w[i]);
        if next < 0 {
          assert Run(0, w[..i + 1]) < 0;
          assert w == w[..i + 1] + w[i + 1..];
          RunConcat(this, 0, w[..i + 1], w[i + 1..]);
          return None;
        }
        q := next;
      }
      assert w[..|w|] == w;
      return Some(q);
    }
  }

  lemma {:induction false} RunConcat(l: Lts, q: nat, u: Word, v: Word)
    requires l.Valid() && q < l.nStates && Over(u, l.nLetters) && Over(v, l.nLetters)
    ensures Over(u + v, l.nLetters)
    ensures var p := l.Run(q, u);
            l.Run(q, u + v) == if p < 0 then -1 else l.Run(p, v)
    decreases |v|
  {
    if v == [] {
      assert u + v == u;
    } else {
      RunConcat(l, q, u, Init(v));
      assert Init(u + v) == u + Init(v);
      assert Last(u + v) == Last(v);
    }
  }

  /** A leaf's language is prefix-closed. */
  lemma FiresPrefix(l: Lts, u: Word, v: Word)
    requires l.Valid() && Over(u, l.nLetters) && Over(v, l.nLetters) && Over(u + v, l.nLetters)
    requires l.Fires(u + v)
    ensures l.Fires(u)
  {
    RunConcat(l, 0, u, v);
  }
}
