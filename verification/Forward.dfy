/**
 The forward conversion: from a seed and a formula to questions about forward sets
 (src/ctl/forward.cc).
 */
module Forward {
  import opened Finite
  import opened Ctl

  /** How a forward set is built. */
  datatype SetExpr =
    | Init
    | Filter(arg: SetExpr, f: Formula)
    | EY(arg: SetExpr)
    | FwdU(arg: SetExpr, f: Formula)
    | FwdG(arg: SetExpr, f: Formula)
    | Restrict(arg: SetExpr, f: Formula)

  datatype Question = NonEmpty(r: SetExpr) | Any(kids: seq<Question>) | Never

  // ----- Forward sets -----

  ghost function Next(G: Graph, X: set<nat>): set<nat> {
    set t | t in G.states && exists s :: s in X && (s, t) in G.edges
  }

  /** `Z` holds the seed and what a state of it in `q` steps to. */
  ghost predicate Through(G: Graph, r: set<nat>, q: set<nat>, Z: set<nat>) {
    r <= Z && forall s, t :: s in Z && s in q && (s, t) in G.edges ==> t in Z
  }

  /** The states reached from `r` through `q`-states: the least such set. */
  ghost function ReachedThrough(G: Graph, r: set<nat>, q: set<nat>): set<nat> {
    set t | t in G.states && forall Z: set<nat> :: Through(G, r, q, Z) ==> t in Z
  }

  ghost predicate FedFrom(G: Graph, t: nat, Z: set<nat>) {
    exists s :: s in Z && (s, t) in G.edges
  }

  /** Every state of `Z` has a predecessor in `Z`. */
  ghost predicate Fed(G: Graph, Z: set<nat>) {
    forall t {:trigger FedFrom(G, t, Z)} :: t in Z ==> FedFrom(G, t, Z)
  }

  /** The greatest part of `X` that is its own image: the states of `X` fed for ever inside `X`. */
  ghost function Hull(G: Graph, X: set<nat>): set<nat> {
    set t | t in X && exists Z: set<nat> :: Z <= X && Fed(G, Z) && t in Z
  }

  ghost function ReachQ(G: Graph, r: set<nat>, q: set<nat>): set<nat> {
    ReachedThrough(G, r * q, q) * q
  }

  ghost function Globally(G: Graph, r: set<nat>, q: set<nat>): set<nat> {
    Hull(G, ReachQ(G, r, q)) + set s | s in ReachQ(G, r, q) && G.Dead(s)
  }

  ghost function Eval(G: Graph, I: set<nat>, e: SetExpr): set<nat> {
    match e
    case Init => I
    case Filter(r, f) => Eval(G, I, r) * Sat(G, f)
    case EY(r) => Next(G, Eval(G, I, r))
    case FwdU(r, q) => ReachedThrough(G, Eval(G, I, r), Sat(G, q))
    case FwdG(r, q) => Globally(G, Eval(G, I, r), Sat(G, q))
    case Restrict(r, f) => Eval(G, I, r) * Sat(G, f)
  }

  ghost predicate Answer(G: Graph, I: set<nat>, q: Question) {
    match q
    case NonEmpty(r) => Eval(G, I, r) != {}
    case Any(kids) => exists i :: 0 <= i < |kids| && Answer(G, I, kids[i])
    case Never => false
  }

  lemma {:induction false} EvalInside(G: Graph, I: set<nat>, e: SetExpr)
    requires I <= G.states
    ensures Eval(G, I, e) <= G.states
  {
    match e
    case Init =>
    case Filter(r, _) => EvalInside(G, I, r);
    case EY(_) =>
    case FwdU(_, _) =>
    case FwdG(_, _) =>
    case Restrict(r, _) => EvalInside(G, I, r);
  }

  // ----- Questions -----

  /** The children, spliced, without the ones that never answer yes. */
  function SpliceAny(kids: seq<Question>): seq<Question>
    decreases |kids|
  {
    if kids == [] then []
    else
      var before, k := SpliceAny(kids[..|kids| - 1]), kids[|kids| - 1];
      match k
      case Never => before
      case Any(more) => before + more
      case NonEmpty(_) => before + [k]
  }

  function OnceQ(qs: seq<Question>): (r: seq<Question>)
    ensures forall q :: q in r <==> q in qs
    decreases |qs|
  {
    if qs == [] then []
    else
      var before, q := OnceQ(qs[..|qs| - 1]), qs[|qs| - 1];
      assert qs == qs[..|qs| - 1] + [q];
      if q in before then before else before + [q]
  }

  function AnyOf(kids: seq<Question>): Question {
    var once := OnceQ(SpliceAny(kids));
    if once == [] then Never else if |once| == 1 then once[0] else Any(once)
  }

  ghost predicate SomeAnswer(G: Graph, I: set<nat>, qs: seq<Question>) {
    exists q :: q in qs && Answer(G, I, q)
  }

  lemma AnswerAny(G: Graph, I: set<nat>, qs: seq<Question>)
    ensures Answer(G, I, Any(qs)) <==> SomeAnswer(G, I, qs)
  {
    if Answer(G, I, Any(qs)) {
      var i :| 0 <= i < |qs| && Answer(G, I, qs[i]);
      assert qs[i] in qs;
    }
    if SomeAnswer(G, I, qs) {
      var q :| q in qs && Answer(G, I, q);
      var i :| 0 <= i < |qs| && qs[i] == q;
    }
  }

  lemma SomeAnswerConcat(G: Graph, I: set<nat>, a: seq<Question>, b: seq<Question>)
    ensures SomeAnswer(G, I, a + b) <==> SomeAnswer(G, I, a) || SomeAnswer(G, I, b)
  {
    assert forall q :: q in a + b <==> q in a || q in b;
  }

  lemma SomeAnswerOne(G: Graph, I: set<nat>, q: Question)
    ensures SomeAnswer(G, I, [q]) <==> Answer(G, I, q)
  {
    assert q in [q];
  }

  lemma {:induction false} SpliceAnyAnswer(G: Graph, I: set<nat>, kids: seq<Question>)
    ensures SomeAnswer(G, I, SpliceAny(kids)) <==> SomeAnswer(G, I, kids)
    decreases |kids|
  {
    if kids != [] {
      var n := |kids| - 1;
      var k := kids[n];
      SpliceAnyAnswer(G, I, kids[..n]);
      assert kids == kids[..n] + [k];
      SomeAnswerConcat(G, I, kids[..n], [k]);
      SomeAnswerOne(G, I, k);
      SomeAnswerConcat(G, I, SpliceAny(kids[..n]), if k.Any? then k.kids else [k]);
      if k.Any? {
        AnswerAny(G, I, k.kids);
      }
    }
  }

  lemma AnyOfAnswer(G: Graph, I: set<nat>, kids: seq<Question>)
    ensures Answer(G, I, AnyOf(kids)) <==> SomeAnswer(G, I, kids)
  {
    var flat := SpliceAny(kids);
    var once := OnceQ(flat);
    SpliceAnyAnswer(G, I, kids);
    assert SomeAnswer(G, I, once) <==> SomeAnswer(G, I, flat);
    AnswerAny(G, I, once);
    if |once| == 1 {
      assert once == [once[0]];
      SomeAnswerOne(G, I, once[0]);
    }
  }

  // ----- Structure of formulas -----

  predicate IsExistential(f: Formula) {
    f.EX? || f.EF? || f.EG? || f.EU? || f.EW?
  }

  /** No path operator anywhere. */
  predicate IsState(f: Formula)
    decreases f
  {
    match f
    case Atom(_) => true
    case True => true
    case False => true
    case Not(g) => IsState(g)
    case And(kids) => forall i :: 0 <= i < |kids| ==> IsState(kids[i])
    case Or(kids) => forall i :: 0 <= i < |kids| ==> IsState(kids[i])
    case _ => false
  }

  predicate Convertible(f: Formula)
    decreases f
  {
    || IsState(f)
    || IsExistential(f)
    || (f.And? && forall i :: 0 <= i < |f.kids| ==> Convertible(f.kids[i]))
    || (f.Or? && forall i :: 0 <= i < |f.kids| ==> Convertible(f.kids[i]))
  }

  // ----- The rules -----

  /** The state formulas among the conjuncts, or the others. */
  function Select(fs: seq<Formula>, state: bool): (r: seq<Formula>)
    ensures forall f :: f in r <==> f in fs && IsState(f) == state
    ensures |r| <= |fs|
    decreases |fs|
  {
    if fs == [] then []
    else
      var rest := Select(fs[1..], state);
      assert forall f :: f in fs <==> f == fs[0] || f in fs[1..];
      if IsState(fs[0]) == state then [fs[0]] + rest else rest
  }

  function Reverse(fs: seq<Formula>): (r: seq<Formula>)
    ensures forall f :: f in r <==> f in fs
    decreases |fs|
  {
    if fs == [] then []
    else
      assert forall f :: f in fs <==> f == fs[0] || f in fs[1..];
      Reverse(fs[1..]) + [fs[0]]
  }

  /** Walk the temporal conjuncts from the last: the first convertible one goes forward, the others restrict. */
  datatype Walk = Walk(cur: SetExpr, forward: seq<Formula>)

  function WalkBack(r: SetExpr, rest: seq<Formula>): (w: Walk)
    ensures |w.forward| <= 1 && forall f :: f in w.forward ==> f in rest
    decreases |rest|
  {
    if rest == [] then Walk(r, [])
    else
      var later := WalkBack(r, rest[1..]);
      assert forall f :: f in rest <==> f == rest[0] || f in rest[1..];
      if later.forward == [] && Convertible(rest[0]) then Walk(later.cur, [rest[0]])
      else Walk(Restrict(later.cur, rest[0]), later.forward)
  }

  /** The question whether the seed meets the formula. */
  function Rule(r: SetExpr, phi: Formula, fromLeft: bool): Question
    decreases phi, 1
  {
    if IsState(phi) then
      (if phi == False then Never
       else if phi == True then NonEmpty(r)
       else NonEmpty(Filter(r, phi)))
    else
      match phi
      case EX(f) => Rule(EY(r), f, fromLeft)
      case EF(f) => Rule(FwdU(r, True), f, fromLeft)
      case EU(q, f) => Rule(FwdU(r, q), f, fromLeft)
      case EG(q) => NonEmpty(FwdG(r, q))
      case EW(q, f) => AnyOf([Rule(FwdU(r, q), f, fromLeft), NonEmpty(FwdG(r, q))])
      case Or(kids) => AnyOf(RuleAll(r, kids, fromLeft))
      case And(kids) =>
        var state, temporal := Select(kids, true), Select(kids, false);
        var seed := if state == [] then r else Filter(r, Nary(true, state));
        var walk := WalkBack(seed, if fromLeft then Reverse(temporal) else temporal);
        if walk.forward == [] then NonEmpty(walk.cur)
        else
          assert walk.forward[0] in walk.forward;
          assert walk.forward[0] in kids;
          Rule(walk.cur, walk.forward[0], fromLeft)
      case _ => NonEmpty(Restrict(r, phi))
  }

  function RuleAll(r: SetExpr, fs: seq<Formula>, fromLeft: bool): (qs: seq<Question>)
    ensures |qs| == |fs| && forall i :: 0 <= i < |fs| ==> qs[i] == Rule(r, fs[i], fromLeft)
    decreases fs, 0
  {
    if fs == [] then [] else [Rule(r, fs[0], fromLeft)] + RuleAll(r, fs[1..], fromLeft)
  }

  /** The source's loop from the last conjunct. */
  method WalkConjuncts(r: SetExpr, rest: seq<Formula>) returns (cur: SetExpr, fwd: Formula, haveFwd: bool)
    ensures cur == WalkBack(r, rest).cur
    ensures WalkBack(r, rest).forward == if haveFwd then [fwd] else []
  {
    cur, fwd, haveFwd := r, True, false;
    var i := |rest|;
    while i > 0
      invariant 0 <= i <= |rest|
      invariant WalkBack(r, rest[i..]) == Walk(cur, if haveFwd then [fwd] else [])
    {
      i := i - 1;
      assert rest[i..][1..] == rest[i + 1..];
      if !haveFwd && Convertible(rest[i]) {
        fwd, haveFwd := rest[i], true;
      } else {
        cur := Restrict(cur, rest[i]);
      }
    }
    assert rest[0..] == rest;
  }

  datatype ForwardForm = ForwardForm(root: Question, negated: bool)

  /** A formula as a question tree; the verdict is the answer, or its complement. */
  function Convert(phi: Formula, singleInitial: bool, fromLeft: bool): ForwardForm {
    var nf := Nnf(phi);
    if singleInitial && Convertible(nf) then ForwardForm(Rule(Init, nf, fromLeft), false)
    else ForwardForm(Rule(Init, Negate(nf), fromLeft), true)
  }

  // ----- Images and forward closures -----

  ghost predicate Meets(X: set<nat>, Y: set<nat>) {
    exists s :: s in X && s in Y
  }

  lemma MeetsProduct(X: set<nat>, Y: set<nat>)
    ensures X * Y != {} <==> Meets(X, Y)
  {
    if X * Y != {} {
      var s := AnElement(X * Y);
    }
    if Meets(X, Y) {
      var s :| s in X && s in Y;
      assert s in X * Y;
    }
  }

  lemma NextMeets(G: Graph, X: set<nat>, f: Formula)
    requires G.Valid() && X <= G.states
    ensures Meets(Next(G, X), Sat(G, f)) <==> Meets(X, Sat(G, EX(f)))
  {
    if Meets(Next(G, X), Sat(G, f)) {
      var t :| t in Next(G, X) && t in Sat(G, f);
      var s :| s in X && (s, t) in G.edges;
      assert G.Some(s, Sat(G, f));
      assert s in Sat(G, EX(f));
    }
    if Meets(X, Sat(G, EX(f))) {
      var s :| s in X && s in Sat(G, EX(f));
      assert Holds(G, EX(f), s);
      var t :| (s, t) in G.edges && t in Sat(G, f);
      assert t in Next(G, X);
    }
  }

  ghost function UntilSet(G: Graph, exist: bool, strong: bool, a: set<nat>, b: set<nat>): set<nat> {
    set s | s in G.states && Until(G, exist, strong, a, b, s)
  }

  /** An existential strong until holds where its step does. */
  lemma UntilUnfold(G: Graph, a: set<nat>, b: set<nat>, s: nat)
    requires G.Valid() && s in G.states && UntilStep(G, true, true, a, b, UntilSet(G, true, true, a, b), s)
    ensures Until(G, true, true, a, b, s)
  {
    forall X | Prefixed(G, true, true, a, b, X)
      ensures s in X
    {
      if s !in b {
        var t :| (s, t) in G.edges && t in UntilSet(G, true, true, a, b);
        assert t in X;
        assert UntilStep(G, true, true, a, b, X, s);
      }
    }
  }

  lemma ReachedInside(G: Graph, r: set<nat>, q: set<nat>)
    requires r <= G.states
    ensures r <= ReachedThrough(G, r, q)
  {
  }

  lemma ReachedStep(G: Graph, r: set<nat>, q: set<nat>, s: nat, t: nat)
    requires G.Valid() && s in ReachedThrough(G, r, q) && s in q && (s, t) in G.edges
    ensures t in ReachedThrough(G, r, q)
  {
  }

  lemma NotReached(G: Graph, r: set<nat>, q: set<nat>, s: nat, t: nat)
    requires G.Valid() && t !in ReachedThrough(G, r, q) && s in q && (s, t) in G.edges
    ensures s !in ReachedThrough(G, r, q)
  {
    if s in ReachedThrough(G, r, q) {
      ReachedStep(G, r, q, s, t);
    }
  }

  /** Reaching `b` through `a` forward is satisfying `E[a U b]` at the seed. */
  lemma ReachedMeets(G: Graph, r: set<nat>, a: set<nat>, b: set<nat>)
    requires G.Valid() && r <= G.states
    ensures Meets(ReachedThrough(G, r, a), b) <==> Meets(r, UntilSet(G, true, true, a, b))
  {
    var F, U := ReachedThrough(G, r, a), UntilSet(G, true, true, a, b);
    if Meets(r, U) && !Meets(F, b) {
      var s :| s in r && s in U;
      var Y := G.states - F;
      forall x | x in G.states && UntilStep(G, true, true, a, b, Y, x)
        ensures x in Y
      {
        assert x !in b || x !in F;
        if x in a && G.Some(x, Y) {
          var y :| (x, y) in G.edges && y in Y;
          NotReached(G, r, a, x, y);
        }
      }
      assert Prefixed(G, true, true, a, b, Y);
      ReachedInside(G, r, a);
    }
    if Meets(F, b) && !Meets(r, U) {
      var t :| t in F && t in b;
      var Z := G.states - U;
      forall x, y | x in Z && x in a && (x, y) in G.edges
        ensures y in Z
      {
        if y in U {
          assert G.Some(x, U);
          UntilUnfold(G, a, b, x);
        }
      }
      assert Through(G, r, a, Z);
      UntilUnfold(G, a, b, t);
    }
  }

  lemma UntilIsSat(G: Graph, q: Formula, f: Formula)
    ensures Sat(G, EU(q, f)) == UntilSet(G, true, true, Sat(G, q), Sat(G, f))
    ensures Sat(G, EF(f)) == UntilSet(G, true, true, Sat(G, True), Sat(G, f))
    ensures Sat(G, EG(q)) == UntilSet(G, true, false, Sat(G, q), {})
    ensures Sat(G, EW(q, f)) == UntilSet(G, true, false, Sat(G, q), Sat(G, f))
  {
    assert Sat(G, True) == G.states;
  }

  // ----- Cycles -----

  /** Every state of `Z` has a successor in `Z`. */
  ghost predicate Flows(G: Graph, Z: set<nat>) {
    forall s {:trigger G.Some(s, Z)} :: s in Z ==> G.Some(s, Z)
  }

  /** Without a state that nothing in the set feeds, the others still flow. */
  lemma DropUnfed(G: Graph, X: set<nat>, t: nat)
    requires Flows(G, X) && t in X && !FedFrom(G, t, X)
    ensures X - {t} != {} && Flows(G, X - {t})
  {
    var Y := X - {t};
    forall s | s in X
      ensures G.Some(s, Y)
    {
      assert G.Some(s, X);
      var u :| (s, u) in G.edges && u in X;
      assert u in Y;
    }
    assert G.Some(t, Y);
  }

  /** In a finite set where every state has a successor, some states are fed for ever: a cycle. */
  lemma {:induction false} FlowsFed(G: Graph, X: set<nat>) returns (Z: set<nat>)
    requires X != {} && Flows(G, X)
    ensures Z != {} && Z <= X && Fed(G, Z)
    decreases |X|
  {
    if Fed(G, X) {
      Z := X;
    } else {
      var t :| t in X && !FedFrom(G, t, X);
      DropUnfed(G, X, t);
      Z := FlowsFed(G, X - {t});
    }
  }

  lemma DropStuck(G: Graph, X: set<nat>, s: nat)
    requires Fed(G, X) && s in X && !G.Some(s, X)
    ensures X - {s} != {} && Fed(G, X - {s})
  {
    var Y := X - {s};
    forall t | t in X
      ensures FedFrom(G, t, Y)
    {
      assert FedFrom(G, t, X);
      var u :| u in X && (u, t) in G.edges;
      assert u in Y;
    }
    assert FedFrom(G, s, Y);
  }

  lemma {:induction false} FedFlows(G: Graph, X: set<nat>) returns (Z: set<nat>)
    requires X != {} && Fed(G, X)
    ensures Z != {} && Z <= X && Flows(G, Z)
    decreases |X|
  {
    if Flows(G, X) {
      Z := X;
    } else {
      var s :| s in X && !G.Some(s, X);
      DropStuck(G, X, s);
      Z := FedFlows(G, X - {s});
    }
  }

  // ----- EG -----

  ghost function Always(G: Graph, q: set<nat>): set<nat> {
    UntilSet(G, true, false, q, {})
  }

  /** `EG q` at a state: in `q`, and dead or with such a successor. */
  lemma AlwaysUnfold(G: Graph, q: set<nat>, s: nat)
    requires G.Valid() && s in Always(G, q)
    ensures s in q && (G.Dead(s) || G.Some(s, Always(G, q)))
  {
    var X :| Postfixed(G, true, false, q, {}, X) && s in X;
    assert UntilStep(G, true, false, q, {}, X, s);
    if !G.Dead(s) {
      var t :| (s, t) in G.edges && t in X;
      assert t in Always(G, q);
    }
  }

  lemma AlwaysFold(G: Graph, q: set<nat>, s: nat)
    requires G.Valid() && s in G.states && s in q && (G.Dead(s) || G.Some(s, Always(G, q)))
    ensures s in Always(G, q)
  {
    var X := Always(G, q) + {s};
    forall x | x in X
      ensures UntilStep(G, true, false, q, {}, X, x)
    {
      if x in Always(G, q) {
        AlwaysUnfold(G, q, x);
        if G.Some(x, Always(G, q)) {
          var t :| (x, t) in G.edges && t in Always(G, q);
          assert t in X;
        }
      } else if G.Some(s, Always(G, q)) {
        var t :| (s, t) in G.edges && t in Always(G, q);
        assert t in X;
      }
    }
    assert Postfixed(G, true, false, q, {}, X);
  }

  /** A set of `q`-states that flows satisfies `EG q`. */
  lemma FlowsAlways(G: Graph, q: set<nat>, Z: set<nat>)
    requires Z <= q * G.states && Flows(G, Z)
    ensures Z <= Always(G, q)
  {
    forall s | s in Z
      ensures UntilStep(G, true, false, q, {}, Z, s)
    {
      assert G.Some(s, Z);
    }
    assert Postfixed(G, true, false, q, {}, Z);
  }

  /** Where `EG q` is reached through `q`, it held at the start. */
  lemma AlwaysReached(G: Graph, r: set<nat>, q: set<nat>)
    requires G.Valid() && r <= G.states && Meets(ReachedThrough(G, r * q, q), Always(G, q))
    ensures Meets(r, Always(G, q))
  {
    ReachedMeets(G, r * q, q, Always(G, q));
    var s :| s in r * q && s in UntilSet(G, true, true, q, Always(G, q));
    forall x | x in G.states && UntilStep(G, true, true, q, Always(G, q), Always(G, q), x)
      ensures x in Always(G, q)
    {
      if x !in Always(G, q) {
        AlwaysFold(G, q, x);
      }
    }
    assert Prefixed(G, true, true, q, Always(G, q), Always(G, q));
  }

  /** The forward hull answers `EG q` at the seed. */
  lemma GloballyMeets(G: Graph, r: set<nat>, q: set<nat>)
    requires G.Valid() && r <= G.states && q <= G.states
    ensures Globally(G, r, q) != {} <==> Meets(r, Always(G, q))
  {
    if Globally(G, r, q) != {} {
      GloballySound(G, r, q);
    }
    if Meets(r, Always(G, q)) {
      GloballyComplete(G, r, q);
    }
  }

  lemma GloballySound(G: Graph, r: set<nat>, q: set<nat>)
    requires G.Valid() && r <= G.states && q <= G.states && Globally(G, r, q) != {}
    ensures Meets(r, Always(G, q))
  {
    var R := ReachQ(G, r, q);
    var s := AnElement(Globally(G, r, q));
    if s in R && G.Dead(s) {
      AlwaysFold(G, q, s);
      assert s in ReachedThrough(G, r * q, q) && s in Always(G, q);
    } else {
      var Z: set<nat> :| Z <= R && Fed(G, Z) && s in Z;
      var Y := FedFlows(G, Z);
      FlowsAlways(G, q, Y);
      var y := AnElement(Y);
      assert y in ReachedThrough(G, r * q, q) && y in Always(G, q);
    }
    AlwaysReached(G, r, q);
  }

  /** From a live state of the reached part of `EG q`, one stays in it. */
  lemma AlwaysGoesOn(G: Graph, r: set<nat>, q: set<nat>, x: nat)
    requires G.Valid() && x in ReachQ(G, r, q) && x in Always(G, q) && !G.Dead(x)
    ensures G.Some(x, ReachQ(G, r, q) * Always(G, q))
  {
    AlwaysUnfold(G, q, x);
    var t :| (x, t) in G.edges && t in Always(G, q);
    ReachedStep(G, r * q, q, x, t);
    AlwaysUnfold(G, q, t);
    assert t in ReachQ(G, r, q) * Always(G, q);
  }

  lemma GloballyComplete(G: Graph, r: set<nat>, q: set<nat>)
    requires G.Valid() && r <= G.states && q <= G.states && Meets(r, Always(G, q))
    ensures Globally(G, r, q) != {}
  {
    var R := ReachQ(G, r, q);
    var s :| s in r && s in Always(G, q);
    AlwaysUnfold(G, q, s);
    ReachedInside(G, r * q, q);
    var X := R * Always(G, q);
    assert s in X;
    if x :| x in X && G.Dead(x) {
      assert x in Globally(G, r, q);
    } else {
      forall x | x in X
        ensures G.Some(x, X)
      {
        assert !G.Dead(x);
        AlwaysGoesOn(G, r, q, x);
      }
      var Z := FlowsFed(G, X);
      var z := AnElement(Z);
      assert Z <= R && Fed(G, Z) && z in Z;
      assert z in Hull(G, R);
    }
  }

  // ----- EW -----

  /** `E[q W f]` is `E[q U f]` or `EG q`. */
  lemma WeakUntil(G: Graph, a: set<nat>, b: set<nat>)
    requires G.Valid()
    ensures UntilSet(G, true, false, a, b) == UntilSet(G, true, true, a, b) + Always(G, a)
  {
    WeakUntilSplits(G, a, b);
    WeakUntilJoins(G, a, b);
  }

  lemma UnlessUntil(G: Graph, a: set<nat>, b: set<nat>, x: nat, t: nat)
    requires G.Valid() && x in G.states && x in a && (x, t) in G.edges && x !in UntilSet(G, true, true, a, b)
    ensures t !in UntilSet(G, true, true, a, b)
  {
    if t in UntilSet(G, true, true, a, b) {
      UntilUnfold(G, a, b, x);
    }
  }

  lemma WeakUntilSplits(G: Graph, a: set<nat>, b: set<nat>)
    requires G.Valid()
    ensures UntilSet(G, true, false, a, b) <= UntilSet(G, true, true, a, b) + Always(G, a)
  {
    var W, U := UntilSet(G, true, false, a, b), UntilSet(G, true, true, a, b);
    var X := W - U;
    forall x | x in X
      ensures UntilStep(G, true, false, a, {}, X, x)
    {
      var P :| Postfixed(G, true, false, a, b, P) && x in P;
      assert UntilStep(G, true, false, a, b, P, x);
      if x in b {
        UntilUnfold(G, a, b, x);
      } else if !G.Dead(x) {
        var t :| (x, t) in G.edges && t in P;
        assert t in W;
        UnlessUntil(G, a, b, x, t);
        assert t in X;
      }
    }
    assert Postfixed(G, true, false, a, {}, X);
  }

  lemma WeakUntilJoins(G: Graph, a: set<nat>, b: set<nat>)
    requires G.Valid()
    ensures UntilSet(G, true, true, a, b) + Always(G, a) <= UntilSet(G, true, false, a, b)
  {
    var W := UntilSet(G, true, false, a, b);
    forall s | s in Always(G, a)
      ensures s in W
    {
      var P :| Postfixed(G, true, false, a, {}, P) && s in P;
      forall x | x in P
        ensures UntilStep(G, true, false, a, b, P, x)
      {
        assert UntilStep(G, true, false, a, {}, P, x);
      }
      assert Postfixed(G, true, false, a, b, P);
    }
    forall x | x in G.states && UntilStep(G, true, true, a, b, W, x)
      ensures x in W
    {
      WeakFold(G, a, b, x);
    }
    assert Prefixed(G, true, true, a, b, W);
  }

  lemma WeakFold(G: Graph, a: set<nat>, b: set<nat>, s: nat)
    requires G.Valid() && s in G.states && UntilStep(G, true, true, a, b, UntilSet(G, true, false, a, b), s)
    ensures s in UntilSet(G, true, false, a, b)
  {
    if s in b {
      assert Postfixed(G, true, false, a, b, {s});
    } else {
      var t :| (s, t) in G.edges && t in UntilSet(G, true, false, a, b);
      var P :| Postfixed(G, true, false, a, b, P) && t in P;
      var X := P + {s};
      forall x | x in X
        ensures UntilStep(G, true, false, a, b, X, x)
      {
        if x in P {
          assert UntilStep(G, true, false, a, b, P, x);
          if G.Some(x, P) {
            var y :| (x, y) in G.edges && y in P;
            assert y in X;
          }
        } else {
          assert t in X;
        }
      }
      assert Postfixed(G, true, false, a, b, X);
    }
  }

  // ----- The rules keep the question -----

  lemma ConjunctsSat(G: Graph, kids: seq<Formula>)
    ensures Sat(G, And(kids)) == Sat(G, Nary(true, Select(kids, true))) * Sat(G, Nary(true, Select(kids, false)))
  {
    forall s | s in G.states
      ensures Holds(G, And(kids), s) <==>
              Holds(G, Nary(true, Select(kids, true)), s) && Holds(G, Nary(true, Select(kids, false)), s)
    {
      HoldsNary(G, kids, s);
      NaryHolds(G, true, Select(kids, true), s);
      NaryHolds(G, true, Select(kids, false), s);
    }
  }

  /** The walked set, met with what goes forward, is the seed met with all conjuncts. */
  lemma {:induction false} WalkSat(G: Graph, I: set<nat>, r: SetExpr, rest: seq<Formula>)
    requires I <= G.states
    ensures var w := WalkBack(r, rest);
            Eval(G, I, w.cur) * Sat(G, And(w.forward)) == Eval(G, I, r) * Sat(G, And(rest))
    decreases |rest|
  {
    EvalInside(G, I, r);
    if rest == [] {
      assert Sat(G, And([])) == G.states;
    } else {
      var later, w := WalkBack(r, rest[1..]), WalkBack(r, rest);
      WalkSat(G, I, r, rest[1..]);
      ConsSat(G, rest);
      EvalInside(G, I, later.cur);
      var A, B, C := Eval(G, I, later.cur), Sat(G, rest[0]), Sat(G, And(later.forward));
      if later.forward == [] && Convertible(rest[0]) {
        OneConjunct(G, rest[0]);
        assert Sat(G, And([])) == G.states;
        assert A * C == A;
      } else {
        assert (A * B) * C == (A * C) * B;
      }
    }
  }

  lemma ConsSat(G: Graph, fs: seq<Formula>)
    requires fs != []
    ensures Sat(G, And(fs)) == Sat(G, fs[0]) * Sat(G, And(fs[1..]))
  {
    forall s | s in G.states
      ensures Holds(G, And(fs), s) <==> Holds(G, fs[0], s) && Holds(G, And(fs[1..]), s)
    {
      HoldsNary(G, fs, s);
      HoldsNary(G, fs[1..], s);
      assert forall f :: f in fs <==> f == fs[0] || f in fs[1..];
    }
  }

  lemma SameConjuncts(G: Graph, fs: seq<Formula>, gs: seq<Formula>)
    requires forall f :: f in fs <==> f in gs
    ensures Sat(G, And(fs)) == Sat(G, And(gs)) && Sat(G, Nary(true, fs)) == Sat(G, And(gs))
  {
    forall s | s in G.states
      ensures Holds(G, And(fs), s) <==> Holds(G, And(gs), s)
      ensures Holds(G, Nary(true, fs), s) <==> Holds(G, And(gs), s)
    {
      HoldsNary(G, fs, s);
      HoldsNary(G, gs, s);
      NaryHolds(G, true, fs, s);
    }
  }

  /** The seed of the conjunction rule: the state conjuncts as one filter. */
  function SeedOf(r: SetExpr, kids: seq<Formula>): SetExpr {
    var state := Select(kids, true);
    if state == [] then r else Filter(r, Nary(true, state))
  }

  function TemporalOf(kids: seq<Formula>, fromLeft: bool): seq<Formula> {
    var temporal := Select(kids, false);
    if fromLeft then Reverse(temporal) else temporal
  }

  lemma ConjunctionSat(G: Graph, I: set<nat>, r: SetExpr, kids: seq<Formula>, fromLeft: bool)
    requires I <= G.states
    ensures var w := WalkBack(SeedOf(r, kids), TemporalOf(kids, fromLeft));
            Eval(G, I, w.cur) * Sat(G, And(w.forward)) == Eval(G, I, r) * Sat(G, And(kids))
  {
    var state, temporal := Select(kids, true), TemporalOf(kids, fromLeft);
    ConjunctsSat(G, kids);
    SameConjuncts(G, Select(kids, false), temporal);
    WalkSat(G, I, SeedOf(r, kids), temporal);
    EvalInside(G, I, r);
    if state == [] {
      SameConjuncts(G, state, []);
      assert Sat(G, And([])) == G.states;
    }
  }

  lemma OneConjunct(G: Graph, f: Formula)
    ensures Sat(G, And([f])) == Sat(G, f)
  {
    ConsSat(G, [f]);
    assert [f][1..] == [] && Sat(G, And([])) == G.states;
  }

  /** The question asks whether the seed meets the formula. */
  ghost predicate Asks(G: Graph, I: set<nat>, r: SetExpr, phi: Formula, q: Question) {
    Answer(G, I, q) <==> Meets(Eval(G, I, r), Sat(G, phi))
  }

  lemma NonEmptyFilter(G: Graph, I: set<nat>, r: SetExpr, phi: Formula)
    ensures Asks(G, I, r, phi, NonEmpty(Filter(r, phi))) && Asks(G, I, r, phi, NonEmpty(Restrict(r, phi)))
  {
    MeetsProduct(Eval(G, I, r), Sat(G, phi));
  }

  lemma StateRule(G: Graph, I: set<nat>, r: SetExpr, phi: Formula, fromLeft: bool)
    requires I <= G.states && IsState(phi)
    ensures Asks(G, I, r, phi, Rule(r, phi, fromLeft))
  {
    NonEmptyFilter(G, I, r, phi);
    EvalInside(G, I, r);
    if phi == True {
      MeetsProduct(Eval(G, I, r), Sat(G, True));
      assert Eval(G, I, r) * Sat(G, True) == Eval(G, I, r);
    }
  }

  lemma UntilRule(G: Graph, I: set<nat>, r: SetExpr, q: Formula, f: Formula)
    requires G.Valid() && I <= G.states
    ensures Meets(Eval(G, I, FwdU(r, q)), Sat(G, f)) <==> Meets(Eval(G, I, r), Sat(G, EU(q, f)))
    ensures Meets(Eval(G, I, FwdU(r, True)), Sat(G, f)) <==> Meets(Eval(G, I, r), Sat(G, EF(f)))
  {
    EvalInside(G, I, r);
    UntilIsSat(G, q, f);
    ReachedMeets(G, Eval(G, I, r), Sat(G, q), Sat(G, f));
    ReachedMeets(G, Eval(G, I, r), Sat(G, True), Sat(G, f));
  }

  lemma GlobalRule(G: Graph, I: set<nat>, r: SetExpr, q: Formula)
    requires G.Valid() && I <= G.states
    ensures Asks(G, I, r, EG(q), NonEmpty(FwdG(r, q)))
  {
    EvalInside(G, I, r);
    UntilIsSat(G, q, True);
    GloballyMeets(G, Eval(G, I, r), Sat(G, q));
  }

  lemma WeakRule(G: Graph, I: set<nat>, r: SetExpr, q: Formula, f: Formula, until: Question)
    requires G.Valid() && I <= G.states && Asks(G, I, FwdU(r, q), f, until)
    ensures Asks(G, I, r, EW(q, f), AnyOf([until, NonEmpty(FwdG(r, q))]))
  {
    var glob := NonEmpty(FwdG(r, q));
    UntilRule(G, I, r, q, f);
    GlobalRule(G, I, r, q);
    AnyOfAnswer(G, I, [until, glob]);
    assert [until, glob] == [until] + [glob];
    SomeAnswerConcat(G, I, [until], [glob]);
    SomeAnswerOne(G, I, until);
    SomeAnswerOne(G, I, glob);
    UntilIsSat(G, q, f);
    WeakUntil(G, Sat(G, q), Sat(G, f));
    MeetsUnion(Eval(G, I, r), Sat(G, EU(q, f)), Sat(G, EG(q)));
  }

  lemma MeetsUnion(X: set<nat>, Y: set<nat>, Z: set<nat>)
    ensures Meets(X, Y + Z) <==> Meets(X, Y) || Meets(X, Z)
  {
    if Meets(X, Y + Z) {
      var s :| s in X && s in Y + Z;
    }
    if Meets(X, Y) {
      var s :| s in X && s in Y;
      assert s in Y + Z;
    }
    if Meets(X, Z) {
      var s :| s in X && s in Z;
      assert s in Y + Z;
    }
  }

  lemma OrRule(G: Graph, I: set<nat>, r: SetExpr, kids: seq<Formula>, qs: seq<Question>)
    requires |qs| == |kids| && forall i :: 0 <= i < |kids| ==> Asks(G, I, r, kids[i], qs[i])
    ensures Asks(G, I, r, Or(kids), AnyOf(qs))
  {
    AnyOfAnswer(G, I, qs);
    if SomeAnswer(G, I, qs) {
      var q :| q in qs && Answer(G, I, q);
      var i :| 0 <= i < |qs| && qs[i] == q;
      assert Asks(G, I, r, kids[i], qs[i]);
      var s :| s in Eval(G, I, r) && s in Sat(G, kids[i]);
      assert Holds(G, Or(kids), s);
      assert s in Sat(G, Or(kids));
    }
    if Meets(Eval(G, I, r), Sat(G, Or(kids))) {
      var s :| s in Eval(G, I, r) && s in Sat(G, Or(kids));
      assert Holds(G, Or(kids), s);
      var i :| 0 <= i < |kids| && Holds(G, kids[i], s);
      assert s in Sat(G, kids[i]);
      assert Asks(G, I, r, kids[i], qs[i]);
      assert qs[i] in qs;
    }
  }

  lemma AndRule(G: Graph, I: set<nat>, r: SetExpr, kids: seq<Formula>, fromLeft: bool, q: Question)
    requires I <= G.states
    requires var w := WalkBack(SeedOf(r, kids), TemporalOf(kids, fromLeft));
             if w.forward == [] then q == NonEmpty(w.cur) else Asks(G, I, w.cur, w.forward[0], q)
    ensures Asks(G, I, r, And(kids), q)
  {
    var w := WalkBack(SeedOf(r, kids), TemporalOf(kids, fromLeft));
    ConjunctionSat(G, I, r, kids, fromLeft);
    MeetsProduct(Eval(G, I, r), Sat(G, And(kids)));
    EvalInside(G, I, w.cur);
    if w.forward == [] {
      assert Sat(G, And([])) == G.states;
      assert Eval(G, I, w.cur) * G.states == Eval(G, I, w.cur);
    } else {
      assert w.forward == [w.forward[0]];
      OneConjunct(G, w.forward[0]);
      MeetsProduct(Eval(G, I, w.cur), Sat(G, w.forward[0]));
    }
  }

  /** Forward conversion: the question is answered yes exactly when the seed meets `Sat` of the formula. */
  lemma {:induction false} RuleAsks(G: Graph, I: set<nat>, r: SetExpr, phi: Formula, fromLeft: bool)
    requires G.Valid() && I <= G.states
    ensures Asks(G, I, r, phi, Rule(r, phi, fromLeft))
    decreases phi, 1
  {
    if IsState(phi) {
      StateRule(G, I, r, phi, fromLeft);
    } else {
      match phi
      case EX(f) =>
        RuleAsks(G, I, EY(r), f, fromLeft);
        EvalInside(G, I, r);
        NextMeets(G, Eval(G, I, r), f);
      case EF(f) =>
        RuleAsks(G, I, FwdU(r, True), f, fromLeft);
        UntilRule(G, I, r, True, f);
      case EU(q, f) =>
        RuleAsks(G, I, FwdU(r, q), f, fromLeft);
        UntilRule(G, I, r, q, f);
      case EG(q) =>
        GlobalRule(G, I, r, q);
      case EW(q, f) =>
        RuleAsks(G, I, FwdU(r, q), f, fromLeft);
        WeakRule(G, I, r, q, f, Rule(FwdU(r, q), f, fromLeft));
      case Or(kids) =>
        RuleAllAsks(G, I, r, kids, fromLeft);
        OrRule(G, I, r, kids, RuleAll(r, kids, fromLeft));
      case And(kids) =>
        AndForward(G, I, r, kids, fromLeft);
      case _ =>
        NonEmptyFilter(G, I, r, phi);
    }
  }

  lemma {:induction false} RuleAllAsks(G: Graph, I: set<nat>, r: SetExpr, fs: seq<Formula>, fromLeft: bool)
    requires G.Valid() && I <= G.states
    ensures forall i :: 0 <= i < |fs| ==> Asks(G, I, r, fs[i], RuleAll(r, fs, fromLeft)[i])
    decreases fs, 0
  {
    forall i | 0 <= i < |fs|
      ensures Asks(G, I, r, fs[i], RuleAll(r, fs, fromLeft)[i])
    {
      RuleAsks(G, I, r, fs[i], fromLeft);
    }
  }

  lemma {:induction false} AndForward(G: Graph, I: set<nat>, r: SetExpr, kids: seq<Formula>, fromLeft: bool)
    requires G.Valid() && I <= G.states && !IsState(And(kids))
    ensures Asks(G, I, r, And(kids), Rule(r, And(kids), fromLeft))
    decreases kids, 0
  {
    var w := WalkBack(SeedOf(r, kids), TemporalOf(kids, fromLeft));
    if w.forward != [] {
      assert w.forward[0] in w.forward;
      assert w.forward[0] in kids;
      RuleAsks(G, I, w.cur, w.forward[0], fromLeft);
    }
    AndRule(G, I, r, kids, fromLeft, Rule(r, And(kids), fromLeft));
  }

  /** The verdict of a form: the answer, or its complement. */
  ghost predicate Verdict(G: Graph, I: set<nat>, form: ForwardForm) {
    Answer(G, I, form.root) != form.negated
  }

  lemma ConvertPositive(G: Graph, s0: nat, phi: Formula, fromLeft: bool)
    requires G.Valid() && s0 in G.states
    ensures Answer(G, {s0}, Rule(Init, Nnf(phi), fromLeft)) <==> Holds(G, phi, s0)
  {
    NnfAgrees(G, phi);
    RuleAsks(G, {s0}, Init, Nnf(phi), fromLeft);
    if Holds(G, phi, s0) {
      assert s0 in Eval(G, {s0}, Init) && s0 in Sat(G, Nnf(phi));
    }
  }

  lemma ConvertNegative(G: Graph, I: set<nat>, phi: Formula, fromLeft: bool)
    requires G.Valid() && I <= G.states
    ensures Answer(G, I, Rule(Init, Negate(Nnf(phi)), fromLeft)) <==> exists s :: s in I && !Holds(G, phi, s)
  {
    NnfAgrees(G, phi);
    NegateOpposes(G, Nnf(phi));
    RuleAsks(G, I, Init, Negate(Nnf(phi)), fromLeft);
    if s :| s in I && !Holds(G, phi, s) {
      assert s in Eval(G, I, Init) && s in Sat(G, Negate(Nnf(phi)));
    }
  }

  /** The verdict says whether every initial state satisfies the formula. */
  lemma ConvertDecides(G: Graph, I: set<nat>, phi: Formula, singleInitial: bool, fromLeft: bool)
    requires G.Valid() && I <= G.states && (singleInitial ==> |I| == 1)
    ensures Verdict(G, I, Convert(phi, singleInitial, fromLeft)) <==> forall s :: s in I ==> Holds(G, phi, s)
  {
    if singleInitial && Convertible(Nnf(phi)) {
      var s0 := AnElement(I);
      SingletonSet(I, s0);
      ConvertPositive(G, s0, phi, fromLeft);
    } else {
      ConvertNegative(G, I, phi, fromLeft);
    }
  }

  lemma SingletonSet(I: set<nat>, s: nat)
    requires |I| == 1 && s in I
    ensures I == {s}
  {
    SubsetSize({s}, I);
  }

  // ----- What the sets are built from -----

  /** The truth of a state formula is read off the labels of the state: no edge and no other state matters. */
  lemma {:induction false} StateLocal(G: Graph, H: Graph, f: Formula, s: nat, t: nat)
    requires IsState(f) && forall a :: (a in G.labels && s in G.labels[a]) <==> (a in H.labels && t in H.labels[a])
    ensures Holds(G, f, s) <==> Holds(H, f, t)
    decreases f
  {
    match f
    case Atom(_) =>
    case True =>
    case False =>
    case Not(g) => StateLocal(G, H, g, s, t);
    case And(kids) =>
      forall i | 0 <= i < |kids|
        ensures Holds(G, kids[i], s) <==> Holds(H, kids[i], t)
      {
        StateLocal(G, H, kids[i], s, t);
      }
    case Or(kids) =>
      forall i | 0 <= i < |kids|
        ensures Holds(G, kids[i], s) <==> Holds(H, kids[i], t)
      {
        StateLocal(G, H, kids[i], s, t);
      }
  }

  /** Filters carry state formulas and restrictions do not; in a pure set there is no restriction. */
  predicate SetKept(e: SetExpr, pure: bool) {
    match e
    case Init => true
    case Filter(r, f) => IsState(f) && SetKept(r, pure)
    case EY(r) => SetKept(r, pure)
    case FwdU(r, _) => SetKept(r, pure)
    case FwdG(r, _) => SetKept(r, pure)
    case Restrict(r, f) => !pure && !IsState(f) && SetKept(r, pure)
  }

  predicate Kept(q: Question, pure: bool) {
    match q
    case NonEmpty(r) => SetKept(r, pure)
    case Any(kids) => forall i :: 0 <= i < |kids| ==> Kept(kids[i], pure)
    case Never => true
  }

  predicate AllKept(qs: seq<Question>, pure: bool) {
    forall q :: q in qs ==> Kept(q, pure)
  }

  /** Existential down to its state formulas, with one temporal conjunct at most in a conjunction that is gone through. */
  predicate Single(f: Formula)
    decreases f
  {
    || IsState(f)
    || f.EG?
    || ((f.EX? || f.EF?) && Single(f.f))
    || ((f.EU? || f.EW?) && Single(f.r))
    || (f.Or? && forall i :: 0 <= i < |f.kids| ==> Single(f.kids[i]))
    || (f.And? && |Select(f.kids, false)| <= 1
        && forall i :: 0 <= i < |f.kids| ==> Single(f.kids[i]) && Convertible(f.kids[i]))
  }

  lemma {:induction false} SpliceAnyKept(kids: seq<Question>, pure: bool)
    requires AllKept(kids, pure)
    ensures AllKept(SpliceAny(kids), pure)
    decreases |kids|
  {
    if kids != [] {
      var n := |kids| - 1;
      assert kids[n] in kids && forall q :: q in kids[..n] ==> q in kids;
      SpliceAnyKept(kids[..n], pure);
    }
  }

  lemma AnyOfKept(kids: seq<Question>, pure: bool)
    requires AllKept(kids, pure)
    ensures Kept(AnyOf(kids), pure)
  {
    SpliceAnyKept(kids, pure);
    var once := OnceQ(SpliceAny(kids));
    forall i | 0 <= i < |once|
      ensures Kept(once[i], pure)
    {
      assert once[i] in once;
    }
  }

  lemma {:induction false} SpliceState(kids: seq<Formula>)
    requires forall f :: f in kids ==> IsState(f)
    ensures Splice(true, kids).Flat? ==> forall f :: f in Splice(true, kids).kids ==> IsState(f)
    decreases |kids|
  {
    if kids != [] {
      var n := |kids| - 1;
      assert kids[n] in kids && forall f :: f in kids[..n] ==> f in kids;
      SpliceState(kids[..n]);
      if kids[n].And? {
        assert IsState(kids[n]);
        assert forall f :: f in kids[n].kids ==> IsState(f);
      }
    }
  }

  /** The state conjuncts together are one state formula. */
  lemma ConjunctionState(kids: seq<Formula>)
    requires forall f :: f in kids ==> IsState(f)
    ensures IsState(Nary(true, kids))
  {
    SpliceState(kids);
    if Splice(true, kids).Flat? {
      var once := Once(Splice(true, kids).kids);
      forall i | 0 <= i < |once|
        ensures IsState(once[i])
      {
        assert once[i] in once;
      }
    }
  }

  lemma {:induction false} WalkKept(r: SetExpr, rest: seq<Formula>, pure: bool)
    requires SetKept(r, pure) && forall f :: f in rest ==> !IsState(f)
    requires pure ==> |rest| <= 1 && forall f :: f in rest ==> Convertible(f)
    ensures SetKept(WalkBack(r, rest).cur, pure)
    decreases |rest|
  {
    if rest != [] {
      assert rest[0] in rest && forall f :: f in rest[1..] ==> f in rest;
      WalkKept(r, rest[1..], pure);
      assert pure ==> rest[1..] == [];
    }
  }

  lemma SelectedSize(kids: seq<Formula>, fromLeft: bool)
    ensures |TemporalOf(kids, fromLeft)| == |Select(kids, false)|
  {
    ReverseAt(Select(kids, false));
  }

  lemma {:induction false} ReverseAt(fs: seq<Formula>)
    ensures |Reverse(fs)| == |fs| && forall k :: 0 <= k < |fs| ==> Reverse(fs)[k] == fs[|fs| - 1 - k]
    decreases |fs|
  {
    if fs != [] {
      ReverseAt(fs[1..]);
    }
  }

  /** The conjuncts keep their order. */
  lemma {:induction false} SelectConcat(a: seq<Formula>, b: seq<Formula>, state: bool)
    ensures Select(a + b, state) == Select(a, state) + Select(b, state)
    decreases |a|
  {
    hide IsState;
    if a == [] {
      assert a + b == b;
    } else {
      assert (a + b)[1..] == a[1..] + b;
      SelectConcat(a[1..], b, state);
      var x, y := Select(a[1..], state), Select(b, state);
      assert [a[0]] + (x + y) == ([a[0]] + x) + y;
    }
  }

  lemma {:induction false} ForwardNone(r: SetExpr, rest: seq<Formula>)
    ensures WalkBack(r, rest).forward == [] <==> forall j :: 0 <= j < |rest| ==> !Convertible(rest[j])
    decreases |rest|
  {
    hide Convertible;
    if rest != [] {
      ForwardNone(r, rest[1..]);
      assert forall j :: 1 <= j < |rest| ==> rest[j] == rest[1..][j - 1];
    }
  }

  /** What goes forward is the last convertible conjunct; nothing does when none is convertible. */
  lemma {:induction false} ForwardIsLast(r: SetExpr, rest: seq<Formula>, k: nat)
    requires k < |rest| && Convertible(rest[k]) && forall j :: k < j < |rest| ==> !Convertible(rest[j])
    ensures WalkBack(r, rest).forward == [rest[k]]
    decreases |rest|
  {
    hide Convertible;
    if k == 0 {
      ForwardNone(r, rest[1..]);
    } else {
      assert rest[1..][k - 1] == rest[k];
      ForwardIsLast(r, rest[1..], k - 1);
    }
  }

  lemma {:induction false} AndKept(r: SetExpr, kids: seq<Formula>, fromLeft: bool, pure: bool)
    requires SetKept(r, pure) && !IsState(And(kids)) && (pure ==> Single(And(kids)))
    ensures Kept(Rule(r, And(kids), fromLeft), pure)
    decreases kids, 0
  {
    var temporal := TemporalOf(kids, fromLeft);
    SelectedSize(kids, fromLeft);
    ConjunctionState(Select(kids, true));
    WalkKept(SeedOf(r, kids), temporal, pure);
    var w := WalkBack(SeedOf(r, kids), temporal);
    if w.forward != [] {
      assert w.forward[0] in w.forward;
      assert w.forward[0] in kids;
      RuleKept(w.cur, w.forward[0], fromLeft, pure);
    }
  }

  /** Every filter of the converted question is a state formula, and a formula gone through one way needs no restriction. */
  lemma {:induction false} RuleKept(r: SetExpr, phi: Formula, fromLeft: bool, pure: bool)
    requires SetKept(r, pure) && (pure ==> Single(phi))
    ensures Kept(Rule(r, phi, fromLeft), pure)
    decreases phi, 1
  {
    if !IsState(phi) {
      match phi
      case EX(f) => RuleKept(EY(r), f, fromLeft, pure);
      case EF(f) => RuleKept(FwdU(r, True), f, fromLeft, pure);
      case EU(q, f) => RuleKept(FwdU(r, q), f, fromLeft, pure);
      case EW(q, f) =>
        RuleKept(FwdU(r, q), f, fromLeft, pure);
        AnyOfKept([Rule(FwdU(r, q), f, fromLeft), NonEmpty(FwdG(r, q))], pure);
      case Or(kids) =>
        var qs := RuleAll(r, kids, fromLeft);
        forall i | 0 <= i < |kids|
          ensures Kept(qs[i], pure)
        {
          RuleKept(r, kids[i], fromLeft, pure);
        }
        AnyOfKept(qs, pure);
      case And(kids) => AndKept(r, kids, fromLeft, pure);
      case _ =>
    }
  }

  lemma ConvertKept(phi: Formula, singleInitial: bool, fromLeft: bool)
    ensures Kept(Convert(phi, singleInitial, fromLeft).root, false)
    ensures singleInitial && Convertible(Nnf(phi)) && Single(Nnf(phi)) ==> Kept(Convert(phi, singleInitial, fromLeft).root, true)
    ensures !(singleInitial && Convertible(Nnf(phi))) && Single(Negate(Nnf(phi))) ==>
              Kept(Convert(phi, singleInitial, fromLeft).root, true)
  {
    var nf := if singleInitial && Convertible(Nnf(phi)) then Nnf(phi) else Negate(Nnf(phi));
    RuleKept(Init, nf, fromLeft, false);
    if Single(nf) {
      RuleKept(Init, nf, fromLeft, true);
    }
  }

  // ----- Untils by paths -----

  /** A path from `s` through `a` that ends in `b`. */
  ghost predicate UntilPath(G: Graph, a: set<nat>, b: set<nat>, p: seq<nat>, s: nat) {
    if p == [] then s in b else s in a && (s, p[0]) in G.edges && UntilPath(G, a, b, p[1..], p[0])
  }

  lemma {:induction false} PathUntil(G: Graph, a: set<nat>, b: set<nat>, p: seq<nat>, s: nat)
    requires G.Valid() && s in G.states && UntilPath(G, a, b, p, s)
    ensures s in UntilSet(G, true, true, a, b)
    decreases |p|
  {
    if p != [] {
      PathUntil(G, a, b, p[1..], p[0]);
    }
    UntilUnfold(G, a, b, s);
  }

  lemma UntilHasPath(G: Graph, a: set<nat>, b: set<nat>, s: nat) returns (p: seq<nat>)
    requires G.Valid() && s in UntilSet(G, true, true, a, b)
    ensures UntilPath(G, a, b, p, s)
  {
    var X := set x | x in G.states && exists p :: UntilPath(G, a, b, p, x);
    forall x | x in G.states && UntilStep(G, true, true, a, b, X, x)
      ensures x in X
    {
      if x in b {
        assert UntilPath(G, a, b, [], x);
      } else {
        var y :| (x, y) in G.edges && y in X;
        var q :| UntilPath(G, a, b, q, y);
        assert ([y] + q)[1..] == q;
        assert UntilPath(G, a, b, [y] + q, x);
      }
    }
    assert Prefixed(G, true, true, a, b, X);
    p :| UntilPath(G, a, b, p, s);
  }

  /** The existential until is the existence of a path: its least fixpoint means what it should. */
  lemma UntilByPath(G: Graph, a: set<nat>, b: set<nat>, s: nat)
    requires G.Valid() && s in G.states
    ensures s in UntilSet(G, true, true, a, b) <==> HasUntilPath(G, a, b, s)
  {
    if HasUntilPath(G, a, b, s) {
      var p :| UntilPath(G, a, b, p, s);
      PathUntil(G, a, b, p, s);
    }
    if s in UntilSet(G, true, true, a, b) {
      var p := UntilHasPath(G, a, b, s);
      assert UntilPath(G, a, b, p, s);
    }
  }

  ghost predicate HasUntilPath(G: Graph, a: set<nat>, b: set<nat>, s: nat) {
    exists p :: UntilPath(G, a, b, p, s)
  }
}
