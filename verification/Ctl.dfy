/**
 CTL formulas, their meaning over finite graphs, and negation normal form
 (src/ctl/formula.cc). A deadlock ends its path.

 A formula is a value here: interned nodes are equal exactly when the formulas
 are, and the children of a node are smaller.
 */
module Ctl {
  import opened Finite

  datatype Formula =
    | Atom(a: nat)
    | True
    | False
    | Not(f: Formula)
    | And(kids: seq<Formula>)
    | Or(kids: seq<Formula>)
    | EX(f: Formula)
    | AX(f: Formula)
    | EF(f: Formula)
    | AF(f: Formula)
    | EG(f: Formula)
    | AG(f: Formula)
    | EU(l: Formula, r: Formula)
    | AU(l: Formula, r: Formula)
    | EW(l: Formula, r: Formula)
    | AW(l: Formula, r: Formula)

  // ----- Graphs -----

  /** A finite graph; `labels` gives the states of each atom. */
  datatype Graph = Graph(states: set<nat>, edges: set<(nat, nat)>, labels: map<nat, set<nat>>) {
    ghost predicate Valid() {
      forall x, y :: (x, y) in edges ==> x in states && y in states
    }

    ghost predicate Dead(s: nat) {
      forall t :: (s, t) !in edges
    }

    /** Some successor is in `X`. */
    ghost predicate Some(s: nat, X: set<nat>) {
      exists t :: (s, t) in edges && t in X
    }

    ghost predicate All(s: nat, X: set<nat>) {
      forall t :: (s, t) in edges ==> t in X
    }
  }

  // ----- Fixpoints -----

  /** One step of a weak or strong until, existential or universal. */
  ghost predicate UntilStep(G: Graph, exist: bool, strong: bool, a: set<nat>, b: set<nat>, X: set<nat>, s: nat) {
    || s in b
    || (s in a && if exist then G.Some(s, X) || (!strong && G.Dead(s)) else G.All(s, X) && (!strong || !G.Dead(s)))
  }

  ghost predicate Prefixed(G: Graph, exist: bool, strong: bool, a: set<nat>, b: set<nat>, X: set<nat>) {
    X <= G.states && forall s :: s in G.states && UntilStep(G, exist, strong, a, b, X, s) ==> s in X
  }

  ghost predicate Postfixed(G: Graph, exist: bool, strong: bool, a: set<nat>, b: set<nat>, X: set<nat>) {
    X <= G.states && forall s :: s in X ==> UntilStep(G, exist, strong, a, b, X, s)
  }

  /** Strong until is the least fixpoint of its step, weak until the greatest. */
  ghost predicate Until(G: Graph, exist: bool, strong: bool, a: set<nat>, b: set<nat>, s: nat) {
    if strong then s in G.states && forall X :: Prefixed(G, exist, strong, a, b, X) ==> s in X
    else exists X :: Postfixed(G, exist, strong, a, b, X) && s in X
  }

  // ----- Meaning -----

  ghost predicate Holds(G: Graph, f: Formula, s: nat)
    decreases f, 0
  {
    match f
    case Atom(a) => a in G.labels && s in G.labels[a]
    case True => true
    case False => false
    case Not(g) => !Holds(G, g, s)
    case And(kids) => forall i :: 0 <= i < |kids| ==> Holds(G, kids[i], s)
    case Or(kids) => exists i :: 0 <= i < |kids| && Holds(G, kids[i], s)
    case EX(g) => G.Some(s, Sat(G, g))
    case AX(g) => G.All(s, Sat(G, g))
    case EF(g) => Until(G, true, true, G.states, Sat(G, g), s)
    case AF(g) => Until(G, false, true, G.states, Sat(G, g), s)
    case EG(g) => Until(G, true, false, Sat(G, g), {}, s)
    case AG(g) => Until(G, false, false, Sat(G, g), {}, s)
    case EU(l, r) => Until(G, true, true, Sat(G, l), Sat(G, r), s)
    case AU(l, r) => Until(G, false, true, Sat(G, l), Sat(G, r), s)
    case EW(l, r) => Until(G, true, false, Sat(G, l), Sat(G, r), s)
    case AW(l, r) => Until(G, false, false, Sat(G, l), Sat(G, r), s)
  }

  ghost function Sat(G: Graph, f: Formula): set<nat>
    decreases f, 1
  {
    set s | s in G.states && Holds(G, f, s)
  }

  // ----- Constructors -----

  function Constant(b: bool): Formula {
    if b then True else False
  }

  /** Negation, folding double negations and constants. */
  function Negation(f: Formula): (r: Formula)
    ensures forall G: Graph, s :: Holds(G, r, s) <==> !Holds(G, f, s)
  {
    match f
    case True => False
    case False => True
    case Not(g) => g
    case _ => Not(f)
  }

  /** The children of an n-ary node, spliced, constants folded: none once an absorbing one is met. */
  datatype Spliced = Absorbed | Flat(kids: seq<Formula>)

  function Splice(conj: bool, kids: seq<Formula>): Spliced
    decreases |kids|
  {
    if kids == [] then Flat([])
    else
      var k := kids[|kids| - 1];
      match Splice(conj, kids[..|kids| - 1])
      case Absorbed => Absorbed
      case Flat(flat) =>
        if conj && k.And? then Flat(flat + k.kids)
        else if !conj && k.Or? then Flat(flat + k.kids)
        else if k == Constant(conj) then Flat(flat)
        else if k == Constant(!conj) then Absorbed
        else Flat(flat + [k])
  }

  function Once(fs: seq<Formula>): (r: seq<Formula>)
    ensures forall f :: f in r <==> f in fs
    decreases |fs|
  {
    if fs == [] then []
    else
      var before, f := Once(fs[..|fs| - 1]), fs[|fs| - 1];
      assert fs == fs[..|fs| - 1] + [f];
      if f in before then before else before + [f]
  }

  function Nary(conj: bool, kids: seq<Formula>): Formula {
    match Splice(conj, kids)
    case Absorbed => Constant(!conj)
    case Flat(flat) =>
      var once := Once(flat);
      if once == [] then Constant(conj)
      else if |once| == 1 then once[0]
      else if conj then And(once) else Or(once)
  }

  /** Every, or some, formula of the list holds. */
  ghost predicate HoldsAll(G: Graph, conj: bool, kids: seq<Formula>, s: nat) {
    if conj then forall f :: f in kids ==> Holds(G, f, s) else exists f :: f in kids && Holds(G, f, s)
  }

  lemma HoldsNary(G: Graph, kids: seq<Formula>, s: nat)
    ensures Holds(G, And(kids), s) <==> HoldsAll(G, true, kids, s)
    ensures Holds(G, Or(kids), s) <==> HoldsAll(G, false, kids, s)
  {
    if Holds(G, Or(kids), s) {
      var i :| 0 <= i < |kids| && Holds(G, kids[i], s);
      assert kids[i] in kids;
    }
    if HoldsAll(G, false, kids, s) {
      var f :| f in kids && Holds(G, f, s);
      var i :| 0 <= i < |kids| && kids[i] == f;
    }
    if Holds(G, And(kids), s) {
      forall f | f in kids
        ensures Holds(G, f, s)
      {
        var i :| 0 <= i < |kids| && kids[i] == f;
      }
    }
  }

  lemma HoldsAllAppend(G: Graph, conj: bool, a: seq<Formula>, b: seq<Formula>, s: nat)
    ensures HoldsAll(G, conj, a + b, s) <==>
            if conj then HoldsAll(G, conj, a, s) && HoldsAll(G, conj, b, s)
            else HoldsAll(G, conj, a, s) || HoldsAll(G, conj, b, s)
  {
    assert forall f :: f in a + b <==> f in a || f in b;
  }

  lemma {:induction false} SpliceHolds(G: Graph, conj: bool, kids: seq<Formula>, s: nat)
    ensures HoldsAll(G, conj, kids, s) <==>
            match Splice(conj, kids)
            case Absorbed => !conj
            case Flat(flat) => HoldsAll(G, conj, flat, s)
    decreases |kids|
  {
    if kids != [] {
      var n := |kids| - 1;
      var before, k := kids[..n], kids[n];
      SpliceHolds(G, conj, before, s);
      assert kids == before + [k];
      HoldsAllAppend(G, conj, before, [k], s);
      assert HoldsAll(G, conj, [k], s) <==> Holds(G, k, s) by {
        assert k in [k];
      }
      match Splice(conj, before)
      case Flat(flat) =>
        HoldsAllAppend(G, conj, flat, [k], s);
        if k.And? || k.Or? {
          HoldsNary(G, k.kids, s);
          HoldsAllAppend(G, conj, flat, k.kids, s);
        }
      case Absorbed =>
    }
  }

  /** The n-ary constructor keeps the meaning. */
  lemma NaryHolds(G: Graph, conj: bool, kids: seq<Formula>, s: nat)
    ensures Holds(G, Nary(conj, kids), s) <==> HoldsAll(G, conj, kids, s)
  {
    SpliceHolds(G, conj, kids, s);
    match Splice(conj, kids)
    case Absorbed =>
    case Flat(flat) =>
      var once := Once(flat);
      assert HoldsAll(G, conj, once, s) <==> HoldsAll(G, conj, flat, s);
      HoldsNary(G, once, s);
      if |once| == 1 {
        assert once == [once[0]] && once[0] in once;
      }
  }

  /** The source's loop over the children computes the normal form. */
  method MakeNary(conj: bool, kids: seq<Formula>) returns (f: Formula)
    ensures f == Nary(conj, kids)
    ensures forall G: Graph, s :: Holds(G, f, s) <==> HoldsAll(G, conj, kids, s)
  {
    forall G: Graph, s
      ensures Holds(G, Nary(conj, kids), s) <==> HoldsAll(G, conj, kids, s)
    {
      NaryHolds(G, conj, kids, s);
    }
    var flat: seq<Formula> := [];
    for i := 0 to |kids|
      invariant Splice(conj, kids[..i]) == Flat(flat)
    {
      assert kids[..i + 1][..i] == kids[..i];
      var k := kids[i];
      if (conj && k.And?) || (!conj && k.Or?) {
        flat := flat + k.kids;
      } else if k == Constant(!conj) {
        SpliceAbsorbed(conj, kids, i + 1);
        return Constant(!conj);
      } else if k != Constant(conj) {
        flat := flat + [k];
      }
    }
    assert kids[..|kids|] == kids;
    var once: seq<Formula> := [];
    for i := 0 to |flat|
      invariant once == Once(flat[..i])
    {
      assert flat[..i + 1][..i] == flat[..i];
      if flat[i] !in once {
        once := once + [flat[i]];
      }
    }
    assert flat[..|flat|] == flat;
    if once == [] {
      return Constant(conj);
    }
    if |once| == 1 {
      return once[0];
    }
    return if conj then And(once) else Or(once);
  }

  lemma {:induction false} SpliceAbsorbed(conj: bool, kids: seq<Formula>, i: nat)
    requires i <= |kids| && Splice(conj, kids[..i]) == Absorbed
    ensures Splice(conj, kids) == Absorbed
    decreases |kids| - i
  {
    if i < |kids| {
      assert kids[..i + 1][..i] == kids[..i];
      SpliceAbsorbed(conj, kids, i + 1);
    } else {
      assert kids[..i] == kids;
    }
  }

  // ----- Negation normal form -----

  function Nnf(f: Formula): Formula
    decreases f, 1
  {
    match f
    case Atom(_) => f
    case True => f
    case False => f
    case Not(g) => Negate(g)
    case And(kids) => Nary(true, NnfAll(kids))
    case Or(kids) => Nary(false, NnfAll(kids))
    case EX(g) => EX(Nnf(g))
    case AX(g) => AX(Nnf(g))
    case EF(g) => EF(Nnf(g))
    case AF(g) => AF(Nnf(g))
    case EG(g) => EG(Nnf(g))
    case AG(g) => AG(Nnf(g))
    case EU(l, r) => EU(Nnf(l), Nnf(r))
    case AU(l, r) => AU(Nnf(l), Nnf(r))
    case EW(l, r) => EW(Nnf(l), Nnf(r))
    case AW(l, r) => AW(Nnf(l), Nnf(r))
  }

  function NnfAll(fs: seq<Formula>): (r: seq<Formula>)
    ensures |r| == |fs| && forall i :: 0 <= i < |fs| ==> r[i] == Nnf(fs[i])
    decreases fs, 0
  {
    if fs == [] then [] else [Nnf(fs[0])] + NnfAll(fs[1..])
  }

  function Negate(f: Formula): Formula
    decreases f, 1
  {
    match f
    case Atom(_) => Negation(f)
    case True => False
    case False => True
    case Not(g) => Nnf(g)
    case And(kids) => Nary(false, NegateAll(kids))
    case Or(kids) => Nary(true, NegateAll(kids))
    case EX(g) => AX(Negate(g))
    case AX(g) => EX(Negate(g))
    case EF(g) => AG(Negate(g))
    case AG(g) => EF(Negate(g))
    case EG(g) => AF(Negate(g))
    case AF(g) => EG(Negate(g))
    case EU(l, r) => AW(Negate(r), Nary(true, [Negate(l), Negate(r)]))
    case AU(l, r) => EW(Negate(r), Nary(true, [Negate(l), Negate(r)]))
    case EW(l, r) => AU(Negate(r), Nary(true, [Negate(l), Negate(r)]))
    case AW(l, r) => EU(Negate(r), Nary(true, [Negate(l), Negate(r)]))
  }

  function NegateAll(fs: seq<Formula>): (r: seq<Formula>)
    ensures |r| == |fs| && forall i :: 0 <= i < |fs| ==> r[i] == Negate(fs[i])
    decreases fs, 0
  {
    if fs == [] then [] else [Negate(fs[0])] + NegateAll(fs[1..])
  }

  // ----- Duality -----

  /** The complement of a fixpoint's step is the dual step of the complement. */
  lemma StepDual(G: Graph, exist: bool, strong: bool, a: set<nat>, b: set<nat>, X: set<nat>, s: nat)
    requires G.Valid() && s in G.states
    ensures UntilStep(G, exist, strong, a, b, X, s) <==>
            !UntilStep(G, !exist, !strong, G.states - b, (G.states - a) * (G.states - b), G.states - X, s)
  {
  }

  /** Least and greatest fixpoints are complements of each other. */
  lemma UntilDual(G: Graph, exist: bool, strong: bool, a: set<nat>, b: set<nat>, s: nat)
    requires G.Valid() && s in G.states
    ensures Until(G, exist, strong, a, b, s) <==>
            !Until(G, !exist, !strong, G.states - b, (G.states - a) * (G.states - b), s)
  {
    var a', b' := G.states - b, (G.states - a) * (G.states - b);
    forall X: set<nat> | X <= G.states
      ensures strong ==> (Prefixed(G, exist, strong, a, b, X) <==> Postfixed(G, !exist, !strong, a', b', G.states - X))
      ensures !strong ==> (Postfixed(G, exist, strong, a, b, X) <==> Prefixed(G, !exist, !strong, a', b', G.states - X))
      ensures G.states - (G.states - X) == X
    {
      forall x | x in G.states
        ensures UntilStep(G, exist, strong, a, b, X, x) <==> !UntilStep(G, !exist, !strong, a', b', G.states - X, x)
      {
        StepDual(G, exist, strong, a, b, X, x);
      }
    }
    if strong {
      if Until(G, !exist, false, a', b', s) {
        var Y :| Postfixed(G, !exist, false, a', b', Y) && s in Y;
        assert Prefixed(G, exist, strong, a, b, G.states - Y);
      }
      if !Until(G, exist, strong, a, b, s) {
        var X :| Prefixed(G, exist, strong, a, b, X) && s !in X;
        assert Postfixed(G, !exist, !strong, a', b', G.states - X);
      }
    } else {
      if Until(G, exist, false, a, b, s) {
        var X :| Postfixed(G, exist, false, a, b, X) && s in X;
        assert Prefixed(G, !exist, true, a', b', G.states - X);
      }
      if !Until(G, !exist, true, a', b', s) {
        var Y :| Prefixed(G, !exist, true, a', b', Y) && s !in Y;
        assert Postfixed(G, exist, false, a, b, G.states - Y);
      }
    }
  }

  // ----- Negation normal form keeps the meaning -----

  ghost predicate Agrees(G: Graph, f: Formula, g: Formula) {
    forall s :: s in G.states ==> (Holds(G, f, s) <==> Holds(G, g, s))
  }

  ghost predicate Opposes(G: Graph, f: Formula, g: Formula) {
    forall s :: s in G.states ==> (Holds(G, f, s) <==> !Holds(G, g, s))
  }

  lemma AgreesSat(G: Graph, f: Formula, g: Formula)
    requires Agrees(G, f, g)
    ensures Sat(G, f) == Sat(G, g)
  {
  }

  lemma OpposesSat(G: Graph, f: Formula, g: Formula)
    requires Opposes(G, f, g)
    ensures Sat(G, f) == G.states - Sat(G, g)
  {
  }

  lemma NaryAgrees(G: Graph, conj: bool, fs: seq<Formula>, gs: seq<Formula>)
    requires |fs| == |gs| && forall i :: 0 <= i < |fs| ==> Agrees(G, fs[i], gs[i])
    ensures Agrees(G, Nary(conj, fs), if conj then And(gs) else Or(gs))
  {
    forall s | s in G.states
      ensures Holds(G, Nary(conj, fs), s) <==> Holds(G, if conj then And(gs) else Or(gs), s)
    {
      NaryHolds(G, conj, fs, s);
      HoldsNary(G, fs, s);
      forall i | 0 <= i < |fs|
        ensures Holds(G, fs[i], s) <==> Holds(G, gs[i], s)
      {
        assert Agrees(G, fs[i], gs[i]);
      }
    }
  }

  lemma NaryOpposes(G: Graph, conj: bool, fs: seq<Formula>, gs: seq<Formula>)
    requires |fs| == |gs| && forall i :: 0 <= i < |fs| ==> Opposes(G, fs[i], gs[i])
    ensures Opposes(G, Nary(!conj, fs), if conj then And(gs) else Or(gs))
  {
    forall s | s in G.states
      ensures Holds(G, Nary(!conj, fs), s) <==> !Holds(G, if conj then And(gs) else Or(gs), s)
    {
      NaryHolds(G, !conj, fs, s);
      HoldsNary(G, fs, s);
      forall i | 0 <= i < |fs|
        ensures Holds(G, fs[i], s) <==> !Holds(G, gs[i], s)
      {
        assert Opposes(G, fs[i], gs[i]);
      }
    }
  }

  lemma BothHold(G: Graph, f: Formula, g: Formula)
    ensures Sat(G, Nary(true, [f, g])) == Sat(G, f) * Sat(G, g)
  {
    forall x | x in G.states
      ensures Holds(G, Nary(true, [f, g]), x) <==> Holds(G, f, x) && Holds(G, g, x)
    {
      NaryHolds(G, true, [f, g], x);
      assert f in [f, g] && g in [f, g];
    }
  }

  /** A negated until: the dual of the negated arguments, `both` of which the dual ends in. */
  lemma UntilOpposes(G: Graph, exist: bool, strong: bool, l: Formula, r: Formula, nl: Formula, nr: Formula,
                     both: Formula, s: nat)
    requires G.Valid() && s in G.states && Opposes(G, nl, l) && Opposes(G, nr, r)
    requires Sat(G, both) == Sat(G, nl) * Sat(G, nr)
    ensures Until(G, !exist, !strong, Sat(G, nr), Sat(G, both), s)
            <==> !Until(G, exist, strong, Sat(G, l), Sat(G, r), s)
  {
    OpposesSat(G, nl, l);
    OpposesSat(G, nr, r);
    UntilDual(G, exist, strong, Sat(G, l), Sat(G, r), s);
  }

  /** With one argument: `EF`, `AF` are untils from everywhere, `EG`, `AG` weak untils to nowhere. */
  lemma UnaryOpposes(G: Graph, exist: bool, g: Formula, ng: Formula, s: nat)
    requires G.Valid() && s in G.states && Opposes(G, ng, g)
    ensures Until(G, !exist, false, Sat(G, ng), {}, s) <==> !Until(G, exist, true, G.states, Sat(G, g), s)
    ensures Until(G, !exist, true, G.states, Sat(G, ng), s) <==> !Until(G, exist, false, Sat(G, g), {}, s)
  {
    OpposesSat(G, ng, g);
    UntilDual(G, exist, true, G.states, Sat(G, g), s);
    assert (G.states - G.states) * (G.states - Sat(G, g)) == {};
    UntilDual(G, exist, false, Sat(G, g), {}, s);
    assert G.states - {} == G.states;
    assert (G.states - Sat(G, g)) * (G.states - {}) == G.states - Sat(G, g);
  }

  lemma NextOpposes(G: Graph, g: Formula, ng: Formula, s: nat)
    requires G.Valid() && s in G.states && Opposes(G, ng, g)
    ensures G.All(s, Sat(G, ng)) <==> !G.Some(s, Sat(G, g))
    ensures G.Some(s, Sat(G, ng)) <==> !G.All(s, Sat(G, g))
  {
    OpposesSat(G, ng, g);
  }

  /** Pushing negations keeps every formula's meaning. */
  lemma {:induction false} NnfAgrees(G: Graph, f: Formula)
    requires G.Valid()
    ensures Agrees(G, Nnf(f), f)
    decreases f, 1
  {
    match f
    case Not(g) =>
      NegateOpposes(G, g);
    case And(kids) =>
      NnfAllAgrees(G, kids);
      NaryAgrees(G, true, NnfAll(kids), kids);
    case Or(kids) =>
      NnfAllAgrees(G, kids);
      NaryAgrees(G, false, NnfAll(kids), kids);
    case Atom(_) =>
    case True =>
    case False =>
    case EU(l, r) =>
      NnfAgrees(G, l);
      NnfAgrees(G, r);
      AgreesSat(G, Nnf(l), l);
      AgreesSat(G, Nnf(r), r);
    case AU(l, r) =>
      NnfAgrees(G, l);
      NnfAgrees(G, r);
      AgreesSat(G, Nnf(l), l);
      AgreesSat(G, Nnf(r), r);
    case EW(l, r) =>
      NnfAgrees(G, l);
      NnfAgrees(G, r);
      AgreesSat(G, Nnf(l), l);
      AgreesSat(G, Nnf(r), r);
    case AW(l, r) =>
      NnfAgrees(G, l);
      NnfAgrees(G, r);
      AgreesSat(G, Nnf(l), l);
      AgreesSat(G, Nnf(r), r);
    case _ =>
      NnfAgrees(G, f.f);
      AgreesSat(G, Nnf(f.f), f.f);
  }

  lemma {:induction false} NnfAllAgrees(G: Graph, fs: seq<Formula>)
    requires G.Valid()
    ensures forall i :: 0 <= i < |fs| ==> Agrees(G, NnfAll(fs)[i], fs[i])
    decreases fs, 0
  {
    forall i | 0 <= i < |fs|
      ensures Agrees(G, NnfAll(fs)[i], fs[i])
    {
      NnfAgrees(G, fs[i]);
    }
  }

  /** The negated normal form is the complement. */
  lemma {:induction false} NegateOpposes(G: Graph, f: Formula)
    requires G.Valid()
    ensures Opposes(G, Negate(f), f)
    decreases f, 1
  {
    hide Until, UntilStep, Nary, Sat;
    match f
    case Atom(_) =>
    case True =>
    case False =>
    case Not(g) =>
      NnfAgrees(G, g);
    case And(kids) =>
      NegateAllOpposes(G, kids);
      NaryOpposes(G, true, NegateAll(kids), kids);
    case Or(kids) =>
      NegateAllOpposes(G, kids);
      NaryOpposes(G, false, NegateAll(kids), kids);
    case EU(l, r) =>
      NegateOpposes(G, l);
      NegateOpposes(G, r);
      Untils(G, l, r, Negate(l), Negate(r));
    case AU(l, r) =>
      NegateOpposes(G, l);
      NegateOpposes(G, r);
      Untils(G, l, r, Negate(l), Negate(r));
    case EW(l, r) =>
      NegateOpposes(G, l);
      NegateOpposes(G, r);
      Untils(G, l, r, Negate(l), Negate(r));
    case AW(l, r) =>
      NegateOpposes(G, l);
      NegateOpposes(G, r);
      Untils(G, l, r, Negate(l), Negate(r));
    case EX(g) =>
      NegateOpposes(G, g);
      DualEX(G, g, Negate(g));
    case AX(g) =>
      NegateOpposes(G, g);
      DualAX(G, g, Negate(g));
    case EF(g) =>
      NegateOpposes(G, g);
      DualEF(G, g, Negate(g));
    case AF(g) =>
      NegateOpposes(G, g);
      DualAF(G, g, Negate(g));
    case EG(g) =>
      NegateOpposes(G, g);
      DualEG(G, g, Negate(g));
    case AG(g) =>
      NegateOpposes(G, g);
      DualAG(G, g, Negate(g));
  }

  lemma DualEU(G: Graph, l: Formula, r: Formula, nl: Formula, nr: Formula, both: Formula)
    requires G.Valid() && Opposes(G, nl, l) && Opposes(G, nr, r) && Sat(G, both) == Sat(G, nl) * Sat(G, nr)
    ensures Opposes(G, AW(nr, both), EU(l, r))
  {
    forall s | s in G.states
      ensures Holds(G, AW(nr, both), s) <==> !Holds(G, EU(l, r), s)
    {
      UntilOpposes(G, true, true, l, r, nl, nr, both, s);
    }
  }

  lemma DualAU(G: Graph, l: Formula, r: Formula, nl: Formula, nr: Formula, both: Formula)
    requires G.Valid() && Opposes(G, nl, l) && Opposes(G, nr, r) && Sat(G, both) == Sat(G, nl) * Sat(G, nr)
    ensures Opposes(G, EW(nr, both), AU(l, r))
  {
    forall s | s in G.states
      ensures Holds(G, EW(nr, both), s) <==> !Holds(G, AU(l, r), s)
    {
      UntilOpposes(G, false, true, l, r, nl, nr, both, s);
    }
  }

  lemma DualEW(G: Graph, l: Formula, r: Formula, nl: Formula, nr: Formula, both: Formula)
    requires G.Valid() && Opposes(G, nl, l) && Opposes(G, nr, r) && Sat(G, both) == Sat(G, nl) * Sat(G, nr)
    ensures Opposes(G, AU(nr, both), EW(l, r))
  {
    forall s | s in G.states
      ensures Holds(G, AU(nr, both), s) <==> !Holds(G, EW(l, r), s)
    {
      UntilOpposes(G, true, false, l, r, nl, nr, both, s);
    }
  }

  lemma DualAW(G: Graph, l: Formula, r: Formula, nl: Formula, nr: Formula, both: Formula)
    requires G.Valid() && Opposes(G, nl, l) && Opposes(G, nr, r) && Sat(G, both) == Sat(G, nl) * Sat(G, nr)
    ensures Opposes(G, EU(nr, both), AW(l, r))
  {
    forall s | s in G.states
      ensures Holds(G, EU(nr, both), s) <==> !Holds(G, AW(l, r), s)
    {
      UntilOpposes(G, false, false, l, r, nl, nr, both, s);
    }
  }

  /** The four dualities of the untils. */
  lemma Untils(G: Graph, l: Formula, r: Formula, nl: Formula, nr: Formula)
    requires G.Valid() && Opposes(G, nl, l) && Opposes(G, nr, r)
    ensures Opposes(G, AW(nr, Nary(true, [nl, nr])), EU(l, r))
    ensures Opposes(G, EW(nr, Nary(true, [nl, nr])), AU(l, r))
    ensures Opposes(G, AU(nr, Nary(true, [nl, nr])), EW(l, r))
    ensures Opposes(G, EU(nr, Nary(true, [nl, nr])), AW(l, r))
  {
    var both := Nary(true, [nl, nr]);
    BothHold(G, nl, nr);
    DualEU(G, l, r, nl, nr, both);
    DualAU(G, l, r, nl, nr, both);
    DualEW(G, l, r, nl, nr, both);
    DualAW(G, l, r, nl, nr, both);
  }

  lemma DualEF(G: Graph, g: Formula, ng: Formula)
    requires G.Valid() && Opposes(G, ng, g)
    ensures Opposes(G, AG(ng), EF(g))
  {
    forall s | s in G.states
      ensures Holds(G, AG(ng), s) <==> !Holds(G, EF(g), s)
    {
      UnaryOpposes(G, true, g, ng, s);
    }
  }

  lemma DualAG(G: Graph, g: Formula, ng: Formula)
    requires G.Valid() && Opposes(G, ng, g)
    ensures Opposes(G, EF(ng), AG(g))
  {
    forall s | s in G.states
      ensures Holds(G, EF(ng), s) <==> !Holds(G, AG(g), s)
    {
      UnaryOpposes(G, false, g, ng, s);
    }
  }

  lemma DualEG(G: Graph, g: Formula, ng: Formula)
    requires G.Valid() && Opposes(G, ng, g)
    ensures Opposes(G, AF(ng), EG(g))
  {
    forall s | s in G.states
      ensures Holds(G, AF(ng), s) <==> !Holds(G, EG(g), s)
    {
      UnaryOpposes(G, true, g, ng, s);
    }
  }

  lemma DualAF(G: Graph, g: Formula, ng: Formula)
    requires G.Valid() && Opposes(G, ng, g)
    ensures Opposes(G, EG(ng), AF(g))
  {
    forall s | s in G.states
      ensures Holds(G, EG(ng), s) <==> !Holds(G, AF(g), s)
    {
      UnaryOpposes(G, false, g, ng, s);
    }
  }

  lemma DualEX(G: Graph, g: Formula, ng: Formula)
    requires G.Valid() && Opposes(G, ng, g)
    ensures Opposes(G, AX(ng), EX(g))
  {
    forall s | s in G.states
      ensures Holds(G, AX(ng), s) <==> !Holds(G, EX(g), s)
    {
      NextOpposes(G, g, ng, s);
    }
  }

  lemma DualAX(G: Graph, g: Formula, ng: Formula)
    requires G.Valid() && Opposes(G, ng, g)
    ensures Opposes(G, EX(ng), AX(g))
  {
    forall s | s in G.states
      ensures Holds(G, EX(ng), s) <==> !Holds(G, AX(g), s)
    {
      NextOpposes(G, g, ng, s);
    }
  }

  lemma {:induction false} NegateAllOpposes(G: Graph, fs: seq<Formula>)
    requires G.Valid()
    ensures forall i :: 0 <= i < |fs| ==> Opposes(G, NegateAll(fs)[i], fs[i])
    decreases fs, 0
  {
    forall i | 0 <= i < |fs|
      ensures Opposes(G, NegateAll(fs)[i], fs[i])
    {
      NegateOpposes(G, fs[i]);
    }
  }

  /** `Sat` of the normal form, and of the negated one. */
  lemma NnfSat(G: Graph, f: Formula)
    requires G.Valid()
    ensures Sat(G, Nnf(f)) == Sat(G, f) && Sat(G, Negate(f)) == G.states - Sat(G, f)
  {
    NnfAgrees(G, f);
    NegateOpposes(G, f);
    AgreesSat(G, Nnf(f), f);
    OpposesSat(G, Negate(f), f);
  }

  // ----- Only atoms are negated -----

  ghost predicate InNnf(f: Formula)
    decreases f
  {
    match f
    case Not(g) => g.Atom?
    case And(kids) => forall i :: 0 <= i < |kids| ==> InNnf(kids[i])
    case Or(kids) => forall i :: 0 <= i < |kids| ==> InNnf(kids[i])
    case Atom(_) => true
    case True => true
    case False => true
    case EU(l, r) => InNnf(l) && InNnf(r)
    case AU(l, r) => InNnf(l) && InNnf(r)
    case EW(l, r) => InNnf(l) && InNnf(r)
    case AW(l, r) => InNnf(l) && InNnf(r)
    case EX(g) => InNnf(g)
    case AX(g) => InNnf(g)
    case EF(g) => InNnf(g)
    case AF(g) => InNnf(g)
    case EG(g) => InNnf(g)
    case AG(g) => InNnf(g)
  }

  ghost predicate AllInNnf(fs: seq<Formula>) {
    forall i :: 0 <= i < |fs| ==> InNnf(fs[i])
  }

  lemma {:induction false} SpliceInNnf(conj: bool, kids: seq<Formula>)
    requires AllInNnf(kids)
    ensures Splice(conj, kids).Flat? ==> AllInNnf(Splice(conj, kids).kids)
    decreases |kids|
  {
    if kids != [] {
      SpliceInNnf(conj, kids[..|kids| - 1]);
    }
  }

  lemma NaryInNnf(conj: bool, kids: seq<Formula>)
    requires AllInNnf(kids)
    ensures InNnf(Nary(conj, kids))
  {
    SpliceInNnf(conj, kids);
    if Splice(conj, kids).Flat? {
      var flat := Splice(conj, kids).kids;
      var once := Once(flat);
      forall i | 0 <= i < |once|
        ensures InNnf(once[i])
      {
        assert once[i] in once;
        assert once[i] in flat;
      }
    }
  }

  lemma {:induction false} NnfInNnf(f: Formula)
    ensures InNnf(Nnf(f)) && InNnf(Negate(f))
    decreases f
  {
    match f
    case Atom(_) =>
    case True =>
    case False =>
    case And(kids) =>
      KidsInNnf(kids);
      NaryInNnf(true, NnfAll(kids));
      NaryInNnf(false, NegateAll(kids));
    case Or(kids) =>
      KidsInNnf(kids);
      NaryInNnf(false, NnfAll(kids));
      NaryInNnf(true, NegateAll(kids));
    case EU(l, r) =>
      NnfInNnf(l);
      NnfInNnf(r);
      NaryInNnf(true, [Negate(l), Negate(r)]);
    case AU(l, r) =>
      NnfInNnf(l);
      NnfInNnf(r);
      NaryInNnf(true, [Negate(l), Negate(r)]);
    case EW(l, r) =>
      NnfInNnf(l);
      NnfInNnf(r);
      NaryInNnf(true, [Negate(l), Negate(r)]);
    case AW(l, r) =>
      NnfInNnf(l);
      NnfInNnf(r);
      NaryInNnf(true, [Negate(l), Negate(r)]);
    case _ =>
      NnfInNnf(f.f);
  }

  lemma {:induction false} KidsInNnf(fs: seq<Formula>)
    ensures AllInNnf(NnfAll(fs)) && AllInNnf(NegateAll(fs))
    decreases fs
  {
    forall i | 0 <= i < |fs|
      ensures InNnf(NnfAll(fs)[i]) && InNnf(NegateAll(fs)[i])
    {
      NnfInNnf(fs[i]);
    }
  }
}
