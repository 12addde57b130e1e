/**
 The structural converse of a term, relative to a potential set of words it may
 come from (src/operation.cc, src/int_set.cc).
 */
module Inversion {
  import opened Finite
  import opened Leaves
  import opened Expressions
  import opened Diagrams
  import opened Algebra
  import opened Closures
  import opened Terms
  import opened Sorts
  import opened Application
  import opened Saturation

  // ----- What a converse promises -----

  /** Every pair of the converse is a pair of the term, reversed. */
  ghost predicate OnlyConverse(sh: Shape, t: Term, r: Term) {
    forall u, w :: Laid(sh, u) && Maps(r, u, w) ==> Maps(t, w, u)
  }

  /** Every pair of the term whose source is in `X` is reversed. */
  ghost predicate AllConverse(t: Term, X: iset<Tree>, r: Term) {
    forall w, u :: w in X && Maps(t, w, u) ==> Maps(r, u, w)
  }

  ghost function WordSet(d: Diag): iset<Tree> {
    iset w | Has(d, w)
  }

  ghost function ImageSet(t: Term, X: iset<Tree>): iset<Tree> {
    iset w, u | w in X && Maps(t, w, u) :: u
  }

  ghost function HeadSet(X: iset<Tree>): iset<Tree> {
    iset w | w in X && w.Cons? :: w.head
  }

  ghost function TailSet(X: iset<Tree>): iset<Tree> {
    iset w | w in X && w.Cons? :: w.tail
  }

  /** The potential of every closure in the term is closed under it. */
  ghost predicate Settled(t: Term, X: iset<Tree>)
    decreases t
  {
    match t
    case Sum(parts) => forall i :: 0 <= i < |parts| ==> Settled(parts[i], X)
    case Lfp(body) => Settled(body, X) && forall w, u :: w in X && Maps(body, w, u) ==> u in X
    case OnPair(h, tl) => Settled(h, HeadSet(X)) && Settled(tl, TailSet(X))
    case Compose(after, before) => Settled(before, X) && Settled(after, ImageSet(before, X))
    case _ => true
  }

  // ----- Leaf terms -----

  /** Keep the values of a set; the empty set is not told from no guard. */
  function KeepTerm(values: set<int>): Term {
    if values == {} then Id else Act(InSet(values), Keep)
  }

  function ChooseTerm(guard: set<int>, choices: set<int>): Term {
    if choices == {} then LeafZero()
    else Act(if guard == {} then Always else InSet(guard), Choose(choices))
  }

  function ShiftTerm(guard: set<int>, delta: int): Term {
    if delta == 0 then KeepTerm(guard)
    else Act(if guard == {} then Always else InSet(guard), ShiftBy(delta))
  }

  /** From each computed value, back to any value that computes it. */
  ghost predicate Returns(values: set<int>, a: Action, t: Term) {
    forall u, w :: Maps(t, u, w) <==> u.Int? && w.Int? && w.v in values && Acts(a, w.v, u.v)
  }

  /** The source's table of the values that compute each value. */
  ghost predicate Backward(back: map<int, set<int>>, values: set<int>, a: Action) {
    && (forall u :: u in back ==> back[u] != {})
    && (forall u, v :: u in back && v in back[u] ==> v in values && Acts(a, v, u))
    && (forall u, v :: v in values && Acts(a, v, u) ==> u in back && v in back[u])
  }

  method BackwardTable(values: set<int>, a: Action) returns (back: map<int, set<int>>)
    requires a.Transform?
    ensures Backward(back, values, a)
  {
    back := map[];
    var rest := values;
    while rest != {}
      invariant rest <= values && Backward(back, values - rest, a)
      decreases |rest|
    {
      var v := Pick(rest);
      var u := Computed(a, v);
      ghost var done := values - rest;
      rest := rest - {v};
      assert values - rest == done + {v};
      BackwardStep(back, done, a, v);
      if u.Some? {
        back := back[u.value := (if u.value in back then back[u.value] else {}) + {v}];
      }
    }
    assert values - {} == values;
  }

  lemma BackwardStep(back: map<int, set<int>>, done: set<int>, a: Action, v: int)
    requires a.Transform? && Backward(back, done, a)
    ensures var u := Computed(a, v);
            var back' := if u.None? then back
                         else back[u.value := (if u.value in back then back[u.value] else {}) + {v}];
            Backward(back', done + {v}, a)
  {
    var u := Computed(a, v);
    assert forall x :: Acts(a, v, x) <==> u == Some(x);
    var back' := if u.None? then back
                 else back[u.value := (if u.value in back then back[u.value] else {}) + {v}];
    forall x, y | y in done + {v} && Acts(a, y, x)
      ensures x in back' && y in back'[x]
    {
      if y != v {
        assert x in back && y in back[x];
      }
    }
    forall x, y | x in back' && y in back'[x]
      ensures y in done + {v} && Acts(a, y, x)
    {
      if x in back && y in back[x] {
        assert y in done && Acts(a, y, x);
      }
    }
  }

  /** One choice per computed value, summed. */
  method SumBack(back: map<int, set<int>>) returns (t: Term)
    requires forall u :: u in back ==> back[u] != {}
    ensures Sorted(Leaf, t) && SumsBack(back, back.Keys, t)
  {
    t := LeafZero();
    SumsBackStart(back);
    var rest := back.Keys;
    ghost var done: set<int> := {};
    while rest != {}
      invariant rest + done == back.Keys && Sorted(Leaf, t) && SumsBack(back, done, t)
      decreases |rest|
    {
      var u := Pick(rest);
      var c := ChooseTerm({u}, back[u]);
      ghost var was := t;
      t := if t == LeafZero() then c else LeafSum(t, c);
      SumsBackStep(back, done, u, was, t);
      rest, done := rest - {u}, done + {u};
    }
    assert done == back.Keys;
  }

  lemma SumsBackStart(back: map<int, set<int>>)
    ensures SumsBack(back, {}, LeafZero()) && Sorted(Leaf, LeafZero())
  {
  }

  method InvertTransform(values: set<int>, a: Action) returns (t: Term)
    requires a.Transform?
    ensures Sorted(Leaf, t) && Returns(values, a, t)
  {
    var back := BackwardTable(values, a);
    t := SumBack(back);
    SumsBackReturns(back, values, a, t);
  }

  lemma SumsBackReturns(back: map<int, set<int>>, values: set<int>, a: Action, t: Term)
    requires Backward(back, values, a) && SumsBack(back, back.Keys, t)
    ensures Returns(values, a, t)
  {
    forall x, w
      ensures Maps(t, x, w) <==> x.Int? && w.Int? && w.v in values && Acts(a, w.v, x.v)
    {
      assert Maps(t, x, w) <==> x.Int? && w.Int? && x.v in back.Keys && w.v in back[x.v];
    }
  }

  /** The term goes back from the computed values in `done`. */
  ghost predicate SumsBack(back: map<int, set<int>>, done: set<int>, t: Term) {
    done <= back.Keys && forall x, w :: Maps(t, x, w) <==> x.Int? && w.Int? && x.v in done && w.v in back[x.v]
  }

  lemma SumsBackStep(back: map<int, set<int>>, done: set<int>, u: int, t: Term, t': Term)
    requires SumsBack(back, done, t) && u in back && back[u] != {} && Sorted(Leaf, t)
    requires var c := ChooseTerm({u}, back[u]);
             t' == if t == LeafZero() then c else LeafSum(t, c)
    ensures SumsBack(back, done + {u}, t') && Sorted(Leaf, t')
  {
    var c := ChooseTerm({u}, back[u]);
    forall x, w
      ensures Maps(t', x, w) <==> x.Int? && w.Int? && x.v in done + {u} && w.v in back[x.v]
    {
      assert Maps(c, x, w) <==> x.Int? && w.Int? && x.v == u && w.v in back[u];
      assert Maps(t, x, w) <==> x.Int? && w.Int? && x.v in done && w.v in back[x.v];
      if t == LeafZero() {
        assert !Maps(t, x, w);
      } else {
        LeafSumMaps(t, c, x, w);
      }
    }
  }

  lemma LeafSumMaps(a: Term, b: Term, w: Tree, u: Tree)
    ensures Maps(LeafSum(a, b), w, u) <==> Maps(a, w, u) || Maps(b, w, u)
  {
    assert [a, b] == [a] + [b];
    MapsAnyConcat([a], [b], w, u);
    MapsAnyOne(a, w, u);
    MapsAnyOne(b, w, u);
  }

  /** The converse of a leaf action, from the values of the domain that pass its guard. */
  method InvertAct(t: Term, values: set<int>) returns (r: Term)
    requires t.Act? && Sorted(Leaf, t)
    ensures Sorted(Leaf, r)
    ensures forall u, w :: Maps(r, u, w) <==> Maps(t, w, u) && w.v in values
  {
    var passing := Filter(values, t.guard);
    if passing == {} {
      r := LeafZero();
      forall v | v in values
        ensures !Passes(t.guard, v)
      {
        assert v !in passing;
      }
      return;
    }
    match t.action {
      case Keep => r := KeepTerm(passing);
      case Assign(c) => r := ChooseTerm({c}, passing);
      case ShiftBy(delta) =>
        var moved := Compute(passing, t.action);
        r := ShiftTerm(moved, -delta);
        MovedBack(passing, delta, moved);
      case Transform(_, _) => r := InvertTransform(passing, t.action);
      case Havoc(lo, hi) =>
        assert lo in Interval(lo, hi);
        r := ChooseTerm(Interval(lo, hi), passing);
      case Choose(choices) => r := ChooseTerm(choices, passing);
    }
    forall u, w
      ensures Maps(r, u, w) <==> Maps(t, w, u) && w.v in values
    {
      assert Maps(t, w, u) && w.v in values <==> w.Int? && u.Int? && w.v in passing && Acts(t.action, w.v, u.v);
    }
  }

  lemma MovedBack(passing: set<int>, delta: int, moved: set<int>)
    requires passing != {} && forall u :: u in moved <==> exists v :: v in passing && Acts(ShiftBy(delta), v, u)
    ensures moved != {} && forall u :: u in moved <==> u - delta in passing
  {
    var v := AnElement(passing);
    assert Acts(ShiftBy(delta), v, v + delta);
    assert v + delta in moved;
    forall u
      ensures u in moved <==> u - delta in passing
    {
      if u - delta in passing {
        assert Acts(ShiftBy(delta), u - delta, u);
      }
      if u in moved {
        var x :| x in passing && Acts(ShiftBy(delta), x, u);
      }
    }
  }

  // ----- Composite terms -----

  /** The converse of a term relative to the words of `X`; not all of it when an image was cut short. */
  ghost predicate Converse(sh: Shape, t: Term, X: iset<Tree>, r: Term, partial: bool) {
    OnlyConverse(sh, t, r) && (!partial && Settled(t, X) ==> AllConverse(t, X, r))
  }

  ghost function LaidOut(sh: Shape): Tree -> bool {
    (w: Tree) => Laid(sh, w)
  }

  lemma {:induction false} AlikeLaid(sh: Shape, w: Tree, u: Tree)
    requires Laid(sh, w) && Alike(w, u)
    ensures Laid(sh, u)
  {
    match sh
    case Pair(h, t) =>
      AlikeLaid(h, w.head, u.head);
      AlikeLaid(t, w.tail, u.tail);
    case _ =>
  }

  /** Well-sorted terms keep the shape of words. */
  lemma {:induction false} MapsLaid(sh: Shape, t: Term, w: Tree, u: Tree)
    requires Sorted(sh, t) && Laid(sh, w) && Maps(t, w, u)
    ensures Laid(sh, u)
    decreases t
  {
    match t
    case Sum(parts) =>
      assert MapsAny(parts, w, u);
      var i :| 0 <= i < |parts| && Maps(parts[i], w, u);
      MapsLaid(sh, parts[i], w, u);
    case Lfp(body) =>
      var p :| Path(Meaning(body), p, w, u);
      forall x, y | Laid(sh, x) && Maps(body, x, y)
        ensures Laid(sh, y)
      {
        MapsLaid(sh, body, x, y);
      }
      ClosedHolds(Meaning(body), LaidOut(sh), p, w, u);
    case OnPair(h, tl) =>
      MapsLaid(sh.head, h, w.head, u.head);
      MapsLaid(sh.tail, tl, w.tail, u.tail);
    case Compose(after, before) =>
      var m := ComposeVia(after, before, w, u);
      MapsLaid(sh, before, w, m);
      MapsLaid(sh, after, m, u);
    case Saturate(f, l, g) =>
      var p :| Path(Schedule(t), p, w, u);
      forall x, y | Laid(sh, x) && Schedule(t)(x, y)
        ensures Laid(sh, y)
      {
        if Maps(f, x, y) {
          MapsLaid(sh, f, x, y);
        } else if Maps(l, x, y) {
          MapsLaid(sh, l, x, y);
        } else {
          assert MapsAny(g, x, y);
          var i :| 0 <= i < |g| && Maps(g[i], x, y);
          MapsLaid(sh, g[i], x, y);
        }
      }
      ClosedHolds(Schedule(t), LaidOut(sh), p, w, u);
    case Event(_, _) =>
      AlikeLaid(sh, w, u);
    case _ =>
  }

  /** Where there is nothing to come from, the term that does nothing is the converse. */
  lemma ZeroConverse(sh: Shape, t: Term, X: iset<Tree>, r: Term)
    requires X == iset{} && forall u, w :: !Maps(r, u, w)
    ensures Converse(sh, t, X, r, false)
  {
  }

  /** One part of a sum comes back through its own converse. */
  lemma SumConverse(sh: Shape, parts: seq<Term>, X: iset<Tree>, inv: seq<Term>, r: Term, partial: bool)
    requires |inv| == |parts| && forall i :: 0 <= i < |parts| ==> Converse(sh, parts[i], X, inv[i], partial)
    requires forall u, w :: Maps(r, u, w) <==> MapsAny(inv, u, w)
    ensures Converse(sh, Sum(parts), X, r, partial)
  {
    var t := Sum(parts);
    forall u, w | Laid(sh, u) && Maps(r, u, w)
      ensures Maps(t, w, u)
    {
      var i :| 0 <= i < |inv| && Maps(inv[i], u, w);
      assert Converse(sh, parts[i], X, inv[i], partial);
      assert Maps(parts[i], w, u);
    }
    if !partial && Settled(t, X) {
      forall w, u | w in X && Maps(t, w, u)
        ensures Maps(r, u, w)
      {
        assert MapsAny(parts, w, u);
        var i :| 0 <= i < |parts| && Maps(parts[i], w, u);
        assert Converse(sh, parts[i], X, inv[i], partial);
        assert Maps(inv[i], u, w);
      }
    }
  }

  ghost function InSetOf(X: iset<Tree>): Tree -> bool {
    (w: Tree) => w in X
  }

  lemma LfpOnly(sh: Shape, body: Term, inv: Term, r: Term)
    requires Sorted(sh, inv) && OnlyConverse(sh, body, inv)
    requires forall u, w :: Maps(r, u, w) <==> Star(Meaning(inv), u, w)
    ensures OnlyConverse(sh, Lfp(body), r)
  {
    hide Sorted, Laid;
    var R, S := Meaning(body), Meaning(inv);
    forall x, y | Laid(sh, x) && S(x, y)
      ensures Laid(sh, y) && R(y, x)
    {
      MapsLaid(sh, inv, x, y);
    }
    forall u, w | Laid(sh, u) && Maps(r, u, w)
      ensures Maps(Lfp(body), w, u)
    {
      var p :| Path(S, p, u, w);
      StarReverse(S, R, LaidOut(sh), p, u, w);
    }
  }

  lemma LfpAll(body: Term, X: iset<Tree>, inv: Term, r: Term)
    requires AllConverse(body, X, inv) && forall w, u :: w in X && Maps(body, w, u) ==> u in X
    requires forall u, w :: Maps(r, u, w) <==> Star(Meaning(inv), u, w)
    ensures AllConverse(Lfp(body), X, r)
  {
    var R, S := Meaning(body), Meaning(inv);
    forall x, y | x in X && R(x, y)
      ensures y in X && S(y, x)
    {
      assert Maps(body, x, y);
    }
    forall w, u | w in X && Maps(Lfp(body), w, u)
      ensures Maps(r, u, w)
    {
      var p :| Path(R, p, w, u);
      StarReverse(R, S, InSetOf(X), p, w, u);
    }
  }

  lemma LfpConverse(sh: Shape, body: Term, X: iset<Tree>, inv: Term, r: Term, partial: bool)
    requires Sorted(sh, inv) && Converse(sh, body, X, inv, partial)
    requires forall u, w :: Maps(r, u, w) <==> Star(Meaning(inv), u, w)
    ensures Converse(sh, Lfp(body), X, r, partial)
  {
    hide OnlyConverse, AllConverse, Sorted, Maps, Star, Meaning;
    LfpOnly(sh, body, inv, r);
    if !partial && Settled(Lfp(body), X) {
      LfpAll(body, X, inv, r);
    }
  }

  lemma PairConverse(sh: Shape, h: Term, tl: Term, X: iset<Tree>, ih: Term, it: Term, partial: bool)
    requires sh.Pair? && Converse(sh.head, h, HeadSet(X), ih, partial) && Converse(sh.tail, tl, TailSet(X), it, partial)
    ensures Converse(sh, OnPair(h, tl), X, PairOf(ih, it), partial)
  {
    var t, r := OnPair(h, tl), PairOf(ih, it);
    forall u, w | Laid(sh, u) && Maps(r, u, w)
      ensures Maps(t, w, u)
    {
      assert w.Cons? && Maps(ih, u.head, w.head) && Maps(it, u.tail, w.tail);
      assert Maps(h, w.head, u.head) && Maps(tl, w.tail, u.tail);
    }
    if !partial && Settled(t, X) {
      forall w, u | w in X && Maps(t, w, u)
        ensures Maps(r, u, w)
      {
        assert w.head in HeadSet(X) && w.tail in TailSet(X);
        assert Maps(ih, u.head, w.head) && Maps(it, u.tail, w.tail);
      }
    }
  }

  lemma ComposeOnly(sh: Shape, after: Term, before: Term, ia: Term, ib: Term)
    requires Sorted(sh, ia) && OnlyConverse(sh, before, ib) && OnlyConverse(sh, after, ia)
    ensures OnlyConverse(sh, Compose(after, before), Compose(ib, ia))
  {
    forall u, w | Laid(sh, u) && Maps(Compose(ib, ia), u, w)
      ensures Maps(Compose(after, before), w, u)
    {
      var m := ComposeVia(ib, ia, u, w);
      MapsLaid(sh, ia, u, m);
      assert Maps(before, w, m) && Maps(after, m, u);
    }
  }

  lemma ComposeAll(after: Term, before: Term, X: iset<Tree>, ia: Term, ib: Term)
    requires AllConverse(before, X, ib) && AllConverse(after, ImageSet(before, X), ia)
    ensures AllConverse(Compose(after, before), X, Compose(ib, ia))
  {
    forall w, u | w in X && Maps(Compose(after, before), w, u)
      ensures Maps(Compose(ib, ia), u, w)
    {
      var m := ComposeVia(after, before, w, u);
      assert m in ImageSet(before, X);
      assert Maps(ia, u, m) && Maps(ib, m, w);
    }
  }

  /** The second term is inverted relative to the image of the potential under the first. */
  lemma ComposeConverse(sh: Shape, after: Term, before: Term, X: iset<Tree>, ia: Term, ib: Term, partial: bool)
    requires Sorted(sh, ia)
    requires Converse(sh, before, X, ib, partial) && Converse(sh, after, ImageSet(before, X), ia, partial)
    ensures Converse(sh, Compose(after, before), X, ComposeOf(ib, ia), partial)
  {
    var t := Compose(after, before);
    ComposeOnly(sh, after, before, ia, ib);
    if !partial && Settled(t, X) {
      ComposeAll(after, before, X, ia, ib);
    }
    forall u, w
      ensures Maps(ComposeOf(ib, ia), u, w) <==> Maps(Compose(ib, ia), u, w)
    {
      ComposeOfMaps(ib, ia, u, w);
    }
    SameConverse(sh, t, X, Compose(ib, ia), ComposeOf(ib, ia), partial);
  }

  lemma SameConverse(sh: Shape, t: Term, X: iset<Tree>, r: Term, r': Term, partial: bool)
    requires Converse(sh, t, X, r, partial) && forall u, w :: Maps(r', u, w) <==> Maps(r, u, w)
    ensures Converse(sh, t, X, r', partial)
  {
  }

  lemma ComposeOfMaps(after: Term, before: Term, w: Tree, u: Tree)
    ensures Maps(ComposeOf(after, before), w, u) <==> Maps(Compose(after, before), w, u)
  {
    if Maps(Compose(after, before), w, u) {
      var m := ComposeVia(after, before, w, u);
    }
    if after.Id? && Maps(before, w, u) {
      assert Maps(after, u, u);
    }
    if before.Id? && Maps(after, w, u) {
      assert Maps(before, w, w);
    }
  }

  /** A guard across a cut is its own converse. */
  lemma GuardConverse(sh: Shape, b: BExpr, X: iset<Tree>)
    ensures Converse(sh, Event(b, []), X, Event(b, []), false)
  {
    forall w, u | Maps(Event(b, []), w, u)
      ensures w == u
    {
      assert forall q :: 0 <= q < |Frontier(w)| ==> Frontier(u)[q] == Frontier(w)[q];
      AlikeSame(w, u);
    }
  }

  // ----- The inverter -----

  /** The terms the inverter takes: no schedule, and no event that assigns across a cut. */
  predicate Invertible(t: Term)
    decreases t
  {
    match t
    case Sum(parts) => forall i :: 0 <= i < |parts| ==> Invertible(parts[i])
    case Lfp(body) => Invertible(body)
    case OnPair(h, tl) => Invertible(h) && Invertible(tl)
    case Compose(after, before) => Invertible(after) && Invertible(before)
    case Saturate(_, _, _) => false
    case Event(_, ups) => ups == []
    case _ => true
  }

  /** A schedule or an assigning event is met whatever the potential, unless that is empty. */
  predicate Blocked(t: Term)
    decreases t
  {
    match t
    case Sum(parts) => exists i :: 0 <= i < |parts| && Blocked(parts[i])
    case Lfp(body) => Blocked(body)
    case OnPair(h, tl) => Blocked(h) || Blocked(tl)
    case Compose(_, before) => Blocked(before)
    case Saturate(_, _, _) => true
    case Event(_, ups) => ups != []
    case _ => false
  }

  /** An invertible term has a converse and a blocked one has none; only a closure is ever cut short. */
  ghost predicate Inverts(t: Term, P: Diag, mayStop: bool, r: Option<Term>, partial: bool) {
    && (!mayStop && Invertible(t) ==> r.Some?)
    && (P != Nothing && Blocked(t) ==> r.None?)
    && (!mayStop || ClosureFree(t) ==> !partial)
  }

  /** The projections of the potential: the join of the primes, the join of the subs. */
  method Projections(sh: Shape, P: Diag) returns (ph: Diag, pt: Diag)
    requires sh.Pair? && NF(sh, P)
    ensures NF(sh.head, ph) && NF(sh.tail, pt)
    ensures WordSet(ph) == HeadSet(WordSet(P)) && WordSet(pt) == TailSet(WordSet(P))
  {
    var A := Arcs(sh.head, sh.tail, P);
    ph, pt := Nothing, Nothing;
    for i: nat := 0 to |A|
      invariant NF(sh.head, ph) && NF(sh.tail, pt)
      invariant forall p :: Has(ph, p) <==> Covers(A[..i], p)
      invariant forall s :: Has(pt, s) <==> CoversSub(A[..i], s)
    {
      ph := Join(sh.head, ph, A[i].prime);
      pt := Join(sh.tail, pt, A[i].sub);
      CoversBoth(A, i);
    }
    assert A[..|A|] == A;
    HeadsDenote(sh, P, A, ph);
    TailsDenote(sh, P, A, pt);
  }

  ghost predicate CoversSub(A: seq<Arc>, s: Tree) {
    exists i :: 0 <= i < |A| && Has(A[i].sub, s)
  }

  lemma CoversBoth(A: seq<Arc>, i: nat)
    requires i < |A|
    ensures forall p :: Covers(A[..i + 1], p) <==> Covers(A[..i], p) || Has(A[i].prime, p)
    ensures forall s :: CoversSub(A[..i + 1], s) <==> CoversSub(A[..i], s) || Has(A[i].sub, s)
  {
    forall p
      ensures Covers(A[..i + 1], p) <==> Covers(A[..i], p) || Has(A[i].prime, p)
    {
      ListHasPrefix(A, i, p, p);
    }
    var B := A[..i + 1];
    forall s
      ensures CoversSub(B, s) <==> CoversSub(A[..i], s) || Has(A[i].sub, s)
    {
      if CoversSub(A[..i], s) {
        var k :| 0 <= k < |A[..i]| && Has(A[..i][k].sub, s);
        assert B[k] == A[..i][k];
      }
      assert B[i] == A[i];
      if CoversSub(B, s) {
        var k :| 0 <= k < |B| && Has(B[k].sub, s);
        assert k < i ==> A[..i][k] == B[k];
      }
    }
  }

  lemma HeadsDenote(sh: Shape, P: Diag, A: seq<Arc>, ph: Diag)
    requires sh.Pair? && Tidy(sh.head, sh.tail, A) && Lists(P, A)
    requires forall p :: Has(ph, p) <==> Covers(A, p)
    ensures WordSet(ph) == HeadSet(WordSet(P))
  {
    forall p
      ensures Has(ph, p) <==> p in HeadSet(WordSet(P))
    {
      if Has(ph, p) {
        var i :| 0 <= i < |A| && Has(A[i].prime, p);
        var s := Inhabited(sh.tail, A[i].sub);
        assert ListHas(A, p, s);
        var w := Cons(p, s);
        assert Has(P, w) && w.head == p;
      }
      if p in HeadSet(WordSet(P)) {
        var w :| w in WordSet(P) && w.Cons? && w.head == p;
        assert ListHas(A, w.head, w.tail);
        var i :| 0 <= i < |A| && ArcHas(A[i], w.head, w.tail);
        assert Has(A[i].prime, p);
      }
    }
  }

  lemma TailsDenote(sh: Shape, P: Diag, A: seq<Arc>, pt: Diag)
    requires sh.Pair? && Tidy(sh.head, sh.tail, A) && Lists(P, A)
    requires forall i :: 0 <= i < |A| ==> A[i].prime != Nothing
    requires forall s :: Has(pt, s) <==> CoversSub(A, s)
    ensures WordSet(pt) == TailSet(WordSet(P))
  {
    forall s
      ensures Has(pt, s) <==> s in TailSet(WordSet(P))
    {
      if Has(pt, s) {
        var i :| 0 <= i < |A| && Has(A[i].sub, s);
        var p := Inhabited(sh.head, A[i].prime);
        assert ListHas(A, p, s);
        var w := Cons(p, s);
        assert Has(P, w) && w.tail == s;
      }
      if s in TailSet(WordSet(P)) {
        var w :| w in WordSet(P) && w.Cons? && w.tail == s;
        assert ListHas(A, w.head, w.tail);
        var i :| 0 <= i < |A| && ArcHas(A[i], w.head, w.tail);
        assert Has(A[i].sub, s);
      }
    }
  }

  lemma ImageSetOf(t: Term, P: Diag, m: Diag)
    requires Sound(t, P, m) && Complete(t, P, m)
    ensures WordSet(m) == ImageSet(t, WordSet(P))
  {
    forall u
      ensures u in WordSet(m) <==> u in ImageSet(t, WordSet(P))
    {
      if Has(m, u) {
        assert Hit(t, P, u);
      }
    }
  }

  /** A shorter image gives a converse that may miss pairs. */
  lemma PartialConverse(sh: Shape, t: Term, X: iset<Tree>, X': iset<Tree>, r: Term, partial: bool)
    requires Converse(sh, t, X, r, partial)
    ensures Converse(sh, t, X', r, true)
  {
  }

  lemma ProjectedInside(P: Diag, ph: Diag, pt: Diag, U: set<Tree>)
    requires WordSet(ph) == HeadSet(WordSet(P)) && WordSet(pt) == TailSet(WordSet(P)) && Inside(P, U)
    ensures Inside(ph, Heads(U)) && Inside(pt, Tails(U))
  {
    forall p | Has(ph, p)
      ensures p in Heads(U)
    {
      assert p in HeadSet(WordSet(P));
    }
    forall s | Has(pt, s)
      ensures s in Tails(U)
    {
      assert s in TailSet(WordSet(P));
    }
  }

  lemma ProjectedSome(sh: Shape, P: Diag, ph: Diag, pt: Diag)
    requires NF(sh, P) && sh.Pair? && WordSet(ph) == HeadSet(WordSet(P)) && WordSet(pt) == TailSet(WordSet(P))
    ensures P != Nothing ==> ph != Nothing && pt != Nothing
  {
    if P != Nothing {
      var w := Inhabited(sh, P);
      assert w in WordSet(P) && w.Cons?;
      assert w.head in WordSet(ph) && w.tail in WordSet(pt);
    }
  }

  /** The converse of a list of terms, one by one; none where one has no converse. */
  method InvertEach(sh: Shape, parts: seq<Term>, P: Diag, mayStop: bool, ghost U: set<Tree>) returns (inv: Option<seq<Term>>, partial: bool)
    requires NF(sh, P) && Inside(P, U) && forall i :: 0 <= i < |parts| ==> Sorted(sh, parts[i]) && Bounded(parts[i], U)
    ensures inv.Some? ==> |inv.value| == |parts| && AllSorted(sh, inv.value)
    ensures inv.Some? ==> forall i :: 0 <= i < |parts| ==> Converse(sh, parts[i], WordSet(P), inv.value[i], partial)
    ensures !mayStop && Invertible(Sum(parts)) ==> inv.Some?
    ensures inv.Some? && P != Nothing ==> !Blocked(Sum(parts))
    ensures !mayStop || ClosureFree(Sum(parts)) ==> !partial
    decreases parts, 0
  {
    hide NF, Has, OnlyConverse, AllConverse, Maps;
    var done: seq<Term> := [];
    partial := false;
    for i := 0 to |parts|
      invariant |done| == i && AllSorted(sh, done)
      invariant P != Nothing ==> forall j :: 0 <= j < i ==> !Blocked(parts[j])
      invariant !mayStop || ClosureFree(Sum(parts)) ==> !partial
      invariant forall j :: 0 <= j < i ==> Converse(sh, parts[j], WordSet(P), done[j], partial)
    {
      var r, part := Invert(sh, parts[i], P, mayStop, U);
      if r.None? {
        return None, false;
      }
      forall j | 0 <= j < i
        ensures Converse(sh, parts[j], WordSet(P), done[j], partial || part)
      {
        assert Converse(sh, parts[j], WordSet(P), done[j], partial);
      }
      partial := partial || part;
      done := done + [r.value];
    }
    inv := Some(done);
  }

  method InvertLeaf(t: Term, P: Diag, mayStop: bool, ghost U: set<Tree>) returns (r: Option<Term>, partial: bool)
    requires Sorted(Leaf, t) && NF(Leaf, P) && Inside(P, U) && Bounded(t, U) && !t.Id?
    ensures r.Some? ==> Sorted(Leaf, r.value) && Converse(Leaf, t, WordSet(P), r.value, partial)
    ensures Inverts(t, P, mayStop, r, partial)
    decreases t, 1
  {
    partial := false;
    if P == Nothing {
      ZeroConverse(Leaf, t, WordSet(P), LeafZero());
      return Some(LeafZero()), false;
    }
    match t {
      case Sum(parts) =>
        var inv, part := InvertEach(Leaf, parts, P, mayStop, U);
        if inv.None? {
          return None, false;
        }
        FusedSorted(Leaf, inv.value);
        forall u, w
          ensures Maps(Fused(inv.value), u, w) <==> MapsAny(inv.value, u, w)
        {
          FusedMaps(inv.value, u, w);
        }
        SumConverse(Leaf, parts, WordSet(P), inv.value, Fused(inv.value), part);
        r, partial := Some(Fused(inv.value)), part;
      case Lfp(body) =>
        ghost var V: set<Tree> :| U <= V && ClosedUnder(body, V) && Bounded(body, V);
        var inv, part := Invert(Leaf, body, P, mayStop, V);
        if inv.None? {
          return None, false;
        }
        forall u, w
          ensures Maps(LeafLfp(inv.value), u, w) <==> Star(Meaning(inv.value), u, w)
        {
          LeafLfpMaps(inv.value, u, w);
        }
        LfpConverse(Leaf, body, WordSet(P), inv.value, LeafLfp(inv.value), part);
        r, partial := Some(LeafLfp(inv.value)), part;
      case Act(_, _) =>
        var inv := InvertAct(t, P.values);
        ActConverse(t, P, inv);
        r := Some(inv);
    }
  }

  lemma ActConverse(t: Term, P: Diag, inv: Term)
    requires t.Act? && P.Ints?
    requires forall u, w :: Maps(inv, u, w) <==> Maps(t, w, u) && w.v in P.values
    ensures Converse(Leaf, t, WordSet(P), inv, false)
  {
  }

  method InvertPair(sh: Shape, t: Term, P: Diag, mayStop: bool, ghost U: set<Tree>) returns (r: Option<Term>, partial: bool)
    requires sh.Pair? && t.OnPair? && Sorted(sh, t) && NF(sh, P) && Inside(P, U) && Bounded(t, U)
    ensures r.Some? ==> Sorted(sh, r.value) && Converse(sh, t, WordSet(P), r.value, partial)
    ensures Inverts(t, P, mayStop, r, partial)
    decreases t, 1
  {
    var ph, pt := Projections(sh, P);
    ProjectedInside(P, ph, pt, U);
    ProjectedSome(sh, P, ph, pt);
    var ih, part := Invert(sh.head, t.head, ph, mayStop, Heads(U));
    var it, part' := Invert(sh.tail, t.tail, pt, mayStop, Tails(U));
    if ih.None? || it.None? {
      return None, false;
    }
    partial := part || part';
    PairConverse(sh, t.head, t.tail, WordSet(P), ih.value, it.value, partial);
    r := Some(PairOf(ih.value, it.value));
  }

  method InvertCompose(sh: Shape, t: Term, P: Diag, mayStop: bool, ghost U: set<Tree>) returns (r: Option<Term>, partial: bool)
    requires sh.Pair? && t.Compose? && Sorted(sh, t) && NF(sh, P) && Inside(P, U) && Bounded(t, U)
    ensures r.Some? ==> Sorted(sh, r.value) && Converse(sh, t, WordSet(P), r.value, partial)
    ensures Inverts(t, P, mayStop, r, partial)
    decreases t, 1
  {
    ghost var V: set<Tree> :| Leads(t.before, U, V) && Bounded(t.after, V);
    var mid := Apply(sh, t.before, P, mayStop, U);
    if mid.Interrupted? {
      return None, false;
    }
    forall u | Has(mid.d, u)
      ensures u in V
    {
      assert Hit(t.before, P, u);
    }
    var ib, part := Invert(sh, t.before, P, mayStop, U);
    var ia, part' := Invert(sh, t.after, mid.d, mayStop, V);
    if ib.None? || ia.None? {
      return None, false;
    }
    partial := mid.partial || part || part';
    if mid.partial {
      PartialConverse(sh, t.after, WordSet(mid.d), ImageSet(t.before, WordSet(P)), ia.value, part');
      PartialConverse(sh, t.before, WordSet(P), WordSet(P), ib.value, part);
    } else {
      ImageSetOf(t.before, P, mid.d);
    }
    ComposeConverse(sh, t.after, t.before, WordSet(P), ia.value, ib.value, partial);
    r := Some(ComposeOf(ib.value, ia.value));
  }

  /** The converse of a term relative to a potential: only true pairs, and all whose source lies in the potential. */
  method Invert(sh: Shape, t: Term, P: Diag, mayStop: bool, ghost U: set<Tree>) returns (r: Option<Term>, partial: bool)
    requires Sorted(sh, t) && NF(sh, P) && Inside(P, U) && Bounded(t, U)
    ensures r.Some? ==> Sorted(sh, r.value) && Converse(sh, t, WordSet(P), r.value, partial)
    ensures Inverts(t, P, mayStop, r, partial)
    decreases t, 2
  {
    partial := false;
    if t.Id? {
      return Some(Id), false;
    }
    var poll: bool := *;
    if mayStop && poll {
      return None, false;
    }
    if !sh.Pair? {
      r, partial := InvertLeaf(t, P, mayStop, U);
      return;
    }
    if P == Nothing {
      ZeroConverse(sh, t, WordSet(P), Within(Nothing));
      return Some(Within(Nothing)), false;
    }
    match t {
      case OnPair(_, _) =>
        r, partial := InvertPair(sh, t, P, mayStop, U);
      case Sum(parts) =>
        var inv, part := InvertEach(sh, parts, P, mayStop, U);
        if inv.None? {
          return None, false;
        }
        SumOfSorted(sh, inv.value);
        forall u, w
          ensures Maps(SumOf(inv.value), u, w) <==> MapsAny(inv.value, u, w)
        {
          SumOfMaps(inv.value, u, w);
        }
        SumConverse(sh, parts, WordSet(P), inv.value, SumOf(inv.value), part);
        r, partial := Some(SumOf(inv.value)), part;
      case Compose(_, _) =>
        r, partial := InvertCompose(sh, t, P, mayStop, U);
      case Lfp(body) =>
        r, partial := InvertLfp(sh, t, P, mayStop, U);
      case Within(_) =>
        r := Some(t);
      case Event(b, ups) =>
        if ups == [] {
          GuardConverse(sh, b, WordSet(P));
          r := Some(t);
        } else {
          r := None;
        }
      case Saturate(_, _, _) =>
        r := None;
    }
  }

  method InvertLfp(sh: Shape, t: Term, P: Diag, mayStop: bool, ghost U: set<Tree>) returns (r: Option<Term>, partial: bool)
    requires sh.Pair? && t.Lfp? && Sorted(sh, t) && NF(sh, P) && Inside(P, U) && Bounded(t, U)
    ensures r.Some? ==> Sorted(sh, r.value) && Converse(sh, t, WordSet(P), r.value, partial)
    ensures Inverts(t, P, mayStop, r, partial)
    decreases t, 1
  {
    ghost var V: set<Tree> :| U <= V && ClosedUnder(t.body, V) && Bounded(t.body, V);
    var inv, part := Invert(sh, t.body, P, mayStop, V);
    if inv.None? {
      return None, false;
    }
    forall u, w
      ensures Maps(LfpOf(inv.value), u, w) <==> Star(Meaning(inv.value), u, w)
    {
      if inv.value.Id? {
        StarOfIdentity(Meaning(inv.value), u, w);
      }
    }
    LfpConverse(sh, t.body, WordSet(P), inv.value, LfpOf(inv.value), part);
    return Some(LfpOf(inv.value)), part;
  }

  // ----- Closures need a closed potential -----

  /** Count from 0 up to 2. */
  function Counter(): Term {
    Act(InSet({0, 1}), ShiftBy(1))
  }

  /** What the inverter makes of the closure of the counter from the potential {0}: one step back from 1. */
  function CounterBack(): Term {
    LeafLfp(ShiftTerm({1}, -1))
  }

  /** The potential {0} is not closed under the counter, and the pair (0, 2) of its closure is lost. */
  lemma OpenPotentialLosesPairs()
    ensures forall u, w :: Maps(ShiftTerm({1}, -1), u, w) <==> Maps(Counter(), w, u) && w.v in {0}
    ensures Maps(Lfp(Counter()), Int(0), Int(2)) && !Maps(CounterBack(), Int(2), Int(0))
  {
    var R := Meaning(Counter());
    assert R(Int(0), Int(1)) && R(Int(1), Int(2));
    StarStep(R, Int(0), Int(1));
    StarStep(R, Int(1), Int(2));
    StarTrans(R, Int(0), Int(1), Int(2));
    var back := ShiftTerm({1}, -1);
    var S := Meaning(back);
    LeafLfpMaps(back, Int(2), Int(0));
    Confined(S, JustTwo(), Int(2), Int(0));
  }

  /** No run leaves a set that no step leaves. */
  lemma Confined(R: (Tree, Tree) -> bool, X: Tree -> bool, w: Tree, u: Tree)
    requires X(w) && forall x, y :: X(x) && R(x, y) ==> X(y)
    ensures Star(R, w, u) ==> X(u)
  {
    if Star(R, w, u) {
      var p :| Path(R, p, w, u);
      ClosedHolds(R, X, p, w, u);
    }
  }

  ghost function JustTwo(): Tree -> bool {
    (w: Tree) => w == Int(2)
  }
}
