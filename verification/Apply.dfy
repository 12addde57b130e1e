/**
 Applying an operation term to a diagram (src/diagram.cc, src/int_set.cc).

 With `mayStop`, a stop request may be seen at any round of a closure, and a poll
 may raise an interruption anywhere else. A closure of a composite sort that is
 stopped returns what it has, marked partial.
 */
module Application {
  import opened Finite
  import opened Leaves
  import opened Expressions
  import opened Diagrams
  import opened Algebra
  import opened Closures
  import opened Terms
  import opened Sorts
  import opened Substitutions
  import opened Positions
  import opened Exactness
  import opened Queries
  import opened Events

  /** What applying a term comes to: a diagram, marked when some closure was stopped, or an interruption. */
  datatype Outcome = Done(d: Diag, partial: bool) | Interrupted

  // ----- What applying promises -----

  ghost predicate Hit(t: Term, d: Diag, u: Tree) {
    exists w :: Has(d, w) && Maps(t, w, u)
  }

  /** Every word of the result is an image. */
  ghost predicate Sound(t: Term, d: Diag, r: Diag) {
    forall u {:trigger Hit(t, d, u)} :: Has(r, u) ==> Hit(t, d, u)
  }

  /** Every image is a word of the result. */
  ghost predicate Complete(t: Term, d: Diag, r: Diag) {
    forall w, u :: Has(d, w) && Maps(t, w, u) ==> Has(r, u)
  }

  ghost predicate Includes(d: Diag, r: Diag) {
    forall w :: Has(d, w) ==> Has(r, w)
  }

  /** `r` is the image of `d`; if partial, a part of it, which still holds `d` when the term keeps its argument. */
  ghost predicate Image(t: Term, d: Diag, r: Diag, partial: bool) {
    && Sound(t, d, r)
    && (!partial ==> Complete(t, d, r))
    && (Inflationary(t) ==> Includes(d, r))
  }

  /** Full results are unique: every shortcut gives the node of the full construction. */
  lemma ImageUnique(sh: Shape, t: Term, d: Diag, r: Diag, r': Diag)
    requires NF(sh, r) && NF(sh, r') && Image(t, d, r, false) && Image(t, d, r', false)
    ensures r == r'
  {
    ImageWithin(t, d, r, r');
    ImageWithin(t, d, r', r);
    Canonical(sh, r, r');
  }

  lemma ImageWithin(t: Term, d: Diag, r: Diag, r': Diag)
    requires Sound(t, d, r) && Complete(t, d, r')
    ensures Includes(r, r')
  {
    forall u | Has(r, u)
      ensures Has(r', u)
    {
      assert Hit(t, d, u);
    }
  }

  lemma ImageInside(t: Term, d: Diag, r: Diag, U: set<Tree>)
    requires Sound(t, d, r) && Inside(d, U) && ClosedUnder(t, U)
    ensures Inside(r, U)
  {
    forall u | Has(r, u)
      ensures u in U
    {
      assert Hit(t, d, u);
      var w :| Has(d, w) && Maps(t, w, u);
    }
  }

  /** Without a stop request the image is whole; only a closure is ever cut short. */
  ghost predicate Answered(t: Term, mayStop: bool, o: Outcome) {
    && (!mayStop ==> o.Done? && !o.partial)
    && (ClosureFree(t) && o.Done? ==> !o.partial)
  }

  // ----- Leaf actions -----

  method Filter(values: set<int>, g: Guard) returns (kept: set<int>)
    ensures forall v :: v in kept <==> v in values && Passes(g, v)
  {
    kept := {};
    var rest := values;
    while rest != {}
      invariant rest <= values
      invariant forall v :: v in kept <==> v in values - rest && Passes(g, v)
      decreases |rest|
    {
      var v := Pick(rest);
      if Passes(g, v) {
        kept := kept + {v};
      }
      rest := rest - {v};
    }
  }

  /** The value an action computes from one value, none where it is undefined. */
  function Computed(a: Action, v: int): Option<int> {
    match a
    case Keep => Some(v)
    case ShiftBy(delta) => Some(v + delta)
    case Transform(rhs, modulo) =>
      (match EvalInt(rhs, [v])
       case Some(r) => Some(Wrapped(r, modulo))
       case None => None)
    case _ => None
  }

  /** The values an action computes from a set of values. */
  method Compute(values: set<int>, a: Action) returns (out: set<int>)
    requires a.Keep? || a.ShiftBy? || a.Transform?
    ensures forall u :: u in out <==> exists v :: v in values && Acts(a, v, u)
  {
    out := {};
    var rest := values;
    while rest != {}
      invariant rest <= values
      invariant forall u :: u in out <==> exists v :: v in values - rest && Acts(a, v, u)
      decreases |rest|
    {
      var v := Pick(rest);
      var u := Computed(a, v);
      if u.Some? {
        out := out + {u.value};
        assert Acts(a, v, u.value);
      }
      ghost var done := values - rest;
      rest := rest - {v};
      assert values - rest == done + {v};
    }
    assert values - {} == values;
  }

  function Interval(lo: int, hi: int): (s: set<int>)
    ensures forall v :: v in s <==> lo <= v < hi
    decreases hi - lo
  {
    if hi <= lo then {} else Interval(lo, hi - 1) + {hi - 1}
  }

  method ApplyAct(t: Term, d: Diag) returns (r: Diag)
    requires t.Act? && NF(Leaf, d)
    ensures NF(Leaf, r) && Image(t, d, r, false)
  {
    if d == Nothing {
      return Nothing;
    }
    var kept := Filter(d.values, t.guard);
    if kept == {} {
      assert forall w, u :: Has(d, w) ==> !Maps(t, w, u);
      return Nothing;
    }
    var out: set<int>;
    match t.action {
      case Assign(c) => out := {c};
      case Havoc(lo, hi) => out := Interval(lo, hi);
      case Choose(choices) => out := choices;
      case _ => out := Compute(kept, t.action);
    }
    r := IntsOrNothing(out);
    forall u | u in out
      ensures exists v :: v in kept && Acts(t.action, v, u)
    {
      var v := AnElement(kept);
      if t.action.Assign? || t.action.Havoc? || t.action.Choose? {
        assert Acts(t.action, v, u);
      }
    }
    forall u | Has(r, u)
      ensures Hit(t, d, u)
    {
      var v :| v in kept && Acts(t.action, v, u.v);
      assert Has(d, Int(v)) && Maps(t, Int(v), u);
    }
  }

  /** Guards and shifts are one-to-one. */
  predicate Injective(t: Term) {
    t.Id? || (t.Act? && (t.action.Keep? || t.action.ShiftBy?))
  }

  lemma InjectiveMaps(t: Term, w: Tree, w': Tree, u: Tree)
    requires Injective(t) && Maps(t, w, u) && Maps(t, w', u)
    ensures w == w'
  {
  }

  // ----- Terms on pairs -----

  ghost predicate PairSound(h: Term, tl: Term, A: seq<Arc>, E: seq<Arc>) {
    forall p, s :: ListHas(E, p, s) ==> exists p0, s0 :: ListHas(A, p0, s0) && Maps(h, p0, p) && Maps(tl, s0, s)
  }

  ghost predicate PairComplete(h: Term, tl: Term, A: seq<Arc>, E: seq<Arc>) {
    forall p0, s0, p, s :: ListHas(A, p0, s0) && Maps(h, p0, p) && Maps(tl, s0, s) ==> ListHas(E, p, s)
  }

  ghost predicate PairKeeps(A: seq<Arc>, E: seq<Arc>) {
    forall p, s :: ListHas(A, p, s) ==> ListHas(E, p, s)
  }

  /** The rectangles `E` are images of the words of `A`; all of them unless partial. */
  ghost predicate PairImage(h: Term, tl: Term, A: seq<Arc>, E: seq<Arc>, partial: bool) {
    && PairSound(h, tl, A, E)
    && (!partial ==> PairComplete(h, tl, A, E))
    && (Inflationary(h) && Inflationary(tl) ==> PairKeeps(A, E))
  }

  lemma PairImageDenotes(h: Term, tl: Term, d: Diag, A: seq<Arc>, E: seq<Arc>, r: Diag, partial: bool)
    requires Lists(d, A) && Lists(r, E) && PairImage(h, tl, A, E, partial)
    ensures Image(OnPair(h, tl), d, r, partial)
  {
    var t := OnPair(h, tl);
    forall u | Has(r, u)
      ensures Hit(t, d, u)
    {
      var p0, s0 :| ListHas(A, p0, s0) && Maps(h, p0, u.head) && Maps(tl, s0, u.tail);
      var w := Cons(p0, s0);
      assert Has(d, w) && Maps(t, w, u);
    }
  }

  /** One more arc: its image is the rectangle of the images. */
  lemma PairImageStep(h: Term, tl: Term, A: seq<Arc>, i: nat, E: seq<Arc>, prime: Diag, sub: Diag, E': seq<Arc>,
                      partial: bool, partial': bool)
    requires i < |A| && PairImage(h, tl, A[..i], E, partial)
    requires partial ==> partial'
    requires Image(h, A[i].prime, prime, partial') && Image(tl, A[i].sub, sub, partial')
    requires forall p, s :: ListHas(E', p, s) <==> ListHas(E, p, s) || ArcHas(Arc(prime, sub), p, s)
    ensures PairImage(h, tl, A[..i + 1], E', partial')
  {
    var B := A[..i + 1];
    forall p, s
      ensures ListHas(B, p, s) <==> ListHas(A[..i], p, s) || ArcHas(A[i], p, s)
    {
      ListHasPrefix(A, i, p, s);
    }
    PairSoundStep(h, tl, A[..i], A[i], B, E, Arc(prime, sub), E');
    if !partial' {
      PairCompleteStep(h, tl, A[..i], A[i], B, E, Arc(prime, sub), E');
    }
    if Inflationary(h) && Inflationary(tl) {
      PairKeepsStep(A[..i], A[i], B, E, Arc(prime, sub), E');
    }
  }

  lemma PairSoundStep(h: Term, tl: Term, A: seq<Arc>, a: Arc, B: seq<Arc>, E: seq<Arc>, e: Arc, E': seq<Arc>)
    requires PairSound(h, tl, A, E) && Sound(h, a.prime, e.prime) && Sound(tl, a.sub, e.sub)
    requires forall p, s :: ListHas(B, p, s) <==> ListHas(A, p, s) || ArcHas(a, p, s)
    requires forall p, s :: ListHas(E', p, s) <==> ListHas(E, p, s) || ArcHas(e, p, s)
    ensures PairSound(h, tl, B, E')
  {
    forall p, s | ListHas(E', p, s)
      ensures exists p0, s0 :: ListHas(B, p0, s0) && Maps(h, p0, p) && Maps(tl, s0, s)
    {
      if ListHas(E, p, s) {
        var p0, s0 :| ListHas(A, p0, s0) && Maps(h, p0, p) && Maps(tl, s0, s);
        assert ListHas(B, p0, s0);
      } else {
        assert Hit(h, a.prime, p);
        var p0 :| Has(a.prime, p0) && Maps(h, p0, p);
        assert Hit(tl, a.sub, s);
        var s0 :| Has(a.sub, s0) && Maps(tl, s0, s);
        assert ArcHas(a, p0, s0);
        assert ListHas(B, p0, s0);
      }
    }
  }

  lemma PairCompleteStep(h: Term, tl: Term, A: seq<Arc>, a: Arc, B: seq<Arc>, E: seq<Arc>, e: Arc, E': seq<Arc>)
    requires PairComplete(h, tl, A, E) && Complete(h, a.prime, e.prime) && Complete(tl, a.sub, e.sub)
    requires forall p, s :: ListHas(B, p, s) <==> ListHas(A, p, s) || ArcHas(a, p, s)
    requires forall p, s :: ListHas(E', p, s) <==> ListHas(E, p, s) || ArcHas(e, p, s)
    ensures PairComplete(h, tl, B, E')
  {
    forall p0, s0, p, s | ListHas(B, p0, s0) && Maps(h, p0, p) && Maps(tl, s0, s)
      ensures ListHas(E', p, s)
    {
      if ArcHas(a, p0, s0) {
        assert ArcHas(e, p, s);
      }
    }
  }

  lemma PairKeepsStep(A: seq<Arc>, a: Arc, B: seq<Arc>, E: seq<Arc>, e: Arc, E': seq<Arc>)
    requires PairKeeps(A, E) && Includes(a.prime, e.prime) && Includes(a.sub, e.sub)
    requires forall p, s :: ListHas(B, p, s) <==> ListHas(A, p, s) || ArcHas(a, p, s)
    requires forall p, s :: ListHas(E', p, s) <==> ListHas(E, p, s) || ArcHas(e, p, s)
    ensures PairKeeps(B, E')
  {
  }

  /** A head of the entries is an image of a head of the arcs so far. */
  ghost predicate HeadsFrom(h: Term, A: seq<Arc>, E: seq<Arc>) {
    forall p :: Covers(E, p) ==> exists p0 :: Covers(A, p0) && Maps(h, p0, p)
  }

  lemma HeadsFromStep(h: Term, A: seq<Arc>, i: nat, E: seq<Arc>, prime: Diag, E': seq<Arc>)
    requires i < |A| && HeadsFrom(h, A[..i], E) && Sound(h, A[i].prime, prime)
    requires forall p :: Covers(E', p) ==> Covers(E, p) || Has(prime, p)
    ensures HeadsFrom(h, A[..i + 1], E')
  {
    forall p | Covers(E', p)
      ensures exists p0 :: Covers(A[..i + 1], p0) && Maps(h, p0, p)
    {
      if Covers(E, p) {
        var p0 :| Covers(A[..i], p0) && Maps(h, p0, p);
        ListHasPrefix(A, i, p0, p0);
      } else {
        assert Hit(h, A[i].prime, p);
        var p0 :| Has(A[i].prime, p0) && Maps(h, p0, p);
        ListHasPrefix(A, i, p0, p0);
      }
    }
  }

  /** Images of disjoint primes under a one-to-one head are disjoint. */
  lemma ImagesClear(h: Term, A: seq<Arc>, i: nat, E: seq<Arc>, prime: Diag)
    requires i < |A| && Apart(A) && Injective(h) && HeadsFrom(h, A[..i], E) && Sound(h, A[i].prime, prime)
    ensures Clear(E, prime)
  {
    forall p | Covers(E, p)
      ensures !Has(prime, p)
    {
      var p0 :| Covers(A[..i], p0) && Maps(h, p0, p);
      var k :| 0 <= k < |A[..i]| && Has(A[..i][k].prime, p0);
      assert Disjoint(A[k].prime, A[i].prime);
      if Has(prime, p) {
        assert Hit(h, A[i].prime, p);
        var p1 :| Has(A[i].prime, p1) && Maps(h, p1, p);
        InjectiveMaps(h, p0, p1, p);
      }
    }
    ClearCovers(E, prime);
  }

  /** The arcs of a diagram inside `U` have their primes and subs inside its projections. */
  lemma ArcInside(h: Shape, t: Shape, d: Diag, A: seq<Arc>, i: nat, U: set<Tree>)
    requires Tidy(h, t, A) && Lists(d, A) && Inside(d, U) && i < |A| && A[i].prime != Nothing
    ensures Inside(A[i].prime, Heads(U)) && Inside(A[i].sub, Tails(U))
  {
    forall p, s | Has(A[i].prime, p) && Has(A[i].sub, s)
      ensures p in Heads(U) && s in Tails(U)
    {
      assert ListHas(A, p, s);
      var w := Cons(p, s);
      assert Has(d, w);
      assert w.head == p && w.tail == s;
    }
    var p := Inhabited(h, A[i].prime);
    var s := Inhabited(t, A[i].sub);
  }

  /** The image of one arc, none when interrupted; an identity head is not applied. */
  method ImageOfArc(sh: Shape, t: Term, a: Arc, mayStop: bool, ghost U: set<Tree>) returns (r: Option<Arc>, partial: bool)
    requires sh.Pair? && t.OnPair? && Sorted(sh, t) && Bounded(t, U)
    requires NF(sh.head, a.prime) && NF(sh.tail, a.sub) && Inside(a.prime, Heads(U)) && Inside(a.sub, Tails(U))
    ensures r.Some? ==> NF(sh.head, r.value.prime) && NF(sh.tail, r.value.sub)
    ensures r.Some? ==> Image(t.head, a.prime, r.value.prime, partial) && Image(t.tail, a.sub, r.value.sub, partial)
    ensures (!mayStop ==> r.Some? && !partial) && (r.Some? && ClosureFree(t) ==> !partial)
    decreases Weight(t), sh, Rank(t), 0
  {
    var poll: bool := *;
    if mayStop && poll {
      return None, false;
    }
    var p := Done(a.prime, false);
    if !t.head.Id? {
      p := Apply(sh.head, t.head, a.prime, mayStop, Heads(U));
    }
    if p.Interrupted? {
      return None, false;
    }
    var s := Apply(sh.tail, t.tail, a.sub, mayStop, Tails(U));
    if s.Interrupted? {
      return None, false;
    }
    return Some(Arc(p.d, s.d)), p.partial || s.partial;
  }

  lemma NoArcs(h: Term, tl: Term, A: seq<Arc>)
    ensures PairImage(h, tl, A[..0], [], false) && HeadsFrom(h, A[..0], [])
  {
  }

  /** The head is one-to-one: image primes stay disjoint, only the regrouping by sub is owed. */
  method ApplyApart(sh: Shape, t: Term, d: Diag, mayStop: bool, ghost U: set<Tree>) returns (o: Outcome)
    requires sh.Pair? && t.OnPair? && Sorted(sh, t) && NF(sh, d) && Inside(d, U) && Bounded(t, U) && Injective(t.head)
    ensures o.Done? ==> NF(sh, o.d) && Image(t, d, o.d, o.partial)
    ensures Answered(t, mayStop, o)
    decreases Weight(t), sh, Rank(t), 1
  {
    hide Maps, Bounded, PairImage, HeadsFrom, ListHas, Inside, Weight, Rank;
    var A := Arcs(sh.head, sh.tail, d);
    var acc := new Accumulator(sh.head, sh.tail);
    var partial := false;
    NoArcs(t.head, t.tail, A);
    for i: nat := 0 to |A|
      invariant fresh(acc) && acc.sort == sh && acc.Valid()
      invariant PairImage(t.head, t.tail, A[..i], acc.entries, partial)
      invariant !mayStop || ClosureFree(t) ==> !partial
      invariant HeadsFrom(t.head, A[..i], acc.entries)
    {
      ghost var E, before := acc.entries, partial;
      ArcInside(sh.head, sh.tail, d, A, i, U);
      var r, part := ImageOfArc(sh, t, A[i], mayStop, U);
      if r.None? {
        return Interrupted;
      }
      partial := partial || part;
      ImagesClear(t.head, A, i, E, r.value.prime);
      acc.Add(r.value.sub, r.value.prime);
      PairImageStep(t.head, t.tail, A, i, E, r.value.prime, r.value.sub, acc.entries, before, partial);
      HeadsFromStep(t.head, A, i, E, r.value.prime, acc.entries);
    }
    assert A[..|A|] == A;
    var r := Finish(acc);
    PairImageDenotes(t.head, t.tail, d, A, acc.entries, r, partial);
    o := Done(r, partial);
  }

  /** An empty rectangle may be left out. */
  lemma BagStep(h: Shape, tl: Shape, t: Term, A: seq<Arc>, i: nat, E: seq<Arc>, a: Arc, bag: seq<Arc>, partial: bool,
                partial': bool)
    requires t.OnPair? && i < |A| && PairImage(t.head, t.tail, A[..i], E, partial) && (partial ==> partial')
    requires Image(t.head, A[i].prime, a.prime, partial') && Image(t.tail, A[i].sub, a.sub, partial')
    requires Typed(h, tl, E) && NF(h, a.prime) && NF(tl, a.sub)
    requires bag == if a.prime != Nothing && a.sub != Nothing then E + [a] else E
    ensures PairImage(t.head, t.tail, A[..i + 1], bag, partial') && Typed(h, tl, bag)
  {
    forall p, s
      ensures ListHas(bag, p, s) <==> ListHas(E, p, s) || ArcHas(Arc(a.prime, a.sub), p, s)
    {
      ListHasAppend(E, a, p, s);
    }
    PairImageStep(t.head, t.tail, A, i, E, a.prime, a.sub, bag, partial, partial');
  }

  /** The images of the arcs, as a bag of rectangles; none when interrupted. */
  method ImagesOfArcs(sh: Shape, t: Term, A: seq<Arc>, mayStop: bool, ghost U: set<Tree>) returns (r: Option<seq<Arc>>, partial: bool)
    requires sh.Pair? && t.OnPair? && Sorted(sh, t) && Bounded(t, U) && Typed(sh.head, sh.tail, A)
    requires forall i :: 0 <= i < |A| ==> Inside(A[i].prime, Heads(U)) && Inside(A[i].sub, Tails(U))
    ensures r.Some? ==> Typed(sh.head, sh.tail, r.value) && PairImage(t.head, t.tail, A, r.value, partial)
    ensures (!mayStop ==> r.Some? && !partial) && (r.Some? && ClosureFree(t) ==> !partial)
    decreases Weight(t), sh, Rank(t), 1
  {
    var bag: seq<Arc> := [];
    partial := false;
    for i: nat := 0 to |A|
      invariant Typed(sh.head, sh.tail, bag)
      invariant PairImage(t.head, t.tail, A[..i], bag, partial)
      invariant !mayStop || ClosureFree(t) ==> !partial
    {
      ghost var E, before := bag, partial;
      var a, part := ImageOfArc(sh, t, A[i], mayStop, U);
      if a.None? {
        return None, false;
      }
      partial := partial || part;
      if a.value.prime != Nothing && a.value.sub != Nothing {
        bag := bag + [a.value];
      }
      BagStep(sh.head, sh.tail, t, A, i, E, a.value, bag, before, partial);
    }
    assert A[..|A|] == A;
    r := Some(bag);
  }

  /** The head acts: primes may overlap, so the whole construction runs. */
  method ApplyAll(sh: Shape, t: Term, d: Diag, mayStop: bool, ghost U: set<Tree>) returns (o: Outcome)
    requires sh.Pair? && t.OnPair? && Sorted(sh, t) && NF(sh, d) && Inside(d, U) && Bounded(t, U)
    ensures o.Done? ==> NF(sh, o.d) && Image(t, d, o.d, o.partial)
    ensures Answered(t, mayStop, o)
    decreases Weight(t), sh, Rank(t), 2
  {
    var A := Arcs(sh.head, sh.tail, d);
    forall i | 0 <= i < |A|
      ensures Inside(A[i].prime, Heads(U)) && Inside(A[i].sub, Tails(U))
    {
      ArcInside(sh.head, sh.tail, d, A, i, U);
    }
    var bag, partial := ImagesOfArcs(sh, t, A, mayStop, U);
    if bag.None? {
      return Interrupted;
    }
    var r := Canonize(sh, bag.value);
    PairImageDenotes(t.head, t.tail, d, A, bag.value, r, partial);
    o := Done(r, partial);
  }

  // ----- Sums and compositions -----

  lemma SumOfNone(d: Diag)
    ensures Image(Sum([]), d, Nothing, false)
  {
  }

  lemma SumOneMore(parts: seq<Term>, i: nat, w: Tree, u: Tree)
    requires i < |parts|
    ensures Maps(Sum(parts[..i + 1]), w, u) <==> Maps(Sum(parts[..i]), w, u) || Maps(parts[i], w, u)
  {
    var before, now := parts[..i], parts[..i + 1];
    if MapsAny(before, w, u) {
      var k :| 0 <= k < |before| && Maps(before[k], w, u);
      assert Maps(now[k], w, u);
    }
    assert now[i] == parts[i];
    if MapsAny(now, w, u) {
      var k :| 0 <= k < |now| && Maps(now[k], w, u);
      assert k < i ==> Maps(before[k], w, u);
    }
  }

  lemma SumSound(parts: seq<Term>, i: nat, d: Diag, r: Diag, image: Diag, r': Diag)
    requires i < |parts| && Sound(Sum(parts[..i]), d, r) && Sound(parts[i], d, image)
    requires forall w :: Has(r', w) <==> Has(r, w) || Has(image, w)
    ensures Sound(Sum(parts[..i + 1]), d, r')
  {
    forall u | Has(r', u)
      ensures Hit(Sum(parts[..i + 1]), d, u)
    {
      if Has(r, u) {
        assert Hit(Sum(parts[..i]), d, u);
        var w :| Has(d, w) && Maps(Sum(parts[..i]), w, u);
        SumOneMore(parts, i, w, u);
      } else {
        assert Hit(parts[i], d, u);
        var w :| Has(d, w) && Maps(parts[i], w, u);
        SumOneMore(parts, i, w, u);
      }
    }
  }

  lemma SumComplete(parts: seq<Term>, i: nat, d: Diag, r: Diag, image: Diag, r': Diag)
    requires i < |parts| && Complete(Sum(parts[..i]), d, r) && Complete(parts[i], d, image)
    requires forall w :: Has(r', w) <==> Has(r, w) || Has(image, w)
    ensures Complete(Sum(parts[..i + 1]), d, r')
  {
    forall w, u | Has(d, w) && Maps(Sum(parts[..i + 1]), w, u)
      ensures Has(r', u)
    {
      SumOneMore(parts, i, w, u);
    }
  }

  lemma SumStep(parts: seq<Term>, i: nat, d: Diag, r: Diag, image: Diag, r': Diag, partial: bool, partial': bool)
    requires i < |parts| && Image(Sum(parts[..i]), d, r, partial) && (partial ==> partial')
    requires Image(parts[i], d, image, partial') && forall w :: Has(r', w) <==> Has(r, w) || Has(image, w)
    ensures Image(Sum(parts[..i + 1]), d, r', partial')
  {
    SumSound(parts, i, d, r, image, r');
    if !partial' {
      SumComplete(parts, i, d, r, image, r');
    }
    var before, now := parts[..i], parts[..i + 1];
    if Inflationary(Sum(now)) {
      var k :| 0 <= k < |now| && Inflationary(now[k]);
      assert k < i ==> Inflationary(before[k]);
    }
  }

  method ApplySum(sh: Shape, t: Term, d: Diag, mayStop: bool, ghost U: set<Tree>) returns (o: Outcome)
    requires t.Sum? && Sorted(sh, t) && NF(sh, d) && Inside(d, U) && Bounded(t, U)
    ensures o.Done? ==> NF(sh, o.d) && Image(t, d, o.d, o.partial)
    ensures Answered(t, mayStop, o)
    decreases Weight(t), sh, Rank(t), 0
  {
    var r, partial := Nothing, false;
    SumOfNone(d);
    assert t.parts[..0] == [];
    for i: nat := 0 to |t.parts|
      invariant NF(sh, r) && Image(Sum(t.parts[..i]), d, r, partial)
      invariant !mayStop || ClosureFree(t) ==> !partial
    {
      ghost var r0, before := r, partial;
      WeightMember(t.parts, i);
      var p := Apply(sh, t.parts[i], d, mayStop, U);
      if p.Interrupted? {
        return Interrupted;
      }
      r := Join(sh, r, p.d);
      partial := partial || p.partial;
      SumStep(t.parts, i, d, r0, p.d, r, before, partial);
    }
    assert t.parts[..|t.parts|] == t.parts;
    o := Done(r, partial);
  }

  lemma ComposeVia(after: Term, before: Term, w: Tree, u: Tree) returns (m: Tree)
    requires Maps(Compose(after, before), w, u)
    ensures Maps(before, w, m) && Maps(after, m, u)
  {
    m :| Maps(before, w, m) && Maps(after, m, u);
  }

  lemma ComposeSound(after: Term, before: Term, d: Diag, m: Diag, r: Diag)
    requires Sound(before, d, m) && Sound(after, m, r)
    ensures Sound(Compose(after, before), d, r)
  {
    forall u | Has(r, u)
      ensures Hit(Compose(after, before), d, u)
    {
      assert Hit(after, m, u);
      var x :| Has(m, x) && Maps(after, x, u);
      assert Hit(before, d, x);
      var w :| Has(d, w) && Maps(before, w, x);
      assert Maps(Compose(after, before), w, u);
    }
  }

  lemma ComposeComplete(after: Term, before: Term, d: Diag, m: Diag, r: Diag)
    requires Complete(before, d, m) && Complete(after, m, r)
    ensures Complete(Compose(after, before), d, r)
  {
    forall w, u | Has(d, w) && Maps(Compose(after, before), w, u)
      ensures Has(r, u)
    {
      var x := ComposeVia(after, before, w, u);
      assert Has(m, x);
    }
  }

  lemma ComposeImage(after: Term, before: Term, d: Diag, m: Diag, r: Diag, partial: bool, partial': bool)
    requires Image(before, d, m, partial) && Image(after, m, r, partial')
    ensures Image(Compose(after, before), d, r, partial || partial')
  {
    ComposeSound(after, before, d, m, r);
    if !partial && !partial' {
      ComposeComplete(after, before, d, m, r);
    }
  }

  method ApplyCompose(sh: Shape, t: Term, d: Diag, mayStop: bool, ghost U: set<Tree>) returns (o: Outcome)
    requires t.Compose? && Sorted(sh, t) && NF(sh, d) && Inside(d, U) && Bounded(t, U)
    ensures o.Done? ==> NF(sh, o.d) && Image(t, d, o.d, o.partial)
    ensures Answered(t, mayStop, o)
    decreases Weight(t), sh, Rank(t), 0
  {
    ghost var V: set<Tree> :| Leads(t.before, U, V) && Bounded(t.after, V);
    var m := Apply(sh, t.before, d, mayStop, U);
    if m.Interrupted? {
      return Interrupted;
    }
    forall u | Has(m.d, u)
      ensures u in V
    {
      assert Hit(t.before, d, u);
      var w :| Has(d, w) && Maps(t.before, w, u);
    }
    var r := Apply(sh, t.after, m.d, mayStop, V);
    if r.Interrupted? {
      return Interrupted;
    }
    ComposeImage(t.after, t.before, d, m.d, r.d, m.partial, r.partial);
    o := Done(r.d, m.partial || r.partial);
  }

  // ----- Closures -----

  /** The words of `V` the diagram has not reached. */
  ghost function Missing(d: Diag, V: set<Tree>): set<Tree> {
    set w | w in V && !Has(d, w)
  }

  lemma Grows(sh: Shape, x: Diag, y: Diag, V: set<Tree>)
    requires NF(sh, x) && NF(sh, y) && Includes(x, y) && Inside(y, V) && x != y
    ensures |Missing(y, V)| < |Missing(x, V)|
  {
    var w: Tree :| Has(x, w) != Has(y, w) by {
      if SameWords(x, y) {
        Canonical(sh, x, y);
      }
    }
    assert w in Missing(x, V) && w !in Missing(y, V);
    assert Missing(y, V) <= Missing(x, V) - {w};
    SubsetSize(Missing(y, V), Missing(x, V) - {w});
  }

  ghost predicate RunsTo(R: (Tree, Tree) -> bool, d: Diag, u: Tree) {
    exists w :: Has(d, w) && Star(R, w, u)
  }

  /** `x` holds the argument and only words that runs of `R` reach from it. */
  ghost predicate Reached(R: (Tree, Tree) -> bool, d: Diag, x: Diag) {
    && Includes(d, x)
    && forall u {:trigger RunsTo(R, d, u)} :: Has(x, u) ==> RunsTo(R, d, u)
  }

  lemma ReachedStart(R: (Tree, Tree) -> bool, d: Diag)
    ensures Reached(R, d, d)
  {
    forall u | Has(d, u)
      ensures RunsTo(R, d, u)
    {
      StarRefl(R, u);
    }
  }

  /** A word one step further is reached too. */
  lemma ReachedMore(R: (Tree, Tree) -> bool, d: Diag, x: Diag, y: Diag)
    requires Reached(R, d, x) && Includes(x, y)
    requires forall u {:trigger RunsTo(R, x, u)} :: Has(y, u) && !Has(x, u) ==> RunsTo(R, x, u)
    ensures Reached(R, d, y)
  {
    forall u | Has(y, u)
      ensures RunsTo(R, d, u)
    {
      if !Has(x, u) {
        assert RunsTo(R, x, u);
        var v :| Has(x, v) && Star(R, v, u);
        assert RunsTo(R, d, v);
        var w :| Has(d, w) && Star(R, w, v);
        StarTrans(R, w, v, u);
      }
    }
  }

  ghost function WordsOf(x: Diag): Tree -> bool {
    (v: Tree) => Has(x, v)
  }

  /** A closed set holds every run from the argument. */
  lemma ClosedComplete(R: (Tree, Tree) -> bool, d: Diag, x: Diag)
    requires Includes(d, x) && forall w, u :: Has(x, w) && R(w, u) ==> Has(x, u)
    ensures forall w, u :: Has(d, w) && Star(R, w, u) ==> Has(x, u)
  {
    forall w, u | Has(d, w) && Star(R, w, u)
      ensures Has(x, u)
    {
      var p :| Path(R, p, w, u);
      ClosedHolds(R, WordsOf(x), p, w, u);
    }
  }

  lemma LfpImage(t: Term, d: Diag, x: Diag, image: Diag, partial: bool)
    requires t.Lfp? && Reached(Meaning(t.body), d, x)
    requires !partial ==> Complete(t.body, x, image) && Includes(image, x)
    ensures Image(t, d, x, partial)
  {
    var R := Meaning(t.body);
    if !partial {
      ClosedComplete(R, d, x);
    }
    forall u | Has(x, u)
      ensures Hit(t, d, u)
    {
      assert RunsTo(R, d, u);
      var w :| Has(d, w) && Star(R, w, u);
    }
  }

  lemma LfpRound(t: Term, d: Diag, x: Diag, image: Diag, y: Diag)
    requires t.Lfp? && Reached(Meaning(t.body), d, x) && Sound(t.body, x, image)
    requires forall w :: Has(y, w) <==> Has(x, w) || Has(image, w)
    ensures Reached(Meaning(t.body), d, y)
  {
    var R := Meaning(t.body);
    forall u | Has(y, u) && !Has(x, u)
      ensures RunsTo(R, x, u)
    {
      assert Hit(t.body, x, u);
      var w :| Has(x, w) && Maps(t.body, w, u);
      StarStep(R, w, u);
    }
    ReachedMore(R, d, x, y);
  }

  method ApplyLfp(sh: Shape, t: Term, d: Diag, mayStop: bool, ghost U: set<Tree>) returns (o: Outcome)
    requires t.Lfp? && Sorted(sh, t) && NF(sh, d) && Inside(d, U) && Bounded(t, U)
    ensures o.Done? ==> NF(sh, o.d) && Image(t, d, o.d, o.partial)
    ensures Answered(t, mayStop, o)
    decreases Weight(t), sh, Rank(t), 0
  {
    ghost var V: set<Tree> :| U <= V && ClosedUnder(t.body, V) && Bounded(t.body, V);
    var x, partial := d, false;
    ReachedStart(Meaning(t.body), d);
    while true
      invariant NF(sh, x) && Inside(x, V) && Reached(Meaning(t.body), d, x)
      invariant !mayStop ==> !partial
      decreases |Missing(x, V)|
    {
      var stop: bool := *;
      if mayStop && stop {
        LfpImage(t, d, x, x, true);
        return Done(x, true);
      }
      var image := Apply(sh, t.body, x, mayStop, V);
      var poll: bool := *;
      if image.Interrupted? || (mayStop && poll) {
        LfpImage(t, d, x, x, true);
        return if sh == Leaf then Interrupted else Done(x, true);
      }
      var y := Join(sh, x, image.d);
      partial := partial || image.partial;
      if y == x {
        LfpImage(t, d, x, image.d, partial);
        return Done(x, partial);
      }
      ImageInside(t.body, x, image.d, V);
      Grows(sh, x, y, V);
      LfpRound(t, d, x, image.d, y);
      x := y;
    }
  }

  // ----- The schedule -----

  /** The parts of a schedule and a finite set they do not leave. */
  ghost predicate Scheduled(t: Term, V: set<Tree>) {
    && t.Saturate? && ClosedUnder(t.f, V) && ClosedUnder(t.l, V) && Bounded(t.f, V) && Bounded(t.l, V)
    && forall i :: 0 <= i < |t.g| ==> ClosedUnder(t.g[i], V) && Bounded(t.g[i], V)
  }

  /** One part of a schedule, applied and kept: what it adds is reached. */
  lemma PartReached(t: Term, part: Term, d: Diag, x: Diag, image: Diag, y: Diag)
    requires t.Saturate? && (part == t.f || part == t.l || part in t.g)
    requires Reached(Schedule(t), d, x) && Sound(part, x, image) && Includes(x, y)
    requires forall w :: Has(y, w) ==> Has(x, w) || Has(image, w)
    ensures Reached(Schedule(t), d, y)
  {
    var R := Schedule(t);
    forall u | Has(y, u) && !Has(x, u)
      ensures RunsTo(R, x, u)
    {
      assert Hit(part, x, u);
      var w :| Has(x, w) && Maps(part, w, u);
      if part in t.g {
        var i :| 0 <= i < |t.g| && t.g[i] == part;
        assert MapsAny(t.g, w, u);
      }
      assert R(w, u);
      StarStep(R, w, u);
    }
    ReachedMore(R, d, x, y);
  }

  /** The results of the parts applied so far to the words of `x` are in `y`. */
  ghost predicate Advanced(t: Term, k: nat, x: Diag, y: Diag)
    requires t.Saturate? && k <= |t.g|
  {
    forall w, u :: Has(x, w) && (Maps(t.f, w, u) || Maps(t.l, w, u) || MapsAny(t.g[..k], w, u)) ==> Has(y, u)
  }

  lemma AdvancedStep(t: Term, k: nat, x: Diag, y: Diag, image: Diag, y': Diag)
    requires t.Saturate? && k < |t.g| && Advanced(t, k, x, y) && Includes(x, y)
    requires Complete(t.g[k], y, image) && forall w :: Has(y', w) <==> Has(y, w) || Has(image, w)
    ensures Advanced(t, k + 1, x, y')
  {
    forall w, u | Has(x, w) && MapsAny(t.g[..k + 1], w, u)
      ensures Has(y', u)
    {
      var i :| 0 <= i < k + 1 && Maps(t.g[..k + 1][i], w, u);
      if i < k {
        assert Maps(t.g[..k][i], w, u);
        assert MapsAny(t.g[..k], w, u);
      }
    }
  }

  lemma AdvancedStart(t: Term, x: Diag, y: Diag, z: Diag)
    requires t.Saturate? && Complete(t.f, x, y) && Complete(t.l, y, z) && Includes(x, y) && Includes(y, z)
    ensures Advanced(t, 0, x, z)
  {
  }

  /** One round: settle below the cut, then its edge, then chain what crosses. */
  method Round(sh: Shape, t: Term, x: Diag, mayStop: bool, ghost V: set<Tree>) returns (y: Diag, partial: bool, stopped: bool)
    requires Sorted(sh, t) && Scheduled(t, V) && NF(sh, x) && Inside(x, V)
    ensures NF(sh, y) && Inside(y, V) && Reached(Schedule(t), x, y)
    ensures !partial && !stopped ==> Advanced(t, |t.g|, x, y)
    ensures !mayStop ==> !partial && !stopped
    decreases Weight(t), sh, Rank(t), 0
  {
    y, partial, stopped := x, false, false;
    ReachedStart(Schedule(t), x);
    var f := Apply(sh, t.f, y, mayStop, V);
    if f.Interrupted? {
      return x, false, true;
    }
    ImageInside(t.f, x, f.d, V);
    PartReached(t, t.f, x, x, f.d, f.d);
    var l := Apply(sh, t.l, f.d, mayStop, V);
    if l.Interrupted? {
      return f.d, f.partial, true;
    }
    ImageInside(t.l, f.d, l.d, V);
    PartReached(t, t.l, x, f.d, l.d, l.d);
    y, partial := l.d, f.partial || l.partial;
    if !partial {
      AdvancedStart(t, x, f.d, l.d);
    }
    for k: nat := 0 to |t.g|
      invariant NF(sh, y) && Inside(y, V) && Reached(Schedule(t), x, y)
      invariant !partial ==> Advanced(t, k, x, y)
      invariant !mayStop ==> !partial
    {
      WeightMember(t.g, k);
      var g := Apply(sh, t.g[k], y, mayStop, V);
      var poll: bool := *;
      if g.Interrupted? || (mayStop && poll) {
        return y, partial, true;
      }
      ghost var before := y;
      y := Join(sh, y, g.d);
      partial := partial || g.partial;
      ImageInside(t.g[k], before, g.d, V);
      PartReached(t, t.g[k], x, before, g.d, y);
      if !partial {
        AdvancedStep(t, k, x, before, g.d, y);
      }
    }
  }

  lemma ReachedChain(R: (Tree, Tree) -> bool, d: Diag, x: Diag, y: Diag)
    requires Reached(R, d, x) && Reached(R, x, y)
    ensures Reached(R, d, y)
  {
    forall u | Has(y, u) && !Has(x, u)
      ensures RunsTo(R, x, u)
    {
    }
    ReachedMore(R, d, x, y);
  }

  lemma SaturateImage(t: Term, d: Diag, x: Diag, partial: bool)
    requires t.Saturate? && Reached(Schedule(t), d, x)
    requires !partial ==> Advanced(t, |t.g|, x, x)
    ensures Image(t, d, x, partial)
  {
    var R := Schedule(t);
    if !partial {
      assert t.g[..|t.g|] == t.g;
      ClosedComplete(R, d, x);
    }
    forall u | Has(x, u)
      ensures Hit(t, d, u)
    {
      assert RunsTo(R, d, u);
      var w :| Has(d, w) && Star(R, w, u);
    }
  }

  method ApplySaturate(sh: Shape, t: Term, d: Diag, mayStop: bool, ghost U: set<Tree>) returns (o: Outcome)
    requires t.Saturate? && Sorted(sh, t) && NF(sh, d) && Inside(d, U) && Bounded(t, U)
    ensures o.Done? ==> NF(sh, o.d) && Image(t, d, o.d, o.partial)
    ensures Answered(t, mayStop, o)
    decreases Weight(t), sh, Rank(t), 1
  {
    ghost var V: set<Tree> :| U <= V && Scheduled(t, V);
    var current, partial := d, false;
    ReachedStart(Schedule(t), d);
    while true
      invariant NF(sh, current) && Inside(current, V) && Reached(Schedule(t), d, current)
      invariant !mayStop ==> !partial
      decreases |Missing(current, V)|
    {
      var stop: bool := *;
      if mayStop && stop {
        SaturateImage(t, d, current, true);
        return Done(current, true);
      }
      var next, part, stopped := Round(sh, t, current, mayStop, V);
      ReachedChain(Schedule(t), d, current, next);
      partial := partial || part;
      if stopped {
        SaturateImage(t, d, next, true);
        return Done(next, true);
      }
      if next == current {
        SaturateImage(t, d, current, partial);
        return Done(current, partial);
      }
      Grows(sh, current, next, V);
      current := next;
    }
  }

  // ----- Events -----

  ghost predicate HitIn(t: Term, L: seq<Arc>, u: Tree) {
    exists p, s :: ListHas(L, p, s) && Maps(t, Cons(p, s), u)
  }

  ghost predicate ListSound(t: Term, L: seq<Arc>, r: Diag) {
    forall u {:trigger HitIn(t, L, u)} :: Has(r, u) ==> HitIn(t, L, u)
  }

  ghost predicate ListComplete(t: Term, L: seq<Arc>, r: Diag) {
    forall p, s, u :: ListHas(L, p, s) && Maps(t, Cons(p, s), u) ==> Has(r, u)
  }

  /** The image of the words of a list of rectangles; a part of it if partial. */
  ghost predicate ListImage(t: Term, L: seq<Arc>, r: Diag, partial: bool) {
    ListSound(t, L, r) && (!partial ==> ListComplete(t, L, r))
  }

  lemma ListImageStart(t: Term)
    ensures ListImage(t, [], Nothing, false)
  {
  }

  lemma ListSoundStep(t: Term, L: seq<Arc>, r: Diag, a: Arc, r1: Diag, r': Diag)
    requires ListSound(t, L, r) && ListSound(t, [a], r1) && forall w :: Has(r', w) <==> Has(r, w) || Has(r1, w)
    ensures ListSound(t, L + [a], r')
  {
    forall u | Has(r', u)
      ensures HitIn(t, L + [a], u)
    {
      if Has(r, u) {
        assert HitIn(t, L, u);
        var p, s :| ListHas(L, p, s) && Maps(t, Cons(p, s), u);
        ListHasConcat(L, [a], p, s);
      } else {
        assert HitIn(t, [a], u);
        var p, s :| ListHas([a], p, s) && Maps(t, Cons(p, s), u);
        ListHasConcat(L, [a], p, s);
      }
    }
  }

  lemma ListCompleteStep(t: Term, L: seq<Arc>, r: Diag, a: Arc, r1: Diag, r': Diag)
    requires ListComplete(t, L, r) && ListComplete(t, [a], r1) && forall w :: Has(r', w) <==> Has(r, w) || Has(r1, w)
    ensures ListComplete(t, L + [a], r')
  {
    forall p, s, u | ListHas(L + [a], p, s) && Maps(t, Cons(p, s), u)
      ensures Has(r', u)
    {
      ListHasConcat(L, [a], p, s);
    }
  }

  lemma ListImageStep(t: Term, L: seq<Arc>, r: Diag, a: Arc, r1: Diag, r': Diag, partial: bool, partial1: bool)
    requires ListImage(t, L, r, partial) && ListImage(t, [a], r1, partial1)
    requires forall w :: Has(r', w) <==> Has(r, w) || Has(r1, w)
    ensures ListImage(t, L + [a], r', partial || partial1)
  {
    ListSoundStep(t, L, r, a, r1, r');
    if !partial && !partial1 {
      ListCompleteStep(t, L, r, a, r1, r');
    }
  }

  /** Lists with the same words have the same images. */
  lemma ListImageSame(t: Term, L: seq<Arc>, L': seq<Arc>, r: Diag, partial: bool)
    requires ListImage(t, L, r, partial) && forall p, s :: ListHas(L, p, s) <==> ListHas(L', p, s)
    ensures ListImage(t, L', r, partial)
  {
    forall u | Has(r, u)
      ensures HitIn(t, L', u)
    {
      assert HitIn(t, L, u);
      var p, s :| ListHas(L, p, s) && Maps(t, Cons(p, s), u);
      assert ListHas(L', p, s);
    }
  }

  lemma ListImageDenotes(t: Term, d: Diag, A: seq<Arc>, r: Diag, partial: bool)
    requires t.Event? && Lists(d, A) && ListImage(t, A, r, partial)
    ensures Image(t, d, r, partial)
  {
    forall u | Has(r, u)
      ensures Hit(t, d, u)
    {
      assert HitIn(t, A, u);
      var p, s :| ListHas(A, p, s) && Maps(t, Cons(p, s), u);
      assert Has(d, Cons(p, s));
    }
    if !partial {
      forall w, u | Has(d, w) && Maps(t, w, u)
        ensures Has(r, u)
      {
        assert w == Cons(w.head, w.tail) && ListHas(A, w.head, w.tail);
      }
    }
  }

  function RectangleDiag(a: Arc): Diag {
    if a.prime == Nothing || a.sub == Nothing then Nothing else Node({a})
  }

  lemma RectangleDenotes(sh: Shape, a: Arc)
    requires sh.Pair? && NF(sh.head, a.prime) && NF(sh.tail, a.sub)
    ensures NF(sh, RectangleDiag(a)) && Lists(RectangleDiag(a), [a])
  {
    forall w
      ensures Has(RectangleDiag(a), w) <==> w.Cons? && ListHas([a], w.head, w.tail)
    {
      if w.Cons? {
        ListHasAppend([], a, w.head, w.tail);
        assert [] + [a] == [a];
        if RectangleDiag(a) != Nothing {
          assert a in RectangleDiag(a).arcs;
        }
      }
    }
  }

  /** The words of a rectangle: determined for the event, and `e` has the value `m` there. */
  ghost predicate ClassOfEvent(t: Term, a: Arc, e: IExpr, m: IExpr, U: set<Tree>)
    requires t.Event?
  {
    forall p, s :: ArcHas(a, p, s) ==>
      && Cons(p, s) in U && Determined(t.b, t.assigns, Frontier(Cons(p, s)))
      && Stands(e, m, Frontier(Cons(p, s)))
  }

  ghost function RectangleWords(a: Arc, U: set<Tree>): set<Tree> {
    set w | w in U && w.Cons? && ArcHas(a, w.head, w.tail)
  }

  /** What splitting by `e` asks of an event and an expression of it. */
  ghost predicate Currying(sh: Shape, t: Term, e: IExpr) {
    && sh.Pair? && t.Event? && Sorted(sh, t) && !e.Array? && !e.Undef? && Size(e) > 0
    && OccursInEvent(t.b, t.assigns, e)
  }

  /** On the words of the class, residual and event agree. */
  lemma ClassAgrees(sh: Shape, t: Term, a: Arc, e: IExpr, m: IExpr, U: set<Tree>, p: Tree, s: Tree, u: Tree)
    requires Currying(sh, t, e) && (m.Const? || m.Undef?) && ClassOfEvent(t, a, e, m, U) && ArcHas(a, p, s)
    ensures var b', ups' := SubstBool(t.b, e, m), CurryAll(t.assigns, e, m);
            && Determined(b', ups', Frontier(Cons(p, s)))
            && (Maps(Event(b', ups'), Cons(p, s), u) <==> Maps(t, Cons(p, s), u))
  {
    MarkerValue(m, Frontier(Cons(p, s)));
    CurryMaps(t.b, t.assigns, e, m, Cons(p, s), u);
  }

  lemma ClassHopeless(sh: Shape, t: Term, a: Arc, e: IExpr, m: IExpr, U: set<Tree>)
    requires Currying(sh, t, e) && (m.Const? || m.Undef?) && ClassOfEvent(t, a, e, m, U)
    requires Hopeless(SubstBool(t.b, e, m), CurryAll(t.assigns, e, m))
    ensures ListImage(t, [a], Nothing, false)
  {
    var b', ups' := SubstBool(t.b, e, m), CurryAll(t.assigns, e, m);
    forall p, s, u | ListHas([a], p, s)
      ensures !Maps(t, Cons(p, s), u)
    {
      ListHasAppend([], a, p, s);
      assert [] + [a] == [a];
      ClassAgrees(sh, t, a, e, m, U, p, s, u);
      HopelessMaps(b', ups', Cons(p, s), u);
    }
  }

  /** The residual is determined on the class, so the built term does there what the event does. */
  lemma ClassResidual(sh: Shape, t: Term, a: Arc, e: IExpr, m: IExpr, U: set<Tree>)
    requires Currying(sh, t, e) && (m.Const? || m.Undef?) && ClassOfEvent(t, a, e, m, U)
    requires NF(sh.head, a.prime) && NF(sh.tail, a.sub)
    ensures var b', ups' := SubstBool(t.b, e, m), CurryAll(t.assigns, e, m);
            && EventFits(sh, b', ups') && DeterminedOn(sh, b', ups', RectangleWords(a, U))
            && EventWeight(b', ups') < Weight(t)
  {
    var b', ups' := SubstBool(t.b, e, m), CurryAll(t.assigns, e, m);
    MarkerValue(m, []);
    CurryFits(sh, t.b, t.assigns, e, m);
    CurryShrinks(t.b, t.assigns, e, m);
    forall w | w in RectangleWords(a, U)
      ensures Laid(sh, w) && Determined(b', ups', Frontier(w))
    {
      assert w == Cons(w.head, w.tail);
      ArcLaid(sh, a, w.head, w.tail);
      ClassAgrees(sh, t, a, e, m, U, w.head, w.tail, w);
    }
  }

  lemma ClassImage(sh: Shape, t: Term, a: Arc, e: IExpr, m: IExpr, U: set<Tree>, residual: Term, d: Diag, r: Diag, partial: bool)
    requires Currying(sh, t, e) && (m.Const? || m.Undef?) && ClassOfEvent(t, a, e, m, U)
    requires NF(sh.head, a.prime) && NF(sh.tail, a.sub) && Lists(d, [a]) && Image(residual, d, r, partial)
    requires Does(sh, SubstBool(t.b, e, m), CurryAll(t.assigns, e, m), residual)
    ensures ListImage(t, [a], r, partial)
  {
    hide NF, SubstBool, CurryAll, ClassOfEvent, Sorted, Inflationary, Determined, Frontier, TruthOf, Assigns;
    forall p, s, u | ListHas([a], p, s)
      ensures Has(d, Cons(p, s)) && (Maps(residual, Cons(p, s), u) <==> Maps(t, Cons(p, s), u))
    {
      ListHasAppend([], a, p, s);
      assert [] + [a] == [a];
      ArcLaid(sh, a, p, s);
      ClassAgrees(sh, t, a, e, m, U, p, s, u);
    }
    forall u | Has(r, u)
      ensures HitIn(t, [a], u)
    {
      assert Hit(residual, d, u);
      var w :| Has(d, w) && Maps(residual, w, u);
      assert w == Cons(w.head, w.tail) && ListHas([a], w.head, w.tail);
    }
  }

  /** One class: substitute its marker, build the residual, apply it to the class's rectangle. */
  method ApplyClass(sh: Shape, t: Term, a: Arc, e: IExpr, m: IExpr, mayStop: bool, ghost U: set<Tree>) returns (o: Outcome)
    requires Currying(sh, t, e) && (m.Const? || m.Undef?) && ClassOfEvent(t, a, e, m, U)
    requires NF(sh.head, a.prime) && NF(sh.tail, a.sub)
    ensures o.Done? ==> NF(sh, o.d) && ListImage(t, [a], o.d, o.partial)
    ensures Answered(t, mayStop, o)
    decreases Weight(t), sh, Rank(t), 0
  {
    var b', ups' := SubstBool(t.b, e, m), CurryAll(t.assigns, e, m);
    if Hopeless(b', ups') {
      ClassHopeless(sh, t, a, e, m, U);
      return Done(Nothing, false);
    }
    ghost var W := RectangleWords(a, U);
    ClassResidual(sh, t, a, e, m, U);
    MakeEventFine(sh, b', ups');
    MakeEventDoes(sh, b', ups');
    MakeEventBounded(sh, b', ups', W);
    MakeEventClosureFree(sh, b', ups');
    RectangleDenotes(sh, a);
    RectangleInside(t, a, e, m, U);
    o := Apply(sh, MakeEvent(sh, b', ups'), RectangleDiag(a), mayStop, W);
    if o.Done? {
      ClassImage(sh, t, a, e, m, U, MakeEvent(sh, b', ups'), RectangleDiag(a), o.d, o.partial);
    }
  }

  lemma RectangleInside(t: Term, a: Arc, e: IExpr, m: IExpr, U: set<Tree>)
    requires t.Event? && ClassOfEvent(t, a, e, m, U) && Lists(RectangleDiag(a), [a])
    ensures Inside(RectangleDiag(a), RectangleWords(a, U))
  {
    forall w | Has(RectangleDiag(a), w)
      ensures w in RectangleWords(a, U)
    {
      assert ListHas([a], w.head, w.tail);
      ListHasAppend([], a, w.head, w.tail);
      assert [] + [a] == [a] && w == Cons(w.head, w.tail);
    }
  }

  /** The rectangles of the classes done so far. */
  ghost predicate ClassesDone(pieces: map<IExpr, Diag>, done: set<IExpr>, a: Arc, inHead: bool, L: seq<Arc>) {
    && done <= pieces.Keys
    && forall p, s {:trigger ListHas(L, p, s)} :: ListHas(L, p, s) <==> InClass(pieces, done, a, inHead, p, s)
  }

  ghost predicate InClass(pieces: map<IExpr, Diag>, done: set<IExpr>, a: Arc, inHead: bool, p: Tree, s: Tree) {
    exists m :: m in done && m in pieces && ArcHas(Rectangle(a, pieces[m], inHead), p, s)
  }

  lemma ClassesNone(pieces: map<IExpr, Diag>, a: Arc, inHead: bool)
    ensures ClassesDone(pieces, {}, a, inHead, [])
  {
  }

  lemma ClassesMore(pieces: map<IExpr, Diag>, done: set<IExpr>, a: Arc, inHead: bool, L: seq<Arc>, m: IExpr)
    requires ClassesDone(pieces, done, a, inHead, L) && m in pieces
    ensures ClassesDone(pieces, done + {m}, a, inHead, L + [Rectangle(a, pieces[m], inHead)])
  {
    var rect := Rectangle(a, pieces[m], inHead);
    forall p, s
      ensures ListHas(L + [rect], p, s) <==> InClass(pieces, done + {m}, a, inHead, p, s)
    {
      ListHasAppend(L, rect, p, s);
      assert ListHas(L, p, s) <==> InClass(pieces, done, a, inHead, p, s);
      if InClass(pieces, done, a, inHead, p, s) {
        var k :| k in done && k in pieces && ArcHas(Rectangle(a, pieces[k], inHead), p, s);
        assert k in done + {m};
      }
      if ArcHas(rect, p, s) {
        assert m in done + {m};
      }
    }
  }

  /** All classes together are the arc. */
  lemma ClassesAll(sh: Shape, pieces: map<IExpr, Diag>, a: Arc, inHead: bool, L: seq<Arc>, key: KeyOf<IExpr>)
    requires sh.Pair? && Splits(if inHead then sh.head else sh.tail, if inHead then a.prime else a.sub, pieces, key)
    requires ClassesDone(pieces, pieces.Keys, a, inHead, L)
    ensures forall p, s :: ListHas(L, p, s) <==> ListHas([a], p, s)
  {
    forall p, s
      ensures ListHas(L, p, s) <==> ListHas([a], p, s)
    {
      ListHasAppend([], a, p, s);
      assert [] + [a] == [a];
      if ArcHas(a, p, s) {
        assert InSome(pieces, if inHead then p else s);
        var m :| m in pieces && Has(pieces[m], if inHead then p else s);
        assert m in pieces.Keys && ArcHas(Rectangle(a, pieces[m], inHead), p, s);
      }
      if InClass(pieces, pieces.Keys, a, inHead, p, s) {
        var m :| m in pieces.Keys && m in pieces && ArcHas(Rectangle(a, pieces[m], inHead), p, s);
        RectangleInArc(sh, a, pieces, key, inHead, m, p, s);
      }
    }
  }

  /** A class of the arc is a class of the event. */
  lemma PieceIsClass(sh: Shape, t: Term, a: Arc, e: IExpr, side: IExpr, inHead: bool, pieces: map<IExpr, Diag>, m: IExpr,
                     U: set<Tree>)
    requires Currying(sh, t, e) && NF(sh.head, a.prime) && NF(sh.tail, a.sub)
    requires Splits(if inHead then sh.head else sh.tail, if inHead then a.prime else a.sub, pieces, Marks(side)) && m in pieces
    requires Lifts(a, inHead, Marks(side), Marks(e)) && ArcDetermined(t, a, U)
    ensures var rect := Rectangle(a, pieces[m], inHead);
            && (m.Const? || m.Undef?) && ClassOfEvent(t, rect, e, m, U)
            && NF(sh.head, rect.prime) && NF(sh.tail, rect.sub)
  {
    var rect := Rectangle(a, pieces[m], inHead);
    var w := Inhabited(if inHead then sh.head else sh.tail, pieces[m]);
    assert Marks(side)(m, w);
    forall p, s | ArcHas(rect, p, s)
      ensures Cons(p, s) in U && Determined(t.b, t.assigns, Frontier(Cons(p, s)))
      ensures Stands(e, m, Frontier(Cons(p, s)))
    {
      RectangleInArc(sh, a, pieces, Marks(side), inHead, m, p, s);
      assert Marks(e)(m, Cons(p, s));
    }
  }

  /** The event is determined at the words of an arc. */
  ghost predicate ArcDetermined(t: Term, a: Arc, U: set<Tree>)
    requires t.Event?
  {
    forall p, s :: ArcHas(a, p, s) ==> Cons(p, s) in U && Determined(t.b, t.assigns, Frontier(Cons(p, s)))
  }

  /** Apply the event to one arc, class by class. */
  method ApplyClasses(sh: Shape, t: Term, a: Arc, e: IExpr, side: IExpr, inHead: bool, pieces: map<IExpr, Diag>,
                      mayStop: bool, ghost U: set<Tree>)
    returns (o: Outcome)
    requires Currying(sh, t, e) && NF(sh.head, a.prime) && NF(sh.tail, a.sub) && ArcDetermined(t, a, U)
    requires Splits(if inHead then sh.head else sh.tail, if inHead then a.prime else a.sub, pieces, Marks(side))
    requires Lifts(a, inHead, Marks(side), Marks(e))
    ensures o.Done? ==> NF(sh, o.d) && ListImage(t, [a], o.d, o.partial)
    ensures Answered(t, mayStop, o)
    decreases Weight(t), sh, Rank(t), 1
  {
    hide ClassesDone, ListImage, Has, Lifts, Fit, Whole, Separate, ArcDetermined, Sorted, Inflationary;
    var out, partial := Nothing, false;
    ghost var L: seq<Arc> := [];
    ghost var done: set<IExpr> := {};
    var rest := pieces.Keys;
    ListImageStart(t);
    ClassesNone(pieces, a, inHead);
    while rest != {}
      invariant rest + done == pieces.Keys && NF(sh, out)
      invariant ClassesDone(pieces, done, a, inHead, L) && ListImage(t, L, out, partial) && !partial
      decreases |rest|
    {
      var m :| m in rest;
      PieceIsClass(sh, t, a, e, side, inHead, pieces, m, U);
      var r := ApplyClass(sh, t, Rectangle(a, pieces[m], inHead), e, m, mayStop, U);
      if r.Interrupted? {
        return Interrupted;
      }
      ghost var was := out;
      out := Join(sh, out, r.d);
      ListImageStep(t, L, was, Rectangle(a, pieces[m], inHead), r.d, out, partial, r.partial);
      ClassesMore(pieces, done, a, inHead, L, m);
      partial, L := partial || r.partial, L + [Rectangle(a, pieces[m], inHead)];
      rest, done := rest - {m}, done + {m};
    }
    assert done == pieces.Keys;
    ClassesAll(sh, pieces, a, inHead, L, Marks(side));
    ListImageSame(t, L, [a], out, partial);
    o := Done(out, partial);
  }

  /** What the splitter of a side is: the expression, re-rooted in the tail. */
  lemma SideOf(sh: Shape, t: Term, e: IExpr, inHead: bool, lo: int, hi: int)
    requires sh.Pair? && t.Event? && Sorted(sh, t) && Splitter(Width(sh), lo, hi, t.b, t.assigns, e)
    requires if inHead then lo == 0 && hi == Width(sh.head) else lo == Width(sh.head) && hi == Width(sh)
    ensures Currying(sh, t, e)
    ensures var side := if inHead then e else Shift(e, 0 - Width(sh.head));
            && Splittable(if inHead then sh.head else sh.tail, side)
            && forall a: Arc :: NF(sh.head, a.prime) && NF(sh.tail, a.sub) ==> Lifts(a, inHead, Marks(side), Marks(e))
  {
    hide NF, Has, Value, Shift;
    var wh: int := Width(sh.head);
    AllowArrays(e, lo, hi);
    SpansReads(e, lo, hi, false);
    Widen(e, lo, hi, Width(sh));
    if !inHead {
      ShiftSpans(e, -wh, wh, Width(sh), false);
    }
    forall a: Arc | NF(sh.head, a.prime) && NF(sh.tail, a.sub)
      ensures Lifts(a, inHead, Marks(if inHead then e else Shift(e, 0 - wh)), Marks(e))
    {
      MarksLift(sh, a, e);
    }
  }

  lemma Widen(e: IExpr, lo: int, hi: int, n: int)
    requires Spans(e, lo, hi, true) && 0 <= lo && hi <= n
    ensures Spans(e, 0, n, true)
  {
    SpansReads(e, lo, hi, true);
    Narrow(e, lo, hi, 0, n, true);
  }

  /** Curry: split the side that holds the least read, and hand each class its residual. */
  method ApplyCurried(sh: Shape, t: Term, d: Diag, r: int, mayStop: bool, ghost U: set<Tree>) returns (o: Outcome)
    requires sh.Pair? && t.Event? && Sorted(sh, t) && NF(sh, d) && Inside(d, U) && Bounded(t, U)
    requires r in EventReads(t.b, t.assigns) && 0 <= r < Width(sh)
    ensures o.Done? ==> NF(sh, o.d) && Image(t, d, o.d, o.partial)
    ensures Answered(t, mayStop, o)
    decreases Weight(t), sh, Rank(t), 3
  {
    hide NF, Has, Bounded, ListImage, Image, Lifts, Marks, Spans;
    var wh := Width(sh.head);
    var inHead := r < wh;
    var lo, hi := if inHead then 0 else wh, if inHead then wh else Width(sh);
    var e := ChooseAssert(t.b, t.assigns, lo, hi, r);
    ChosenSplits(sh, t.b, t.assigns, lo, hi, r);
    SideOf(sh, t, e, inHead, lo, hi);
    var side := if inHead then e else Shift(e, 0 - (wh as int));
    var A := Arcs(sh.head, sh.tail, d);
    o := ApplyArcs(sh, t, A, e, side, inHead, mayStop, d, U);
    if o.Done? {
      ListImageDenotes(t, d, A, o.d, o.partial);
    }
  }

  method ApplyArcs(sh: Shape, t: Term, A: seq<Arc>, e: IExpr, side: IExpr, inHead: bool, mayStop: bool, ghost d: Diag, ghost U: set<Tree>)
    returns (o: Outcome)
    requires Currying(sh, t, e) && Tidy(sh.head, sh.tail, A) && Lists(d, A) && Inside(d, U) && Bounded(t, U)
    requires Splittable(if inHead then sh.head else sh.tail, side)
    requires forall a: Arc :: NF(sh.head, a.prime) && NF(sh.tail, a.sub) ==> Lifts(a, inHead, Marks(side), Marks(e))
    ensures o.Done? ==> NF(sh, o.d) && ListImage(t, A, o.d, o.partial)
    ensures Answered(t, mayStop, o)
    decreases Weight(t), sh, Rank(t), 2
  {
    hide Has, Image, Marks, Lifts, Determined;
    var out, partial := Nothing, false;
    ListImageStart(t);
    for i: nat := 0 to |A|
      invariant NF(sh, out) && ListImage(t, A[..i], out, partial) && !partial
    {
      ArcIsDetermined(t, d, A, i, U);
      var pieces := SplitEquiv(if inHead then sh.head else sh.tail, if inHead then A[i].prime else A[i].sub, side);
      var r := ApplyClasses(sh, t, A[i], e, side, inHead, pieces, mayStop, U);
      if r.Interrupted? {
        return Interrupted;
      }
      ghost var was := out;
      out := Join(sh, out, r.d);
      ListImageStep(t, A[..i], was, A[i], r.d, out, partial, r.partial);
      assert A[..i + 1] == A[..i] + [A[i]];
      partial := partial || r.partial;
    }
    assert A[..|A|] == A;
    o := Done(out, partial);
  }

  lemma ArcIsDetermined(t: Term, d: Diag, A: seq<Arc>, i: nat, U: set<Tree>)
    requires t.Event? && Lists(d, A) && Inside(d, U) && Bounded(t, U) && i < |A|
    ensures ArcDetermined(t, A[i], U)
  {
    forall p, s | ArcHas(A[i], p, s)
      ensures Cons(p, s) in U
    {
      assert ListHas(A, p, s);
      assert Has(d, Cons(p, s));
    }
  }

  /** Nothing is read: apply each side's writes of constants. */
  method ApplyGround(sh: Shape, t: Term, d: Diag, mayStop: bool, ghost U: set<Tree>) returns (o: Outcome)
    requires sh.Pair? && t.Event? && Sorted(sh, t) && NF(sh, d) && d != Nothing && Inside(d, U) && Bounded(t, U)
    requires EventReads(t.b, t.assigns) == {}
    ensures o.Done? ==> NF(sh, o.d) && Image(t, d, o.d, o.partial)
    ensures Answered(t, mayStop, o)
    decreases Weight(t), sh, Rank(t), 2
  {
    ghost var W := set w | w in U && Has(d, w);
    GroundEvent(sh, t.b, t.assigns);
    GroundOnce(sh, t, d, U);
    GroundPairFine(sh, t.assigns, W);
    GroundPairClosureFree(sh, t.assigns);
    o := ApplyAll(sh, GroundPair(sh, t.assigns), d, mayStop, W);
    if o.Done? {
      forall w, u | Has(d, w)
        ensures Maps(GroundPair(sh, t.assigns), w, u) <==> Maps(t, w, u)
      {
        HasLaid(sh, d, w);
        GroundPairMaps(sh, t.assigns, w, u);
      }
      ImageAgrees(GroundPair(sh, t.assigns), t, d, o.d, o.partial);
    }
  }

  lemma GroundOnce(sh: Shape, t: Term, d: Diag, U: set<Tree>)
    requires sh.Pair? && t.Event? && Sorted(sh, t) && NF(sh, d) && d != Nothing && Inside(d, U) && Bounded(t, U)
    requires t.b == BTrue && Constants(t.assigns, Width(sh))
    ensures GroundSide(sh, t.assigns, set w | w in U && Has(d, w))
  {
    var w := Inhabited(sh, d);
    HasLaid(sh, d, w);
    FrontierWidth(sh, w);
    ConstantsDetermined(t.assigns, Frontier(w));
    forall x | x in U && Has(d, x)
      ensures Laid(sh, x)
    {
      HasLaid(sh, d, x);
    }
  }

  lemma ImageAgrees(t: Term, t': Term, d: Diag, r: Diag, partial: bool)
    requires Image(t, d, r, partial) && t'.Event?
    requires forall w, u :: Has(d, w) ==> (Maps(t, w, u) <==> Maps(t', w, u))
    ensures Image(t', d, r, partial)
  {
    forall u | Has(r, u)
      ensures Hit(t', d, u)
    {
      assert Hit(t, d, u);
      var w :| Has(d, w) && Maps(t, w, u);
    }
  }

  /** The case engine: the simultaneous-update images of the words whose guard is true. */
  method ApplyEvent(sh: Shape, t: Term, d: Diag, mayStop: bool, ghost U: set<Tree>) returns (o: Outcome)
    requires sh.Pair? && t.Event? && Sorted(sh, t) && NF(sh, d) && d != Nothing && Inside(d, U) && Bounded(t, U)
    ensures o.Done? ==> NF(sh, o.d) && Image(t, d, o.d, o.partial)
    ensures Answered(t, mayStop, o)
    decreases Weight(t), sh, Rank(t), 4
  {
    var read := EventReads(t.b, t.assigns);
    if read != {} {
      var r := MinOf(read);
      ReadsInRange(sh, t.b, t.assigns, r);
      o := ApplyCurried(sh, t, d, r, mayStop, U);
    } else {
      o := ApplyGround(sh, t, d, mayStop, U);
    }
  }

  // ----- Any term -----

  /** Apply a term: the exact image, or a part of it when a closure was stopped. */
  method Apply(sh: Shape, t: Term, d: Diag, mayStop: bool, ghost U: set<Tree>) returns (o: Outcome)
    requires Sorted(sh, t) && NF(sh, d) && Inside(d, U) && Bounded(t, U)
    ensures o.Done? ==> NF(sh, o.d) && Image(t, d, o.d, o.partial)
    ensures Answered(t, mayStop, o)
    decreases Weight(t), sh, Rank(t), 5
  {
    if t.Id? {
      return Done(d, false);
    }
    if d == Nothing {
      return Done(Nothing, false);
    }
    var poll: bool := *;
    if mayStop && poll {
      return Interrupted;
    }
    match t {
      case Act(_, _) =>
        var r := ApplyAct(t, d);
        o := Done(r, false);
      case Sum(_) =>
        o := ApplySum(sh, t, d, mayStop, U);
      case Lfp(_) =>
        o := ApplyLfp(sh, t, d, mayStop, U);
      case Compose(_, _) =>
        o := ApplyCompose(sh, t, d, mayStop, U);
      case Within(kept) =>
        var r := Meet(sh, d, kept);
        o := Done(r, false);
      case Saturate(_, _, _) =>
        o := ApplySaturate(sh, t, d, mayStop, U);
      case OnPair(h, _) =>
        if Injective(h) {
          o := ApplyApart(sh, t, d, mayStop, U);
        } else {
          o := ApplyAll(sh, t, d, mayStop, U);
        }
      case Event(_, _) =>
        o := ApplyEvent(sh, t, d, mayStop, U);
    }
  }

  // ----- Firing a guarded assignment -----

  /** The guard is true at `w`, and `u` is its simultaneous update. */
  ghost predicate FiresTo(b: BExpr, ups: seq<Assignment>, w: Tree, u: Tree) {
    Alike(w, u) && TruthOf(b, Frontier(w)) == Yes && Assigns(ups, Frontier(w), Frontier(u))
  }

  ghost predicate Fired(b: BExpr, ups: seq<Assignment>, d: Diag, u: Tree) {
    exists w :: Has(d, w) && FiresTo(b, ups, w, u)
  }

  /** Build the event and apply it: exactly the updates of the words whose guard is true. */
  method Fire(sh: Shape, b: BExpr, ups: seq<Assignment>, d: Diag, mayStop: bool, ghost U: set<Tree>) returns (o: Outcome)
    requires EventFits(sh, b, ups) && NF(sh, d) && Inside(d, U) && DeterminedOn(sh, b, ups, U)
    ensures !mayStop ==> o.Done?
    ensures o.Done? ==> !o.partial && NF(sh, o.d) && forall u :: Has(o.d, u) <==> Fired(b, ups, d, u)
  {
    var t := MakeEvent(sh, b, ups);
    MakeEventFine(sh, b, ups);
    MakeEventBounded(sh, b, ups, U);
    MakeEventDoes(sh, b, ups);
    MakeEventClosureFree(sh, b, ups);
    o := Apply(sh, t, d, mayStop, U);
    if o.Done? {
      FiresOn(sh, b, ups, t, d, U);
      FiredImage(b, ups, t, d, o.d);
    }
  }

  lemma FiresAsTerm(sh: Shape, b: BExpr, ups: seq<Assignment>, t: Term, U: set<Tree>, w: Tree, u: Tree)
    requires Does(sh, b, ups, t) && DeterminedOn(sh, b, ups, U) && w in U
    ensures Maps(t, w, u) <==> FiresTo(b, ups, w, u)
  {
    EventMaps(b, ups, w, u);
  }

  lemma FiresOn(sh: Shape, b: BExpr, ups: seq<Assignment>, t: Term, d: Diag, U: set<Tree>)
    requires Does(sh, b, ups, t) && Inside(d, U) && DeterminedOn(sh, b, ups, U)
    ensures forall w, u :: Has(d, w) ==> (Maps(t, w, u) <==> FiresTo(b, ups, w, u))
  {
    forall w, u | Has(d, w)
      ensures Maps(t, w, u) <==> FiresTo(b, ups, w, u)
    {
      FiresAsTerm(sh, b, ups, t, U, w, u);
    }
  }

  lemma FiredImage(b: BExpr, ups: seq<Assignment>, t: Term, d: Diag, r: Diag)
    requires Image(t, d, r, false) && forall w, u :: Has(d, w) ==> (Maps(t, w, u) <==> FiresTo(b, ups, w, u))
    ensures forall u :: Has(r, u) <==> Fired(b, ups, d, u)
  {
    forall u | Has(r, u)
      ensures Fired(b, ups, d, u)
    {
      assert Hit(t, d, u);
      var w :| Has(d, w) && Maps(t, w, u);
      assert FiresTo(b, ups, w, u);
    }
  }

  // ----- What firing needs -----

  /** The access of `cells` at `index` is in bounds. */
  ghost predicate InBounds(cells: seq<int>, index: IExpr, env: seq<int>) {
    var i := Value(index, env);
    i.Some? && 0 <= i.value < |cells|
  }

  /** At this word the built term does what the event says. */
  ghost predicate DoesAt(b: BExpr, ups: seq<Assignment>, t: Term, w: Tree) {
    forall u :: Maps(t, w, u) <==> FiresTo(b, ups, w, u)
  }

  /**
   An array element written to itself is dropped before its index is known: the identity at every word,
   which is what the event says exactly where the index is in bounds.
   */
  lemma SelfWriteOutOfBounds(sh: Shape, cells: seq<int>, index: IExpr, w: Tree)
    requires forall i :: 0 <= i < |cells| ==> 0 <= cells[i] < |Frontier(w)|
    ensures var a := Assignment(Array(cells, index), Array(cells, index));
            && MakeEvent(sh, BTrue, [a]) == Id
            && (DoesAt(BTrue, [a], Id, w) <==> InBounds(cells, index, Frontier(w)))
            && (Determined(BTrue, [a], Frontier(w)) <==> InBounds(cells, index, Frontier(w)))
  {
    var a, env := Assignment(Array(cells, index), Array(cells, index)), Frontier(w);
    assert [a][..0] == [] && Kept([a][..0]) == [];
    assert [a][0] == a;
    assert Kept([a]) == [];
    assert Ready(a, env) <==> InBounds(cells, index, env);
    if Ready(a, env) {
      SelfWriteInBounds(a, w);
    } else {
      SelfWriteLost(a, w);
    }
  }

  lemma SelfWriteInBounds(a: Assignment, w: Tree)
    requires a.lhs == a.rhs && !a.lhs.Undef? && Ready(a, Frontier(w)) && Kept([a]) == []
    ensures Determined(BTrue, [a], Frontier(w)) && DoesAt(BTrue, [a], Id, w)
  {
    forall u
      ensures Maps(Id, w, u) <==> FiresTo(BTrue, [a], w, u)
    {
      KeptAssigns(BTrue, [a], Frontier(w), Frontier(u));
      IdleMaps(w, u);
      EventMaps(BTrue, [], w, u);
    }
  }

  lemma SelfWriteLost(a: Assignment, w: Tree)
    requires a.lhs == a.rhs && a.lhs.Array? && !Ready(a, Frontier(w))
    ensures !Determined(BTrue, [a], Frontier(w)) && !DoesAt(BTrue, [a], Id, w)
  {
    assert [a][0] == a;
    SomeRefused([a], Frontier(w), Frontier(w), 0);
    assert Maps(Id, w, w) && !FiresTo(BTrue, [a], w, w);
  }

  /** The leaf evaluator is right on every expression whose accesses are loose: none of them reaches a leaf. */
  lemma LooseEvaluates(e: IExpr, v: int)
    requires Spans(e, 0, 1, true) && Normal(e)
    ensures EvalInt(e, [v]) == Value(e, [v])
  {
    LeafPlain(e);
    StripPlain(e, 0, 1);
  }

  /**
   An access whose cells and index are all the leaf's own position stays unresolved there: the term has no
   image, which is what the event says exactly where the index is out of bounds or undefined.
   */
  lemma OneCellArray(cells: seq<int>, index: IExpr, v: int)
    requires forall i :: 0 <= i < |cells| ==> cells[i] == 0
    ensures var a := Assignment(Var(0), Array(cells, index));
            var t := MakeEvent(Leaf, BTrue, [a]);
            && (forall u :: !Maps(t, Int(v), u))
            && (DoesAt(BTrue, [a], t, Int(v)) <==> !InBounds(cells, index, [v]))
            && (EvalInt(a.rhs, [v]) == Value(a.rhs, [v]) <==> !InBounds(cells, index, [v]))
  {
    var a := Assignment(Var(0), Array(cells, index));
    var t := MakeEvent(Leaf, BTrue, [a]);
    LeafAccessTerm(a);
    hide MakeEvent;
    assert Frontier(Int(v)) == [v];
    assert EvalInt(a.rhs, [v]) == None;
    forall u
      ensures FiresTo(BTrue, [a], Int(v), u) <==> u.Int? && Value(a.rhs, [v]) == Some(u.v)
    {
      OneWrite(a, v, u);
    }
    if InBounds(cells, index, [v]) {
      assert FiresTo(BTrue, [a], Int(v), Int(v)) && !Maps(t, Int(v), Int(v));
    }
  }

  lemma LeafAccessTerm(a: Assignment)
    requires a.lhs == Var(0) && a.rhs.Array?
    ensures MakeEvent(Leaf, BTrue, [a]) == Act(Always, Transform(a.rhs, 0))
  {
    assert [a][..0] == [] && Kept([a][..0]) == [] && [a][0] == a;
    assert Kept([a]) == [a];
  }

  /** The self access of one cell at its own value: `x := a[x]`, in bounds at 0, loses its image. */
  lemma OneCellLosesImage()
    ensures var a := Assignment(Var(0), Array([0], Var(0)));
            FiresTo(BTrue, [a], Int(0), Int(0)) && !Maps(MakeEvent(Leaf, BTrue, [a]), Int(0), Int(0))
  {
    var a := Assignment(Var(0), Array([0], Var(0)));
    OneCellArray([0], Var(0), 0);
    OneWrite(a, 0, Int(0));
    assert Frontier(Int(0)) == [0];
  }
}
