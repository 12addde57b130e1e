/**
 The saturation rewrite: a list of events becomes a hierarchical schedule with the
 same closure (src/operation.cc).
 */
module Saturation {
  import opened Finite
  import opened Diagrams
  import opened Closures
  import opened Terms
  import opened Sorts
  import opened Application

  // ----- Term constructors -----

  /** Each term once, in the order of first occurrence. */
  function Once(ts: seq<Term>): (r: seq<Term>)
    ensures forall t :: t in r <==> t in ts
    decreases |ts|
  {
    if ts == [] then []
    else
      var before, t := Once(ts[..|ts| - 1]), ts[|ts| - 1];
      assert ts == ts[..|ts| - 1] + [t];
      if t in before then before else before + [t]
  }

  /** The sum at a composite sort; a sum of nothing is the identity. */
  function SumOf(ts: seq<Term>): Term {
    var once := Once(ts);
    if once == [] then Id else if |once| == 1 then once[0] else Sum(once)
  }

  function LfpOf(t: Term): Term {
    if t.Id? then Id else Lfp(t)
  }

  function ComposeOf(after: Term, before: Term): Term {
    if after.Id? then before else if before.Id? then after else Compose(after, before)
  }

  /** The sum of two leaf terms. */
  function LeafSum(a: Term, b: Term): Term {
    if a == b then a else Sum([a, b])
  }

  /** The closure of a leaf term; that of a guard, which maps values to themselves, is the identity. */
  function LeafLfp(t: Term): Term {
    if t.Id? then Id
    else if t.Lfp? then t
    else if t.Act? && t.action.Keep? then Id
    else Lfp(t)
  }

  /** The leaf's own sum of a list of terms. */
  function Fused(ts: seq<Term>): Term
    requires ts != []
    decreases |ts|
  {
    if |ts| == 1 then ts[0] else LeafSum(Fused(ts[..|ts| - 1]), ts[|ts| - 1])
  }

  // ----- Splitting events -----

  /** A folded sum stands for its summands. */
  function Flatten(e: Term): seq<Term>
    decreases e
  {
    if e.Sum? then FlattenAll(e.parts) else [e]
  }

  function FlattenAll(es: seq<Term>): seq<Term>
    decreases es
  {
    if es == [] then [] else Flatten(es[0]) + FlattenAll(es[1..])
  }

  predicate InTail(e: Term) {
    e.OnPair? && e.head.Id?
  }

  predicate InHead(e: Term) {
    e.OnPair? && !e.head.Id? && e.tail.Id?
  }

  /** The tail terms of the events that reach the tail only. */
  function Below(flat: seq<Term>): seq<Term>
    decreases |flat|
  {
    if flat == [] then []
    else
      var rest, e := Below(flat[..|flat| - 1]), flat[|flat| - 1];
      if InTail(e) then rest + [e.tail] else rest
  }

  /** The head terms of the events that reach the head only. */
  function Edge(flat: seq<Term>): seq<Term>
    decreases |flat|
  {
    if flat == [] then []
    else
      var rest, e := Edge(flat[..|flat| - 1]), flat[|flat| - 1];
      if InHead(e) then rest + [e.head] else rest
  }

  /** The other events, kept whole; the identity is dropped from a closure. */
  function Across(flat: seq<Term>, keepId: bool): seq<Term>
    decreases |flat|
  {
    if flat == [] then []
    else
      var rest, e := Across(flat[..|flat| - 1], keepId), flat[|flat| - 1];
      if InTail(e) || InHead(e) || (e.Id? && !keepId) then rest else rest + [e]
  }

  /** The source's one pass over the summands. */
  method Split(flat: seq<Term>, keepId: bool) returns (below: seq<Term>, edge: seq<Term>, across: seq<Term>)
    ensures below == Below(flat) && edge == Edge(flat) && across == Across(flat, keepId)
  {
    below, edge, across := [], [], [];
    for i := 0 to |flat|
      invariant below == Below(flat[..i]) && edge == Edge(flat[..i]) && across == Across(flat[..i], keepId)
    {
      assert flat[..i + 1][..i] == flat[..i];
      var e := flat[i];
      if InTail(e) {
        below := below + [e.tail];
      } else if InHead(e) {
        edge := edge + [e.head];
      } else if keepId || !e.Id? {
        across := across + [e];
      }
    }
    assert flat[..|flat|] == flat;
  }

  // ----- The rewrite -----

  function SaturateAt(sh: Shape, events: seq<Term>): Term
    decreases sh
  {
    if events == [] then Id
    else
      match sh
      case Pair(h, t) =>
        var flat := FlattenAll(events);
        var below, edge := Below(flat), Edge(flat);
        var f := if below == [] then Id else PairOf(Id, SaturateAt(t, below));
        var l := if edge == [] then Id else PairOf(SaturateAt(h, edge), Id);
        if f.Id? && l.Id? then LfpOf(SumOf(flat)) else Saturate(f, l, Across(flat, false))
      case _ => LeafLfp(Fused(events))
  }

  /** The same split, producing one folded sum. */
  function SumAt(sh: Shape, events: seq<Term>): Term
    decreases sh
  {
    match sh
    case Pair(h, t) =>
      var flat := FlattenAll(events);
      var below, edge := Below(flat), Edge(flat);
      SumOf(Across(flat, true)
            + (if below == [] then [] else [PairOf(Id, SumAt(t, below))])
            + (if edge == [] then [] else [PairOf(SumAt(h, edge), Id)]))
    case _ => if events == [] then Id else Fused(events)
  }

  // ----- Meaning -----

  ghost function AnyOf(ts: seq<Term>): (Tree, Tree) -> bool {
    (w, u) => MapsAny(ts, w, u)
  }

  lemma MapsAnyMember(ts: seq<Term>, t: Term, w: Tree, u: Tree)
    requires t in ts && Maps(t, w, u)
    ensures MapsAny(ts, w, u)
  {
    var i :| 0 <= i < |ts| && ts[i] == t;
  }

  lemma MapsAnyConcat(a: seq<Term>, b: seq<Term>, w: Tree, u: Tree)
    ensures MapsAny(a + b, w, u) <==> MapsAny(a, w, u) || MapsAny(b, w, u)
  {
    var c := a + b;
    if MapsAny(a, w, u) {
      var i :| 0 <= i < |a| && Maps(a[i], w, u);
      assert c[i] == a[i];
    }
    if MapsAny(b, w, u) {
      var i :| 0 <= i < |b| && Maps(b[i], w, u);
      assert c[|a| + i] == b[i];
    }
    if MapsAny(c, w, u) {
      var i :| 0 <= i < |c| && Maps(c[i], w, u);
      assert c[i] == if i < |a| then a[i] else b[i - |a|];
    }
  }

  lemma MapsAnyOne(t: Term, w: Tree, u: Tree)
    ensures MapsAny([t], w, u) <==> Maps(t, w, u)
  {
    assert [t][0] == t;
  }

  lemma SumMaps(parts: seq<Term>, w: Tree, u: Tree)
    ensures Maps(Sum(parts), w, u) <==> MapsAny(parts, w, u)
  {
  }

  lemma SumOfMaps(ts: seq<Term>, w: Tree, u: Tree)
    requires ts != []
    ensures Maps(SumOf(ts), w, u) <==> MapsAny(ts, w, u)
  {
    hide Maps;
    var once := Once(ts);
    SumMaps(once, w, u);
    assert ts[0] in once;
    if MapsAny(ts, w, u) {
      var i :| 0 <= i < |ts| && Maps(ts[i], w, u);
      MapsAnyMember(once, ts[i], w, u);
    }
    if MapsAny(once, w, u) {
      var i :| 0 <= i < |once| && Maps(once[i], w, u);
      MapsAnyMember(ts, once[i], w, u);
    }
    if |once| == 1 {
      assert once == [once[0]];
      MapsAnyOne(once[0], w, u);
    }
  }

  lemma {:induction false} FusedMaps(ts: seq<Term>, w: Tree, u: Tree)
    requires ts != []
    ensures Maps(Fused(ts), w, u) <==> MapsAny(ts, w, u)
    decreases |ts|
  {
    var n := |ts| - 1;
    assert ts == ts[..n] + [ts[n]];
    MapsAnyConcat(ts[..n], [ts[n]], w, u);
    MapsAnyOne(ts[n], w, u);
    if n > 0 {
      var a, b := Fused(ts[..n]), ts[n];
      FusedMaps(ts[..n], w, u);
      assert [a, b] == [a] + [b];
      MapsAnyConcat([a], [b], w, u);
      MapsAnyOne(a, w, u);
    } else {
      assert ts[..0] == [];
    }
  }

  lemma {:induction false} FlattenMaps(e: Term, w: Tree, u: Tree)
    ensures MapsAny(Flatten(e), w, u) <==> Maps(e, w, u)
    decreases e
  {
    if e.Sum? {
      FlattenAllMaps(e.parts, w, u);
    } else {
      MapsAnyOne(e, w, u);
    }
  }

  lemma {:induction false} FlattenAllMaps(es: seq<Term>, w: Tree, u: Tree)
    ensures MapsAny(FlattenAll(es), w, u) <==> MapsAny(es, w, u)
    decreases es
  {
    if es != [] {
      FlattenMaps(es[0], w, u);
      FlattenAllMaps(es[1..], w, u);
      MapsAnyConcat(Flatten(es[0]), FlattenAll(es[1..]), w, u);
      assert es == [es[0]] + es[1..];
      MapsAnyConcat([es[0]], es[1..], w, u);
      MapsAnyOne(es[0], w, u);
    }
  }

  /** The three lists together do what the summands do. */
  lemma {:induction false} SplitMaps(flat: seq<Term>, keepId: bool, w: Tree, u: Tree)
    ensures MapsAny(flat, w, u) && (keepId || w != u) ==>
              SplitStep(flat, keepId, w, u)
    ensures SplitStep(flat, keepId, w, u) ==> MapsAny(flat, w, u)
    decreases |flat|
  {
    if flat != [] {
      var n := |flat| - 1;
      var e, before := flat[n], flat[..n];
      SplitMaps(before, keepId, w, u);
      assert flat == before + [e];
      MapsAnyConcat(before, [e], w, u);
      MapsAnyOne(e, w, u);
      SplitStepGrows(before, e, keepId, w, u);
    }
  }

  /** A step below the cut, at its edge or across it. */
  ghost predicate SplitStep(flat: seq<Term>, keepId: bool, w: Tree, u: Tree) {
    || (w.Cons? && u.Cons? && w.head == u.head && MapsAny(Below(flat), w.tail, u.tail))
    || (w.Cons? && u.Cons? && w.tail == u.tail && MapsAny(Edge(flat), w.head, u.head))
    || MapsAny(Across(flat, keepId), w, u)
  }

  lemma SplitStepGrows(before: seq<Term>, e: Term, keepId: bool, w: Tree, u: Tree)
    ensures SplitStep(before + [e], keepId, w, u) ==> SplitStep(before, keepId, w, u) || Maps(e, w, u)
    ensures SplitStep(before, keepId, w, u) ==> SplitStep(before + [e], keepId, w, u)
    ensures Maps(e, w, u) && (keepId || w != u) ==> SplitStep(before + [e], keepId, w, u)
  {
    var flat := before + [e];
    assert flat[..|flat| - 1] == before;
    if InTail(e) && w.Cons? && u.Cons? {
      assert Maps(e.head, w.head, u.head) <==> w.head == u.head;
      MapsAnyConcat(Below(before), [e.tail], w.tail, u.tail);
      MapsAnyOne(e.tail, w.tail, u.tail);
    } else if InHead(e) && w.Cons? && u.Cons? {
      assert Maps(e.tail, w.tail, u.tail) <==> w.tail == u.tail;
      MapsAnyConcat(Edge(before), [e.head], w.head, u.head);
      MapsAnyOne(e.head, w.head, u.head);
    } else if !e.Id? || keepId {
      MapsAnyConcat(Across(before, keepId), [e], w, u);
      MapsAnyOne(e, w, u);
    }
  }

  // ----- The closure is kept -----

  lemma StarOfIdentity(R: (Tree, Tree) -> bool, w: Tree, u: Tree)
    requires forall x, y :: R(x, y) ==> x == y
    ensures Star(R, w, u) <==> w == u
  {
    if Star(R, w, u) {
      var p :| Path(R, p, w, u);
      IdentityPath(R, p, w, u);
    } else if w == u {
      StarRefl(R, w);
    }
  }

  lemma {:induction false} IdentityPath(R: (Tree, Tree) -> bool, p: seq<Tree>, w: Tree, u: Tree)
    requires Path(R, p, w, u) && forall x, y :: R(x, y) ==> x == y
    ensures w == u
    decreases |p|
  {
    if p != [] {
      IdentityPath(R, p[1..], p[0], u);
    }
  }

  /** A leaf's closure of a term is the closure of its relation. */
  lemma LeafLfpMaps(t: Term, w: Tree, u: Tree)
    ensures Maps(LeafLfp(t), w, u) <==> Star(Meaning(t), w, u)
  {
    var R := Meaning(t);
    forall x, y
      ensures R(x, y) <==> Maps(t, x, y)
    {
    }
    if t.Id? || (t.Act? && t.action.Keep?) {
      StarOfIdentity(R, w, u);
    } else if t.Lfp? {
      var S := Meaning(t.body);
      forall x, y
        ensures R(x, y) <==> Star(S, x, y)
        ensures S(x, y) ==> Star(R, x, y)
      {
        assert Maps(t, x, y) <==> Star(S, x, y);
        if S(x, y) {
          StarStep(S, x, y);
          StarStep(R, x, y);
        }
      }
      StarSame(R, S, w, u);
    }
  }

  lemma SameRelation(R: (Tree, Tree) -> bool, S: (Tree, Tree) -> bool, w: Tree, u: Tree)
    requires forall x, y :: R(x, y) <==> S(x, y)
    ensures Star(R, w, u) <==> Star(S, w, u)
  {
    forall x, y
      ensures R(x, y) ==> Star(S, x, y)
      ensures S(x, y) ==> Star(R, x, y)
    {
      if R(x, y) {
        StarStep(S, x, y);
        StarStep(R, x, y);
      }
    }
    StarSame(R, S, w, u);
  }

  lemma LeafMeaning(events: seq<Term>, w: Tree, u: Tree)
    requires events != []
    ensures Maps(LeafLfp(Fused(events)), w, u) <==> Star(AnyOf(events), w, u)
  {
    var t := Fused(events);
    LeafLfpMaps(t, w, u);
    forall x, y
      ensures Meaning(t)(x, y) <==> AnyOf(events)(x, y)
    {
      FusedMaps(events, x, y);
    }
    SameRelation(Meaning(t), AnyOf(events), w, u);
  }

  /** The tail moves by `R`, or the head does. */
  ghost predicate TailStep(R: (Tree, Tree) -> bool, w: Tree, u: Tree) {
    w.Cons? && u.Cons? && w.head == u.head && R(w.tail, u.tail)
  }

  ghost predicate HeadStep(R: (Tree, Tree) -> bool, w: Tree, u: Tree) {
    w.Cons? && u.Cons? && w.tail == u.tail && R(w.head, u.head)
  }

  /** Runs of the tail are runs of the whole. */
  lemma {:induction false} LiftTail(R: (Tree, Tree) -> bool, S: (Tree, Tree) -> bool, p: seq<Tree>, h: Tree, s: Tree, s': Tree)
    requires Path(R, p, s, s') && forall w, u :: TailStep(R, w, u) ==> Star(S, w, u)
    ensures Star(S, Cons(h, s), Cons(h, s'))
    decreases |p|
  {
    if p == [] {
      StarRefl(S, Cons(h, s));
    } else {
      LiftTail(R, S, p[1..], h, p[0], s');
      assert TailStep(R, Cons(h, s), Cons(h, p[0]));
      StarTrans(S, Cons(h, s), Cons(h, p[0]), Cons(h, s'));
    }
  }

  lemma {:induction false} LiftHead(R: (Tree, Tree) -> bool, S: (Tree, Tree) -> bool, p: seq<Tree>, s: Tree, h: Tree, h': Tree)
    requires Path(R, p, h, h') && forall w, u :: HeadStep(R, w, u) ==> Star(S, w, u)
    ensures Star(S, Cons(h, s), Cons(h', s))
    decreases |p|
  {
    if p == [] {
      StarRefl(S, Cons(h, s));
    } else {
      LiftHead(R, S, p[1..], s, p[0], h');
      assert HeadStep(R, Cons(h, s), Cons(p[0], s));
      StarTrans(S, Cons(h, s), Cons(p[0], s), Cons(h', s));
    }
  }

  /** A part that closes the tail makes runs of `S`, and takes every tail step. */
  lemma TailPart(c: Term, R: (Tree, Tree) -> bool, S: (Tree, Tree) -> bool, w: Tree, u: Tree)
    requires forall x, y :: Maps(c, x, y) <==> Star(R, x, y)
    requires forall x, y :: TailStep(R, x, y) ==> Star(S, x, y)
    ensures Maps(PairOf(Id, c), w, u) ==> Star(S, w, u)
    ensures TailStep(R, w, u) ==> Maps(PairOf(Id, c), w, u)
  {
    StarRefl(S, w);
    if Maps(PairOf(Id, c), w, u) && w != u {
      assert Maps(Id, w.head, u.head) && Maps(c, w.tail, u.tail);
      var p :| Path(R, p, w.tail, u.tail);
      LiftTail(R, S, p, w.head, w.tail, u.tail);
    }
    if TailStep(R, w, u) {
      StarStep(R, w.tail, u.tail);
      assert Maps(c, w.tail, u.tail) && Maps(Id, w.head, u.head);
    }
  }

  lemma HeadPart(c: Term, R: (Tree, Tree) -> bool, S: (Tree, Tree) -> bool, w: Tree, u: Tree)
    requires forall x, y :: Maps(c, x, y) <==> Star(R, x, y)
    requires forall x, y :: HeadStep(R, x, y) ==> Star(S, x, y)
    ensures Maps(PairOf(c, Id), w, u) ==> Star(S, w, u)
    ensures HeadStep(R, w, u) ==> Maps(PairOf(c, Id), w, u)
  {
    StarRefl(S, w);
    if Maps(PairOf(c, Id), w, u) && w != u {
      assert Maps(Id, w.tail, u.tail) && Maps(c, w.head, u.head);
      var p :| Path(R, p, w.head, u.head);
      LiftHead(R, S, p, w.tail, w.head, u.head);
    }
    if HeadStep(R, w, u) {
      StarStep(R, w.head, u.head);
      assert Maps(c, w.head, u.head) && Maps(Id, w.tail, u.tail);
    }
  }

  function TailClosure(t: Shape, below: seq<Term>): Term {
    if below == [] then Id else PairOf(Id, SaturateAt(t, below))
  }

  function HeadClosure(h: Shape, edge: seq<Term>): Term {
    if edge == [] then Id else PairOf(SaturateAt(h, edge), Id)
  }

  /** What the closed tail does are runs of the events, and it does every tail step. */
  lemma {:induction false} TailClosureMeaning(t: Shape, flat: seq<Term>, w: Tree, u: Tree)
    ensures Maps(TailClosure(t, Below(flat)), w, u) ==> Star(AnyOf(flat), w, u)
    ensures TailStep(AnyOf(Below(flat)), w, u) ==> Maps(TailClosure(t, Below(flat)), w, u)
    decreases t, 3
  {
    var R, S := AnyOf(Below(flat)), AnyOf(flat);
    forall x, y | TailStep(R, x, y)
      ensures Star(S, x, y)
    {
      SplitMaps(flat, true, x, y);
      assert SplitStep(flat, true, x, y);
      StarStep(S, x, y);
    }
    StarRefl(S, w);
    if Below(flat) != [] {
      forall x, y
        ensures Maps(SaturateAt(t, Below(flat)), x, y) <==> Star(R, x, y)
      {
        SaturateMeaning(t, Below(flat), x, y);
      }
      TailPart(SaturateAt(t, Below(flat)), R, S, w, u);
    }
  }

  lemma {:induction false} HeadClosureMeaning(h: Shape, flat: seq<Term>, w: Tree, u: Tree)
    ensures Maps(HeadClosure(h, Edge(flat)), w, u) ==> Star(AnyOf(flat), w, u)
    ensures HeadStep(AnyOf(Edge(flat)), w, u) ==> Maps(HeadClosure(h, Edge(flat)), w, u)
    decreases h, 3
  {
    var R, S := AnyOf(Edge(flat)), AnyOf(flat);
    forall x, y | HeadStep(R, x, y)
      ensures Star(S, x, y)
    {
      SplitMaps(flat, true, x, y);
      assert SplitStep(flat, true, x, y);
      StarStep(S, x, y);
    }
    StarRefl(S, w);
    if Edge(flat) != [] {
      forall x, y
        ensures Maps(SaturateAt(h, Edge(flat)), x, y) <==> Star(R, x, y)
      {
        SaturateMeaning(h, Edge(flat), x, y);
      }
      HeadPart(SaturateAt(h, Edge(flat)), R, S, w, u);
    }
  }

  /** The saturated term denotes the closure of the events, at every shape, for every list of events. */
  lemma {:induction false} SaturateMeaning(sh: Shape, events: seq<Term>, w: Tree, u: Tree)
    ensures Maps(SaturateAt(sh, events), w, u) <==> Star(AnyOf(events), w, u)
    decreases sh, 2
  {
    if events == [] {
      StarOfIdentity(AnyOf(events), w, u);
    } else if sh.Pair? {
      var flat := FlattenAll(events);
      forall x, y
        ensures AnyOf(flat)(x, y) <==> AnyOf(events)(x, y)
      {
        FlattenAllMaps(events, x, y);
      }
      SameRelation(AnyOf(flat), AnyOf(events), w, u);
      PairMeaning(sh, events, w, u);
    } else {
      LeafMeaning(events, w, u);
    }
  }

  lemma LfpOfMaps(flat: seq<Term>, w: Tree, u: Tree)
    ensures Maps(LfpOf(SumOf(flat)), w, u) <==> Star(AnyOf(flat), w, u)
  {
    var t := SumOf(flat);
    var R := Meaning(t);
    if flat == [] {
      StarOfIdentity(AnyOf(flat), w, u);
    } else {
      forall x, y
        ensures R(x, y) <==> AnyOf(flat)(x, y)
      {
        SumOfMaps(flat, x, y);
      }
      SameRelation(R, AnyOf(flat), w, u);
      if t.Id? {
        StarOfIdentity(R, w, u);
      }
    }
  }

  lemma {:induction false} PairMeaning(sh: Shape, events: seq<Term>, w: Tree, u: Tree)
    requires sh.Pair? && events != []
    ensures Maps(SaturateAt(sh, events), w, u) <==> Star(AnyOf(FlattenAll(events)), w, u)
    decreases sh, 1
  {
    var flat, t := FlattenAll(events), SaturateAt(sh, events);
    if !t.Saturate? {
      LfpOfMaps(flat, w, u);
    } else {
      var R, S := Schedule(t), AnyOf(flat);
      forall x, y | R(x, y)
        ensures Star(S, x, y)
      {
        ScheduleStep(sh, flat, t, x, y);
      }
      forall x, y | S(x, y)
        ensures Star(R, x, y)
      {
        EventStep(sh, flat, t, x, y);
      }
      StarSame(R, S, w, u);
    }
  }

  /** Each step of the schedule is a run of events. */
  lemma {:induction false} ScheduleStep(sh: Shape, flat: seq<Term>, t: Term, x: Tree, y: Tree)
    requires sh.Pair? && t.Saturate? && Schedule(t)(x, y)
    requires t == Saturate(TailClosure(sh.tail, Below(flat)), HeadClosure(sh.head, Edge(flat)), Across(flat, false))
    ensures Star(AnyOf(flat), x, y)
    decreases sh, 0
  {
    if Maps(t.f, x, y) {
      TailClosureMeaning(sh.tail, flat, x, y);
    } else if Maps(t.l, x, y) {
      HeadClosureMeaning(sh.head, flat, x, y);
    } else {
      assert SplitStep(flat, false, x, y);
      SplitMaps(flat, false, x, y);
      StarStep(AnyOf(flat), x, y);
    }
  }

  /** Each event is a step of the schedule, or does nothing. */
  lemma {:induction false} EventStep(sh: Shape, flat: seq<Term>, t: Term, x: Tree, y: Tree)
    requires sh.Pair? && MapsAny(flat, x, y)
    requires t == Saturate(TailClosure(sh.tail, Below(flat)), HeadClosure(sh.head, Edge(flat)), Across(flat, false))
    ensures Star(Schedule(t), x, y)
    decreases sh, 0
  {
    if x == y {
      StarRefl(Schedule(t), x);
    } else {
      SplitMaps(flat, false, x, y);
      TailClosureMeaning(sh.tail, flat, x, y);
      HeadClosureMeaning(sh.head, flat, x, y);
      assert TailStep(AnyOf(Below(flat)), x, y) || HeadStep(AnyOf(Edge(flat)), x, y) || MapsAny(t.g, x, y);
      assert Schedule(t)(x, y);
      StarStep(Schedule(t), x, y);
    }
  }

  // ----- The rewritten term can be applied -----

  ghost predicate AllSorted(sh: Shape, ts: seq<Term>) {
    forall i :: 0 <= i < |ts| ==> Sorted(sh, ts[i])
  }

  lemma {:induction false} FlattenSorted(sh: Shape, e: Term)
    requires Sorted(sh, e)
    ensures AllSorted(sh, Flatten(e))
    decreases e
  {
    if e.Sum? {
      FlattenAllSorted(sh, e.parts);
    }
  }

  lemma {:induction false} FlattenAllSorted(sh: Shape, es: seq<Term>)
    requires AllSorted(sh, es)
    ensures AllSorted(sh, FlattenAll(es))
    decreases es
  {
    if es != [] {
      FlattenSorted(sh, es[0]);
      FlattenAllSorted(sh, es[1..]);
    }
  }

  lemma {:induction false} SplitSorted(sh: Shape, flat: seq<Term>, keepId: bool)
    requires sh.Pair? && AllSorted(sh, flat)
    ensures AllSorted(sh.tail, Below(flat)) && AllSorted(sh.head, Edge(flat)) && AllSorted(sh, Across(flat, keepId))
    decreases |flat|
  {
    if flat != [] {
      SplitSorted(sh, flat[..|flat| - 1], keepId);
    }
  }

  lemma SumOfSorted(sh: Shape, ts: seq<Term>)
    requires AllSorted(sh, ts) && sh != Unit
    ensures Sorted(sh, SumOf(ts))
  {
    var once := Once(ts);
    forall i | 0 <= i < |once|
      ensures Sorted(sh, once[i])
    {
      assert once[i] in once;
      assert once[i] in ts;
    }
  }

  lemma {:induction false} FusedSorted(sh: Shape, ts: seq<Term>)
    requires AllSorted(sh, ts) && ts != [] && !sh.Pair?
    ensures Sorted(sh, Fused(ts)) && (sh == Unit ==> Fused(ts) == Id)
    decreases |ts|
  {
    if |ts| > 1 {
      FusedSorted(sh, ts[..|ts| - 1]);
    }
    assert sh == Unit ==> ts[|ts| - 1] == Id;
  }

  lemma {:induction false} SaturateSorted(sh: Shape, events: seq<Term>)
    requires AllSorted(sh, events)
    ensures Sorted(sh, SaturateAt(sh, events)) && Inflationary(SaturateAt(sh, events))
    decreases sh
  {
    if events != [] {
      if sh.Pair? {
        var flat := FlattenAll(events);
        FlattenAllSorted(sh, events);
        SplitSorted(sh, flat, false);
        SumOfSorted(sh, flat);
        SaturateSorted(sh.tail, Below(flat));
        SaturateSorted(sh.head, Edge(flat));
      } else {
        FusedSorted(sh, events);
      }
    }
  }

  /** No event leaves `V`, nor does any closure inside an event. */
  ghost predicate AllBounded(ts: seq<Term>, V: set<Tree>) {
    forall i :: 0 <= i < |ts| ==> ClosedUnder(ts[i], V) && Bounded(ts[i], V)
  }

  lemma {:induction false} FlattenBounded(e: Term, V: set<Tree>)
    requires ClosedUnder(e, V) && Bounded(e, V)
    ensures AllBounded(Flatten(e), V)
    decreases e
  {
    if e.Sum? {
      forall i | 0 <= i < |e.parts|
        ensures ClosedUnder(e.parts[i], V)
      {
        forall w, u | w in V && Maps(e.parts[i], w, u)
          ensures u in V
        {
          assert Maps(e, w, u);
        }
      }
      FlattenAllBounded(e.parts, V);
    }
  }

  lemma {:induction false} FlattenAllBounded(es: seq<Term>, V: set<Tree>)
    requires AllBounded(es, V)
    ensures AllBounded(FlattenAll(es), V)
    decreases es
  {
    if es != [] {
      FlattenBounded(es[0], V);
      FlattenAllBounded(es[1..], V);
    }
  }

  /** An event of one side keeps the projection of `V` to that side. */
  lemma TailBounded(e: Term, V: set<Tree>)
    requires InTail(e) && ClosedUnder(e, V) && Bounded(e, V)
    ensures ClosedUnder(e.tail, Tails(V)) && Bounded(e.tail, Tails(V))
  {
    forall s, s' | s in Tails(V) && Maps(e.tail, s, s')
      ensures s' in Tails(V)
    {
      var w :| w in V && w.Cons? && w.tail == s;
      var u := Cons(w.head, s');
      assert Maps(e.head, w.head, u.head) && Maps(e, w, u);
      assert u in V && u.tail == s';
    }
  }

  lemma HeadBounded(e: Term, V: set<Tree>)
    requires InHead(e) && ClosedUnder(e, V) && Bounded(e, V)
    ensures ClosedUnder(e.head, Heads(V)) && Bounded(e.head, Heads(V))
  {
    forall h, h' | h in Heads(V) && Maps(e.head, h, h')
      ensures h' in Heads(V)
    {
      var w :| w in V && w.Cons? && w.head == h;
      var u := Cons(h', w.tail);
      assert Maps(e.tail, w.tail, u.tail) && Maps(e, w, u);
      assert u in V && u.head == h';
    }
  }

  lemma {:induction false} SplitBounded(flat: seq<Term>, V: set<Tree>)
    requires AllBounded(flat, V)
    ensures AllBounded(Below(flat), Tails(V)) && AllBounded(Edge(flat), Heads(V)) && AllBounded(Across(flat, false), V)
    decreases |flat|
  {
    if flat != [] {
      var e := flat[|flat| - 1];
      SplitBounded(flat[..|flat| - 1], V);
      if InTail(e) {
        TailBounded(e, V);
      } else if InHead(e) {
        HeadBounded(e, V);
      }
    }
  }

  lemma SumOfBounded(ts: seq<Term>, V: set<Tree>)
    requires AllBounded(ts, V) && ts != []
    ensures ClosedUnder(SumOf(ts), V) && Bounded(SumOf(ts), V)
  {
    var once := Once(ts);
    forall i | 0 <= i < |once|
      ensures Bounded(once[i], V)
    {
      assert once[i] in once;
      assert once[i] in ts;
    }
    forall w, u | w in V && Maps(SumOf(ts), w, u)
      ensures u in V
    {
      SumOfMaps(ts, w, u);
    }
  }

  lemma {:induction false} FusedBounded(ts: seq<Term>, V: set<Tree>)
    requires AllBounded(ts, V) && ts != []
    ensures ClosedUnder(Fused(ts), V) && Bounded(Fused(ts), V)
    decreases |ts|
  {
    if |ts| > 1 {
      FusedBounded(ts[..|ts| - 1], V);
    }
    forall w, u | w in V && Maps(Fused(ts), w, u)
      ensures u in V
    {
      FusedMaps(ts, w, u);
    }
  }

  /** A term whose runs are runs of events that keep `V` keeps `V`. */
  lemma RunsStay(t: Term, events: seq<Term>, V: set<Tree>)
    requires AllBounded(events, V) && forall w, u :: Maps(t, w, u) ==> Star(AnyOf(events), w, u)
    ensures ClosedUnder(t, V)
  {
    var X := In(V);
    forall w, u | w in V && Maps(t, w, u)
      ensures u in V
    {
      var p :| Path(AnyOf(events), p, w, u);
      ClosedHolds(AnyOf(events), X, p, w, u);
    }
  }

  ghost function In(V: set<Tree>): Tree -> bool {
    (w: Tree) => w in V
  }

  lemma {:induction false} SaturateBounded(sh: Shape, events: seq<Term>, U: set<Tree>, V: set<Tree>)
    requires U <= V && AllBounded(events, V)
    ensures Bounded(SaturateAt(sh, events), U)
    decreases sh, 1
  {
    if events != [] {
      if sh.Pair? {
        PairBounded(sh, events, U, V);
      } else {
        FusedBounded(events, V);
      }
    }
  }

  lemma BoundedSides(h: Term, tl: Term, V: set<Tree>)
    requires Bounded(h, Heads(V)) && Bounded(tl, Tails(V))
    ensures Bounded(PairOf(h, tl), V)
  {
  }

  lemma {:induction false} PairBounded(sh: Shape, events: seq<Term>, U: set<Tree>, V: set<Tree>)
    requires sh.Pair? && events != [] && U <= V && AllBounded(events, V)
    ensures Bounded(SaturateAt(sh, events), U)
    decreases sh, 0
  {
    var flat, t := FlattenAll(events), SaturateAt(sh, events);
    FlattenAllBounded(events, V);
    if !t.Saturate? {
      if flat != [] {
        SumOfBounded(flat, V);
      }
    } else {
      SplitBounded(flat, V);
      SaturateBounded(sh.tail, Below(flat), Tails(V), Tails(V));
      SaturateBounded(sh.head, Edge(flat), Heads(V), Heads(V));
      BoundedSides(Id, SaturateAt(sh.tail, Below(flat)), V);
      BoundedSides(SaturateAt(sh.head, Edge(flat)), Id, V);
      PartsStay(sh, flat, t.f, t.l, V);
      assert Scheduled(t, V);
    }
  }

  /** The parts below the cut and at its edge keep `V`. */
  lemma PartsStay(sh: Shape, flat: seq<Term>, f: Term, l: Term, V: set<Tree>)
    requires sh.Pair? && AllBounded(flat, V)
    requires f == if Below(flat) == [] then Id else PairOf(Id, SaturateAt(sh.tail, Below(flat)))
    requires l == if Edge(flat) == [] then Id else PairOf(SaturateAt(sh.head, Edge(flat)), Id)
    ensures ClosedUnder(f, V) && ClosedUnder(l, V)
  {
    forall w, u
      ensures Maps(f, w, u) ==> Star(AnyOf(flat), w, u)
      ensures Maps(l, w, u) ==> Star(AnyOf(flat), w, u)
    {
      TailClosureMeaning(sh.tail, flat, w, u);
      HeadClosureMeaning(sh.head, flat, w, u);
    }
    RunsStay(f, flat, V);
    RunsStay(l, flat, V);
  }

  // ----- The closure of a diagram -----

  /** `X` holds the argument and is closed under every event. */
  ghost predicate ClosedFor(events: seq<Term>, d: Diag, X: Tree -> bool) {
    && (forall w :: Has(d, w) ==> X(w))
    && (forall w, u :: X(w) && MapsAny(events, w, u) ==> X(u))
  }

  /** `r` lies in every closed set that holds the argument. */
  ghost predicate BelowEveryClosed(events: seq<Term>, d: Diag, r: Diag) {
    forall X :: ClosedFor(events, d, X) ==> forall w :: Has(r, w) ==> X(w)
  }

  /** The least set that holds the argument and is closed under every event. */
  ghost predicate LeastClosed(events: seq<Term>, d: Diag, r: Diag) {
    ClosedFor(events, d, WordsOf(r)) && BelowEveryClosed(events, d, r)
  }

  /** Saturate: the least closed set, or, when stopped, a set between the argument and it. */
  method Closure(sh: Shape, events: seq<Term>, d: Diag, mayStop: bool, ghost V: set<Tree>) returns (o: Outcome)
    requires AllSorted(sh, events) && NF(sh, d) && Inside(d, V) && AllBounded(events, V)
    ensures !mayStop ==> o.Done? && !o.partial
    ensures o.Done? ==> NF(sh, o.d) && Includes(d, o.d) && BelowEveryClosed(events, d, o.d)
    ensures o.Done? && !o.partial ==> LeastClosed(events, d, o.d)
  {
    var t := SaturateAt(sh, events);
    SaturateSorted(sh, events);
    SaturateBounded(sh, events, V, V);
    o := Apply(sh, t, d, mayStop, V);
    if o.Done? {
      ImageBelowClosed(sh, events, d, o.d);
      if !o.partial {
        ImageIsClosed(sh, events, d, o.d);
      }
    }
  }

  lemma ImageBelowClosed(sh: Shape, events: seq<Term>, d: Diag, r: Diag)
    requires Sound(SaturateAt(sh, events), d, r)
    ensures BelowEveryClosed(events, d, r)
  {
    var t := SaturateAt(sh, events);
    forall X, u | ClosedFor(events, d, X) && Has(r, u)
      ensures X(u)
    {
      assert Hit(t, d, u);
      var w :| Has(d, w) && Maps(t, w, u);
      SaturateMeaning(sh, events, w, u);
      var p :| Path(AnyOf(events), p, w, u);
      ClosedHolds(AnyOf(events), X, p, w, u);
    }
  }

  lemma ImageIsClosed(sh: Shape, events: seq<Term>, d: Diag, r: Diag)
    requires Image(SaturateAt(sh, events), d, r, false) && Includes(d, r)
    ensures ClosedFor(events, d, WordsOf(r))
  {
    var t, R := SaturateAt(sh, events), AnyOf(events);
    forall v, u | Has(r, v) && MapsAny(events, v, u)
      ensures Has(r, u)
    {
      assert Hit(t, d, v);
      var w :| Has(d, w) && Maps(t, w, v);
      SaturateMeaning(sh, events, w, v);
      StarStep(R, v, u);
      StarTrans(R, w, v, u);
      SaturateMeaning(sh, events, w, u);
    }
  }

  /** The schedule and the naive fixpoint of the sum give the same diagram. */
  lemma ScheduleIsNaiveFixpoint(sh: Shape, events: seq<Term>, d: Diag, r: Diag, r': Diag)
    requires NF(sh, r) && Image(SaturateAt(sh, events), d, r, false)
    requires NF(sh, r') && Image(LfpOf(SumOf(events)), d, r', false)
    ensures r == r'
  {
    forall w, u
      ensures Maps(SaturateAt(sh, events), w, u) <==> Maps(LfpOf(SumOf(events)), w, u)
    {
      SaturateMeaning(sh, events, w, u);
      LfpOfMaps(events, w, u);
    }
    forall w | Has(d, w)
      ensures Has(r, w)
    {
      StarRefl(AnyOf(events), w);
      SaturateMeaning(sh, events, w, w);
    }
    SameImage(SaturateAt(sh, events), LfpOf(SumOf(events)), d, r);
    ImageUnique(sh, LfpOf(SumOf(events)), d, r', r);
  }

  lemma SameImage(t: Term, t': Term, d: Diag, r: Diag)
    requires Sound(t, d, r) && Complete(t, d, r) && Includes(d, r)
    requires forall w, u :: Maps(t, w, u) <==> Maps(t', w, u)
    ensures Image(t', d, r, false)
  {
    forall u | Has(r, u)
      ensures Hit(t', d, u)
    {
      assert Hit(t, d, u);
    }
  }

  // ----- The folded sum -----

  lemma MapsAnyOnCons(f: Term, w: Tree, u: Tree)
    requires w.Cons? && u.Cons?
    ensures Maps(PairOf(Id, f), w, u) <==> w.head == u.head && Maps(f, w.tail, u.tail)
    ensures Maps(PairOf(f, Id), w, u) <==> w.tail == u.tail && Maps(f, w.head, u.head)
  {
    assert Maps(Id, w.head, u.head) <==> w.head == u.head;
    assert Maps(Id, w.tail, u.tail) <==> w.tail == u.tail;
  }

  /** The folded sum does what some event does, on the words of its shape. */
  lemma {:induction false} SumAtMeaning(sh: Shape, events: seq<Term>, w: Tree, u: Tree)
    requires Laid(sh, w) && Laid(sh, u) && events != [] && AllProper(events)
    ensures Maps(SumAt(sh, events), w, u) <==> MapsAny(events, w, u)
    decreases sh
  {
    if sh.Pair? {
      var flat := FlattenAll(events);
      var across, below, edge := Across(flat, true), Below(flat), Edge(flat);
      var b := if below == [] then [] else [PairOf(Id, SumAt(sh.tail, below))];
      var e := if edge == [] then [] else [PairOf(SumAt(sh.head, edge), Id)];
      FlattenAllMaps(events, w, u);
      SplitMaps(flat, true, w, u);
      FlattenAllProper(events);
      SplitProper(flat);
      SumOfMaps(across + b + e, w, u);
      MapsAnyConcat(across + b, e, w, u);
      MapsAnyConcat(across, b, w, u);
      if below != [] {
        SumAtMeaning(sh.tail, below, w.tail, u.tail);
        MapsAnyOnCons(SumAt(sh.tail, below), w, u);
        MapsAnyOne(b[0], w, u);
      }
      if edge != [] {
        SumAtMeaning(sh.head, edge, w.head, u.head);
        MapsAnyOnCons(SumAt(sh.head, edge), w, u);
        MapsAnyOne(e[0], w, u);
      }
    } else {
      FusedMaps(events, w, u);
    }
  }

  /** No sum of nothing: the term table never builds one. */
  ghost predicate Proper(t: Term)
    decreases t
  {
    match t
    case Sum(parts) => parts != [] && forall i :: 0 <= i < |parts| ==> Proper(parts[i])
    case OnPair(h, tl) => Proper(h) && Proper(tl)
    case _ => true
  }

  ghost predicate AllProper(ts: seq<Term>) {
    forall i :: 0 <= i < |ts| ==> Proper(ts[i])
  }

  lemma {:induction false} FlattenProper(e: Term)
    requires Proper(e)
    ensures Flatten(e) != [] && AllProper(Flatten(e))
    decreases e
  {
    if e.Sum? {
      FlattenAllProper(e.parts);
    }
  }

  lemma {:induction false} FlattenAllProper(es: seq<Term>)
    requires AllProper(es)
    ensures AllProper(FlattenAll(es)) && (es != [] ==> FlattenAll(es) != [])
    decreases es
  {
    if es != [] {
      FlattenProper(es[0]);
      FlattenAllProper(es[1..]);
    }
  }

  lemma {:induction false} SplitProper(flat: seq<Term>)
    requires AllProper(flat)
    ensures AllProper(Below(flat)) && AllProper(Edge(flat))
    ensures flat != [] ==> Below(flat) != [] || Edge(flat) != [] || Across(flat, true) != []
    decreases |flat|
  {
    if flat != [] {
      SplitProper(flat[..|flat| - 1]);
    }
  }
}
