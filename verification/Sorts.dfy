/**
 Well-sorted terms, and the finite sets their closures stay in
 (src/operation.cc, src/int_set.cc, src/event.cc).
 */
module Sorts {
  import opened Leaves
  import opened Expressions
  import opened Substitutions
  import opened Exactness
  import opened Diagrams
  import opened Terms

  // ----- Well-sorted terms -----

  /** What the leaf's constructors build: no empty guard set, range or choice. */
  predicate Built(guard: Guard, action: Action) {
    && (guard.InSet? ==> guard.values != {})
    && (action.Havoc? ==> action.lo < action.hi)
    && (action.Choose? ==> action.choices != {})
    && (action.Transform? ==> action.modulo >= 0)
  }

  ghost predicate Sorted(sh: Shape, t: Term)
    decreases t
  {
    match t
    case Id => true
    case Act(guard, action) => sh == Leaf && Built(guard, action)
    case Sum(parts) => sh != Unit && parts != [] && forall i :: 0 <= i < |parts| ==> Sorted(sh, parts[i])
    case Lfp(body) => sh != Unit && Sorted(sh, body)
    case OnPair(h, tl) => sh.Pair? && Sorted(sh.head, h) && Sorted(sh.tail, tl)
    case Compose(after, before) => sh.Pair? && Sorted(sh, after) && Sorted(sh, before)
    case Within(d) => sh.Pair? && NF(sh, d)
    case Saturate(f, l, g) =>
      && sh.Pair? && Sorted(sh, f) && Sorted(sh, l) && Inflationary(f) && Inflationary(l)
      && forall i :: 0 <= i < |g| ==> Sorted(sh, g[i])
    case Event(b, ups) => sh.Pair? && EventFits(sh, b, ups) && !Hopeless(b, ups)
  }

  /** A term whose results keep the argument. */
  ghost predicate Inflationary(t: Term)
    decreases t
  {
    match t
    case Id => true
    case Lfp(_) => true
    case Saturate(_, _, _) => true
    case OnPair(h, tl) => Inflationary(h) && Inflationary(tl)
    case Sum(parts) => exists i :: 0 <= i < |parts| && Inflationary(parts[i])
    case Compose(after, before) => Inflationary(after) && Inflationary(before)
    case _ => false
  }

  // ----- Finite universes -----

  ghost function Heads(U: set<Tree>): set<Tree> {
    set w | w in U && w.Cons? :: w.head
  }

  ghost function Tails(U: set<Tree>): set<Tree> {
    set w | w in U && w.Cons? :: w.tail
  }

  ghost predicate Inside(d: Diag, U: set<Tree>) {
    forall w :: Has(d, w) ==> w in U
  }

  /** The term leads from `U` into `V`. */
  ghost predicate Leads(t: Term, U: set<Tree>, V: set<Tree>) {
    forall w, u :: w in U && Maps(t, w, u) ==> u in V
  }

  ghost predicate ClosedUnder(t: Term, U: set<Tree>) {
    Leads(t, U, U)
  }

  /** Every closure of the term stays in some finite set when it starts in `U`, where its events are determined. */
  ghost predicate Bounded(t: Term, U: set<Tree>)
    decreases t
  {
    match t
    case Sum(parts) => forall i :: 0 <= i < |parts| ==> Bounded(parts[i], U)
    case Lfp(body) => exists V: set<Tree> :: U <= V && ClosedUnder(body, V) && Bounded(body, V)
    case OnPair(h, tl) => Bounded(h, Heads(U)) && Bounded(tl, Tails(U))
    case Compose(after, before) =>
      Bounded(before, U)
      && exists V: set<Tree> :: Leads(before, U, V) && Bounded(after, V)
    case Saturate(f, l, g) =>
      exists V: set<Tree> ::
        && U <= V && ClosedUnder(f, V) && ClosedUnder(l, V) && Bounded(f, V) && Bounded(l, V)
        && forall i :: 0 <= i < |g| ==> ClosedUnder(g[i], V) && Bounded(g[i], V)
    case Event(b, ups) => forall w :: w in U ==> Determined(b, ups, Frontier(w))
    case _ => true
  }

  // ----- Events -----

  /** The leftmost coordinate of every part is an integer: where a term that does nothing is anchored. */
  predicate Led(sh: Shape) {
    match sh
    case Unit => false
    case Leaf => true
    case Pair(h, t) => Led(h) && (t == Unit || Led(t))
  }

  /** Written positions and array cells; an access already out of bounds is undefined. */
  ghost predicate WriteFits(n: nat, a: Assignment) {
    && (a.lhs.Var? || a.lhs.Array? || a.lhs.Undef?)
    && Spans(a.lhs, 0, n, true) && Normal(a.lhs) && Spans(a.rhs, 0, n, true) && Normal(a.rhs)
  }

  /** An event over the positions of the shape, its expressions in normal form. */
  ghost predicate EventFits(sh: Shape, b: BExpr, ups: seq<Assignment>) {
    && Led(sh) && SpansBool(b, 0, Width(sh), true) && NormalBool(b)
    && forall k :: 0 <= k < |ups| ==> WriteFits(Width(sh), ups[k])
  }

  /** The guard is refuted or some access is out of bounds before anything is read. */
  predicate Hopeless(b: BExpr, ups: seq<Assignment>) {
    b == BFalse || b == BUndef || exists k :: 0 <= k < |ups| && (ups[k].lhs == Undef || ups[k].rhs == Undef)
  }

  /** The assignment has a target and a value. */
  ghost predicate Ready(a: Assignment, env: seq<int>) {
    Target(a.lhs, env).Some? && Value(a.rhs, env).Some?
  }

  /** Where both sides are undefined, the access of the left side, which the right side must not come to be. */
  ghost function BanOf(a: Assignment, env: seq<int>): Ban {
    if a.lhs.Array? && Target(a.lhs, env).None? && Value(a.rhs, env).None? then Ban(a.lhs.cells, Value(a.lhs.index, env))
    else NoBan
  }

  /** The left side is a position, or an array of positions, of the environment. */
  ghost predicate Addressed(lhs: IExpr, n: nat) {
    match lhs
    case Undef => true
    case Var(p) => 0 <= p < n
    case Array(cells, _) => forall i :: 0 <= i < |cells| ==> 0 <= cells[i] < n
    case _ => false
  }

  /** Where the assignment is undefined it stays so, and is not taken for a write of a position to itself. */
  ghost predicate SafeWrite(a: Assignment, env: seq<int>) {
    && Addressed(a.lhs, |env|) && Safe(a.lhs, env, NoBan)
    && Safe(a.rhs, env, NoBan) && Safe(a.rhs, env, BanOf(a, env))
  }

  /**
   The guard has a value or is safe; where it is true, every assignment is defined or safe, and those
   that are defined have distinct targets. An assignment that is safe but not defined, by an access out of
   bounds or otherwise, makes the event do nothing.
   */
  ghost predicate Determined(b: BExpr, ups: seq<Assignment>, env: seq<int>) {
    && (TruthOf(b, env) != Unknown || SafeBool(b, env, NoBan))
    && (TruthOf(b, env) == Yes ==> WritesDetermined(ups, env))
  }

  ghost predicate WritesDetermined(ups: seq<Assignment>, env: seq<int>) {
    && (forall k :: 0 <= k < |ups| ==> Ready(ups[k], env) || SafeWrite(ups[k], env))
    && (forall i, j :: 0 <= i < j < |ups| && Ready(ups[i], env) && Ready(ups[j], env) ==>
          Target(ups[i].lhs, env) != Target(ups[j].lhs, env))
  }
}
