/**
 Operation terms and the relations on words they denote
 (src/operation.cc, src/int_set.cc).
 */
module Terms {
  import opened Leaves
  import opened Expressions
  import opened Substitutions
  import opened Diagrams
  import opened Closures

  /** The guard of a leaf action. */
  datatype Guard = Always | InSet(values: set<int>) | When(b: BExpr)

  /** What a leaf action does to a value that passes its guard. */
  datatype Action =
    | Keep
    | Assign(value: int)
    | ShiftBy(delta: int)
    | Transform(rhs: IExpr, modulo: int)
    | Havoc(lo: int, hi: int)
    | Choose(choices: set<int>)

  datatype Assignment = Assignment(lhs: IExpr, rhs: IExpr)

  /**
   `Act`, and `Sum` and `Lfp` of leaf terms, are the integer leaf's language; the
   others live at composite sorts. `Id` is shared: it is free at every sort.
   */
  datatype Term =
    | Id
    | Act(guard: Guard, action: Action)
    | Sum(parts: seq<Term>)
    | Lfp(body: Term)
    | OnPair(head: Term, tail: Term)
    | Compose(after: Term, before: Term)
    | Within(d: Diag)
    | Saturate(f: Term, l: Term, g: seq<Term>)
    | Event(b: BExpr, assigns: seq<Assignment>)

  // ----- Constructors -----

  /** A pair of identities is the identity. */
  function PairOf(h: Term, t: Term): Term {
    if h.Id? && t.Id? then Id else OnPair(h, t)
  }

  /** The term that does nothing. */
  function LeafZero(): Term {
    Act(When(BFalse), Keep)
  }

  // ----- Evaluation at a leaf -----

  /** An unresolved array access has no value in an environment of leaf values. */
  function Strip(e: IExpr): IExpr
    decreases e
  {
    match e
    case Nary(plus, ops) => Nary(plus, StripAll(ops))
    case Binary(op, l, r) => Binary(op, Strip(l), Strip(r))
    case BitComp(x) => BitComp(Strip(x))
    case Array(_, _) => Undef
    case Wrap(b) => Wrap(StripBool(b))
    case _ => e
  }

  function StripAll(ops: seq<IExpr>): seq<IExpr>
    decreases ops
  {
    if ops == [] then [] else [Strip(ops[0])] + StripAll(ops[1..])
  }

  function StripBool(b: BExpr): BExpr
    decreases b
  {
    match b
    case Compare(op, l, r) => Compare(op, Strip(l), Strip(r))
    case NaryBool(conj, ops) => NaryBool(conj, StripAllBool(ops))
    case Not(a) => Not(StripBool(a))
    case _ => b
  }

  function StripAllBool(ops: seq<BExpr>): seq<BExpr>
    decreases ops
  {
    if ops == [] then [] else [StripBool(ops[0])] + StripAllBool(ops[1..])
  }

  /** The evaluator: arrays are undefined. */
  function EvalInt(e: IExpr, env: seq<int>): Option<int> {
    Value(Strip(e), env)
  }

  function EvalBool(b: BExpr, env: seq<int>): Truth {
    TruthOf(StripBool(b), env)
  }

  /** The remainder in `0..modulo`, none when there is no modulo. */
  function Wrapped(v: int, modulo: int): int {
    if modulo == 0 then v else v % modulo
  }

  predicate Passes(g: Guard, v: int) {
    match g
    case Always => true
    case InSet(values) => v in values
    case When(b) => EvalBool(b, [v]) == Yes
  }

  /** The action may take value `v` to value `u`. */
  ghost predicate Acts(a: Action, v: int, u: int) {
    match a
    case Keep => u == v
    case Assign(c) => u == c
    case ShiftBy(delta) => u == v + delta
    case Transform(rhs, modulo) =>
      var r := EvalInt(rhs, [v]);
      r.Some? && u == Wrapped(r.value, modulo)
    case Havoc(lo, hi) => lo <= u < hi
    case Choose(choices) => u in choices
  }

  // ----- Events -----

  /** The position an assignment writes. */
  function Target(lhs: IExpr, env: seq<int>): Option<int> {
    match lhs
    case Var(p) => if 0 <= p < |env| then Some(p) else None
    case Array(cells, index) =>
      var i := Value(index, env);
      if i.Some? && 0 <= i.value < |cells| && 0 <= cells[i.value] < |env| then Some(cells[i.value]) else None
    case _ => None
  }

  /** The assignments all have a target and a value, read in one environment; `out` is the updated environment. */
  ghost predicate Assigns(ups: seq<Assignment>, env: seq<int>, out: seq<int>) {
    && |out| == |env|
    && (forall k :: 0 <= k < |ups| ==>
          var p, v := Target(ups[k].lhs, env), Value(ups[k].rhs, env);
          p.Some? && v.Some? && 0 <= p.value < |out| && out[p.value] == v.value)
    && (forall q :: 0 <= q < |env| && (forall k :: 0 <= k < |ups| ==> Target(ups[k].lhs, env) != Some(q)) ==>
          out[q] == env[q])
  }

  /** One shape fits both words. */
  ghost predicate Alike(w: Tree, u: Tree) {
    match w
    case Nil => u.Nil?
    case Int(_) => u.Int?
    case Cons(h, t) => u.Cons? && Alike(h, u.head) && Alike(t, u.tail)
  }

  lemma {:induction false} AlikeSame(w: Tree, u: Tree)
    requires Alike(w, u)
    ensures |Frontier(w)| == |Frontier(u)|
    ensures Frontier(w) == Frontier(u) ==> w == u
  {
    match w
    case Cons(h, t) =>
      AlikeSame(h, u.head);
      AlikeSame(t, u.tail);
      if Frontier(w) == Frontier(u) {
        assert Frontier(h) == Frontier(w)[..|Frontier(h)|] == Frontier(u.head);
        assert Frontier(t) == Frontier(w)[|Frontier(h)|..] == Frontier(u.tail);
      }
    case Int(v) =>
      assert Frontier(w)[0] == v && Frontier(u)[0] == u.v;
    case Nil =>
  }

  // ----- Meaning -----

  /** The term may take the word `w` to the word `u`. */
  ghost predicate Maps(t: Term, w: Tree, u: Tree)
    decreases t, 1
  {
    match t
    case Id => u == w
    case Act(guard, action) => w.Int? && u.Int? && Passes(guard, w.v) && Acts(action, w.v, u.v)
    case Sum(parts) => MapsAny(parts, w, u)
    case Lfp(body) => Star(Meaning(body), w, u)
    case OnPair(h, tl) => w.Cons? && u.Cons? && Maps(h, w.head, u.head) && Maps(tl, w.tail, u.tail)
    case Compose(after, before) => exists m :: Maps(before, w, m) && Maps(after, m, u)
    case Within(d) => u == w && Has(d, w)
    case Saturate(f, l, g) => Star(Schedule(t), w, u)
    case Event(b, ups) =>
      Alike(w, u) && TruthOf(b, Frontier(w)) == Yes && Assigns(ups, Frontier(w), Frontier(u))
  }

  ghost predicate MapsAny(parts: seq<Term>, w: Tree, u: Tree)
    decreases parts, 0
  {
    exists i :: 0 <= i < |parts| && Maps(parts[i], w, u)
  }

  ghost function Meaning(t: Term): (Tree, Tree) -> bool
    decreases t, 2
  {
    (w, u) => Maps(t, w, u)
  }

  /** One step of the schedule: below the cut, at its edge, or across it. */
  ghost function Schedule(t: Term): (Tree, Tree) -> bool
    requires t.Saturate?
    decreases t, 0
  {
    (w, u) => Maps(t.f, w, u) || Maps(t.l, w, u) || MapsAny(t.g, w, u)
  }

  /** No closure anywhere in the term. */
  predicate ClosureFree(t: Term)
    decreases t
  {
    match t
    case Sum(parts) => forall i :: 0 <= i < |parts| ==> ClosureFree(parts[i])
    case Lfp(_) => false
    case OnPair(h, tl) => ClosureFree(h) && ClosureFree(tl)
    case Compose(after, before) => ClosureFree(after) && ClosureFree(before)
    case Saturate(_, _, _) => false
    case _ => true
  }

  // ----- Size -----

  /** The expressions still to be resolved in the events of a term, and their writes. */
  function Weight(t: Term): nat
    decreases t
  {
    match t
    case Sum(parts) => WeightAll(parts)
    case Lfp(body) => Weight(body)
    case OnPair(h, tl) => Weight(h) + Weight(tl)
    case Compose(after, before) => Weight(after) + Weight(before)
    case Saturate(f, l, g) => Weight(f) + Weight(l) + WeightAll(g)
    case Event(b, ups) => EventWeight(b, ups)
    case _ => 0
  }

  function WeightAll(parts: seq<Term>): nat
    decreases parts
  {
    if parts == [] then 0 else Weight(parts[0]) + WeightAll(parts[1..])
  }

  function EventWeight(b: BExpr, ups: seq<Assignment>): nat {
    SizeBool(b) + WritesWeight(ups)
  }

  function WritesWeight(ups: seq<Assignment>): nat
    decreases |ups|
  {
    if ups == [] then 0
    else 1 + Size(ups[0].lhs) + Size(ups[0].rhs) + WritesWeight(ups[1..])
  }

  lemma {:induction false} WeightMember(parts: seq<Term>, i: nat)
    requires i < |parts|
    ensures Weight(parts[i]) <= WeightAll(parts) && Rank(parts[i]) <= RankAll(parts)
    decreases |parts|
  {
    if i > 0 {
      WeightMember(parts[1..], i - 1);
    }
  }

  /** The nesting of a term at one sort. */
  function Rank(t: Term): nat
    decreases t
  {
    match t
    case Sum(parts) => 1 + RankAll(parts)
    case Lfp(body) => 1 + Rank(body)
    case Compose(after, before) => 1 + Rank(after) + Rank(before)
    case Saturate(f, l, g) => 1 + Rank(f) + Rank(l) + RankAll(g)
    case Event(_, _) => 1
    case _ => 0
  }

  function RankAll(parts: seq<Term>): nat
    decreases parts
  {
    if parts == [] then 0 else Rank(parts[0]) + RankAll(parts[1..])
  }
}
