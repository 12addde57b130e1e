/**
 Normal expressions, substitution, re-rooting and negation normal form
 (src/lia_int.cc, src/lia_bool.cc).
 */
module Substitutions {
  import opened Leaves
  import opened Expressions

  // ----- What an expression reads -----

  /** The positions read directly; the cells of an array are placement, not reads. */
  function Reads(e: IExpr): set<int>
    decreases e
  {
    match e
    case Undef => {}
    case Const(_) => {}
    case Var(p) => {p}
    case Nary(_, ops) => ReadsAll(ops)
    case Binary(_, l, r) => Reads(l) + Reads(r)
    case BitComp(x) => Reads(x)
    case Array(_, index) => Reads(index)
    case Wrap(b) => ReadsBool(b)
  }

  function ReadsAll(ops: seq<IExpr>): set<int>
    decreases ops
  {
    if ops == [] then {} else Reads(ops[0]) + ReadsAll(ops[1..])
  }

  function ReadsBool(b: BExpr): set<int>
    decreases b
  {
    match b
    case Compare(_, l, r) => Reads(l) + Reads(r)
    case NaryBool(_, ops) => ReadsAllBool(ops)
    case Not(a) => ReadsBool(a)
    case _ => {}
  }

  function ReadsAllBool(ops: seq<BExpr>): set<int>
    decreases ops
  {
    if ops == [] then {} else ReadsBool(ops[0]) + ReadsAllBool(ops[1..])
  }

  /** The cells an array access could read. */
  function Cells(e: IExpr): set<int>
    decreases e
  {
    match e
    case Undef => {}
    case Const(_) => {}
    case Var(_) => {}
    case Nary(_, ops) => CellsAll(ops)
    case Binary(_, l, r) => Cells(l) + Cells(r)
    case BitComp(x) => Cells(x)
    case Array(cells, index) => (set p | p in cells) + Cells(index)
    case Wrap(b) => CellsBool(b)
  }

  function CellsAll(ops: seq<IExpr>): set<int>
    decreases ops
  {
    if ops == [] then {} else Cells(ops[0]) + CellsAll(ops[1..])
  }

  function CellsBool(b: BExpr): set<int>
    decreases b
  {
    match b
    case Compare(_, l, r) => Cells(l) + Cells(r)
    case NaryBool(_, ops) => CellsAllBool(ops)
    case Not(a) => CellsBool(a)
    case _ => {}
  }

  function CellsAllBool(ops: seq<BExpr>): set<int>
    decreases ops
  {
    if ops == [] then {} else CellsBool(ops[0]) + CellsAllBool(ops[1..])
  }

  // ----- Substitution -----

  /** Replace every occurrence of `sub` by `v`, renormalising. */
  function Subst(e: IExpr, sub: IExpr, v: IExpr): IExpr
    decreases e
  {
    if e == sub then v
    else
      match e
      case Undef => e
      case Const(_) => e
      case Var(_) => e
      case Nary(plus, ops) => NaryOf(plus, SubstAll(ops, sub, v))
      case Binary(op, l, r) => BinaryOf(op, Subst(l, sub, v), Subst(r, sub, v))
      case BitComp(x) => BitCompOf(Subst(x, sub, v))
      case Array(cells, index) => ArrayOf(cells, Subst(index, sub, v))
      case Wrap(b) => WrapOf(SubstBool(b, sub, v))
  }

  function SubstAll(ops: seq<IExpr>, sub: IExpr, v: IExpr): (r: seq<IExpr>)
    ensures |r| == |ops|
    ensures forall i :: 0 <= i < |ops| ==> r[i] == Subst(ops[i], sub, v)
    decreases ops
  {
    if ops == [] then [] else [Subst(ops[0], sub, v)] + SubstAll(ops[1..], sub, v)
  }

  function SubstBool(b: BExpr, sub: IExpr, v: IExpr): BExpr
    decreases b
  {
    match b
    case Compare(op, l, r) => CompareOf(op, Subst(l, sub, v), Subst(r, sub, v))
    case NaryBool(conj, ops) => NaryBoolOf(conj, SubstAllBool(ops, sub, v))
    case Not(a) => Neg(SubstBool(a, sub, v))
    case _ => b
  }

  function SubstAllBool(ops: seq<BExpr>, sub: IExpr, v: IExpr): (r: seq<BExpr>)
    ensures |r| == |ops|
    ensures forall i :: 0 <= i < |ops| ==> r[i] == SubstBool(ops[i], sub, v)
    decreases ops
  {
    if ops == [] then [] else [SubstBool(ops[0], sub, v)] + SubstAllBool(ops[1..], sub, v)
  }

  /** Where the original has a value and `v` stands for `sub`, the residual has the same value. */
  lemma {:induction false} SubstRefines(e: IExpr, sub: IExpr, v: IExpr, env: seq<int>)
    requires Refines(Value(sub, env), Value(v, env))
    ensures Refines(Value(e, env), Value(Subst(e, sub, v), env))
    decreases e
  {
    if e != sub {
      match e
      case Nary(plus, ops) =>
        var ops' := SubstAll(ops, sub, v);
        forall i | 0 <= i < |ops|
          ensures Refines(Value(ops[i], env), Value(ops'[i], env))
        {
          SubstRefines(ops[i], sub, v, env);
        }
        ValueAllMono(plus, ops, ops', env, env);
        NaryOfRefines(plus, ops', env);
      case Binary(op, l, r) =>
        SubstRefines(l, sub, v, env);
        SubstRefines(r, sub, v, env);
        var e' := Binary(op, Subst(l, sub, v), Subst(r, sub, v));
        assert Refines(Value(e, env), Value(e', env));
      case BitComp(x) =>
        SubstRefines(x, sub, v, env);
        assert Refines(Value(e, env), Value(BitComp(Subst(x, sub, v)), env));
      case Array(cells, index) =>
        SubstRefines(index, sub, v, env);
        assert Refines(Value(e, env), Value(Array(cells, Subst(index, sub, v)), env));
      case Wrap(b) =>
        SubstBoolRefines(b, sub, v, env);
        assert Refines(Value(e, env), Value(Wrap(SubstBool(b, sub, v)), env));
      case _ =>
    }
  }

  lemma {:induction false} SubstBoolRefines(b: BExpr, sub: IExpr, v: IExpr, env: seq<int>)
    requires Refines(Value(sub, env), Value(v, env))
    ensures RefinesTruth(TruthOf(b, env), TruthOf(SubstBool(b, sub, v), env))
    decreases b
  {
    match b
    case Compare(op, l, r) =>
      SubstRefines(l, sub, v, env);
      SubstRefines(r, sub, v, env);
      assert RefinesTruth(TruthOf(b, env), TruthOf(Compare(op, Subst(l, sub, v), Subst(r, sub, v)), env));
    case NaryBool(conj, ops) =>
      var ops' := SubstAllBool(ops, sub, v);
      forall i | 0 <= i < |ops|
        ensures RefinesTruth(TruthOf(ops[i], env), TruthOf(ops'[i], env))
      {
        SubstBoolRefines(ops[i], sub, v, env);
      }
      TruthAllMono(conj, ops, ops', env, env);
      NaryBoolOfExact(conj, ops', env);
    case Not(a) =>
      SubstBoolRefines(a, sub, v, env);
    case _ =>
  }

  // ----- Re-rooting -----

  /** The positions an expression may come to read. */
  function Touches(e: IExpr): set<int> {
    Reads(e) + Cells(e)
  }

  /** No position is both every cell of an array and one its index may come to read. */
  ghost predicate Loose(cells: seq<int>, index: IExpr) {
    forall p :: p in Touches(index) ==> exists i :: 0 <= i < |cells| && cells[i] != p
  }

  /** Every position, read or placed, lies in `lo..hi`; array accesses, loose ones, are there only if allowed. */
  ghost predicate Spans(e: IExpr, lo: int, hi: int, arrays: bool)
    decreases e
  {
    match e
    case Undef => true
    case Const(_) => true
    case Var(p) => lo <= p < hi
    case Nary(_, ops) => forall i :: 0 <= i < |ops| ==> Spans(ops[i], lo, hi, arrays)
    case Binary(_, l, r) => Spans(l, lo, hi, arrays) && Spans(r, lo, hi, arrays)
    case BitComp(x) => Spans(x, lo, hi, arrays)
    case Array(cells, index) =>
      && arrays && Loose(cells, index) && Spans(index, lo, hi, arrays)
      && forall i :: 0 <= i < |cells| ==> lo <= cells[i] < hi
    case Wrap(b) => SpansBool(b, lo, hi, arrays)
  }

  ghost predicate SpansBool(b: BExpr, lo: int, hi: int, arrays: bool)
    decreases b
  {
    match b
    case Compare(_, l, r) => Spans(l, lo, hi, arrays) && Spans(r, lo, hi, arrays)
    case NaryBool(_, ops) => forall i :: 0 <= i < |ops| ==> SpansBool(ops[i], lo, hi, arrays)
    case Not(a) => SpansBool(a, lo, hi, arrays)
    case _ => true
  }

  function Moved(cells: seq<int>, delta: int): seq<int> {
    seq(|cells|, i requires 0 <= i < |cells| => cells[i] + delta)
  }

  /** Move every position by `delta`. */
  function Shift(e: IExpr, delta: int): IExpr
    decreases e
  {
    match e
    case Undef => e
    case Const(_) => e
    case Var(p) => Var(p + delta)
    case Nary(plus, ops) => NaryOf(plus, ShiftAll(ops, delta))
    case Binary(op, l, r) => BinaryOf(op, Shift(l, delta), Shift(r, delta))
    case BitComp(x) => BitCompOf(Shift(x, delta))
    case Array(cells, index) => ArrayOf(Moved(cells, delta), Shift(index, delta))
    case Wrap(b) => WrapOf(ShiftBool(b, delta))
  }

  function ShiftAll(ops: seq<IExpr>, delta: int): (r: seq<IExpr>)
    ensures |r| == |ops|
    ensures forall i :: 0 <= i < |ops| ==> r[i] == Shift(ops[i], delta)
    decreases ops
  {
    if ops == [] then [] else [Shift(ops[0], delta)] + ShiftAll(ops[1..], delta)
  }

  function ShiftBool(b: BExpr, delta: int): BExpr
    decreases b
  {
    match b
    case Compare(op, l, r) => CompareOf(op, Shift(l, delta), Shift(r, delta))
    case NaryBool(conj, ops) => NaryBoolOf(conj, ShiftAllBool(ops, delta))
    case Not(a) => Neg(ShiftBool(a, delta))
    case _ => b
  }

  function ShiftAllBool(ops: seq<BExpr>, delta: int): (r: seq<BExpr>)
    ensures |r| == |ops|
    ensures forall i :: 0 <= i < |ops| ==> r[i] == ShiftBool(ops[i], delta)
    decreases ops
  {
    if ops == [] then [] else [ShiftBool(ops[0], delta)] + ShiftAllBool(ops[1..], delta)
  }

  /** The re-rooted expression refines the original, read in the rest of the environment. */
  lemma {:induction false} ShiftRefines(e: IExpr, k: int, env: seq<int>)
    requires Spans(e, k, |env|, true) && 0 <= k <= |env|
    ensures Refines(Value(e, env), Value(Shift(e, -k), env[k..]))
    decreases e
  {
    match e
    case Nary(plus, ops) =>
      ShiftAllRefines(plus, ops, k, env);
      NaryOfRefines(plus, ShiftAll(ops, -k), env[k..]);
    case Binary(op, l, r) =>
      ShiftRefines(l, k, env);
      ShiftRefines(r, k, env);
      assert Refines(Value(e, env), Value(Binary(op, Shift(l, -k), Shift(r, -k)), env[k..]));
    case BitComp(x) =>
      ShiftRefines(x, k, env);
      assert Refines(Value(e, env), Value(BitComp(Shift(x, -k)), env[k..]));
    case Array(cells, index) =>
      ShiftRefines(index, k, env);
      assert Refines(Value(e, env), Value(Array(Moved(cells, -k), Shift(index, -k)), env[k..]));
    case Wrap(b) =>
      ShiftBoolRefines(b, k, env);
      assert Refines(Value(e, env), Value(Wrap(ShiftBool(b, -k)), env[k..]));
    case _ =>
  }

  lemma {:induction false} ShiftAllRefines(plus: bool, ops: seq<IExpr>, k: int, env: seq<int>)
    requires 0 <= k <= |env| && forall i :: 0 <= i < |ops| ==> Spans(ops[i], k, |env|, true)
    ensures Refines(ValueAll(plus, ops, env), ValueAll(plus, ShiftAll(ops, -k), env[k..]))
    decreases ops
  {
    if ops != [] {
      ShiftRefines(ops[0], k, env);
      ShiftAllRefines(plus, ops[1..], k, env);
      assert ShiftAll(ops, -k)[1..] == ShiftAll(ops[1..], -k);
    }
  }

  lemma {:induction false} ShiftBoolRefines(b: BExpr, k: int, env: seq<int>)
    requires SpansBool(b, k, |env|, true) && 0 <= k <= |env|
    ensures RefinesTruth(TruthOf(b, env), TruthOf(ShiftBool(b, -k), env[k..]))
    decreases b
  {
    match b
    case Compare(op, l, r) =>
      ShiftRefines(l, k, env);
      ShiftRefines(r, k, env);
      assert RefinesTruth(TruthOf(b, env), TruthOf(Compare(op, Shift(l, -k), Shift(r, -k)), env[k..]));
    case NaryBool(conj, ops) =>
      ShiftAllBoolRefines(conj, ops, k, env);
      NaryBoolOfExact(conj, ShiftAllBool(ops, -k), env[k..]);
    case Not(a) =>
      ShiftBoolRefines(a, k, env);
    case _ =>
  }

  lemma {:induction false} ShiftAllBoolRefines(conj: bool, ops: seq<BExpr>, k: int, env: seq<int>)
    requires 0 <= k <= |env| && forall i :: 0 <= i < |ops| ==> SpansBool(ops[i], k, |env|, true)
    ensures RefinesTruth(TruthAll(conj, ops, env), TruthAll(conj, ShiftAllBool(ops, -k), env[k..]))
    decreases ops
  {
    if ops != [] {
      ShiftBoolRefines(ops[0], k, env);
      ShiftAllBoolRefines(conj, ops[1..], k, env);
      assert ShiftAllBool(ops, -k)[1..] == ShiftAllBool(ops[1..], -k);
    }
  }

  // ----- Normal expressions -----

  /** Nothing a constructor would fold: the codes the source holds. */
  ghost predicate Normal(e: IExpr)
    decreases e
  {
    match e
    case Undef => true
    case Const(_) => true
    case Var(_) => true
    case Nary(_, ops) =>
      && (forall i :: 0 <= i < |ops| ==> Normal(ops[i]) && !ops[i].Undef?)
      && (exists i :: 0 <= i < |ops| && !ops[i].Const?)
    case Binary(_, l, r) => Normal(l) && Normal(r) && !l.Undef? && !r.Undef? && !(l.Const? && r.Const?)
    case BitComp(x) => Normal(x) && !x.Undef? && !x.Const?
    case Array(_, index) => Normal(index) && !index.Undef? && !index.Const?
    case Wrap(b) => NormalBool(b) && !Immediate(b)
  }

  predicate Immediate(b: BExpr) {
    b.BTrue? || b.BFalse? || b.BUndef?
  }

  ghost predicate NormalBool(b: BExpr)
    decreases b
  {
    match b
    case Compare(_, l, r) => Normal(l) && Normal(r) && !l.Undef? && !r.Undef? && !(l.Const? && r.Const?) && l != r
    case NaryBool(_, ops) =>
      && (forall i :: 0 <= i < |ops| ==> NormalBool(ops[i]) && !ops[i].BTrue? && !ops[i].BFalse?)
      && (exists i :: 0 <= i < |ops| && !Immediate(ops[i]))
    case Not(a) => a.NaryBool? && NormalBool(a)
    case _ => true
  }

  lemma {:induction false} ReadsMember(ops: seq<IExpr>, i: nat)
    requires i < |ops|
    ensures Reads(ops[i]) <= ReadsAll(ops) && Cells(ops[i]) <= CellsAll(ops)
    decreases |ops|
  {
    if i > 0 {
      ReadsMember(ops[1..], i - 1);
    }
  }

  lemma {:induction false} ReadsMemberBool(ops: seq<BExpr>, i: nat)
    requires i < |ops|
    ensures ReadsBool(ops[i]) <= ReadsAllBool(ops) && CellsBool(ops[i]) <= CellsAllBool(ops)
    decreases |ops|
  {
    if i > 0 {
      ReadsMemberBool(ops[1..], i - 1);
    }
  }

  /** A normal expression that reads nothing is a constant or undefined. */
  lemma {:induction false} GroundIsConst(e: IExpr)
    requires Normal(e) && Reads(e) == {}
    ensures e.Const? || e.Undef?
    decreases e
  {
    match e
    case Nary(_, ops) =>
      var i :| 0 <= i < |ops| && !ops[i].Const?;
      ReadsMember(ops, i);
      GroundIsConst(ops[i]);
    case Binary(_, l, r) =>
      GroundIsConst(l);
      GroundIsConst(r);
    case BitComp(x) =>
      GroundIsConst(x);
    case Array(_, index) =>
      GroundIsConst(index);
    case Wrap(b) =>
      GroundIsImmediate(b);
    case _ =>
  }

  lemma {:induction false} GroundIsImmediate(b: BExpr)
    requires NormalBool(b) && ReadsBool(b) == {}
    ensures Immediate(b)
    decreases b
  {
    match b
    case Compare(_, l, r) =>
      GroundIsConst(l);
      GroundIsConst(r);
    case NaryBool(_, ops) =>
      var i :| 0 <= i < |ops| && !Immediate(ops[i]);
      ReadsMemberBool(ops, i);
      GroundIsImmediate(ops[i]);
    case Not(a) =>
      GroundIsImmediate(a);
    case _ =>
  }

  ghost predicate AllNormal(xs: seq<IExpr>) {
    forall i :: 0 <= i < |xs| ==> Normal(xs[i])
  }

  /** What was gathered from normal operands: normal, undefined nowhere, constant nowhere. */
  ghost predicate GatheredNormal(g: Gathered) {
    forall i :: 0 <= i < |g.flat| ==> Normal(g.flat[i]) && !g.flat[i].Undef? && !g.flat[i].Const?
  }

  lemma {:induction false} GatherInnerNormal(plus: bool, g: Gathered, ops: seq<IExpr>)
    requires GatheredNormal(g) && forall i :: 0 <= i < |ops| ==> Normal(ops[i]) && !ops[i].Undef?
    ensures GatheredNormal(GatherInner(plus, g, ops))
    decreases |ops|
  {
    if ops != [] {
      GatherInnerNormal(plus, g, ops[..|ops| - 1]);
    }
  }

  lemma {:induction false} GatherNormal(plus: bool, xs: seq<IExpr>)
    requires AllNormal(xs)
    ensures GatheredNormal(Gather(plus, xs))
    decreases |xs|
  {
    if xs != [] {
      var n := |xs| - 1;
      GatherNormal(plus, xs[..n]);
      if xs[n].Nary? && xs[n].plus == plus {
        GatherInnerNormal(plus, Gather(plus, xs[..n]), xs[n].ops);
      }
    }
  }

  lemma NaryOfNormal(plus: bool, xs: seq<IExpr>)
    requires AllNormal(xs)
    ensures Normal(NaryOf(plus, xs))
  {
    GatherNormal(plus, xs);
    var r := NaryOf(plus, xs);
    if r.Nary? && |Gather(plus, xs).flat| > 0 {
      var i := 0;
      assert r == Gather(plus, xs).flat[0] || !r.ops[i].Const?;
    }
  }

  lemma {:induction false} SplicedNormal(conj: bool, xs: seq<BExpr>)
    requires Decided(!conj) !in xs && forall i :: 0 <= i < |xs| ==> NormalBool(xs[i])
    ensures forall x :: x in Spliced(conj, xs) ==> NormalBool(x) && !x.BTrue? && !x.BFalse?
    decreases |xs|
  {
    if xs != [] {
      SplicedNormal(conj, xs[..|xs| - 1]);
      assert xs[|xs| - 1] in xs;
    }
  }

  lemma {:induction false} DeduplicatedDistinct(xs: seq<BExpr>)
    ensures forall i, j :: 0 <= i < j < |Deduplicated(xs)| ==> Deduplicated(xs)[i] != Deduplicated(xs)[j]
    decreases |xs|
  {
    if xs != [] {
      DeduplicatedDistinct(xs[..|xs| - 1]);
    }
  }

  lemma NaryBoolOfNormal(conj: bool, xs: seq<BExpr>)
    requires forall i :: 0 <= i < |xs| ==> NormalBool(xs[i])
    ensures NormalBool(NaryBoolOf(conj, xs))
  {
    if Decided(!conj) !in xs {
      SplicedNormal(conj, xs);
      var flat := Deduplicated(Spliced(conj, xs));
      DeduplicatedDistinct(Spliced(conj, xs));
      forall i | 0 <= i < |flat|
        ensures NormalBool(flat[i]) && !flat[i].BTrue? && !flat[i].BFalse?
      {
        assert flat[i] in flat;
      }
      if |flat| >= 2 {
        assert flat[0] != flat[1];
        assert !Immediate(flat[0]) || !Immediate(flat[1]);
      }
    }
  }

  lemma NegNormal(b: BExpr)
    requires NormalBool(b)
    ensures NormalBool(Neg(b))
  {
  }

  /** Substituting a constant or ⊥ keeps expressions normal. */
  lemma {:induction false} SubstNormal(e: IExpr, sub: IExpr, v: IExpr)
    requires Normal(e) && Normal(v)
    ensures Normal(Subst(e, sub, v))
    decreases e
  {
    if e != sub {
      match e
      case Nary(plus, ops) =>
        var ops' := SubstAll(ops, sub, v);
        forall i | 0 <= i < |ops|
          ensures Normal(ops'[i])
        {
          SubstNormal(ops[i], sub, v);
        }
        NaryOfNormal(plus, ops');
      case Binary(op, l, r) =>
        SubstNormal(l, sub, v);
        SubstNormal(r, sub, v);
      case BitComp(x) =>
        SubstNormal(x, sub, v);
      case Array(cells, index) =>
        SubstNormal(index, sub, v);
      case Wrap(b) =>
        SubstBoolNormal(b, sub, v);
      case _ =>
    }
  }

  lemma {:induction false} SubstBoolNormal(b: BExpr, sub: IExpr, v: IExpr)
    requires NormalBool(b) && Normal(v)
    ensures NormalBool(SubstBool(b, sub, v))
    decreases b
  {
    match b
    case Compare(op, l, r) =>
      SubstNormal(l, sub, v);
      SubstNormal(r, sub, v);
    case NaryBool(conj, ops) =>
      var ops' := SubstAllBool(ops, sub, v);
      forall i | 0 <= i < |ops|
        ensures NormalBool(ops'[i])
      {
        SubstBoolNormal(ops[i], sub, v);
      }
      NaryBoolOfNormal(conj, ops');
    case Not(a) =>
      SubstBoolNormal(a, sub, v);
      NegNormal(SubstBool(a, sub, v));
    case _ =>
  }

  // ----- Size -----

  /** The nodes of an expression, constants apart; an array access counts twice. */
  function Size(e: IExpr): nat
    decreases e
  {
    match e
    case Undef => 0
    case Const(_) => 0
    case Var(_) => 1
    case Nary(_, ops) => 1 + SizeAll(ops)
    case Binary(_, l, r) => 1 + Size(l) + Size(r)
    case BitComp(x) => 1 + Size(x)
    case Array(_, index) => 2 + Size(index)
    case Wrap(b) => 1 + SizeBool(b)
  }

  function SizeAll(ops: seq<IExpr>): nat
    decreases ops
  {
    if ops == [] then 0 else Size(ops[0]) + SizeAll(ops[1..])
  }

  function SizeBool(b: BExpr): nat
    decreases b
  {
    match b
    case Compare(_, l, r) => 1 + Size(l) + Size(r)
    case NaryBool(_, ops) => 1 + SizeAllBool(ops)
    case Not(a) => 1 + SizeBool(a)
    case _ => 0
  }

  function SizeAllBool(ops: seq<BExpr>): nat
    decreases ops
  {
    if ops == [] then 0 else SizeBool(ops[0]) + SizeAllBool(ops[1..])
  }

  // ----- Negation normal form -----

  /** Negating a normal expression is exact. */
  lemma NegExact(b: BExpr, env: seq<int>)
    requires NormalBool(b)
    ensures TruthOf(Neg(b), env) == Negated(TruthOf(b, env))
  {
  }

  function Depth(b: BExpr): nat
    decreases b
  {
    match b
    case NaryBool(_, ops) => 1 + DepthAll(ops)
    case Not(a) => 1 + Depth(a)
    case _ => 0
  }

  function DepthAll(ops: seq<BExpr>): nat
    decreases ops
  {
    if ops == [] then 0
    else if Depth(ops[0]) > DepthAll(ops[1..]) then Depth(ops[0]) else DepthAll(ops[1..])
  }

  /** Drive negations to the comparisons: De Morgan. `Push(b, true)` is for the negation of `b`. */
  function PushNegations(b: BExpr): BExpr
    decreases Depth(b), 0
  {
    match b
    case Not(a) =>
      (match a
       case NaryBool(conj, ops) =>
         assert Depth(b) == 1 + Depth(a) == 2 + DepthAll(ops);
         NaryBoolOf(!conj, PushAll(ops, true))
       case _ => b)
    case NaryBool(conj, ops) => NaryBoolOf(conj, PushAll(ops, false))
    case _ => b
  }

  function PushAll(ops: seq<BExpr>, negate: bool): (r: seq<BExpr>)
    ensures |r| == |ops|
    decreases DepthAll(ops) + (if negate then 1 else 0), 1, |ops|
  {
    if ops == [] then []
    else
      NegDepth(ops[0]);
      [PushNegations(if negate then Neg(ops[0]) else ops[0])] + PushAll(ops[1..], negate)
  }

  lemma NegDepth(b: BExpr)
    ensures Depth(Neg(b)) <= Depth(b) + 1
  {
  }

  ghost predicate NegationFree(b: BExpr)
    decreases b
  {
    match b
    case NaryBool(_, ops) => forall i :: 0 <= i < |ops| ==> NegationFree(ops[i])
    case Not(_) => false
    case _ => true
  }

  /** Pushing negations is exact in all three truth values, and leaves no negation. */
  lemma {:induction false} PushExact(b: BExpr, env: seq<int>)
    requires NormalBool(b)
    ensures TruthOf(PushNegations(b), env) == TruthOf(b, env)
    ensures NegationFree(PushNegations(b))
    decreases Depth(b), 0
  {
    match b
    case Not(a) =>
      var pushed := PushAll(a.bops, true);
      assert Depth(b) == 1 + Depth(a) == 2 + DepthAll(a.bops);
      PushAllExact(a.conj, a.bops, true, env);
      NaryBoolOfExact(!a.conj, pushed, env);
      NaryNegationFree(!a.conj, pushed);
    case NaryBool(conj, ops) =>
      var pushed := PushAll(ops, false);
      PushAllExact(conj, ops, false, env);
      NaryBoolOfExact(conj, pushed, env);
      NaryNegationFree(conj, pushed);
    case _ =>
  }

  lemma DeMorgan(conj: bool, a: Truth, b: Truth)
    ensures Negated(Both(conj, a, b)) == Both(!conj, Negated(a), Negated(b))
  {
  }

  lemma {:induction false} PushAllExact(conj: bool, ops: seq<BExpr>, negate: bool, env: seq<int>)
    requires forall i :: 0 <= i < |ops| ==> NormalBool(ops[i])
    ensures !negate ==> TruthAll(conj, PushAll(ops, negate), env) == TruthAll(conj, ops, env)
    ensures negate ==> TruthAll(!conj, PushAll(ops, negate), env) == Negated(TruthAll(conj, ops, env))
    ensures forall i :: 0 <= i < |ops| ==> NegationFree(PushAll(ops, negate)[i])
    decreases DepthAll(ops) + (if negate then 1 else 0), 1, |ops|
  {
    if ops != [] {
      NegDepth(ops[0]);
      NegNormal(ops[0]);
      NegExact(ops[0], env);
      PushExact(if negate then Neg(ops[0]) else ops[0], env);
      var rest := ops[1..];
      PushAllExact(conj, rest, negate, env);
      var pushed := PushAll(ops, negate);
      assert pushed[1..] == PushAll(rest, negate);
      DeMorgan(conj, TruthOf(ops[0], env), TruthAll(conj, rest, env));
      forall i | 0 <= i < |ops|
        ensures NegationFree(pushed[i])
      {
        if i > 0 {
          assert pushed[i] == PushAll(rest, negate)[i - 1];
        }
      }
    }
  }

  lemma {:induction false} SplicedNegationFree(conj: bool, xs: seq<BExpr>)
    requires forall i :: 0 <= i < |xs| ==> NegationFree(xs[i])
    ensures forall x :: x in Spliced(conj, xs) ==> NegationFree(x)
    decreases |xs|
  {
    if xs != [] {
      SplicedNegationFree(conj, xs[..|xs| - 1]);
    }
  }

  lemma NaryNegationFree(conj: bool, xs: seq<BExpr>)
    requires forall i :: 0 <= i < |xs| ==> NegationFree(xs[i])
    ensures NegationFree(NaryBoolOf(conj, xs))
  {
    SplicedNegationFree(conj, xs);
    var flat := Deduplicated(Spliced(conj, xs));
    forall i | 0 <= i < |flat|
      ensures NegationFree(flat[i])
    {
      assert flat[i] in flat;
    }
  }
}
