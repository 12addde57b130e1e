/**
 Substituting a value shrinks an expression: what makes currying terminate
 (src/lia_int.cc, src/lia_bool.cc).
 */
module Shrinking {
  import opened Leaves
  import opened Expressions
  import opened Substitutions

  /** `sub` is a subexpression of `e`. */
  ghost predicate Occurs(e: IExpr, sub: IExpr)
    decreases e
  {
    || e == sub
    || match e
       case Nary(_, ops) => exists i :: 0 <= i < |ops| && Occurs(ops[i], sub)
       case Binary(_, l, r) => Occurs(l, sub) || Occurs(r, sub)
       case BitComp(x) => Occurs(x, sub)
       case Array(_, index) => Occurs(index, sub)
       case Wrap(b) => OccursBool(b, sub)
       case _ => false
  }

  ghost predicate OccursBool(b: BExpr, sub: IExpr)
    decreases b
  {
    match b
    case Compare(_, l, r) => Occurs(l, sub) || Occurs(r, sub)
    case NaryBool(_, ops) => exists i :: 0 <= i < |ops| && OccursBool(ops[i], sub)
    case Not(a) => OccursBool(a, sub)
    case _ => false
  }

  lemma {:induction false} SizeAllConcat(xs: seq<IExpr>, ys: seq<IExpr>)
    ensures SizeAll(xs + ys) == SizeAll(xs) + SizeAll(ys)
    decreases |xs|
  {
    if xs == [] {
      assert xs + ys == ys;
    } else {
      SizeAllConcat(xs[1..], ys);
      assert (xs + ys)[1..] == xs[1..] + ys;
    }
  }

  lemma SizeAllOne(x: IExpr)
    ensures SizeAll([x]) == Size(x)
  {
    assert SizeAll([x][1..]) == 0;
  }

  lemma {:induction false} SizeAllBoolConcat(xs: seq<BExpr>, ys: seq<BExpr>)
    ensures SizeAllBool(xs + ys) == SizeAllBool(xs) + SizeAllBool(ys)
    decreases |xs|
  {
    if xs == [] {
      assert xs + ys == ys;
    } else {
      SizeAllBoolConcat(xs[1..], ys);
      assert (xs + ys)[1..] == xs[1..] + ys;
    }
  }

  lemma SizeAllBoolOne(x: BExpr)
    ensures SizeAllBool([x]) == SizeBool(x)
  {
    assert SizeAllBool([x][1..]) == 0;
  }

  lemma {:induction false} GatherInnerSize(plus: bool, g: Gathered, ops: seq<IExpr>)
    ensures SizeAll(GatherInner(plus, g, ops).flat) <= SizeAll(g.flat) + SizeAll(ops)
    decreases |ops|
  {
    if ops != [] {
      var n := |ops| - 1;
      var h := GatherInner(plus, g, ops[..n]);
      GatherInnerSize(plus, g, ops[..n]);
      assert ops == ops[..n] + [ops[n]];
      SizeAllConcat(ops[..n], [ops[n]]);
      SizeAllOne(ops[n]);
      SizeAllConcat(h.flat, [ops[n]]);
    }
  }

  lemma {:induction false} GatherSize(plus: bool, xs: seq<IExpr>)
    ensures SizeAll(Gather(plus, xs).flat) <= SizeAll(xs)
    decreases |xs|
  {
    if xs != [] {
      var n := |xs| - 1;
      var g, x := Gather(plus, xs[..n]), xs[n];
      GatherSize(plus, xs[..n]);
      assert xs == xs[..n] + [x];
      SizeAllConcat(xs[..n], [x]);
      SizeAllOne(x);
      SizeAllConcat(g.flat, [x]);
      if x.Nary? {
        GatherInnerSize(plus, g, x.ops);
      }
    }
  }

  lemma NaryOfSize(plus: bool, xs: seq<IExpr>)
    ensures Size(NaryOf(plus, xs)) <= 1 + SizeAll(xs)
  {
    var g := Gather(plus, xs);
    GatherSize(plus, xs);
    SizeAllConcat(g.flat, [Const(g.acc)]);
    SizeAllOne(Const(g.acc));
    if !g.poisoned && |g.flat| == 1 {
      assert g.flat == [g.flat[0]];
      SizeAllOne(g.flat[0]);
    }
    if !g.poisoned && |g.flat| == 0 {
      assert g.flat + [Const(g.acc)] == [Const(g.acc)];
    }
  }

  lemma {:induction false} SplicedSize(conj: bool, xs: seq<BExpr>)
    ensures SizeAllBool(Spliced(conj, xs)) <= SizeAllBool(xs)
    decreases |xs|
  {
    if xs != [] {
      var n := |xs| - 1;
      var before, x := Spliced(conj, xs[..n]), xs[n];
      SplicedSize(conj, xs[..n]);
      assert xs == xs[..n] + [x];
      SizeAllBoolConcat(xs[..n], [x]);
      SizeAllBoolOne(x);
      SizeAllBoolConcat(before, [x]);
      if x.NaryBool? {
        SizeAllBoolConcat(before, x.bops);
      }
    }
  }

  lemma {:induction false} DeduplicatedSize(xs: seq<BExpr>)
    ensures SizeAllBool(Deduplicated(xs)) <= SizeAllBool(xs)
    decreases |xs|
  {
    if xs != [] {
      var n := |xs| - 1;
      DeduplicatedSize(xs[..n]);
      assert xs == xs[..n] + [xs[n]];
      SizeAllBoolConcat(xs[..n], [xs[n]]);
      SizeAllBoolOne(xs[n]);
      SizeAllBoolConcat(Deduplicated(xs[..n]), [xs[n]]);
    }
  }

  lemma NaryBoolOfSize(conj: bool, xs: seq<BExpr>)
    ensures SizeBool(NaryBoolOf(conj, xs)) <= 1 + SizeAllBool(xs)
  {
    var flat := Deduplicated(Spliced(conj, xs));
    SplicedSize(conj, xs);
    DeduplicatedSize(Spliced(conj, xs));
    if |flat| == 1 {
      assert flat == [flat[0]];
      SizeAllBoolOne(flat[0]);
    }
  }

  lemma NegSize(b: BExpr)
    ensures SizeBool(Neg(b)) <= 1 + SizeBool(b)
  {
  }

  // ----- Substitution -----

  /** A value in the place of a subexpression: never larger, smaller where it occurs. */
  lemma {:induction false} SubstShrinks(e: IExpr, sub: IExpr, v: IExpr)
    requires Size(v) == 0 && Size(sub) > 0
    ensures Size(Subst(e, sub, v)) <= Size(e) && (Occurs(e, sub) ==> Size(Subst(e, sub, v)) < Size(e))
    decreases e, 1
  {
    if e != sub {
      match e
      case Nary(plus, ops) =>
        SubstAllShrinks(ops, sub, v);
        NaryOfSize(plus, SubstAll(ops, sub, v));
      case Binary(_, l, r) =>
        SubstShrinks(l, sub, v);
        SubstShrinks(r, sub, v);
      case BitComp(x) =>
        SubstShrinks(x, sub, v);
      case Array(_, index) =>
        SubstShrinks(index, sub, v);
      case Wrap(b) =>
        SubstBoolShrinks(b, sub, v);
      case _ =>
    }
  }

  lemma {:induction false} SubstAllShrinks(ops: seq<IExpr>, sub: IExpr, v: IExpr)
    requires Size(v) == 0 && Size(sub) > 0
    ensures SizeAll(SubstAll(ops, sub, v)) <= SizeAll(ops)
    ensures (exists i :: 0 <= i < |ops| && Occurs(ops[i], sub)) ==> SizeAll(SubstAll(ops, sub, v)) < SizeAll(ops)
    decreases ops, 0
  {
    if ops != [] {
      SubstShrinks(ops[0], sub, v);
      SubstAllShrinks(ops[1..], sub, v);
      assert SubstAll(ops, sub, v)[1..] == SubstAll(ops[1..], sub, v);
      if i :| 0 <= i < |ops| && Occurs(ops[i], sub) {
        assert i > 0 ==> Occurs(ops[1..][i - 1], sub);
      }
    }
  }

  lemma {:induction false} SubstBoolShrinks(b: BExpr, sub: IExpr, v: IExpr)
    requires Size(v) == 0 && Size(sub) > 0
    ensures SizeBool(SubstBool(b, sub, v)) <= SizeBool(b)
    ensures OccursBool(b, sub) ==> SizeBool(SubstBool(b, sub, v)) < SizeBool(b)
    decreases b, 1
  {
    match b
    case Compare(_, l, r) =>
      SubstShrinks(l, sub, v);
      SubstShrinks(r, sub, v);
    case NaryBool(conj, ops) =>
      SubstAllBoolShrinks(ops, sub, v);
      NaryBoolOfSize(conj, SubstAllBool(ops, sub, v));
    case Not(a) =>
      SubstBoolShrinks(a, sub, v);
      NegSize(SubstBool(a, sub, v));
    case _ =>
  }

  lemma {:induction false} SubstAllBoolShrinks(ops: seq<BExpr>, sub: IExpr, v: IExpr)
    requires Size(v) == 0 && Size(sub) > 0
    ensures SizeAllBool(SubstAllBool(ops, sub, v)) <= SizeAllBool(ops)
    ensures (exists i :: 0 <= i < |ops| && OccursBool(ops[i], sub)) ==>
              SizeAllBool(SubstAllBool(ops, sub, v)) < SizeAllBool(ops)
    decreases ops, 0
  {
    if ops != [] {
      SubstBoolShrinks(ops[0], sub, v);
      SubstAllBoolShrinks(ops[1..], sub, v);
      assert SubstAllBool(ops, sub, v)[1..] == SubstAllBool(ops[1..], sub, v);
      if i :| 0 <= i < |ops| && OccursBool(ops[i], sub) {
        assert i > 0 ==> OccursBool(ops[1..][i - 1], sub);
      }
    }
  }

  // ----- Re-rooting -----

  lemma {:induction false} ShiftSize(e: IExpr, delta: int)
    ensures Size(Shift(e, delta)) <= Size(e)
    decreases e, 1
  {
    match e
    case Nary(plus, ops) =>
      ShiftAllSize(ops, delta);
      NaryOfSize(plus, ShiftAll(ops, delta));
    case Binary(_, l, r) =>
      ShiftSize(l, delta);
      ShiftSize(r, delta);
    case BitComp(x) =>
      ShiftSize(x, delta);
    case Array(_, index) =>
      ShiftSize(index, delta);
    case Wrap(b) =>
      ShiftBoolSize(b, delta);
    case _ =>
  }

  lemma {:induction false} ShiftAllSize(ops: seq<IExpr>, delta: int)
    ensures SizeAll(ShiftAll(ops, delta)) <= SizeAll(ops)
    decreases ops, 0
  {
    if ops != [] {
      ShiftSize(ops[0], delta);
      ShiftAllSize(ops[1..], delta);
      assert ShiftAll(ops, delta)[1..] == ShiftAll(ops[1..], delta);
    }
  }

  lemma {:induction false} ShiftBoolSize(b: BExpr, delta: int)
    ensures SizeBool(ShiftBool(b, delta)) <= SizeBool(b)
    decreases b, 1
  {
    match b
    case Compare(_, l, r) =>
      ShiftSize(l, delta);
      ShiftSize(r, delta);
    case NaryBool(conj, ops) =>
      ShiftAllBoolSize(ops, delta);
      NaryBoolOfSize(conj, ShiftAllBool(ops, delta));
    case Not(a) =>
      ShiftBoolSize(a, delta);
      NegSize(ShiftBool(a, delta));
    case _ =>
  }

  lemma {:induction false} ShiftAllBoolSize(ops: seq<BExpr>, delta: int)
    ensures SizeAllBool(ShiftAllBool(ops, delta)) <= SizeAllBool(ops)
    decreases ops, 0
  {
    if ops != [] {
      ShiftBoolSize(ops[0], delta);
      ShiftAllBoolSize(ops[1..], delta);
      assert ShiftAllBool(ops, delta)[1..] == ShiftAllBool(ops[1..], delta);
    }
  }

  // ----- Reads -----

  /** What is read occurs as a variable. */
  lemma {:induction false} ReadOccurs(e: IExpr, p: int)
    requires p in Reads(e)
    ensures Occurs(e, Var(p))
    decreases e, 1
  {
    match e
    case Nary(_, ops) =>
      var i := ReadAllOccurs(ops, p);
    case Binary(_, l, r) =>
      if p in Reads(l) {
        ReadOccurs(l, p);
      } else {
        ReadOccurs(r, p);
      }
    case BitComp(x) =>
      ReadOccurs(x, p);
    case Array(_, index) =>
      ReadOccurs(index, p);
    case Wrap(b) =>
      ReadOccursBool(b, p);
    case _ =>
  }

  lemma {:induction false} ReadAllOccurs(ops: seq<IExpr>, p: int) returns (i: nat)
    requires p in ReadsAll(ops)
    ensures i < |ops| && Occurs(ops[i], Var(p))
    decreases ops, 0
  {
    if p in Reads(ops[0]) {
      ReadOccurs(ops[0], p);
      i := 0;
    } else {
      var j := ReadAllOccurs(ops[1..], p);
      i := j + 1;
    }
  }

  lemma {:induction false} ReadOccursBool(b: BExpr, p: int)
    requires p in ReadsBool(b)
    ensures OccursBool(b, Var(p))
    decreases b, 1
  {
    match b
    case Compare(_, l, r) =>
      if p in Reads(l) {
        ReadOccurs(l, p);
      } else {
        ReadOccurs(r, p);
      }
    case NaryBool(_, ops) =>
      var i := ReadAllOccursBool(ops, p);
    case Not(a) =>
      ReadOccursBool(a, p);
  }

  lemma {:induction false} ReadAllOccursBool(ops: seq<BExpr>, p: int) returns (i: nat)
    requires p in ReadsAllBool(ops)
    ensures i < |ops| && OccursBool(ops[i], Var(p))
    decreases ops, 0
  {
    if p in ReadsBool(ops[0]) {
      ReadOccursBool(ops[0], p);
      i := 0;
    } else {
      var j := ReadAllOccursBool(ops[1..], p);
      i := j + 1;
    }
  }

  /** An expression that reads something counts, and for more than one node if it is not a variable. */
  lemma {:induction false} ReadsCount(e: IExpr)
    requires Reads(e) != {}
    ensures Size(e) >= 1 && (!e.Var? ==> Size(e) >= 2)
    decreases e, 1
  {
    match e
    case Nary(_, ops) =>
      ReadsAllCount(ops);
    case Binary(_, l, r) =>
      if Reads(l) != {} {
        ReadsCount(l);
      } else {
        ReadsCount(r);
      }
    case BitComp(x) =>
      ReadsCount(x);
    case Array(_, index) =>
      ReadsCount(index);
    case Wrap(b) =>
      ReadsBoolCount(b);
    case _ =>
  }

  lemma {:induction false} ReadsAllCount(ops: seq<IExpr>)
    requires ReadsAll(ops) != {}
    ensures SizeAll(ops) >= 1
    decreases ops, 0
  {
    if Reads(ops[0]) != {} {
      ReadsCount(ops[0]);
    } else {
      ReadsAllCount(ops[1..]);
    }
  }

  lemma {:induction false} ReadsBoolCount(b: BExpr)
    requires ReadsBool(b) != {}
    ensures SizeBool(b) >= 1
    decreases b, 1
  {
  }
}
