/**
 Which positions an expression touches, and that its value depends on no others
 (src/lia_int.cc, src/lia_bool.cc).
 */
module Positions {
  import opened Leaves
  import opened Expressions
  import opened Substitutions

  // ----- Positions of built expressions -----

  ghost predicate AllSpan(xs: seq<IExpr>, lo: int, hi: int, arrays: bool) {
    forall i :: 0 <= i < |xs| ==> Spans(xs[i], lo, hi, arrays)
  }

  ghost predicate AllSpanBool(xs: seq<BExpr>, lo: int, hi: int, arrays: bool) {
    forall i :: 0 <= i < |xs| ==> SpansBool(xs[i], lo, hi, arrays)
  }

  lemma {:induction false} GatherInnerSpans(plus: bool, g: Gathered, ops: seq<IExpr>, lo: int, hi: int, arrays: bool)
    requires AllSpan(g.flat, lo, hi, arrays) && AllSpan(ops, lo, hi, arrays)
    ensures AllSpan(GatherInner(plus, g, ops).flat, lo, hi, arrays)
    decreases |ops|
  {
    if ops != [] {
      GatherInnerSpans(plus, g, ops[..|ops| - 1], lo, hi, arrays);
    }
  }

  lemma {:induction false} GatherSpans(plus: bool, xs: seq<IExpr>, lo: int, hi: int, arrays: bool)
    requires AllSpan(xs, lo, hi, arrays)
    ensures AllSpan(Gather(plus, xs).flat, lo, hi, arrays)
    decreases |xs|
  {
    if xs != [] {
      var n := |xs| - 1;
      GatherSpans(plus, xs[..n], lo, hi, arrays);
      if xs[n].Nary? {
        GatherInnerSpans(plus, Gather(plus, xs[..n]), xs[n].ops, lo, hi, arrays);
      }
    }
  }

  lemma NaryOfSpans(plus: bool, xs: seq<IExpr>, lo: int, hi: int, arrays: bool)
    requires AllSpan(xs, lo, hi, arrays)
    ensures Spans(NaryOf(plus, xs), lo, hi, arrays)
  {
    GatherSpans(plus, xs, lo, hi, arrays);
  }

  lemma {:induction false} SplicedSpans(conj: bool, xs: seq<BExpr>, lo: int, hi: int, arrays: bool)
    requires AllSpanBool(xs, lo, hi, arrays)
    ensures AllSpanBool(Spliced(conj, xs), lo, hi, arrays)
    decreases |xs|
  {
    if xs != [] {
      SplicedSpans(conj, xs[..|xs| - 1], lo, hi, arrays);
    }
  }

  lemma NaryBoolOfSpans(conj: bool, xs: seq<BExpr>, lo: int, hi: int, arrays: bool)
    requires AllSpanBool(xs, lo, hi, arrays)
    ensures SpansBool(NaryBoolOf(conj, xs), lo, hi, arrays)
  {
    SplicedSpans(conj, xs, lo, hi, arrays);
    var flat := Deduplicated(Spliced(conj, xs));
    forall i | 0 <= i < |flat|
      ensures SpansBool(flat[i], lo, hi, arrays)
    {
      assert flat[i] in flat;
      assert flat[i] in Spliced(conj, xs);
    }
  }

  lemma NegSpans(b: BExpr, lo: int, hi: int, arrays: bool)
    requires SpansBool(b, lo, hi, arrays)
    ensures SpansBool(Neg(b), lo, hi, arrays)
  {
  }

  // ----- What built expressions touch -----

  ghost predicate AllTouch(xs: seq<IExpr>, s: set<int>) {
    forall i :: 0 <= i < |xs| ==> Touches(xs[i]) <= s
  }

  ghost predicate AllTouchBool(xs: seq<BExpr>, s: set<int>) {
    forall i :: 0 <= i < |xs| ==> ReadsBool(xs[i]) + CellsBool(xs[i]) <= s
  }

  lemma {:induction false} TouchesAll(xs: seq<IExpr>, s: set<int>)
    ensures AllTouch(xs, s) <==> ReadsAll(xs) + CellsAll(xs) <= s
    decreases |xs|
  {
    if xs != [] {
      TouchesAll(xs[1..], s);
      assert AllTouch(xs, s) <==> Touches(xs[0]) <= s && AllTouch(xs[1..], s) by {
        assert xs == [xs[0]] + xs[1..];
      }
    }
  }

  lemma {:induction false} TouchesAllBool(xs: seq<BExpr>, s: set<int>)
    ensures AllTouchBool(xs, s) <==> ReadsAllBool(xs) + CellsAllBool(xs) <= s
    decreases |xs|
  {
    if xs != [] {
      TouchesAllBool(xs[1..], s);
      assert AllTouchBool(xs, s) <==> ReadsBool(xs[0]) + CellsBool(xs[0]) <= s && AllTouchBool(xs[1..], s) by {
        assert xs == [xs[0]] + xs[1..];
      }
    }
  }

  lemma {:induction false} GatherInnerTouches(plus: bool, g: Gathered, ops: seq<IExpr>, s: set<int>)
    requires AllTouch(g.flat, s) && AllTouch(ops, s)
    ensures AllTouch(GatherInner(plus, g, ops).flat, s)
    decreases |ops|
  {
    if ops != [] {
      GatherInnerTouches(plus, g, ops[..|ops| - 1], s);
    }
  }

  lemma {:induction false} GatherTouches(plus: bool, xs: seq<IExpr>, s: set<int>)
    requires AllTouch(xs, s)
    ensures AllTouch(Gather(plus, xs).flat, s)
    decreases |xs|
  {
    if xs != [] {
      var n := |xs| - 1;
      GatherTouches(plus, xs[..n], s);
      if xs[n].Nary? {
        TouchesAll(xs[n].ops, s);
        GatherInnerTouches(plus, Gather(plus, xs[..n]), xs[n].ops, s);
      }
    }
  }

  lemma NaryOfTouches(plus: bool, xs: seq<IExpr>, s: set<int>)
    requires AllTouch(xs, s)
    ensures Touches(NaryOf(plus, xs)) <= s
  {
    var g := Gather(plus, xs);
    GatherTouches(plus, xs, s);
    var flat := if g.acc != Neutral(plus) || g.flat == [] then g.flat + [Const(g.acc)] else g.flat;
    TouchesAll(flat, s);
  }

  lemma {:induction false} SplicedTouches(conj: bool, xs: seq<BExpr>, s: set<int>)
    requires AllTouchBool(xs, s)
    ensures AllTouchBool(Spliced(conj, xs), s)
    decreases |xs|
  {
    if xs != [] {
      var n := |xs| - 1;
      SplicedTouches(conj, xs[..n], s);
      if xs[n].NaryBool? {
        TouchesAllBool(xs[n].bops, s);
      }
    }
  }

  lemma NaryBoolOfTouches(conj: bool, xs: seq<BExpr>, s: set<int>)
    requires AllTouchBool(xs, s)
    ensures ReadsBool(NaryBoolOf(conj, xs)) + CellsBool(NaryBoolOf(conj, xs)) <= s
  {
    SplicedTouches(conj, xs, s);
    var flat := Deduplicated(Spliced(conj, xs));
    forall i | 0 <= i < |flat|
      ensures ReadsBool(flat[i]) + CellsBool(flat[i]) <= s
    {
      assert flat[i] in flat;
      assert flat[i] in Spliced(conj, xs);
    }
    TouchesAllBool(flat, s);
  }

  /** A value in the place of a subexpression touches nothing new. */
  lemma {:induction false} SubstTouches(e: IExpr, sub: IExpr, v: IExpr, s: set<int>)
    requires Touches(e) <= s && Touches(v) == {}
    ensures Touches(Subst(e, sub, v)) <= s
    decreases e
  {
    if e != sub {
      match e
      case Nary(plus, ops) =>
        TouchesAll(ops, s);
        forall i | 0 <= i < |ops|
          ensures Touches(SubstAll(ops, sub, v)[i]) <= s
        {
          SubstTouches(ops[i], sub, v, s);
        }
        NaryOfTouches(plus, SubstAll(ops, sub, v), s);
      case Binary(_, l, r) =>
        SubstTouches(l, sub, v, s);
        SubstTouches(r, sub, v, s);
      case BitComp(x) =>
        SubstTouches(x, sub, v, s);
      case Array(cells, index) =>
        SubstTouches(index, sub, v, s);
      case Wrap(b) =>
        SubstBoolTouches(b, sub, v, s);
      case _ =>
    }
  }

  lemma {:induction false} SubstBoolTouches(b: BExpr, sub: IExpr, v: IExpr, s: set<int>)
    requires ReadsBool(b) + CellsBool(b) <= s && Touches(v) == {}
    ensures ReadsBool(SubstBool(b, sub, v)) + CellsBool(SubstBool(b, sub, v)) <= s
    decreases b
  {
    match b
    case Compare(_, l, r) =>
      SubstTouches(l, sub, v, s);
      SubstTouches(r, sub, v, s);
    case NaryBool(conj, ops) =>
      TouchesAllBool(ops, s);
      forall i | 0 <= i < |ops|
        ensures ReadsBool(SubstAllBool(ops, sub, v)[i]) + CellsBool(SubstAllBool(ops, sub, v)[i]) <= s
      {
        SubstBoolTouches(ops[i], sub, v, s);
      }
      NaryBoolOfTouches(conj, SubstAllBool(ops, sub, v), s);
    case Not(a) =>
      SubstBoolTouches(a, sub, v, s);
    case _ =>
  }

  /** Re-rooted positions. */
  ghost function MovedSet(s: set<int>, delta: int): set<int> {
    set p | p in s :: p + delta
  }

  lemma {:induction false} ShiftTouches(e: IExpr, delta: int, s: set<int>)
    requires Touches(e) <= s
    ensures Touches(Shift(e, delta)) <= MovedSet(s, delta)
    decreases e
  {
    match e
    case Var(p) =>
      assert p in s;
    case Nary(plus, ops) =>
      TouchesAll(ops, s);
      forall i | 0 <= i < |ops|
        ensures Touches(ShiftAll(ops, delta)[i]) <= MovedSet(s, delta)
      {
        ShiftTouches(ops[i], delta, s);
      }
      NaryOfTouches(plus, ShiftAll(ops, delta), MovedSet(s, delta));
    case Binary(_, l, r) =>
      ShiftTouches(l, delta, s);
      ShiftTouches(r, delta, s);
    case BitComp(x) =>
      ShiftTouches(x, delta, s);
    case Array(cells, index) =>
      ShiftTouches(index, delta, s);
      forall i | 0 <= i < |cells|
        ensures Moved(cells, delta)[i] in MovedSet(s, delta)
      {
        assert cells[i] in cells;
        assert cells[i] in s;
      }
    case Wrap(b) =>
      ShiftBoolTouches(b, delta, s);
    case _ =>
  }

  lemma {:induction false} ShiftBoolTouches(b: BExpr, delta: int, s: set<int>)
    requires ReadsBool(b) + CellsBool(b) <= s
    ensures ReadsBool(ShiftBool(b, delta)) + CellsBool(ShiftBool(b, delta)) <= MovedSet(s, delta)
    decreases b
  {
    match b
    case Compare(_, l, r) =>
      ShiftTouches(l, delta, s);
      ShiftTouches(r, delta, s);
    case NaryBool(conj, ops) =>
      TouchesAllBool(ops, s);
      forall i | 0 <= i < |ops|
        ensures ReadsBool(ShiftAllBool(ops, delta)[i]) + CellsBool(ShiftAllBool(ops, delta)[i]) <= MovedSet(s, delta)
      {
        ShiftBoolTouches(ops[i], delta, s);
      }
      NaryBoolOfTouches(conj, ShiftAllBool(ops, delta), MovedSet(s, delta));
    case Not(a) =>
      ShiftBoolTouches(a, delta, s);
    case _ =>
  }

  lemma LooseSubst(cells: seq<int>, index: IExpr, sub: IExpr, v: IExpr)
    requires Loose(cells, index) && Touches(v) == {}
    ensures Loose(cells, Subst(index, sub, v))
  {
    SubstTouches(index, sub, v, Touches(index));
  }

  lemma LooseShift(cells: seq<int>, index: IExpr, delta: int)
    requires Loose(cells, index)
    ensures Loose(Moved(cells, delta), Shift(index, delta))
  {
    ShiftTouches(index, delta, Touches(index));
    forall q | q in Touches(Shift(index, delta))
      ensures exists i :: 0 <= i < |Moved(cells, delta)| && Moved(cells, delta)[i] != q
    {
      var i :| 0 <= i < |cells| && cells[i] != q - delta;
      assert Moved(cells, delta)[i] != q;
    }
  }

  // ----- Positions of residuals -----

  lemma {:induction false} SubstSpans(e: IExpr, sub: IExpr, v: IExpr, lo: int, hi: int, arrays: bool)
    requires Spans(e, lo, hi, arrays) && Spans(v, lo, hi, arrays) && Touches(v) == {}
    ensures Spans(Subst(e, sub, v), lo, hi, arrays)
    decreases e
  {
    if e != sub {
      match e
      case Nary(plus, ops) =>
        forall i | 0 <= i < |ops|
          ensures Spans(SubstAll(ops, sub, v)[i], lo, hi, arrays)
        {
          SubstSpans(ops[i], sub, v, lo, hi, arrays);
        }
        NaryOfSpans(plus, SubstAll(ops, sub, v), lo, hi, arrays);
      case Binary(_, l, r) =>
        SubstSpans(l, sub, v, lo, hi, arrays);
        SubstSpans(r, sub, v, lo, hi, arrays);
      case BitComp(x) =>
        SubstSpans(x, sub, v, lo, hi, arrays);
      case Array(cells, index) =>
        SubstSpans(index, sub, v, lo, hi, arrays);
        LooseSubst(cells, index, sub, v);
      case Wrap(b) =>
        SubstBoolSpans(b, sub, v, lo, hi, arrays);
      case _ =>
    }
  }

  lemma {:induction false} SubstBoolSpans(b: BExpr, sub: IExpr, v: IExpr, lo: int, hi: int, arrays: bool)
    requires SpansBool(b, lo, hi, arrays) && Spans(v, lo, hi, arrays) && Touches(v) == {}
    ensures SpansBool(SubstBool(b, sub, v), lo, hi, arrays)
    decreases b
  {
    match b
    case Compare(_, l, r) =>
      SubstSpans(l, sub, v, lo, hi, arrays);
      SubstSpans(r, sub, v, lo, hi, arrays);
    case NaryBool(conj, ops) =>
      forall i | 0 <= i < |ops|
        ensures SpansBool(SubstAllBool(ops, sub, v)[i], lo, hi, arrays)
      {
        SubstBoolSpans(ops[i], sub, v, lo, hi, arrays);
      }
      NaryBoolOfSpans(conj, SubstAllBool(ops, sub, v), lo, hi, arrays);
    case Not(a) =>
      SubstBoolSpans(a, sub, v, lo, hi, arrays);
      NegSpans(SubstBool(a, sub, v), lo, hi, arrays);
    case _ =>
  }

  /** Re-rooting moves every position and keeps the normal form. */
  lemma {:induction false} ShiftSpans(e: IExpr, delta: int, lo: int, hi: int, arrays: bool)
    requires Spans(e, lo, hi, arrays) && Normal(e)
    ensures Spans(Shift(e, delta), lo + delta, hi + delta, arrays) && Normal(Shift(e, delta))
    decreases e
  {
    match e
    case Nary(plus, ops) =>
      forall i | 0 <= i < |ops|
        ensures Spans(ShiftAll(ops, delta)[i], lo + delta, hi + delta, arrays) && Normal(ShiftAll(ops, delta)[i])
      {
        ShiftSpans(ops[i], delta, lo, hi, arrays);
      }
      NaryOfSpans(plus, ShiftAll(ops, delta), lo + delta, hi + delta, arrays);
      NaryOfNormal(plus, ShiftAll(ops, delta));
    case Binary(_, l, r) =>
      ShiftSpans(l, delta, lo, hi, arrays);
      ShiftSpans(r, delta, lo, hi, arrays);
    case BitComp(x) =>
      ShiftSpans(x, delta, lo, hi, arrays);
    case Array(cells, index) =>
      ShiftSpans(index, delta, lo, hi, arrays);
      LooseShift(cells, index, delta);
    case Wrap(b) =>
      ShiftBoolSpans(b, delta, lo, hi, arrays);
    case _ =>
  }

  lemma {:induction false} ShiftBoolSpans(b: BExpr, delta: int, lo: int, hi: int, arrays: bool)
    requires SpansBool(b, lo, hi, arrays) && NormalBool(b)
    ensures SpansBool(ShiftBool(b, delta), lo + delta, hi + delta, arrays) && NormalBool(ShiftBool(b, delta))
    decreases b
  {
    match b
    case Compare(_, l, r) =>
      ShiftSpans(l, delta, lo, hi, arrays);
      ShiftSpans(r, delta, lo, hi, arrays);
    case NaryBool(conj, ops) =>
      forall i | 0 <= i < |ops|
        ensures SpansBool(ShiftAllBool(ops, delta)[i], lo + delta, hi + delta, arrays)
        ensures NormalBool(ShiftAllBool(ops, delta)[i])
      {
        ShiftBoolSpans(ops[i], delta, lo, hi, arrays);
      }
      NaryBoolOfSpans(conj, ShiftAllBool(ops, delta), lo + delta, hi + delta, arrays);
      NaryBoolOfNormal(conj, ShiftAllBool(ops, delta));
    case Not(a) =>
      ShiftBoolSpans(a, delta, lo, hi, arrays);
      NegSpans(ShiftBool(a, delta), lo + delta, hi + delta, arrays);
      NegNormal(ShiftBool(a, delta));
    case _ =>
  }

  // ----- Spans and the sets of positions -----

  ghost predicate InRange(s: set<int>, lo: int, hi: int) {
    forall p :: p in s ==> lo <= p < hi
  }

  lemma {:induction false} SpansReads(e: IExpr, lo: int, hi: int, arrays: bool)
    requires Spans(e, lo, hi, arrays)
    ensures InRange(Reads(e), lo, hi) && InRange(Cells(e), lo, hi) && (!arrays ==> Cells(e) == {})
    decreases e, 1
  {
    match e
    case Nary(_, ops) =>
      SpansReadsAll(ops, lo, hi, arrays);
    case Binary(_, l, r) =>
      SpansReads(l, lo, hi, arrays);
      SpansReads(r, lo, hi, arrays);
    case BitComp(x) =>
      SpansReads(x, lo, hi, arrays);
    case Array(_, index) =>
      SpansReads(index, lo, hi, arrays);
    case Wrap(b) =>
      SpansReadsBool(b, lo, hi, arrays);
    case _ =>
  }

  lemma {:induction false} SpansReadsAll(ops: seq<IExpr>, lo: int, hi: int, arrays: bool)
    requires AllSpan(ops, lo, hi, arrays)
    ensures InRange(ReadsAll(ops), lo, hi) && InRange(CellsAll(ops), lo, hi) && (!arrays ==> CellsAll(ops) == {})
    decreases ops, 0
  {
    if ops != [] {
      SpansReads(ops[0], lo, hi, arrays);
      SpansReadsAll(ops[1..], lo, hi, arrays);
    }
  }

  lemma {:induction false} SpansReadsBool(b: BExpr, lo: int, hi: int, arrays: bool)
    requires SpansBool(b, lo, hi, arrays)
    ensures InRange(ReadsBool(b), lo, hi) && InRange(CellsBool(b), lo, hi) && (!arrays ==> CellsBool(b) == {})
    decreases b, 1
  {
    match b
    case Compare(_, l, r) =>
      SpansReads(l, lo, hi, arrays);
      SpansReads(r, lo, hi, arrays);
    case NaryBool(_, ops) =>
      SpansReadsAllBool(ops, lo, hi, arrays);
    case Not(a) =>
      SpansReadsBool(a, lo, hi, arrays);
    case _ =>
  }

  lemma {:induction false} SpansReadsAllBool(ops: seq<BExpr>, lo: int, hi: int, arrays: bool)
    requires AllSpanBool(ops, lo, hi, arrays)
    ensures InRange(ReadsAllBool(ops), lo, hi) && InRange(CellsAllBool(ops), lo, hi)
    ensures !arrays ==> CellsAllBool(ops) == {}
    decreases ops, 0
  {
    if ops != [] {
      SpansReadsBool(ops[0], lo, hi, arrays);
      SpansReadsAllBool(ops[1..], lo, hi, arrays);
    }
  }

  /** An expression whose positions all lie in a smaller range spans that range. */
  lemma {:induction false} Narrow(e: IExpr, lo: int, hi: int, lo': int, hi': int, arrays: bool)
    requires Spans(e, lo, hi, arrays) && InRange(Reads(e), lo', hi') && InRange(Cells(e), lo', hi')
    ensures Spans(e, lo', hi', arrays)
    decreases e, 1
  {
    match e
    case Var(p) =>
      assert p in Reads(e);
    case Nary(_, ops) =>
      forall i | 0 <= i < |ops|
        ensures Spans(ops[i], lo', hi', arrays)
      {
        ReadsMember(ops, i);
        Narrow(ops[i], lo, hi, lo', hi', arrays);
      }
    case Binary(_, l, r) =>
      Narrow(l, lo, hi, lo', hi', arrays);
      Narrow(r, lo, hi, lo', hi', arrays);
    case BitComp(x) =>
      Narrow(x, lo, hi, lo', hi', arrays);
    case Array(cells, index) =>
      Narrow(index, lo, hi, lo', hi', arrays);
      forall i | 0 <= i < |cells|
        ensures lo' <= cells[i] < hi'
      {
        assert cells[i] in cells;
        assert cells[i] in Cells(e);
      }
    case Wrap(b) =>
      NarrowBool(b, lo, hi, lo', hi', arrays);
    case _ =>
  }

  lemma {:induction false} NarrowBool(b: BExpr, lo: int, hi: int, lo': int, hi': int, arrays: bool)
    requires SpansBool(b, lo, hi, arrays) && InRange(ReadsBool(b), lo', hi') && InRange(CellsBool(b), lo', hi')
    ensures SpansBool(b, lo', hi', arrays)
    decreases b, 1
  {
    match b
    case Compare(_, l, r) =>
      Narrow(l, lo, hi, lo', hi', arrays);
      Narrow(r, lo, hi, lo', hi', arrays);
    case NaryBool(_, ops) =>
      forall i | 0 <= i < |ops|
        ensures SpansBool(ops[i], lo', hi', arrays)
      {
        ReadsMemberBool(ops, i);
        NarrowBool(ops[i], lo, hi, lo', hi', arrays);
      }
    case Not(a) =>
      NarrowBool(a, lo, hi, lo', hi', arrays);
    case _ =>
  }

  // ----- Locality -----

  /** The value depends on the touched positions only. */
  lemma {:induction false} ValueLocal(e: IExpr, k: int, env: seq<int>)
    requires 0 <= k <= |env| && Spans(e, 0, k, true)
    ensures Value(e, env) == Value(e, env[..k])
    decreases e, 1
  {
    match e
    case Nary(plus, ops) =>
      ValueAllLocal(plus, ops, k, env);
    case Binary(_, l, r) =>
      ValueLocal(l, k, env);
      ValueLocal(r, k, env);
    case BitComp(x) =>
      ValueLocal(x, k, env);
    case Array(_, index) =>
      ValueLocal(index, k, env);
    case Wrap(b) =>
      TruthLocal(b, k, env);
    case _ =>
  }

  lemma {:induction false} ValueAllLocal(plus: bool, ops: seq<IExpr>, k: int, env: seq<int>)
    requires 0 <= k <= |env| && AllSpan(ops, 0, k, true)
    ensures ValueAll(plus, ops, env) == ValueAll(plus, ops, env[..k])
    decreases ops, 0
  {
    if ops != [] {
      ValueLocal(ops[0], k, env);
      ValueAllLocal(plus, ops[1..], k, env);
    }
  }

  lemma {:induction false} TruthLocal(b: BExpr, k: int, env: seq<int>)
    requires 0 <= k <= |env| && SpansBool(b, 0, k, true)
    ensures TruthOf(b, env) == TruthOf(b, env[..k])
    decreases b, 1
  {
    match b
    case Compare(_, l, r) =>
      ValueLocal(l, k, env);
      ValueLocal(r, k, env);
    case NaryBool(conj, ops) =>
      TruthAllLocal(conj, ops, k, env);
    case Not(a) =>
      TruthLocal(a, k, env);
    case _ =>
  }

  lemma {:induction false} TruthAllLocal(conj: bool, ops: seq<BExpr>, k: int, env: seq<int>)
    requires 0 <= k <= |env| && AllSpanBool(ops, 0, k, true)
    ensures TruthAll(conj, ops, env) == TruthAll(conj, ops, env[..k])
    decreases ops, 0
  {
    if ops != [] {
      TruthLocal(ops[0], k, env);
      TruthAllLocal(conj, ops[1..], k, env);
    }
  }

  lemma {:induction false} AllowArrays(e: IExpr, lo: int, hi: int)
    requires Spans(e, lo, hi, false)
    ensures Spans(e, lo, hi, true)
    decreases e
  {
    match e
    case Nary(_, ops) =>
      forall i | 0 <= i < |ops|
        ensures Spans(ops[i], lo, hi, true)
      {
        AllowArrays(ops[i], lo, hi);
      }
    case Binary(_, l, r) =>
      AllowArrays(l, lo, hi);
      AllowArrays(r, lo, hi);
    case BitComp(x) =>
      AllowArrays(x, lo, hi);
    case Wrap(b) =>
      AllowArraysBool(b, lo, hi);
    case _ =>
  }

  lemma {:induction false} AllowArraysBool(b: BExpr, lo: int, hi: int)
    requires SpansBool(b, lo, hi, false)
    ensures SpansBool(b, lo, hi, true)
    decreases b
  {
    match b
    case Compare(_, l, r) =>
      AllowArrays(l, lo, hi);
      AllowArrays(r, lo, hi);
    case NaryBool(_, ops) =>
      forall i | 0 <= i < |ops|
        ensures SpansBool(ops[i], lo, hi, true)
      {
        AllowArraysBool(ops[i], lo, hi);
      }
    case Not(a) =>
      AllowArraysBool(a, lo, hi);
    case _ =>
  }
}
