/**
 Where the normalising constructors are exact: undefined stays undefined
 (src/lia_int.cc, src/lia_bool.cc).

 A product with a zero factor is zero even if another factor is undefined, and a
 comparison of an expression with itself is decided even where it is undefined.
 An expression is safe in an environment when neither can happen there.
 */
module Exactness {
  import opened Leaves
  import opened Expressions
  import opened Substitutions
  import opened Positions

  /** An array access to look out for, if any: its cells and the value of its index. */
  datatype Ban = NoBan | Ban(cells: seq<int>, at: Option<int>)

  ghost predicate SomeNone(xs: seq<IExpr>, env: seq<int>) {
    exists i :: 0 <= i < |xs| && Value(xs[i], env).None?
  }

  ghost predicate SomeZero(xs: seq<IExpr>, env: seq<int>) {
    exists i :: 0 <= i < |xs| && Value(xs[i], env) == Some(0)
  }

  /** No factor is undefined beside a zero one, one side of every comparison is defined, no access is banned. */
  ghost predicate Safe(e: IExpr, env: seq<int>, ban: Ban)
    decreases e
  {
    match e
    case Nary(plus, ops) =>
      && (forall i :: 0 <= i < |ops| ==> Safe(ops[i], env, ban))
      && (plus || !SomeNone(ops, env) || !SomeZero(ops, env))
    case Binary(_, l, r) => Safe(l, env, ban) && Safe(r, env, ban)
    case BitComp(x) => Safe(x, env, ban)
    case Array(cells, index) => Safe(index, env, ban) && ban != Ban(cells, Value(index, env))
    case Wrap(b) => SafeBool(b, env, ban)
    case _ => true
  }

  ghost predicate SafeBool(b: BExpr, env: seq<int>, ban: Ban)
    decreases b
  {
    match b
    case Compare(_, l, r) =>
      Safe(l, env, ban) && Safe(r, env, ban) && (Value(l, env).Some? || Value(r, env).Some?)
    case NaryBool(_, ops) => forall i :: 0 <= i < |ops| ==> SafeBool(ops[i], env, ban)
    case Not(a) => SafeBool(a, env, ban)
    case _ => true
  }

  ghost predicate AllSafe(xs: seq<IExpr>, env: seq<int>, ban: Ban) {
    forall i :: 0 <= i < |xs| ==> Safe(xs[i], env, ban)
  }

  ghost predicate AllSafeBool(xs: seq<BExpr>, env: seq<int>, ban: Ban) {
    forall i :: 0 <= i < |xs| ==> SafeBool(xs[i], env, ban)
  }

  /** `v` stands for `e`: it has the value of `e` where that is defined, and where `e` is safe it has no more. */
  ghost predicate Stands(e: IExpr, v: IExpr, env: seq<int>) {
    && Refines(Value(e, env), Value(v, env))
    && forall ban :: Safe(e, env, ban) ==> Value(e, env) == Value(v, env)
  }

  // ----- Sums and products -----

  lemma {:induction false} ValueAllNone(plus: bool, xs: seq<IExpr>, env: seq<int>)
    ensures ValueAll(plus, xs, env).None? <==> SomeNone(xs, env)
    decreases |xs|
  {
    if xs != [] {
      ValueAllNone(plus, xs[1..], env);
      if SomeNone(xs[1..], env) {
        var i :| 0 <= i < |xs[1..]| && Value(xs[1..][i], env).None?;
        assert Value(xs[i + 1], env).None?;
      }
      if i :| 0 <= i < |xs| && Value(xs[i], env).None? {
        assert i > 0 ==> Value(xs[1..][i - 1], env).None?;
      }
    }
  }

  lemma {:induction false} ZeroProduct(xs: seq<IExpr>, env: seq<int>)
    requires SomeZero(xs, env) && !SomeNone(xs, env)
    ensures ValueAll(false, xs, env) == Some(0)
    decreases |xs|
  {
    ValueAllNone(false, xs, env);
    ValueAllNone(false, xs[1..], env);
    var i :| 0 <= i < |xs| && Value(xs[i], env) == Some(0);
    if i > 0 {
      assert Value(xs[1..][i - 1], env) == Some(0);
      forall j | 0 <= j < |xs[1..]|
        ensures Value(xs[1..][j], env).Some?
      {
        assert Value(xs[j + 1], env).Some?;
      }
      ZeroProduct(xs[1..], env);
    }
  }

  /** What is gathered from a product: safe operands, undefined or zero only if some factor is. */
  ghost predicate GatheredSafe(plus: bool, g: Gathered, undefined: bool, zero: bool, env: seq<int>, ban: Ban) {
    && AllSafe(g.flat, env, ban)
    && (!plus ==> (SomeNone(g.flat, env) ==> undefined) && (SomeZero(g.flat, env) || g.acc == 0 ==> zero))
  }

  lemma SomeAppended(xs: seq<IExpr>, x: IExpr, env: seq<int>)
    ensures SomeNone(xs + [x], env) <==> SomeNone(xs, env) || Value(x, env).None?
    ensures SomeZero(xs + [x], env) <==> SomeZero(xs, env) || Value(x, env) == Some(0)
  {
    var ys := xs + [x];
    assert ys[|xs|] == x;
    if i :| 0 <= i < |xs| && Value(xs[i], env).None? {
      assert ys[i] == xs[i];
    }
    if i :| 0 <= i < |xs| && Value(xs[i], env) == Some(0) {
      assert ys[i] == xs[i];
    }
  }

  /** One more operand, folded into the constant or kept. */
  lemma GatherSafeOne(plus: bool, g: Gathered, x: IExpr, undefined: bool, zero: bool, env: seq<int>, ban: Ban)
    requires GatheredSafe(plus, g, undefined, zero, env, ban) && Safe(x, env, ban)
    requires !plus ==> (Value(x, env).None? ==> undefined) && (Value(x, env) == Some(0) ==> zero)
    ensures x.Const? ==> GatheredSafe(plus, g.(acc := Accumulate(plus, g.acc, x.value)), undefined, zero, env, ban)
    ensures GatheredSafe(plus, g.(flat := g.flat + [x]), undefined, zero, env, ban)
  {
    SomeAppended(g.flat, x, env);
    if x.Const? && !plus && g.acc != 0 && x.value != 0 {
      NoZeroProduct(g.acc, x.value);
    }
  }

  lemma NoZeroProduct(a: int, b: int)
    requires a != 0 && b != 0
    ensures a * b != 0
  {
  }

  lemma {:induction false} GatherInnerSafe(plus: bool, g: Gathered, ops: seq<IExpr>, undefined: bool, zero: bool,
                                           env: seq<int>, ban: Ban)
    requires GatheredSafe(plus, g, undefined, zero, env, ban) && AllSafe(ops, env, ban)
    requires !plus ==> (SomeNone(ops, env) ==> undefined) && (SomeZero(ops, env) ==> zero)
    ensures GatheredSafe(plus, GatherInner(plus, g, ops), undefined, zero, env, ban)
    decreases |ops|
  {
    if ops != [] {
      var n := |ops| - 1;
      assert ops == ops[..n] + [ops[n]];
      SomeAppended(ops[..n], ops[n], env);
      GatherInnerSafe(plus, g, ops[..n], undefined, zero, env, ban);
      GatherSafeOne(plus, GatherInner(plus, g, ops[..n]), ops[n], undefined, zero, env, ban);
    }
  }

  /** A safe product that is flattened: undefined with an undefined factor, zero with a zero one. */
  lemma InnerProduct(x: IExpr, env: seq<int>, ban: Ban)
    requires x.Nary? && !x.plus && Safe(x, env, ban)
    ensures SomeNone(x.ops, env) ==> Value(x, env).None?
    ensures SomeZero(x.ops, env) ==> Value(x, env) == Some(0)
  {
    ValueAllNone(false, x.ops, env);
    if SomeZero(x.ops, env) {
      ZeroProduct(x.ops, env);
    }
  }

  lemma {:induction false} GatherSafe(plus: bool, xs: seq<IExpr>, env: seq<int>, ban: Ban)
    requires AllSafe(xs, env, ban)
    ensures var g := Gather(plus, xs);
            !g.poisoned ==> GatheredSafe(plus, g, SomeNone(xs, env), SomeZero(xs, env), env, ban)
    decreases |xs|
  {
    if xs != [] {
      var n := |xs| - 1;
      var before, x := xs[..n], xs[n];
      assert xs == before + [x];
      GatherSafe(plus, before, env, ban);
      SomeAppended(before, x, env);
      var g, none, zero := Gather(plus, before), SomeNone(xs, env), SomeZero(xs, env);
      if !g.poisoned && !x.Undef? {
        if !x.Const? && x.Nary? && x.plus == plus {
          if !plus {
            InnerProduct(x, env, ban);
          }
          GatherInnerSafe(plus, g, x.ops, none, zero, env, ban);
        } else {
          GatherSafeOne(plus, g, x, none, zero, env, ban);
        }
      }
    }
  }

  /** Flattening leaves no zero constant beside an undefined operand. */
  lemma NaryOfExact(plus: bool, xs: seq<IExpr>, env: seq<int>, ban: Ban)
    requires Safe(Nary(plus, xs), env, ban)
    ensures Value(NaryOf(plus, xs), env) == ValueAll(plus, xs, env)
  {
    var g := Gather(plus, xs);
    GatherSafe(plus, xs, env, ban);
    GatherValue(plus, xs, env);
    NaryOfRefines(plus, xs, env);
    ValueAllNone(plus, xs, env);
    hide Safe, Gather, ValueAll;
    if !g.poisoned && GatheredValue(plus, g, env).None? {
      ClosedNone(plus, g, env);
    }
  }

  lemma ClosedSafe(plus: bool, g: Gathered, none: bool, zero: bool, env: seq<int>, ban: Ban)
    requires !g.poisoned && GatheredSafe(plus, g, none, zero, env, ban) && (plus || !none || !zero)
    ensures Safe(Close(plus, g), env, ban)
  {
    var c := Const(g.acc);
    SomeAppended(g.flat, c, env);
    var flat := if g.acc != Neutral(plus) || g.flat == [] then g.flat + [c] else g.flat;
    assert AllSafe(flat, env, ban);
  }

  /** The n-ary constructor is exact on safe operands, and builds a safe node. */
  lemma NaryOfSafe(plus: bool, xs: seq<IExpr>, env: seq<int>, ban: Ban)
    requires Safe(Nary(plus, xs), env, ban)
    ensures Value(NaryOf(plus, xs), env) == ValueAll(plus, xs, env) && Safe(NaryOf(plus, xs), env, ban)
  {
    NaryOfExact(plus, xs, env, ban);
    GatherSafe(plus, xs, env, ban);
    if !Gather(plus, xs).poisoned {
      ClosedSafe(plus, Gather(plus, xs), SomeNone(xs, env), SomeZero(xs, env), env, ban);
    }
  }

  /** The node of what was gathered has no value where that has none. */
  lemma ClosedNone(plus: bool, g: Gathered, env: seq<int>)
    requires !g.poisoned && (plus || g.acc != 0) && GatheredValue(plus, g, env).None?
    ensures Value(Close(plus, g), env).None?
  {
    ValueAllNone(plus, g.flat, env);
    SomeAppended(g.flat, Const(g.acc), env);
    var flat := if g.acc != Neutral(plus) || g.flat == [] then g.flat + [Const(g.acc)] else g.flat;
    ValueAllNone(plus, flat, env);
    if |flat| == 1 {
      assert SomeNone(flat, env);
    }
  }

  // ----- Comparisons, conjunctions and disjunctions -----

  lemma CompareOfSafe(op: CmpOp, l: IExpr, r: IExpr, env: seq<int>, ban: Ban)
    requires SafeBool(Compare(op, l, r), env, ban)
    ensures TruthOf(CompareOf(op, l, r), env) == TruthOf(Compare(op, l, r), env) && SafeBool(CompareOf(op, l, r), env, ban)
  {
  }

  lemma NegSafe(b: BExpr, env: seq<int>, ban: Ban)
    requires SafeBool(b, env, ban)
    ensures TruthOf(Neg(b), env) == Negated(TruthOf(b, env)) && SafeBool(Neg(b), env, ban)
  {
    match b
    case Compare(op, l, r) =>
      CompareOfSafe(Flipped(op), l, r, env, ban);
    case _ =>
  }

  lemma {:induction false} SplicedSafe(conj: bool, xs: seq<BExpr>, env: seq<int>, ban: Ban)
    requires AllSafeBool(xs, env, ban)
    ensures AllSafeBool(Spliced(conj, xs), env, ban)
    decreases |xs|
  {
    if xs != [] {
      SplicedSafe(conj, xs[..|xs| - 1], env, ban);
    }
  }

  lemma NaryBoolOfSafe(conj: bool, xs: seq<BExpr>, env: seq<int>, ban: Ban)
    requires AllSafeBool(xs, env, ban)
    ensures TruthOf(NaryBoolOf(conj, xs), env) == TruthAll(conj, xs, env) && SafeBool(NaryBoolOf(conj, xs), env, ban)
  {
    NaryBoolOfExact(conj, xs, env);
    SplicedSafe(conj, xs, env, ban);
    var flat := Deduplicated(Spliced(conj, xs));
    forall i | 0 <= i < |flat|
      ensures SafeBool(flat[i], env, ban)
    {
      assert flat[i] in flat;
      assert flat[i] in Spliced(conj, xs);
    }
  }

  // ----- Operands of equal values -----

  /** Two lists of operands with the same values, each in its environment. */
  ghost predicate SameValues(xs: seq<IExpr>, env: seq<int>, ys: seq<IExpr>, env': seq<int>) {
    |xs| == |ys| && forall i :: 0 <= i < |xs| ==> Value(xs[i], env) == Value(ys[i], env')
  }

  lemma {:induction false} ValueAllSame(plus: bool, xs: seq<IExpr>, env: seq<int>, ys: seq<IExpr>, env': seq<int>)
    requires SameValues(xs, env, ys, env')
    ensures ValueAll(plus, xs, env) == ValueAll(plus, ys, env')
    decreases |xs|
  {
    if xs != [] {
      assert SameValues(xs[1..], env, ys[1..], env');
      ValueAllSame(plus, xs[1..], env, ys[1..], env');
    }
  }

  lemma {:induction false} TruthAllSame(conj: bool, xs: seq<BExpr>, env: seq<int>, ys: seq<BExpr>, env': seq<int>)
    requires |xs| == |ys| && forall i :: 0 <= i < |xs| ==> TruthOf(xs[i], env) == TruthOf(ys[i], env')
    ensures TruthAll(conj, xs, env) == TruthAll(conj, ys, env')
    decreases |xs|
  {
    if xs != [] {
      TruthAllSame(conj, xs[1..], env, ys[1..], env');
    }
  }

  /** Safe operands of the same values make a safe node, rebuilt exactly. */
  lemma RebuiltNary(plus: bool, xs: seq<IExpr>, env: seq<int>, ys: seq<IExpr>, env': seq<int>, ban: Ban, ban': Ban)
    requires Safe(Nary(plus, xs), env, ban) && SameValues(xs, env, ys, env') && AllSafe(ys, env', ban')
    ensures Value(NaryOf(plus, ys), env') == Value(Nary(plus, xs), env) && Safe(NaryOf(plus, ys), env', ban')
  {
    ValueAllSame(plus, xs, env, ys, env');
    assert SomeNone(ys, env') ==> SomeNone(xs, env);
    assert SomeZero(ys, env') ==> SomeZero(xs, env);
    NaryOfSafe(plus, ys, env', ban');
  }

  lemma RebuiltBinary(op: BinOp, l: IExpr, r: IExpr, env: seq<int>, l': IExpr, r': IExpr, env': seq<int>, ban': Ban)
    requires Value(l, env) == Value(l', env') && Value(r, env) == Value(r', env') && Safe(l', env', ban') && Safe(r', env', ban')
    ensures Value(BinaryOf(op, l', r'), env') == Value(Binary(op, l, r), env) && Safe(BinaryOf(op, l', r'), env', ban')
  {
  }

  lemma RebuiltBitComp(x: IExpr, env: seq<int>, x': IExpr, env': seq<int>, ban': Ban)
    requires Value(x, env) == Value(x', env') && Safe(x', env', ban')
    ensures Value(BitCompOf(x'), env') == Value(BitComp(x), env) && Safe(BitCompOf(x'), env', ban')
  {
  }

  lemma RebuiltWrap(b: BExpr, env: seq<int>, b': BExpr, env': seq<int>, ban': Ban)
    requires TruthOf(b, env) == TruthOf(b', env') && SafeBool(b', env', ban')
    ensures Value(WrapOf(b'), env') == Value(Wrap(b), env) && Safe(WrapOf(b'), env', ban')
  {
  }

  lemma RebuiltAccess(cells: seq<int>, index: IExpr, index': IExpr, env: seq<int>, ban: Ban)
    requires Value(index', env) == Value(index, env) && Safe(index', env, ban) && ban != Ban(cells, Value(index, env))
    ensures Value(ArrayOf(cells, index'), env) == Value(Array(cells, index), env) && Safe(ArrayOf(cells, index'), env, ban)
  {
  }

  // ----- Substitution -----

  lemma StandsExactly(e: IExpr, v: IExpr, env: seq<int>, ban: Ban)
    requires Stands(e, v, env) && Safe(e, env, ban) && (v.Const? || v.Undef?)
    ensures Value(v, env) == Value(e, env) && Safe(v, env, ban)
  {
  }

  /** Where the expression is safe, substitution is exact and the residual is safe. */
  lemma {:induction false} SubstSafe(e: IExpr, sub: IExpr, v: IExpr, env: seq<int>, ban: Ban)
    requires Safe(e, env, ban) && Stands(sub, v, env) && (v.Const? || v.Undef?)
    ensures Value(Subst(e, sub, v), env) == Value(e, env) && Safe(Subst(e, sub, v), env, ban)
    decreases e
  {
    hide SomeNone, SomeZero, NaryOf, ArrayOf, BinaryOf, BitCompOf, WrapOf, Stands, Value, TruthOf;
    if e == sub {
      StandsExactly(sub, v, env, ban);
    } else {
      match e
      case Nary(plus, ops) =>
        var ops' := SubstAll(ops, sub, v);
        forall i | 0 <= i < |ops|
          ensures Value(ops'[i], env) == Value(ops[i], env) && Safe(ops'[i], env, ban)
        {
          SubstSafe(ops[i], sub, v, env, ban);
        }
        RebuiltNary(plus, ops, env, ops', env, ban, ban);
      case Binary(op, l, r) =>
        SubstSafe(l, sub, v, env, ban);
        SubstSafe(r, sub, v, env, ban);
        RebuiltBinary(op, l, r, env, Subst(l, sub, v), Subst(r, sub, v), env, ban);
      case BitComp(x) =>
        SubstSafe(x, sub, v, env, ban);
        RebuiltBitComp(x, env, Subst(x, sub, v), env, ban);
      case Array(cells, index) =>
        SubstSafe(index, sub, v, env, ban);
        RebuiltAccess(cells, index, Subst(index, sub, v), env, ban);
      case Wrap(b) =>
        SubstBoolSafe(b, sub, v, env, ban);
        RebuiltWrap(b, env, SubstBool(b, sub, v), env, ban);
      case _ =>
    }
  }

  lemma {:induction false} SubstBoolSafe(b: BExpr, sub: IExpr, v: IExpr, env: seq<int>, ban: Ban)
    requires SafeBool(b, env, ban) && Stands(sub, v, env) && (v.Const? || v.Undef?)
    ensures TruthOf(SubstBool(b, sub, v), env) == TruthOf(b, env) && SafeBool(SubstBool(b, sub, v), env, ban)
    decreases b
  {
    hide NaryBoolOf, CompareOf, Neg, Stands;
    match b
    case Compare(op, l, r) =>
      SubstSafe(l, sub, v, env, ban);
      SubstSafe(r, sub, v, env, ban);
      CompareOfSafe(op, Subst(l, sub, v), Subst(r, sub, v), env, ban);
    case NaryBool(conj, ops) =>
      var ops' := SubstAllBool(ops, sub, v);
      forall i | 0 <= i < |ops|
        ensures TruthOf(ops'[i], env) == TruthOf(ops[i], env) && SafeBool(ops'[i], env, ban)
      {
        SubstBoolSafe(ops[i], sub, v, env, ban);
      }
      TruthAllSame(conj, ops, env, ops', env);
      NaryBoolOfSafe(conj, ops', env, ban);
    case Not(a) =>
      SubstBoolSafe(a, sub, v, env, ban);
      NegSafe(SubstBool(a, sub, v), env, ban);
    case _ =>
  }

  // ----- Re-rooting -----

  function MovedBan(ban: Ban, delta: int): Ban {
    match ban
    case NoBan => NoBan
    case Ban(cells, at) => Ban(Moved(cells, delta), at)
  }

  lemma MovedApart(cells: seq<int>, cells': seq<int>, delta: int)
    ensures Moved(cells, delta) == Moved(cells', delta) <==> cells == cells'
  {
    if Moved(cells, delta) == Moved(cells', delta) {
      forall i | 0 <= i < |cells|
        ensures cells[i] == cells'[i]
      {
        assert Moved(cells, delta)[i] == Moved(cells', delta)[i];
      }
    }
  }

  /** An access re-rooted, its index already. */
  lemma MovedAccess(cells: seq<int>, index: IExpr, index': IExpr, k: int, env: seq<int>, ban: Ban)
    requires 0 <= k <= |env| && forall i :: 0 <= i < |cells| ==> k <= cells[i] < |env|
    requires Value(index', env[k..]) == Value(index, env) && Safe(index', env[k..], MovedBan(ban, -k))
    requires ban != Ban(cells, Value(index, env))
    ensures var e' := ArrayOf(Moved(cells, -k), index');
            Value(e', env[k..]) == Value(Array(cells, index), env) && Safe(e', env[k..], MovedBan(ban, -k))
  {
    if ban.Ban? {
      MovedApart(ban.cells, cells, -k);
    }
  }

  /** Where the expression is safe, re-rooting is exact too. */
  lemma {:induction false} ShiftSafe(e: IExpr, k: int, env: seq<int>, ban: Ban)
    requires Safe(e, env, ban) && Spans(e, k, |env|, true) && 0 <= k <= |env|
    ensures Value(Shift(e, -k), env[k..]) == Value(e, env) && Safe(Shift(e, -k), env[k..], MovedBan(ban, -k))
    decreases e
  {
    hide SomeNone, SomeZero, NaryOf, ArrayOf, BinaryOf, BitCompOf, WrapOf, TruthOf;
    var ban' := MovedBan(ban, -k);
    match e
    case Nary(plus, ops) =>
      var ops' := ShiftAll(ops, -k);
      forall i | 0 <= i < |ops|
        ensures Value(ops'[i], env[k..]) == Value(ops[i], env) && Safe(ops'[i], env[k..], ban')
      {
        ShiftSafe(ops[i], k, env, ban);
      }
      RebuiltNary(plus, ops, env, ops', env[k..], ban, ban');
    case Binary(op, l, r) =>
      ShiftSafe(l, k, env, ban);
      ShiftSafe(r, k, env, ban);
      RebuiltBinary(op, l, r, env, Shift(l, -k), Shift(r, -k), env[k..], ban');
    case BitComp(x) =>
      ShiftSafe(x, k, env, ban);
      RebuiltBitComp(x, env, Shift(x, -k), env[k..], ban');
    case Array(cells, index) =>
      ShiftSafe(index, k, env, ban);
      MovedAccess(cells, index, Shift(index, -k), k, env, ban);
    case Wrap(b) =>
      ShiftBoolSafe(b, k, env, ban);
      RebuiltWrap(b, env, ShiftBool(b, -k), env[k..], ban');
    case _ =>
  }

  lemma {:induction false} ShiftBoolSafe(b: BExpr, k: int, env: seq<int>, ban: Ban)
    requires SafeBool(b, env, ban) && SpansBool(b, k, |env|, true) && 0 <= k <= |env|
    ensures TruthOf(ShiftBool(b, -k), env[k..]) == TruthOf(b, env) && SafeBool(ShiftBool(b, -k), env[k..], MovedBan(ban, -k))
    decreases b
  {
    hide NaryBoolOf, CompareOf, Neg;
    var ban' := MovedBan(ban, -k);
    match b
    case Compare(op, l, r) =>
      ShiftSafe(l, k, env, ban);
      ShiftSafe(r, k, env, ban);
      CompareOfSafe(op, Shift(l, -k), Shift(r, -k), env[k..], ban');
    case NaryBool(conj, ops) =>
      var ops' := ShiftAllBool(ops, -k);
      forall i | 0 <= i < |ops|
        ensures TruthOf(ops'[i], env[k..]) == TruthOf(ops[i], env) && SafeBool(ops'[i], env[k..], ban')
      {
        ShiftBoolSafe(ops[i], k, env, ban);
      }
      TruthAllSame(conj, ops, env, ops', env[k..]);
      NaryBoolOfSafe(conj, ops', env[k..], ban');
    case Not(a) =>
      ShiftBoolSafe(a, k, env, ban);
      NegSafe(ShiftBool(a, -k), env[k..], ban');
    case _ =>
  }

  // ----- Locality -----

  /** Safety depends on the touched positions only. */
  lemma {:induction false} SafeLocal(e: IExpr, k: int, env: seq<int>, ban: Ban)
    requires 0 <= k <= |env| && Spans(e, 0, k, true)
    ensures Safe(e, env, ban) <==> Safe(e, env[..k], ban)
    decreases e
  {
    match e
    case Nary(plus, ops) =>
      forall i | 0 <= i < |ops|
        ensures Safe(ops[i], env, ban) <==> Safe(ops[i], env[..k], ban)
        ensures Value(ops[i], env) == Value(ops[i], env[..k])
      {
        SafeLocal(ops[i], k, env, ban);
        ValueLocal(ops[i], k, env);
      }
      assert SomeNone(ops, env) <==> SomeNone(ops, env[..k]);
      assert SomeZero(ops, env) <==> SomeZero(ops, env[..k]);
    case Binary(_, l, r) =>
      SafeLocal(l, k, env, ban);
      SafeLocal(r, k, env, ban);
    case BitComp(x) =>
      SafeLocal(x, k, env, ban);
    case Array(_, index) =>
      SafeLocal(index, k, env, ban);
      ValueLocal(index, k, env);
    case Wrap(b) =>
      SafeBoolLocal(b, k, env, ban);
    case _ =>
  }

  lemma {:induction false} SafeBoolLocal(b: BExpr, k: int, env: seq<int>, ban: Ban)
    requires 0 <= k <= |env| && SpansBool(b, 0, k, true)
    ensures SafeBool(b, env, ban) <==> SafeBool(b, env[..k], ban)
    decreases b
  {
    match b
    case Compare(_, l, r) =>
      SafeLocal(l, k, env, ban);
      SafeLocal(r, k, env, ban);
      ValueLocal(l, k, env);
      ValueLocal(r, k, env);
    case NaryBool(_, ops) =>
      forall i | 0 <= i < |ops|
        ensures SafeBool(ops[i], env, ban) <==> SafeBool(ops[i], env[..k], ban)
      {
        SafeBoolLocal(ops[i], k, env, ban);
      }
    case Not(a) =>
      SafeBoolLocal(a, k, env, ban);
    case _ =>
  }

  // ----- A condition on the text -----

  /** Operators that have a value for all operands. */
  predicate TotalOp(op: BinOp) {
    op == Minus || op == BitAnd || op == BitOr || op == BitXor
  }

  /** No access and no operator that may be undefined. */
  predicate Total(e: IExpr)
    decreases e
  {
    match e
    case Undef => false
    case Array(_, _) => false
    case Nary(_, ops) => forall i :: 0 <= i < |ops| ==> Total(ops[i])
    case Binary(op, l, r) => TotalOp(op) && Total(l) && Total(r)
    case BitComp(x) => Total(x)
    case Wrap(b) => TotalBool(b)
    case _ => true
  }

  predicate TotalBool(b: BExpr)
    decreases b
  {
    match b
    case BUndef => false
    case Compare(_, l, r) => Total(l) && Total(r)
    case NaryBool(_, ops) => forall i :: 0 <= i < |ops| ==> TotalBool(ops[i])
    case Not(a) => TotalBool(a)
    case _ => true
  }

  /** Products have total factors, comparisons a total side, and no access is of the array `cells`, if one is given. */
  predicate Plain(e: IExpr, cells: Option<seq<int>>)
    decreases e
  {
    match e
    case Nary(plus, ops) => forall i :: 0 <= i < |ops| ==> Plain(ops[i], cells) && (plus || Total(ops[i]))
    case Binary(_, l, r) => Plain(l, cells) && Plain(r, cells)
    case BitComp(x) => Plain(x, cells)
    case Array(c, index) => Plain(index, cells) && cells != Some(c)
    case Wrap(b) => PlainBool(b, cells)
    case _ => true
  }

  predicate PlainBool(b: BExpr, cells: Option<seq<int>>)
    decreases b
  {
    match b
    case Compare(_, l, r) => Plain(l, cells) && Plain(r, cells) && (Total(l) || Total(r))
    case NaryBool(_, ops) => forall i :: 0 <= i < |ops| ==> PlainBool(ops[i], cells)
    case Not(a) => PlainBool(a, cells)
    case _ => true
  }

  lemma {:induction false} TotalValue(e: IExpr, env: seq<int>)
    requires Total(e) && Spans(e, 0, |env|, true)
    ensures Value(e, env).Some?
    decreases e
  {
    match e
    case Nary(plus, ops) =>
      forall i | 0 <= i < |ops|
        ensures Value(ops[i], env).Some?
      {
        TotalValue(ops[i], env);
      }
      ValueAllNone(plus, ops, env);
    case Binary(_, l, r) =>
      TotalValue(l, env);
      TotalValue(r, env);
    case BitComp(x) =>
      TotalValue(x, env);
    case Wrap(b) =>
      TotalTruth(b, env);
    case _ =>
  }

  lemma {:induction false} TotalTruth(b: BExpr, env: seq<int>)
    requires TotalBool(b) && SpansBool(b, 0, |env|, true)
    ensures TruthOf(b, env) != Unknown
    decreases b
  {
    match b
    case Compare(_, l, r) =>
      TotalValue(l, env);
      TotalValue(r, env);
    case NaryBool(conj, ops) =>
      forall x | x in ops
        ensures TruthOf(x, env) != Unknown
      {
        var i :| 0 <= i < |ops| && ops[i] == x;
        TotalTruth(ops[i], env);
      }
      TruthAllSays(conj, ops, env);
    case Not(a) =>
      TotalTruth(a, env);
    case _ =>
  }

  ghost predicate Bans(cells: Option<seq<int>>, ban: Ban) {
    ban.NoBan? || cells == Some(ban.cells)
  }

  /** A plain expression is safe in every environment of its positions. */
  lemma {:induction false} PlainSafe(e: IExpr, cells: Option<seq<int>>, env: seq<int>, ban: Ban)
    requires Plain(e, cells) && Spans(e, 0, |env|, true) && Bans(cells, ban)
    ensures Safe(e, env, ban)
    decreases e
  {
    match e
    case Nary(plus, ops) =>
      forall i | 0 <= i < |ops|
        ensures Safe(ops[i], env, ban) && (plus || Value(ops[i], env).Some?)
      {
        PlainSafe(ops[i], cells, env, ban);
        if !plus {
          TotalValue(ops[i], env);
        }
      }
    case Binary(_, l, r) =>
      PlainSafe(l, cells, env, ban);
      PlainSafe(r, cells, env, ban);
    case BitComp(x) =>
      PlainSafe(x, cells, env, ban);
    case Array(_, index) =>
      PlainSafe(index, cells, env, ban);
    case Wrap(b) =>
      PlainBoolSafe(b, cells, env, ban);
    case _ =>
  }

  lemma {:induction false} PlainBoolSafe(b: BExpr, cells: Option<seq<int>>, env: seq<int>, ban: Ban)
    requires PlainBool(b, cells) && SpansBool(b, 0, |env|, true) && Bans(cells, ban)
    ensures SafeBool(b, env, ban)
    decreases b
  {
    match b
    case Compare(_, l, r) =>
      PlainSafe(l, cells, env, ban);
      PlainSafe(r, cells, env, ban);
      if Total(l) {
        TotalValue(l, env);
      } else {
        TotalValue(r, env);
      }
    case NaryBool(_, ops) =>
      forall i | 0 <= i < |ops|
        ensures SafeBool(ops[i], env, ban)
      {
        PlainBoolSafe(ops[i], cells, env, ban);
      }
    case Not(a) =>
      PlainBoolSafe(a, cells, env, ban);
    case _ =>
  }

  // ----- Where undefined is lost -----

  /**
   A product whose first factor is substituted by zero: it comes to zero whatever the other
   factor is, which is its value exactly where the other factor has one.
   */
  lemma ZeroFactor(p: int, e: IExpr, env: seq<int>)
    requires 0 <= p < |env| && env[p] == 0 && Subst(e, Var(p), Const(0)) == e && !e.Undef? && !e.Const? && !e.Nary?
    ensures var product := Nary(false, [Var(p), e]);
            && Subst(product, Var(p), Const(0)) == Const(0)
            && (Value(Const(0), env) == Value(product, env) <==> Value(e, env).Some?)
            && (Safe(product, env, NoBan) <==> Safe(e, env, NoBan) && Value(e, env).Some?)
  {
    var ops := [Var(p), e];
    var ops' := SubstAll(ops, Var(p), Const(0));
    assert ops' == [Const(0), e];
    assert ops'[..1] == [Const(0)] && ops'[..1][..0] == [];
    assert Gather(false, ops'[..1][..0]) == Gathered(false, 1, []);
    assert Gather(false, ops'[..1]) == Gathered(false, 0, []);
    assert Gather(false, ops') == Gathered(false, 0, [e]);
    assert ops == [Var(p)] + [e];
    ValueAllConcat(false, [Var(p)], [e], env);
    ValueAllOne(false, Var(p), env);
    ValueAllOne(false, e, env);
    assert Value(ops[0], env) == Some(0) && ops[1] == e;
    assert SomeZero(ops, env);
    assert SomeNone(ops, env) <==> Value(e, env).None?;
  }

  /** A comparison of an expression with itself is decided: as it should be exactly where the expression has a value. */
  lemma SameSides(op: CmpOp, e: IExpr, env: seq<int>)
    requires !e.Undef? && !e.Const?
    ensures TruthOf(CompareOf(op, e, e), env) == TruthOf(Compare(op, e, e), env) <==> Value(e, env).Some?
  {
  }
}
