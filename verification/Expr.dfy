/**
 Integer and boolean expressions over positions, their three-valued meaning, and
 the normalising constructors (src/lia_int.cc, src/lia_bool.cc).

 An expression is a value here: interned codes are equal exactly when the
 expressions are. Operands keep the order they came in; the order of codes, by
 which the source sorts them, carries no meaning.
 */
module Expressions {
  import opened Leaves

  datatype BinOp = Minus | Div | Mod | Pow | BitAnd | BitOr | BitXor | LShift | RShift

  datatype CmpOp = Eq | Neq | Lt | Leq | Gt | Geq

  /** `Nary(true, ...)` is a sum, `Nary(false, ...)` a product. */
  datatype IExpr =
    | Undef
    | Const(value: int)
    | Var(pos: int)
    | Nary(plus: bool, ops: seq<IExpr>)
    | Binary(op: BinOp, l: IExpr, r: IExpr)
    | BitComp(e: IExpr)
    | Array(cells: seq<int>, index: IExpr)
    | Wrap(b: BExpr)

  datatype BExpr =
    | BTrue
    | BFalse
    | BUndef
    | Compare(cmp: CmpOp, l: IExpr, r: IExpr)
    | NaryBool(conj: bool, bops: seq<BExpr>)
    | Not(b: BExpr)

  datatype Truth = Yes | No | Unknown

  // ----- Arithmetic on values -----

  function Abs(x: int): nat {
    if x >= 0 then x else -x
  }

  /** Division rounds toward zero. */
  function TruncDiv(l: int, r: int): int
    requires r != 0
  {
    if (l >= 0) == (r > 0) then Abs(l) / Abs(r) else -(Abs(l) / Abs(r))
  }

  function Power(b: int, n: nat): int {
    if n == 0 then 1 else b * Power(b, n - 1)
  }

  function Bit(op: BinOp, a: bool, b: bool): bool {
    match op
    case BitAnd => a && b
    case BitOr => a || b
    case _ => a != b
  }

  /** Two's complement bitwise operation: the lowest bit, then the rest, down to the signs. */
  function Bitwise(op: BinOp, l: int, r: int): int
    decreases Abs(l) + Abs(r)
  {
    if -1 <= l <= 0 && -1 <= r <= 0 then (if Bit(op, l < 0, r < 0) then -1 else 0)
    else 2 * Bitwise(op, l / 2, r / 2) + (if Bit(op, l % 2 == 1, r % 2 == 1) then 1 else 0)
  }

  /** The value of a binary operator, none where it is undefined. */
  function Fold(op: BinOp, l: int, r: int): Option<int> {
    match op
    case Minus => Some(l - r)
    case Div => if r == 0 then None else Some(TruncDiv(l, r))
    case Mod => if r == 0 then None else Some(l - r * TruncDiv(l, r))
    case Pow => if r < 0 then None else Some(Power(l, r))
    case LShift => if r < 0 || r >= 32 then None else Some(l * Power(2, r))
    case RShift => if r < 0 || r >= 32 || Power(2, r) == 0 then None else Some(l / Power(2, r))
    case _ => Some(Bitwise(op, l, r))
  }

  function CmpEval(op: CmpOp, l: int, r: int): bool {
    match op
    case Eq => l == r
    case Neq => l != r
    case Lt => l < r
    case Leq => l <= r
    case Gt => l > r
    case Geq => l >= r
  }

  function FromBool(b: bool): Truth {
    if b then Yes else No
  }

  function Negated(t: Truth): Truth {
    match t
    case Yes => No
    case No => Yes
    case Unknown => Unknown
  }

  /** Strong Kleene conjunction or disjunction of two truth values. */
  function Both(conj: bool, a: Truth, b: Truth): Truth {
    var absorbing := FromBool(!conj);
    if a == absorbing || b == absorbing then absorbing
    else if a == Unknown || b == Unknown then Unknown
    else FromBool(conj)
  }

  // ----- Meaning -----

  function Combine(plus: bool, a: Option<int>, b: Option<int>): Option<int> {
    if a.Some? && b.Some? then Some(if plus then a.value + b.value else a.value * b.value) else None
  }

  function Neutral(plus: bool): int {
    if plus then 0 else 1
  }

  /** The value of an expression, array cells read through the environment. */
  function Value(e: IExpr, env: seq<int>): Option<int>
    decreases e
  {
    match e
    case Undef => None
    case Const(v) => Some(v)
    case Var(p) => if 0 <= p < |env| then Some(env[p]) else None
    case Nary(plus, ops) => ValueAll(plus, ops, env)
    case Binary(op, l, r) =>
      var a, b := Value(l, env), Value(r, env);
      if a.Some? && b.Some? then Fold(op, a.value, b.value) else None
    case BitComp(x) =>
      var a := Value(x, env);
      if a.Some? then Some(-a.value - 1) else None
    case Array(cells, index) =>
      var i := Value(index, env);
      if i.Some? && 0 <= i.value < |cells| && 0 <= cells[i.value] < |env| then Some(env[cells[i.value]]) else None
    case Wrap(b) =>
      match TruthOf(b, env)
      case Yes => Some(1)
      case No => Some(0)
      case Unknown => None
  }

  /** The sum or the product of the operands; none if one is undefined. */
  function ValueAll(plus: bool, ops: seq<IExpr>, env: seq<int>): Option<int>
    decreases ops
  {
    if ops == [] then Some(Neutral(plus)) else Combine(plus, Value(ops[0], env), ValueAll(plus, ops[1..], env))
  }

  function TruthOf(b: BExpr, env: seq<int>): Truth
    decreases b
  {
    match b
    case BTrue => Yes
    case BFalse => No
    case BUndef => Unknown
    case Compare(op, l, r) =>
      var x, y := Value(l, env), Value(r, env);
      if x.Some? && y.Some? then FromBool(CmpEval(op, x.value, y.value)) else Unknown
    case NaryBool(conj, ops) => TruthAll(conj, ops, env)
    case Not(a) => Negated(TruthOf(a, env))
  }

  function TruthAll(conj: bool, ops: seq<BExpr>, env: seq<int>): Truth
    decreases ops
  {
    if ops == [] then FromBool(conj) else Both(conj, TruthOf(ops[0], env), TruthAll(conj, ops[1..], env))
  }

  // ----- The information order -----

  /** `b` says everything `a` says. */
  ghost predicate Refines(a: Option<int>, b: Option<int>) {
    a.Some? ==> b == a
  }

  ghost predicate RefinesTruth(a: Truth, b: Truth) {
    a != Unknown ==> b == a
  }

  lemma CombineMono(plus: bool, a: Option<int>, b: Option<int>, a': Option<int>, b': Option<int>)
    requires Refines(a, a') && Refines(b, b')
    ensures Refines(Combine(plus, a, b), Combine(plus, a', b'))
  {
  }

  lemma BothMono(conj: bool, a: Truth, b: Truth, a': Truth, b': Truth)
    requires RefinesTruth(a, a') && RefinesTruth(b, b')
    ensures RefinesTruth(Both(conj, a, b), Both(conj, a', b'))
  {
  }

  lemma {:induction false} ValueAllConcat(plus: bool, xs: seq<IExpr>, ys: seq<IExpr>, env: seq<int>)
    ensures ValueAll(plus, xs + ys, env) == Combine(plus, ValueAll(plus, xs, env), ValueAll(plus, ys, env))
    decreases |xs|
  {
    if xs == [] {
      assert xs + ys == ys;
    } else {
      ValueAllConcat(plus, xs[1..], ys, env);
      assert (xs + ys)[1..] == xs[1..] + ys;
      if !plus {
        var a, b, c := Value(xs[0], env), ValueAll(plus, xs[1..], env), ValueAll(plus, ys, env);
        if a.Some? && b.Some? && c.Some? {
          Associates(a.value, b.value, c.value);
        }
      }
    }
  }

  lemma Associates(a: int, b: int, c: int)
    ensures a * b * c == a * (b * c)
  {
  }

  lemma ValueAllOne(plus: bool, e: IExpr, env: seq<int>)
    ensures ValueAll(plus, [e], env) == Value(e, env)
  {
    assert ValueAll(plus, [e][1..], env) == Some(Neutral(plus));
  }

  lemma {:induction false} TruthAllConcat(conj: bool, xs: seq<BExpr>, ys: seq<BExpr>, env: seq<int>)
    ensures TruthAll(conj, xs + ys, env) == Both(conj, TruthAll(conj, xs, env), TruthAll(conj, ys, env))
    decreases |xs|
  {
    if xs == [] {
      assert xs + ys == ys;
    } else {
      TruthAllConcat(conj, xs[1..], ys, env);
      assert (xs + ys)[1..] == xs[1..] + ys;
    }
  }

  lemma TruthAllOne(conj: bool, b: BExpr, env: seq<int>)
    ensures TruthAll(conj, [b], env) == TruthOf(b, env)
  {
    assert TruthAll(conj, [b][1..], env) == FromBool(conj);
  }

  lemma {:induction false} ValueAllMono(plus: bool, xs: seq<IExpr>, ys: seq<IExpr>, env: seq<int>, env': seq<int>)
    requires |xs| == |ys| && forall i :: 0 <= i < |xs| ==> Refines(Value(xs[i], env), Value(ys[i], env'))
    ensures Refines(ValueAll(plus, xs, env), ValueAll(plus, ys, env'))
    decreases |xs|
  {
    if xs != [] {
      ValueAllMono(plus, xs[1..], ys[1..], env, env');
      CombineMono(plus, Value(xs[0], env), ValueAll(plus, xs[1..], env), Value(ys[0], env'), ValueAll(plus, ys[1..], env'));
    }
  }

  lemma {:induction false} TruthAllMono(conj: bool, xs: seq<BExpr>, ys: seq<BExpr>, env: seq<int>, env': seq<int>)
    requires |xs| == |ys| && forall i :: 0 <= i < |xs| ==> RefinesTruth(TruthOf(xs[i], env), TruthOf(ys[i], env'))
    ensures RefinesTruth(TruthAll(conj, xs, env), TruthAll(conj, ys, env'))
    decreases |xs|
  {
    if xs != [] {
      TruthAllMono(conj, xs[1..], ys[1..], env, env');
      BothMono(conj, TruthOf(xs[0], env), TruthAll(conj, xs[1..], env), TruthOf(ys[0], env'), TruthAll(conj, ys[1..], env'));
    }
  }

  // ----- n-ary sums and products -----

  /** The constant and the other operands an n-ary constructor has gathered; `poisoned` once it met an undefined one. */
  datatype Gathered = Gathered(poisoned: bool, acc: int, flat: seq<IExpr>)

  function Accumulate(plus: bool, acc: int, v: int): int {
    if plus then acc + v else acc * v
  }

  /** One operand of an operand of the same kind: never flattened again. */
  function GatherInner(plus: bool, g: Gathered, ops: seq<IExpr>): Gathered
    decreases |ops|
  {
    if ops == [] then g
    else
      var h := GatherInner(plus, g, ops[..|ops| - 1]);
      var x := ops[|ops| - 1];
      if x.Const? then h.(acc := Accumulate(plus, h.acc, x.value)) else h.(flat := h.flat + [x])
  }

  /** Gather one operand. */
  function GatherOne(plus: bool, g: Gathered, x: IExpr): Gathered {
    if g.poisoned || x.Undef? then g.(poisoned := true)
    else if x.Const? then g.(acc := Accumulate(plus, g.acc, x.value))
    else if x.Nary? && x.plus == plus then GatherInner(plus, g, x.ops)
    else g.(flat := g.flat + [x])
  }

  function Gather(plus: bool, xs: seq<IExpr>): Gathered
    decreases |xs|
  {
    if xs == [] then Gathered(false, Neutral(plus), [])
    else GatherOne(plus, Gather(plus, xs[..|xs| - 1]), xs[|xs| - 1])
  }

  /** The node of what was gathered. */
  function Close(plus: bool, g: Gathered): IExpr {
    if g.poisoned then Undef
    else if !plus && g.acc == 0 then Const(0)
    else
      var flat := if g.acc != Neutral(plus) || g.flat == [] then g.flat + [Const(g.acc)] else g.flat;
      if |flat| == 1 then flat[0] else Nary(plus, flat)
  }

  /** The normal form of an n-ary sum or product. */
  function NaryOf(plus: bool, xs: seq<IExpr>): IExpr {
    Close(plus, Gather(plus, xs))
  }

  /** The source's gathering loop computes the normal form. */
  method MakeNary(plus: bool, xs: seq<IExpr>) returns (e: IExpr)
    ensures e == NaryOf(plus, xs)
    ensures forall env :: Refines(ValueAll(plus, xs, env), Value(e, env))
  {
    forall env
      ensures Refines(ValueAll(plus, xs, env), Value(NaryOf(plus, xs), env))
    {
      NaryOfRefines(plus, xs, env);
    }
    var acc, flat: seq<IExpr> := Neutral(plus), [];
    for i := 0 to |xs|
      invariant Gather(plus, xs[..i]) == Gathered(false, acc, flat)
    {
      assert xs[..i + 1][..i] == xs[..i];
      var x := xs[i];
      if x.Undef? {
        GatherPoisoned(plus, xs, i + 1);
        return Undef;
      }
      if x.Const? {
        acc := Accumulate(plus, acc, x.value);
      } else if x.Nary? && x.plus == plus {
        var acc0, flat0 := acc, flat;
        for j := 0 to |x.ops|
          invariant GatherInner(plus, Gathered(false, acc0, flat0), x.ops[..j]) == Gathered(false, acc, flat)
        {
          assert x.ops[..j + 1][..j] == x.ops[..j];
          var op := x.ops[j];
          if op.Const? {
            acc := Accumulate(plus, acc, op.value);
          } else {
            flat := flat + [op];
          }
        }
        assert x.ops[..|x.ops|] == x.ops;
      } else {
        flat := flat + [x];
      }
    }
    assert xs[..|xs|] == xs;
    if !plus && acc == 0 {
      return Const(0);
    }
    if acc != Neutral(plus) || flat == [] {
      flat := flat + [Const(acc)];
    }
    if |flat| == 1 {
      return flat[0];
    }
    return Nary(plus, flat);
  }

  lemma {:induction false} GatherPoisoned(plus: bool, xs: seq<IExpr>, i: nat)
    requires i <= |xs| && Gather(plus, xs[..i]).poisoned
    ensures NaryOf(plus, xs) == Undef
    decreases |xs| - i
  {
    if i < |xs| {
      assert xs[..i + 1][..i] == xs[..i];
      GatherPoisoned(plus, xs, i + 1);
    } else {
      assert xs[..i] == xs;
    }
  }

  /** The value of what was gathered. */
  ghost function GatheredValue(plus: bool, g: Gathered, env: seq<int>): Option<int> {
    if g.poisoned then None else Combine(plus, Some(g.acc), ValueAll(plus, g.flat, env))
  }

  /** A constant may be folded in on either side. */
  lemma CombineConst(plus: bool, acc: int, v: int, f: Option<int>)
    ensures Combine(plus, Combine(plus, Some(acc), f), Some(v)) == Combine(plus, Some(Accumulate(plus, acc, v)), f)
  {
    if f.Some? && !plus {
      Associates(acc, f.value, v);
      Associates(acc, v, f.value);
      assert f.value * v == v * f.value;
    }
  }

  lemma CombineAssociates(plus: bool, a: Option<int>, b: Option<int>, c: Option<int>)
    ensures Combine(plus, Combine(plus, a, b), c) == Combine(plus, a, Combine(plus, b, c))
  {
    if a.Some? && b.Some? && c.Some? && !plus {
      Associates(a.value, b.value, c.value);
    }
  }

  lemma {:induction false} GatherInnerValue(plus: bool, g: Gathered, ops: seq<IExpr>, env: seq<int>)
    requires !g.poisoned
    ensures !GatherInner(plus, g, ops).poisoned
    ensures GatheredValue(plus, GatherInner(plus, g, ops), env)
            == Combine(plus, GatheredValue(plus, g, env), ValueAll(plus, ops, env))
    decreases |ops|
  {
    if ops != [] {
      var n := |ops| - 1;
      var h := GatherInner(plus, g, ops[..n]);
      GatherInnerValue(plus, g, ops[..n], env);
      assert ops == ops[..n] + [ops[n]];
      ValueAllConcat(plus, ops[..n], [ops[n]], env);
      ValueAllOne(plus, ops[n], env);
      CombineAssociates(plus, GatheredValue(plus, g, env), ValueAll(plus, ops[..n], env), Value(ops[n], env));
      AddOperand(plus, h, ops[n], env);
    }
  }

  /** Adding one operand that is not flattened. */
  lemma AddOperand(plus: bool, g: Gathered, x: IExpr, env: seq<int>)
    requires !g.poisoned
    ensures x.Const? ==> GatheredValue(plus, g.(acc := Accumulate(plus, g.acc, x.value)), env)
                         == Combine(plus, GatheredValue(plus, g, env), Value(x, env))
    ensures GatheredValue(plus, g.(flat := g.flat + [x]), env)
            == Combine(plus, GatheredValue(plus, g, env), Value(x, env))
  {
    if x.Const? {
      CombineConst(plus, g.acc, x.value, ValueAll(plus, g.flat, env));
    }
    ValueAllConcat(plus, g.flat, [x], env);
    ValueAllOne(plus, x, env);
    CombineAssociates(plus, Some(g.acc), ValueAll(plus, g.flat, env), Value(x, env));
  }

  lemma {:induction false} GatherValue(plus: bool, xs: seq<IExpr>, env: seq<int>)
    ensures GatheredValue(plus, Gather(plus, xs), env) == ValueAll(plus, xs, env)
    decreases |xs|
  {
    if xs != [] {
      var n := |xs| - 1;
      var g, x := Gather(plus, xs[..n]), xs[n];
      GatherValue(plus, xs[..n], env);
      assert xs == xs[..n] + [x];
      ValueAllConcat(plus, xs[..n], [x], env);
      ValueAllOne(plus, x, env);
      if !g.poisoned && !x.Undef? {
        AddOperand(plus, g, x, env);
        if x.Nary? && x.plus == plus {
          GatherInnerValue(plus, g, x.ops, env);
        }
      }
    }
  }

  /** The n-ary normal form refines the plain sum or product: only a zero factor may decide more. */
  lemma NaryOfRefines(plus: bool, xs: seq<IExpr>, env: seq<int>)
    ensures Refines(ValueAll(plus, xs, env), Value(NaryOf(plus, xs), env))
  {
    var g := Gather(plus, xs);
    GatherValue(plus, xs, env);
    if !g.poisoned && (plus || g.acc != 0) {
      var c := [Const(g.acc)];
      ValueAllConcat(plus, g.flat, c, env);
      ValueAllOne(plus, c[0], env);
      var flat := if g.acc != Neutral(plus) || g.flat == [] then g.flat + c else g.flat;
      CombineCommutes(plus, Some(g.acc), ValueAll(plus, g.flat, env));
      assert ValueAll(plus, flat, env) == GatheredValue(plus, g, env);
      if |flat| == 1 {
        assert flat == [flat[0]];
        ValueAllOne(plus, flat[0], env);
      }
    }
  }

  lemma CombineCommutes(plus: bool, a: Option<int>, b: Option<int>)
    ensures Combine(plus, a, b) == Combine(plus, b, a)
    ensures Combine(plus, Some(Neutral(plus)), b) == b
  {
  }

  // ----- The other constructors -----

  function BinaryOf(op: BinOp, a: IExpr, b: IExpr): (r: IExpr)
    ensures forall env :: Refines(Value(Binary(op, a, b), env), Value(r, env))
  {
    if a.Undef? || b.Undef? then Undef
    else if a.Const? && b.Const? then
      match Fold(op, a.value, b.value)
      case Some(v) => Const(v)
      case None => Undef
    else Binary(op, a, b)
  }

  function BitCompOf(a: IExpr): (r: IExpr)
    ensures forall env :: Refines(Value(BitComp(a), env), Value(r, env))
  {
    if a.Undef? then Undef else if a.Const? then Const(-a.value - 1) else BitComp(a)
  }

  /** A constant index picks its cell; out of bounds is undefined. */
  function ArrayOf(cells: seq<int>, index: IExpr): (r: IExpr)
    ensures forall env :: Refines(Value(Array(cells, index), env), Value(r, env))
  {
    if index.Undef? then Undef
    else if index.Const? then
      (if 0 <= index.value < |cells| then Var(cells[index.value]) else Undef)
    else Array(cells, index)
  }

  function WrapOf(b: BExpr): (r: IExpr)
    ensures forall env :: Refines(Value(Wrap(b), env), Value(r, env))
  {
    match b
    case BTrue => Const(1)
    case BFalse => Const(0)
    case BUndef => Undef
    case _ => Wrap(b)
  }

  /** Comparisons decide constants, and equal sides by reflexivity. */
  function CompareOf(op: CmpOp, l: IExpr, r: IExpr): (b: BExpr)
    ensures forall env :: RefinesTruth(TruthOf(Compare(op, l, r), env), TruthOf(b, env))
  {
    if l.Undef? || r.Undef? then BUndef
    else if l.Const? && r.Const? then (if CmpEval(op, l.value, r.value) then BTrue else BFalse)
    else if l == r then (if CmpEval(op, 0, 0) then BTrue else BFalse)
    else Compare(op, l, r)
  }

  function Flipped(op: CmpOp): CmpOp {
    match op
    case Eq => Neq
    case Neq => Eq
    case Lt => Geq
    case Geq => Lt
    case Gt => Leq
    case Leq => Gt
  }

  function Neg(a: BExpr): (r: BExpr)
    ensures forall env :: RefinesTruth(Negated(TruthOf(a, env)), TruthOf(r, env))
  {
    match a
    case BTrue => BFalse
    case BFalse => BTrue
    case BUndef => BUndef
    case Compare(op, l, r) => CompareOf(Flipped(op), l, r)
    case Not(b) => b
    case NaryBool(_, _) => Not(a)
  }

  // ----- n-ary conjunctions and disjunctions -----

  function Decided(v: bool): BExpr {
    if v then BTrue else BFalse
  }

  /** The operands without the neutral ones, same-kind operands spliced in. */
  function Spliced(conj: bool, xs: seq<BExpr>): seq<BExpr>
    decreases |xs|
  {
    if xs == [] then []
    else
      var before, x := Spliced(conj, xs[..|xs| - 1]), xs[|xs| - 1];
      if x == Decided(conj) then before
      else if x.NaryBool? && x.conj == conj then before + x.bops
      else before + [x]
  }

  /** Each operand once. */
  function Deduplicated(xs: seq<BExpr>): (r: seq<BExpr>)
    ensures forall x :: x in r <==> x in xs
    decreases |xs|
  {
    if xs == [] then []
    else
      var before, x := Deduplicated(xs[..|xs| - 1]), xs[|xs| - 1];
      assert xs == xs[..|xs| - 1] + [x];
      if x in before then before else before + [x]
  }

  function NaryBoolOf(conj: bool, xs: seq<BExpr>): BExpr {
    if Decided(!conj) in xs then Decided(!conj)
    else
      var flat := Deduplicated(Spliced(conj, xs));
      if flat == [] then Decided(conj)
      else if |flat| == 1 then flat[0]
      else NaryBool(conj, flat)
  }

  method MakeNaryBool(conj: bool, xs: seq<BExpr>) returns (b: BExpr)
    ensures b == NaryBoolOf(conj, xs)
    ensures forall env :: TruthOf(b, env) == TruthAll(conj, xs, env)
  {
    forall env
      ensures TruthOf(NaryBoolOf(conj, xs), env) == TruthAll(conj, xs, env)
    {
      NaryBoolOfExact(conj, xs, env);
    }
    for i := 0 to |xs|
      invariant forall j :: 0 <= j < i ==> xs[j] != Decided(!conj)
    {
      if xs[i] == Decided(!conj) {
        return Decided(!conj);
      }
    }
    var flat: seq<BExpr> := [];
    for i := 0 to |xs|
      invariant flat == Spliced(conj, xs[..i])
    {
      assert xs[..i + 1][..i] == xs[..i];
      if xs[i] != Decided(conj) {
        flat := flat + (if xs[i].NaryBool? && xs[i].conj == conj then xs[i].bops else [xs[i]]);
      }
    }
    assert xs[..|xs|] == xs;
    var once: seq<BExpr> := [];
    for i := 0 to |flat|
      invariant once == Deduplicated(flat[..i])
    {
      assert flat[..i + 1][..i] == flat[..i];
      if flat[i] !in once {
        once := once + [flat[i]];
      }
    }
    assert flat[..|flat|] == flat;
    if once == [] {
      return Decided(conj);
    }
    if |once| == 1 {
      return once[0];
    }
    return NaryBool(conj, once);
  }

  lemma {:induction false} SplicedTruth(conj: bool, xs: seq<BExpr>, env: seq<int>)
    ensures TruthAll(conj, Spliced(conj, xs), env) == TruthAll(conj, xs, env)
    decreases |xs|
  {
    if xs != [] {
      var n := |xs| - 1;
      var x := xs[n];
      SplicedTruth(conj, xs[..n], env);
      assert xs == xs[..n] + [x];
      TruthAllConcat(conj, xs[..n], [x], env);
      TruthAllOne(conj, x, env);
      var before := Spliced(conj, xs[..n]);
      if x == Decided(conj) {
        assert TruthOf(x, env) == FromBool(conj);
      } else if x.NaryBool? && x.conj == conj {
        TruthAllConcat(conj, before, x.bops, env);
        assert TruthOf(x, env) == TruthAll(conj, x.bops, env);
      } else {
        TruthAllConcat(conj, before, [x], env);
      }
    }
  }

  /** What a conjunction or disjunction is depends on the set of its operands. */
  lemma {:induction false} TruthAllSays(conj: bool, xs: seq<BExpr>, env: seq<int>)
    ensures TruthAll(conj, xs, env) == FromBool(!conj) <==> exists x :: x in xs && TruthOf(x, env) == FromBool(!conj)
    ensures TruthAll(conj, xs, env) == FromBool(conj) <==> forall x :: x in xs ==> TruthOf(x, env) == FromBool(conj)
    decreases |xs|
  {
    if xs != [] {
      TruthAllSays(conj, xs[1..], env);
      assert xs[0] in xs && forall x :: x in xs <==> x == xs[0] || x in xs[1..];
    }
  }

  lemma SameOperands(conj: bool, xs: seq<BExpr>, ys: seq<BExpr>, env: seq<int>)
    requires forall x :: x in xs <==> x in ys
    ensures TruthAll(conj, xs, env) == TruthAll(conj, ys, env)
  {
    TruthAllSays(conj, xs, env);
    TruthAllSays(conj, ys, env);
  }

  /** The boolean normal form is exact in all three truth values. */
  lemma NaryBoolOfExact(conj: bool, xs: seq<BExpr>, env: seq<int>)
    ensures TruthOf(NaryBoolOf(conj, xs), env) == TruthAll(conj, xs, env)
  {
    if Decided(!conj) in xs {
      TruthAllSays(conj, xs, env);
    } else {
      var flat := Deduplicated(Spliced(conj, xs));
      SplicedTruth(conj, xs, env);
      SameOperands(conj, flat, Spliced(conj, xs), env);
      if |flat| == 1 {
        assert flat == [flat[0]];
        TruthAllOne(conj, flat[0], env);
      }
    }
  }
}
