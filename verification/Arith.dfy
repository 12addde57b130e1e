/**
 What the operators of the expression language compute, as laws of arithmetic
 (src/lia_int.cc, src/lia_bool.cc, src/int_set.cc).
 */
module Arithmetic {
  import opened Leaves
  import opened Expressions
  import opened Terms

  // ----- Sums, products, differences -----

  /** Two operands are added or multiplied; a product is a repeated sum. */
  lemma NaryLaw(x: int, y: int, env: seq<int>)
    ensures Value(Nary(true, [Const(x), Const(y)]), env) == Some(x + y)
    ensures Value(Nary(false, [Const(x), Const(y)]), env) == Some(x * y)
    ensures Value(Nary(true, []), env) == Some(0) && Value(Nary(false, []), env) == Some(1)
  {
    var xs, ys := [Const(x)], [Const(y)];
    assert [Const(x), Const(y)] == xs + ys;
    forall plus
      ensures ValueAll(plus, xs + ys, env) == Combine(plus, Some(x), Some(y))
    {
      ValueAllConcat(plus, xs, ys, env);
      ValueAllOne(plus, Const(x), env);
      ValueAllOne(plus, Const(y), env);
    }
  }

  /** The difference is what the subtrahend lacks. */
  lemma MinusLaw(l: int, r: int)
    ensures Fold(Minus, l, r).Some? && Fold(Minus, l, r).value + r == l
  {
  }

  lemma BitCompLaw(v: int, env: seq<int>)
    ensures Value(BitComp(Const(v)), env).Some? && Value(BitComp(Const(v)), env).value + v == -1
  {
  }

  // ----- Division -----

  lemma Quotient(a: nat, b: nat) returns (k: int, m: int)
    requires b > 0
    ensures k == a / b && k >= 0 && a == k * b + m && 0 <= m < b
  {
    k, m := a / b, a % b;
  }

  lemma Opposite(q: int, r: int)
    ensures (-q) * r == -(q * r) && (-q) * (-r) == q * r && q * (-r) == -(q * r)
  {
  }

  /** `q` and `m` are quotient and remainder of a division that rounds toward zero. */
  ghost predicate Divides(l: int, r: int, q: int, m: int) {
    l == q * r + m && Abs(m) < Abs(r) && (m == 0 || (m > 0 <==> l > 0))
  }

  /** Quotient and remainder of the magnitudes, with the signs put back. */
  lemma Signed(l: int, r: int, k: int, m: int)
    requires r != 0 && Abs(l) == k * Abs(r) + m && 0 <= m < Abs(r) && k >= 0
    ensures Divides(l, r, if (l >= 0) == (r > 0) then k else -k, if l >= 0 then m else -m)
  {
    Opposite(k, r);
  }

  lemma Rest(l: int, r: int, q: int, m: int)
    requires Divides(l, r, q, m)
    ensures Divides(l, r, q, l - r * q)
  {
    assert q * r == r * q;
  }

  lemma TruncDivides(l: int, r: int)
    requires r != 0
    ensures Divides(l, r, TruncDiv(l, r), l - r * TruncDiv(l, r))
  {
    var k, m := Quotient(Abs(l), Abs(r));
    Signed(l, r, k, m);
    hide Divides;
    Rest(l, r, if (l >= 0) == (r > 0) then k else -k, if l >= 0 then m else -m);
  }

  /** Quotient and remainder: undefined by zero, else the remainder is smaller than the divisor and has the dividend's sign. */
  lemma DivModLaw(l: int, r: int)
    ensures Fold(Div, l, r).None? <==> r == 0
    ensures Fold(Mod, l, r).None? <==> r == 0
    ensures r != 0 ==> Divides(l, r, Fold(Div, l, r).value, Fold(Mod, l, r).value)
  {
    hide Divides, TruncDiv;
    if r != 0 {
      TruncDivides(l, r);
    }
  }

  /** These conditions determine quotient and remainder. */
  lemma DividesUnique(l: int, r: int, q: int, m: int, q': int, m': int)
    requires r != 0 && Divides(l, r, q, m) && Divides(l, r, q', m')
    ensures q == q' && m == m'
  {
    var d := q - q';
    assert d * r == m' - m;
    if d != 0 {
      Multiple(d, r);
    }
  }

  lemma Times(a: nat, b: nat)
    requires a >= 1
    ensures a * b >= b
  {
    assert a * b == b + (a - 1) * b;
  }

  lemma Multiple(d: int, r: int)
    requires d != 0
    ensures Abs(d * r) >= Abs(r)
  {
    Times(Abs(d), Abs(r));
    Opposite(d, r);
    Opposite(Abs(d), Abs(r));
    assert d * r == Abs(d) * Abs(r) || d * r == -(Abs(d) * Abs(r));
  }

  // ----- Powers and shifts -----

  lemma PowLaw(b: int, n: int)
    ensures Fold(Pow, b, n).None? <==> n < 0
    ensures Fold(Pow, b, 0) == Some(1)
    ensures n >= 0 ==> Fold(Pow, b, n + 1) == Some(b * Fold(Pow, b, n).value)
  {
  }

  lemma {:induction false} PowerPositive(n: nat)
    ensures Power(2, n) > 0
    decreases n
  {
    if n > 0 {
      PowerPositive(n - 1);
    }
  }

  /** The shifts, by fewer than 32 places: the product by the power of two, and the floor of the quotient. */
  lemma ShiftLaw(l: int, r: int)
    ensures Fold(LShift, l, r).None? <==> !(0 <= r < 32)
    ensures Fold(RShift, l, r).None? <==> !(0 <= r < 32)
    ensures 0 <= r < 32 ==> Fold(LShift, l, r) == Some(l * Fold(Pow, 2, r).value)
    ensures 0 <= r < 32 ==>
              var p, v := Fold(Pow, 2, r).value, Fold(RShift, l, r).value;
              v * p <= l < v * p + p
  {
    if 0 <= r < 32 {
      PowerPositive(r);
      var p := Power(2, r);
      Floor(l, p);
    }
  }

  lemma Floor(l: int, p: int)
    requires p > 0
    ensures (l / p) * p <= l < (l / p) * p + p
  {
  }

  // ----- Bits -----

  /** Bit `i` of the two's complement of `x`. */
  ghost predicate BitAt(x: int, i: nat)
    decreases i
  {
    if i == 0 then x % 2 == 1 else BitAt(x / 2, i - 1)
  }

  lemma Halves(x: int, b: bool)
    ensures (2 * x + if b then 1 else 0) / 2 == x && ((2 * x + if b then 1 else 0) % 2 == 1 <==> b)
  {
  }

  lemma BitwiseHalf(op: BinOp, l: int, r: int)
    ensures Bitwise(op, l, r) / 2 == Bitwise(op, l / 2, r / 2)
    ensures Bitwise(op, l, r) % 2 == 1 <==> Bit(op, l % 2 == 1, r % 2 == 1)
  {
    if !(-1 <= l <= 0 && -1 <= r <= 0) {
      Halves(Bitwise(op, l / 2, r / 2), Bit(op, l % 2 == 1, r % 2 == 1));
    }
  }

  /** Every bit of the result is the connective of the operands' bits. */
  lemma {:induction false} BitwiseLaw(l: int, r: int, i: nat)
    ensures Fold(BitAnd, l, r).Some? && (BitAt(Fold(BitAnd, l, r).value, i) <==> BitAt(l, i) && BitAt(r, i))
    ensures Fold(BitOr, l, r).Some? && (BitAt(Fold(BitOr, l, r).value, i) <==> BitAt(l, i) || BitAt(r, i))
    ensures Fold(BitXor, l, r).Some? && (BitAt(Fold(BitXor, l, r).value, i) <==> BitAt(l, i) != BitAt(r, i))
    decreases i
  {
    BitwiseHalf(BitAnd, l, r);
    BitwiseHalf(BitOr, l, r);
    BitwiseHalf(BitXor, l, r);
    if i > 0 {
      BitwiseLaw(l / 2, r / 2, i - 1);
    }
  }

  /** An integer is determined by its bits. */
  lemma {:induction false} BitsDetermine(x: int, y: int)
    requires forall i: nat :: BitAt(x, i) <==> BitAt(y, i)
    ensures x == y
    decreases Abs(x) + Abs(y)
  {
    assert BitAt(x, 0) <==> BitAt(y, 0);
    if !(-1 <= x <= 0 && -1 <= y <= 0) {
      forall i: nat
        ensures BitAt(x / 2, i) <==> BitAt(y / 2, i)
      {
        assert BitAt(x, i + 1) <==> BitAt(y, i + 1);
      }
      BitsDetermine(x / 2, y / 2);
    }
  }

  // ----- Comparisons and remainders -----

  /** The six comparisons, by the order of the integers. */
  lemma CompareLaw(l: int, r: int)
    ensures CmpEval(Lt, l, r) <==> r - l > 0
    ensures CmpEval(Gt, l, r) <==> l - r > 0
    ensures CmpEval(Leq, l, r) <==> r - l >= 0
    ensures CmpEval(Geq, l, r) <==> l - r >= 0
    ensures CmpEval(Eq, l, r) <==> l - r == 0
    ensures CmpEval(Neq, l, r) <==> l - r != 0
  {
  }

  /** A transform with a modulo ends in `0..modulo`, a multiple of it away. */
  lemma WrappedLaw(v: int, modulo: int)
    ensures modulo == 0 ==> Wrapped(v, modulo) == v
    ensures modulo > 0 ==> 0 <= Wrapped(v, modulo) < modulo && exists k :: v == Wrapped(v, modulo) + k * modulo
  {
    if modulo > 0 {
      assert v == Wrapped(v, modulo) + (v / modulo) * modulo;
    }
  }
}
