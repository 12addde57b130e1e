/**
 Counting the original markings a diagram stands for: a leaf may stand for several
 places over which its tokens are freely distributed
 (src/surface_enabled_count.cc, src/surface_weighted_count.cc).
 */
module Counting {
  import opened Finite
  import opened Diagrams
  import opened Algebra

  // ----- Binomials -----

  function Binomial(n: nat, k: nat): nat {
    if k == 0 then 1 else if n == 0 then 0 else Binomial(n - 1, k - 1) + Binomial(n - 1, k)
  }

  lemma {:induction false} BinomialAbove(n: nat, k: nat)
    requires k > n
    ensures Binomial(n, k) == 0
  {
    if n > 0 {
      BinomialAbove(n - 1, k - 1);
      BinomialAbove(n - 1, k);
    }
  }

  /** k C(n, k) = n C(n - 1, k - 1). */
  lemma {:induction false} Absorption(n: nat, k: nat)
    requires n >= 1 && k >= 1
    ensures k * Binomial(n, k) == n * Binomial(n - 1, k - 1)
  {
    if n == 1 {
      if k > 1 {
        BinomialAbove(1, k);
        BinomialAbove(0, k - 1);
      }
    } else if k == 1 {
      Absorption(n - 1, 1);
      assert Binomial(n, 1) == Binomial(n - 1, 0) + Binomial(n - 1, 1);
    } else {
      Absorption(n - 1, k);
      Absorption(n - 1, k - 1);
      AbsorptionArithmetic(n, k, Binomial(n - 2, k - 2), Binomial(n - 2, k - 1), Binomial(n - 1, k));
    }
  }

  lemma Distributes(x: int, y: int, z: int)
    ensures x * (y + z) == x * y + x * z && (y + z) * x == y * x + z * x
  {
  }

  lemma AbsorptionArithmetic(n: int, k: int, a: int, b: int, c: int)
    requires k * c == (n - 1) * b && (k - 1) * (a + b) == (n - 1) * a
    ensures k * (a + b + c) == n * (a + b)
  {
    var s := a + b;
    Distributes(k, s, c);
    Distributes(s, k - 1, 1);
    Distributes(n - 1, a, b);
    Distributes(s, n - 1, 1);
  }

  lemma {:induction false} Symmetry(a: nat, b: nat)
    ensures Binomial(a + b, a) == Binomial(a + b, b)
    decreases a + b
  {
    if a == 0 || b == 0 {
      BinomialFull(a + b);
    } else {
      Symmetry(a - 1, b);
      Symmetry(a, b - 1);
    }
  }

  lemma {:induction false} BinomialFull(n: nat)
    ensures Binomial(n, n) == 1
  {
    if n > 0 {
      BinomialFull(n - 1);
      BinomialAbove(n - 1, n);
    }
  }

  // ----- Tuples -----

  function Sum(t: seq<nat>): nat {
    if t == [] then 0 else t[0] + Sum(t[1..])
  }

  function Raised(t: seq<nat>, more: nat): seq<nat> {
    if t == [] then [] else [t[0] + more] + t[1..]
  }

  ghost function ZeroFirst(A: set<seq<nat>>): set<seq<nat>> {
    set t | t in A :: [0] + t
  }

  ghost function AllRaised(A: set<seq<nat>>, more: nat): set<seq<nat>> {
    set t | t in A :: Raised(t, more)
  }

  /** The k-tuples of naturals with a given sum: the first part is zero, or one more than in a tuple with a smaller sum. */
  ghost function Tuples(total: nat, k: nat): set<seq<nat>>
    decreases k, total
  {
    if k == 0 then (if total == 0 then {[]} else {})
    else
      ZeroFirst(Tuples(total, k - 1)) + (if total == 0 then {} else AllRaised(Tuples(total - 1, k), 1))
  }

  lemma ZeroTuple(total: nat, k: nat, u: seq<nat>)
    requires k > 0 && u in Tuples(total, k - 1)
    ensures [0] + u in Tuples(total, k)
  {
    assert [0] + u in ZeroFirst(Tuples(total, k - 1));
  }

  lemma RaisedTuple(total: nat, k: nat, u: seq<nat>)
    requires k > 0 && total > 0 && u in Tuples(total - 1, k)
    ensures Raised(u, 1) in Tuples(total, k)
  {
    assert Raised(u, 1) in AllRaised(Tuples(total - 1, k), 1);
  }

  /** A tuple is one of the two. */
  lemma TupleFrom(total: nat, k: nat, t: seq<nat>) returns (zero: bool, u: seq<nat>)
    requires k > 0 && t in Tuples(total, k)
    ensures zero ==> u in Tuples(total, k - 1) && t == [0] + u
    ensures !zero ==> total > 0 && u in Tuples(total - 1, k) && t == Raised(u, 1)
  {
    zero := t in ZeroFirst(Tuples(total, k - 1));
    if zero {
      u :| u in Tuples(total, k - 1) && t == [0] + u;
    } else {
      u :| u in Tuples(total - 1, k) && t == Raised(u, 1);
    }
  }

  lemma InNoTuples(total: nat, t: seq<nat>)
    ensures t in Tuples(total, 0) <==> |t| == 0 && Sum(t) == total
  {
  }

  lemma {:induction false} InTuples(total: nat, k: nat, t: seq<nat>)
    ensures t in Tuples(total, k) <==> |t| == k && Sum(t) == total
    decreases k, total
  {
    hide Tuples;
    if k == 0 {
      InNoTuples(total, t);
    } else {
      if t in Tuples(total, k) {
        TupleSound(total, k, t);
      }
      if |t| == k && Sum(t) == total {
        assert t == [t[0]] + t[1..];
        if t[0] == 0 {
          InTuples(total, k - 1, t[1..]);
          ZeroTuple(total, k, t[1..]);
        } else {
          var u := [t[0] - 1] + t[1..];
          assert u[1..] == t[1..] && Raised(u, 1) == t;
          InTuples(total - 1, k, u);
          RaisedTuple(total, k, u);
        }
      }
    }
  }

  lemma {:induction false} TupleSound(total: nat, k: nat, t: seq<nat>)
    requires t in Tuples(total, k)
    ensures |t| == k && Sum(t) == total
    decreases k, total, 0
  {
    hide Tuples;
    if k == 0 {
      InNoTuples(total, t);
    } else {
      var zero, u := TupleFrom(total, k, t);
      if zero {
        TupleSound(total, k - 1, u);
        assert t[1..] == u;
      } else {
        TupleSound(total - 1, k, u);
        assert t[1..] == u[1..];
      }
    }
  }

  /** An image under a one-to-one map has as many elements. */
  lemma {:induction false} ImageSize<T(!new), U(!new)>(A: set<T>, f: T -> U, B: set<U>)
    requires B == set x | x in A :: f(x)
    requires forall x, y :: x in A && y in A && f(x) == f(y) ==> x == y
    ensures |B| == |A|
    decreases |A|
  {
    if A != {} {
      var a :| a in A;
      var A' := A - {a};
      var B' := set x | x in A' :: f(x);
      assert B == B' + {f(a)};
      assert f(a) !in B';
      ImageSize(A', f, B');
    }
  }

  lemma PartsApart(total: nat, k: nat)
    requires k >= 1 && total > 0
    ensures ZeroFirst(Tuples(total, k - 1)) !! AllRaised(Tuples(total - 1, k), 1)
  {
    hide Tuples;
    var A, B := ZeroFirst(Tuples(total, k - 1)), AllRaised(Tuples(total - 1, k), 1);
    forall t | t in B
      ensures t !in A
    {
      var u :| u in Tuples(total - 1, k) && t == Raised(u, 1);
      InTuples(total - 1, k, u);
      assert t[0] > 0;
    }
  }

  lemma SizeOfUnion(A: set<seq<nat>>, B: set<seq<nat>>)
    requires A !! B
    ensures |A + B| == |A| + |B|
  {
  }

  lemma TuplesCount(total: nat, k: nat)
    requires k >= 1
    ensures |Tuples(total, k)| == |Tuples(total, k - 1)| + if total == 0 then 0 else |Tuples(total - 1, k)|
  {
    var A := ZeroFirst(Tuples(total, k - 1));
    LeadingZero(Tuples(total, k - 1), A);
    if total > 0 {
      var B := AllRaised(Tuples(total - 1, k), 1);
      LeadingRaised(total - 1, k, 1, B);
      PartsApart(total, k);
      SizeOfUnion(A, B);
      assert Tuples(total, k) == A + B;
    } else {
      assert Tuples(total, k) == A + {};
      assert A + {} == A;
    }
  }

  /** Pascal's rule, counted by hand. */
  ghost function Compositions(total: nat, k: nat): nat
    decreases k, total
  {
    if k == 0 then (if total == 0 then 1 else 0)
    else Compositions(total, k - 1) + if total == 0 then 0 else Compositions(total - 1, k)
  }

  lemma TuplesNone(total: nat)
    ensures Counts(total, 0, if total == 0 then 1 else 0)
  {
  }

  /** `n` is the number of tuples. */
  ghost predicate Counts(total: nat, k: nat, n: nat) {
    n == |Tuples(total, k)|
  }

  lemma {:induction false} TuplesCompositions(total: nat, k: nat)
    ensures Counts(total, k, Compositions(total, k))
    decreases k, total
  {
    hide Counts;
    if k == 0 {
      TuplesNone(total);
    } else {
      TuplesCompositions(total, k - 1);
      if total > 0 {
        TuplesCompositions(total - 1, k);
      }
      CountsStep(total, k, Compositions(total, k - 1), if total == 0 then 0 else Compositions(total - 1, k));
    }
  }

  lemma CountsStep(total: nat, k: nat, a: nat, b: nat)
    requires k > 0 && Counts(total, k - 1, a) && if total == 0 then b == 0 else Counts(total - 1, k, b)
    ensures Counts(total, k, a + b)
  {
    TuplesCount(total, k);
  }

  lemma {:induction false} CompositionsBinomial(total: nat, k: nat)
    requires k >= 1
    ensures Compositions(total, k) == Binomial(total + k - 1, k - 1)
    decreases k, total
  {
    if total > 0 {
      CompositionsBinomial(total - 1, k);
    }
    if k > 1 {
      CompositionsBinomial(total, k - 1);
      if total == 0 {
        BinomialFull(k - 1);
        BinomialFull(k - 2);
      }
    }
  }

  /** There are C(total + k - 1, k - 1) such tuples. */
  lemma TuplesSize(total: nat, k: nat)
    requires k >= 1
    ensures |Tuples(total, k)| == Binomial(total + k - 1, k - 1)
  {
    hide Tuples, Compositions, Binomial;
    TuplesCompositions(total, k);
    CompositionsBinomial(total, k);
  }

  lemma LeadingZero(A: set<seq<nat>>, B: set<seq<nat>>)
    requires B == ZeroFirst(A)
    ensures |B| == |A|
  {
    var f := (t: seq<nat>) => [0] + t;
    assert B == set t | t in A :: f(t);
    forall x: seq<nat>, y: seq<nat> | f(x) == f(y)
      ensures x == y
    {
      assert f(x)[1..] == x && f(y)[1..] == y;
    }
    ImageSize(A, f, B);
  }

  lemma LeadingRaised(total: nat, k: nat, more: nat, B: set<seq<nat>>)
    requires k >= 1 && B == AllRaised(Tuples(total, k), more)
    ensures |B| == |Tuples(total, k)|
  {
    hide Tuples;
    var f := (t: seq<nat>) => Raised(t, more);
    assert B == set t | t in Tuples(total, k) :: f(t);
    forall x, y | x in Tuples(total, k) && y in Tuples(total, k) && f(x) == f(y)
      ensures x == y
    {
      InTuples(total, k, x);
      InTuples(total, k, y);
      RaisedInjective(x, y, more);
    }
    ImageSize(Tuples(total, k), f, B);
  }

  /** One multiplication and one exact division. */
  method WaysStep(v: nat, base: nat, i: nat) returns (r: nat)
    requires i >= 1 && v == Binomial(base + i - 1, i - 1)
    ensures r == Binomial(base + i, i) && v * (base + i) == r * i
  {
    Absorption(base + i, i);
    ghost var q := Binomial(base + i, i);
    assert v * (base + i) == i * q;
    ExactDivision(v * (base + i), i, q);
    r := v * (base + i) / i;
  }

  /** The multiplicative loop: every division is exact, and the result is the number of tuples. */
  method Ways(tokens: int, k: nat) returns (v: nat)
    requires k >= 1
    ensures v == if tokens < 0 then 0 else |Tuples(tokens, k)|
  {
    if tokens < 0 {
      return 0;
    }
    v := 1;
    var steps := if tokens < k - 1 then tokens else k - 1;
    var base := if tokens < k - 1 then k - 1 else tokens;
    for i := 1 to steps + 1
      invariant v == Binomial(base + i - 1, i - 1)
    {
      v := WaysStep(v, base, i);
    }
    assert base + steps == tokens + k - 1;
    Symmetry(tokens, k - 1);
    TuplesSize(tokens, k);
  }

  lemma ExactDivision(x: nat, d: nat, q: nat)
    requires d >= 1 && x == d * q
    ensures x % d == 0 && x / d == q
  {
    var y, r := x / d, x % d;
    assert x == d * y + r;
    Distributes(d, q, -y);
    AtLeastOnce(d, q - y);
  }

  lemma AtLeastOnce(d: int, z: int)
    requires d >= 1
    ensures z >= 1 ==> d * z >= d
    ensures z <= -1 ==> d * z <= -d
  {
    if z >= 1 {
      Distributes(d, z - 1, 1);
      assert d * (z - 1) >= 0;
    }
    if z <= -1 {
      Distributes(d, z + 1, -1);
      assert d * (z + 1) <= 0;
    }
  }

  // ----- Original markings -----

  /** An original marking: the parts of each leaf's total, laid out along the shape. */
  datatype Marking = NoPlace | Places(parts: seq<nat>) | Joined(head: Marking, tail: Marking)

  /** How many places the leaf at a position stands for. */
  function WeightAt(weights: map<nat, nat>, pos: nat): nat {
    if pos in weights then weights[pos] else 1
  }

  /** A leaf stands for at least one place. */
  ghost predicate Weighed(weights: map<nat, nat>) {
    forall p :: p in weights ==> weights[p] >= 1
  }

  /** How many tokens the first place of the leaf must hold. */
  function DemandAt(demands: map<nat, nat>, pos: nat): nat {
    if pos in demands then demands[pos] else 0
  }

  /** The marking has the places of the shape, and the demanded tokens. */
  ghost predicate Fits(sh: Shape, base: nat, weights: map<nat, nat>, demands: map<nat, nat>, o: Marking) {
    match sh
    case Unit => o == NoPlace
    case Leaf =>
      o.Places? && |o.parts| == WeightAt(weights, base) && |o.parts| >= 1 && o.parts[0] >= DemandAt(demands, base)
    case Pair(h, t) =>
      o.Joined? && Fits(h, base, weights, demands, o.head) && Fits(t, base + Width(h), weights, demands, o.tail)
  }

  /** What the maps ask of a leaf: so many places, one if none are listed, and the demand, if any, in the first. */
  lemma FitsLeaf(base: nat, weights: map<nat, nat>, demands: map<nat, nat>, o: Marking)
    ensures Fits(Leaf, base, weights, demands, o) <==>
            && o.Places? && |o.parts| >= 1
            && (base in weights ==> |o.parts| == weights[base]) && (base !in weights ==> |o.parts| == 1)
            && (base in demands ==> o.parts[0] >= demands[base])
  {
  }

  /** The word a marking is fused into: the total of each leaf. */
  ghost function Fused(o: Marking): Tree {
    match o
    case NoPlace => Nil
    case Places(parts) => Int(Sum(parts))
    case Joined(h, t) => Cons(Fused(h), Fused(t))
  }

  /** The original markings of a diagram: those that fit and are fused into one of its words. */
  ghost predicate Represents(sh: Shape, base: nat, weights: map<nat, nat>, demands: map<nat, nat>, d: Diag, M: set<Marking>) {
    forall o :: o in M <==> Fits(sh, base, weights, demands, o) && Has(d, Fused(o))
  }

  lemma RepresentsUnique(sh: Shape, base: nat, weights: map<nat, nat>, demands: map<nat, nat>, d: Diag, M: set<Marking>, M': set<Marking>)
    requires Represents(sh, base, weights, demands, d, M) && Represents(sh, base, weights, demands, d, M')
    ensures M == M'
  {
  }

  /** The markings of one leaf value. */
  ghost function ValueMarkings(v: int, k: nat, demand: nat): set<Marking> {
    if v < demand then {} else set t | t in Tuples(v - demand, k) :: Places(Raised(t, demand))
  }

  lemma InValueMarkings(v: int, k: nat, demand: nat, o: Marking)
    requires k >= 1
    ensures o in ValueMarkings(v, k, demand) <==>
            o.Places? && |o.parts| == k && o.parts[0] >= demand && Sum(o.parts) == v
  {
    hide Tuples;
    if o in ValueMarkings(v, k, demand) {
      var t :| t in Tuples(v - demand, k) && o == Places(Raised(t, demand));
      InTuples(v - demand, k, t);
      assert o.parts[1..] == t[1..];
    }
    if o.Places? && |o.parts| == k && o.parts[0] >= demand && Sum(o.parts) == v {
      var t := [o.parts[0] - demand] + o.parts[1..];
      assert t[1..] == o.parts[1..] && Raised(t, demand) == o.parts;
      assert Sum(t) == v - demand;
      InTuples(v - demand, k, t);
    }
  }

  lemma RaisedInjective(x: seq<nat>, y: seq<nat>, more: nat)
    requires |x| == |y| >= 1 && Raised(x, more) == Raised(y, more)
    ensures x == y
  {
    assert Raised(x, more)[0] == Raised(y, more)[0] && Raised(x, more)[1..] == Raised(y, more)[1..];
    assert x == [x[0]] + x[1..] && y == [y[0]] + y[1..];
  }

  lemma ValueMarkingsSize(v: int, k: nat, demand: nat)
    requires k >= 1
    ensures |ValueMarkings(v, k, demand)| == if v < demand then 0 else |Tuples(v - demand, k)|
  {
    hide Tuples;
    if v >= demand {
      var A, B := Tuples(v - demand, k), ValueMarkings(v, k, demand);
      var f := (t: seq<nat>) => Places(Raised(t, demand));
      assert B == set t | t in A :: f(t);
      forall x, y | x in A && y in A && f(x) == f(y)
        ensures x == y
      {
        InTuples(v - demand, k, x);
        InTuples(v - demand, k, y);
        RaisedInjective(x, y, demand);
      }
      ImageSize(A, f, B);
    }
  }

  // ----- Counting leaves and arcs -----

  /** `n` is the number of original markings of the diagram. */
  ghost predicate IsCount(sh: Shape, base: nat, weights: map<nat, nat>, demands: map<nat, nat>, d: Diag, n: nat) {
    exists M :: Represents(sh, base, weights, demands, d, M) && |M| == n
  }

  /** One value of a leaf: the tuples of what is left above the demand. */
  lemma OneValueCount(v: int, base: nat, weights: map<nat, nat>, demands: map<nat, nat>, k: nat, demand: nat)
    requires k >= 1 && k == if base in weights then weights[base] else 1
    requires demand == if base in demands then demands[base] else 0
    ensures IsCount(Leaf, base, weights, demands, Ints({v}), if v < demand then 0 else |Tuples(v - demand, k)|)
  {
    hide Tuples;
    var M := ValueMarkings(v, k, demand);
    forall o
      ensures o in M <==> Fits(Leaf, base, weights, demands, o) && Has(Ints({v}), Fused(o))
    {
      FitsLeaf(base, weights, demands, o);
      InValueMarkings(v, k, demand, o);
    }
    ValueMarkingsSize(v, k, demand);
    assert Represents(Leaf, base, weights, demands, Ints({v}), M);
  }

  /** A diagram has one number of original markings. */
  lemma CountUnique(sh: Shape, base: nat, weights: map<nat, nat>, demands: map<nat, nat>, d: Diag, n: nat, n': nat)
    requires IsCount(sh, base, weights, demands, d, n) && IsCount(sh, base, weights, demands, d, n')
    ensures n == n'
  {
    var M :| Represents(sh, base, weights, demands, d, M) && |M| == n;
    var M' :| Represents(sh, base, weights, demands, d, M') && |M'| == n';
    RepresentsUnique(sh, base, weights, demands, d, M, M');
  }

  /** One is not the count of the empty diagram at the unit sort. */
  lemma EmptyUnit(base: nat, weights: map<nat, nat>, demands: map<nat, nat>)
    ensures !IsCount(Unit, base, weights, demands, Nothing, 1)
  {
    CountOfNothing(Unit, base, weights, demands);
    forall n | IsCount(Unit, base, weights, demands, Nothing, n)
      ensures n == 0
    {
      CountUnique(Unit, base, weights, demands, Nothing, 0, n);
    }
  }

  lemma CountOfNothing(sh: Shape, base: nat, weights: map<nat, nat>, demands: map<nat, nat>)
    ensures IsCount(sh, base, weights, demands, Nothing, 0)
  {
    var M: set<Marking> := {};
    assert Represents(sh, base, weights, demands, Nothing, M);
  }

  lemma CountOfUnit(base: nat, weights: map<nat, nat>, demands: map<nat, nat>)
    ensures IsCount(Unit, base, weights, demands, One, 1)
  {
    var M := {NoPlace};
    assert Represents(Unit, base, weights, demands, One, M);
  }

  /** The markings of the values of a leaf. */
  ghost predicate LeafMarkings(values: set<int>, k: nat, demand: nat, M: set<Marking>) {
    forall o :: o in M <==> o.Places? && |o.parts| == k && |o.parts| >= 1 && o.parts[0] >= demand && Sum(o.parts) in values
  }

  lemma AllInValueMarkings(v: int, k: nat, demand: nat)
    requires k >= 1
    ensures forall o :: o in ValueMarkings(v, k, demand) <==>
                        o.Places? && |o.parts| == k && o.parts[0] >= demand && Sum(o.parts) == v
  {
    forall o
      ensures o in ValueMarkings(v, k, demand) <==>
              o.Places? && |o.parts| == k && o.parts[0] >= demand && Sum(o.parts) == v
    {
      InValueMarkings(v, k, demand, o);
    }
  }

  lemma ValueCount(v: nat, k: nat)
    requires k >= 1
    ensures |ValueMarkings(v, k, 0)| == Binomial(v + k - 1, k - 1)
  {
    hide *;
    ValueMarkingsSize(v, k, 0);
    TuplesSize(v, k);
  }

  lemma DisjointUnion(M: set<Marking>, N: set<Marking>)
    requires forall o :: o in M ==> o !in N
    ensures |M + N| == |M| + |N|
  {
    assert M !! N;
  }

  lemma LeafMarkingsStep(values: set<int>, k: nat, demand: nat, M: set<Marking>, v: int, N: set<Marking>)
    requires k >= 1 && LeafMarkings(values, k, demand, M) && v !in values
    requires forall o :: o in N <==> o.Places? && |o.parts| == k && o.parts[0] >= demand && Sum(o.parts) == v
    ensures LeafMarkings(values + {v}, k, demand, M + N) && |M + N| == |M| + |N|
  {
    DisjointUnion(M, N);
  }

  lemma LeafCount(values: set<int>, base: nat, weights: map<nat, nat>, demands: map<nat, nat>, M: set<Marking>)
    requires LeafMarkings(values, WeightAt(weights, base), DemandAt(demands, base), M)
    ensures IsCount(Leaf, base, weights, demands, Ints(values), |M|)
  {
    forall o
      ensures o in M <==> Fits(Leaf, base, weights, demands, o) && Has(Ints(values), Fused(o))
    {
    }
    assert Represents(Leaf, base, weights, demands, Ints(values), M);
  }

  /** The markings of a rectangle. */
  ghost function Product(H: set<Marking>, T: set<Marking>): set<Marking> {
    set h, t | h in H && t in T :: Joined(h, t)
  }

  /** The markings with head `h`. */
  ghost function Row(h: Marking, T: set<Marking>): set<Marking> {
    set t | t in T :: Joined(h, t)
  }

  lemma RowSize(h: Marking, T: set<Marking>)
    ensures |Row(h, T)| == |T|
  {
    var f := (t: Marking) => Joined(h, t);
    assert Row(h, T) == set t | t in T :: f(t);
    ImageSize(T, f, Row(h, T));
  }

  lemma ProductRow(H: set<Marking>, T: set<Marking>, h: Marking)
    requires h in H
    ensures Product(H, T) == Product(H - {h}, T) + Row(h, T) && Product(H - {h}, T) !! Row(h, T)
  {
    forall o | o in Product(H, T)
      ensures o in Product(H - {h}, T) + Row(h, T)
    {
      assert o == Joined(o.head, o.tail);
    }
  }

  lemma ProductOneMore(H: set<Marking>, T: set<Marking>, h: Marking)
    requires h in H
    ensures |H| == |H - {h}| + 1 && |Product(H, T)| == |Product(H - {h}, T)| + |T|
  {
    hide Product, Row;
    ProductRow(H, T, h);
    RowSize(h, T);
    DisjointUnion(Product(H - {h}, T), Row(h, T));
  }

  lemma {:induction false} ProductSize(H: set<Marking>, T: set<Marking>)
    ensures |Product(H, T)| == |H| * |T|
    decreases |H|
  {
    if H == {} {
      assert Product(H, T) == {};
    } else {
      hide *;
      var h :| h in H;
      ProductSize(H - {h}, T);
      ProductOneMore(H, T, h);
    }
  }

  /** The markings fused into a word of the list of rectangles. */
  ghost predicate ListMarkings(sh: Shape, base: nat, weights: map<nat, nat>, demands: map<nat, nat>, A: seq<Arc>, M: set<Marking>)
    requires sh.Pair?
  {
    forall o :: o in M <==> Fits(sh, base, weights, demands, o) && ListHas(A, Fused(o.head), Fused(o.tail))
  }

  lemma ProductDenotes(sh: Shape, base: nat, weights: map<nat, nat>, demands: map<nat, nat>, a: Arc, H: set<Marking>, T: set<Marking>)
    requires sh.Pair? && Represents(sh.head, base, weights, demands, a.prime, H)
    requires Represents(sh.tail, base + Width(sh.head), weights, demands, a.sub, T)
    ensures forall o :: o in Product(H, T) <==> Fits(sh, base, weights, demands, o) && ArcHas(a, Fused(o.head), Fused(o.tail))
  {
    forall o
      ensures o in Product(H, T) <==> Fits(sh, base, weights, demands, o) && ArcHas(a, Fused(o.head), Fused(o.tail))
    {
      if o.Joined? {
        assert o in Product(H, T) <==> o.head in H && o.tail in T;
      }
    }
  }

  lemma ListMarkingsMore(sh: Shape, base: nat, weights: map<nat, nat>, demands: map<nat, nat>, A: seq<Arc>, i: nat,
                         M: set<Marking>, P: set<Marking>)
    requires sh.Pair? && i < |A| && Apart(A) && ListMarkings(sh, base, weights, demands, A[..i], M)
    requires forall o :: o in P <==> Fits(sh, base, weights, demands, o) && ArcHas(A[i], Fused(o.head), Fused(o.tail))
    ensures ListMarkings(sh, base, weights, demands, A[..i + 1], M + P) && |M + P| == |M| + |P|
  {
    forall o
      ensures o in M + P <==> Fits(sh, base, weights, demands, o) && ListHas(A[..i + 1], Fused(o.head), Fused(o.tail))
    {
      if o.Joined? {
        ListHasPrefix(A, i, Fused(o.head), Fused(o.tail));
      }
    }
    forall o | o in M
      ensures o !in P
    {
      var k :| 0 <= k < |A[..i]| && ArcHas(A[..i][k], Fused(o.head), Fused(o.tail));
      assert Disjoint(A[k].prime, A[i].prime);
    }
    DisjointUnion(M, P);
  }

  lemma ListMarkingsStep(sh: Shape, base: nat, weights: map<nat, nat>, demands: map<nat, nat>, A: seq<Arc>, i: nat,
                         M: set<Marking>, H: set<Marking>, T: set<Marking>)
    requires sh.Pair? && i < |A| && Apart(A) && ListMarkings(sh, base, weights, demands, A[..i], M)
    requires Represents(sh.head, base, weights, demands, A[i].prime, H)
    requires Represents(sh.tail, base + Width(sh.head), weights, demands, A[i].sub, T)
    ensures ListMarkings(sh, base, weights, demands, A[..i + 1], M + Product(H, T))
    ensures |M + Product(H, T)| == |M| + |H| * |T|
  {
    ProductDenotes(sh, base, weights, demands, A[i], H, T);
    ListMarkingsMore(sh, base, weights, demands, A, i, M, Product(H, T));
    ProductSize(H, T);
  }

  /** The list of rectangles represents `n` markings. */
  ghost predicate Tallied(sh: Shape, base: nat, weights: map<nat, nat>, demands: map<nat, nat>, A: seq<Arc>, n: nat)
    requires sh.Pair?
  {
    exists M :: ListMarkings(sh, base, weights, demands, A, M) && |M| == n
  }

  lemma NoneTallied(sh: Shape, base: nat, weights: map<nat, nat>, demands: map<nat, nat>, A: seq<Arc>)
    requires sh.Pair?
    ensures Tallied(sh, base, weights, demands, A[..0], 0)
  {
    assert ListMarkings(sh, base, weights, demands, A[..0], {});
  }

  lemma TalliedStep(sh: Shape, base: nat, weights: map<nat, nat>, demands: map<nat, nat>, A: seq<Arc>, i: nat,
                    n: nat, a: nat, b: nat)
    requires sh.Pair? && i < |A| && Apart(A) && Tallied(sh, base, weights, demands, A[..i], n)
    requires IsCount(sh.head, base, weights, demands, A[i].prime, a)
    requires IsCount(sh.tail, base + Width(sh.head), weights, demands, A[i].sub, b)
    ensures Tallied(sh, base, weights, demands, A[..i + 1], n + a * b)
  {
    hide ListMarkings, Represents, Product;
    var M :| ListMarkings(sh, base, weights, demands, A[..i], M) && |M| == n;
    var H :| Represents(sh.head, base, weights, demands, A[i].prime, H) && |H| == a;
    var T :| Represents(sh.tail, base + Width(sh.head), weights, demands, A[i].sub, T) && |T| == b;
    ListMarkingsStep(sh, base, weights, demands, A, i, M, H, T);
  }

  lemma NodeCount(sh: Shape, base: nat, weights: map<nat, nat>, demands: map<nat, nat>, d: Diag, A: seq<Arc>, n: nat)
    requires sh.Pair? && Lists(d, A) && Tallied(sh, base, weights, demands, A, n)
    ensures IsCount(sh, base, weights, demands, d, n)
  {
    var M :| ListMarkings(sh, base, weights, demands, A, M) && |M| == n;
    forall o
      ensures o in M <==> Fits(sh, base, weights, demands, o) && Has(d, Fused(o))
    {
      if o.Joined? {
        assert Fused(o).head == Fused(o.head) && Fused(o).tail == Fused(o.tail);
      }
    }
    assert Represents(sh, base, weights, demands, d, M);
  }

  // ----- The enabled counter -----

  /** The number of original markings in which every demanded place holds its demand, memoised. */
  class EnabledCounter {
    const weights: map<nat, nat>
    const demands: map<nat, nat>
    var memo: map<(Shape, nat, Diag), nat>
    var binomials: map<(int, nat), nat>

    ghost predicate Valid()
      reads this
    {
      && Weighed(weights)
      && (forall key :: key in memo ==> IsCount(key.0, key.1, weights, demands, key.2, memo[key]))
      && (forall key :: key in binomials ==> key.1 >= 1 && key.0 >= 0 && binomials[key] == |Tuples(key.0, key.1)|)
    }

    constructor (weights: map<nat, nat>, demands: map<nat, nat>)
      requires Weighed(weights)
      ensures Valid() && this.weights == weights && this.demands == demands
    {
      this.weights, this.demands, memo, binomials := weights, demands, map[], map[];
    }

    method CountWays(tokens: int, k: nat) returns (v: nat)
      requires Valid() && k >= 1
      modifies this`binomials
      ensures Valid() && v == if tokens < 0 then 0 else |Tuples(tokens, k)|
    {
      hide Tuples, IsCount;
      if tokens < 0 {
        return 0;
      }
      if (tokens, k) in binomials {
        return binomials[(tokens, k)];
      }
      v := Ways(tokens, k);
      binomials := binomials[(tokens, k) := v];
    }

    method CountValue(v: int, k: nat, demand: nat) returns (n: nat, ghost N: set<Marking>)
      requires Valid() && k >= 1
      modifies this`binomials
      ensures Valid() && n == |N|
      ensures forall o :: o in N <==> o.Places? && |o.parts| == k && o.parts[0] >= demand && Sum(o.parts) == v
    {
      hide Tuples, ValueMarkings, IsCount, Sum;
      N := ValueMarkings(v, k, demand);
      AllInValueMarkings(v, k, demand);
      ValueMarkingsSize(v, k, demand);
      n := 0;
      if v >= demand {
        n := CountWays(v - demand, k);
      }
    }

    method CountLeaf(values: set<int>, k: nat, demand: nat) returns (n: nat, ghost M: set<Marking>)
      requires Valid() && k >= 1
      modifies this`binomials
      ensures Valid() && n == |M| && LeafMarkings(values, k, demand, M)
    {
      n, M := 0, {};
      var rest := values;
      ghost var done: set<int> := {};
      while rest != {}
        invariant Valid() && rest + done == values && rest !! done && n == |M| && LeafMarkings(done, k, demand, M)
        decreases |rest|
      {
        var v := Pick(rest);
        var more, N := CountValue(v, k, demand);
        LeafMarkingsStep(done, k, demand, M, v, N);
        n, M := n + more, M + N;
        rest, done := rest - {v}, done + {v};
      }
      assert done == values;
    }

    method Count(d: Diag, sh: Shape, first: nat) returns (n: nat)
      requires Valid() && NF(sh, d)
      modifies this
      ensures Valid() && IsCount(sh, first, weights, demands, d, n)
      decreases sh
    {
      if d == Nothing {
        CountOfNothing(sh, first, weights, demands);
        return 0;
      }
      var key := (sh, first, d);
      if key in memo {
        return memo[key];
      }
      match sh {
        case Unit =>
          CountOfUnit(first, weights, demands);
          n := 1;
        case Leaf =>
          ghost var M;
          n, M := CountLeaf(d.values, WeightAt(weights, first), DemandAt(demands, first));
          LeafCount(d.values, first, weights, demands, M);
        case Pair(h, t) =>
          n := CountArcs(d, sh, first);
      }
      memo := memo[key := n];
    }

    method CountArcs(d: Diag, sh: Shape, first: nat) returns (n: nat)
      requires Valid() && sh.Pair? && NF(sh, d)
      modifies this
      ensures Valid() && IsCount(sh, first, weights, demands, d, n)
      decreases sh, 0
    {
      hide IsCount, Tallied, Tuples;
      var A := Arcs(sh.head, sh.tail, d);
      n := 0;
      NoneTallied(sh, first, weights, demands, A);
      for i: nat := 0 to |A|
        invariant Valid() && Tallied(sh, first, weights, demands, A[..i], n)
      {
        var a := Count(A[i].prime, sh.head, first);
        var b := Count(A[i].sub, sh.tail, first + Width(sh.head));
        TalliedStep(sh, first, weights, demands, A, i, n, a, b);
        n := n + a * b;
      }
      assert A[..|A|] == A;
      NodeCount(sh, first, weights, demands, d, A, n);
    }
  }

  // ----- The weigher -----

  /** No negative value anywhere: words that are markings. */
  ghost predicate NonNegative(w: Tree) {
    match w
    case Nil => true
    case Int(v) => v >= 0
    case Cons(h, t) => NonNegative(h) && NonNegative(t)
  }

  ghost predicate Markings(d: Diag) {
    forall w :: Has(d, w) ==> NonNegative(w)
  }

  /** A diagram that is not empty has one shape. */
  lemma {:induction false} ShapeUnique(sh: Shape, sh': Shape, d: Diag)
    requires NF(sh, d) && NF(sh', d) && d != Nothing
    ensures sh == sh'
    decreases sh
  {
    if sh.Pair? && sh'.Pair? {
      var a :| a in d.arcs;
      ShapeUnique(sh.head, sh'.head, a.prime);
      ShapeUnique(sh.tail, sh'.tail, a.sub);
    }
  }

  lemma ArcMarkings(h: Shape, t: Shape, d: Diag, A: seq<Arc>, i: nat)
    requires Tidy(h, t, A) && Lists(d, A) && Markings(d) && i < |A| && A[i].prime != Nothing
    ensures Markings(A[i].prime) && Markings(A[i].sub)
  {
    forall p, s | Has(A[i].prime, p) && Has(A[i].sub, s)
      ensures NonNegative(p) && NonNegative(s)
    {
      assert ListHas(A, p, s);
      assert Has(d, Cons(p, s));
    }
    var p := Inhabited(h, A[i].prime);
    var s := Inhabited(t, A[i].sub);
  }

  /** The number of original markings, memoised by node and position. */
  class Weigher {
    const weight: seq<nat>
    var memo: map<(Diag, nat), nat>
    var binomials: map<(nat, nat), nat>

    /** The weights by position; a position beyond the list stands for one place. */
    ghost function Weights(): map<nat, nat> {
      map p: nat | p < |weight| :: weight[p]
    }

    ghost predicate Valid()
      reads this
    {
      && (forall p :: 0 <= p < |weight| ==> weight[p] >= 1)
      && (forall key :: key in memo ==>
            key.0 != Nothing && forall sh :: NF(sh, key.0) ==> IsCount(sh, key.1, Weights(), map[], key.0, memo[key]))
      && (forall key :: key in binomials ==> key.1 >= 1 && binomials[key] == Binomial(key.0 + key.1 - 1, key.1 - 1))
    }

    constructor (weight: seq<nat>)
      requires forall p :: 0 <= p < |weight| ==> weight[p] >= 1
      ensures Valid() && this.weight == weight
    {
      this.weight, memo, binomials := weight, map[], map[];
    }

    /** The ways to spread `tokens` over `k` places, from the cache when they are there. */
    method Spread(tokens: nat, k: nat) returns (n: nat)
      requires Valid() && k >= 1
      modifies this`binomials
      ensures Valid() && n == |ValueMarkings(tokens, k, 0)|
    {
      hide IsCount, ValueMarkings, Binomial;
      ValueCount(tokens, k);
      if (tokens, k) in binomials {
        return binomials[(tokens, k)];
      }
      n := Binomial(tokens + k - 1, k - 1);
      binomials := binomials[(tokens, k) := n];
    }

    method CountLeaf(values: set<int>, k: nat) returns (n: nat, ghost M: set<Marking>)
      requires Valid() && k >= 1 && forall v :: v in values ==> v >= 0
      modifies this`binomials
      ensures Valid() && n == |M| && LeafMarkings(values, k, 0, M)
    {
      hide IsCount, Binomial, ValueMarkings;
      n, M := 0, {};
      var rest := values;
      ghost var done: set<int> := {};
      while rest != {}
        invariant Valid() && rest + done == values && rest !! done && n == |M| && LeafMarkings(done, k, 0, M)
        decreases |rest|
      {
        var v := Pick(rest);
        ghost var N := ValueMarkings(v, k, 0);
        AllInValueMarkings(v, k, 0);
        LeafMarkingsStep(done, k, 0, M, v, N);
        var more := Spread(v, k);
        n, M := n + more, M + N;
        rest, done := rest - {v}, done + {v};
      }
      assert done == values;
    }

    method Count(d: Diag, sh: Shape, base: nat) returns (n: nat)
      requires Valid() && NF(sh, d) && Markings(d)
      modifies this
      ensures Valid() && (IsCount(sh, base, Weights(), map[], d, n) <==> !(sh == Unit && d == Nothing))
      ensures sh == Unit ==> n == 1
      decreases sh
    {
      match sh {
        case Unit =>
          if d == Nothing {
            EmptyUnit(base, Weights(), map[]);
          } else {
            CountOfUnit(base, Weights(), map[]);
          }
          return 1;
        case Leaf =>
          var k := if base < |weight| then weight[base] else 1;
          ghost var M;
          var values := if d == Nothing then {} else d.values;
          forall v | v in values
            ensures v >= 0
          {
            assert Has(d, Int(v));
          }
          n, M := CountLeaf(values, k);
          if d == Nothing {
            assert M == {};
            CountOfNothing(sh, base, Weights(), map[]);
          } else {
            LeafCount(values, base, Weights(), map[], M);
          }
          return;
        case Pair(_, _) =>
      }
      if d == Nothing {
        CountOfNothing(sh, base, Weights(), map[]);
        return 0;
      }
      if (d, base) in memo {
        return memo[(d, base)];
      }
      n := CountArcs(d, sh, base);
      forall sh' | NF(sh', d)
        ensures IsCount(sh', base, Weights(), map[], d, n)
      {
        ShapeUnique(sh, sh', d);
      }
      memo := memo[(d, base) := n];
    }

    method CountArcs(d: Diag, sh: Shape, base: nat) returns (n: nat)
      requires Valid() && sh.Pair? && NF(sh, d) && Markings(d)
      modifies this
      ensures Valid() && IsCount(sh, base, Weights(), map[], d, n)
      decreases sh, 0
    {
      hide IsCount, Tallied, Has;
      var A := Arcs(sh.head, sh.tail, d);
      n := 0;
      NoneTallied(sh, base, Weights(), map[], A);
      for i: nat := 0 to |A|
        invariant Valid() && Tallied(sh, base, Weights(), map[], A[..i], n)
      {
        ArcMarkings(sh.head, sh.tail, d, A, i);
        var a := Count(A[i].prime, sh.head, base);
        var b := Count(A[i].sub, sh.tail, base + Width(sh.head));
        TalliedStep(sh, base, Weights(), map[], A, i, n, a, b);
        n := n + a * b;
      }
      assert A[..|A|] == A;
      NodeCount(sh, base, Weights(), map[], d, A, n);
    }
  }
}
