/**
 Shapes, words, diagrams and their normal form (src/diagram.cc).

 A diagram is a value here: interned codes are equal exactly when the diagrams
 are, and the arcs of a node, which the source keeps sorted by the code of their
 primes, form a set.
 */
module Diagrams {
  import opened Finite

  /** A sort: the unit, one integer coordinate, or a head before a tail. */
  datatype Shape = Unit | Leaf | Pair(head: Shape, tail: Shape)

  /** A word, laid out along the shape. */
  datatype Tree = Nil | Int(v: int) | Cons(head: Tree, tail: Tree)

  /** `Nothing` is the empty set, `One` the terminal, `Ints` a leaf value. */
  datatype Diag = Nothing | One | Ints(values: set<int>) | Node(arcs: set<Arc>)

  datatype Arc = Arc(prime: Diag, sub: Diag)

  // ----- Denotation -----

  /** The word is one of the diagram's. */
  ghost predicate Has(d: Diag, w: Tree)
    decreases w
  {
    match d
    case Nothing => false
    case One => w.Nil?
    case Ints(values) => w.Int? && w.v in values
    case Node(arcs) => w.Cons? && exists a :: a in arcs && Has(a.prime, w.head) && Has(a.sub, w.tail)
  }

  ghost predicate Laid(sh: Shape, w: Tree) {
    match sh
    case Unit => w.Nil?
    case Leaf => w.Int?
    case Pair(h, t) => w.Cons? && Laid(h, w.head) && Laid(t, w.tail)
  }

  /** The integers of a word, left to right. */
  function Frontier(w: Tree): seq<int> {
    match w
    case Nil => []
    case Int(v) => [v]
    case Cons(h, t) => Frontier(h) + Frontier(t)
  }

  /** The number of integers of a word of this shape. */
  function Width(sh: Shape): nat {
    match sh
    case Unit => 0
    case Leaf => 1
    case Pair(h, t) => Width(h) + Width(t)
  }

  lemma {:induction false} FrontierWidth(sh: Shape, w: Tree)
    requires Laid(sh, w)
    ensures |Frontier(w)| == Width(sh)
  {
    match sh
    case Pair(h, t) =>
      FrontierWidth(h, w.head);
      FrontierWidth(t, w.tail);
    case _ =>
  }

  /** Words of one shape are the tuples along its frontier. */
  lemma {:induction false} FrontierInjective(sh: Shape, w: Tree, w': Tree)
    requires Laid(sh, w) && Laid(sh, w') && Frontier(w) == Frontier(w')
    ensures w == w'
  {
    match sh
    case Pair(h, t) =>
      FrontierWidth(h, w.head);
      FrontierWidth(h, w'.head);
      assert Frontier(w.head) == Frontier(w)[..Width(h)] == Frontier(w'.head);
      assert Frontier(w.tail) == Frontier(w)[Width(h)..] == Frontier(w'.tail);
      FrontierInjective(h, w.head, w'.head);
      FrontierInjective(t, w.tail, w'.tail);
    case Leaf =>
      assert w.v == Frontier(w)[0] && w'.v == Frontier(w')[0];
    case Unit =>
  }

  // ----- Normal form -----

  ghost predicate Disjoint(a: Diag, b: Diag) {
    forall w :: !(Has(a, w) && Has(b, w))
  }

  /** Disjoint primes, distinct subs. */
  ghost predicate Partition(arcs: set<Arc>) {
    forall a, b :: a in arcs && b in arcs && a != b ==> Disjoint(a.prime, b.prime) && a.sub != b.sub
  }

  ghost predicate NF(sh: Shape, d: Diag)
    decreases sh, 1
  {
    d == Nothing || NFSome(sh, d)
  }

  ghost predicate NFSome(sh: Shape, d: Diag)
    decreases sh, 0
  {
    match sh
    case Unit => d == One
    case Leaf => d.Ints? && d.values != {}
    case Pair(h, t) =>
      d.Node? && d.arcs != {} && Partition(d.arcs)
      && forall a :: a in d.arcs ==> NF(h, a.prime) && a.prime != Nothing && NF(t, a.sub) && a.sub != Nothing
  }

  /** A diagram that is not `Nothing` has a word. */
  lemma {:induction false} Inhabited(sh: Shape, d: Diag) returns (w: Tree)
    requires NF(sh, d) && d != Nothing
    ensures Has(d, w)
    decreases sh
  {
    match sh
    case Unit =>
      w := Nil;
    case Leaf =>
      var v := AnElement(d.values);
      w := Int(v);
    case Pair(h, t) =>
      var a :| a in d.arcs;
      var p := Inhabited(h, a.prime);
      var s := Inhabited(t, a.sub);
      w := Cons(p, s);
      assert Has(a.prime, w.head) && Has(a.sub, w.tail);
  }

  /** The words of a diagram have its shape. */
  lemma {:induction false} HasLaid(sh: Shape, d: Diag, w: Tree)
    requires NF(sh, d) && Has(d, w)
    ensures Laid(sh, w)
    decreases sh
  {
    match sh
    case Pair(h, t) =>
      var a :| a in d.arcs && Has(a.prime, w.head) && Has(a.sub, w.tail);
      HasLaid(h, a.prime, w.head);
      HasLaid(t, a.sub, w.tail);
    case _ =>
  }

  // ----- Canonicity -----

  ghost predicate SameWords(a: Diag, b: Diag) {
    forall w :: Has(a, w) <==> Has(b, w)
  }

  /** What follows a head is the sub of the one arc whose prime has it. */
  lemma FollowedBy(arcs: set<Arc>, a: Arc, p: Tree, s: Tree)
    requires Partition(arcs) && a in arcs && Has(a.prime, p)
    ensures Has(Node(arcs), Cons(p, s)) <==> Has(a.sub, s)
  {
    var w := Cons(p, s);
    if Has(Node(arcs), w) {
      var b :| b in arcs && Has(b.prime, w.head) && Has(b.sub, w.tail);
      assert !Disjoint(a.prime, b.prime);
    } else {
      assert Has(a.prime, w.head);
    }
  }

  /** A head of one node is a head of the other, followed by the same sub. */
  lemma {:induction false} MatchingArc(h: Shape, t: Shape, A: set<Arc>, B: set<Arc>, a: Arc, p: Tree) returns (b: Arc)
    requires NF(Pair(h, t), Node(A)) && NF(Pair(h, t), Node(B)) && SameWords(Node(A), Node(B))
    requires a in A && Has(a.prime, p)
    ensures b in B && Has(b.prime, p) && b.sub == a.sub
    decreases Pair(h, t), 0
  {
    var s := Inhabited(t, a.sub);
    FollowedBy(A, a, p, s);
    var w := Cons(p, s);
    assert Has(Node(B), w);
    b :| b in B && Has(b.prime, w.head) && Has(b.sub, w.tail);
    forall s'
      ensures Has(a.sub, s') <==> Has(b.sub, s')
    {
      FollowedBy(A, a, p, s');
      FollowedBy(B, b, p, s');
    }
    Canonical(t, b.sub, a.sub);
  }

  lemma {:induction false} PrimeIncluded(h: Shape, t: Shape, A: set<Arc>, B: set<Arc>, a: Arc, b: Arc)
    requires NF(Pair(h, t), Node(A)) && NF(Pair(h, t), Node(B)) && SameWords(Node(A), Node(B))
    requires a in A && b in B && a.sub == b.sub
    ensures forall p :: Has(a.prime, p) ==> Has(b.prime, p)
    decreases Pair(h, t), 1
  {
    forall p | Has(a.prime, p)
      ensures Has(b.prime, p)
    {
      var b' := MatchingArc(h, t, A, B, a, p);
      assert b' == b;
    }
  }

  lemma {:induction false} ArcsIncluded(h: Shape, t: Shape, A: set<Arc>, B: set<Arc>)
    requires NF(Pair(h, t), Node(A)) && NF(Pair(h, t), Node(B)) && SameWords(Node(A), Node(B))
    ensures A <= B
    decreases Pair(h, t), 2
  {
    forall a | a in A
      ensures a in B
    {
      var p := Inhabited(h, a.prime);
      var b := MatchingArc(h, t, A, B, a, p);
      PrimeIncluded(h, t, A, B, a, b);
      PrimeIncluded(h, t, B, A, b, a);
      Canonical(h, a.prime, b.prime);
    }
  }

  /** Canonicity: in normal form, the same words are the same diagram. */
  lemma {:induction false} Canonical(sh: Shape, a: Diag, b: Diag)
    requires NF(sh, a) && NF(sh, b)
    requires SameWords(a, b)
    ensures a == b
    decreases sh, 3
  {
    if a == Nothing || b == Nothing {
      if a != Nothing {
        var w := Inhabited(sh, a);
      }
      if b != Nothing {
        var w := Inhabited(sh, b);
      }
    } else {
      match sh
      case Unit =>
      case Leaf =>
        forall v
          ensures v in a.values <==> v in b.values
        {
          assert Has(a, Int(v)) <==> Has(b, Int(v));
        }
      case Pair(h, t) =>
        ArcsIncluded(h, t, a.arcs, b.arcs);
        ArcsIncluded(h, t, b.arcs, a.arcs);
    }
  }

  /** Set equality is code equality. */
  lemma SameWordsSameDiagram(sh: Shape, a: Diag, b: Diag)
    requires NF(sh, a) && NF(sh, b)
    ensures SameWords(a, b) <==> a == b
  {
    if SameWords(a, b) {
      Canonical(sh, a, b);
    }
  }
}
