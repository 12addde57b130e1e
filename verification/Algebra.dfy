/**
 The set algebra: the accumulator, the sieve, and join, meet and minus over them
 (src/diagram.cc, src/int_set.cc).
 */
module Algebra {
  import opened Finite
  import opened Diagrams

  // ----- Lists of arcs -----

  ghost predicate ArcHas(a: Arc, p: Tree, s: Tree) {
    Has(a.prime, p) && Has(a.sub, s)
  }

  /** The words of a list of rectangles. */
  ghost predicate ListHas(A: seq<Arc>, p: Tree, s: Tree) {
    exists i :: 0 <= i < |A| && ArcHas(A[i], p, s)
  }

  /** The heads of a list of rectangles. */
  ghost predicate Covers(A: seq<Arc>, p: Tree) {
    exists i :: 0 <= i < |A| && Has(A[i].prime, p)
  }

  ghost predicate Typed(h: Shape, t: Shape, A: seq<Arc>) {
    forall i :: 0 <= i < |A| ==> NF(h, A[i].prime) && NF(t, A[i].sub)
  }

  /** Pairwise disjoint primes. */
  ghost predicate Apart(A: seq<Arc>) {
    forall i, j :: 0 <= i < j < |A| ==> Disjoint(A[i].prime, A[j].prime)
  }

  ghost predicate DistinctSubs(A: seq<Arc>) {
    forall i, j :: 0 <= i < j < |A| ==> A[i].sub != A[j].sub
  }

  /** What an accumulator holds: disjoint primes, possibly consumed, under distinct subs. */
  ghost predicate Tidy(h: Shape, t: Shape, A: seq<Arc>) {
    Typed(h, t, A) && Apart(A) && DistinctSubs(A) && forall i :: 0 <= i < |A| ==> A[i].sub != Nothing
  }

  /** No prime of the list meets this one. */
  ghost predicate Clear(A: seq<Arc>, prime: Diag) {
    forall i :: 0 <= i < |A| ==> Disjoint(A[i].prime, prime)
  }

  lemma ClearCovers(A: seq<Arc>, prime: Diag)
    requires forall p :: Covers(A, p) ==> !Has(prime, p)
    ensures Clear(A, prime)
  {
    forall i, w | 0 <= i < |A|
      ensures !(Has(A[i].prime, w) && Has(prime, w))
    {
      assert Has(A[i].prime, w) ==> Covers(A, w);
    }
  }

  lemma ListHasAppend(A: seq<Arc>, a: Arc, p: Tree, s: Tree)
    ensures ListHas(A + [a], p, s) <==> ListHas(A, p, s) || ArcHas(a, p, s)
    ensures Covers(A + [a], p) <==> Covers(A, p) || Has(a.prime, p)
  {
    var B := A + [a];
    if ListHas(A, p, s) {
      var i :| 0 <= i < |A| && ArcHas(A[i], p, s);
      assert B[i] == A[i];
    }
    if Covers(A, p) {
      var i :| 0 <= i < |A| && Has(A[i].prime, p);
      assert B[i] == A[i];
    }
    assert B[|A|] == a;
  }

  lemma ListHasUpdate(A: seq<Arc>, i: nat, a: Arc, p: Tree, s: Tree)
    requires i < |A|
    ensures ListHas(A[i := a], p, s) <==>
            ArcHas(a, p, s) || exists k :: 0 <= k < |A| && k != i && ArcHas(A[k], p, s)
  {
    var B := A[i := a];
    assert B[i] == a;
    if k :| 0 <= k < |A| && k != i && ArcHas(A[k], p, s) {
      assert B[k] == A[k];
    }
  }

  // ----- The accumulator -----

  /** Entries keyed by sub: adding under a sub that is present joins the primes. */
  class Accumulator {
    const sort: Shape
    var entries: seq<Arc>

    ghost predicate Valid()
      reads this
    {
      sort.Pair? && Tidy(sort.head, sort.tail, entries)
    }

    constructor (h: Shape, t: Shape)
      ensures sort == Pair(h, t) && entries == [] && Valid()
    {
      sort := Pair(h, t);
      entries := [];
    }

    method Add(sub: Diag, prime: Diag)
      requires Valid() && NF(sort.head, prime) && NF(sort.tail, sub) && Clear(entries, prime)
      modifies this
      ensures Valid()
      ensures forall p, s :: ListHas(entries, p, s) <==> old(ListHas(entries, p, s)) || ArcHas(Arc(prime, sub), p, s)
      ensures forall p :: Covers(entries, p) ==> old(Covers(entries, p)) || Has(prime, p)
      decreases sort, 0
    {
      if sub == Nothing || prime == Nothing {
        return;
      }
      ghost var A := entries;
      for i := 0 to |entries|
        invariant entries == A && forall j :: 0 <= j < i ==> A[j].sub != sub
      {
        if entries[i].sub == sub {
          var joined := Join(sort.head, entries[i].prime, prime);
          MergeEntry(sort.head, sort.tail, A, i, prime, joined);
          entries := entries[i := Arc(joined, sub)];
          return;
        }
      }
      entries := entries + [Arc(prime, sub)];
      AppendEntry(sort.head, sort.tail, A, Arc(prime, sub));
    }
  }

  lemma AppendEntry(h: Shape, t: Shape, A: seq<Arc>, a: Arc)
    requires Tidy(h, t, A) && NF(h, a.prime) && NF(t, a.sub) && a.sub != Nothing && Clear(A, a.prime)
    requires forall j :: 0 <= j < |A| ==> A[j].sub != a.sub
    ensures Tidy(h, t, A + [a])
    ensures forall p, s :: ListHas(A + [a], p, s) <==> ListHas(A, p, s) || ArcHas(a, p, s)
    ensures forall p :: Covers(A + [a], p) ==> Covers(A, p) || Has(a.prime, p)
  {
    forall p, s
      ensures ListHas(A + [a], p, s) <==> ListHas(A, p, s) || ArcHas(a, p, s)
      ensures Covers(A + [a], p) ==> Covers(A, p) || Has(a.prime, p)
    {
      ListHasAppend(A, a, p, s);
    }
    assert forall p :: Covers(A + [a], p) ==> Covers(A, p) || Has(a.prime, p) by {
      forall p
        ensures Covers(A + [a], p) ==> Covers(A, p) || Has(a.prime, p)
      {
        ListHasAppend(A, a, p, p);
      }
    }
  }

  lemma MergeEntry(h: Shape, t: Shape, A: seq<Arc>, i: nat, prime: Diag, joined: Diag)
    requires Tidy(h, t, A) && i < |A| && Clear(A, prime)
    requires NF(h, joined) && forall p :: Has(joined, p) <==> Has(A[i].prime, p) || Has(prime, p)
    ensures var B := A[i := Arc(joined, A[i].sub)];
            && Tidy(h, t, B)
            && (forall p, s :: ListHas(B, p, s) <==> ListHas(A, p, s) || ArcHas(Arc(prime, A[i].sub), p, s))
            && (forall p :: Covers(B, p) ==> Covers(A, p) || Has(prime, p))
  {
    var a := Arc(joined, A[i].sub);
    var B := A[i := a];
    forall p, s
      ensures ListHas(B, p, s) <==> ListHas(A, p, s) || ArcHas(Arc(prime, A[i].sub), p, s)
    {
      ListHasUpdate(A, i, a, p, s);
    }
    forall j, k | 0 <= j < k < |B|
      ensures Disjoint(B[j].prime, B[k].prime)
    {
      assert Disjoint(A[j].prime, A[k].prime) && Disjoint(A[j].prime, prime) && Disjoint(A[k].prime, prime);
    }
    forall p | Covers(B, p)
      ensures Covers(A, p) || Has(prime, p)
    {
      var k :| 0 <= k < |B| && Has(B[k].prime, p);
      assert k == i || Has(A[k].prime, p);
    }
  }

  // ----- Reading and interning nodes -----

  /** The node's words, as those of a list. */
  ghost predicate Lists(d: Diag, A: seq<Arc>) {
    forall w :: Has(d, w) <==> w.Cons? && ListHas(A, w.head, w.tail)
  }

  /** The arcs of a node, in some order. */
  method Arcs(h: Shape, t: Shape, d: Diag) returns (A: seq<Arc>)
    requires NF(Pair(h, t), d)
    ensures Tidy(h, t, A) && Lists(d, A)
    ensures forall i :: 0 <= i < |A| ==> A[i].prime != Nothing
    ensures d == Nothing ==> A == []
  {
    A := [];
    if d == Nothing {
      return;
    }
    var rest := d.arcs;
    while rest != {}
      invariant rest <= d.arcs && forall a :: a in A <==> a in d.arcs - rest
      invariant forall i, j :: 0 <= i < j < |A| ==> A[i] != A[j]
      decreases |rest|
    {
      var a :| a in rest;
      assert a !in A;
      rest := rest - {a};
      A := A + [a];
    }
    ArcsListed(h, t, d.arcs, A);
  }

  lemma ArcsListed(h: Shape, t: Shape, arcs: set<Arc>, A: seq<Arc>)
    requires NF(Pair(h, t), Node(arcs)) && forall a :: a in A <==> a in arcs
    requires forall i, j :: 0 <= i < j < |A| ==> A[i] != A[j]
    ensures Tidy(h, t, A) && Lists(Node(arcs), A)
    ensures forall i :: 0 <= i < |A| ==> A[i].prime != Nothing
  {
    forall i | 0 <= i < |A|
      ensures A[i] in arcs
    {
      assert A[i] in A;
    }
    forall w
      ensures Has(Node(arcs), w) <==> w.Cons? && ListHas(A, w.head, w.tail)
    {
      if w.Cons? && ListHas(A, w.head, w.tail) {
        var i :| 0 <= i < |A| && ArcHas(A[i], w.head, w.tail);
        assert A[i] in arcs;
      }
      if Has(Node(arcs), w) {
        var a :| a in arcs && Has(a.prime, w.head) && Has(a.sub, w.tail);
        assert a in A;
        var i :| 0 <= i < |A| && A[i] == a;
        assert ArcHas(A[i], w.head, w.tail);
      }
    }
  }

  /** Drop dead entries and intern. */
  method Finish(acc: Accumulator) returns (d: Diag)
    requires acc.Valid()
    ensures NF(acc.sort, d) && Lists(d, acc.entries)
  {
    var arcs := set a | a in acc.entries && a.prime != Nothing && a.sub != Nothing;
    Interned(acc.sort.head, acc.sort.tail, acc.entries, arcs);
    d := if arcs == {} then Nothing else Node(arcs);
  }

  lemma InternedApart(A: seq<Arc>, arcs: set<Arc>)
    requires Apart(A) && DistinctSubs(A) && arcs == set a | a in A && a.prime != Nothing && a.sub != Nothing
    ensures forall a, b :: a in arcs && b in arcs && a != b ==> Disjoint(a.prime, b.prime) && a.sub != b.sub
  {
    forall a, b | a in arcs && b in arcs && a != b
      ensures Disjoint(a.prime, b.prime) && a.sub != b.sub
    {
      var i :| 0 <= i < |A| && A[i] == a;
      var j :| 0 <= j < |A| && A[j] == b;
      if i < j {
        assert Disjoint(A[i].prime, A[j].prime);
      } else {
        assert Disjoint(A[j].prime, A[i].prime);
      }
    }
  }

  lemma InternedHas(A: seq<Arc>, arcs: set<Arc>, d: Diag)
    requires arcs == set a | a in A && a.prime != Nothing && a.sub != Nothing
    requires d == if arcs == {} then Nothing else Node(arcs)
    ensures Lists(d, A)
  {
    forall w
      ensures Has(d, w) <==> w.Cons? && ListHas(A, w.head, w.tail)
    {
      if Has(d, w) {
        var a :| a in arcs && Has(a.prime, w.head) && Has(a.sub, w.tail);
        var i :| 0 <= i < |A| && A[i] == a;
        assert ArcHas(A[i], w.head, w.tail);
      }
      if w.Cons? && ListHas(A, w.head, w.tail) {
        var i :| 0 <= i < |A| && ArcHas(A[i], w.head, w.tail);
        assert A[i] in arcs;
      }
    }
  }

  lemma Interned(h: Shape, t: Shape, A: seq<Arc>, arcs: set<Arc>)
    requires Tidy(h, t, A) && arcs == set a | a in A && a.prime != Nothing && a.sub != Nothing
    ensures var d := if arcs == {} then Nothing else Node(arcs);
            NF(Pair(h, t), d) && Lists(d, A)
  {
    InternedApart(A, arcs);
    InternedHas(A, arcs, if arcs == {} then Nothing else Node(arcs));
    hide Has, Lists, Disjoint;
  }

  // ----- The sieve -----

  /** `E` are the carved entries, `M` the buffered arcs, `D` the operand so far, and `rest` is not placed yet. */
  ghost predicate Sieving(h: Shape, t: Shape, E0: seq<Arc>, D: seq<Arc>, E: seq<Arc>, M: seq<Arc>, rest: Arc) {
    && Tidy(h, t, E) && Typed(h, t, M) && Apart(M)
    && NF(h, rest.prime) && NF(t, rest.sub)
    && (forall i :: 0 <= i < |E| ==> Clear(M, E[i].prime))
    && Clear(M, rest.prime)
    && (forall p :: Covers(M, p) || Has(rest.prime, p) ==> Covers(D, p))
    && (forall p, s :: ListHas(E, p, s) || ListHas(M, p, s) || ArcHas(rest, p, s) <==>
                       ListHas(E0, p, s) || ListHas(D, p, s))
  }

  /** The rest of the incoming arc meets none of the first `i` entries. */
  ghost predicate PassedBy(E: seq<Arc>, i: nat, rest: Diag)
    requires i <= |E|
  {
    forall j :: 0 <= j < i ==> Disjoint(E[j].prime, rest)
  }

  /** Split entry and rest at their overlap: the overlap is buffered under the joined sub. */
  lemma Carve(h: Shape, t: Shape, E0: seq<Arc>, D: seq<Arc>, E: seq<Arc>, M: seq<Arc>, rest: Arc, i: nat,
              overlap: Diag, e': Diag, rest': Diag, joined: Diag)
    requires Sieving(h, t, E0, D, E, M, rest) && i < |E| && PassedBy(E, i, rest.prime)
    requires NF(h, overlap) && forall p :: Has(overlap, p) <==> Has(E[i].prime, p) && Has(rest.prime, p)
    requires NF(h, e') && forall p :: Has(e', p) <==> Has(E[i].prime, p) && !Has(overlap, p)
    requires NF(h, rest') && forall p :: Has(rest', p) <==> Has(rest.prime, p) && !Has(overlap, p)
    requires NF(t, joined) && forall s :: Has(joined, s) <==> Has(E[i].sub, s) || Has(rest.sub, s)
    ensures var E' := E[i := Arc(e', E[i].sub)];
            && Sieving(h, t, E0, D, E', M + [Arc(overlap, joined)], Arc(rest', rest.sub))
            && PassedBy(E', i + 1, rest')
  {
    var a, m := Arc(e', E[i].sub), Arc(overlap, joined);
    var E', M' := E[i := a], M + [m];
    CarveDenotes(E, M, rest, i, m, a, rest');
    CarveApart(E, M, rest, i, m, a, rest');
    CarveTyped(h, t, E, M, i, m, a);
    forall p
      ensures Covers(M', p) || Has(rest', p) ==> Covers(D, p)
    {
      ListHasAppend(M, m, p, p);
      assert Covers(M, p) || Has(rest.prime, p) ==> Covers(D, p);
    }
    forall p, s
      ensures ListHas(E', p, s) || ListHas(M', p, s) || ArcHas(Arc(rest', rest.sub), p, s) <==>
              ListHas(E0, p, s) || ListHas(D, p, s)
    {
      assert ListHas(E', p, s) || ListHas(M', p, s) || ArcHas(Arc(rest', rest.sub), p, s) <==>
             ListHas(E, p, s) || ListHas(M, p, s) || ArcHas(rest, p, s);
    }
  }

  lemma CarveTyped(h: Shape, t: Shape, E: seq<Arc>, M: seq<Arc>, i: nat, m: Arc, a: Arc)
    requires Typed(h, t, E) && Typed(h, t, M) && i < |E| && a.sub == E[i].sub && NF(h, a.prime) && NF(h, m.prime) && NF(t, m.sub)
    requires DistinctSubs(E) && forall k :: 0 <= k < |E| ==> E[k].sub != Nothing
    ensures Typed(h, t, E[i := a]) && Typed(h, t, M + [m]) && DistinctSubs(E[i := a])
    ensures var E' := E[i := a];
            forall k :: 0 <= k < |E'| ==> E'[k].sub != Nothing
  {
  }

  lemma CarveDenotes(E: seq<Arc>, M: seq<Arc>, rest: Arc, i: nat, m: Arc, a: Arc, rest': Diag)
    requires i < |E| && a.sub == E[i].sub
    requires forall p :: Has(m.prime, p) <==> Has(E[i].prime, p) && Has(rest.prime, p)
    requires forall p :: Has(a.prime, p) <==> Has(E[i].prime, p) && !Has(m.prime, p)
    requires forall p :: Has(rest', p) <==> Has(rest.prime, p) && !Has(m.prime, p)
    requires forall s :: Has(m.sub, s) <==> Has(E[i].sub, s) || Has(rest.sub, s)
    ensures forall p, s :: ListHas(E[i := a], p, s) || ListHas(M + [m], p, s) || ArcHas(Arc(rest', rest.sub), p, s) <==>
                           ListHas(E, p, s) || ListHas(M, p, s) || ArcHas(rest, p, s)
  {
    forall p, s
      ensures ListHas(E[i := a], p, s) || ListHas(M + [m], p, s) || ArcHas(Arc(rest', rest.sub), p, s) <==>
              ListHas(E, p, s) || ListHas(M, p, s) || ArcHas(rest, p, s)
    {
      ListHasUpdate(E, i, a, p, s);
      assert E == E[i := E[i]];
      ListHasUpdate(E, i, E[i], p, s);
      ListHasAppend(M, m, p, s);
    }
  }

  lemma CarveApart(E: seq<Arc>, M: seq<Arc>, rest: Arc, i: nat, m: Arc, a: Arc, rest': Diag)
    requires i < |E| && a.sub == E[i].sub && PassedBy(E, i, rest.prime) && Apart(E) && Apart(M)
    requires forall j :: 0 <= j < |E| ==> Clear(M, E[j].prime)
    requires Clear(M, rest.prime)
    requires forall p :: Has(m.prime, p) <==> Has(E[i].prime, p) && Has(rest.prime, p)
    requires forall p :: Has(a.prime, p) <==> Has(E[i].prime, p) && !Has(m.prime, p)
    requires forall p :: Has(rest', p) <==> Has(rest.prime, p) && !Has(m.prime, p)
    ensures var E', M' := E[i := a], M + [m];
            && Apart(E') && Apart(M') && (forall j :: 0 <= j < |E'| ==> Clear(M', E'[j].prime))
            && Clear(M', rest') && PassedBy(E', i + 1, rest')
  {
    var E', M' := E[i := a], M + [m];
    forall j, k | 0 <= j < k < |E'|
      ensures Disjoint(E'[j].prime, E'[k].prime)
    {
      assert Disjoint(E[j].prime, E[k].prime);
    }
    forall j, k | 0 <= j < k < |M'|
      ensures Disjoint(M'[j].prime, M'[k].prime)
    {
      assert Disjoint(M[j].prime, rest.prime);
    }
    forall j, k | 0 <= j < |E'| && 0 <= k < |M'|
      ensures Disjoint(M'[k].prime, E'[j].prime)
    {
      assert Clear(M, E[j].prime);
      if j < i {
        assert Disjoint(E[j].prime, E[i].prime);
      } else if i < j {
        assert Disjoint(E[i].prime, E[j].prime);
      }
    }
    forall k | 0 <= k < |M'|
      ensures Disjoint(M'[k].prime, rest')
    {
      assert k < |M| ==> Disjoint(M[k].prime, rest.prime);
    }
    forall j | 0 <= j < i + 1
      ensures Disjoint(E'[j].prime, rest')
    {
      assert j < i ==> Disjoint(E[j].prime, rest.prime);
    }
  }

  /** What is left of the incoming arc is buffered under its own sub. */
  lemma PlaceRest(h: Shape, t: Shape, E0: seq<Arc>, D: seq<Arc>, E: seq<Arc>, M: seq<Arc>, rest: Arc)
    requires Sieving(h, t, E0, D, E, M, rest) && PassedBy(E, |E|, rest.prime)
    ensures Sieving(h, t, E0, D, E, M + [rest], Arc(Nothing, rest.sub))
  {
    var M' := M + [rest];
    forall p
      ensures Covers(M', p) ==> Covers(D, p)
    {
      ListHasAppend(M, rest, p, p);
      assert Covers(M, p) || Has(rest.prime, p) ==> Covers(D, p);
    }
    forall p, s
      ensures ListHas(E, p, s) || ListHas(M', p, s) <==> ListHas(E0, p, s) || ListHas(D, p, s)
    {
      ListHasAppend(M, rest, p, s);
      assert ListHas(E, p, s) || ListHas(M, p, s) || ArcHas(rest, p, s) <==> ListHas(E0, p, s) || ListHas(D, p, s);
    }
    forall j | 0 <= j < |E|
      ensures Clear(M', E[j].prime)
    {
      assert Clear(M, E[j].prime) && Disjoint(E[j].prime, rest.prime);
    }
  }

  /** An arc of the operand comes in. */
  lemma NextArc(h: Shape, t: Shape, E0: seq<Arc>, D: seq<Arc>, E: seq<Arc>, M: seq<Arc>, rest: Arc, a: Arc)
    requires Sieving(h, t, E0, D, E, M, rest) && rest.prime == Nothing
    requires NF(h, a.prime) && NF(t, a.sub) && Clear(D, a.prime)
    ensures Sieving(h, t, E0, D + [a], E, M, a)
  {
    forall p
      ensures Covers(M, p) || Has(a.prime, p) ==> Covers(D + [a], p)
      ensures Covers(M, p) ==> !Has(a.prime, p)
    {
      ListHasAppend(D, a, p, p);
      assert Covers(M, p) || Has(rest.prime, p) ==> Covers(D, p);
    }
    ClearCovers(M, a.prime);
    forall p, s
      ensures ListHas(E, p, s) || ListHas(M, p, s) || ArcHas(a, p, s) <==> ListHas(E0, p, s) || ListHas(D + [a], p, s)
    {
      ListHasAppend(D, a, p, s);
      assert ListHas(E, p, s) || ListHas(M, p, s) || ArcHas(rest, p, s) <==> ListHas(E0, p, s) || ListHas(D, p, s);
    }
  }

  /** One incoming arc carves the entries until it is used up. */
  method SieveArc(sort: Shape, E0: seq<Arc>, ghost D: seq<Arc>, M0: seq<Arc>, incoming: Arc, ghost start: seq<Arc>)
    returns (E: seq<Arc>, M: seq<Arc>)
    requires sort.Pair? && Sieving(sort.head, sort.tail, start, D, E0, M0, incoming)
    ensures Sieving(sort.head, sort.tail, start, D, E, M, Arc(Nothing, incoming.sub))
    decreases sort, 1
  {
    ghost var h, t := sort.head, sort.tail;
    E, M := E0, M0;
    var rest := incoming.prime;
    var i: nat := 0;
    while i < |E| && rest != Nothing
      invariant i <= |E| && Sieving(h, t, start, D, E, M, Arc(rest, incoming.sub))
      invariant PassedBy(E, i, rest)
      decreases |E| - i
    {
      ghost var was := Arc(rest, incoming.sub);
      if E[i].prime == rest {
        var joined := Join(sort.tail, E[i].sub, incoming.sub);
        Carve(h, t, start, D, E, M, was, i, rest, Nothing, Nothing, joined);
        M := M + [Arc(rest, joined)];
        E, rest := E[i := Arc(Nothing, E[i].sub)], Nothing;
      } else if E[i].prime != Nothing {
        var overlap := Meet(sort.head, E[i].prime, rest);
        if overlap != Nothing {
          var joined := Join(sort.tail, E[i].sub, incoming.sub);
          var carved := Nothing;
          if overlap != E[i].prime {
            carved := Minus(sort.head, E[i].prime, overlap);
          }
          var left := Minus(sort.head, rest, overlap);
          Carve(h, t, start, D, E, M, was, i, overlap, carved, left, joined);
          M := M + [Arc(overlap, joined)];
          E, rest := E[i := Arc(carved, E[i].sub)], left;
        }
      }
      i := i + 1;
    }
    ghost var last := Arc(rest, incoming.sub);
    if rest != Nothing {
      PlaceRest(h, t, start, D, E, M, last);
      M := M + [Arc(rest, incoming.sub)];
    } else {
      SkipArc(h, t, start, D, E, M, last);
    }
  }

  /** An empty arc is placed already. */
  lemma SkipArc(h: Shape, t: Shape, E0: seq<Arc>, D: seq<Arc>, E: seq<Arc>, M: seq<Arc>, rest: Arc)
    requires Sieving(h, t, E0, D, E, M, rest) && (rest.prime == Nothing || rest.sub == Nothing)
    ensures Sieving(h, t, E0, D, E, M, Arc(Nothing, rest.sub))
  {
    forall p, s
      ensures ListHas(E, p, s) || ListHas(M, p, s) <==> ListHas(E0, p, s) || ListHas(D, p, s)
    {
      assert !ArcHas(rest, p, s);
    }
    forall p
      ensures Covers(M, p) ==> Covers(D, p)
    {
      assert Covers(M, p) || Has(rest.prime, p) ==> Covers(D, p);
    }
  }

  /** Add buffered arcs whose primes meet neither each other nor the entries. */
  method AddAll(acc: Accumulator, M: seq<Arc>)
    requires acc.Valid() && Typed(acc.sort.head, acc.sort.tail, M) && Apart(M)
    requires forall i :: 0 <= i < |M| ==> Clear(acc.entries, M[i].prime)
    modifies acc
    ensures acc.Valid()
    ensures forall p, s :: ListHas(acc.entries, p, s) <==> old(ListHas(acc.entries, p, s)) || ListHas(M, p, s)
    decreases acc.sort, 1
  {
    ghost var E := acc.entries;
    for k := 0 to |M|
      invariant acc.Valid()
      invariant forall p, s :: ListHas(acc.entries, p, s) <==> ListHas(E, p, s) || ListHas(M[..k], p, s)
      invariant forall p :: Covers(acc.entries, p) ==> Covers(E, p) || Covers(M[..k], p)
    {
      ghost var E1 := acc.entries;
      NextIsClear(E, M, k, E1);
      acc.Add(M[k].sub, M[k].prime);
      AddedOne(E, M, k, E1, acc.entries);
    }
    assert M[..|M|] == M;
  }

  lemma NextIsClear(E: seq<Arc>, M: seq<Arc>, k: nat, E1: seq<Arc>)
    requires k < |M| && Apart(M) && Clear(E, M[k].prime)
    requires forall p :: Covers(E1, p) ==> Covers(E, p) || Covers(M[..k], p)
    ensures Clear(E1, M[k].prime)
  {
    forall p | Covers(E1, p)
      ensures !Has(M[k].prime, p)
    {
      if Covers(E, p) {
        var i :| 0 <= i < |E| && Has(E[i].prime, p);
        assert Disjoint(E[i].prime, M[k].prime);
      } else {
        var i :| 0 <= i < |M[..k]| && Has(M[..k][i].prime, p);
        assert Disjoint(M[i].prime, M[k].prime);
      }
    }
    ClearCovers(E1, M[k].prime);
  }

  lemma AddedOne(E: seq<Arc>, M: seq<Arc>, k: nat, E1: seq<Arc>, E2: seq<Arc>)
    requires k < |M|
    requires forall p, s :: ListHas(E1, p, s) <==> ListHas(E, p, s) || ListHas(M[..k], p, s)
    requires forall p :: Covers(E1, p) ==> Covers(E, p) || Covers(M[..k], p)
    requires forall p, s :: ListHas(E2, p, s) <==> ListHas(E1, p, s) || ArcHas(Arc(M[k].prime, M[k].sub), p, s)
    requires forall p :: Covers(E2, p) ==> Covers(E1, p) || Has(M[k].prime, p)
    ensures forall p, s :: ListHas(E2, p, s) <==> ListHas(E, p, s) || ListHas(M[..k + 1], p, s)
    ensures forall p :: Covers(E2, p) ==> Covers(E, p) || Covers(M[..k + 1], p)
  {
    assert M[..k + 1] == M[..k] + [M[k]];
    assert Arc(M[k].prime, M[k].sub) == M[k];
    forall p, s
      ensures ListHas(E2, p, s) <==> ListHas(E, p, s) || ListHas(M[..k + 1], p, s)
    {
      ListHasAppend(M[..k], M[k], p, s);
    }
    forall p
      ensures Covers(E2, p) ==> Covers(E, p) || Covers(M[..k + 1], p)
    {
      ListHasAppend(M[..k], M[k], p, p);
    }
  }

  /** Sieve an operand with disjoint primes into the accumulator. */
  method Sieve(acc: Accumulator, operand: seq<Arc>)
    requires acc.Valid() && Typed(acc.sort.head, acc.sort.tail, operand) && Apart(operand)
    modifies acc
    ensures acc.Valid()
    ensures forall p, s :: ListHas(acc.entries, p, s) <==> old(ListHas(acc.entries, p, s)) || ListHas(operand, p, s)
    decreases acc.sort, 2
  {
    ghost var h, t, E0 := acc.sort.head, acc.sort.tail, acc.entries;
    var E, M: seq<Arc> := acc.entries, [];
    ghost var rest := Arc(Nothing, Nothing);
    assert Sieving(h, t, E0, operand[..0], E, M, rest);
    for k := 0 to |operand|
      invariant acc.entries == E0
      invariant Sieving(h, t, E0, operand[..k], E, M, rest) && rest.prime == Nothing
    {
      var incoming := operand[k];
      assert operand[..k + 1] == operand[..k] + [incoming];
      NextArc(h, t, E0, operand[..k], E, M, rest, incoming);
      if incoming.prime == Nothing || incoming.sub == Nothing {
        SkipArc(h, t, E0, operand[..k + 1], E, M, incoming);
      } else {
        E, M := SieveArc(acc.sort, E, operand[..k + 1], M, incoming, E0);
      }
      rest := Arc(Nothing, incoming.sub);
    }
    assert operand[..|operand|] == operand;
    acc.entries := E;
    AddAll(acc, M);
  }

  // ----- The operations -----

  /** The normal form of a bag of rectangles: nothing is assumed about their primes. */
  method Canonize(sort: Shape, rectangles: seq<Arc>) returns (d: Diag)
    requires sort.Pair? && Typed(sort.head, sort.tail, rectangles)
    ensures NF(sort, d) && Lists(d, rectangles)
    decreases sort, 3
  {
    var acc := new Accumulator(sort.head, sort.tail);
    for k := 0 to |rectangles|
      invariant fresh(acc) && acc.sort == sort && acc.Valid()
      invariant forall p, s :: ListHas(acc.entries, p, s) <==> ListHas(rectangles[..k], p, s)
    {
      Sieve(acc, [rectangles[k]]);
      assert rectangles[..k + 1] == rectangles[..k] + [rectangles[k]];
      forall p, s
        ensures ListHas(rectangles[..k + 1], p, s) <==> ListHas(rectangles[..k], p, s) || ListHas([rectangles[k]], p, s)
      {
        ListHasAppend(rectangles[..k], rectangles[k], p, s);
        ListHasAppend([], rectangles[k], p, s);
        assert [] + [rectangles[k]] == [rectangles[k]];
      }
    }
    assert rectangles[..|rectangles|] == rectangles;
    d := Finish(acc);
  }

  /** The union. */
  method Join(sort: Shape, a: Diag, b: Diag) returns (d: Diag)
    requires NF(sort, a) && NF(sort, b)
    ensures NF(sort, d) && forall w :: Has(d, w) <==> Has(a, w) || Has(b, w)
    decreases sort, 4
  {
    if a == Nothing {
      return b;
    }
    if b == Nothing || a == b {
      return a;
    }
    if sort == Leaf {
      d := Ints(a.values + b.values);
    } else {
      d := JoinNodes(sort, a, b);
    }
  }

  method JoinNodes(sort: Shape, a: Diag, b: Diag) returns (d: Diag)
    requires sort.Pair? && NF(sort, a) && NF(sort, b)
    ensures NF(sort, d) && forall w :: Has(d, w) <==> Has(a, w) || Has(b, w)
    decreases sort, 3
  {
    var acc := new Accumulator(sort.head, sort.tail);
    var A := Arcs(sort.head, sort.tail, a);
    var B := Arcs(sort.head, sort.tail, b);
    AddAll(acc, A);
    Sieve(acc, B);
    d := Finish(acc);
  }

  /** The intersection. */
  method Meet(sort: Shape, a: Diag, b: Diag) returns (d: Diag)
    requires NF(sort, a) && NF(sort, b)
    ensures NF(sort, d) && forall w :: Has(d, w) <==> Has(a, w) && Has(b, w)
    decreases sort, 4
  {
    if a == Nothing || b == Nothing {
      return Nothing;
    }
    if a == b {
      return a;
    }
    if sort == Leaf {
      d := IntsOrNothing(a.values * b.values);
    } else {
      d := MeetNodes(sort, a, b);
    }
  }

  /** A leaf value, absence when empty. */
  function IntsOrNothing(values: set<int>): (d: Diag)
    ensures NF(Leaf, d) && forall w :: Has(d, w) <==> w.Int? && w.v in values
  {
    if values == {} then Nothing else Ints(values)
  }

  /** The difference. */
  method Minus(sort: Shape, a: Diag, b: Diag) returns (d: Diag)
    requires NF(sort, a) && NF(sort, b)
    ensures NF(sort, d) && forall w :: Has(d, w) <==> Has(a, w) && !Has(b, w)
    decreases sort, 4
  {
    if a == Nothing || b == Nothing {
      return a;
    }
    if a == b {
      return Nothing;
    }
    if sort == Leaf {
      d := IntsOrNothing(a.values - b.values);
    } else {
      d := MinusNodes(sort, a, b);
    }
  }

  /** Under a head of one prime, the list says what that arc's sub says. */
  lemma UnderOnePrime(B: seq<Arc>, j: nat, p: Tree, s: Tree)
    requires Apart(B) && j < |B| && Has(B[j].prime, p)
    ensures ListHas(B, p, s) <==> Has(B[j].sub, s)
  {
    if k :| 0 <= k < |B| && ArcHas(B[k], p, s) {
      assert k == j;
    }
    assert Has(B[j].sub, s) ==> ArcHas(B[j], p, s);
  }

  lemma ListHasPrefix(B: seq<Arc>, j: nat, p: Tree, s: Tree)
    requires j < |B|
    ensures ListHas(B[..j + 1], p, s) <==> ListHas(B[..j], p, s) || ArcHas(B[j], p, s)
    ensures Covers(B[..j + 1], p) <==> Covers(B[..j], p) || Has(B[j].prime, p)
  {
    assert B[..j + 1] == B[..j] + [B[j]];
    ListHasAppend(B[..j], B[j], p, s);
  }

  // ----- Meet -----

  /** The first `i` arcs of `A` have met `B`, arc `i` the first `j` arcs of `B`. */
  ghost predicate Meeting(A: seq<Arc>, B: seq<Arc>, i: nat, j: nat, E: seq<Arc>)
    requires i < |A| && j <= |B|
  {
    && (forall p, s :: ListHas(E, p, s) <==>
                       (ListHas(A[..i], p, s) && ListHas(B, p, s)) || (ArcHas(A[i], p, s) && ListHas(B[..j], p, s)))
    && (forall p :: Covers(E, p) ==> Covers(A[..i], p) || (Has(A[i].prime, p) && Covers(B[..j], p)))
  }

  /** A part of both primes meets nothing gathered so far. */
  lemma OverlapIsClear(A: seq<Arc>, B: seq<Arc>, i: nat, j: nat, E: seq<Arc>, overlap: Diag)
    requires i < |A| && j < |B| && Apart(A) && Apart(B)
    requires forall p :: Covers(E, p) ==> Covers(A[..i], p) || (Has(A[i].prime, p) && Covers(B[..j], p))
    requires forall p :: Has(overlap, p) ==> Has(A[i].prime, p) && Has(B[j].prime, p)
    ensures Clear(E, overlap)
  {
    forall p | Covers(E, p)
      ensures !Has(overlap, p)
    {
      if Covers(A[..i], p) {
        var k :| 0 <= k < |A[..i]| && Has(A[..i][k].prime, p);
        assert Disjoint(A[k].prime, A[i].prime);
      } else {
        var k :| 0 <= k < |B[..j]| && Has(B[..j][k].prime, p);
        assert Disjoint(B[k].prime, B[j].prime);
      }
    }
    ClearCovers(E, overlap);
  }

  lemma MeetStep(A: seq<Arc>, B: seq<Arc>, i: nat, j: nat, E: seq<Arc>, overlap: Diag, sub: Diag, E': seq<Arc>)
    requires i < |A| && j < |B| && Meeting(A, B, i, j, E)
    requires forall p :: Has(overlap, p) <==> Has(A[i].prime, p) && Has(B[j].prime, p)
    requires forall s :: Has(sub, s) <==> Has(A[i].sub, s) && Has(B[j].sub, s)
    requires forall p, s :: ListHas(E', p, s) <==> ListHas(E, p, s) || ArcHas(Arc(overlap, sub), p, s)
    requires forall p :: Covers(E', p) ==> Covers(E, p) || Has(overlap, p)
    ensures Meeting(A, B, i, j + 1, E')
  {
    forall p, s
      ensures ListHas(E', p, s) <==>
              (ListHas(A[..i], p, s) && ListHas(B, p, s)) || (ArcHas(A[i], p, s) && ListHas(B[..j + 1], p, s))
    {
      ListHasPrefix(B, j, p, s);
      assert ListHas(E, p, s) <==>
             (ListHas(A[..i], p, s) && ListHas(B, p, s)) || (ArcHas(A[i], p, s) && ListHas(B[..j], p, s));
      assert ListHas(E', p, s) <==> ListHas(E, p, s) || ArcHas(Arc(overlap, sub), p, s);
    }
    forall p
      ensures Covers(E', p) ==> Covers(A[..i], p) || (Has(A[i].prime, p) && Covers(B[..j + 1], p))
    {
      ListHasPrefix(B, j, p, p);
      assert Covers(E, p) ==> Covers(A[..i], p) || (Has(A[i].prime, p) && Covers(B[..j], p));
    }
  }

  lemma MeetSkip(A: seq<Arc>, B: seq<Arc>, i: nat, j: nat, E: seq<Arc>)
    requires i < |A| && j < |B| && Meeting(A, B, i, j, E) && Disjoint(A[i].prime, B[j].prime)
    ensures Meeting(A, B, i, j + 1, E)
  {
    forall p, s
      ensures ArcHas(A[i], p, s) && ListHas(B[..j + 1], p, s) <==> ArcHas(A[i], p, s) && ListHas(B[..j], p, s)
    {
      ListHasPrefix(B, j, p, s);
    }
    forall p
      ensures Covers(B[..j], p) ==> Covers(B[..j + 1], p)
    {
      ListHasPrefix(B, j, p, p);
    }
  }

  lemma ListHasPart(B: seq<Arc>, j: nat, p: Tree, s: Tree)
    requires j <= |B|
    ensures ListHas(B[..j], p, s) ==> ListHas(B, p, s)
  {
    if ListHas(B[..j], p, s) {
      var k :| 0 <= k < |B[..j]| && ArcHas(B[..j][k], p, s);
      assert ArcHas(B[k], p, s);
    }
  }

  /** An arc that is used up meets no later arc. */
  lemma MeetRest(A: seq<Arc>, B: seq<Arc>, i: nat, j: nat, E: seq<Arc>)
    requires i < |A| && j < |B| && Meeting(A, B, i, j + 1, E) && Apart(B)
    requires forall p :: Has(A[i].prime, p) ==> Has(B[j].prime, p)
    ensures Meeting(A, B, i, |B|, E)
  {
    assert B[..|B|] == B;
    forall p, s
      ensures ArcHas(A[i], p, s) ==> (ListHas(B, p, s) <==> ListHas(B[..j + 1], p, s))
    {
      ListHasPrefix(B, j, p, s);
      if ArcHas(A[i], p, s) {
        UnderOnePrime(B, j, p, s);
        ListHasPart(B, j, p, s);
      }
    }
    forall p
      ensures Covers(B[..j + 1], p) ==> Covers(B, p)
    {
      if Covers(B[..j + 1], p) {
        var k :| 0 <= k < |B[..j + 1]| && Has(B[..j + 1][k].prime, p);
        assert Has(B[k].prime, p);
      }
    }
  }

  lemma MeetNext(A: seq<Arc>, B: seq<Arc>, i: nat, E: seq<Arc>)
    requires i < |A| && Meeting(A, B, i, |B|, E)
    ensures forall p, s :: ListHas(E, p, s) <==> ListHas(A[..i + 1], p, s) && ListHas(B, p, s)
    ensures forall p :: Covers(E, p) ==> Covers(A[..i + 1], p)
  {
    assert B[..|B|] == B;
    forall p, s
      ensures ListHas(E, p, s) <==> ListHas(A[..i + 1], p, s) && ListHas(B, p, s)
    {
      ListHasPrefix(A, i, p, s);
    }
    forall p
      ensures Covers(E, p) ==> Covers(A[..i + 1], p)
    {
      ListHasPrefix(A, i, p, p);
    }
  }

  method MeetNodes(sort: Shape, a: Diag, b: Diag) returns (d: Diag)
    requires sort.Pair? && NF(sort, a) && NF(sort, b)
    ensures NF(sort, d) && forall w :: Has(d, w) <==> Has(a, w) && Has(b, w)
    decreases sort, 3
  {
    var acc := new Accumulator(sort.head, sort.tail);
    var A := Arcs(sort.head, sort.tail, a);
    var B := Arcs(sort.head, sort.tail, b);
    for i: nat := 0 to |A|
      invariant fresh(acc) && acc.sort == sort && acc.Valid()
      invariant forall p, s :: ListHas(acc.entries, p, s) <==> ListHas(A[..i], p, s) && ListHas(B, p, s)
      invariant forall p :: Covers(acc.entries, p) ==> Covers(A[..i], p)
    {
      MeetArc(acc, A, B, i);
    }
    assert A[..|A|] == A;
    d := Finish(acc);
  }

  /** One arc of `A` against the arcs of `B`, until it is used up. */
  method MeetArc(acc: Accumulator, A: seq<Arc>, B: seq<Arc>, i: nat)
    requires acc.Valid() && Tidy(acc.sort.head, acc.sort.tail, A) && Tidy(acc.sort.head, acc.sort.tail, B) && i < |A|
    requires forall p, s :: ListHas(acc.entries, p, s) <==> ListHas(A[..i], p, s) && ListHas(B, p, s)
    requires forall p :: Covers(acc.entries, p) ==> Covers(A[..i], p)
    modifies acc
    ensures acc.Valid()
    ensures forall p, s :: ListHas(acc.entries, p, s) <==> ListHas(A[..i + 1], p, s) && ListHas(B, p, s)
    ensures forall p :: Covers(acc.entries, p) ==> Covers(A[..i + 1], p)
    decreases acc.sort, 2
  {
    var x := A[i];
    for j: nat := 0 to |B|
      invariant acc.Valid() && Meeting(A, B, i, j, acc.entries)
    {
      var y := B[j];
      ghost var E := acc.entries;
      var overlap := Meet(acc.sort.head, x.prime, y.prime);
      if overlap == Nothing {
        MeetSkip(A, B, i, j, E);
      } else {
        OverlapIsClear(A, B, i, j, E, overlap);
        var sub := Meet(acc.sort.tail, x.sub, y.sub);
        acc.Add(sub, overlap);
        MeetStep(A, B, i, j, E, overlap, sub, acc.entries);
        if overlap == x.prime {
          MeetRest(A, B, i, j, acc.entries);
          break;
        }
      }
    }
    MeetNext(A, B, i, acc.entries);
  }

  // ----- Minus -----

  /** The first `i` arcs of `A` are done; of arc `i`, the part under the first `j` primes of `B`, and `rest` is left. */
  ghost predicate Subtracting(A: seq<Arc>, B: seq<Arc>, i: nat, j: nat, E: seq<Arc>, rest: Diag)
    requires i < |A| && j <= |B|
  {
    && (forall p, s :: ListHas(E, p, s) <==>
                       (ListHas(A[..i], p, s) && !ListHas(B, p, s))
                       || (ArcHas(A[i], p, s) && Covers(B[..j], p) && !ListHas(B, p, s)))
    && (forall p :: Has(rest, p) <==> Has(A[i].prime, p) && !Covers(B[..j], p))
    && (forall p :: Covers(E, p) ==> Covers(A[..i], p) || (Has(A[i].prime, p) && Covers(B[..j], p)))
  }

  lemma MinusStart(A: seq<Arc>, B: seq<Arc>, i: nat, E: seq<Arc>)
    requires i < |A|
    requires forall p, s :: ListHas(E, p, s) <==> ListHas(A[..i], p, s) && !ListHas(B, p, s)
    requires forall p :: Covers(E, p) ==> Covers(A[..i], p)
    ensures Subtracting(A, B, i, 0, E, A[i].prime)
  {
  }

  lemma MinusStep(A: seq<Arc>, B: seq<Arc>, i: nat, j: nat, E: seq<Arc>, rest: Diag, overlap: Diag, sub: Diag,
                  E': seq<Arc>, rest': Diag)
    requires i < |A| && j < |B| && Apart(B) && Subtracting(A, B, i, j, E, rest)
    requires forall p :: Has(overlap, p) <==> Has(A[i].prime, p) && Has(B[j].prime, p)
    requires forall s :: Has(sub, s) <==> Has(A[i].sub, s) && !Has(B[j].sub, s)
    requires forall p, s :: ListHas(E', p, s) <==> ListHas(E, p, s) || ArcHas(Arc(overlap, sub), p, s)
    requires forall p :: Covers(E', p) ==> Covers(E, p) || Has(overlap, p)
    requires forall p :: Has(rest', p) <==> Has(rest, p) && !Has(overlap, p)
    ensures Subtracting(A, B, i, j + 1, E', rest')
  {
    forall p, s
      ensures ListHas(E', p, s) <==>
              (ListHas(A[..i], p, s) && !ListHas(B, p, s))
              || (ArcHas(A[i], p, s) && Covers(B[..j + 1], p) && !ListHas(B, p, s))
    {
      ListHasPrefix(B, j, p, s);
      if Has(B[j].prime, p) {
        UnderOnePrime(B, j, p, s);
      }
      assert ListHas(E', p, s) <==> ListHas(E, p, s) || ArcHas(Arc(overlap, sub), p, s);
      assert ListHas(E, p, s) <==>
             (ListHas(A[..i], p, s) && !ListHas(B, p, s))
             || (ArcHas(A[i], p, s) && Covers(B[..j], p) && !ListHas(B, p, s));
    }
    forall p
      ensures Covers(E', p) ==> Covers(A[..i], p) || (Has(A[i].prime, p) && Covers(B[..j + 1], p))
      ensures Has(rest', p) <==> Has(A[i].prime, p) && !Covers(B[..j + 1], p)
    {
      ListHasPrefix(B, j, p, p);
      assert Covers(E, p) ==> Covers(A[..i], p) || (Has(A[i].prime, p) && Covers(B[..j], p));
    }
  }

  lemma MinusSkip(A: seq<Arc>, B: seq<Arc>, i: nat, j: nat, E: seq<Arc>, rest: Diag)
    requires i < |A| && j < |B| && Subtracting(A, B, i, j, E, rest) && Disjoint(A[i].prime, B[j].prime)
    ensures Subtracting(A, B, i, j + 1, E, rest)
  {
    forall p
      ensures Has(A[i].prime, p) ==> (Covers(B[..j], p) <==> Covers(B[..j + 1], p))
    {
      ListHasPrefix(B, j, p, p);
    }
    forall p, s
      ensures ArcHas(A[i], p, s) ==> (Covers(B[..j], p) <==> Covers(B[..j + 1], p))
    {
    }
  }

  /** What is left of the arc lies under no prime of `B`. */
  lemma MinusNext(A: seq<Arc>, B: seq<Arc>, i: nat, j: nat, E: seq<Arc>, rest: Diag, E': seq<Arc>)
    requires i < |A| && j <= |B| && Subtracting(A, B, i, j, E, rest) && (j == |B| || rest == Nothing)
    requires forall p, s :: ListHas(E', p, s) <==> ListHas(E, p, s) || ArcHas(Arc(rest, A[i].sub), p, s)
    requires forall p :: Covers(E', p) ==> Covers(E, p) || Has(rest, p)
    ensures forall p, s :: ListHas(E', p, s) <==> ListHas(A[..i + 1], p, s) && !ListHas(B, p, s)
    ensures forall p :: Covers(E', p) ==> Covers(A[..i + 1], p)
  {
    assert B[..|B|] == B;
    forall p, s
      ensures ListHas(E', p, s) <==> ListHas(A[..i + 1], p, s) && !ListHas(B, p, s)
    {
      ListHasPrefix(A, i, p, s);
      assert ListHas(E, p, s) <==>
             (ListHas(A[..i], p, s) && !ListHas(B, p, s))
             || (ArcHas(A[i], p, s) && Covers(B[..j], p) && !ListHas(B, p, s));
      if ListHas(B, p, s) {
        var k :| 0 <= k < |B| && ArcHas(B[k], p, s);
        assert Covers(B, p);
      }
      assert Has(rest, p) <==> Has(A[i].prime, p) && !Covers(B[..j], p);
    }
    forall p
      ensures Covers(E', p) ==> Covers(A[..i + 1], p)
    {
      ListHasPrefix(A, i, p, p);
    }
  }

  /** The rest of an arc meets nothing gathered so far. */
  lemma RestIsClear(A: seq<Arc>, B: seq<Arc>, i: nat, j: nat, E: seq<Arc>, rest: Diag)
    requires i < |A| && j <= |B| && Apart(A) && Subtracting(A, B, i, j, E, rest)
    ensures Clear(E, rest)
  {
    forall p | Covers(E, p)
      ensures !Has(rest, p)
    {
      if Covers(A[..i], p) {
        var k :| 0 <= k < |A[..i]| && Has(A[..i][k].prime, p);
        assert Disjoint(A[k].prime, A[i].prime);
      }
    }
    ClearCovers(E, rest);
  }

  method MinusNodes(sort: Shape, a: Diag, b: Diag) returns (d: Diag)
    requires sort.Pair? && NF(sort, a) && NF(sort, b)
    ensures NF(sort, d) && forall w :: Has(d, w) <==> Has(a, w) && !Has(b, w)
    decreases sort, 3
  {
    var acc := new Accumulator(sort.head, sort.tail);
    var A := Arcs(sort.head, sort.tail, a);
    var B := Arcs(sort.head, sort.tail, b);
    for i: nat := 0 to |A|
      invariant fresh(acc) && acc.sort == sort && acc.Valid()
      invariant forall p, s :: ListHas(acc.entries, p, s) <==> ListHas(A[..i], p, s) && !ListHas(B, p, s)
      invariant forall p :: Covers(acc.entries, p) ==> Covers(A[..i], p)
    {
      MinusArc(acc, A, B, i);
    }
    assert A[..|A|] == A;
    d := Finish(acc);
  }

  /** One arc of `A`, partitioned among the primes of `B` and the part they do not cover. */
  method MinusArc(acc: Accumulator, A: seq<Arc>, B: seq<Arc>, i: nat)
    requires acc.Valid() && Tidy(acc.sort.head, acc.sort.tail, A) && Tidy(acc.sort.head, acc.sort.tail, B) && i < |A|
    requires forall p, s :: ListHas(acc.entries, p, s) <==> ListHas(A[..i], p, s) && !ListHas(B, p, s)
    requires forall p :: Covers(acc.entries, p) ==> Covers(A[..i], p)
    modifies acc
    ensures acc.Valid()
    ensures forall p, s :: ListHas(acc.entries, p, s) <==> ListHas(A[..i + 1], p, s) && !ListHas(B, p, s)
    ensures forall p :: Covers(acc.entries, p) ==> Covers(A[..i + 1], p)
    decreases acc.sort, 2
  {
    hide Covers, ListHas, NF;
    var x, rest := A[i], A[i].prime;
    MinusStart(A, B, i, acc.entries);
    var j: nat := 0;
    while j < |B| && rest != Nothing
      invariant j <= |B| && NF(acc.sort.head, rest)
      invariant acc.Valid() && Subtracting(A, B, i, j, acc.entries, rest)
      decreases |B| - j
    {
      var y := B[j];
      ghost var E, was := acc.entries, rest;
      var overlap := Meet(acc.sort.head, x.prime, y.prime);
      if overlap == Nothing {
        MinusSkip(A, B, i, j, E, rest);
      } else {
        OverlapIsClear(A, B, i, j, E, overlap);
        var sub := Minus(acc.sort.tail, x.sub, y.sub);
        acc.Add(sub, overlap);
        rest := Minus(acc.sort.head, rest, overlap);
        MinusStep(A, B, i, j, E, was, overlap, sub, acc.entries, rest);
      }
      j := j + 1;
    }
    RestIsClear(A, B, i, j, acc.entries, rest);
    ghost var E := acc.entries;
    if rest != Nothing {
      acc.Add(x.sub, rest);
    }
    MinusNext(A, B, i, j, E, rest, acc.entries);
  }
}
