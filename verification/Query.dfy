/**
 Splitting a diagram by the value of an expression, and selecting by a comparison
 across a cut (src/query.cc).
 */
module Queries {
  import opened Finite
  import opened Leaves
  import opened Expressions
  import opened Substitutions
  import opened Shrinking
  import opened Positions
  import opened Exactness
  import opened Diagrams
  import opened Algebra
  import opened Terms

  // ----- Splits -----

  /** A key may stand for a word. */
  type KeyOf<!K> = (K, Tree) -> bool

  ghost predicate InSome<K(!new)>(classes: map<K, Diag>, w: Tree) {
    exists k :: k in classes && Has(classes[k], w)
  }

  ghost predicate Pieces<K(!new)>(sh: Shape, classes: map<K, Diag>) {
    forall k :: k in classes ==> NF(sh, classes[k]) && classes[k] != Nothing
  }

  /** The words of a piece are words of the diagram that fit the piece's key. */
  ghost predicate Fit<K(!new)>(d: Diag, classes: map<K, Diag>, key: KeyOf<K>) {
    forall k, w :: k in classes && Has(classes[k], w) ==> Has(d, w) && key(k, w)
  }

  ghost predicate Whole<K(!new)>(d: Diag, classes: map<K, Diag>) {
    forall w {:trigger InSome(classes, w)} :: Has(d, w) ==> InSome(classes, w)
  }

  /** No word is in two pieces. */
  ghost predicate Separate<K(!new)>(classes: map<K, Diag>) {
    forall k, k', w :: k in classes && k' in classes && Has(classes[k], w) && Has(classes[k'], w) ==> k == k'
  }

  /** Disjoint non-empty pieces, one per key, that make up the diagram and fit their keys. */
  ghost predicate Splits<K(!new)>(sh: Shape, d: Diag, classes: map<K, Diag>, key: KeyOf<K>) {
    Pieces(sh, classes) && Fit(d, classes, key) && Whole(d, classes) && Separate(classes)
  }

  // ----- Rectangles by key -----

  /** The rectangles gathered under a key have this word. */
  ghost predicate Under<K(!new)>(rects: map<K, seq<Arc>>, k: K, p: Tree, s: Tree) {
    k in rects && ListHas(rects[k], p, s)
  }

  ghost predicate UnderSome<K(!new)>(rects: map<K, seq<Arc>>, p: Tree, s: Tree) {
    exists k :: Under(rects, k, p, s)
  }

  ghost predicate AllTyped<K(!new)>(sh: Shape, rects: map<K, seq<Arc>>) {
    sh.Pair? && forall k :: k in rects ==> Typed(sh.head, sh.tail, rects[k])
  }

  /** The words of the arcs so far, gathered by key. */
  ghost predicate Gathering<K(!new)>(A: seq<Arc>, rects: map<K, seq<Arc>>, key: KeyOf<K>) {
    && (forall k, p, s :: Under(rects, k, p, s) ==> ListHas(A, p, s) && key(k, Cons(p, s)))
    && (forall p, s {:trigger UnderSome(rects, p, s)} :: ListHas(A, p, s) ==> UnderSome(rects, p, s))
    && (forall k, k', p, s :: Under(rects, k, p, s) && Under(rects, k', p, s) ==> k == k')
  }

  /** A piece of a prime with the arc's sub, or the arc's prime with a piece of its sub. */
  function Rectangle(a: Arc, piece: Diag, inHead: bool): Arc {
    if inHead then Arc(piece, a.sub) else Arc(a.prime, piece)
  }

  /** The pieces of one arc, as rectangles, are added under their keys. */
  ghost predicate Added<K(!new)>(rects: map<K, seq<Arc>>, pieces: map<K, Diag>, a: Arc, inHead: bool, rects': map<K, seq<Arc>>) {
    forall k, p, s :: Under(rects', k, p, s) <==>
      Under(rects, k, p, s) || (k in pieces && ArcHas(Rectangle(a, pieces[k], inHead), p, s))
  }

  method AddPieces<K(!new, ==)>(sh: Shape, rects: map<K, seq<Arc>>, pieces: map<K, Diag>, a: Arc, inHead: bool)
    returns (r: map<K, seq<Arc>>)
    requires AllTyped(sh, rects) && NF(sh.head, a.prime) && NF(sh.tail, a.sub)
    requires forall k :: k in pieces ==> NF(if inHead then sh.head else sh.tail, pieces[k])
    ensures AllTyped(sh, r) && Added(rects, pieces, a, inHead, r)
  {
    hide AllTyped, AddedSome, Added, NF;
    r := rects;
    var rest := pieces.Keys;
    ghost var done: set<K> := {};
    NoneAdded(rects, pieces, a, inHead);
    while rest != {}
      invariant rest + done == pieces.Keys && rest !! done && AllTyped(sh, r)
      invariant AddedSome(rects, pieces, done, a, inHead, r)
      decreases |rest|
    {
      var k :| k in rest;
      ghost var was := r;
      r := AddRectangle(sh, r, k, a, pieces[k], inHead);
      AddedOne(rects, pieces, done, a, inHead, was, k, r);
      rest, done := rest - {k}, done + {k};
    }
    assert done == pieces.Keys;
    AllAdded(rects, pieces, a, inHead, r);
  }

  method AddRectangle<K(!new, ==)>(sh: Shape, rects: map<K, seq<Arc>>, k: K, a: Arc, piece: Diag, inHead: bool)
    returns (r: map<K, seq<Arc>>)
    requires AllTyped(sh, rects) && NF(sh.head, a.prime) && NF(sh.tail, a.sub)
    requires NF(if inHead then sh.head else sh.tail, piece)
    ensures AllTyped(sh, r) && r == rects[k := (if k in rects then rects[k] else []) + [Rectangle(a, piece, inHead)]]
  {
    hide NF;
    r := rects[k := (if k in rects then rects[k] else []) + [Rectangle(a, piece, inHead)]];
  }

  lemma NoneAdded<K(!new)>(rects: map<K, seq<Arc>>, pieces: map<K, Diag>, a: Arc, inHead: bool)
    ensures AddedSome(rects, pieces, {}, a, inHead, rects)
  {
  }

  lemma AllAdded<K(!new)>(rects: map<K, seq<Arc>>, pieces: map<K, Diag>, a: Arc, inHead: bool, now: map<K, seq<Arc>>)
    requires AddedSome(rects, pieces, pieces.Keys, a, inHead, now)
    ensures Added(rects, pieces, a, inHead, now)
  {
    hide Under, ArcHas, Rectangle;
  }

  ghost predicate AddedSome<K(!new)>(rects: map<K, seq<Arc>>, pieces: map<K, Diag>, done: set<K>, a: Arc, inHead: bool,
                                     rects': map<K, seq<Arc>>) {
    && done <= pieces.Keys
    && forall k, p, s :: Under(rects', k, p, s) <==>
         Under(rects, k, p, s) || (k in done && ArcHas(Rectangle(a, pieces[k], inHead), p, s))
  }

  lemma AddedOne<K(!new)>(rects: map<K, seq<Arc>>, pieces: map<K, Diag>, done: set<K>, a: Arc, inHead: bool,
                          was: map<K, seq<Arc>>, k: K, now: map<K, seq<Arc>>)
    requires AddedSome(rects, pieces, done, a, inHead, was) && k in pieces && k !in done
    requires now == was[k := (if k in was then was[k] else []) + [Rectangle(a, pieces[k], inHead)]]
    ensures AddedSome(rects, pieces, done + {k}, a, inHead, now)
  {
    var rect := Rectangle(a, pieces[k], inHead);
    forall j, p, s
      ensures Under(now, j, p, s) <==>
              Under(rects, j, p, s) || (j in done + {k} && ArcHas(Rectangle(a, pieces[j], inHead), p, s))
    {
      assert Under(was, j, p, s) <==>
             Under(rects, j, p, s) || (j in done && ArcHas(Rectangle(a, pieces[j], inHead), p, s));
      if j == k {
        ListHasAppend(if k in was then was[k] else [], rect, p, s);
      }
    }
  }

  /** The keys of the pieces stand for the words of the arc too. */
  ghost predicate Lifts<K(!new)>(a: Arc, inHead: bool, part: KeyOf<K>, key: KeyOf<K>) {
    forall k, p, s :: ArcHas(a, p, s) && part(k, if inHead then p else s) ==> key(k, Cons(p, s))
  }

  /** One more arc, split on one side. */
  lemma GatherStep<K(!new)>(sh: Shape, A: seq<Arc>, i: nat, rects: map<K, seq<Arc>>, key: KeyOf<K>,
                            pieces: map<K, Diag>, part: KeyOf<K>, inHead: bool, rects': map<K, seq<Arc>>)
    requires sh.Pair? && i < |A| && Apart(A) && Gathering(A[..i], rects, key)
    requires Splits(if inHead then sh.head else sh.tail, if inHead then A[i].prime else A[i].sub, pieces, part)
    requires Lifts(A[i], inHead, part, key) && Added(rects, pieces, A[i], inHead, rects')
    ensures Gathering(A[..i + 1], rects', key)
  {
    GatherStepKeys(sh, A, i, rects, key, pieces, part, inHead, rects');
    GatherStepCovers(sh, A, i, rects, key, pieces, part, inHead, rects');
    GatherStepApart(sh, A, i, rects, key, pieces, part, inHead, rects');
  }

  lemma NoneGathered<K(!new)>(sh: Shape, A: seq<Arc>, key: KeyOf<K>)
    requires sh.Pair?
    ensures AllTyped<K>(sh, map[]) && Gathering(A[..0], map[], key)
  {
  }

  /** A word of the new rectangles is a word of the arc. */
  lemma RectangleInArc<K(!new)>(sh: Shape, a: Arc, pieces: map<K, Diag>, part: KeyOf<K>, inHead: bool, k: K, p: Tree, s: Tree)
    requires sh.Pair?
    requires Splits(if inHead then sh.head else sh.tail, if inHead then a.prime else a.sub, pieces, part)
    requires k in pieces && ArcHas(Rectangle(a, pieces[k], inHead), p, s)
    ensures ArcHas(a, p, s) && part(k, if inHead then p else s)
  {
  }

  lemma GatherStepKeys<K(!new)>(sh: Shape, A: seq<Arc>, i: nat, rects: map<K, seq<Arc>>, key: KeyOf<K>,
                                pieces: map<K, Diag>, part: KeyOf<K>, inHead: bool, rects': map<K, seq<Arc>>)
    requires sh.Pair? && i < |A| && Gathering(A[..i], rects, key)
    requires Splits(if inHead then sh.head else sh.tail, if inHead then A[i].prime else A[i].sub, pieces, part)
    requires Lifts(A[i], inHead, part, key) && Added(rects, pieces, A[i], inHead, rects')
    ensures forall k, p, s :: Under(rects', k, p, s) ==> ListHas(A[..i + 1], p, s) && key(k, Cons(p, s))
  {
    forall k, p, s | Under(rects', k, p, s)
      ensures ListHas(A[..i + 1], p, s) && key(k, Cons(p, s))
    {
      ListHasPrefix(A, i, p, s);
      if !Under(rects, k, p, s) {
        RectangleInArc(sh, A[i], pieces, part, inHead, k, p, s);
      }
    }
  }

  lemma GatherStepCovers<K(!new)>(sh: Shape, A: seq<Arc>, i: nat, rects: map<K, seq<Arc>>, key: KeyOf<K>,
                                  pieces: map<K, Diag>, part: KeyOf<K>, inHead: bool, rects': map<K, seq<Arc>>)
    requires sh.Pair? && i < |A| && Gathering(A[..i], rects, key)
    requires Splits(if inHead then sh.head else sh.tail, if inHead then A[i].prime else A[i].sub, pieces, part)
    requires Added(rects, pieces, A[i], inHead, rects')
    ensures forall p, s {:trigger UnderSome(rects', p, s)} :: ListHas(A[..i + 1], p, s) ==> UnderSome(rects', p, s)
  {
    forall p, s | ListHas(A[..i + 1], p, s)
      ensures UnderSome(rects', p, s)
    {
      ListHasPrefix(A, i, p, s);
      if ListHas(A[..i], p, s) {
        assert UnderSome(rects, p, s);
        var k :| Under(rects, k, p, s);
        assert Under(rects', k, p, s);
      } else {
        assert InSome(pieces, if inHead then p else s);
        var k :| k in pieces && Has(pieces[k], if inHead then p else s);
        assert ArcHas(Rectangle(A[i], pieces[k], inHead), p, s);
        assert Under(rects', k, p, s);
      }
    }
  }

  lemma GatherStepApart<K(!new)>(sh: Shape, A: seq<Arc>, i: nat, rects: map<K, seq<Arc>>, key: KeyOf<K>,
                                 pieces: map<K, Diag>, part: KeyOf<K>, inHead: bool, rects': map<K, seq<Arc>>)
    requires sh.Pair? && i < |A| && Apart(A) && Gathering(A[..i], rects, key)
    requires Splits(if inHead then sh.head else sh.tail, if inHead then A[i].prime else A[i].sub, pieces, part)
    requires Added(rects, pieces, A[i], inHead, rects')
    ensures forall k, k', p, s :: Under(rects', k, p, s) && Under(rects', k', p, s) ==> k == k'
  {
    forall k, k', p, s | Under(rects', k, p, s) && Under(rects', k', p, s)
      ensures k == k'
    {
      if Under(rects, k, p, s) || Under(rects, k', p, s) {
        assert ListHas(A[..i], p, s);
        var j :| 0 <= j < |A[..i]| && ArcHas(A[..i][j], p, s);
        assert Disjoint(A[j].prime, A[i].prime);
        assert !Has(A[i].prime, p);
        if !Under(rects, k, p, s) {
          RectangleInArc(sh, A[i], pieces, part, inHead, k, p, s);
        }
        if !Under(rects, k', p, s) {
          RectangleInArc(sh, A[i], pieces, part, inHead, k', p, s);
        }
      }
    }
  }

  /** The keys in `done` have their canonized pieces, unless empty. */
  ghost predicate Canonized<K(!new)>(sh: Shape, rects: map<K, seq<Arc>>, done: set<K>, classes: map<K, Diag>) {
    && classes.Keys <= done <= rects.Keys
    && (forall k :: k in classes ==> NF(sh, classes[k]) && classes[k] != Nothing && Lists(classes[k], rects[k]))
    && (forall k :: k in done && k !in classes ==> Lists(Nothing, rects[k]))
  }

  lemma NoneCanonized<K(!new)>(sh: Shape, rects: map<K, seq<Arc>>)
    ensures Canonized(sh, rects, {}, map[])
  {
  }

  lemma CanonizedStep<K(!new)>(sh: Shape, rects: map<K, seq<Arc>>, done: set<K>, classes: map<K, Diag>, k: K, piece: Diag)
    requires Canonized(sh, rects, done, classes) && k in rects && NF(sh, piece) && Lists(piece, rects[k]) && k !in done
    ensures Canonized(sh, rects, done + {k}, if piece == Nothing then classes else classes[k := piece])
  {
    hide NF, Lists;
  }

  /** Canonize the rectangles of each key; keys without a word are dropped. */
  method CanonizeClasses<K(!new, ==)>(sh: Shape, d: Diag, ghost A: seq<Arc>, rects: map<K, seq<Arc>>, ghost key: KeyOf<K>)
    returns (classes: map<K, Diag>)
    requires AllTyped(sh, rects) && Lists(d, A) && Gathering(A, rects, key)
    ensures Splits(sh, d, classes, key)
  {
    hide NF, Lists, Gathering, AllTyped, Splits, Canonized;
    classes := map[];
    assert Canonized<K>(sh, rects, {}, map[]) by { NoneCanonized(sh, rects); }
    var rest := rects.Keys;
    ghost var done: set<K> := {};
    while rest != {}
      invariant rest + done == rects.Keys && rest !! done && Canonized(sh, rects, done, classes)
      decreases |rest|
    {
      var k :| k in rest;
      var piece := CanonizeKey(sh, rects, k);
      CanonizedStep(sh, rects, done, classes, k, piece);
      if piece != Nothing {
        classes := classes[k := piece];
      }
      rest, done := rest - {k}, done + {k};
    }
    assert done == rects.Keys;
    ClassesSplit(sh, d, A, rects, key, classes);
  }

  method CanonizeKey<K(!new, ==)>(sh: Shape, rects: map<K, seq<Arc>>, k: K) returns (piece: Diag)
    requires AllTyped(sh, rects) && k in rects
    ensures NF(sh, piece) && Lists(piece, rects[k])
  {
    piece := Canonize(sh, rects[k]);
  }

  /** The piece of a key has the words gathered under it. */
  ghost predicate PieceOf<K(!new)>(rects: map<K, seq<Arc>>, classes: map<K, Diag>, k: K, w: Tree) {
    (k in classes && Has(classes[k], w)) <==> (w.Cons? && Under(rects, k, w.head, w.tail))
  }

  lemma AllPieceWords<K(!new)>(sh: Shape, rects: map<K, seq<Arc>>, classes: map<K, Diag>)
    requires Canonized(sh, rects, rects.Keys, classes)
    ensures forall k, w :: PieceOf(rects, classes, k, w)
  {
    forall k, w
      ensures PieceOf(rects, classes, k, w)
    {
      if k in classes {
        assert Lists(classes[k], rects[k]);
      } else if k in rects {
        assert Lists(Nothing, rects[k]);
        assert !Has(Nothing, w);
      }
    }
  }

  lemma ClassesSplit<K(!new)>(sh: Shape, d: Diag, A: seq<Arc>, rects: map<K, seq<Arc>>, key: KeyOf<K>, classes: map<K, Diag>)
    requires Lists(d, A) && Gathering(A, rects, key) && Canonized(sh, rects, rects.Keys, classes)
    ensures Splits(sh, d, classes, key)
  {
    AllPieceWords(sh, rects, classes);
    PiecesSplit(sh, d, A, rects, key, classes);
  }

  lemma PiecesSplit<K(!new)>(sh: Shape, d: Diag, A: seq<Arc>, rects: map<K, seq<Arc>>, key: KeyOf<K>, classes: map<K, Diag>)
    requires Lists(d, A) && Gathering(A, rects, key) && forall k, w :: PieceOf(rects, classes, k, w)
    requires Pieces(sh, classes)
    ensures Splits(sh, d, classes, key)
  {
    PiecesFit(d, A, rects, key, classes);
    PiecesCover(d, A, rects, key, classes);
    PiecesApart(A, rects, key, classes);
  }

  lemma PiecesFit<K(!new)>(d: Diag, A: seq<Arc>, rects: map<K, seq<Arc>>, key: KeyOf<K>, classes: map<K, Diag>)
    requires Lists(d, A) && Gathering(A, rects, key) && forall k, w :: PieceOf(rects, classes, k, w)
    ensures Fit(d, classes, key)
  {
    forall k, w | k in classes && Has(classes[k], w)
      ensures Has(d, w) && key(k, w)
    {
      assert PieceOf(rects, classes, k, w);
      assert w == Cons(w.head, w.tail);
    }
  }

  lemma PiecesCover<K(!new)>(d: Diag, A: seq<Arc>, rects: map<K, seq<Arc>>, key: KeyOf<K>, classes: map<K, Diag>)
    requires Lists(d, A) && Gathering(A, rects, key) && forall k, w :: PieceOf(rects, classes, k, w)
    ensures Whole(d, classes)
  {
    forall w | Has(d, w)
      ensures InSome(classes, w)
    {
      assert UnderSome(rects, w.head, w.tail);
      var k :| Under(rects, k, w.head, w.tail);
      assert PieceOf(rects, classes, k, w);
    }
  }

  lemma PiecesApart<K(!new)>(A: seq<Arc>, rects: map<K, seq<Arc>>, key: KeyOf<K>, classes: map<K, Diag>)
    requires Gathering(A, rects, key) && forall k, w :: PieceOf(rects, classes, k, w)
    ensures Separate(classes)
  {
    forall k, k', w | k in classes && k' in classes && Has(classes[k], w) && Has(classes[k'], w)
      ensures k == k'
    {
      assert PieceOf(rects, classes, k, w) && PieceOf(rects, classes, k', w);
    }
  }

  // ----- Filters -----

  /** The value at a frontier position. */
  function At(w: Tree, pos: nat): int {
    if pos < |Frontier(w)| then Frontier(w)[pos] else 0
  }

  /** Positions of the head come before those of the tail. */
  lemma AtCons(sh: Shape, p: Tree, s: Tree, pos: nat)
    requires sh.Pair? && Laid(sh.head, p) && Laid(sh.tail, s)
    ensures At(Cons(p, s), pos) == if pos < Width(sh.head) then At(p, pos) else At(s, pos - Width(sh.head))
  {
    FrontierWidth(sh.head, p);
  }

  /** The rectangles have the words of the arcs that are good. */
  ghost predicate Filtered(A: seq<Arc>, R: seq<Arc>, good: Tree -> bool) {
    forall p, s :: ListHas(R, p, s) <==> ListHas(A, p, s) && good(Cons(p, s))
  }

  /** One more arc, with a rectangle that has its good words. */
  lemma FilterStep(A: seq<Arc>, i: nat, R: seq<Arc>, rect: Arc, R': seq<Arc>, good: Tree -> bool)
    requires i < |A| && Filtered(A[..i], R, good)
    requires forall p, s :: ArcHas(rect, p, s) <==> ArcHas(A[i], p, s) && good(Cons(p, s))
    requires R' == if rect.prime == Nothing || rect.sub == Nothing then R else R + [rect]
    ensures Filtered(A[..i + 1], R', good)
  {
    forall p, s
      ensures ListHas(R', p, s) <==> ListHas(A[..i + 1], p, s) && good(Cons(p, s))
    {
      ListHasPrefix(A, i, p, s);
      ListHasAppend(R, rect, p, s);
    }
  }

  lemma FilteredDenotes(d: Diag, A: seq<Arc>, R: seq<Arc>, r: Diag, good: Tree -> bool)
    requires Lists(d, A) && Lists(r, R) && Filtered(A, R, good)
    ensures forall w :: Has(r, w) <==> Has(d, w) && good(w)
  {
    forall w
      ensures Has(r, w) <==> Has(d, w) && good(w)
    {
      if w.Cons? {
        assert w == Cons(w.head, w.tail);
        assert ListHas(R, w.head, w.tail) <==> ListHas(A, w.head, w.tail) && good(Cons(w.head, w.tail));
      }
    }
  }

  lemma ArcLaid(sh: Shape, a: Arc, p: Tree, s: Tree)
    requires sh.Pair? && NF(sh.head, a.prime) && NF(sh.tail, a.sub) && ArcHas(a, p, s)
    ensures Laid(sh.head, p) && Laid(sh.tail, s)
  {
    HasLaid(sh.head, a.prime, p);
    HasLaid(sh.tail, a.sub, s);
  }

  ghost function KeptAt(pos: nat, keep: int -> bool): Tree -> bool {
    (w: Tree) => keep(At(w, pos))
  }

  /** Keep the words whose value at a position passes: one descent, the filter applied at the leaf. */
  method Descend(sh: Shape, c: Diag, pos: nat, keep: int -> bool) returns (r: Diag)
    requires NF(sh, c) && pos < Width(sh)
    ensures NF(sh, r) && forall w :: Has(r, w) <==> Has(c, w) && keep(At(w, pos))
    decreases sh
  {
    if c == Nothing {
      return Nothing;
    }
    if sh == Leaf {
      r := IntsOrNothing(set v | v in c.values && keep(v));
      return;
    }
    var A := Arcs(sh.head, sh.tail, c);
    var R: seq<Arc> := [];
    ghost var good := KeptAt(pos, keep);
    for i: nat := 0 to |A|
      invariant Typed(sh.head, sh.tail, R) && Filtered(A[..i], R, good)
    {
      ghost var was := R;
      var rect := DescendArc(sh, A[i], pos, keep);
      if rect.prime != Nothing && rect.sub != Nothing {
        R := R + [rect];
      }
      FilterStep(A, i, was, rect, R, good);
    }
    assert A[..|A|] == A;
    r := Canonize(sh, R);
    FilteredDenotes(c, A, R, r, good);
  }

  method DescendArc(sh: Shape, a: Arc, pos: nat, keep: int -> bool) returns (rect: Arc)
    requires sh.Pair? && NF(sh.head, a.prime) && NF(sh.tail, a.sub) && pos < Width(sh)
    ensures NF(sh.head, rect.prime) && NF(sh.tail, rect.sub)
    ensures forall p, s :: ArcHas(rect, p, s) <==> ArcHas(a, p, s) && KeptAt(pos, keep)(Cons(p, s))
    decreases sh, 0
  {
    var wh := Width(sh.head);
    if pos < wh {
      var np := Descend(sh.head, a.prime, pos, keep);
      rect := Arc(np, a.sub);
    } else {
      var ns := Descend(sh.tail, a.sub, pos - wh, keep);
      rect := Arc(a.prime, ns);
    }
    forall p, s
      ensures ArcHas(rect, p, s) <==> ArcHas(a, p, s) && KeptAt(pos, keep)(Cons(p, s))
    {
      if ArcHas(a, p, s) {
        ArcLaid(sh, a, p, s);
        AtCons(sh, p, s, pos);
      }
    }
  }

  // ----- Split by a coordinate -----

  /** The marker is a constant or undefined, and stands for the expression at the word. */
  ghost function Marks(e: IExpr): KeyOf<IExpr> {
    (m: IExpr, w: Tree) => (m.Const? || m.Undef?) && Stands(e, m, Frontier(w))
  }

  ghost function ValueAt(pos: nat): KeyOf<int> {
    (v: int, w: Tree) => At(w, pos) == v
  }

  lemma {:induction false} StripPlain(e: IExpr, lo: int, hi: int)
    requires Spans(e, lo, hi, false)
    ensures Strip(e) == e
    decreases e, 1
  {
    match e
    case Nary(_, ops) =>
      StripAllPlain(ops, lo, hi);
    case Binary(_, l, r) =>
      StripPlain(l, lo, hi);
      StripPlain(r, lo, hi);
    case BitComp(x) =>
      StripPlain(x, lo, hi);
    case Wrap(b) =>
      StripBoolPlain(b, lo, hi);
    case _ =>
  }

  lemma {:induction false} StripAllPlain(ops: seq<IExpr>, lo: int, hi: int)
    requires AllSpan(ops, lo, hi, false)
    ensures StripAll(ops) == ops
    decreases ops, 0
  {
    if ops != [] {
      StripPlain(ops[0], lo, hi);
      StripAllPlain(ops[1..], lo, hi);
    }
  }

  lemma {:induction false} StripBoolPlain(b: BExpr, lo: int, hi: int)
    requires SpansBool(b, lo, hi, false)
    ensures StripBool(b) == b
    decreases b, 1
  {
    match b
    case Compare(_, l, r) =>
      StripPlain(l, lo, hi);
      StripPlain(r, lo, hi);
    case NaryBool(_, ops) =>
      StripAllBoolPlain(ops, lo, hi);
    case Not(a) =>
      StripBoolPlain(a, lo, hi);
    case _ =>
  }

  lemma {:induction false} StripAllBoolPlain(ops: seq<BExpr>, lo: int, hi: int)
    requires AllSpanBool(ops, lo, hi, false)
    ensures StripAllBool(ops) == ops
    decreases ops, 0
  {
    if ops != [] {
      StripBoolPlain(ops[0], lo, hi);
      StripAllBoolPlain(ops[1..], lo, hi);
    }
  }

  function MarkerOf(v: Option<int>): IExpr {
    match v
    case Some(x) => Const(x)
    case None => Undef
  }

  method GroupValues(values: set<int>, e: IExpr) returns (classes: map<IExpr, Diag>)
    requires Strip(e) == e
    ensures Grouped(classes, values, e)
  {
    classes := map[];
    var rest := values;
    ghost var done: set<int> := {};
    while rest != {}
      invariant rest + done == values && Grouped(classes, done, e)
      decreases |rest|
    {
      var v := Pick(rest);
      GroupedStep(classes, done, e, v);
      classes := Regrouped(classes, MarkerOf(EvalInt(e, [v])), v);
      rest, done := rest - {v}, done + {v};
    }
    assert done == values;
  }

  /** The values of a leaf grouped by the value of an expression. */
  method SplitLeaf(d: Diag, e: IExpr) returns (classes: map<IExpr, Diag>)
    requires NF(Leaf, d) && Spans(e, 0, 1, false)
    ensures Splits(Leaf, d, classes, Marks(e))
    ensures if d == Nothing then classes == map[] else Grouped(classes, d.values, e)
  {
    if d == Nothing {
      classes := map[];
    } else {
      StripPlain(e, 0, 1);
      classes := GroupValues(d.values, e);
      GroupedSplits(d, classes, e);
    }
  }

  /** The values so far, each under its marker. */
  ghost predicate Grouped(classes: map<IExpr, Diag>, done: set<int>, e: IExpr) {
    && (forall m :: m in classes ==> classes[m].Ints? && classes[m].values != {})
    && (forall m, v :: m in classes && v in classes[m].values ==> v in done && m == MarkerOf(Value(e, [v])))
    && (forall v :: v in done ==> MarkerOf(Value(e, [v])) in classes && v in classes[MarkerOf(Value(e, [v]))].values)
  }

  /** One more value under a marker. */
  function Regrouped(classes: map<IExpr, Diag>, m: IExpr, v: int): map<IExpr, Diag> {
    classes[m := Ints((if m in classes && classes[m].Ints? then classes[m].values else {}) + {v})]
  }

  lemma GroupedStep(classes: map<IExpr, Diag>, done: set<int>, e: IExpr, v: int)
    requires Grouped(classes, done, e)
    ensures Grouped(Regrouped(classes, MarkerOf(Value(e, [v])), v), done + {v}, e)
  {
    var m := MarkerOf(Value(e, [v]));
    var now := Regrouped(classes, m, v);
    forall x | x in done + {v}
      ensures MarkerOf(Value(e, [x])) in now && x in now[MarkerOf(Value(e, [x]))].values
    {
      if x != v {
        assert MarkerOf(Value(e, [x])) in classes;
      }
    }
  }

  lemma GroupedSplits(d: Diag, classes: map<IExpr, Diag>, e: IExpr)
    requires d.Ints? && Grouped(classes, d.values, e)
    ensures Splits(Leaf, d, classes, Marks(e))
  {
    forall m, w | m in classes && Has(classes[m], w)
      ensures Has(d, w) && Marks(e)(m, w)
    {
      assert Frontier(w) == [w.v];
      assert w.v in classes[m].values;
    }
    forall w | Has(d, w)
      ensures InSome(classes, w)
    {
      var m := MarkerOf(Value(e, [w.v]));
      assert m in classes && Has(classes[m], w);
    }
    forall m, m', w | m in classes && m' in classes && Has(classes[m], w) && Has(classes[m'], w)
      ensures m == m'
    {
      var marker := MarkerOf(Value(e, [w.v]));
      assert w.v in classes[m].values && m == marker;
      assert w.v in classes[m'].values && m' == marker;
    }
  }

  lemma ValueAtLifts(sh: Shape, a: Arc, pos: nat)
    requires sh.Pair? && NF(sh.head, a.prime) && NF(sh.tail, a.sub)
    ensures pos < Width(sh.head) ==> Lifts(a, true, ValueAt(pos), ValueAt(pos))
    ensures pos >= Width(sh.head) ==> Lifts(a, false, ValueAt(pos - Width(sh.head)), ValueAt(pos))
  {
    forall p, s | ArcHas(a, p, s)
      ensures At(Cons(p, s), pos) == if pos < Width(sh.head) then At(p, pos) else At(s, pos - Width(sh.head))
    {
      ArcLaid(sh, a, p, s);
      AtCons(sh, p, s, pos);
    }
  }

  /** The markers of a bare variable are values: one class per value. */
  lemma VariableGroups(values: set<int>, classes: map<IExpr, Diag>)
    requires Grouped(classes, values, Var(0))
    ensures forall m :: m in classes ==> m.Const? && m.value in values && classes[m] == Ints({m.value})
    ensures forall v :: v in values ==> Const(v) in classes
  {
    forall m | m in classes
      ensures m.Const? && m.value in values && classes[m] == Ints({m.value})
    {
      var v := AnElement(classes[m].values);
      assert m == MarkerOf(Value(Var(0), [v])) == Const(v);
      forall u | u in classes[m].values
        ensures u == v
      {
        assert m == MarkerOf(Value(Var(0), [u])) == Const(u);
      }
    }
    forall v | v in values
      ensures Const(v) in classes
    {
      assert MarkerOf(Value(Var(0), [v])) == Const(v);
    }
  }

  lemma ValuesSplit(d: Diag, out: map<int, Diag>)
    requires d.Ints? && out.Keys == d.values && forall v :: v in out ==> out[v] == Ints({v})
    ensures Splits(Leaf, d, out, ValueAt(0))
  {
    forall v, w | v in out && Has(out[v], w)
      ensures At(w, 0) == v
    {
      assert Frontier(w) == [w.v];
    }
    forall w | Has(d, w)
      ensures InSome(out, w)
    {
      assert w.v in out && Has(out[w.v], w);
    }
    forall v, v', w | v in out && v' in out && Has(out[v], w) && Has(out[v'], w)
      ensures v == v'
    {
      assert w.v in {v} && w.v in {v'};
    }
  }

  method SplitValues(c: Diag) returns (classes: map<int, Diag>)
    requires NF(Leaf, c)
    ensures Splits(Leaf, c, classes, ValueAt(0))
  {
    var marked := SplitLeaf(c, Var(0));
    if c == Nothing {
      return map[];
    }
    VariableGroups(c.values, marked);
    classes := map m | m in marked && m.Const? :: m.value := marked[m];
    assert forall v :: v in classes ==> Const(v) in marked && classes[v] == marked[Const(v)];
    assert forall v :: v in c.values ==> Const(v).value in classes;
    ValuesSplit(c, classes);
  }

  /** Partition by the value at a position. */
  method SplitPosition(sh: Shape, c: Diag, pos: nat) returns (classes: map<int, Diag>)
    requires NF(sh, c) && pos < Width(sh)
    ensures Splits(sh, c, classes, ValueAt(pos))
    decreases sh
  {
    hide Has, Fit, Whole, Separate, Gathering, AllTyped, Lifts;
    if sh == Leaf {
      classes := SplitValues(c);
      return;
    }
    var A := Arcs(sh.head, sh.tail, c);
    var rects: map<int, seq<Arc>> := map[];
    ghost var key := ValueAt(pos);
    NoneGathered(sh, A, key);
    for i: nat := 0 to |A|
      invariant AllTyped(sh, rects) && Gathering(A[..i], rects, key)
    {
      ghost var was := rects;
      var wh := Width(sh.head);
      ValueAtLifts(sh, A[i], pos);
      if pos < wh {
        var pieces := SplitPosition(sh.head, A[i].prime, pos);
        rects := AddPieces(sh, rects, pieces, A[i], true);
        GatherStep(sh, A, i, was, key, pieces, ValueAt(pos), true, rects);
      } else {
        var pieces := SplitPosition(sh.tail, A[i].sub, pos - wh);
        rects := AddPieces(sh, rects, pieces, A[i], false);
        GatherStep(sh, A, i, was, key, pieces, ValueAt(pos - wh), false, rects);
      }
    }
    assert A[..|A|] == A;
    classes := CanonizeClasses(sh, c, A, rects, key);
  }

  // ----- Selection by a comparison -----

  ghost function Compared(x: nat, op: CmpOp, y: nat): Tree -> bool {
    (w: Tree) => CmpEval(op, At(w, x), At(w, y))
  }

  /** The curried residual: one side is the known value `v`. */
  predicate Residual(op: CmpOp, v: int, left: bool, u: int) {
    if left then CmpEval(op, v, u) else CmpEval(op, u, v)
  }

  method Restrict(sh: Shape, c: Diag, pos: nat, op: CmpOp, v: int, left: bool) returns (r: Diag)
    requires NF(sh, c) && pos < Width(sh)
    ensures NF(sh, r) && forall w :: Has(r, w) <==> Has(c, w) && Residual(op, v, left, At(w, pos))
  {
    r := Descend(sh, c, pos, u => Residual(op, v, left, u));
  }

  /** A head of class `v` with a tail that passes the residual. */
  ghost predicate Crosses(pieces: map<int, Diag>, v: int, sub: Diag, pos: nat, op: CmpOp, left: bool, p: Tree, s: Tree) {
    v in pieces && Has(pieces[v], p) && Has(sub, s) && Residual(op, v, left, At(s, pos))
  }

  ghost predicate CrossesSome(pieces: map<int, Diag>, done: set<int>, sub: Diag, pos: nat, op: CmpOp, left: bool,
                              p: Tree, s: Tree) {
    SomeIn(done, Crossing(pieces, sub, pos, op, left, p, s))
  }

  ghost predicate SomeIn(done: set<int>, P: int -> bool) {
    exists v :: v in done && P(v)
  }

  ghost function Crossing(pieces: map<int, Diag>, sub: Diag, pos: nat, op: CmpOp, left: bool, p: Tree, s: Tree): int -> bool {
    (v: int) => Crosses(pieces, v, sub, pos, op, left, p, s)
  }

  lemma SomeMore(done: set<int>, v: int, P: int -> bool)
    ensures SomeIn(done + {v}, P) <==> SomeIn(done, P) || P(v)
  {
    if SomeIn(done, P) {
      var u :| u in done && P(u);
      assert u in done + {v};
    }
    assert v in done + {v};
  }

  ghost predicate CrossDone(pieces: map<int, Diag>, done: set<int>, sub: Diag, pos: nat, op: CmpOp, left: bool, R: seq<Arc>) {
    forall p, s {:trigger ListHas(R, p, s)} :: ListHas(R, p, s) <==> CrossesSome(pieces, done, sub, pos, op, left, p, s)
  }

  lemma CrossStep(pieces: map<int, Diag>, done: set<int>, sub: Diag, pos: nat, op: CmpOp, left: bool, R: seq<Arc>,
                  v: int, kept: Diag, R': seq<Arc>)
    requires CrossDone(pieces, done, sub, pos, op, left, R) && v in pieces
    requires forall s :: Has(kept, s) <==> Has(sub, s) && Residual(op, v, left, At(s, pos))
    requires R' == if kept != Nothing then R + [Arc(pieces[v], kept)] else R
    ensures CrossDone(pieces, done + {v}, sub, pos, op, left, R')
  {
    hide SomeIn, ListHas;
    forall p, s
      ensures ListHas(R', p, s) <==> CrossesSome(pieces, done + {v}, sub, pos, op, left, p, s)
    {
      ListHasAppend(R, Arc(pieces[v], kept), p, s);
      assert ArcHas(Arc(pieces[v], kept), p, s) <==> Crosses(pieces, v, sub, pos, op, left, p, s);
      SomeMore(done, v, Crossing(pieces, sub, pos, op, left, p, s));
    }
  }

  /** A comparison at a pair, read at the sides its positions are on. */
  lemma ComparedCons(sh: Shape, p: Tree, s: Tree, x: nat, op: CmpOp, y: nat)
    requires sh.Pair? && Laid(sh.head, p) && Laid(sh.tail, s)
    ensures var wh := Width(sh.head);
            Compared(x, op, y)(Cons(p, s)) ==
            CmpEval(op, if x < wh then At(p, x) else At(s, x - wh), if y < wh then At(p, y) else At(s, y - wh))
  {
    AtCons(sh, p, s, x);
    AtCons(sh, p, s, y);
  }

  /** Per class of the head side, curry the residual onto the tail. */
  method CrossPieces(sh: Shape, pieces: map<int, Diag>, sub: Diag, pos: nat, op: CmpOp, left: bool) returns (R: seq<Arc>)
    requires sh.Pair? && NF(sh.tail, sub) && pos < Width(sh.tail) && forall v :: v in pieces ==> NF(sh.head, pieces[v])
    ensures Typed(sh.head, sh.tail, R) && CrossDone(pieces, pieces.Keys, sub, pos, op, left, R)
  {
    R := [];
    var rest := pieces.Keys;
    ghost var done: set<int> := {};
    while rest != {}
      invariant rest + done == pieces.Keys && Typed(sh.head, sh.tail, R)
      invariant CrossDone(pieces, done, sub, pos, op, left, R)
      decreases |rest|
    {
      var v := Pick(rest);
      var kept := Restrict(sh.tail, sub, pos, op, v, left);
      ghost var was := R;
      if kept != Nothing {
        R := R + [Arc(pieces[v], kept)];
      }
      CrossStep(pieces, done, sub, pos, op, left, was, v, kept, R);
      rest, done := rest - {v}, done + {v};
    }
    assert done == pieces.Keys;
  }

  /** One position above the cut, the other below. */
  ghost predicate Straddles(sh: Shape, x: nat, y: nat) {
    sh.Pair? && x < Width(sh) && y < Width(sh) && (x < Width(sh.head)) != (y < Width(sh.head))
  }

  /** The rectangles of one arc across the cut. */
  method SelectAcross(sh: Shape, a: Arc, x: nat, op: CmpOp, y: nat) returns (R: seq<Arc>)
    requires Straddles(sh, x, y) && NF(sh.head, a.prime) && NF(sh.tail, a.sub)
    ensures Typed(sh.head, sh.tail, R)
    ensures forall p, s :: ListHas(R, p, s) <==> ArcHas(a, p, s) && Compared(x, op, y)(Cons(p, s))
  {
    if x < Width(sh.head) {
      R := SelectSides(sh, a, x, op, y, x, y - Width(sh.head), true);
    } else {
      R := SelectSides(sh, a, x, op, y, y, x - Width(sh.head), false);
    }
  }

  method SelectSides(sh: Shape, a: Arc, x: nat, op: CmpOp, y: nat, headPos: nat, tailPos: nat, left: bool) returns (R: seq<Arc>)
    requires Straddles(sh, x, y) && NF(sh.head, a.prime) && NF(sh.tail, a.sub) && left == (x < Width(sh.head))
    requires headPos == (if left then x else y) && tailPos == (if left then y else x) - Width(sh.head)
    ensures Typed(sh.head, sh.tail, R)
    ensures forall p, s :: ListHas(R, p, s) <==> ArcHas(a, p, s) && Compared(x, op, y)(Cons(p, s))
  {
    hide NF, Has, Compared, Fit, Whole, Separate, SaysResidual, CrossDone;
    var pieces := SplitPosition(sh.head, a.prime, headPos);
    R := CrossPieces(sh, pieces, a.sub, tailPos, op, left);
    ComparedSays(sh, a, x, op, y);
    CrossWords(sh.head, a, Compared(x, op, y), headPos, tailPos, op, left, pieces, R);
  }

  /** What the comparison says of the words of an arc is what the residual says. */
  ghost predicate SaysResidual(a: Arc, good: Tree -> bool, headPos: nat, tailPos: nat, op: CmpOp, left: bool) {
    forall p, s :: ArcHas(a, p, s) ==> good(Cons(p, s)) == Residual(op, At(p, headPos), left, At(s, tailPos))
  }

  lemma ComparedSays(sh: Shape, a: Arc, x: nat, op: CmpOp, y: nat)
    requires Straddles(sh, x, y) && NF(sh.head, a.prime) && NF(sh.tail, a.sub)
    ensures var left := x < Width(sh.head);
            SaysResidual(a, Compared(x, op, y), if left then x else y, (if left then y else x) - Width(sh.head), op, left)
  {
    hide NF, Has, Compared, Residual, At, Width;
    forall p, s | ArcHas(a, p, s)
      ensures var left := x < Width(sh.head);
              Compared(x, op, y)(Cons(p, s))
              == Residual(op, At(p, if left then x else y), left, At(s, (if left then y else x) - Width(sh.head)))
    {
      ArcLaid(sh, a, p, s);
      ComparedResidual(sh, p, s, x, op, y);
    }
  }

  lemma CrossWords(h: Shape, a: Arc, good: Tree -> bool, headPos: nat, tailPos: nat, op: CmpOp, left: bool,
                   pieces: map<int, Diag>, R: seq<Arc>)
    requires SaysResidual(a, good, headPos, tailPos, op, left) && Splits(h, a.prime, pieces, ValueAt(headPos))
    requires CrossDone(pieces, pieces.Keys, a.sub, tailPos, op, left, R)
    ensures forall p, s :: ListHas(R, p, s) <==> ArcHas(a, p, s) && good(Cons(p, s))
  {
    forall p, s
      ensures ListHas(R, p, s) <==> ArcHas(a, p, s) && good(Cons(p, s))
    {
      assert ListHas(R, p, s) <==> CrossesSome(pieces, pieces.Keys, a.sub, tailPos, op, left, p, s);
      if ArcHas(a, p, s) {
        CrossInArc(h, a, pieces, headPos, tailPos, op, left, p, s);
      } else {
        CrossNone(h, a, pieces, ValueAt(headPos), tailPos, op, left, p, s);
      }
    }
  }

  lemma CrossNone(h: Shape, a: Arc, pieces: map<int, Diag>, key: KeyOf<int>, pos: nat, op: CmpOp, left: bool, p: Tree, s: Tree)
    requires Splits(h, a.prime, pieces, key) && !ArcHas(a, p, s)
    ensures !CrossesSome(pieces, pieces.Keys, a.sub, pos, op, left, p, s)
  {
  }

  /** The comparison across the cut is the residual at the head's value. */
  lemma ComparedResidual(sh: Shape, p: Tree, s: Tree, x: nat, op: CmpOp, y: nat)
    requires Straddles(sh, x, y) && Laid(sh.head, p) && Laid(sh.tail, s)
    ensures var left := x < Width(sh.head);
            Compared(x, op, y)(Cons(p, s))
            == Residual(op, At(p, if left then x else y), left, At(s, (if left then y else x) - Width(sh.head)))
  {
    ComparedCons(sh, p, s, x, op, y);
  }

  lemma CrossInArc(h: Shape, a: Arc, pieces: map<int, Diag>, headPos: nat, pos: nat, op: CmpOp, left: bool, p: Tree, s: Tree)
    requires Splits(h, a.prime, pieces, ValueAt(headPos)) && ArcHas(a, p, s)
    ensures CrossesSome(pieces, pieces.Keys, a.sub, pos, op, left, p, s) <==> Residual(op, At(p, headPos), left, At(s, pos))
  {
    var v := ClassOf(h, a.prime, pieces, headPos, p);
    CrossClass(pieces, v, a.sub, pos, op, left, p, s);
  }

  /** The one class a word is in. */
  lemma ClassOf(sh: Shape, d: Diag, pieces: map<int, Diag>, pos: nat, w: Tree) returns (v: int)
    requires Splits(sh, d, pieces, ValueAt(pos)) && Has(d, w)
    ensures v in pieces && Has(pieces[v], w) && v == At(w, pos)
    ensures forall u :: u in pieces && Has(pieces[u], w) ==> u == v
  {
    assert InSome(pieces, w);
    v :| v in pieces && Has(pieces[v], w);
    assert ValueAt(pos)(v, w);
  }

  lemma CrossClass(pieces: map<int, Diag>, v: int, sub: Diag, pos: nat, op: CmpOp, left: bool, p: Tree, s: Tree)
    requires v in pieces && Has(pieces[v], p) && Has(sub, s) && forall u :: u in pieces && Has(pieces[u], p) ==> u == v
    ensures CrossesSome(pieces, pieces.Keys, sub, pos, op, left, p, s) <==> Residual(op, v, left, At(s, pos))
  {
    if Residual(op, v, left, At(s, pos)) {
      assert v in pieces.Keys && Crossing(pieces, sub, pos, op, left, p, s)(v);
    }
  }

  // ----- The selection -----

  method Select(sh: Shape, c: Diag, x: nat, op: CmpOp, y: nat) returns (r: Diag)
    requires NF(sh, c) && x < Width(sh) && y < Width(sh) && x != y
    ensures NF(sh, r) && forall w :: Has(r, w) <==> Has(c, w) && CmpEval(op, At(w, x), At(w, y))
    decreases sh, 1
  {
    if c == Nothing {
      return Nothing;
    }
    var A := Arcs(sh.head, sh.tail, c);
    var R: seq<Arc> := [];
    ghost var good := Compared(x, op, y);
    for i: nat := 0 to |A|
      invariant Typed(sh.head, sh.tail, R) && Filtered(A[..i], R, good)
    {
      var more := SelectArc(sh, A[i], x, op, y);
      FilterMore(A, i, R, more, good);
      R := R + more;
    }
    assert A[..|A|] == A;
    r := Canonize(sh, R);
    FilteredDenotes(c, A, R, r, good);
  }

  lemma FilterMore(A: seq<Arc>, i: nat, R: seq<Arc>, more: seq<Arc>, good: Tree -> bool)
    requires i < |A| && Filtered(A[..i], R, good)
    requires forall p, s :: ListHas(more, p, s) <==> ArcHas(A[i], p, s) && good(Cons(p, s))
    ensures Filtered(A[..i + 1], R + more, good)
  {
    forall p, s
      ensures ListHas(R + more, p, s) <==> ListHas(A[..i + 1], p, s) && good(Cons(p, s))
    {
      ListHasPrefix(A, i, p, s);
      ListHasConcat(R, more, p, s);
    }
  }

  lemma ListHasConcat(R: seq<Arc>, S: seq<Arc>, p: Tree, s: Tree)
    ensures ListHas(R + S, p, s) <==> ListHas(R, p, s) || ListHas(S, p, s)
  {
    var T := R + S;
    if ListHas(R, p, s) {
      var i :| 0 <= i < |R| && ArcHas(R[i], p, s);
      assert T[i] == R[i];
    }
    if ListHas(S, p, s) {
      var i :| 0 <= i < |S| && ArcHas(S[i], p, s);
      assert T[|R| + i] == S[i];
    }
    if ListHas(T, p, s) {
      var i :| 0 <= i < |T| && ArcHas(T[i], p, s);
      assert T[i] == if i < |R| then R[i] else S[i - |R|];
    }
  }

  /** The selected part of one arc: both positions above the cut, both below, or one on each side. */
  method SelectArc(sh: Shape, a: Arc, x: nat, op: CmpOp, y: nat) returns (R: seq<Arc>)
    requires sh.Pair? && NF(sh.head, a.prime) && NF(sh.tail, a.sub) && x < Width(sh) && y < Width(sh) && x != y
    ensures Typed(sh.head, sh.tail, R)
    ensures forall p, s :: ListHas(R, p, s) <==> ArcHas(a, p, s) && Compared(x, op, y)(Cons(p, s))
    decreases sh, 0
  {
    var wh := Width(sh.head);
    if (x < wh) != (y < wh) {
      R := SelectAcross(sh, a, x, op, y);
      return;
    }
    var rect;
    if x < wh {
      var np := Select(sh.head, a.prime, x, op, y);
      rect := Arc(np, a.sub);
    } else {
      var ns := Select(sh.tail, a.sub, x - wh, op, y - wh);
      rect := Arc(a.prime, ns);
    }
    R := if rect.prime == Nothing || rect.sub == Nothing then [] else [rect];
    SelectOneSide(sh, a, x, op, y, rect);
    forall p, s
      ensures ListHas(R, p, s) <==> ArcHas(rect, p, s)
    {
      assert R == [] || R[0] == rect;
    }
  }

  lemma SelectOneSide(sh: Shape, a: Arc, x: nat, op: CmpOp, y: nat, rect: Arc)
    requires sh.Pair? && NF(sh.head, a.prime) && NF(sh.tail, a.sub) && (x < Width(sh.head)) == (y < Width(sh.head))
    requires var wh := Width(sh.head);
             if x < wh then rect.sub == a.sub
                            && forall p :: Has(rect.prime, p) <==> Has(a.prime, p) && CmpEval(op, At(p, x), At(p, y))
             else rect.prime == a.prime
                  && forall s :: Has(rect.sub, s) <==> Has(a.sub, s) && CmpEval(op, At(s, x - wh), At(s, y - wh))
    ensures forall p, s :: ArcHas(rect, p, s) <==> ArcHas(a, p, s) && Compared(x, op, y)(Cons(p, s))
  {
    forall p, s
      ensures ArcHas(rect, p, s) <==> ArcHas(a, p, s) && Compared(x, op, y)(Cons(p, s))
    {
      if ArcHas(a, p, s) {
        ArcLaid(sh, a, p, s);
        ComparedCons(sh, p, s, x, op, y);
      }
    }
  }

  /** Exactly the words with `w[x] op w[y]`. */
  method SelectCompare(sh: Shape, d: Diag, x: nat, op: CmpOp, y: nat) returns (r: Diag)
    requires NF(sh, d) && x < Width(sh) && y < Width(sh)
    ensures NF(sh, r) && forall w :: Has(r, w) <==> Has(d, w) && CmpEval(op, At(w, x), At(w, y))
  {
    forall w | Has(d, w)
      ensures |Frontier(w)| == Width(sh)
    {
      HasLaid(sh, d, w);
      FrontierWidth(sh, w);
    }
    if x == y {
      return if CmpEval(op, 0, 0) then d else Nothing;
    }
    r := Select(sh, d, x, op, y);
  }

  // ----- Split by an expression -----

  lemma MarksLift(sh: Shape, a: Arc, e: IExpr)
    requires sh.Pair? && NF(sh.head, a.prime) && NF(sh.tail, a.sub) && Spans(e, 0, Width(sh), true)
    ensures Spans(e, 0, Width(sh.head), true) ==> Lifts(a, true, Marks(e), Marks(e))
    ensures Spans(e, Width(sh.head), Width(sh), true) ==> Lifts(a, false, Marks(Shift(e, 0 - Width(sh.head))), Marks(e))
  {
    hide NF, Has, Value, Spans, Shift, Stands;
    var wh: int := Width(sh.head);
    forall m: IExpr, p, s | ArcHas(a, p, s) && (m.Const? || m.Undef?)
      ensures Spans(e, 0, wh, true) && Stands(e, m, Frontier(p)) ==> Stands(e, m, Frontier(Cons(p, s)))
      ensures Spans(e, wh, Width(sh), true) && Stands(Shift(e, -wh), m, Frontier(s)) ==> Stands(e, m, Frontier(Cons(p, s)))
    {
      ArcLaid(sh, a, p, s);
      FrontierWidth(sh.head, p);
      FrontierWidth(sh.tail, s);
      var env := Frontier(Cons(p, s));
      assert env[..wh] == Frontier(p) && env[wh..] == Frontier(s);
      if Spans(e, 0, wh, true) && Stands(e, m, Frontier(p)) {
        StandsAbove(e, m, wh, env);
      }
      if Spans(e, wh, Width(sh), true) && Stands(Shift(e, -wh), m, Frontier(s)) {
        StandsBelow(e, m, wh, env);
      }
    }
  }

  lemma MarkerValue(m: IExpr, env: seq<int>)
    requires m.Const? || m.Undef?
    ensures Value(m, env) == Value(m, []) && Size(m) == 0
  {
  }

  /** What stands for an expression of the first coordinates stands for it in the whole environment. */
  lemma StandsAbove(e: IExpr, m: IExpr, k: int, env: seq<int>)
    requires 0 <= k <= |env| && Spans(e, 0, k, true) && (m.Const? || m.Undef?) && Stands(e, m, env[..k])
    ensures Stands(e, m, env)
  {
    ValueLocal(e, k, env);
    MarkerValue(m, env);
    MarkerValue(m, env[..k]);
    forall ban | Safe(e, env, ban)
      ensures Value(e, env) == Value(m, env)
    {
      SafeLocal(e, k, env, ban);
    }
  }

  /** ... and so for the last coordinates, re-rooted. */
  lemma StandsBelow(e: IExpr, m: IExpr, k: int, env: seq<int>)
    requires 0 <= k <= |env| && Spans(e, k, |env|, true) && (m.Const? || m.Undef?) && Stands(Shift(e, -k), m, env[k..])
    ensures Stands(e, m, env)
  {
    ShiftRefines(e, k, env);
    MarkerValue(m, env);
    MarkerValue(m, env[k..]);
    forall ban | Safe(e, env, ban)
      ensures Value(e, env) == Value(m, env)
    {
      ShiftSafe(e, k, env, ban);
    }
  }

  /** What stands for a residual stands for the expression, where the value did for the subexpression. */
  lemma StandsResidual(e: IExpr, sub: IExpr, v: IExpr, m: IExpr, env: seq<int>)
    requires (v.Const? || v.Undef?) && Stands(sub, v, env) && Stands(Subst(e, sub, v), m, env)
    ensures Stands(e, m, env)
  {
    hide Subst, Value, Safe;
    SubstRefines(e, sub, v, env);
    forall ban | Safe(e, env, ban)
      ensures Value(e, env) == Value(m, env)
    {
      SubstSafe(e, sub, v, env, ban);
    }
  }

  /** One class, marked by the ground expression itself. */
  lemma GroundSplits(sh: Shape, d: Diag, e: IExpr)
    requires NF(sh, d) && d != Nothing && (e.Const? || e.Undef?)
    ensures Splits(sh, d, map[e := d], Marks(e))
  {
    var classes := map[e := d];
    forall w | Has(d, w)
      ensures InSome(classes, w)
    {
      assert e in classes && Has(classes[e], w);
    }
  }

  method MinOf(s: set<int>) returns (r: int)
    requires s != {}
    ensures r in s && forall p :: p in s ==> r <= p
  {
    r := Pick(s);
    var rest := s - {r};
    while rest != {}
      invariant r in s && rest <= s && forall p :: p in s && p !in rest ==> r <= p
      decreases |rest|
    {
      var p := Pick(rest);
      rest := rest - {p};
      if p < r {
        r := p;
      }
    }
  }

  /** An expression the splitter takes: in normal form, array-free, over the positions of the shape. */
  ghost predicate Splittable(sh: Shape, e: IExpr) {
    Spans(e, 0, Width(sh), false) && Normal(e)
  }

  lemma SideSplittable(sh: Shape, e: IExpr, inHead: bool)
    requires sh.Pair? && Splittable(sh, e)
    requires if inHead then Spans(e, 0, Width(sh.head), false) else Spans(e, Width(sh.head), Width(sh), false)
    ensures var side := if inHead then e else Shift(e, 0 - Width(sh.head) as int);
            Splittable(if inHead then sh.head else sh.tail, side) && Size(side) <= Size(e)
    ensures Spans(e, 0, Width(sh), true)
    ensures if inHead then Spans(e, 0, Width(sh.head), true) else Spans(e, Width(sh.head), Width(sh), true)
  {
    hide Size, Spans, Shift;
    var wh: int := Width(sh.head);
    ShiftSize(e, 0 - wh);
    AllowArrays(e, 0, Width(sh));
    if inHead {
      AllowArrays(e, 0, wh);
    } else {
      AllowArrays(e, wh, Width(sh));
      ShiftSpans(e, 0 - wh, wh, Width(sh), false);
    }
  }

  /** The expression lies wholly on one side of the cut: split that side of every arc. */
  method SplitSide(sh: Shape, d: Diag, e: IExpr, inHead: bool) returns (classes: map<IExpr, Diag>)
    requires sh.Pair? && NF(sh, d) && Splittable(sh, e)
    requires if inHead then Spans(e, 0, Width(sh.head), false) else Spans(e, Width(sh.head), Width(sh), false)
    ensures Splits(sh, d, classes, Marks(e))
    decreases Size(e), sh, 0
  {
    hide Has, Fit, Whole, Separate, Gathering, AllTyped, Marks, Lifts, Spans, Size, Shift, Splittable;
    var side := if inHead then e else Shift(e, 0 - Width(sh.head) as int);
    SideSplittable(sh, e, inHead);
    var A := Arcs(sh.head, sh.tail, d);
    var rects: map<IExpr, seq<Arc>> := map[];
    ghost var key, part := Marks(e), Marks(side);
    NoneGathered(sh, A, key);
    for i: nat := 0 to |A|
      invariant AllTyped(sh, rects) && Gathering(A[..i], rects, key)
    {
      ghost var was := rects;
      MarksLift(sh, A[i], e);
      var pieces := SplitEquiv(if inHead then sh.head else sh.tail, if inHead then A[i].prime else A[i].sub, side);
      rects := AddPieces(sh, rects, pieces, A[i], inHead);
      GatherStep(sh, A, i, was, key, pieces, part, inHead, rects);
    }
    assert A[..|A|] == A;
    classes := CanonizeClasses(sh, d, A, rects, key);
  }

  ghost predicate HasAt(classes: map<IExpr, Diag>, m: IExpr, w: Tree) {
    m in classes && Has(classes[m], w)
  }

  /** The pieces of the keys in `done` are split further in `acc`. */
  ghost predicate Collected(sh: Shape, coarse: map<IExpr, Diag>, done: set<IExpr>, acc: map<IExpr, Diag>, key: KeyOf<IExpr>) {
    && done <= coarse.Keys
    && Pieces(sh, acc)
    && (forall m, w :: HasAt(acc, m, w) ==> key(m, w))
    && (forall m, m0, w :: HasAt(acc, m, w) && m0 in coarse.Keys - done ==> !HasAt(coarse, m0, w))
    && (forall m, w :: HasAt(acc, m, w) ==> InSome(coarse, w))
    && (forall m0, w {:trigger HasAt(coarse, m0, w)} :: m0 in done && HasAt(coarse, m0, w) ==> InSome(acc, w))
    && (forall m, m', w :: HasAt(acc, m, w) && HasAt(acc, m', w) ==> m == m')
  }

  /** The classes of a piece are joined to the classes so far, marker by marker. */
  ghost predicate Merged(acc: map<IExpr, Diag>, fine: map<IExpr, Diag>, now: map<IExpr, Diag>) {
    forall m, w :: HasAt(now, m, w) <==> HasAt(acc, m, w) || HasAt(fine, m, w)
  }

  method Merge(sh: Shape, acc: map<IExpr, Diag>, fine: map<IExpr, Diag>) returns (now: map<IExpr, Diag>)
    requires Pieces(sh, acc) && Pieces(sh, fine)
    ensures Pieces(sh, now) && Merged(acc, fine, now)
  {
    hide MergedSome, Merged, NF;
    now := acc;
    var rest := fine.Keys;
    ghost var done: set<IExpr> := {};
    NoneMerged(acc, fine);
    while rest != {}
      invariant rest + done == fine.Keys && rest !! done && Pieces(sh, now)
      invariant MergedSome(acc, fine, done, now)
      decreases |rest|
    {
      var m :| m in rest;
      ghost var was := now;
      now := MergeOne(sh, now, m, fine[m]);
      MergedStep(acc, fine, done, was, m, now);
      rest, done := rest - {m}, done + {m};
    }
    assert done == fine.Keys;
    AllMerged(acc, fine, now);
  }

  lemma NoneMerged(acc: map<IExpr, Diag>, fine: map<IExpr, Diag>)
    ensures MergedSome(acc, fine, {}, acc)
  {
  }

  lemma AllMerged(acc: map<IExpr, Diag>, fine: map<IExpr, Diag>, now: map<IExpr, Diag>)
    requires MergedSome(acc, fine, fine.Keys, now)
    ensures Merged(acc, fine, now)
  {
  }

  lemma JoinNotEmpty(sh: Shape, a: Diag, b: Diag, d: Diag)
    requires NF(sh, a) && a != Nothing && forall w :: Has(d, w) <==> Has(a, w) || Has(b, w)
    ensures d != Nothing
  {
    var w := Inhabited(sh, a);
    assert Has(d, w);
  }

  ghost predicate MergedSome(acc: map<IExpr, Diag>, fine: map<IExpr, Diag>, done: set<IExpr>, now: map<IExpr, Diag>) {
    forall m, w :: HasAt(now, m, w) <==> HasAt(acc, m, w) || (m in done && HasAt(fine, m, w))
  }

  method MergeOne(sh: Shape, was: map<IExpr, Diag>, m: IExpr, more: Diag) returns (now: map<IExpr, Diag>)
    requires Pieces(sh, was) && NF(sh, more) && more != Nothing
    ensures Pieces(sh, now)
    ensures forall k, w :: HasAt(now, k, w) <==> HasAt(was, k, w) || (k == m && Has(more, w))
  {
    var piece := more;
    if m in was {
      piece := Join(sh, was[m], more);
      JoinNotEmpty(sh, was[m], more, piece);
    }
    now := was[m := piece];
  }

  lemma MergedStep(acc: map<IExpr, Diag>, fine: map<IExpr, Diag>, done: set<IExpr>, was: map<IExpr, Diag>, m: IExpr,
                   now: map<IExpr, Diag>)
    requires MergedSome(acc, fine, done, was) && m in fine
    requires forall k, w :: HasAt(now, k, w) <==> HasAt(was, k, w) || (k == m && Has(fine[m], w))
    ensures MergedSome(acc, fine, done + {m}, now)
  {
    forall k, w
      ensures HasAt(now, k, w) <==> HasAt(acc, k, w) || (k in done + {m} && HasAt(fine, k, w))
    {
      assert HasAt(was, k, w) <==> HasAt(acc, k, w) || (k in done && HasAt(fine, k, w));
    }
  }

  /** The pieces of one more key. */
  lemma CollectStep(sh: Shape, d: Diag, coarse: map<IExpr, Diag>, ckey: KeyOf<IExpr>, done: set<IExpr>,
                    acc: map<IExpr, Diag>, key: KeyOf<IExpr>, m0: IExpr, fine: map<IExpr, Diag>, now: map<IExpr, Diag>)
    requires Splits(sh, d, coarse, ckey) && Collected(sh, coarse, done, acc, key) && m0 in coarse && m0 !in done
    requires Splits(sh, coarse[m0], fine, key) && Merged(acc, fine, now) && Pieces(sh, now)
    ensures Collected(sh, coarse, done + {m0}, now, key)
  {
    forall m, w | HasAt(fine, m, w)
      ensures HasAt(coarse, m0, w) && InSome(coarse, w) && key(m, w)
      ensures forall k :: !HasAt(acc, k, w)
      ensures forall k :: k in coarse && k != m0 ==> !HasAt(coarse, k, w)
    {
      assert Has(coarse[m0], w);
      assert m0 in coarse.Keys - done;
    }
    CollectCovers(sh, coarse, done, acc, key, m0, fine, key, now);
    forall m, k, w | HasAt(now, m, w) && k in coarse.Keys - (done + {m0})
      ensures !HasAt(coarse, k, w)
    {
      assert k in coarse.Keys - done && k != m0;
    }
  }

  lemma CollectCovers(sh: Shape, coarse: map<IExpr, Diag>, done: set<IExpr>, acc: map<IExpr, Diag>, key: KeyOf<IExpr>,
                      m0: IExpr, fine: map<IExpr, Diag>, fkey: KeyOf<IExpr>, now: map<IExpr, Diag>)
    requires Collected(sh, coarse, done, acc, key) && m0 in coarse
    requires Splits(sh, coarse[m0], fine, fkey) && Merged(acc, fine, now)
    ensures forall k, w {:trigger HasAt(coarse, k, w)} :: k in done + {m0} && HasAt(coarse, k, w) ==> InSome(now, w)
  {
    forall k, w | k in done + {m0} && HasAt(coarse, k, w)
      ensures InSome(now, w)
    {
      if k in done {
        assert InSome(acc, w);
        var m :| m in acc && Has(acc[m], w);
        assert HasAt(acc, m, w) && HasAt(now, m, w);
      } else {
        assert InSome(fine, w);
        var m :| m in fine && Has(fine[m], w);
        assert HasAt(fine, m, w) && HasAt(now, m, w);
      }
    }
  }

  lemma CollectedInside(sh: Shape, d: Diag, coarse: map<IExpr, Diag>, ckey: KeyOf<IExpr>, w: Tree)
    requires Splits(sh, d, coarse, ckey) && InSome(coarse, w)
    ensures Has(d, w)
  {
    hide Pieces, Whole, Separate;
    var m :| m in coarse && Has(coarse[m], w);
  }

  lemma CollectedCovers(sh: Shape, d: Diag, coarse: map<IExpr, Diag>, ckey: KeyOf<IExpr>, w: Tree) returns (k: IExpr)
    requires Splits(sh, d, coarse, ckey) && Has(d, w)
    ensures k in coarse && HasAt(coarse, k, w)
  {
    assert InSome(coarse, w);
    k :| k in coarse && Has(coarse[k], w);
  }

  lemma CollectedFits(sh: Shape, d: Diag, coarse: map<IExpr, Diag>, ckey: KeyOf<IExpr>, acc: map<IExpr, Diag>,
                      key: KeyOf<IExpr>)
    requires Splits(sh, d, coarse, ckey) && Collected(sh, coarse, coarse.Keys, acc, key)
    ensures Fit(d, acc, key)
  {
    forall m, w | m in acc && Has(acc[m], w)
      ensures Has(d, w) && key(m, w)
    {
      assert HasAt(acc, m, w);
      assert InSome(coarse, w);
      CollectedInside(sh, d, coarse, ckey, w);
    }
  }

  lemma CollectedWhole(sh: Shape, d: Diag, coarse: map<IExpr, Diag>, ckey: KeyOf<IExpr>, acc: map<IExpr, Diag>,
                       key: KeyOf<IExpr>)
    requires Splits(sh, d, coarse, ckey) && Collected(sh, coarse, coarse.Keys, acc, key)
    ensures Whole(d, acc)
  {
    forall w | Has(d, w)
      ensures InSome(acc, w)
    {
      var k := CollectedCovers(sh, d, coarse, ckey, w);
    }
  }

  lemma CollectedSplits(sh: Shape, d: Diag, coarse: map<IExpr, Diag>, ckey: KeyOf<IExpr>, acc: map<IExpr, Diag>,
                        key: KeyOf<IExpr>)
    requires Splits(sh, d, coarse, ckey) && Collected(sh, coarse, coarse.Keys, acc, key)
    ensures Splits(sh, d, acc, key)
  {
    CollectedFits(sh, d, coarse, ckey, acc, key);
    CollectedWhole(sh, d, coarse, ckey, acc, key);
    CollectedApart(sh, coarse, acc, key);
  }

  lemma CollectedApart(sh: Shape, coarse: map<IExpr, Diag>, acc: map<IExpr, Diag>, key: KeyOf<IExpr>)
    requires Collected(sh, coarse, coarse.Keys, acc, key)
    ensures Separate(acc)
  {
    forall m, m', w | m in acc && m' in acc && Has(acc[m], w) && Has(acc[m'], w)
      ensures m == m'
    {
      assert HasAt(acc, m, w) && HasAt(acc, m', w);
    }
  }

  /** A residual refines the expression on the class its value came from. */
  lemma ResidualMarks(sh: Shape, piece: Diag, e: IExpr, r: int, m0: IExpr)
    requires NF(sh, piece) && 0 <= r < Width(sh) && forall w :: Has(piece, w) ==> Marks(Var(r))(m0, w)
    ensures forall m, w :: Has(piece, w) && Marks(Subst(e, Var(r), m0))(m, w) ==> Marks(e)(m, w)
  {
    forall m, w | Has(piece, w) && Marks(Subst(e, Var(r), m0))(m, w)
      ensures Marks(e)(m, w)
    {
      assert Marks(Var(r))(m0, w);
      StandsResidual(e, Var(r), m0, m, Frontier(w));
    }
  }

  lemma CoarserKey(sh: Shape, d: Diag, classes: map<IExpr, Diag>, key: KeyOf<IExpr>, key': KeyOf<IExpr>)
    requires Splits(sh, d, classes, key) && forall m, w :: Has(d, w) && key(m, w) ==> key'(m, w)
    ensures Splits(sh, d, classes, key')
  {
  }

  /** One class of the coordinate, split by the residual of the expression. */
  method SplitClass(sh: Shape, ghost d: Diag, coarse: map<IExpr, Diag>, e: IExpr, r: int, m0: IExpr)
    returns (fine: map<IExpr, Diag>)
    requires Splits(sh, d, coarse, Marks(Var(r))) && m0 in coarse && Splittable(sh, e) && 0 <= r < Width(sh)
    requires Occurs(e, Var(r))
    ensures Splits(sh, coarse[m0], fine, Marks(e))
    decreases Size(e), sh, 0
  {
    ResidualFits(sh, d, coarse, e, r, m0);
    var e2 := Subst(e, Var(r), m0);
    fine := SplitEquiv(sh, coarse[m0], e2);
    CoarserKey(sh, coarse[m0], fine, Marks(e2), Marks(e));
  }

  lemma CollectedStart(sh: Shape, coarse: map<IExpr, Diag>, key: KeyOf<IExpr>)
    ensures Collected(sh, coarse, {}, map[], key)
  {
  }

  /** Split one more class and merge its pieces by their markers. */
  method SplitMore(sh: Shape, ghost d: Diag, coarse: map<IExpr, Diag>, e: IExpr, r: int, ghost done: set<IExpr>,
                   acc: map<IExpr, Diag>, m0: IExpr)
    returns (now: map<IExpr, Diag>)
    requires Splits(sh, d, coarse, Marks(Var(r))) && m0 in coarse && m0 !in done
    requires Splittable(sh, e) && 0 <= r < Width(sh) && Occurs(e, Var(r))
    requires Collected(sh, coarse, done, acc, Marks(e))
    ensures Collected(sh, coarse, done + {m0}, now, Marks(e))
    decreases Size(e), sh, 1
  {
    var fine := SplitClass(sh, d, coarse, e, r, m0);
    now := Merge(sh, acc, fine);
    CollectStep(sh, d, coarse, Marks(Var(r)), done, acc, Marks(e), m0, fine, now);
  }

  /** Refine every class of the coordinate. */
  method SplitClasses(sh: Shape, ghost d: Diag, coarse: map<IExpr, Diag>, e: IExpr, r: int)
    returns (classes: map<IExpr, Diag>)
    requires Splits(sh, d, coarse, Marks(Var(r))) && Splittable(sh, e) && 0 <= r < Width(sh) && Occurs(e, Var(r))
    ensures Collected(sh, coarse, coarse.Keys, classes, Marks(e))
    decreases Size(e), sh, 2
  {
    hide *;
    classes := map[];
    CollectedStart(sh, coarse, Marks(e));
    var rest := coarse.Keys;
    ghost var done: set<IExpr> := {};
    while rest != {}
      invariant rest + done == coarse.Keys && rest !! done
      invariant Collected(sh, coarse, done, classes, Marks(e))
      decreases |rest|
    {
      var m0 :| m0 in rest;
      classes := SplitMore(sh, d, coarse, e, r, done, classes, m0);
      rest, done := rest - {m0}, done + {m0};
    }
    assert done == coarse.Keys;
  }

  /** The expression spans the cut: curry by its least coordinate, then split each class by the residual. */
  method SplitAcross(sh: Shape, d: Diag, e: IExpr, r: int) returns (classes: map<IExpr, Diag>)
    requires NF(sh, d) && Splittable(sh, e) && r in Reads(e) && 0 <= r < Width(sh) && Size(e) > 1
    ensures Splits(sh, d, classes, Marks(e))
    decreases Size(e), sh, 3
  {
    var coarse := SplitEquiv(sh, d, Var(r));
    ReadOccurs(e, r);
    classes := SplitClasses(sh, d, coarse, e, r);
    CollectedSplits(sh, d, coarse, Marks(Var(r)), classes, Marks(e));
  }

  /** The residual is smaller, still splittable, and refines the expression on its class. */
  lemma ResidualFits(sh: Shape, d: Diag, coarse: map<IExpr, Diag>, e: IExpr, r: int, m0: IExpr)
    requires Splits(sh, d, coarse, Marks(Var(r))) && m0 in coarse && Splittable(sh, e) && 0 <= r < Width(sh)
    requires Occurs(e, Var(r))
    ensures NF(sh, coarse[m0])
    ensures var e2 := Subst(e, Var(r), m0);
            && Splittable(sh, e2) && Size(e2) < Size(e)
            && forall m, w :: Has(coarse[m0], w) && Marks(e2)(m, w) ==> Marks(e)(m, w)
  {
    var piece := coarse[m0];
    var w := Inhabited(sh, piece);
    assert Marks(Var(r))(m0, w);
    SubstShrinks(e, Var(r), m0);
    SubstSpans(e, Var(r), m0, 0, Width(sh), false);
    SubstNormal(e, Var(r), m0);
    ResidualMarks(sh, piece, e, r, m0);
  }

  /** Disjoint non-empty pieces with distinct markers, whose union is the diagram, on which the expression equals its marker. */
  method SplitEquiv(sh: Shape, d: Diag, e: IExpr) returns (classes: map<IExpr, Diag>)
    requires NF(sh, d) && Splittable(sh, e)
    ensures Splits(sh, d, classes, Marks(e))
    decreases Size(e), sh, 4
  {
    if d == Nothing {
      return map[];
    }
    if e.Const? || e.Undef? {
      GroundSplits(sh, d, e);
      return map[e := d];
    }
    if sh == Leaf {
      classes := SplitLeaf(d, e);
      return;
    }
    var sup := Reads(e);
    SplitCases(sh, e);
    var wh := Width(sh.head);
    if forall p :: p in sup ==> p < wh {
      classes := SplitSide(sh, d, e, true);
    } else if forall p :: p in sup ==> p >= wh {
      classes := SplitSide(sh, d, e, false);
    } else {
      var r := MinOf(sup);
      classes := SplitAcross(sh, d, e, r);
    }
  }

  /** A splittable expression that is not ground reads positions of a pair. */
  lemma SplitCases(sh: Shape, e: IExpr)
    requires Splittable(sh, e) && !e.Const? && !e.Undef? && sh != Leaf
    ensures sh.Pair? && Reads(e) != {} && InRange(Reads(e), 0, Width(sh))
    ensures (forall p :: p in Reads(e) ==> p < Width(sh.head)) ==> Spans(e, 0, Width(sh.head), false)
    ensures (forall p :: p in Reads(e) ==> p >= Width(sh.head)) ==> Spans(e, Width(sh.head), Width(sh), false)
    ensures !(forall p :: p in Reads(e) ==> p < Width(sh.head)) && !(forall p :: p in Reads(e) ==> p >= Width(sh.head)) ==>
              Size(e) > 1
  {
    if Reads(e) == {} {
      GroundIsConst(e);
    }
    SpansReads(e, 0, Width(sh), false);
    var p := AnElement(Reads(e));
    var wh := Width(sh.head);
    if forall p :: p in Reads(e) ==> p < wh {
      Narrow(e, 0, Width(sh), 0, wh, false);
    }
    if forall p :: p in Reads(e) ==> p >= wh {
      Narrow(e, 0, Width(sh), wh, Width(sh), false);
    }
    ReadsCount(e);
  }
}
