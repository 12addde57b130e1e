/**
 The two leaf-local walks: certification (src/cegar/certify.cc), which decides
 whether a classifier accepts every trace of a leaf, and the reverse gap
 (src/cegar/loop.cc), which decides the converse inclusion.
 */
module Teacher {
  import opened Words
  import opened Finite
  import opened Classifiers
  import opened Leaves
  import opened Exploration

  type Pair = (nat, nat)

  /** The alphabets agree and both tables are well formed. */
  ghost predicate Fits(l: Lts, h: Classifier) {
    l.Valid() && h.WellFormed() && h.nLetters == l.nLetters
  }

  /** Every trace of the leaf is accepted. */
  ghost predicate Certified(l: Lts, h: Classifier) {
    Fits(l, h) && forall w :: Over(w, l.nLetters) && l.Fires(w) ==> h.Accepts(w)
  }

  /** Every accepted word is a trace of the leaf. */
  ghost predicate Tight(l: Lts, h: Classifier) {
    Fits(l, h) && forall w :: Over(w, l.nLetters) && h.Accepts(w) ==> l.Fires(w)
  }

  ghost function Grid(n: nat, m: nat): set<Pair> {
    set q: nat, c: nat | 0 <= q < n && 0 <= c < m :: (q, c)
  }

  // ----- Certification -----

  /** The product of a leaf and a classifier, along the defined leaf transitions. */
  function Product(l: Lts, h: Classifier): Edges<Pair> {
    (p: Pair, a: nat) =>
      if p.0 < |l.delta| && a < |l.delta[p.0]| && l.delta[p.0][a] >= 0 && p.1 < |h.act| && a < |h.act[p.1]|
      then Some((l.delta[p.0][a], h.act[p.1][a])) else None
  }

  /** A word leads where the leaf runs and the classifier walks, as long as the leaf runs. */
  lemma {:induction false} ProductPath(l: Lts, h: Classifier, w: Word)
    requires Fits(l, h) && Over(w, l.nLetters)
    ensures Path((0, 0), l.nLetters, Product(l, h), w)
            == if l.Fires(w) then Some((l.Run(0, w) as nat, h.From(0, w))) else None
    decreases |w|
  {
    if w != [] {
      ProductPath(l, h, Init(w));
    }
  }

  lemma ProductClosed(l: Lts, h: Classifier)
    requires Fits(l, h)
    ensures Closed((0, 0), l.nLetters, Product(l, h), Grid(l.nStates, |h.act|))
  {
  }

  /** The inclusion walk. A trace that is not accepted comes back as the counterexample. */
  method Certify(l: Lts, h: Classifier) returns (certified: bool, counterexample: Word)
    requires Fits(l, h)
    ensures certified && h.Live(0) ==> Certified(l, h)
    ensures !certified ==>
              Over(counterexample, l.nLetters) && l.Fires(counterexample) && !h.Accepts(counterexample)
  {
    ProductClosed(l, h);
    var r := Explore((0, 0), l.nLetters, Product(l, h), (p: Pair) => !h.Live(p.1), None,
                     Grid(l.nStates, |h.act|));
    match r
    case Found(w) =>
      ProductPath(l, h, w);
      certified, counterexample := false, w;
    case Exhausted(visited) =>
      if h.Live(0) {
        forall w | Over(w, l.nLetters) && l.Fires(w)
          ensures h.Accepts(w)
        {
          ProductPath(l, h, w);
          ClosedCovers((0, 0), l.nLetters, Product(l, h), Elements(visited), w);
        }
      }
      certified, counterexample := true, [];
  }

  // ----- The reverse gap -----

  /** The product of a classifier, along its live classes, and the leaf completed by the sink `nStates`. */
  function SinkProduct(l: Lts, h: Classifier): Edges<Pair> {
    (p: Pair, a: nat) =>
      if p.0 < |h.act| && a < |h.act[p.0]| && h.Live(h.act[p.0][a])
      then Some((h.act[p.0][a],
                 if p.1 < |l.delta| && a < |l.delta[p.1]| && l.delta[p.1][a] >= 0 then l.delta[p.1][a]
                 else l.nStates))
      else None
  }

  /** The state reached by `w`, the sink if some step is undefined. */
  ghost function SinkRun(l: Lts, w: Word): nat
    requires l.Valid() && Over(w, l.nLetters)
  {
    if l.Fires(w) then l.Run(0, w) else l.nStates
  }

  lemma {:induction false} SinkProductPath(l: Lts, h: Classifier, w: Word)
    requires Fits(l, h) && h.DeadAbsorbs() && Over(w, l.nLetters)
    ensures Path((0, 0), l.nLetters, SinkProduct(l, h), w)
            == if w == [] || h.Accepts(w)
               then Some((h.From(0, w), SinkRun(l, w))) else None
    decreases |w|
  {
    if w != [] {
      SinkProductPath(l, h, Init(w));
    }
  }

  lemma SinkProductClosed(l: Lts, h: Classifier)
    requires Fits(l, h)
    ensures Closed((0, 0), l.nLetters, SinkProduct(l, h), Grid(|h.act|, l.nStates + 1))
  {
  }

  /** An accepted word the leaf cannot fire, or none when there is no such word. */
  method ReverseGap(l: Lts, h: Classifier) returns (gap: Option<Word>)
    requires Fits(l, h) && h.DeadAbsorbs()
    ensures gap.None? ==> Tight(l, h)
    ensures gap.Some? ==> Over(gap.value, l.nLetters) && h.Accepts(gap.value) && !l.Fires(gap.value)
  {
    SinkProductClosed(l, h);
    var r := Explore((0, 0), l.nLetters, SinkProduct(l, h), (p: Pair) => p.1 == l.nStates, None,
                     Grid(|h.act|, l.nStates + 1));
    match r
    case Found(w) =>
      SinkProductPath(l, h, w);
      gap := Some(w);
    case Exhausted(visited) =>
      forall w | Over(w, l.nLetters) && h.Accepts(w)
        ensures l.Fires(w)
      {
        SinkProductPath(l, h, w);
        ClosedCovers((0, 0), l.nLetters, SinkProduct(l, h), Elements(visited), w);
      }
      gap := None;
  }
}
