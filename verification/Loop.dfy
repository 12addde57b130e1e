/**
 The verification loop: search the abstract product, replay its witness on the
 leaves, refine the culprits (src/cegar/loop.cc).
 */
module Loop {
  import opened Words
  import opened Finite
  import opened Leaves
  import opened Exploration
  import opened Classifiers
  import opened Teacher
  import opened Learning
  import opened Models
  import opened Abstraction

  // ----- Refining one learner -----

  /** What the learner publishes accepts every trace of its leaf. */
  ghost predicate Trusted(l: Learner)
    requires l.Valid()
    reads l
  {
    forall h :: l.Publishes(h) ==> Certified(l.leaf, h)
  }

  ghost predicate Rejects(l: Learner, u: Word)
    requires l.Valid() && Over(u, l.leaf.nLetters)
    reads l
  {
    RejectedBy(l.leaf, l.S, l.E, l.virgin, u)
  }

  ghost predicate RejectedBy(l: Lts, S: seq<Word>, E: seq<Word>, virgin: bool, u: Word)
    requires Observes(l, S, E) && Over(u, l.nLetters)
  {
    forall h :: PublishedBy(l, S, E, virgin, h) ==> !h.Accepts(u)
  }

  /** What holds of the published classifier holds of every classifier the learner publishes. */
  lemma TrustPublished(l: Learner, h: Classifier)
    requires l.Valid() && l.Publishes(h) && Certified(l.leaf, h)
    ensures Trusted(l)
  {
    forall h' | l.Publishes(h')
      ensures h' == h
    {
      PublishedUnique(l.leaf, l.S, l.E, l.virgin, h, h');
    }
  }

  lemma RejectPublishedBy(l: Lts, S: seq<Word>, E: seq<Word>, virgin: bool, h: Classifier, u: Word)
    requires Observes(l, S, E) && RowsDiffer(l, S, E) && PublishedBy(l, S, E, virgin, h)
    requires Over(u, l.nLetters) && !h.Accepts(u)
    ensures RejectedBy(l, S, E, virgin, u)
  {
    forall h' | PublishedBy(l, S, E, virgin, h')
      ensures !h'.Accepts(u)
    {
      PublishedUnique(l, S, E, virgin, h, h');
    }
  }

  lemma RejectPublished(l: Learner, h: Classifier, u: Word)
    requires l.Valid() && l.Publishes(h) && Over(u, l.leaf.nLetters) && !h.Accepts(u)
    ensures Rejects(l, u)
  {
    RejectPublishedBy(l.leaf, l.S, l.E, l.virgin, h, u);
  }

  /** Chaos is certified for free. */
  lemma VirginTrusted(l: Learner)
    requires l.Valid() && l.virgin
    ensures Trusted(l)
  {
    ChaosAcceptsAll(l.leaf.nLetters);
  }

  /** The counterexamples processed never exceed the number of states. */
  lemma CexBound(l: Learner)
    requires l.Valid()
    ensures l.nCex <= l.leaf.nStates && 0 <= l.Potential()
  {
    RowBound(l.leaf, l.S, l.E);
  }

  /** Feed certification counterexamples back until the published classifier is certified. */
  method CertifyLearner(l: Learner, leafBudget: nat) returns (h: Classifier)
    requires l.Valid() && leafBudget >= l.leaf.nStates + 1
    modifies l
    ensures l.Valid() && l.Publishes(h) && h.Live(0) && Certified(l.leaf, h)
    ensures 0 <= l.Potential() <= old(l.Potential())
  {
    CexBound(l);
    while true
      invariant l.Valid() && 0 <= l.Potential() <= old(l.Potential())
      decreases l.Potential()
    {
      h := l.Published();
      var certified, cex := Certify(l.leaf, h);
      if certified {
        CexBound(l);
        return;
      }
      // "budget exceeded" is never reported:
      CexBound(l);
      assert l.nCex <= leafBudget;
      l.AddCounterexample(cex, h);
    }
  }

  /** Certify the published classifier, or feed the trace it rejects back. */
  method CertifyOrRefine(l: Learner, h: Classifier) returns (certified: bool)
    requires l.Valid() && l.Publishes(h) && h.Live(0)
    modifies l
    ensures l.Valid()
    ensures certified ==> unchanged(l) && Trusted(l)
    ensures !certified ==> 0 <= l.Potential() < old(l.Potential())
  {
    var cex;
    certified, cex := Certify(l.leaf, h);
    if certified {
      TrustPublished(l, h);
    } else {
      l.AddCounterexample(cex, h);
    }
  }

  /** Feed the refuted word, then certification's counterexamples; says whether the word is rejected now. */
  method RefineOnce(l: Learner, u: Word, h: Classifier, leafBudget: nat) returns (resolved: bool)
    requires l.Valid() && leafBudget == l.leaf.nStates + 1
    requires Over(u, l.leaf.nLetters) && !l.leaf.Fires(u) && l.Publishes(h) && h.Accepts(u)
    modifies l
    ensures l.Valid() && Trusted(l) && 0 <= l.Potential() < old(l.Potential())
    ensures resolved ==> Rejects(l, u)
  {
    l.AddCounterexample(u, h);
    var h' := CertifyLearner(l, leafBudget);
    TrustPublished(l, h');
    var c := Classify(h'.act, h'.nLetters, u);
    resolved := !h'.Live(c);
    if resolved {
      RejectPublished(l, h', u);
    }
  }

  /** Refine until the published classifier is certified and rejects `u`, which the leaf cannot fire. */
  method RefineUntilResolved(l: Learner, u: Word, leafBudget: nat)
    requires l.Valid() && leafBudget == l.leaf.nStates + 1
    requires Over(u, l.leaf.nLetters) && !l.leaf.Fires(u)
    modifies l
    ensures l.Valid() && Trusted(l) && Rejects(l, u)
    ensures 0 <= l.Potential() <= old(l.Potential())
    ensures !old(Rejects(l, u)) ==> l.Potential() < old(l.Potential())
  {
    hide Trusted, RowsDiffer, TableClosed, IsTable, Recognises;
    CexBound(l);
    ghost var p0 := l.Potential();
    ghost var S0, E0, v0 := l.S, l.E, l.virgin;
    while true
      invariant l.Valid() && 0 <= l.Potential() <= p0
      invariant l.Potential() == p0 ==> l.S == S0 && l.E == E0 && l.virgin == v0
      decreases l.Potential()
    {
      // "budget exceeded" is never reported:
      CexBound(l);
      assert l.nCex <= leafBudget;
      var h := l.Published();
      var c := Classify(h.act, h.nLetters, u);
      if !h.Live(c) {
        RejectPublished(l, h, u);
        var certified := CertifyOrRefine(l, h);
        if certified {
          return;
        }
      } else {
        var resolved := RefineOnce(l, u, h, leafBudget);
        if resolved {
          return;
        }
      }
    }
  }

  /** Drive a learner to the exact language of its leaf. */
  method DriveExact(l: Learner, leafBudget: nat) returns (h: Classifier)
    requires l.Valid() && leafBudget == l.leaf.nStates + 1
    modifies l
    ensures l.Valid() && l.Publishes(h) && Certified(l.leaf, h) && Tight(l.leaf, h)
    ensures 0 <= l.Potential() <= old(l.Potential())
  {
    hide RowsDiffer, TableClosed, IsTable, Recognises;
    CexBound(l);
    while true
      invariant l.Valid() && 0 <= l.Potential() <= old(l.Potential())
      decreases l.Potential()
    {
      // "budget exceeded" is never reported:
      CexBound(l);
      assert l.nCex <= leafBudget + 1;
      h := l.Published();
      var certified, cex := Certify(l.leaf, h);
      if !certified {
        l.AddCounterexample(cex, h);
      } else {
        var gap := ReverseGap(l.leaf, h);
        if gap.None? {
          return;
        }
        l.AddCounterexample(gap.value, h);
      }
    }
  }
}
