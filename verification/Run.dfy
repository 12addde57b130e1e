/**
 The whole run: one learner per distinct non-property leaf, rounds of search,
 replay and refinement, and the bound on their number (src/cegar/loop.cc).
 */
module Runs {
  import opened Words
  import opened Finite
  import opened Leaves
  import opened Exploration
  import opened Classifiers
  import opened Teacher
  import opened Learning
  import opened Models
  import opened Abstraction
  import opened Loop

  // ----- The learners of a profile -----

  /** A learner between rounds: what it publishes is certified. */
  ghost predicate Ready(l: Learner)
    reads l
  {
    l.Valid() && Trusted(l) && l.Potential() >= 0
  }

  ghost predicate AllReady(entries: seq<Learner>)
    reads entries
    decreases |entries|
  {
    entries == [] || (AllReady(entries[..|entries| - 1]) && Ready(entries[|entries| - 1]))
  }

  lemma {:induction false} ReadyAt(entries: seq<Learner>, k: nat)
    requires AllReady(entries) && k < |entries|
    ensures Ready(entries[k])
    decreases |entries|
  {
    if k < |entries| - 1 {
      ReadyAt(entries[..|entries| - 1], k);
    }
  }

  /** What a learner publishes depends on this much of it. */
  datatype Snapshot = Snapshot(S: seq<Word>, E: seq<Word>, virgin: bool, nCex: nat)

  ghost function Snap(l: Learner): Snapshot
    reads l
  {
    Snapshot(l.S, l.E, l.virgin, l.nCex)
  }

  ghost function Snaps(entries: seq<Learner>): (s: seq<Snapshot>)
    reads entries
    ensures |s| == |entries|
    ensures forall k :: 0 <= k < |entries| ==> s[k] == Snap(entries[k])
  {
    seq(|entries|, k requires 0 <= k < |entries| reads entries => Snap(entries[k]))
  }

  /** A learner's potential, read off its snapshot. */
  ghost function PotentialOf(l: Lts, s: Snapshot): int {
    (if s.virgin then 1 else 0) + l.nStates + 1 - |s.S|
  }

  /** The unexposed learners and the rows still to be found, over all entries. */
  ghost function Total(entries: seq<Learner>, snaps: seq<Snapshot>): int
    requires |entries| == |snaps|
    decreases |entries|
  {
    if entries == [] then 0
    else
      var n := |entries| - 1;
      Total(entries[..n], snaps[..n]) + PotentialOf(entries[n].leaf, snaps[n])
  }

  /** One entry's change moves the total by that entry's change. */
  lemma {:induction false} TotalUpdate(entries: seq<Learner>, snaps: seq<Snapshot>, k: nat, s: Snapshot)
    requires |entries| == |snaps| && k < |entries|
    ensures Total(entries, snaps[k := s])
            == Total(entries, snaps) - PotentialOf(entries[k].leaf, snaps[k]) + PotentialOf(entries[k].leaf, s)
    decreases |entries|
  {
    var n := |entries| - 1;
    if k < n {
      TotalUpdate(entries[..n], snaps[..n], k, s);
      assert snaps[k := s][..n] == snaps[..n][k := s];
    } else {
      assert snaps[k := s][..n] == snaps[..n];
    }
  }

  /** The sum of |Q| + 1 over the entries. */
  function Budget(entries: seq<Learner>): nat
    decreases |entries|
  {
    if entries == [] then 0 else Budget(entries[..|entries| - 1]) + entries[|entries| - 1].leaf.nStates + 1
  }

  /** The counterexamples processed, over all entries. */
  function CexTotal(entries: seq<Learner>): int
    reads entries
    decreases |entries|
  {
    if entries == [] then 0 else CexTotal(entries[..|entries| - 1]) + entries[|entries| - 1].nCex
  }

  lemma {:induction false} TotalNonNegative(entries: seq<Learner>)
    requires AllReady(entries)
    ensures Total(entries, Snaps(entries)) >= 0
    decreases |entries|
  {
    if entries != [] {
      var n := |entries| - 1;
      TotalNonNegative(entries[..n]);
      assert Snaps(entries)[..n] == Snaps(entries[..n]);
    }
  }

  /** The counterexamples of a run never exceed its budget. */
  lemma {:induction false} CexWithinBudget(entries: seq<Learner>)
    requires AllReady(entries)
    ensures CexTotal(entries) <= Budget(entries)
    decreases |entries|
  {
    if entries != [] {
      CexWithinBudget(entries[..|entries| - 1]);
      CexBound(entries[|entries| - 1]);
    }
  }

  lemma {:induction false} AllReadyIntro(entries: seq<Learner>)
    requires forall k :: 0 <= k < |entries| ==> Ready(entries[k])
    ensures AllReady(entries)
    decreases |entries|
  {
    if entries != [] {
      AllReadyIntro(entries[..|entries| - 1]);
    }
  }

  // ----- Building the profile -----

  /** Every non-property leaf has an entry that learns its table. */
  ghost predicate Assigned(m: Model, entries: seq<Learner>, ofLeaf: seq<int>, n: nat)
    requires n <= |m.leaves|
  {
    && |ofLeaf| == n
    && (forall i :: 0 <= i < n ==> -1 <= ofLeaf[i] < |entries|)
    && (forall i :: 0 <= i < n ==> (ofLeaf[i] < 0 <==> i in m.propLeaves))
    && (forall i :: 0 <= i < n && ofLeaf[i] >= 0 ==> entries[ofLeaf[i]].leaf == m.leaves[i])
    && (forall k :: 0 <= k < |entries| ==> k in ofLeaf)
  }

  /** Assign the next leaf: none if it is a property leaf, else an entry that learns its table. */
  lemma AssignNext(m: Model, entries: seq<Learner>, ofLeaf: seq<int>, n: nat, more: seq<Learner>, k: int)
    requires n < |m.leaves| && Assigned(m, entries, ofLeaf, n)
    requires entries <= more && |more| <= |entries| + 1 && -1 <= k < |more|
    requires k < 0 <==> n in m.propLeaves
    requires k >= 0 ==> more[k].leaf == m.leaves[n]
    requires |more| > |entries| ==> k == |entries|
    ensures Assigned(m, more, ofLeaf + [k], n + 1)
  {
    var next := ofLeaf + [k];
    forall j | 0 <= j < |more|
      ensures j in next
    {
      if j < |entries| {
        assert j in ofLeaf;
        var i :| 0 <= i < n && ofLeaf[i] == j;
        assert next[i] == j;
      } else {
        assert next[n] == j;
      }
    }
  }

  /** No two entries learn one table. */
  ghost predicate Shared(entries: seq<Learner>) {
    forall k, k' :: 0 <= k < k' < |entries| ==> entries[k].leaf != entries[k'].leaf
  }

  /** The first entry that learns this table, or the number of entries. */
  method FindEntry(entries: seq<Learner>, l: Lts) returns (k: nat)
    ensures k <= |entries|
    ensures k < |entries| ==> entries[k].leaf == l
    ensures k == |entries| ==> forall j :: 0 <= j < |entries| ==> entries[j].leaf != l
  {
    k := 0;
    while k < |entries|
      invariant k <= |entries|
      invariant forall j :: 0 <= j < k ==> entries[j].leaf != l
    {
      if entries[k].leaf == l {
        return;
      }
      k := k + 1;
    }
  }

  method NewEntry(l: Lts) returns (e: Learner)
    requires l.Valid()
    ensures fresh(e) && e.leaf == l && Ready(e) && e.virgin
    ensures PotentialOf(l, Snap(e)) <= l.nStates + 1
  {
    e := new Learner(l);
    VirginTrusted(e);
  }

  lemma AppendEntry(entries: seq<Learner>, l: Learner)
    requires AllReady(entries) && Ready(l)
    requires Total(entries, Snaps(entries)) <= Budget(entries) && PotentialOf(l.leaf, Snap(l)) <= l.leaf.nStates + 1
    ensures var more := entries + [l];
            AllReady(more) && Total(more, Snaps(more)) <= Budget(more)
  {
    var more := entries + [l];
    assert more[..|entries|] == entries;
    assert Snaps(more)[..|entries|] == Snaps(entries);
  }

  /** No learner was exposed yet. */
  ghost predicate AllVirgin(entries: seq<Learner>)
    reads entries
  {
    forall k :: 0 <= k < |entries| ==> entries[k].virgin
  }

  /** The entry for a table: an existing one when interning finds it, else a new one. */
  method EntryFor(entries: seq<Learner>, l: Lts, intern: bool) returns (more: seq<Learner>, k: nat)
    requires l.Valid() && Distinct(entries) && (intern ==> Shared(entries))
    requires AllReady(entries) && Total(entries, Snaps(entries)) <= Budget(entries) && AllVirgin(entries)
    ensures Distinct(more) && (intern ==> Shared(more)) && AllVirgin(more)
    ensures AllReady(more) && Total(more, Snaps(more)) <= Budget(more)
    ensures entries <= more && k < |more| && more[k].leaf == l
    ensures |more| == |entries| || (|more| == |entries| + 1 && k == |entries|)
    ensures |more| > |entries| ==> fresh(more[k])
  {
    hide AllReady, Total, Budget, Snaps, Ready;
    k := |entries|;
    if intern {
      k := FindEntry(entries, l);
    }
    more := entries;
    if k == |entries| {
      var e := NewEntry(l);
      AppendEntry(entries, e);
      more := entries + [e];
      assert forall j :: 0 <= j < |entries| ==> more[j] == entries[j];
    }
  }

  lemma NoEntries(m: Model)
    ensures AllReady([]) && Total([], Snaps([])) <= Budget([]) && Assigned(m, [], [], 0) && Shared([])
  {
  }

  /** Byte-equal leaves share a learner, unless interning is off. */
  method BuildProfile(m: Model, intern: bool) returns (entries: seq<Learner>, ofLeaf: seq<int>)
    requires forall i :: 0 <= i < |m.leaves| ==> m.leaves[i].Valid()
    ensures (forall k :: 0 <= k < |entries| ==> fresh(entries[k])) && Distinct(entries)
    ensures AllReady(entries) && Total(entries, Snaps(entries)) <= Budget(entries)
    ensures Assigned(m, entries, ofLeaf, |m.leaves|) && AllVirgin(entries)
    ensures intern ==> Shared(entries)
  {
    hide AllReady, Total, Budget, Snaps, Assigned, Shared;
    entries, ofLeaf := [], [];
    NoEntries(m);
    for i: nat := 0 to |m.leaves|
      invariant (forall k :: 0 <= k < |entries| ==> fresh(entries[k])) && Distinct(entries)
      invariant AllReady(entries) && Total(entries, Snaps(entries)) <= Budget(entries)
      invariant Assigned(m, entries, ofLeaf, i) && AllVirgin(entries)
      invariant intern ==> Shared(entries)
    {
      if i in m.propLeaves {
        AssignNext(m, entries, ofLeaf, i, entries, -1);
        ofLeaf := ofLeaf + [-1];
      } else {
        var more, k := EntryFor(entries, m.leaves[i], intern);
        AssignNext(m, entries, ofLeaf, i, more, k);
        entries, ofLeaf := more, ofLeaf + [k];
      }
    }
  }

  // ----- One round -----

  /** `h` is what a learner with this snapshot publishes. */
  ghost predicate Describes(l: Lts, s: Snapshot, h: Classifier) {
    Observes(l, s.S, s.E) && RowsDiffer(l, s.S, s.E) && PublishedBy(l, s.S, s.E, s.virgin, h) && h.Live(0)
  }

  /** One published classifier per entry. */
  ghost predicate AllDescribed(entries: seq<Learner>, snaps: seq<Snapshot>, hs: seq<Classifier>)
    requires |hs| <= |entries| == |snaps|
    decreases |hs|
  {
    hs == [] || (
      var n := |hs| - 1;
      AllDescribed(entries, snaps, hs[..n]) && Describes(entries[n].leaf, snaps[n], hs[n]))
  }

  lemma {:induction false} DescribedAt(entries: seq<Learner>, snaps: seq<Snapshot>, hs: seq<Classifier>, k: nat)
    requires |hs| <= |entries| == |snaps| && AllDescribed(entries, snaps, hs) && k < |hs|
    ensures Describes(entries[k].leaf, snaps[k], hs[k])
    decreases |hs|
  {
    if k < |hs| - 1 {
      DescribedAt(entries, snaps, hs[..|hs| - 1], k);
    }
  }

  /** Publish one entry; nothing but its caches changes. */
  method PublishEntry(entries: seq<Learner>, k: nat) returns (h: Classifier)
    requires Distinct(entries) && AllReady(entries) && k < |entries|
    modifies entries[k]
    ensures AllReady(entries) && Snaps(entries) == old(Snaps(entries))
    ensures Describes(entries[k].leaf, Snap(entries[k]), h)
  {
    forall j | 0 <= j < |entries|
      ensures Ready(entries[j])
    {
      ReadyAt(entries, j);
    }
    h := PublishReady(entries[k]);
    AllReadyIntro(entries);
  }

  method PublishReady(l: Learner) returns (h: Classifier)
    requires Ready(l)
    modifies l
    ensures Ready(l) && Snap(l) == old(Snap(l))
    ensures Describes(l.leaf, Snap(l), h) && Certified(l.leaf, h)
  {
    h := l.Published();
  }

  /** The published classifiers of all entries. */
  method PublishAll(entries: seq<Learner>) returns (hs: seq<Classifier>)
    requires Distinct(entries) && AllReady(entries)
    modifies entries
    ensures AllReady(entries) && Snaps(entries) == old(Snaps(entries))
    ensures |hs| == |entries| && AllDescribed(entries, Snaps(entries), hs)
  {
    ghost var snaps := Snaps(entries);
    hs := [];
    for k: nat := 0 to |entries|
      invariant AllReady(entries) && Snaps(entries) == snaps
      invariant |hs| == k && AllDescribed(entries, snaps, hs)
    {
      var h := PublishEntry(entries, k);
      assert (hs + [h])[..k] == hs;
      hs := hs + [h];
    }
  }

  /** The classifier accepts a word the leaf cannot fire. */
  ghost predicate Spurious(l: Lts, h: Classifier, u: Word) {
    Fits(l, h) && Over(u, l.nLetters) && h.Accepts(u) && !l.Fires(u)
  }

  /** What is published accepts nothing but traces. */
  ghost predicate TightBy(l: Lts, s: Snapshot) {
    Observes(l, s.S, s.E) && forall h :: PublishedBy(l, s.S, s.E, s.virgin, h) ==> Tight(l, h)
  }

  lemma TightPublished(l: Lts, s: Snapshot, h: Classifier)
    requires Observes(l, s.S, s.E) && RowsDiffer(l, s.S, s.E) && PublishedBy(l, s.S, s.E, s.virgin, h) && Tight(l, h)
    ensures TightBy(l, s)
  {
    forall h' | PublishedBy(l, s.S, s.E, s.virgin, h')
      ensures h' == h
    {
      PublishedUnique(l, s.S, s.E, s.virgin, h, h');
    }
  }

  /** Refine a ready learner against a word it accepts and its leaf cannot fire. */
  method RefineReady(l: Learner, u: Word, ghost h: Classifier, jumpExact: bool)
    requires Ready(l) && Describes(l.leaf, Snap(l), h) && Spurious(l.leaf, h, u)
    modifies l
    ensures Ready(l) && PotentialOf(l.leaf, Snap(l)) < old(PotentialOf(l.leaf, Snap(l)))
    ensures Rejects(l, u) && (jumpExact ==> TightBy(l.leaf, Snap(l)))
  {
    assert !Rejects(l, u) by {
      assert PublishedBy(l.leaf, l.S, l.E, l.virgin, h);
    }
    RefineUntilResolved(l, u, l.leaf.nStates + 1);
    if jumpExact {
      var h' := DriveExact(l, l.leaf.nStates + 1);
      TrustPublished(l, h');
      RejectPublished(l, h', u);
      TightPublished(l.leaf, Snap(l), h');
    }
    StillRejected(l, u);
  }

  /** The final check of a refinement: the published classifier does not accept the witness. */
  method StillRejected(l: Learner, u: Word)
    requires Ready(l) && Over(u, l.leaf.nLetters) && Rejects(l, u)
    modifies l
    ensures Ready(l) && Rejects(l, u) && Snap(l) == old(Snap(l))
  {
    var h := PublishReady(l);
    var c := Classify(h.act, h.nLetters, u);
    // "refined witness still accepted" is never reported:
    assert !h.Live(c);
  }

  /** The k-th entry publishes its recorded classifier, which accepts a word its leaf cannot fire. */
  ghost predicate Refinable(entries: seq<Learner>, snaps: seq<Snapshot>, hs: seq<Classifier>, k: nat, u: Word)
    reads entries
  {
    && |hs| == |entries| == |snaps| && k < |entries|
    && AllDescribed(entries, snaps, hs) && Snap(entries[k]) == snaps[k]
    && Spurious(entries[k].leaf, hs[k], u)
  }

  /** Some word the leaf cannot fire was accepted by `h`, and is rejected by what is published now. */
  ghost predicate Corrected(l: Lts, s: Snapshot, h: Classifier) {
    exists u :: Spurious(l, h, u) && Observes(l, s.S, s.E) && RejectedBy(l, s.S, s.E, s.virgin, u)
  }

  /** This word was accepted by `h` and is rejected now; driven to exactness, nothing spurious is accepted. */
  ghost predicate Amended(l: Lts, s: Snapshot, h: Classifier, u: Word, exactly: bool) {
    && Spurious(l, h, u) && Observes(l, s.S, s.E) && RejectedBy(l, s.S, s.E, s.virgin, u)
    && (exactly ==> TightBy(l, s))
  }

  lemma AmendedCorrected(l: Lts, s: Snapshot, h: Classifier, u: Word, exactly: bool)
    requires Amended(l, s, h, u, exactly)
    ensures Corrected(l, s, h)
  {
  }

  method RefineOne(entries: seq<Learner>, ghost snaps: seq<Snapshot>, ghost hs: seq<Classifier>, k: nat, u: Word,
                   jumpExact: bool)
    requires Refinable(entries, snaps, hs, k, u) && Ready(entries[k])
    modifies entries[k]
    ensures Ready(entries[k])
    ensures PotentialOf(entries[k].leaf, Snap(entries[k])) < PotentialOf(entries[k].leaf, snaps[k])
    ensures Amended(entries[k].leaf, Snap(entries[k]), hs[k], u, jumpExact)
  {
    DescribedAt(entries, snaps, hs, k);
    RefineReady(entries[k], u, hs[k], jumpExact);
  }

  /** Refine one entry; the other entries are untouched and the total drops. */
  method RefineEntry(entries: seq<Learner>, ghost snaps: seq<Snapshot>, ghost hs: seq<Classifier>, k: nat, u: Word,
                     jumpExact: bool)
    requires Distinct(entries) && AllReady(entries) && Refinable(entries, snaps, hs, k, u)
    modifies entries[k]
    ensures AllReady(entries)
    ensures forall j :: 0 <= j < |entries| && j != k ==> Snaps(entries)[j] == old(Snaps(entries))[j]
    ensures Total(entries, Snaps(entries)) < old(Total(entries, Snaps(entries)))
    ensures Amended(entries[k].leaf, Snaps(entries)[k], hs[k], u, jumpExact)
  {
    hide Ready, AllReady, Total, PotentialOf, AllDescribed, Spurious, Amended;
    ghost var before := Snaps(entries);
    forall j | 0 <= j < |entries|
      ensures Ready(entries[j])
    {
      ReadyAt(entries, j);
    }
    RefineOne(entries, snaps, hs, k, u, jumpExact);
    AllReadyIntro(entries);
    TotalUpdate(entries, before, k, Snap(entries[k]));
    assert Snaps(entries) == before[k := Snap(entries[k])];
  }

  /** Per leaf: the classifier of its entry, none for a property leaf. */
  function PerLeaf(ofLeaf: seq<int>, hs: seq<Classifier>): seq<Option<Classifier>>
    requires forall i :: 0 <= i < |ofLeaf| ==> ofLeaf[i] < |hs|
  {
    seq(|ofLeaf|, i requires 0 <= i < |ofLeaf| && ofLeaf[i] < |hs| =>
      if ofLeaf[i] < 0 then None else Some(hs[ofLeaf[i]]))
  }

  lemma PerLeafProfiled(m: Model, entries: seq<Learner>, ofLeaf: seq<int>, snaps: seq<Snapshot>, hs: seq<Classifier>)
    requires Assigned(m, entries, ofLeaf, |m.leaves|)
    requires |hs| == |entries| == |snaps| && AllDescribed(entries, snaps, hs)
    ensures Profiled(m, PerLeaf(ofLeaf, hs))
  {
    forall i | 0 <= i < |ofLeaf| && ofLeaf[i] >= 0
      ensures var h := hs[ofLeaf[i]];
              h.Canonical() && h.Live(0) && h.nLetters == m.leaves[i].nLetters
    {
      DescribedAt(entries, snaps, hs, ofLeaf[i]);
    }
  }

  lemma PerLeafCertified(m: Model, entries: seq<Learner>, ofLeaf: seq<int>, hs: seq<Classifier>)
    requires Assigned(m, entries, ofLeaf, |m.leaves|) && AllReady(entries)
    requires |hs| == |entries| && AllDescribed(entries, Snaps(entries), hs)
    ensures AllCertified(m, PerLeaf(ofLeaf, hs))
  {
    forall i | 0 <= i < |ofLeaf| && ofLeaf[i] >= 0
      ensures Certified(m.leaves[i], hs[ofLeaf[i]])
    {
      var k := ofLeaf[i];
      DescribedAt(entries, Snaps(entries), hs, k);
      ReadyAt(entries, k);
      assert entries[k].Publishes(hs[k]);
    }
  }

  /** What a culprit is: a non-property leaf whose classifier accepts what the leaf cannot fire. */
  ghost predicate Culprit(m: Model, entries: seq<Learner>, ofLeaf: seq<int>, hs: seq<Classifier>, w: EventWord, c: nat)
    requires |hs| == |entries| && Assigned(m, entries, ofLeaf, |m.leaves|) && Over(w, |m.events|)
  {
    && c < |m.leaves| && ofLeaf[c] >= 0
    && Spurious(entries[ofLeaf[c]].leaf, hs[ofLeaf[c]], Project(m.events, w, c))
  }

  /** The state of a refinement round: entries not yet done are as the search saw them. */
  ghost predicate InRound(entries: seq<Learner>, snaps: seq<Snapshot>, done: set<int>)
    reads entries
  {
    && AllReady(entries) && |snaps| == |entries|
    && (forall k :: 0 <= k < |entries| && k !in done ==> Snaps(entries)[k] == snaps[k])
    && Total(entries, Snaps(entries)) <= Total(entries, snaps)
    && (done != {} ==> Total(entries, Snaps(entries)) < Total(entries, snaps))
  }

  /** Per entry of a culprit, the part of the witness it is refined against: that of its first culprit. */
  ghost function FirstParts(events: seq<Event>, ofLeaf: seq<int>, w: EventWord, culprits: seq<nat>): (parts: map<int, Word>)
    requires Over(w, |events|) && forall i :: 0 <= i < |culprits| ==> culprits[i] < |ofLeaf|
    ensures forall k :: k in parts <==> exists i :: 0 <= i < |culprits| && ofLeaf[culprits[i]] == k
    decreases |culprits|
  {
    if culprits == [] then map[]
    else
      var n := |culprits| - 1;
      var before, k := FirstParts(events, ofLeaf, w, culprits[..n]), ofLeaf[culprits[n]];
      if k in before then before else before[k := Project(events, w, culprits[n])]
  }

  /** The first culprit of an entry gives the part. */
  lemma {:induction false} FirstPartOf(events: seq<Event>, ofLeaf: seq<int>, w: EventWord, culprits: seq<nat>, i: nat)
    requires Over(w, |events|) && (forall i :: 0 <= i < |culprits| ==> culprits[i] < |ofLeaf|) && i < |culprits|
    requires forall j :: 0 <= j < i ==> ofLeaf[culprits[j]] != ofLeaf[culprits[i]]
    ensures ofLeaf[culprits[i]] in FirstParts(events, ofLeaf, w, culprits)
    ensures FirstParts(events, ofLeaf, w, culprits)[ofLeaf[culprits[i]]] == Project(events, w, culprits[i])
    decreases |culprits|
  {
    var n := |culprits| - 1;
    if i < n {
      FirstPartOf(events, ofLeaf, w, culprits[..n], i);
    }
  }

  /** Every entry refined in this round rejects its part of the witness now. */
  ghost predicate AllAmended(entries: seq<Learner>, hs: seq<Classifier>, parts: map<int, Word>, exactly: bool)
    requires |hs| == |entries|
    reads entries
  {
    forall k :: k in parts ==> 0 <= k < |entries| && Amended(entries[k].leaf, Snaps(entries)[k], hs[k], parts[k], exactly)
  }

  /** Refine the entry of one culprit, unless this round already did. */
  method RefineCulprit(m: Model, entries: seq<Learner>, ofLeaf: seq<int>, ghost snaps: seq<Snapshot>,
                       hs: seq<Classifier>, w: EventWord, c: nat, done: set<int>, ghost parts: map<int, Word>, jumpExact: bool)
    returns (done': set<int>, ghost parts': map<int, Word>)
    requires Distinct(entries) && InRound(entries, snaps, done) && Over(w, |m.events|)
    requires Assigned(m, entries, ofLeaf, |m.leaves|)
    requires |hs| == |entries| && AllDescribed(entries, snaps, hs)
    requires Culprit(m, entries, ofLeaf, hs, w, c) && done == parts.Keys && AllAmended(entries, hs, parts, jumpExact)
    modifies entries
    ensures InRound(entries, snaps, done') && done' != {} && done' == parts'.Keys && AllAmended(entries, hs, parts', jumpExact)
    ensures parts' == if ofLeaf[c] in parts then parts else parts[ofLeaf[c] := Project(m.events, w, c)]
  {
    hide Total, AllReady, AllDescribed, Spurious, Amended, Distinct;
    var k := ofLeaf[c];
    if k in done {
      return done, parts;
    }
    var u := ProjectOnto(m, w, c);
    assert Snaps(entries)[k] == snaps[k];
    RefineEntry(entries, snaps, hs, k, u, jumpExact);
    done', parts' := done + {k}, parts[k := u];
  }

  /** Refine the culprits of a witness, each entry at most once. */
  method RefineRound(m: Model, entries: seq<Learner>, ofLeaf: seq<int>, hs: seq<Classifier>, w: EventWord,
                     culprits: seq<nat>, jumpExact: bool)
    requires Distinct(entries) && AllReady(entries) && Over(w, |m.events|)
    requires Assigned(m, entries, ofLeaf, |m.leaves|)
    requires |hs| == |entries| && AllDescribed(entries, Snaps(entries), hs)
    requires culprits != [] && forall i :: 0 <= i < |culprits| ==> culprits[i] < |ofLeaf|
    requires forall i :: 0 <= i < |culprits| ==> Culprit(m, entries, ofLeaf, hs, w, culprits[i])
    modifies entries
    ensures AllReady(entries)
    ensures Total(entries, Snaps(entries)) < old(Total(entries, Snaps(entries)))
    ensures AllAmended(entries, hs, FirstParts(m.events, ofLeaf, w, culprits), jumpExact)
    ensures forall k :: 0 <= k < |entries| && k !in FirstParts(m.events, ofLeaf, w, culprits) ==>
              Snaps(entries)[k] == old(Snaps(entries))[k]
    ensures exists k :: 0 <= k < |entries| && Corrected(entries[k].leaf, Snaps(entries)[k], hs[k])
  {
    hide Total, AllReady, AllDescribed, Culprit, InRound, AllAmended, FirstParts, Corrected, Distinct;
    ghost var snaps := Snaps(entries);
    var done: set<int> := {};
    ghost var parts: map<int, Word> := map[];
    RoundStarts(entries, hs, jumpExact);
    NoParts(m.events, ofLeaf, w, culprits);
    for i := 0 to |culprits|
      invariant InRound(entries, snaps, done) && (i > 0 ==> done != {})
      invariant done == parts.Keys && AllAmended(entries, hs, parts, jumpExact)
      invariant parts == FirstParts(m.events, ofLeaf, w, culprits[..i])
    {
      OnePartMore(m.events, ofLeaf, w, culprits, i);
      done, parts := RefineCulprit(m, entries, ofLeaf, snaps, hs, w, culprits[i], done, parts, jumpExact);
    }
    assert culprits[..|culprits|] == culprits;
    RoundEnds(entries, snaps, hs, done, parts, jumpExact);
  }

  lemma RoundStarts(entries: seq<Learner>, hs: seq<Classifier>, exactly: bool)
    requires AllReady(entries) && |hs| == |entries|
    ensures InRound(entries, Snaps(entries), {}) && AllAmended(entries, hs, map[], exactly)
  {
  }

  lemma CulpritsKnown(m: Model, entries: seq<Learner>, ofLeaf: seq<int>, hs: seq<Classifier>, w: EventWord, culprits: seq<nat>)
    requires |hs| == |entries| && Assigned(m, entries, ofLeaf, |m.leaves|) && Over(w, |m.events|)
    requires forall i :: 0 <= i < |culprits| ==> Culprit(m, entries, ofLeaf, hs, w, culprits[i])
    ensures forall i :: 0 <= i < |culprits| ==> culprits[i] < |ofLeaf|
  {
  }

  lemma NoParts(events: seq<Event>, ofLeaf: seq<int>, w: EventWord, culprits: seq<nat>)
    requires Over(w, |events|) && forall i :: 0 <= i < |culprits| ==> culprits[i] < |ofLeaf|
    ensures FirstParts(events, ofLeaf, w, culprits[..0]) == map[]
  {
  }

  lemma OnePartMore(events: seq<Event>, ofLeaf: seq<int>, w: EventWord, culprits: seq<nat>, i: nat)
    requires Over(w, |events|) && (forall i :: 0 <= i < |culprits| ==> culprits[i] < |ofLeaf|) && i < |culprits|
    ensures var before, k := FirstParts(events, ofLeaf, w, culprits[..i]), ofLeaf[culprits[i]];
            FirstParts(events, ofLeaf, w, culprits[..i + 1])
            == if k in before then before else before[k := Project(events, w, culprits[i])]
  {
    assert culprits[..i + 1][..i] == culprits[..i];
  }

  lemma RoundEnds(entries: seq<Learner>, snaps: seq<Snapshot>, hs: seq<Classifier>, done: set<int>, parts: map<int, Word>, exactly: bool)
    requires |hs| == |entries| == |snaps| && InRound(entries, snaps, done) && done != {} && done == parts.Keys
    requires AllAmended(entries, hs, parts, exactly)
    ensures AllReady(entries) && Total(entries, Snaps(entries)) < Total(entries, snaps)
    ensures forall k :: 0 <= k < |entries| && k !in parts ==> Snaps(entries)[k] == snaps[k]
    ensures exists k :: 0 <= k < |entries| && Corrected(entries[k].leaf, Snaps(entries)[k], hs[k])
  {
    hide Total, AllReady, Corrected, Amended;
    var k := AnElement(done);
    AmendedCorrected(entries[k].leaf, Snaps(entries)[k], hs[k], parts[k], exactly);
  }

  // ----- The run -----

  datatype Pick = PickAll | PickFirst | PickCheapest

  datatype Options = Options(pick: Pick, jumpExact: bool, intern: bool, cap: nat)

  datatype RunVerdict =
    | RunHolds(inv: seq<State>, profile: seq<Option<Classifier>>, ofLeaf: seq<int>)
    | RunViolation(trail: EventWord, final: seq<nat>)
    | RunCap(cap: nat, profile: seq<Option<Classifier>>, ofLeaf: seq<int>)
    | RunNoProgress(before: seq<Classifier>, after: seq<Classifier>)  // the source aborts

  /** `learned` lists the tables of the entries, one learner each. */
  datatype RunResult = RunResult(verdict: RunVerdict, refinements: nat, budget: nat, cexTotal: int, learned: seq<Lts>)

  function LearnedTables(entries: seq<Learner>): (ls: seq<Lts>)
    ensures |ls| == |entries| && forall k :: 0 <= k < |ls| ==> ls[k] == entries[k].leaf
  {
    seq(|entries|, k requires 0 <= k < |entries| => entries[k].leaf)
  }

  /** The sum of |Q| + 1 over the learned tables. */
  ghost function BudgetOf(ls: seq<Lts>): nat
    decreases |ls|
  {
    if ls == [] then 0 else BudgetOf(ls[..|ls| - 1]) + ls[|ls| - 1].nStates + 1
  }

  lemma {:induction false} BudgetOfTables(entries: seq<Learner>)
    ensures Budget(entries) == BudgetOf(LearnedTables(entries))
    decreases |entries|
  {
    if entries != [] {
      BudgetOfTables(entries[..|entries| - 1]);
      assert LearnedTables(entries)[..|entries| - 1] == LearnedTables(entries[..|entries| - 1]);
    }
  }

  ghost predicate IsComponent(m: Model, l: Lts) {
    exists i :: 0 <= i < |m.leaves| && i !in m.propLeaves && m.leaves[i] == l
  }

  /** The learned tables are those of the non-property leaves, each once when interning. */
  ghost predicate LearnsLeaves(m: Model, intern: bool, ls: seq<Lts>) {
    && (forall i :: 0 <= i < |m.leaves| && i !in m.propLeaves ==> m.leaves[i] in ls)
    && (forall k :: 0 <= k < |ls| ==> IsComponent(m, ls[k]))
    && (intern ==> Distinct(ls))
  }

  lemma SharedDistinct(entries: seq<Learner>, ls: seq<Lts>)
    requires Shared(entries) && |ls| == |entries| && forall k :: 0 <= k < |ls| ==> ls[k] == entries[k].leaf
    ensures Distinct(ls)
  {
    forall i, j | 0 <= i < j < |ls|
      ensures ls[i] != ls[j]
    {
      assert entries[i].leaf != entries[j].leaf;
    }
  }

  lemma TablesAreLeaves(m: Model, intern: bool, entries: seq<Learner>, ofLeaf: seq<int>)
    requires Assigned(m, entries, ofLeaf, |m.leaves|) && (intern ==> Shared(entries))
    ensures LearnsLeaves(m, intern, LearnedTables(entries))
  {
    var ls := LearnedTables(entries);
    forall i | 0 <= i < |m.leaves| && i !in m.propLeaves
      ensures m.leaves[i] in ls
    {
      assert ls[ofLeaf[i]] == m.leaves[i] && ls[ofLeaf[i]] in ls;
    }
    forall k | 0 <= k < |ls|
      ensures IsComponent(m, ls[k])
    {
      assert k in ofLeaf;
      var i :| 0 <= i < |ofLeaf| && ofLeaf[i] == k;
      assert m.leaves[i] == ls[k];
    }
    if intern {
      SharedDistinct(entries, ls);
    }
  }

  /** Which culprits of a witness to refine: all, the first, or the one with the fewest classes. */
  method ChooseCulprits(pick: Pick, culprits: seq<nat>, profile: seq<Option<Classifier>>) returns (chosen: seq<nat>)
    requires culprits != [] && forall c :: c in culprits ==> c < |profile| && profile[c].Some?
    ensures chosen != [] && forall c :: c in chosen ==> c in culprits
    ensures pick == PickAll ==> chosen == culprits
    ensures pick == PickFirst ==> chosen == [culprits[0]]
    ensures pick == PickCheapest ==>
              && |chosen| == 1 && chosen[0] in culprits
              && forall c :: c in culprits ==> profile[chosen[0]].value.K() <= profile[c].value.K()
  {
    match pick
    case PickAll =>
      chosen := culprits;
    case PickFirst =>
      chosen := [culprits[0]];
    case PickCheapest =>
      var best := culprits[0];
      for i := 0 to |culprits|
        invariant best in culprits
        invariant forall j :: 0 <= j < i ==> profile[best].value.K() <= profile[culprits[j]].value.K()
      {
        assert culprits[i] in culprits;
        if profile[culprits[i]].value.K() < profile[best].value.K() {
          best := culprits[i];
        }
      }
      chosen := [best];
  }

  /** The sum of the indices of a list of classifiers. */
  ghost function IndexSum(hs: seq<Classifier>): nat
    decreases |hs|
  {
    if hs == [] then 0 else IndexSum(hs[..|hs| - 1]) + hs[|hs| - 1].K()
  }

  /** The sum of the published indices. */
  method IndexTotal(entries: seq<Learner>) returns (total: nat, hs: seq<Classifier>)
    requires Distinct(entries) && AllReady(entries)
    modifies entries
    ensures AllReady(entries) && Snaps(entries) == old(Snaps(entries))
    ensures |hs| == |entries| && AllDescribed(entries, Snaps(entries), hs) && total == IndexSum(hs)
    ensures Certifies(LearnedTables(entries), hs)
  {
    hide Ready, AllReady, AllDescribed, Distinct;
    hs := PublishAll(entries);
    DescribedCertified(entries, hs);
    total := 0;
    for k := 0 to |hs|
      invariant total == IndexSum(hs[..k])
    {
      assert hs[..k + 1][..k] == hs[..k];
      total := total + hs[k].K();
    }
    assert hs[..|hs|] == hs;
  }

  /** Every classifier accepts the traces of its table. */
  ghost predicate Certifies(ls: seq<Lts>, hs: seq<Classifier>) {
    |ls| == |hs| && forall k :: 0 <= k < |ls| ==> Certified(ls[k], hs[k])
  }

  lemma DescribedCertified(entries: seq<Learner>, hs: seq<Classifier>)
    requires AllReady(entries) && |hs| == |entries| && AllDescribed(entries, Snaps(entries), hs)
    ensures Certifies(LearnedTables(entries), hs)
  {
    forall k | 0 <= k < |entries|
      ensures Certified(entries[k].leaf, hs[k])
    {
      DescribedAt(entries, Snaps(entries), hs, k);
      ReadyAt(entries, k);
      assert entries[k].Publishes(hs[k]);
    }
  }

  lemma DescribedUnique(entries: seq<Learner>, snaps: seq<Snapshot>, hs: seq<Classifier>, hs': seq<Classifier>)
    requires |hs| == |hs'| == |entries| == |snaps|
    requires AllDescribed(entries, snaps, hs) && AllDescribed(entries, snaps, hs')
    ensures hs == hs'
  {
    forall k | 0 <= k < |hs|
      ensures hs[k] == hs'[k]
    {
      DescribedAt(entries, snaps, hs, k);
      DescribedAt(entries, snaps, hs', k);
      PublishedUnique(entries[k].leaf, snaps[k].S, snaps[k].E, snaps[k].virgin, hs[k], hs'[k]);
    }
  }

  /** A spurious word of `h` that `h'` rejects. */
  ghost predicate Improves(l: Lts, h: Classifier, h': Classifier) {
    Fits(l, h') && exists u :: Spurious(l, h, u) && !h'.Accepts(u)
  }

  /** A refinement round corrected some classifier, yet the classifiers together have no more classes than before. */
  ghost predicate Stalled(ls: seq<Lts>, before: seq<Classifier>, after: seq<Classifier>) {
    && Certifies(ls, before) && Certifies(ls, after) && IndexSum(after) <= IndexSum(before)
    && exists k :: 0 <= k < |ls| && Improves(ls[k], before[k], after[k])
  }

  lemma CorrectedImproves(l: Lts, s: Snapshot, h: Classifier, h': Classifier)
    requires Corrected(l, s, h) && Describes(l, s, h') && Fits(l, h')
    ensures Improves(l, h, h')
  {
    var u :| Spurious(l, h, u) && Observes(l, s.S, s.E) && RejectedBy(l, s.S, s.E, s.virgin, u);
    assert !h'.Accepts(u);
  }

  lemma RoundAdvances(entries: seq<Learner>, snaps: seq<Snapshot>, before: seq<Classifier>, after: seq<Classifier>)
    requires |before| == |after| == |entries| == |snaps| && AllDescribed(entries, snaps, after)
    requires Certifies(LearnedTables(entries), before) && Certifies(LearnedTables(entries), after)
    requires exists k :: 0 <= k < |entries| && Corrected(entries[k].leaf, snaps[k], before[k])
    ensures Advances(LearnedTables(entries), before, after)
  {
    hide Corrected, AllDescribed, Improves;
    var k :| 0 <= k < |entries| && Corrected(entries[k].leaf, snaps[k], before[k]);
    DescribedAt(entries, snaps, after, k);
    CorrectedImproves(entries[k].leaf, snaps[k], before[k], after[k]);
    assert Improves(LearnedTables(entries)[k], before[k], after[k]);
  }

  /** The end states of a violation: every leaf fires its part of the witness. */
  method FinalStates(m: Model, w: EventWord) returns (final: seq<nat>)
    requires ValidModel(m) && Over(w, |m.events|) && Fireable(m, w)
    ensures |final| == |m.leaves|
    ensures forall i :: 0 <= i < |final| ==> final[i] == At(m.leaves, m.events, w, i)
  {
    final := [];
    for i := 0 to |m.leaves|
      invariant |final| == i
      invariant forall j :: 0 <= j < i ==> final[j] == At(m.leaves, m.events, w, j)
    {
      var u := ProjectOnto(m, w, i);
      ProjectOver(m.leaves, m.events, w, i);
      var q := m.leaves[i].Fire(u);
      // "validated witness stopped refiring" is never reported:
      assert At(m.leaves, m.events, w, i) >= 0;
      assert q.Some?;
      final := final + [q.value];
    }
  }

  lemma CulpritsAreSpurious(m: Model, entries: seq<Learner>, ofLeaf: seq<int>, snaps: seq<Snapshot>,
                            hs: seq<Classifier>, w: EventWord, c: nat)
    requires ValidModel(m) && Assigned(m, entries, ofLeaf, |m.leaves|)
    requires |hs| == |entries| == |snaps| && AllDescribed(entries, snaps, hs)
    requires Profiled(m, PerLeaf(ofLeaf, hs))
    requires var comps := Components(m, PerLeaf(ofLeaf, hs));
             Synchronised(comps, m.events, m.mon) && Witness(comps, m.events, m.mon, w)
    requires c < |m.leaves| && At(m.leaves, m.events, w, c) < 0 && c !in m.propLeaves
    ensures Culprit(m, entries, ofLeaf, hs, w, c)
  {
    CulpritAccepts(m, PerLeaf(ofLeaf, hs), w, c);
    DescribedAt(entries, snaps, hs, ofLeaf[c]);
  }

  /** One round: a verdict, or a witness with the culprits to refine. */
  datatype RoundResult = Decided(verdict: RunVerdict) | Refuted(trail: EventWord, culprits: seq<nat>)

  /** What a verdict claims. */
  ghost predicate Justified(m: Model, v: RunVerdict) {
    && ValidModel(m)
    && match v
       case RunHolds(inv, profile, ofLeaf) =>
         && (forall w :: !Violates(m, w))
         && SearchProfile(m, ofLeaf, profile)
         && Inductive(Components(m, profile), m.events, m.mon, Elements(inv)) && Distinct(inv)
         && (forall s :: s in inv ==> s.monitor < |m.mon.delta| && Placed(Components(m, profile), s.xs))
         && (forall s :: s in inv ==> ReachedState(Components(m, profile), m.events, m.mon, s))
       case RunViolation(w, final) =>
         && Violates(m, w) && |final| == |m.leaves|
         && forall i :: 0 <= i < |final| ==> final[i] == At(m.leaves, m.events, w, i)
       case RunCap(cap, profile, ofLeaf) =>
         && SearchProfile(m, ofLeaf, profile) && SafelyCrowded(Components(m, profile), m.events, m.mon, cap)
       case RunNoProgress(before, after) => IndexSum(after) <= IndexSum(before)
  }

  /** A search that was not capped has listed no more states than the cap, or the initial one alone. */
  ghost predicate WithinCap(v: RunVerdict, cap: nat) {
    match v
    case RunHolds(inv, _, _) => |inv| <= AtLeastOne(cap)
    case RunCap(c, _, _) => c == cap
    case _ => true
  }

  /** The profile of a verdict is made of these classifiers. */
  ghost predicate FromProfile(v: RunVerdict, hs: seq<Classifier>) {
    v.RunHolds? || v.RunCap? ==> (forall i :: 0 <= i < |v.ofLeaf| ==> v.ofLeaf[i] < |hs|) && v.profile == PerLeaf(v.ofLeaf, hs)
  }

  /** Some classifier of the list is corrected in the next. */
  ghost predicate Advances(ls: seq<Lts>, before: seq<Classifier>, after: seq<Classifier>) {
    && Certifies(ls, before) && Certifies(ls, after)
    && exists k :: 0 <= k < |ls| && Improves(ls[k], before[k], after[k])
  }

  /** What was published: chaos at first, something corrected by every refinement, at last what the verdict rests on. */
  ghost predicate Chronicle(ls: seq<Lts>, history: seq<seq<Classifier>>, refinements: nat) {
    && |history| == refinements + 1
    && Certifies(ls, history[0]) && (forall k :: 0 <= k < |ls| ==> history[0][k] == Chaos(ls[k].nLetters))
    && forall j :: 0 <= j < refinements ==> Advances(ls, history[j], history[j + 1])
  }

  /** The chronicle so far, ending in the last classifiers. */
  ghost predicate Recorded(ls: seq<Lts>, history: seq<seq<Classifier>>, refinements: nat, last: seq<Classifier>) {
    Chronicle(ls, history, refinements) && last == history[refinements] && Growing(history)
  }

  /** The classes grow in number with every round. */
  ghost predicate Growing(history: seq<seq<Classifier>>) {
    forall j :: 1 <= j < |history| ==> IndexSum(history[j - 1]) < IndexSum(history[j])
  }

  ghost function Recording(history: seq<seq<Classifier>>, now: seq<Classifier>): seq<seq<Classifier>> {
    history + [now]
  }

  /** The verdict rests on the last classifiers, and a run goes on as long as the classes grow in number and no longer. */
  ghost predicate Concludes(v: RunVerdict, history: seq<seq<Classifier>>) {
    && |history| >= 1
    && FromProfile(v, history[|history| - 1])
    && (!v.RunNoProgress? ==> Growing(history))
    && (v.RunNoProgress? ==>
          && |history| >= 2 && Growing(history[..|history| - 1])
          && v.before == history[|history| - 2] && v.after == history[|history| - 1])
  }

  ghost predicate Unexposed(snaps: seq<Snapshot>) {
    forall k :: 0 <= k < |snaps| ==> snaps[k].virgin
  }

  lemma VirginUnexposed(entries: seq<Learner>)
    requires AllVirgin(entries)
    ensures Unexposed(Snaps(entries))
  {
  }

  lemma ChronicleStarts(entries: seq<Learner>, snaps: seq<Snapshot>, hs: seq<Classifier>)
    requires Unexposed(snaps) && |hs| == |entries| == |snaps| && AllDescribed(entries, snaps, hs)
    requires Certifies(LearnedTables(entries), hs)
    ensures Recorded(LearnedTables(entries), [hs], 0, hs)
  {
    forall k | 0 <= k < |entries|
      ensures hs[k] == Chaos(entries[k].leaf.nLetters)
    {
      DescribedAt(entries, snaps, hs, k);
    }
  }

  lemma ChronicleGrows(ls: seq<Lts>, history: seq<seq<Classifier>>, n: nat, before: seq<Classifier>, after: seq<Classifier>)
    requires Recorded(ls, history, n, before) && Advances(ls, before, after)
    ensures Chronicle(ls, Recording(history, after), n + 1)
    ensures IndexSum(before) < IndexSum(after) ==> Recorded(ls, Recording(history, after), n + 1, after)
  {
    hide Advances, Certifies, IndexSum;
    var more := Recording(history, after);
    forall j | 0 <= j < n + 1
      ensures Advances(ls, more[j], more[j + 1])
    {
      if j < n {
        assert more[j] == history[j] && more[j + 1] == history[j + 1];
      }
    }
  }

  /** The profile a search runs on: the published classifiers, certified, one entry per table. */
  ghost predicate SearchProfile(m: Model, ofLeaf: seq<int>, profile: seq<Option<Classifier>>) {
    && Profiled(m, profile) && AllCertified(m, profile)
    && |ofLeaf| == |m.leaves|
    && (forall i, j :: 0 <= i < |ofLeaf| && 0 <= j < |ofLeaf| && ofLeaf[i] == ofLeaf[j] >= 0 ==>
          m.leaves[i] == m.leaves[j] && profile[i] == profile[j])
    && (forall i :: 0 <= i < |ofLeaf| ==> (ofLeaf[i] < 0 <==> i in m.propLeaves))
    && SmallProfile(m, profile)
  }

  /** Every classifier has at most one class more than its leaf has states. */
  ghost predicate SmallProfile(m: Model, profile: seq<Option<Classifier>>)
    requires |profile| == |m.leaves|
  {
    forall i :: 0 <= i < |profile| && profile[i].Some? ==> profile[i].value.K() <= m.leaves[i].nStates + 1
  }

  lemma PerLeafSmall(m: Model, entries: seq<Learner>, ofLeaf: seq<int>, snaps: seq<Snapshot>, hs: seq<Classifier>)
    requires Assigned(m, entries, ofLeaf, |m.leaves|)
    requires |hs| == |entries| == |snaps| && AllDescribed(entries, snaps, hs)
    ensures SmallProfile(m, PerLeaf(ofLeaf, hs))
  {
    forall i | 0 <= i < |ofLeaf| && ofLeaf[i] >= 0
      ensures hs[ofLeaf[i]].K() <= m.leaves[i].nStates + 1
    {
      var k := ofLeaf[i];
      DescribedAt(entries, snaps, hs, k);
      PublishedIndex(entries[k].leaf, snaps[k].S, snaps[k].E, snaps[k].virgin, hs[k]);
    }
  }

  /** What the abstract product of the first `n` leaves can come to: |Q| + 1 classes for each but the property leaves. */
  function Room(m: Model, n: nat): nat
    requires n <= |m.leaves|
  {
    if n == 0 then 1 else Room(m, n - 1) * (if n - 1 in m.propLeaves then 1 else m.leaves[n - 1].nStates + 1)
  }

  /** A cap that holds every abstract state. */
  ghost predicate Ample(m: Model, cap: nat) {
    cap >= |m.mon.delta| * Room(m, |m.leaves|)
  }

  lemma TimesGrows(a: nat, b: nat, c: nat, d: nat)
    requires a <= b && c <= d
    ensures a * c <= b * d
  {
    assert a * c <= b * c && b * c <= b * d;
  }

  lemma {:induction false} SizesWithin(m: Model, profile: seq<Option<Classifier>>, n: nat)
    requires Profiled(m, profile) && SmallProfile(m, profile) && n <= |m.leaves|
    ensures Sizes(Components(m, profile)[..n]) <= Room(m, n)
    decreases n
  {
    if n > 0 {
      var comps := Components(m, profile);
      SizesWithin(m, profile, n - 1);
      assert comps[..n][..n - 1] == comps[..n - 1];
      TimesGrows(Sizes(comps[..n - 1]), Room(m, n - 1), comps[n - 1].nStates,
                 if n - 1 in m.propLeaves then 1 else m.leaves[n - 1].nStates + 1);
    }
  }

  /** A cap that holds every abstract state is never passed. */
  lemma CapWithin(m: Model, v: RunVerdict)
    requires v.RunCap? && Justified(m, v)
    ensures v.cap < |m.mon.delta| * Room(m, |m.leaves|)
  {
    var comps := Components(m, v.profile);
    ComponentsSynchronised(m, v.profile);
    SafelyCrowdedIs(comps, m.events, m.mon, v.cap);
    CrowdedBound(comps, m.events, m.mon, v.cap);
    SizesWithin(m, v.profile, |m.leaves|);
    assert comps[..|m.leaves|] == comps;
    TimesGrows(|m.mon.delta|, |m.mon.delta|, Sizes(comps), Room(m, |m.leaves|));
  }

  lemma VerdictConcludes(m: Model, cap: nat, ls: seq<Lts>, v: RunVerdict, history: seq<seq<Classifier>>, n: nat, last: seq<Classifier>)
    requires ValidModel(m) && Justified(m, v) && WithinCap(v, cap)
    requires !v.RunNoProgress? && Recorded(ls, history, n, last) && FromProfile(v, last)
    ensures Chronicle(ls, history, n) && Concludes(v, history)
    ensures Ample(m, cap) ==> !v.RunCap?
  {
    hide Justified, FromProfile, Advances, Certifies;
    if v.RunCap? {
      CapWithin(m, v);
    }
  }

  lemma StallConcludes(m: Model, cap: nat, ls: seq<Lts>, history: seq<seq<Classifier>>, n: nat,
                       before: seq<Classifier>, after: seq<Classifier>)
    requires ValidModel(m) && Recorded(ls, history, n, before) && Advances(ls, before, after) && IndexSum(after) <= IndexSum(before)
    ensures var v := RunNoProgress(before, after);
            && Justified(m, v) && WithinCap(v, cap) && Stalled(ls, before, after)
            && Chronicle(ls, Recording(history, after), n + 1) && Concludes(v, Recording(history, after))
  {
    ChronicleGrows(ls, history, n, before, after);
    var more := Recording(history, after);
    assert more[..|more| - 1] == history;
    hide Improves, Certifies, IndexSum;
  }

  lemma MakeProfile(m: Model, entries: seq<Learner>, ofLeaf: seq<int>, hs: seq<Classifier>)
    requires Assigned(m, entries, ofLeaf, |m.leaves|) && AllReady(entries)
    requires |hs| == |entries| && AllDescribed(entries, Snaps(entries), hs)
    ensures SearchProfile(m, ofLeaf, PerLeaf(ofLeaf, hs))
  {
    PerLeafProfiled(m, entries, ofLeaf, Snaps(entries), hs);
    PerLeafCertified(m, entries, ofLeaf, hs);
    PerLeafSmall(m, entries, ofLeaf, Snaps(entries), hs);
  }

  /** Search the abstract product; an exhausted search proves the model safe. */
  method Search(m: Model, ofLeaf: seq<int>, profile: seq<Option<Classifier>>, cap: nat) returns (r: Outcome<State>)
    requires ValidModel(m) && SearchProfile(m, ofLeaf, profile)
    ensures Synchronised(Components(m, profile), m.events, m.mon)
    ensures r.Found? ==> Witness(Components(m, profile), m.events, m.mon, r.trail)
    ensures r.Exhausted? ==> Justified(m, RunHolds(r.visited, profile, ofLeaf)) && |r.visited| <= AtLeastOne(cap)
    ensures r.Capped? ==> Justified(m, RunCap(cap, profile, ofLeaf))
  {
    ComponentsSynchronised(m, profile);
    var comps := Components(m, profile);
    r := WalkProduct(comps, m.events, m.mon, cap);
    if r.Exhausted? {
      InductiveSafe(comps, m.events, m.mon, Elements(r.visited));
      AbstractionSound(m, profile);
    }
  }

  /** Replay a witness: a real violation, or leaves to refine. */
  method Judge(m: Model, ofLeaf: seq<int>, profile: seq<Option<Classifier>>, w: EventWord, pick: Pick)
    returns (r: RoundResult)
    requires ValidModel(m) && SearchProfile(m, ofLeaf, profile)
    requires Synchronised(Components(m, profile), m.events, m.mon) && Witness(Components(m, profile), m.events, m.mon, w)
    ensures r.Decided? ==> Justified(m, r.verdict) && r.verdict.RunViolation?
    ensures r.Refuted? ==>
              && r.trail == w && r.culprits != []
              && forall i :: 0 <= i < |r.culprits| ==>
                   && r.culprits[i] < |m.leaves| && r.culprits[i] !in m.propLeaves
                   && At(m.leaves, m.events, w, r.culprits[i]) < 0
  {
    var culprits := Replay(m, w);
    if culprits == [] {
      assert Fireable(m, w);
      var final := FinalStates(m, w);
      r := Decided(RunViolation(w, final));
    } else {
      var chosen := ChooseCulprits(pick, culprits, profile);
      assert forall i :: 0 <= i < |chosen| ==> chosen[i] in culprits;
      r := Refuted(w, chosen);
    }
  }

  method SearchRound(m: Model, entries: seq<Learner>, ofLeaf: seq<int>, hs: seq<Classifier>, opt: Options)
    returns (r: RoundResult)
    requires ValidModel(m) && Assigned(m, entries, ofLeaf, |m.leaves|) && AllReady(entries)
    requires |hs| == |entries| && AllDescribed(entries, Snaps(entries), hs)
    ensures r.Decided? ==> Justified(m, r.verdict) && !r.verdict.RunNoProgress?
    ensures r.Decided? ==> WithinCap(r.verdict, opt.cap) && FromProfile(r.verdict, hs)
    ensures r.Refuted? ==>
              && Over(r.trail, |m.events|) && r.culprits != []
              && forall i :: 0 <= i < |r.culprits| ==> Culprit(m, entries, ofLeaf, hs, r.trail, r.culprits[i])
  {
    hide Ready, AllReady, Total, PotentialOf, AllDescribed, Spurious;
    MakeProfile(m, entries, ofLeaf, hs);
    var found := Search(m, ofLeaf, PerLeaf(ofLeaf, hs), opt.cap);
    match found
    case Capped(_) =>
      r := Decided(RunCap(opt.cap, PerLeaf(ofLeaf, hs), ofLeaf));
    case Exhausted(inv) =>
      r := Decided(RunHolds(inv, PerLeaf(ofLeaf, hs), ofLeaf));
    case Found(w) =>
      r := Judge(m, ofLeaf, PerLeaf(ofLeaf, hs), w, opt.pick);
      if r.Refuted? {
        forall i | 0 <= i < |r.culprits|
          ensures Culprit(m, entries, ofLeaf, hs, w, r.culprits[i])
        {
          CulpritsAreSpurious(m, entries, ofLeaf, Snaps(entries), hs, w, r.culprits[i]);
        }
      }
  }

  /** One round: a verdict, or a refinement that corrects some classifier and uses up some potential. */
  method OneRound(m: Model, entries: seq<Learner>, ofLeaf: seq<int>, opt: Options)
    returns (verdict: Option<RunVerdict>, ghost hs: seq<Classifier>)
    requires ValidModel(m) && Assigned(m, entries, ofLeaf, |m.leaves|)
    requires Distinct(entries) && AllReady(entries)
    modifies entries
    ensures AllReady(entries) && |hs| == |entries| && AllDescribed(entries, old(Snaps(entries)), hs)
    ensures verdict.Some? ==> Justified(m, verdict.value) && Snaps(entries) == old(Snaps(entries))
    ensures verdict.Some? ==> !verdict.value.RunNoProgress? && WithinCap(verdict.value, opt.cap)
    ensures verdict.Some? ==> FromProfile(verdict.value, hs)
    ensures verdict.None? ==> Total(entries, Snaps(entries)) < old(Total(entries, Snaps(entries)))
    ensures verdict.None? ==> exists k :: 0 <= k < |entries| && Corrected(entries[k].leaf, Snaps(entries)[k], hs[k])
  {
    hide Total, AllReady, AllDescribed, Corrected, Justified, Distinct, Culprit;
    var published := PublishAll(entries);
    hs := published;
    var round := SearchRound(m, entries, ofLeaf, published, opt);
    match round
    case Decided(v) =>
      verdict := Some(v);
    case Refuted(w, culprits) =>
      CulpritsKnown(m, entries, ofLeaf, published, w, culprits);
      RefineRound(m, entries, ofLeaf, published, w, culprits, opt.jumpExact);
      verdict := None;
  }

  /** A round and, after a refinement, the sum of the indices published then. */
  method RoundAndIndex(m: Model, entries: seq<Learner>, ofLeaf: seq<int>, opt: Options, ghost last: seq<Classifier>)
    returns (verdict: Option<RunVerdict>, index: nat, now: seq<Classifier>)
    requires ValidModel(m) && Assigned(m, entries, ofLeaf, |m.leaves|)
    requires Distinct(entries) && AllReady(entries)
    requires |last| == |entries| && AllDescribed(entries, Snaps(entries), last) && Certifies(LearnedTables(entries), last)
    modifies entries
    ensures AllReady(entries) && Total(entries, Snaps(entries)) >= 0
    ensures verdict.Some? ==>
              && Justified(m, verdict.value) && !verdict.value.RunNoProgress? && WithinCap(verdict.value, opt.cap)
              && FromProfile(verdict.value, last) && Snaps(entries) == old(Snaps(entries))
    ensures verdict.None? ==>
              && Total(entries, Snaps(entries)) < old(Total(entries, Snaps(entries)))
              && |now| == |entries| && AllDescribed(entries, Snaps(entries), now) && index == IndexSum(now)
              && Certifies(LearnedTables(entries), now) && Advances(LearnedTables(entries), last, now)
  {
    hide Total, AllReady, AllDescribed, Corrected, Justified, Distinct, Certifies, IndexSum, Assigned, Advances, FromProfile,
      WithinCap, LearnedTables, Snaps;
    index, now := 0, [];
    ghost var snaps, hs := Snaps(entries), last;
    verdict, hs := OneRound(m, entries, ofLeaf, opt);
    DescribedUnique(entries, snaps, hs, last);
    TotalNonNegative(entries);
    if verdict.None? {
      index, now := IndexTotal(entries);
      RoundAdvances(entries, Snaps(entries), last, now);
    }
  }

  /** The verification loop: every verdict is justified, and the refinement rounds stay within the budget. */
  method Verify(m: Model, opt: Options)
    returns (r: RunResult, ghost learners: seq<Learner>, ghost history: seq<seq<Classifier>>)
    requires ValidModel(m)
    ensures Justified(m, r.verdict)
    ensures r.refinements <= r.budget && r.cexTotal <= r.budget
    ensures LearnsLeaves(m, opt.intern, r.learned) && r.budget == BudgetOf(r.learned)
    ensures (forall k :: 0 <= k < |learners| ==> fresh(learners[k])) && Distinct(learners)
    ensures r.learned == LearnedTables(learners) && r.cexTotal == CexTotal(learners)
    ensures Chronicle(r.learned, history, r.refinements) && Concludes(r.verdict, history)
    ensures WithinCap(r.verdict, opt.cap)
    ensures Ample(m, opt.cap) ==> !r.verdict.RunCap?
    ensures r.verdict.RunNoProgress? ==> r.refinements > 0 && Stalled(r.learned, r.verdict.before, r.verdict.after)
  {
    hide Total, AllReady, AllDescribed, Corrected, Justified, Distinct, Stalled, Certifies, IndexSum, Assigned, Ample, Advances,
      AllVirgin, Unexposed, FromProfile, PerLeaf, Recorded, Chronicle, Concludes, WithinCap, CexTotal, Budget, LearnsLeaves,
      BudgetOf, LearnedTables, Snaps, Recording, Growing;
    var entries, ofLeaf := BuildProfile(m, opt.intern);
    TablesAreLeaves(m, opt.intern, entries, ofLeaf);
    BudgetOfTables(entries);
    VirginUnexposed(entries);
    var lastIndex, last := IndexTotal(entries);
    ChronicleStarts(entries, Snaps(entries), last);
    learners, history := entries, [last];
    var refinements: nat := 0;
    while true
      invariant (forall k :: 0 <= k < |entries| ==> fresh(entries[k])) && Distinct(entries) && AllReady(entries)
      invariant refinements + Total(entries, Snaps(entries)) <= Budget(entries)
      invariant |last| == |entries| && AllDescribed(entries, Snaps(entries), last) && lastIndex == IndexSum(last)
      invariant Certifies(LearnedTables(entries), last) && Recorded(LearnedTables(entries), history, refinements, last)
      decreases Total(entries, Snaps(entries))
    {
      var verdict, index, now := RoundAndIndex(m, entries, ofLeaf, opt, last);
      // "global budget exceeded" is never reported:
      CexWithinBudget(entries);
      if verdict.Some? {
        VerdictConcludes(m, opt.cap, LearnedTables(entries), verdict.value, history, refinements, last);
        return RunResult(verdict.value, refinements, Budget(entries), CexTotal(entries), LearnedTables(entries)), entries, history;
      }
      ghost var more := Recording(history, now);
      if index <= lastIndex {
        StallConcludes(m, opt.cap, LearnedTables(entries), history, refinements, last, now);
        return RunResult(RunNoProgress(last, now), refinements + 1, Budget(entries), CexTotal(entries), LearnedTables(entries)),
               entries, more;
      }
      ChronicleGrows(LearnedTables(entries), history, refinements, last, now);
      refinements, history, lastIndex, last := refinements + 1, more, index, now;
    }
  }

  /** Parity with the monolithic oracle: the two verdicts never contradict each other. */
  method CrossCheck(m: Model, opt: Options, cap: nat) returns (r: RunResult, v: Verdict)
    requires ValidModel(m)
    ensures r.verdict.RunHolds? ==> !v.Violation?
    ensures r.verdict.RunViolation? ==> !v.Holds?
  {
    ghost var learners, history;
    r, learners, history := Verify(m, opt);
    v := Mono(m, cap);
    match r.verdict
    case RunViolation(w, _) =>
      assert Violates(m, w);
    case _ =>
  }
}
