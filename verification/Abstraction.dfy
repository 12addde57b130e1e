/**
 The abstract product: every non-property leaf replaced by its published
 classifier, every property leaf by the monitor alone (src/cegar/loop.cc).
 */
module Abstraction {
  import opened Words
  import opened Finite
  import opened Leaves
  import opened Exploration
  import opened Classifiers
  import opened Teacher
  import opened Models

  /** A classifier as a component: a step into the dead class is undefined. */
  function AsLts(h: Classifier): Lts {
    Lts(|h.act|, h.nLetters,
        seq(|h.act|, c requires 0 <= c < |h.act| =>
          seq(|h.act[c]|, a requires 0 <= a < |h.act[c]| => if h.Live(h.act[c][a]) then h.act[c][a] as int else -1)))
  }

  lemma AsLtsValid(h: Classifier)
    requires h.WellFormed()
    ensures AsLts(h).Valid()
  {
  }

  /** The component runs where the classifier walks, as long as it accepts. */
  lemma {:induction false} AsLtsRuns(h: Classifier, w: Word)
    requires h.WellFormed() && h.DeadAbsorbs() && h.Live(0) && Over(w, h.nLetters)
    ensures AsLts(h).Valid() && AsLts(h).Run(0, w) == if h.Accepts(w) then h.From(0, w) as int else -1
    decreases |w|
  {
    if w != [] {
      AsLtsRuns(h, Init(w));
    }
  }

  /** What the abstraction puts in the place of a property leaf: one state, every letter allowed. */
  function OneState(n: nat): Lts {
    Lts(1, n, [seq(n, _ => 0)])
  }

  lemma {:induction false} OneStateRuns(n: nat, w: Word)
    requires Over(w, n)
    ensures OneState(n).Valid() && OneState(n).Run(0, w) == 0
    decreases |w|
  {
    if w != [] {
      OneStateRuns(n, Init(w));
    }
  }

  /** A class table for every leaf but the property leaves. */
  ghost predicate Tabled(m: Model, hs: seq<Option<Classifier>>) {
    && |hs| == |m.leaves|
    && (forall i :: 0 <= i < |hs| ==> (hs[i].None? <==> i in m.propLeaves))
    && (forall i :: 0 <= i < |hs| && hs[i].Some? ==>
          hs[i].value.WellFormed() && hs[i].value.nLetters == m.leaves[i].nLetters)
  }

  /** ... and the tables are canonical classifiers. */
  ghost predicate Profiled(m: Model, hs: seq<Option<Classifier>>) {
    && Tabled(m, hs)
    && forall i :: 0 <= i < |hs| && hs[i].Some? ==> hs[i].value.Canonical() && hs[i].value.Live(0)
  }

  function Components(m: Model, hs: seq<Option<Classifier>>): seq<Lts>
    requires |hs| == |m.leaves|
  {
    seq(|hs|, i requires 0 <= i < |hs| =>
      match hs[i]
      case Some(h) => AsLts(h)
      case None => OneState(m.leaves[i].nLetters))
  }

  lemma ComponentsSynchronised(m: Model, hs: seq<Option<Classifier>>)
    requires ValidModel(m) && Tabled(m, hs)
    ensures Synchronised(Components(m, hs), m.events, m.mon)
  {
    var comps := Components(m, hs);
    forall i | 0 <= i < |comps|
      ensures comps[i].Valid() && comps[i].nLetters == m.leaves[i].nLetters
    {
      if hs[i].Some? {
        AsLtsValid(hs[i].value);
      } else {
        OneStateRuns(m.leaves[i].nLetters, []);
      }
    }
    forall e | 0 <= e < |m.events|
      ensures FitsEvent(comps, m.events[e])
    {
      assert FitsEvent(m.leaves, m.events[e]);
    }
  }

  /** An abstracted leaf follows `w` exactly when its classifier accepts the projection. */
  lemma ComponentAt(m: Model, hs: seq<Option<Classifier>>, w: EventWord, i: nat)
    requires ValidModel(m) && Profiled(m, hs) && Over(w, |m.events|) && i < |m.leaves|
    ensures Synchronised(Components(m, hs), m.events, m.mon)
    ensures Over(Project(m.events, w, i), m.leaves[i].nLetters)
    ensures At(Components(m, hs), m.events, w, i) >= 0 <==>
            (hs[i].Some? ==> hs[i].value.Accepts(Project(m.events, w, i)))
  {
    ComponentsSynchronised(m, hs);
    ProjectOver(m.leaves, m.events, w, i);
    var u := Project(m.events, w, i);
    if hs[i].Some? {
      AsLtsRuns(hs[i].value, u);
    } else {
      OneStateRuns(m.leaves[i].nLetters, u);
    }
  }

  /** A component built from any certified table follows whatever its leaf fires. */
  lemma {:induction false} CertifiedFollows(l: Lts, h: Classifier, w: Word)
    requires Certified(l, h) && Over(w, l.nLetters) && l.Fires(w)
    ensures AsLts(h).Valid() && AsLts(h).Run(0, w) == h.From(0, w)
    decreases |w|
  {
    AsLtsValid(h);
    if w != [] {
      assert w == Init(w) + [Last(w)];
      FiresPrefix(l, Init(w), [Last(w)]);
      CertifiedFollows(l, h, Init(w));
      assert h.Accepts(w);
    }
  }

  /** Every classifier over-approximates its leaf. */
  ghost predicate AllCertified(m: Model, hs: seq<Option<Classifier>>)
    requires |hs| == |m.leaves|
  {
    forall i :: 0 <= i < |hs| && hs[i].Some? ==> Certified(m.leaves[i], hs[i].value)
  }

  /** What the leaves can do, the certified abstraction can do. */
  lemma AbstractionFollows(m: Model, hs: seq<Option<Classifier>>, w: EventWord)
    requires ValidModel(m) && Tabled(m, hs) && AllCertified(m, hs) && Over(w, |m.events|)
    requires Fireable(m, w)
    ensures Synchronised(Components(m, hs), m.events, m.mon) && Enabled(Components(m, hs), m.events, m.mon, w)
  {
    ComponentsSynchronised(m, hs);
    FireableEnabled(m, w);
    forall i | 0 <= i < |m.leaves|
      ensures At(Components(m, hs), m.events, w, i) >= 0
    {
      assert At(m.leaves, m.events, w, i) >= 0;
      ProjectOver(m.leaves, m.events, w, i);
      if hs[i].Some? {
        CertifiedFollows(m.leaves[i], hs[i].value, Project(m.events, w, i));
      } else {
        OneStateRuns(m.leaves[i].nLetters, Project(m.events, w, i));
      }
    }
  }

  /** A safe certified abstraction proves the model safe. */
  lemma AbstractionSound(m: Model, hs: seq<Option<Classifier>>)
    requires ValidModel(m) && Tabled(m, hs) && AllCertified(m, hs)
    requires Synchronised(Components(m, hs), m.events, m.mon) && Safe(Components(m, hs), m.events, m.mon)
    ensures forall w :: !Violates(m, w)
  {
    forall w | Over(w, |m.events|)
      ensures !Violates(m, w)
    {
      if Fireable(m, w) {
        AbstractionFollows(m, hs, w);
      }
    }
  }

  method ReplayLeaf(m: Model, w: EventWord, i: nat) returns (stuck: bool)
    requires ValidModel(m) && Over(w, |m.events|) && MonitorAt(m.mon, |m.events|, w) >= 0 && i < |m.leaves|
    ensures stuck <==> At(m.leaves, m.events, w, i) < 0
    ensures stuck ==> i !in m.propLeaves
  {
    var u := ProjectOnto(m, w, i);
    ProjectOver(m.leaves, m.events, w, i);
    stuck := false;
    if u != [] {
      var q := m.leaves[i].Fire(u);
      stuck := q.None?;
    }
  }

  /** Replay by projection: the leaves that cannot fire their part of the witness. */
  method Replay(m: Model, w: EventWord) returns (culprits: seq<nat>)
    requires ValidModel(m) && Over(w, |m.events|) && MonitorAt(m.mon, |m.events|, w) >= 0
    ensures Increasing(culprits)
    ensures forall i: nat :: i in culprits <==> i < |m.leaves| && At(m.leaves, m.events, w, i) < 0
    ensures forall i :: i in culprits ==> i !in m.propLeaves
  {
    hide At, MonitorAt;
    culprits := [];
    for i: nat := 0 to |m.leaves|
      invariant Increasing(culprits)
      invariant forall j :: 0 <= j < |culprits| ==> culprits[j] < i
      invariant forall j: nat :: j in culprits <==> j < i && At(m.leaves, m.events, w, j) < 0
      invariant forall j :: j in culprits ==> j !in m.propLeaves
    {
      var stuck := ReplayLeaf(m, w, i);
      if stuck {
        // "property-leaf projection failed on replay" is never reported:
        assert i !in m.propLeaves;
        culprits := culprits + [i];
      }
    }
  }

  /** A spurious witness: its culprits' classifiers accept what the leaves cannot fire. */
  lemma CulpritAccepts(m: Model, hs: seq<Option<Classifier>>, w: EventWord, i: nat)
    requires ValidModel(m) && Profiled(m, hs) && i < |m.leaves|
    requires Synchronised(Components(m, hs), m.events, m.mon) && Witness(Components(m, hs), m.events, m.mon, w)
    requires At(m.leaves, m.events, w, i) < 0 && i !in m.propLeaves
    ensures var u := Project(m.events, w, i);
            && hs[i].Some? && Over(u, m.leaves[i].nLetters)
            && hs[i].value.Accepts(u) && !m.leaves[i].Fires(u)
  {
    ComponentAt(m, hs, w, i);
    assert At(Components(m, hs), m.events, w, i) >= 0;
  }
}
