/**
 The certificate a run emits on `holds` (src/cegar/loop.cc), as data, and the
 fact that the checker accepts it.
 */
module Emission {
  import opened Words
  import opened Finite
  import opened Leaves
  import opened Classifiers
  import opened Teacher
  import opened Models
  import MonitorBuild
  import opened Abstraction
  import opened Runs
  import opened Certcheck

  /** A class table without its access words, which certificates do not carry. */
  function Bare(h: Classifier): Classifier {
    h.(reps := [])
  }

  // ----- One table -----

  /** Where an action was given by some (c, a, d), the last one counts. */
  lemma FilledStep(k: nat, n: nat, actions: seq<(int, int, int)>, c: nat, a: nat, d: nat)
    requires Filled(k, n, actions).Some? && c < k && a < n && d < k
    ensures var t := Filled(k, n, actions).value;
            Filled(k, n, actions + [(c, a, d)]) == Some(t[c := t[c][a := d]])
  {
    var more := actions + [(c, a, d)];
    assert more[..|actions|] == actions;
  }

  /** The table spelled row by row, up to row `c` and letter `a`. */
  ghost predicate FilledTo(h: Classifier, t: seq<seq<int>>, c: nat, a: nat)
    requires h.WellFormed()
  {
    && |t| == |h.act|
    && (forall i :: 0 <= i < |t| ==> |t[i]| == h.nLetters)
    && (forall i, b :: 0 <= i < |t| && 0 <= b < h.nLetters && (i < c || (i == c && b < a)) ==> t[i][b] == h.act[i][b])
  }

  method EmitTable(leaf: nat, h: Classifier) returns (f: ClassifierForm)
    requires h.WellFormed()
    ensures f.leaf == leaf && Spells(f, h.nLetters, Bare(h))
  {
    var k, n := |h.act|, h.nLetters;
    var actions: seq<(int, int, int)> := [];
    for c := 0 to k
      invariant Filled(k, n, actions).Some? && FilledTo(h, Filled(k, n, actions).value, c, 0)
    {
      for a := 0 to n
        invariant Filled(k, n, actions).Some? && FilledTo(h, Filled(k, n, actions).value, c, a)
      {
        FilledStep(k, n, actions, c, a, h.act[c][a]);
        actions := actions + [(c, a, h.act[c][a])];
      }
    }
    f := ClassifierForm(leaf, k, h.dead, actions);
  }

  // ----- All tables -----

  /** The forms for the first `n` leaves: a table for the first leaf of each entry, an alias for the others. */
  ghost predicate Emitted(m: Model, ofLeaf: seq<int>, profile: seq<Option<Classifier>>, n: nat,
                          tables: seq<ClassifierForm>, uses: seq<UseForm>, repLeaf: map<int, nat>,
                          own: seq<Option<Classifier>>)
    requires |ofLeaf| == |profile| == |m.leaves|
  {
    && n <= |m.leaves| && OwnTables(m, tables, own)
    && (forall i :: 0 <= i < |own| && own[i].Some? ==>
          i < n && ofLeaf[i] >= 0 && profile[i].Some? && own[i].value == Bare(profile[i].value))
    && (forall i :: 0 <= i < n && ofLeaf[i] >= 0 ==> ofLeaf[i] in repLeaf)
    && (forall e :: e in repLeaf ==> repLeaf[e] < n && ofLeaf[repLeaf[e]] == e && own[repLeaf[e]].Some?)
    && (forall i :: 0 <= i < n && ofLeaf[i] >= 0 && own[i].None? ==> LastUse(uses, i) == Some(repLeaf[ofLeaf[i]]))
    && (forall x :: 0 <= x < |uses| ==>
          0 <= uses[x].inst < n && own[uses[x].inst].None? && ofLeaf[uses[x].inst] >= 0)
  }

  lemma EmittedTable(m: Model, ofLeaf: seq<int>, profile: seq<Option<Classifier>>, n: nat,
                     tables: seq<ClassifierForm>, uses: seq<UseForm>, repLeaf: map<int, nat>,
                     own: seq<Option<Classifier>>, f: ClassifierForm)
    requires |ofLeaf| == |profile| == |m.leaves| && Emitted(m, ofLeaf, profile, n, tables, uses, repLeaf, own)
    requires n < |m.leaves| && ofLeaf[n] >= 0 && ofLeaf[n] !in repLeaf
    requires profile[n].Some? && profile[n].value.WellFormed() && profile[n].value.nLetters == m.leaves[n].nLetters
    requires f.leaf == n && Spells(f, m.leaves[n].nLetters, Bare(profile[n].value))
    ensures Emitted(m, ofLeaf, profile, n + 1, tables + [f], uses, repLeaf[ofLeaf[n] := n],
                    own[n := Some(Bare(profile[n].value))])
  {
    hide Spells;
    var more := tables + [f];
    assert more[..|tables|] == tables && more[..|tables| + 1] == more;
    assert Bare(profile[n].value).WellFormed();
    forall x | 0 <= x < |tables|
      ensures tables[x].leaf != n
    {
      assert own[tables[x].leaf].Some?;
    }
    OwnTablesExtend(m, more, |tables|, own, Bare(profile[n].value));
  }

  lemma EmittedUse(m: Model, ofLeaf: seq<int>, profile: seq<Option<Classifier>>, n: nat,
                   tables: seq<ClassifierForm>, uses: seq<UseForm>, repLeaf: map<int, nat>,
                   own: seq<Option<Classifier>>)
    requires |ofLeaf| == |profile| == |m.leaves| && Emitted(m, ofLeaf, profile, n, tables, uses, repLeaf, own)
    requires n < |m.leaves| && ofLeaf[n] >= 0 && ofLeaf[n] in repLeaf
    ensures Emitted(m, ofLeaf, profile, n + 1, tables, uses + [UseForm(n, repLeaf[ofLeaf[n]])], repLeaf, own)
  {
    var more := uses + [UseForm(n, repLeaf[ofLeaf[n]])];
    assert more[..|uses|] == uses;
  }

  method EmitTables(m: Model, ofLeaf: seq<int>, profile: seq<Option<Classifier>>)
    returns (tables: seq<ClassifierForm>, uses: seq<UseForm>, ghost repLeaf: map<int, nat>, ghost own: seq<Option<Classifier>>)
    requires SearchProfile(m, ofLeaf, profile)
    ensures Emitted(m, ofLeaf, profile, |m.leaves|, tables, uses, repLeaf, own)
  {
    hide Spells;
    tables, uses := [], [];
    own := seq(|m.leaves|, _ => None);
    var rep: map<int, nat> := map[];
    for i: nat := 0 to |m.leaves|
      invariant Emitted(m, ofLeaf, profile, i, tables, uses, rep, own)
    {
      var entry := ofLeaf[i];
      if entry >= 0 {
        if entry !in rep {
          var f := EmitTable(i, profile[i].value);
          EmittedTable(m, ofLeaf, profile, i, tables, uses, rep, own, f);
          own := own[i := Some(Bare(profile[i].value))];
          rep, tables := rep[entry := i], tables + [f];
        } else {
          EmittedUse(m, ofLeaf, profile, i, tables, uses, rep, own);
          uses := uses + [UseForm(i, rep[entry])];
        }
      }
    }
    repLeaf := rep;
  }

  ghost function BareProfile(profile: seq<Option<Classifier>>): seq<Option<Classifier>> {
    seq(|profile|, i requires 0 <= i < |profile| =>
      match profile[i]
      case Some(h) => Some(Bare(h))
      case None => None)
  }

  /** What the checker reads back is the profile, and every obligation on tables and aliases is met. */
  lemma EmittedResolves(m: Model, ofLeaf: seq<int>, profile: seq<Option<Classifier>>, tables: seq<ClassifierForm>,
                        uses: seq<UseForm>, repLeaf: map<int, nat>, own: seq<Option<Classifier>>)
    requires SearchProfile(m, ofLeaf, profile)
    requires Emitted(m, ofLeaf, profile, |m.leaves|, tables, uses, repLeaf, own)
    ensures TablesOf(m, own, uses) == BareProfile(profile)
    ensures Resolved(m, own, uses) && Inclusions(m, own)
  {
    forall i | 0 <= i < |own| && i !in m.propLeaves
      ensures Effective(own, uses, i) == Some(Bare(profile[i].value))
      ensures own[i].None? ==> AliasOk(m, own, i, LastUse(uses, i).value)
    {
      if own[i].None? {
        var r := repLeaf[ofLeaf[i]];
        assert LastUse(uses, i) == Some(r) && ofLeaf[r] == ofLeaf[i];
        assert profile[r] == profile[i];
      }
    }
    forall i | 0 <= i < |own| && own[i].Some?
      ensures Certified(m.leaves[i], own[i].value)
    {
      BareCertified(m.leaves[i], profile[i].value);
    }
  }

  lemma BareCertified(l: Lts, h: Classifier)
    requires Certified(l, h)
    ensures Certified(l, Bare(h))
  {
    forall w | Over(w, l.nLetters) && l.Fires(w)
      ensures Bare(h).Accepts(w)
    {
      assert h.Accepts(w);
    }
  }

  /** Instances of one entry have one transition table. */
  lemma EmittedAliasesMatch(m: Model, ofLeaf: seq<int>, profile: seq<Option<Classifier>>, cert: Certificate,
                            repLeaf: map<int, nat>, own: seq<Option<Classifier>>)
    requires SearchProfile(m, ofLeaf, profile)
    requires Emitted(m, ofLeaf, profile, |m.leaves|, cert.tables, cert.uses, repLeaf, own)
    ensures AliasesMatch(m, cert)
  {
    forall x | 0 <= x < |cert.uses|
      ensures var inst := cert.uses[x].inst;
              m.leaves[inst] == m.leaves[repLeaf[ofLeaf[inst]]]
    {
      var inst := cert.uses[x].inst;
      assert ofLeaf[repLeaf[ofLeaf[inst]]] == ofLeaf[inst];
    }
  }

  lemma BareComponents(m: Model, profile: seq<Option<Classifier>>)
    requires |profile| == |m.leaves|
    ensures Components(m, BareProfile(profile)) == Components(m, profile)
  {
    forall i | 0 <= i < |profile|
      ensures Components(m, BareProfile(profile))[i] == Components(m, profile)[i]
    {
      if profile[i].Some? {
        var h := profile[i].value;
        forall c | 0 <= c < |h.act|
          ensures AsLts(Bare(h)).delta[c] == AsLts(h).delta[c]
        {
        }
        assert AsLts(Bare(h)).delta == AsLts(h).delta;
      }
    }
  }

  // ----- Abstract states -----

  /** The first position whose leaf is not below `i`. */
  function LowerBound(props: seq<nat>, i: nat): (k: nat)
    requires Increasing(props)
    ensures k <= |props|
    ensures forall j :: 0 <= j < k ==> props[j] < i
    ensures forall j :: k <= j < |props| ==> i <= props[j]
  {
    if props == [] || i <= props[0] then 0 else 1 + LowerBound(props[1..], i)
  }

  /** The value given to leaf `i`: a class, or the value its property leaf shows. */
  function EmittedValue(m: Model, ofLeaf: seq<int>, st: State, i: nat): int
    requires Increasing(m.propLeaves) && |ofLeaf| == |st.xs| && i < |st.xs|
  {
    if ofLeaf[i] >= 0 then st.xs[i]
    else
      var k := LowerBound(m.propLeaves, i);
      if st.monitor < |m.monitorValues| && k < |m.monitorValues[st.monitor]| then m.monitorValues[st.monitor][k] else 0
  }

  method EmitState(m: Model, ofLeaf: seq<int>, profile: seq<Option<Classifier>>, st: State)
    returns (pairs: seq<(int, int)>)
    requires ValidModel(m) && SearchProfile(m, ofLeaf, profile) && Shows(m)
    requires st.monitor < |m.mon.delta| && Placed(Components(m, profile), st.xs)
    ensures Decoded(m, BareProfile(profile), pairs) == Some(st)
  {
    ghost var n := |m.leaves|;
    pairs := [];
    for i: nat := 0 to |m.leaves|
      invariant Values(n, pairs).Some?
      invariant forall j :: 0 <= j < i ==> Values(n, pairs).value[j] == EmittedValue(m, ofLeaf, st, j)
    {
      var x := EmittedValue(m, ofLeaf, st, i);
      assert (pairs + [(i as int, x)])[..|pairs|] == pairs;
      pairs := pairs + [(i, x)];
    }
    DecodedValues(m, ofLeaf, profile, st, pairs);
  }

  lemma DecodedValues(m: Model, ofLeaf: seq<int>, profile: seq<Option<Classifier>>, st: State, pairs: seq<(int, int)>)
    requires ValidModel(m) && SearchProfile(m, ofLeaf, profile) && Shows(m)
    requires st.monitor < |m.mon.delta| && Placed(Components(m, profile), st.xs)
    requires Values(|m.leaves|, pairs).Some?
    requires forall j :: 0 <= j < |m.leaves| ==> Values(|m.leaves|, pairs).value[j] == EmittedValue(m, ofLeaf, st, j)
    ensures Decoded(m, BareProfile(profile), pairs) == Some(st)
  {
    var vals := Values(|m.leaves|, pairs).value;
    var shown := PropertyValues(m.propLeaves, vals);
    forall k | 0 <= k < |m.propLeaves|
      ensures shown[k] == m.monitorValues[st.monitor][k]
    {
      assert m.propLeaves[k] in m.propLeaves;
      var k' := LowerBound(m.propLeaves, m.propLeaves[k]);
      assert k' <= k && m.propLeaves[k] <= m.propLeaves[k'];
    }
    assert shown == m.monitorValues[st.monitor];
    assert shown in m.monitorValues;
    var hs := BareProfile(profile);
    forall i | 0 <= i < |vals|
      ensures hs[i].Some? ==> vals[i] == st.xs[i] < |hs[i].value.act|
      ensures hs[i].None? ==> st.xs[i] == 0
    {
      assert st.xs[i] < Components(m, profile)[i].nStates;
    }
    assert Decoded(m, hs, pairs).value.xs == st.xs;
  }

  method EmitStates(m: Model, ofLeaf: seq<int>, profile: seq<Option<Classifier>>, inv: seq<State>)
    returns (forms: seq<seq<(int, int)>>)
    requires ValidModel(m) && SearchProfile(m, ofLeaf, profile) && Shows(m)
    requires forall s :: s in inv ==> s.monitor < |m.mon.delta| && Placed(Components(m, profile), s.xs)
    ensures Spelled(m, BareProfile(profile), forms, inv)
  {
    forms := [];
    for x := 0 to |inv|
      invariant |forms| == x
      invariant forall y :: 0 <= y < x ==> Decoded(m, BareProfile(profile), forms[y]) == Some(inv[y])
    {
      assert inv[x] in inv;
      var f := EmitState(m, ofLeaf, profile, inv[x]);
      forms := forms + [f];
    }
  }

  // ----- The certificate -----

  /** The certificate of a run that holds: the checker passes it, and its aliases match. */
  method EmitCertificate(m: Model, v: RunVerdict) returns (cert: Certificate)
    requires v.RunHolds? && Justified(m, v) && Shows(m)
    ensures Passes(m, cert) && AliasesMatch(m, cert)
  {
    var tables, uses, repLeaf, own := EmitTables(m, v.ofLeaf, v.profile);
    var forms := EmitStates(m, v.ofLeaf, v.profile, v.inv);
    cert := Certificate(tables, uses, forms);
    EmittedResolves(m, v.ofLeaf, v.profile, tables, uses, repLeaf, own);
    EmittedAliasesMatch(m, v.ofLeaf, v.profile, cert, repLeaf, own);
    BareComponents(m, v.profile);
    assert OwnTables(m, cert.tables, own);
  }

  /** Run, emit, check: the checker agrees with every run that holds. */
  method VerifyAndCheck(m: Model, opt: Options) returns (r: RunResult, pass: bool)
    requires ValidModel(m) && Shows(m)
    ensures Justified(m, r.verdict)
    ensures pass <==> r.verdict.RunHolds?
  {
    ghost var learners, history;
    r, learners, history := Verify(m, opt);
    if r.verdict.RunHolds? {
      var cert := EmitCertificate(m, r.verdict);
      pass := Check(m, cert);
    } else {
      pass := false;
    }
  }

  // ----- The alias assumption is needed -----

  /** A leaf that never moves, one that always does, and a property leaf that one event makes bad. */
  function UnsafeModel(): Model {
    Model([Lts(1, 1, [[-1]]), Lts(1, 1, [[0]]), Lts(2, 1, [[1], [-1]])],
          [Event([(1, 0), (2, 0)])],
          Monitor([[1], [-1]], [false, true]), [2], [[0], [1]])
  }

  /** Leaf 1 borrows the table of leaf 0, which has the same alphabet but fewer moves. */
  function WrongAlias(): Certificate {
    Certificate([ClassifierForm(0, 2, 1, [(0, 0, 1), (1, 0, 1)])], [UseForm(1, 0)], [[(0, 0), (1, 0), (2, 0)]])
  }

  lemma UnsafeSynchronised()
    ensures var m := UnsafeModel();
            Synchronised(m.leaves, m.events, m.mon) && MonitorBuild.PropertyLeaves(m.leaves, m.propLeaves)
  {
    var m := UnsafeModel();
    assert FitsEvent(m.leaves, m.events[0]);
    assert MonitorLts(m.mon, 1).Valid();
  }

  /** The monitor is the sub-product of the one property leaf. */
  lemma UnsafeExact()
    ensures ValidModel(UnsafeModel())
  {
    UnsafeSynchronised();
    var m := UnsafeModel();
    var tuples: seq<MonitorBuild.Tuple> := [[0], [1]];
    assert LetterFor(m.events[0], 2) == Some(0) by {
      assert LetterFrom(m.events[0].support, 2) == LetterFrom([(2, 0)], 2);
    }
    assert MonitorBuild.Found(m.leaves, m.propLeaves, tuples) by {
      assert tuples[0] == seq(1, _ => 0);
    }
    forall s | 0 <= s < 2
      ensures MonitorBuild.RowRight(m.leaves, m.events, m.propLeaves, tuples, tuples[s], m.mon.delta[s])
    {
      assert MonitorBuild.LocalStep(m.leaves, m.events, m.propLeaves, tuples[s], 0, 0) == if s == 0 then 1 else -1;
    }
    forall w | Over(w, 1)
      ensures MonitorAt(m.mon, 1, w) >= 0 <==>
              forall i :: 0 <= i < 3 && i in m.propLeaves ==> At(m.leaves, m.events, w, i) >= 0
    {
      MonitorBuild.SubProductExact(m.leaves, m.events, m.propLeaves, tuples, m.mon, w);
      assert m.propLeaves[0] == 2;
    }
  }

  lemma UnsafeViolates()
    ensures ValidModel(UnsafeModel()) && Violates(UnsafeModel(), [0])
  {
    UnsafeExact();
    var m := UnsafeModel();
    assert Init([0]) == [];
    forall i | 0 <= i < 3
      ensures At(m.leaves, m.events, [0], i) >= 0
    {
      assert Project(m.events, [], i) == [] && At(m.leaves, m.events, [], i) == 0;
      AtStep(m.leaves, m.events, [0], i);
      assert m.events[0].support[1..] == [(2, 0)];
    }
    assert MonitorAt(m.mon, 1, []) == 0;
    assert MonitorAt(m.mon, 1, [0]) == 1;
  }

  /** The table of leaf 0: every step is dead. */
  function Blocked(): Classifier {
    Classifier(1, 1, [[1], [1]], [])
  }

  function WrongOwn(): seq<Option<Classifier>> {
    [Some(Blocked()), None, None]
  }

  lemma BlockedSpelled()
    ensures Spells(WrongAlias().tables[0], 1, Blocked()) && Blocked().WellFormed()
  {
    var f := WrongAlias().tables[0];
    FilledStep(2, 1, [], 0, 0, 1);
    FilledStep(2, 1, [(0, 0, 1)], 1, 0, 1);
    assert f.actions == [(0, 0, 1)] + [(1, 0, 1)] && [] + [(0, 0, 1)] == [(0, 0, 1)];
  }

  /** Leaf 0 fires nothing, so the walk finds its table right. */
  lemma BlockedCertified()
    ensures Certified(UnsafeModel().leaves[0], Blocked())
  {
    var l, h := Lts(1, 1, [[-1]]), Blocked();
    forall w | Over(w, 1) && l.Fires(w)
      ensures h.Accepts(w)
    {
      assert w == [];
    }
  }

  lemma WrongAliasTables()
    ensures var m, cert := UnsafeModel(), WrongAlias();
            OwnTables(m, cert.tables, WrongOwn()) && Resolved(m, WrongOwn(), cert.uses) && Inclusions(m, WrongOwn())
  {
    BlockedSpelled();
    BlockedCertified();
    assert WrongAlias().tables[0].leaf == 0;
  }

  /** Each new leaf adds its value. */
  lemma ValuesStep(n: nat, pairs: seq<(int, int)>, i: nat, v: int)
    requires i < n && Values(n, pairs).Some?
    ensures Values(n, pairs + [(i, v)]) == Some(Values(n, pairs).value[i := v])
  {
    assert (pairs + [(i as int, v)])[..|pairs|] == pairs;
  }

  lemma WrongAliasStates()
    ensures var m, cert := UnsafeModel(), WrongAlias();
            Spelled(m, TablesOf(m, WrongOwn(), cert.uses), cert.inv, [InitialState(3)])
  {
    var m, cert := UnsafeModel(), WrongAlias();
    var hs := [Some(Blocked()), Some(Blocked()), None];
    assert TablesOf(m, WrongOwn(), cert.uses) == hs;
    ValuesStep(3, [], 0, 0);
    ValuesStep(3, [(0, 0)], 1, 0);
    ValuesStep(3, [(0, 0), (1, 0)], 2, 0);
    assert cert.inv[0] == [(0, 0), (1, 0)] + [(2, 0)] && [(0, 0), (1, 0)] == [(0, 0)] + [(1, 0)] && [] + [(0, 0)] == [(0, 0)];
    var vals := Values(3, cert.inv[0]).value;
    assert vals == [0, 0, 0];
    assert PropertyValues(m.propLeaves, vals) == [0];
    assert m.monitorValues[..1] == [[0]];
    assert StateShowing(m.monitorValues, [0]) == Some(0);
    assert Decoded(m, hs, cert.inv[0]).value.xs == InitialState(3).xs;
  }

  /** The borrowed table blocks the only event. */
  lemma WrongAliasInductive()
    ensures var m, cert := UnsafeModel(), WrongAlias();
            Inductive(Components(m, TablesOf(m, WrongOwn(), cert.uses)), m.events, m.mon, Elements([InitialState(3)]))
  {
    var m, cert := UnsafeModel(), WrongAlias();
    var hs := [Some(Blocked()), Some(Blocked()), None];
    assert TablesOf(m, WrongOwn(), cert.uses) == hs;
    var comps := Components(m, hs);
    assert comps[1] == AsLts(Blocked()) && AsLts(Blocked()).delta[0][0] == -1;
    assert ProductStep(comps, m.events, m.mon, InitialState(3), 0) == None;
    assert Elements([InitialState(3)]) == {InitialState(3)};
  }

  /** Without matching aliases a passing certificate proves nothing: this one passes on a model with a violation. */
  lemma WrongAliasPasses()
    ensures ValidModel(UnsafeModel()) && Violates(UnsafeModel(), [0])
    ensures Passes(UnsafeModel(), WrongAlias())
  {
    UnsafeViolates();
    WrongAliasTables();
    WrongAliasStates();
    WrongAliasInductive();
    PassesIntro(UnsafeModel(), WrongAlias(), WrongOwn(), [InitialState(3)]);
  }

  lemma PassesIntro(m: Model, cert: Certificate, own: seq<Option<Classifier>>, states: seq<State>)
    requires ValidModel(m) && OwnTables(m, cert.tables, own) && Resolved(m, own, cert.uses) && Inclusions(m, own)
    requires Spelled(m, TablesOf(m, own, cert.uses), cert.inv, states)
    requires Inductive(Components(m, TablesOf(m, own, cert.uses)), m.events, m.mon, Elements(states))
    ensures Passes(m, cert)
  {
  }
}
