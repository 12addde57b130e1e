/**
 Certificates as data, and the checker that trusts nothing of the loop
 (src/surface_certcheck.cc). A leaf's index stands for its name; an index outside
 the model is a name the model does not know.
 */
module Certcheck {
  import opened Words
  import opened Finite
  import opened Leaves
  import opened Exploration
  import opened Classifiers
  import opened Teacher
  import opened Models
  import opened Abstraction

  /** `(classifier LEAF K DEAD (a C L D)*)`. */
  datatype ClassifierForm = ClassifierForm(leaf: int, k: int, dead: int, actions: seq<(int, int, int)>)

  /** `(use INSTANCE REPRESENTATIVE)`. */
  datatype UseForm = UseForm(inst: int, rep: int)

  /** `inv` lists, per abstract state, (leaf, value) pairs. */
  datatype Certificate = Certificate(tables: seq<ClassifierForm>, uses: seq<UseForm>, inv: seq<seq<(int, int)>>)

  // ----- Class tables -----

  /** The action table after some actions, -1 where none was given yet; none if an action is out of range. */
  function Filled(k: nat, n: nat, actions: seq<(int, int, int)>): (r: Option<seq<seq<int>>>)
    ensures r.Some? ==>
              && |r.value| == k
              && forall c :: 0 <= c < k ==> |r.value[c]| == n && forall a :: 0 <= a < n ==> -1 <= r.value[c][a] < k
    decreases |actions|
  {
    if actions == [] then Some(seq(k, _ => seq(n, _ => -1)))
    else
      var before := Filled(k, n, actions[..|actions| - 1]);
      var (c, a, d) := actions[|actions| - 1];
      if before.None? || !(0 <= c < k && 0 <= a < n && 0 <= d < k) then None
      else Some(before.value[c := before.value[c][a := d]])
  }

  /** Every action is in range. */
  ghost predicate InRange(k: nat, n: nat, actions: seq<(int, int, int)>) {
    forall x :: 0 <= x < |actions| ==> 0 <= actions[x].0 < k && 0 <= actions[x].1 < n && 0 <= actions[x].2 < k
  }

  /** The target of class `c` and letter `a` is the one last given. */
  ghost predicate LastTarget(actions: seq<(int, int, int)>, c: int, a: int, d: int) {
    || (d == -1 && forall x :: 0 <= x < |actions| ==> (actions[x].0, actions[x].1) != (c, a))
    || (exists x :: 0 <= x < |actions| && actions[x] == (c, a, d)
                    && forall y :: x < y < |actions| ==> (actions[y].0, actions[y].1) != (c, a))
  }

  lemma LastTargetAppend(actions: seq<(int, int, int)>, c: int, a: int, d: int)
    requires actions != []
    requires var (c', a', d') := actions[|actions| - 1];
             if (c', a') == (c, a) then d == d' else LastTarget(actions[..|actions| - 1], c, a, d)
    ensures LastTarget(actions, c, a, d)
  {
    var n := |actions| - 1;
    var before := actions[..n];
    if (actions[n].0, actions[n].1) == (c, a) {
      assert actions[n] == (c, a, d);
    } else if x :| 0 <= x < n && before[x] == (c, a, d)
                   && forall y :: x < y < n ==> (before[y].0, before[y].1) != (c, a) {
      assert actions[x] == (c, a, d);
      assert forall y :: x < y < n ==> actions[y] == before[y];
    } else {
      assert forall x :: 0 <= x < n ==> actions[x] == before[x];
    }
  }

  /** The form fills its table exactly when every action is in range, and then the last action for an entry counts. */
  lemma {:induction false} FilledIs(k: nat, n: nat, actions: seq<(int, int, int)>)
    ensures Filled(k, n, actions).Some? <==> InRange(k, n, actions)
    ensures Filled(k, n, actions).Some? ==>
              forall c, a :: 0 <= c < k && 0 <= a < n ==> LastTarget(actions, c, a, Filled(k, n, actions).value[c][a])
    decreases |actions|
  {
    if actions != [] {
      var before, last := actions[..|actions| - 1], actions[|actions| - 1];
      FilledIs(k, n, before);
      assert actions == before + [last];
      if Filled(k, n, actions).Some? {
        var act := Filled(k, n, actions).value;
        forall c, a | 0 <= c < k && 0 <= a < n
          ensures LastTarget(actions, c, a, act[c][a])
        {
          if (last.0, last.1) != (c, a) {
            assert act[c][a] == Filled(k, n, before).value[c][a];
          }
          LastTargetAppend(actions, c, a, act[c][a]);
        }
      }
    }
  }

  /** Every entry of the action table was given. */
  ghost predicate Complete(act: seq<seq<int>>) {
    forall c, a :: 0 <= c < |act| && 0 <= a < |act[c]| ==> act[c][a] >= 0
  }

  /** `h` is the class table a form spells for a leaf with `n` letters. */
  ghost predicate Spells(f: ClassifierForm, n: nat, h: Classifier) {
    && f.k >= 1 && -1 <= f.dead < f.k
    && var act := Filled(f.k, n, f.actions);
       && act.Some? && Complete(act.value)
       && h.nLetters == n && h.dead == f.dead && h.reps == []
       && |h.act| == f.k
       && forall c :: 0 <= c < f.k ==> |h.act[c]| == n && forall a :: 0 <= a < n ==> h.act[c][a] == act.value[c][a]
  }

  lemma SpellsUnique(f: ClassifierForm, n: nat, h: Classifier, h': Classifier)
    requires Spells(f, n, h) && Spells(f, n, h')
    ensures h == h' && h.WellFormed()
  {
    forall c | 0 <= c < |h.act|
      ensures h.act[c] == h'.act[c]
    {
    }
  }

  /** Read one class table: header, actions, completeness. */
  method ParseTable(f: ClassifierForm, n: nat) returns (r: Option<Classifier>)
    ensures r.Some? ==> Spells(f, n, r.value) && r.value.WellFormed()
    ensures r.None? ==> forall h :: !Spells(f, n, h)
  {
    if f.k < 1 || f.dead < -1 || f.dead >= f.k {
      return None;
    }
    var act: seq<seq<int>> := seq(f.k, _ => seq(n, _ => -1));
    for i := 0 to |f.actions|
      invariant Filled(f.k, n, f.actions[..i]) == Some(act)
    {
      var (c, a, d) := f.actions[i];
      assert f.actions[..i + 1][..i] == f.actions[..i];
      if !(0 <= c < f.k && 0 <= a < n && 0 <= d < f.k) {
        assert Filled(f.k, n, f.actions[..i + 1]).None?;
        FilledNone(f.k, n, f.actions, i + 1);
        return None;
      }
      act := act[c := act[c][a := d]];
    }
    assert f.actions[..|f.actions|] == f.actions;
    if exists c, a :: 0 <= c < |act| && 0 <= a < |act[c]| && act[c][a] < 0 {
      return None;
    }
    var h := Classifier(n, f.dead,
                        seq(|act|, c requires 0 <= c < |act| =>
                          seq(|act[c]|, a requires 0 <= a < |act[c]| && act[c][a] >= 0 => act[c][a] as nat)), []);
    r := Some(h);
  }

  /** One action out of range spoils the form. */
  lemma {:induction false} FilledNone(k: nat, n: nat, actions: seq<(int, int, int)>, i: nat)
    requires i <= |actions| && Filled(k, n, actions[..i]).None?
    ensures Filled(k, n, actions).None?
    decreases |actions| - i
  {
    if i < |actions| {
      assert actions[..i + 1][..i] == actions[..i];
      FilledNone(k, n, actions, i + 1);
    } else {
      assert actions[..i] == actions;
    }
  }

  // ----- One table per leaf -----

  /** `own` holds the tables of the leaves that have a classifier form of their own. */
  ghost predicate OwnTables(m: Model, tables: seq<ClassifierForm>, own: seq<Option<Classifier>>) {
    && |own| == |m.leaves|
    && (forall x, y :: 0 <= x < y < |tables| ==> tables[x].leaf != tables[y].leaf)
    && (forall x :: 0 <= x < |tables| ==> 0 <= tables[x].leaf < |m.leaves|)
    && (forall x :: 0 <= x < |tables| ==>
          var i := tables[x].leaf;
          own[i].Some? && own[i].value.WellFormed() && Spells(tables[x], m.leaves[i].nLetters, own[i].value))
    && (forall i :: 0 <= i < |own| && own[i].Some? ==> exists x :: 0 <= x < |tables| && tables[x].leaf == i)
  }

  /** The classifier forms determine the tables. */
  lemma OwnTablesUnique(m: Model, tables: seq<ClassifierForm>, own: seq<Option<Classifier>>, own': seq<Option<Classifier>>)
    requires OwnTables(m, tables, own) && OwnTables(m, tables, own')
    ensures own == own'
  {
    forall i | 0 <= i < |own|
      ensures own[i] == own'[i]
    {
      if own[i].Some? || own'[i].Some? {
        var x :| 0 <= x < |tables| && tables[x].leaf == i;
        SpellsUnique(tables[x], m.leaves[i].nLetters, own[i].value, own'[i].value);
      }
    }
  }

  lemma OwnTablesPrefix(m: Model, tables: seq<ClassifierForm>, own: seq<Option<Classifier>>, j: nat)
    requires j < |tables| && OwnTables(m, tables, own)
    ensures 0 <= tables[j].leaf < |m.leaves|
    ensures forall x :: 0 <= x < j ==> tables[x].leaf != tables[j].leaf
    ensures Spells(tables[j], m.leaves[tables[j].leaf].nLetters, own[tables[j].leaf].value)
  {
  }

  /** Read all class tables: no duplicates, no unknown leaf, no malformed table. */
  method ParseTables(m: Model, tables: seq<ClassifierForm>) returns (r: Option<seq<Option<Classifier>>>)
    ensures r.Some? ==> OwnTables(m, tables, r.value)
    ensures r.None? ==> forall own :: !OwnTables(m, tables, own)
  {
    var own: seq<Option<Classifier>> := seq(|m.leaves|, _ => None);
    for j: nat := 0 to |tables|
      invariant OwnTables(m, tables[..j], own)
    {
      var f := tables[j];
      var duplicate := exists x :: 0 <= x < j && tables[x].leaf == f.leaf;
      if duplicate || !(0 <= f.leaf < |m.leaves|) {
        forall own' | OwnTables(m, tables, own')
          ensures false
        {
          OwnTablesPrefix(m, tables, own', j);
        }
        return None;
      }
      var h := ParseTable(f, m.leaves[f.leaf].nLetters);
      if h.None? {
        forall own' | OwnTables(m, tables, own')
          ensures false
        {
          OwnTablesPrefix(m, tables, own', j);
        }
        return None;
      }
      OwnTablesExtend(m, tables, j, own, h.value);
      own := own[f.leaf := h];
    }
    assert tables[..|tables|] == tables;
    return Some(own);
  }

  lemma OwnTablesExtend(m: Model, tables: seq<ClassifierForm>, j: nat, own: seq<Option<Classifier>>, h: Classifier)
    requires j < |tables| && OwnTables(m, tables[..j], own)
    requires 0 <= tables[j].leaf < |m.leaves| && forall x :: 0 <= x < j ==> tables[x].leaf != tables[j].leaf
    requires h.WellFormed() && Spells(tables[j], m.leaves[tables[j].leaf].nLetters, h)
    ensures OwnTables(m, tables[..j + 1], own[tables[j].leaf := Some(h)])
  {
    hide Spells, Classifier.WellFormed;
    var more, own' := tables[..j + 1], own[tables[j].leaf := Some(h)];
    forall x | 0 <= x < |more|
      ensures var i := more[x].leaf;
              own'[i].Some? && own'[i].value.WellFormed() && Spells(more[x], m.leaves[i].nLetters, own'[i].value)
    {
      if x < j {
        assert more[x] == tables[..j][x];
      }
    }
    forall i | 0 <= i < |own'| && own'[i].Some?
      ensures exists x :: 0 <= x < |more| && more[x].leaf == i
    {
      if i == tables[j].leaf {
        assert more[j].leaf == i;
      } else {
        var x :| 0 <= x < j && tables[..j][x].leaf == i;
        assert more[x].leaf == i;
      }
    }
  }

  /** The representative an instance was last aliased to. */
  function LastUse(uses: seq<UseForm>, i: int): (r: Option<int>)
    ensures r.Some? <==> exists x :: 0 <= x < |uses| && uses[x].inst == i
    decreases |uses|
  {
    if uses == [] then None
    else if uses[|uses| - 1].inst == i then Some(uses[|uses| - 1].rep)
    else LastUse(uses[..|uses| - 1], i)
  }

  /** A later alias of an instance replaces the earlier ones. */
  lemma {:induction false} LastUseIs(uses: seq<UseForm>, x: nat)
    requires x < |uses| && forall y :: x < y < |uses| ==> uses[y].inst != uses[x].inst
    ensures LastUse(uses, uses[x].inst) == Some(uses[x].rep)
    decreases |uses|
  {
    if x < |uses| - 1 {
      LastUseIs(uses[..|uses| - 1], x);
    }
  }

  /** An alias resolves: known leaves, a table at the representative, one alphabet size. */
  predicate AliasOk(m: Model, own: seq<Option<Classifier>>, inst: int, rep: int)
    requires |own| == |m.leaves|
  {
    && 0 <= inst < |m.leaves| && 0 <= rep < |m.leaves| && own[rep].Some?
    && own[rep].value.nLetters == m.leaves[inst].nLetters
  }

  /** The table of a leaf: its own, else the one it aliases. */
  function Effective(own: seq<Option<Classifier>>, uses: seq<UseForm>, i: nat): Option<Classifier>
    requires i < |own|
  {
    if own[i].Some? then own[i]
    else
      match LastUse(uses, i)
      case None => None
      case Some(rep) => if 0 <= rep < |own| then own[rep] else None
  }

  /** A table of its own comes first; else the one at the end of the last alias; else none. */
  lemma EffectiveIs(own: seq<Option<Classifier>>, uses: seq<UseForm>, i: nat, x: nat)
    requires i < |own|
    ensures own[i].Some? ==> Effective(own, uses, i) == own[i]
    ensures own[i].None? && (forall y :: 0 <= y < |uses| ==> uses[y].inst != i) ==> Effective(own, uses, i).None?
    ensures own[i].None? && x < |uses| && uses[x].inst == i && (forall y :: x < y < |uses| ==> uses[y].inst != i) ==>
              Effective(own, uses, i) == if 0 <= uses[x].rep < |own| then own[uses[x].rep] else None
  {
    if x < |uses| && uses[x].inst == i && forall y :: x < y < |uses| ==> uses[y].inst != i {
      LastUseIs(uses, x);
    }
  }

  /** The tables of the non-property leaves. */
  function TablesOf(m: Model, own: seq<Option<Classifier>>, uses: seq<UseForm>): seq<Option<Classifier>>
    requires |own| == |m.leaves|
  {
    seq(|own|, i requires 0 <= i < |own| => if i in m.propLeaves then None else Effective(own, uses, i))
  }

  /** Every alias resolves and every non-property leaf has a table. */
  ghost predicate Resolved(m: Model, own: seq<Option<Classifier>>, uses: seq<UseForm>)
    requires |own| == |m.leaves|
  {
    && (forall x :: 0 <= x < |uses| ==> AliasOk(m, own, uses[x].inst, LastUse(uses, uses[x].inst).value))
    && (forall i :: 0 <= i < |m.leaves| && i !in m.propLeaves ==> Effective(own, uses, i).Some?)
  }

  method Resolve(m: Model, own: seq<Option<Classifier>>, uses: seq<UseForm>) returns (ok: bool)
    requires |own| == |m.leaves|
    ensures ok <==> Resolved(m, own, uses)
  {
    for x := 0 to |uses|
      invariant forall y :: 0 <= y < x ==> AliasOk(m, own, uses[y].inst, LastUse(uses, uses[y].inst).value)
    {
      if !AliasOk(m, own, uses[x].inst, LastUse(uses, uses[x].inst).value) {
        return false;
      }
    }
    for i: nat := 0 to |m.leaves|
      invariant forall j :: 0 <= j < i && j !in m.propLeaves ==> Effective(own, uses, j).Some?
    {
      if i !in m.propLeaves && Effective(own, uses, i).None? {
        return false;
      }
    }
    return true;
  }

  lemma ResolvedTabled(m: Model, tables: seq<ClassifierForm>, own: seq<Option<Classifier>>, uses: seq<UseForm>)
    requires OwnTables(m, tables, own) && Resolved(m, own, uses)
    ensures Tabled(m, TablesOf(m, own, uses))
  {
    forall i | 0 <= i < |own| && i !in m.propLeaves
      ensures var h := Effective(own, uses, i);
              h.Some? && h.value.WellFormed() && h.value.nLetters == m.leaves[i].nLetters
    {
      if own[i].Some? {
        var x :| 0 <= x < |tables| && tables[x].leaf == i;
      } else {
        var x :| 0 <= x < |uses| && uses[x].inst == i;
        assert AliasOk(m, own, i, LastUse(uses, i).value);
        var y :| 0 <= y < |tables| && tables[y].leaf == LastUse(uses, i).value;
      }
    }
  }

  // ----- (L): the inclusion walks -----

  /** Every declared table accepts every trace of its own leaf. */
  ghost predicate Inclusions(m: Model, own: seq<Option<Classifier>>)
    requires |own| == |m.leaves|
  {
    forall i :: 0 <= i < |own| && own[i].Some? ==> Certified(m.leaves[i], own[i].value)
  }

  /** One inclusion walk per declared table; the initial class must be live too. */
  method CheckInclusions(m: Model, own: seq<Option<Classifier>>) returns (ok: bool)
    requires |own| == |m.leaves|
    requires forall i :: 0 <= i < |own| && own[i].Some? ==> Fits(m.leaves[i], own[i].value)
    ensures ok <==> Inclusions(m, own)
  {
    for i := 0 to |own|
      invariant forall j :: 0 <= j < i && own[j].Some? ==> Certified(m.leaves[j], own[j].value)
    {
      if own[i].Some? {
        var h := own[i].value;
        var certified, w := Certify(m.leaves[i], h);
        assert m.leaves[i].Fires([]) && (h.Accepts([]) <==> h.Live(0));
        if !certified || !h.Live(0) {
          return false;
        }
      }
    }
    return true;
  }

  // ----- Abstract states -----

  /** The value each leaf is given, -1 for none, the last one given counting; none if a pair names an unknown leaf. */
  function Values(n: nat, pairs: seq<(int, int)>): (r: Option<seq<int>>)
    ensures r.Some? ==> |r.value| == n
    decreases |pairs|
  {
    if pairs == [] then Some(seq(n, _ => -1))
    else
      var before := Values(n, pairs[..|pairs| - 1]);
      var (i, v) := pairs[|pairs| - 1];
      if before.None? || !(0 <= i < n) then None else Some(before.value[i := v])
  }

  /** The value of leaf `i` is the one last given, -1 for none. */
  ghost predicate LastValue(pairs: seq<(int, int)>, i: int, v: int) {
    || (v == -1 && forall x :: 0 <= x < |pairs| ==> pairs[x].0 != i)
    || (exists x :: 0 <= x < |pairs| && pairs[x] == (i, v) && forall y :: x < y < |pairs| ==> pairs[y].0 != i)
  }

  /** The entry gives the leaves these values. */
  ghost predicate Gives(n: nat, pairs: seq<(int, int)>, vals: seq<int>) {
    && |vals| == n
    && (forall x :: 0 <= x < |pairs| ==> 0 <= pairs[x].0 < n)
    && forall i :: 0 <= i < n ==> LastValue(pairs, i, vals[i])
  }

  lemma LastValueUnique(pairs: seq<(int, int)>, i: int, v: int, v': int)
    requires LastValue(pairs, i, v) && LastValue(pairs, i, v')
    ensures v == v'
  {
    if x :| 0 <= x < |pairs| && pairs[x] == (i, v) && forall y :: x < y < |pairs| ==> pairs[y].0 != i {
      var x' :| 0 <= x' < |pairs| && pairs[x'] == (i, v') && forall y :: x' < y < |pairs| ==> pairs[y].0 != i;
      assert x == x';
    }
  }

  lemma LastValueAppend(pairs: seq<(int, int)>, i: int, v: int)
    requires pairs != []
    requires var n := |pairs| - 1; if pairs[n].0 == i then v == pairs[n].1 else LastValue(pairs[..n], i, v)
    ensures LastValue(pairs, i, v)
  {
    var n := |pairs| - 1;
    var before := pairs[..n];
    if pairs[n].0 == i {
      assert pairs[n] == (i, v);
    } else if x :| 0 <= x < n && before[x] == (i, v) && forall y :: x < y < n ==> before[y].0 != i {
      assert pairs[x] == (i, v);
      assert forall y :: x < y < n ==> pairs[y] == before[y];
    } else {
      assert forall x :: 0 <= x < n ==> pairs[x] == before[x];
    }
  }

  lemma {:induction false} ValuesGive(n: nat, pairs: seq<(int, int)>)
    ensures Values(n, pairs).Some? <==> forall x :: 0 <= x < |pairs| ==> 0 <= pairs[x].0 < n
    ensures Values(n, pairs).Some? ==> Gives(n, pairs, Values(n, pairs).value)
    decreases |pairs|
  {
    if pairs != [] {
      var before, last := pairs[..|pairs| - 1], pairs[|pairs| - 1];
      ValuesGive(n, before);
      assert pairs == before + [last];
      if Values(n, pairs).Some? {
        var vals := Values(n, pairs).value;
        forall i | 0 <= i < n
          ensures LastValue(pairs, i, vals[i])
        {
          LastValueAppend(pairs, i, vals[i]);
        }
      }
    }
  }

  lemma GivesUnique(n: nat, pairs: seq<(int, int)>, vals: seq<int>, vals': seq<int>)
    requires Gives(n, pairs, vals) && Gives(n, pairs, vals')
    ensures vals == vals'
  {
    hide LastValue;
    forall i | 0 <= i < n
      ensures vals[i] == vals'[i]
    {
      LastValueUnique(pairs, i, vals[i], vals'[i]);
    }
  }

  /** The monitor state that shows these property values: the last one listed. */
  function StateShowing(values: seq<seq<int>>, vals: seq<int>): (r: Option<nat>)
    ensures r.Some? ==> r.value < |values| && values[r.value] == vals && forall j :: r.value < j < |values| ==> values[j] != vals
    ensures r.None? ==> vals !in values
    decreases |values|
  {
    if values == [] then None
    else if values[|values| - 1] == vals then Some(|values| - 1)
    else StateShowing(values[..|values| - 1], vals)
  }

  /** The values of the property leaves among the values of all leaves. */
  function PropertyValues(props: seq<nat>, vals: seq<int>): seq<int>
    requires forall k :: 0 <= k < |props| ==> props[k] < |vals|
  {
    seq(|props|, k requires 0 <= k < |props| => vals[props[k]])
  }

  /** Every non-property leaf is given a class of its table. */
  predicate ClassesInRange(m: Model, hs: seq<Option<Classifier>>, vals: seq<int>)
    requires |hs| == |vals| == |m.leaves|
  {
    forall i :: 0 <= i < |vals| ==> hs[i].Some? ==> 0 <= vals[i] < |hs[i].value.act|
  }

  /** The classes of the leaves that have a table, 0 for the others. */
  function Standing(m: Model, hs: seq<Option<Classifier>>, vals: seq<int>): seq<nat>
    requires |hs| == |vals| == |m.leaves| && ClassesInRange(m, hs, vals)
  {
    seq(|vals|, i requires 0 <= i < |vals| => if hs[i].None? then 0 else vals[i])
  }

  /** The abstract state an `inv` entry spells, none if it spells none. */
  function Decoded(m: Model, hs: seq<Option<Classifier>>, pairs: seq<(int, int)>): Option<State>
    requires |hs| == |m.leaves| && forall k :: 0 <= k < |m.propLeaves| ==> m.propLeaves[k] < |m.leaves|
  {
    match Values(|m.leaves|, pairs)
    case None => None
    case Some(vals) =>
      match StateShowing(m.monitorValues, PropertyValues(m.propLeaves, vals))
      case None => None
      case Some(s) =>
        if !ClassesInRange(m, hs, vals) then None
        else Some(State(s, Standing(m, hs, vals)))
  }

  /** State `s` of the monitor is the last that shows the values of the property leaves. */
  ghost predicate LastShows(m: Model, s: nat, vals: seq<int>)
    requires forall k :: 0 <= k < |m.propLeaves| ==> m.propLeaves[k] < |vals|
  {
    && s < |m.monitorValues| && |m.monitorValues[s]| == |m.propLeaves|
    && (forall k :: 0 <= k < |m.propLeaves| ==> m.monitorValues[s][k] == vals[m.propLeaves[k]])
    && forall j :: s < j < |m.monitorValues| ==> m.monitorValues[j] != m.monitorValues[s]
  }

  /** Leaves with a table stand at the class they are given, the others at 0. */
  ghost predicate Stands(hs: seq<Option<Classifier>>, vals: seq<int>, xs: seq<nat>)
    requires |hs| == |vals|
  {
    |xs| == |vals| && forall i :: 0 <= i < |xs| ==> if hs[i].None? then xs[i] == 0 else xs[i] == vals[i] < hs[i].value.K()
  }

  /** What an entry spells, from its values alone. */
  ghost predicate Entry(m: Model, hs: seq<Option<Classifier>>, pairs: seq<(int, int)>, vals: seq<int>, s: State)
    requires |hs| == |m.leaves| && forall k :: 0 <= k < |m.propLeaves| ==> m.propLeaves[k] < |m.leaves|
  {
    Gives(|m.leaves|, pairs, vals) && LastShows(m, s.monitor, vals) && Stands(hs, vals, s.xs)
  }

  lemma LastShowsIs(m: Model, s: nat, vals: seq<int>)
    requires forall k :: 0 <= k < |m.propLeaves| ==> m.propLeaves[k] < |vals|
    ensures StateShowing(m.monitorValues, PropertyValues(m.propLeaves, vals)) == Some(s) <==> LastShows(m, s, vals)
  {
    var shown := PropertyValues(m.propLeaves, vals);
    if LastShows(m, s, vals) {
      assert m.monitorValues[s] == shown;
      assert shown in m.monitorValues;
    }
  }

  lemma StandsIs(m: Model, hs: seq<Option<Classifier>>, vals: seq<int>, xs: seq<nat>)
    requires |hs| == |vals| == |m.leaves|
    ensures Stands(hs, vals, xs) <==>
            && ClassesInRange(m, hs, vals)
            && xs == Standing(m, hs, vals)
  {
  }

  /** An entry is decoded exactly as its values say. */
  lemma DecodedIs(m: Model, hs: seq<Option<Classifier>>, pairs: seq<(int, int)>, s: State)
    requires |hs| == |m.leaves| && forall k :: 0 <= k < |m.propLeaves| ==> m.propLeaves[k] < |m.leaves|
    ensures Decoded(m, hs, pairs) == Some(s) <==> exists vals :: Entry(m, hs, pairs, vals, s)
  {
    hide Gives, LastShows, Stands;
    ValuesGive(|m.leaves|, pairs);
    var given := Values(|m.leaves|, pairs);
    if given.Some? {
      LastShowsIs(m, s.monitor, given.value);
      StandsIs(m, hs, given.value, s.xs);
      assert Entry(m, hs, pairs, given.value, s) <==> Decoded(m, hs, pairs) == Some(s);
    }
    if vals :| Entry(m, hs, pairs, vals, s) {
      GivesInRange(|m.leaves|, pairs, vals);
      GivesUnique(|m.leaves|, pairs, vals, given.value);
    }
  }

  lemma GivesInRange(n: nat, pairs: seq<(int, int)>, vals: seq<int>)
    requires Gives(n, pairs, vals)
    ensures forall x :: 0 <= x < |pairs| ==> 0 <= pairs[x].0 < n
  {
  }

  /** `states` are the abstract states the entries spell. */
  ghost predicate Spelled(m: Model, hs: seq<Option<Classifier>>, inv: seq<seq<(int, int)>>, states: seq<State>)
    requires |hs| == |m.leaves| && forall k :: 0 <= k < |m.propLeaves| ==> m.propLeaves[k] < |m.leaves|
  {
    |states| == |inv| && forall x :: 0 <= x < |inv| ==> Decoded(m, hs, inv[x]) == Some(states[x])
  }

  method DecodeAll(m: Model, hs: seq<Option<Classifier>>, inv: seq<seq<(int, int)>>) returns (r: Option<seq<State>>)
    requires |hs| == |m.leaves| && forall k :: 0 <= k < |m.propLeaves| ==> m.propLeaves[k] < |m.leaves|
    ensures r.Some? ==> Spelled(m, hs, inv, r.value)
    ensures r.None? ==> forall states :: !Spelled(m, hs, inv, states)
  {
    var states: seq<State> := [];
    for x := 0 to |inv|
      invariant |states| == x && forall y :: 0 <= y < x ==> Decoded(m, hs, inv[y]) == Some(states[y])
    {
      var s := Decoded(m, hs, inv[x]);
      if s.None? {
        return None;
      }
      states := states + [s.value];
    }
    return Some(states);
  }

  // ----- (G1)-(G3) -----

  /** (G1) the initial state is listed, (G2) the list is closed under every event, (G3) no state of it is bad. */
  method CheckInvariant(comps: seq<Lts>, events: seq<Event>, mon: Monitor, states: seq<State>) returns (ok: bool)
    ensures ok <==> Inductive(comps, events, mon, Elements(states))
  {
    var edges := ProductEdges(comps, events, mon);
    if InitialState(|comps|) !in states {
      assert InitialState(|comps|) !in Elements(states);
      return false;
    }
    for x := 0 to |states|
      invariant forall y :: 0 <= y < x ==> states[y].monitor < |mon.bad| && !mon.bad[states[y].monitor]
      invariant forall y, e :: 0 <= y < x && 0 <= e < |events| && edges(states[y], e).Some? ==>
                  edges(states[y], e).value in states
    {
      var s := states[x];
      assert s in Elements(states);
      if s.monitor >= |mon.bad| || mon.bad[s.monitor] {
        return false;
      }
      for e := 0 to |events|
        invariant forall d :: 0 <= d < e && edges(s, d).Some? ==> edges(s, d).value in states
      {
        var next := ProductStep(comps, events, mon, s, e);
        if next.Some? && next.value !in states {
          assert edges(s, e) == next;
          return false;
        }
      }
    }
    forall p, e | p in Elements(states) && 0 <= e < |events| && edges(p, e).Some?
      ensures edges(p, e).value in Elements(states)
    {
      var y :| 0 <= y < |states| && states[y] == p;
    }
    return true;
  }

  // ----- The checker -----

  /** The obligations of a certificate. */
  ghost predicate Passes(m: Model, cert: Certificate)
    requires ValidModel(m)
  {
    exists own: seq<Option<Classifier>>, states: seq<State> ::
      && OwnTables(m, cert.tables, own)
      && Resolved(m, own, cert.uses)
      && Inclusions(m, own)
      && Spelled(m, TablesOf(m, own, cert.uses), cert.inv, states)
      && Inductive(Components(m, TablesOf(m, own, cert.uses)), m.events, m.mon, Elements(states))
  }

  lemma SpelledUnique(m: Model, hs: seq<Option<Classifier>>, inv: seq<seq<(int, int)>>, states: seq<State>,
                      states': seq<State>)
    requires |hs| == |m.leaves| && forall k :: 0 <= k < |m.propLeaves| ==> m.propLeaves[k] < |m.leaves|
    requires Spelled(m, hs, inv, states) && Spelled(m, hs, inv, states')
    ensures states == states'
  {
    forall x | 0 <= x < |inv|
      ensures states[x] == states'[x]
    {
      assert Decoded(m, hs, inv[x]) == Some(states[x]) == Some(states'[x]);
    }
  }

  /** Check a certificate; true when no obligation fails. */
  method Check(m: Model, cert: Certificate) returns (pass: bool)
    requires ValidModel(m)
    ensures pass <==> Passes(m, cert)
  {
    var own := ParseTables(m, cert.tables);
    if own.None? {
      return false;
    }
    forall own' | OwnTables(m, cert.tables, own')
      ensures own' == own.value
    {
      OwnTablesUnique(m, cert.tables, own.value, own');
    }
    var resolved := Resolve(m, own.value, cert.uses);
    if !resolved {
      return false;
    }
    forall i | 0 <= i < |own.value| && own.value[i].Some?
      ensures Fits(m.leaves[i], own.value[i].value)
    {
      var x :| 0 <= x < |cert.tables| && cert.tables[x].leaf == i;
    }
    var included := CheckInclusions(m, own.value);
    if !included {
      return false;
    }
    var hs := TablesOf(m, own.value, cert.uses);
    var states := DecodeAll(m, hs, cert.inv);
    if states.None? {
      return false;
    }
    pass := CheckInvariant(Components(m, hs), m.events, m.mon, states.value);
    forall states' | Spelled(m, hs, cert.inv, states')
      ensures states' == states.value
    {
      SpelledUnique(m, hs, cert.inv, states.value, states');
    }
  }

  /** Each alias without a table of its own names a leaf with the transition table of its representative. */
  ghost predicate AliasesMatch(m: Model, cert: Certificate) {
    forall x :: 0 <= x < |cert.uses| ==>
      var inst := cert.uses[x].inst;
      var rep := LastUse(cert.uses, inst).value;
      0 <= inst < |m.leaves| && 0 <= rep < |m.leaves|
      && (forall y :: 0 <= y < |cert.tables| ==> cert.tables[y].leaf != inst)
      ==> m.leaves[inst] == m.leaves[rep]
  }

  /** With matching aliases, the walk of each declared table covers every leaf that uses it. */
  lemma TablesCertified(m: Model, cert: Certificate, own: seq<Option<Classifier>>)
    requires OwnTables(m, cert.tables, own) && Resolved(m, own, cert.uses) && Inclusions(m, own)
    requires AliasesMatch(m, cert)
    ensures AllCertified(m, TablesOf(m, own, cert.uses))
  {
    hide Spells;
    var hs := TablesOf(m, own, cert.uses);
    forall i | 0 <= i < |hs| && hs[i].Some?
      ensures Certified(m.leaves[i], hs[i].value)
    {
      if own[i].None? {
        var x :| 0 <= x < |cert.uses| && cert.uses[x].inst == i;
        assert AliasOk(m, own, i, LastUse(cert.uses, i).value);
        assert m.leaves[i] == m.leaves[LastUse(cert.uses, i).value];
      }
    }
  }

  /** Soundness: a certificate that passes proves the model safe. */
  lemma PassesSound(m: Model, cert: Certificate)
    requires ValidModel(m) && Passes(m, cert) && AliasesMatch(m, cert)
    ensures forall w :: !Violates(m, w)
  {
    var own: seq<Option<Classifier>>, states: seq<State> :|
      && OwnTables(m, cert.tables, own)
      && Resolved(m, own, cert.uses)
      && Inclusions(m, own)
      && Spelled(m, TablesOf(m, own, cert.uses), cert.inv, states)
      && Inductive(Components(m, TablesOf(m, own, cert.uses)), m.events, m.mon, Elements(states));
    TablesCertified(m, cert, own);
    ResolvedTabled(m, cert.tables, own, cert.uses);
    InductiveAbstraction(m, TablesOf(m, own, cert.uses), Elements(states));
  }

  /** An inductive set of a certified abstraction proves the model safe. */
  lemma InductiveAbstraction(m: Model, hs: seq<Option<Classifier>>, inv: set<State>)
    requires ValidModel(m) && Tabled(m, hs) && AllCertified(m, hs)
    requires Inductive(Components(m, hs), m.events, m.mon, inv)
    ensures forall w :: !Violates(m, w)
  {
    ComponentsSynchronised(m, hs);
    InductiveSafe(Components(m, hs), m.events, m.mon, inv);
    AbstractionSound(m, hs);
  }
}
